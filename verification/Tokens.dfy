/** Splitting a string at delimiters, as `strtok_r` does. */
module Tokens {
  import opened Words

  /** The longest prefix without a delimiter. */
  function Span(s: string, delims: string): (r: string)
    ensures |r| <= |s|
  {
    if s == "" || s[0] in delims then "" else [s[0]] + Span(s[1..], delims)
  }

  function SkipDelims(s: string, delims: string): string {
    if s != "" && s[0] in delims then SkipDelims(s[1..], delims) else s
  }

  datatype Token = Token(text: string, rest: string)

  /** `strtok_r`. */
  function NextToken(s: string, delims: string): Option<Token> {
    var t := SkipDelims(s, delims);
    var token := Span(t, delims);
    if t == "" then None
    else Some(Token(token, if |token| < |t| then t[|token| + 1..] else ""))
  }

  predicate Free(s: string, delims: string) {
    forall i :: 0 <= i < |s| ==> s[i] !in delims
  }

  lemma {:induction false} SpanOf(s: string, t: string, delims: string)
    requires Free(s, delims) && (t == "" || t[0] in delims)
    ensures Span(s + t, delims) == s
  {
    if s == "" {
      assert s + t == t;
    } else {
      assert (s + t)[1..] == s[1..] + t;
      SpanOf(s[1..], t, delims);
      assert s == [s[0]] + s[1..];
    }
  }

  lemma TokenOf(s: string, c: char, t: string, delims: string)
    requires s != "" && Free(s, delims) && c in delims
    ensures NextToken(s + ([c] + t), delims) == Some(Token(s, t))
  {
    SpanOf(s, [c] + t, delims);
    assert s + ([c] + t) == (s + [c]) + t;
    assert SkipDelims(s + ([c] + t), delims) == s + ([c] + t);
    assert (s + ([c] + t))[|s| + 1..] == t;
  }

  lemma LastTokenOf(s: string, delims: string)
    requires s != "" && Free(s, delims)
    ensures NextToken(s, delims) == Some(Token(s, ""))
  {
    SpanOf(s, "", delims);
    assert s + "" == s;
  }

  predicate Only(s: string, delims: string) {
    forall i :: 0 <= i < |s| ==> s[i] in delims
  }

  /** The token starts behind `n` delimiters and goes up to the next one or the end; behind that one is the
      rest. */
  predicate IsFirstToken(s: string, delims: string, n: nat, t: Token) {
    var end := n + |t.text|;
    && end <= |s| && Only(s[..n], delims)
    && t.text == s[n..end] && t.text != "" && Free(t.text, delims)
    && if end == |s| then t.rest == "" else s[end] in delims && t.rest == s[end + 1..]
  }

  /** There is a token unless there is nothing but delimiters, and it is the first one. */
  lemma TokenMeans(s: string, delims: string)
    ensures NextToken(s, delims) == None <==> Only(s, delims)
    ensures NextToken(s, delims).Some? ==> exists n: nat :: IsFirstToken(s, delims, n, NextToken(s, delims).value)
  {
    hide Span, SkipDelims;
    var n := Leading(s, delims);
    var t := s[n..];
    if t != "" {
      SpanIsFree(t, delims);
      var token := Span(t, delims);
      assert t[..|token|] == s[n..n + |token|];
      assert |token| < |t| ==> t[|token| + 1..] == s[n + |token| + 1..];
      assert IsFirstToken(s, delims, n, NextToken(s, delims).value);
    }
  }

  /** How many delimiters are skipped. */
  lemma {:induction false} Leading(s: string, delims: string) returns (n: nat)
    ensures n <= |s| && Only(s[..n], delims) && SkipDelims(s, delims) == s[n..] && s == s[..n] + s[n..]
    ensures n < |s| ==> s[n] !in delims
  {
    n := 0;
    if s != "" && s[0] in delims {
      n := Leading(s[1..], delims);
      assert s[1..][n..] == s[n + 1..];
      assert s[..n + 1] == [s[0]] + s[1..][..n];
      n := n + 1;
    }
  }

  lemma {:induction false} SpanIsFree(s: string, delims: string)
    ensures var r := Span(s, delims);
      Free(r, delims) && r == s[..|r|] && (|r| < |s| ==> s[|r|] in delims)
    ensures s != "" && s[0] !in delims ==> Span(s, delims) != ""
  {
    if s != "" && s[0] !in delims {
      SpanIsFree(s[1..], delims);
      var r := Span(s, delims);
      assert s[..|r|] == [s[0]] + s[1..][..|r| - 1];
    }
  }
}
