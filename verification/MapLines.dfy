/** Lines of a linker version map, as devtools/update_version_map_abi.py recognises them with three
    regular expressions. */
module MapLines {

  import opened Words

  // ---- Characters ----

  datatype Class = Space | Name | NameDot

  predicate IsUnicodeSpace(c: char) {
    var u := c as int;
    9 <= u <= 13 || 0x1C <= u <= 0x20 || u in [0x85, 0xA0, 0x1680] || 0x2000 <= u <= 0x200A
      || u in [0x2028, 0x2029, 0x202F, 0x205F, 0x3000]
  }

  predicate IsName(c: char) {
    'a' <= c <= 'z' || 'A' <= c <= 'Z' || '0' <= c <= '9' || c == '_'
  }

  predicate Member(c: char, k: Class) {
    match k
    case Space => IsUnicodeSpace(c)
    case Name => IsName(c)
    case NameDot => IsName(c) || c == '.'
  }

  lemma Punctuation(c: char)
    requires c in "{};#"
    ensures !Member(c, Space) && !Member(c, Name) && !Member(c, NameDot)
  {
  }

  lemma Disjoint(c: char)
    ensures Member(c, NameDot) ==> !Member(c, Space)
    ensures Member(c, Name) ==> Member(c, NameDot)
  {
  }

  predicate All(s: string, k: Class) {
    forall i :: 0 <= i < |s| ==> Member(s[i], k)
  }

  /** What is left after the longest prefix of characters of the class. */
  function After(s: string, k: Class): string {
    if s != "" && Member(s[0], k) then After(s[1..], k) else s
  }

  /** That longest prefix. */
  function Run(s: string, k: Class): string {
    if s != "" && Member(s[0], k) then [s[0]] + Run(s[1..], k) else ""
  }

  lemma {:induction false} RunAndAfter(s: string, k: Class)
    ensures s == Run(s, k) + After(s, k) && All(Run(s, k), k)
    ensures After(s, k) != "" ==> !Member(After(s, k)[0], k)
  {
    if s != "" && Member(s[0], k) {
      RunAndAfter(s[1..], k);
      assert s == [s[0]] + s[1..];
      assert [s[0]] + (Run(s[1..], k) + After(s[1..], k)) == ([s[0]] + Run(s[1..], k)) + After(s[1..], k);
    } else {
      assert s == "" + s;
    }
  }

  lemma {:induction false} Skip(p: string, t: string, k: Class)
    requires All(p, k) && (t != "" ==> !Member(t[0], k))
    ensures After(p + t, k) == t
  {
    if p == "" {
      assert p + t == t;
    } else {
      assert (p + t)[1..] == p[1..] + t;
      Skip(p[1..], t, k);
    }
  }

  lemma SkipAll(p: string, k: Class)
    requires All(p, k)
    ensures After(p, k) == ""
  {
    assert p + "" == p;
    Skip(p, "", k);
  }

  // ---- Stripping ----

  function StripEnd(s: string): (r: string)
    ensures |r| <= |s| && r == s[..|r|]
    ensures r != "" ==> !Member(r[|r| - 1], Space)
  {
    if s != "" && Member(s[|s| - 1], Space) then StripEnd(s[..|s| - 1]) else s
  }

  /** `line.strip()`; a newline is white space too. */
  function Strip(s: string): (r: string)
    ensures Stripped(r)
    ensures forall c :: c in r ==> c in s
  {
    RunAndAfter(s, Space);
    StripEnd(After(s, Space))
  }

  predicate Stripped(s: string) {
    s != "" ==> !Member(s[0], Space) && !Member(s[|s| - 1], Space)
  }

  /** White space in front of a stripped line does not change what is read. */
  lemma StripIndented(indent: string, s: string)
    requires All(indent, Space) && Stripped(s)
    ensures Strip(indent + s) == s
  {
    Skip(indent, s, Space);
  }

  // ---- The three patterns ----

  predicate SectionEnd(s: string) {
    var a := After(s, Space);
    && a != "" && a[0] == '}'
    && var b := After(After(After(a[1..], Space), NameDot), Space);
    b != "" && b[0] == ';' && After(b[1..], Space) == ""
  }

  /** The name of the section that begins. */
  function SectionBegin(s: string): Option<string> {
    var a := After(s, Space);
    var b := After(a, NameDot);
    var c := After(b, Space);
    if b != a && c != "" && c[0] == '{' && After(c[1..], Space) == "" then Some(Run(a, NameDot)) else None
  }

  /** The group `line`: everything from the name on, because what follows it is matched greedily. */
  function FuncLine(s: string): Option<string> {
    var a := After(s, Space);
    var b := After(a, Name);
    var c := After(b, Space);
    if b != a && c != "" && c[0] == ';' && Comment(After(c[1..], Space)) then Some(a) else None
  }

  /** Nothing, or a comment of at least one character besides its mark. */
  predicate Comment(s: string) {
    s == "" || (s[0] == '#' && |s| > 1)
  }

  // ---- What the patterns mean ----

  ghost predicate EndPattern(s: string, w0: string, w1: string, parent: string, w2: string, w3: string) {
    && s == w0 + ("}" + (w1 + (parent + (w2 + (";" + w3)))))
    && All(w0, Space) && All(w1, Space) && All(w2, Space) && All(w3, Space) && All(parent, NameDot)
  }

  lemma SectionEndMatches(s: string)
    ensures SectionEnd(s) <==> exists w0, w1, parent, w2, w3 :: EndPattern(s, w0, w1, parent, w2, w3)
  {
    if SectionEnd(s) {
      EndWitness(s);
    }
    forall w0, w1, parent, w2, w3 | EndPattern(s, w0, w1, parent, w2, w3) ensures SectionEnd(s) {
      EndScan(s, w0, w1, parent, w2, w3);
    }
  }

  lemma EndWitness(s: string)
    requires SectionEnd(s)
    ensures exists w0, w1, parent, w2, w3 :: EndPattern(s, w0, w1, parent, w2, w3)
  {
    hide After, Member, Run, All;
    var a := After(s, Space);
    var x := After(a[1..], Space);
    var y := After(x, NameDot);
    var b := After(y, Space);
    RunAndAfter(s, Space);
    RunAndAfter(a[1..], Space);
    RunAndAfter(x, NameDot);
    RunAndAfter(y, Space);
    RunAndAfter(b[1..], Space);
    assert a == "}" + a[1..] && b == ";" + b[1..];
    assert b[1..] == Run(b[1..], Space);
    assert EndPattern(s, Run(s, Space), Run(a[1..], Space), Run(x, NameDot), Run(y, Space), b[1..]);
  }

  lemma EndScan(s: string, w0: string, w1: string, parent: string, w2: string, w3: string)
    requires EndPattern(s, w0, w1, parent, w2, w3)
    ensures SectionEnd(s)
  {
    hide After, Member, All;
    var b := ";" + w3;
    var rest := w1 + (parent + (w2 + b));
    Punctuation('}');
    Skip(w0, "}" + rest, Space);
    assert ("}" + rest)[1..] == rest;
    EndGap(w1, parent, w2, b);
    assert b[1..] == w3;
    SkipAll(w3, Space);
  }

  lemma EndGap(w1: string, parent: string, w2: string, b: string)
    requires All(w1, Space) && All(w2, Space) && All(parent, NameDot) && b != "" && b[0] == ';'
    ensures After(After(After(w1 + (parent + (w2 + b)), Space), NameDot), Space) == b
  {
    hide After, Member;
    Punctuation(';');
    Skip(w2, b, Space);
    FirstOf(w2, b);
    if parent == "" {
      assert parent + (w2 + b) == w2 + b && w1 + (w2 + b) == (w1 + w2) + b;
      Skip(w1 + w2, b, Space);
      Skip("", b, NameDot);
      Skip("", b, Space);
      assert "" + b == b;
    } else {
      Disjoint(parent[0]);
      Skip(w1, parent + (w2 + b), Space);
      Skip(parent, w2 + b, NameDot);
    }
  }

  /** A gap of white space, or the punctuation behind it, ends a name. */
  lemma FirstOf(w: string, b: string)
    requires All(w, Space) && b != "" && b[0] in "{};#"
    ensures !Member((w + b)[0], Name) && !Member((w + b)[0], NameDot)
  {
    Punctuation(b[0]);
    if w != "" {
      SpaceIsNoName(w[0]);
    }
  }

  ghost predicate BeginPattern(s: string, w0: string, version: string, w1: string, w2: string) {
    && s == w0 + (version + (w1 + ("{" + w2))) && version != ""
    && All(w0, Space) && All(w1, Space) && All(w2, Space) && All(version, NameDot)
  }

  lemma SectionBeginMatches(s: string, version: string)
    ensures SectionBegin(s) == Some(version) <==> exists w0, w1, w2 :: BeginPattern(s, w0, version, w1, w2)
  {
    if SectionBegin(s) == Some(version) {
      BeginWitness(s, version);
    }
    forall w0, w1, w2 | BeginPattern(s, w0, version, w1, w2) ensures SectionBegin(s) == Some(version) {
      BeginScan(s, w0, version, w1, w2);
    }
  }

  lemma BeginWitness(s: string, version: string)
    requires SectionBegin(s) == Some(version)
    ensures exists w0, w1, w2 :: BeginPattern(s, w0, version, w1, w2)
  {
    hide After, Member, Run, All;
    var a := After(s, Space);
    var b := After(a, NameDot);
    var c := After(b, Space);
    RunAndAfter(s, Space);
    RunAndAfter(a, NameDot);
    RunAndAfter(b, Space);
    RunAndAfter(c[1..], Space);
    assert c == "{" + c[1..] && c[1..] == Run(c[1..], Space);
    assert BeginPattern(s, Run(s, Space), version, Run(b, Space), c[1..]);
  }

  lemma BeginScan(s: string, w0: string, version: string, w1: string, w2: string)
    requires BeginPattern(s, w0, version, w1, w2)
    ensures SectionBegin(s) == Some(version)
  {
    hide After, Member, Run;
    var c := "{" + w2;
    Disjoint(version[0]);
    Punctuation('{');
    FirstOf(w1, c);
    Skip(w0, version + (w1 + c), Space);
    Skip(version, w1 + c, NameDot);
    RunAndAfter(version + (w1 + c), NameDot);
    assert Run(version + (w1 + c), NameDot) == (version + (w1 + c))[..|version|] == version;
    Skip(w1, c, Space);
    assert c[1..] == w2;
    SkipAll(w2, Space);
  }

  ghost predicate FuncPattern(line: string, f: string, w1: string, w2: string, comment: string) {
    && line == f + (w1 + (";" + (w2 + comment))) && f != "" && Comment(comment)
    && All(f, Name) && All(w1, Space) && All(w2, Space)
  }

  lemma FuncLineMatches(s: string, line: string)
    ensures FuncLine(s) == Some(line) <==>
      line == After(s, Space) && exists f, w1, w2, comment :: FuncPattern(line, f, w1, w2, comment)
  {
    hide After, Member, Run, All;
    var a := After(s, Space);
    if FuncLine(s) == Some(line) {
      FuncWitness(a);
    }
    forall f, w1, w2, comment | FuncPattern(a, f, w1, w2, comment) ensures FuncLine(s) == Some(a) {
      FuncScan(a, f, w1, w2, comment);
    }
  }

  lemma FuncWitness(a: string)
    requires var b := After(a, Name);
      var c := After(b, Space);
      b != a && c != "" && c[0] == ';' && Comment(After(c[1..], Space))
    ensures exists f, w1, w2, comment :: FuncPattern(a, f, w1, w2, comment)
  {
    hide After, Member, Run, All;
    var b := After(a, Name);
    var c := After(b, Space);
    RunAndAfter(a, Name);
    RunAndAfter(b, Space);
    RunAndAfter(c[1..], Space);
    assert c == ";" + c[1..];
    assert FuncPattern(a, Run(a, Name), Run(b, Space), Run(c[1..], Space), After(c[1..], Space));
  }

  lemma FuncScan(line: string, f: string, w1: string, w2: string, comment: string)
    requires FuncPattern(line, f, w1, w2, comment)
    ensures var b := After(line, Name);
      var c := After(b, Space);
      b != line && c != "" && c[0] == ';' && After(c[1..], Space) == comment
  {
    hide After, Member, Run, All;
    var c := ";" + (w2 + comment);
    Punctuation(';');
    Punctuation('#');
    FirstOf(w1, c);
    Skip(f, w1 + c, Name);
    Skip(w1, c, Space);
    assert c[1..] == w2 + comment;
    Skip(w2, comment, Space);
  }

  lemma SpaceIsNoName(c: char)
    ensures Member(c, Space) || c == ';' ==> !Member(c, Name) && !Member(c, NameDot)
  {
  }

  /** The patterns exclude each other. */
  lemma FuncLineIsNoSection(s: string)
    requires FuncLine(s).Some?
    ensures !SectionEnd(s) && SectionBegin(s) == None
  {
    hide After, Member, Run;
    var a := After(s, Space);
    var b := After(a, Name);
    RunAndAfter(a, Name);
    RunAndAfter(b, Space);
    var f := Run(a, Name);
    Punctuation('}');
    assert Member(a[0], Name);
    forall i | 0 <= i < |f| ensures Member(f[i], NameDot) {
      Disjoint(f[i]);
    }
    FirstOf(Run(b, Space), After(b, Space));
    Skip(f, b, NameDot);
  }
}
