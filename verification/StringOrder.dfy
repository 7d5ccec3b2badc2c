/** Strings in alphabetical order, code point by code point. */
module StringOrder {

  predicate Less(a: string, b: string) {
    b != "" && (a == "" || a[0] < b[0] || (a[0] == b[0] && Less(a[1..], b[1..])))
  }

  /** `b` is the longer one of which `a` is the beginning, or has the greater character where they first
      differ. */
  predicate FirstDifference(a: string, b: string, k: nat) {
    k <= |a| && k < |b| && a[..k] == b[..k] && (k < |a| ==> a[k] < b[k])
  }

  lemma {:induction false} LessMeans(a: string, b: string)
    ensures Less(a, b) <==> exists k: nat :: FirstDifference(a, b, k)
  {
    if a != "" && b != "" && a[0] == b[0] {
      LessMeans(a[1..], b[1..]);
      forall k: nat | k <= |a| - 1 && k < |b| - 1
        ensures FirstDifference(a[1..], b[1..], k) <==> FirstDifference(a, b, k + 1)
      {
        assert a[..k + 1] == [a[0]] + a[1..][..k] && b[..k + 1] == [b[0]] + b[1..][..k];
        assert a[1..][..k] == a[..k + 1][1..] && b[1..][..k] == b[..k + 1][1..];
      }
      if k: nat :| FirstDifference(a, b, k) {
        assert FirstDifference(a[1..], b[1..], k - 1);
      }
    } else if b != "" {
      if Less(a, b) {
        assert FirstDifference(a, b, 0);
      }
      if k: nat :| FirstDifference(a, b, k) {
        assert k > 0 ==> a[..k][0] == b[..k][0];
      }
    }
  }

  lemma {:induction false} LessIsTransitive(a: string, b: string, c: string)
    requires Less(a, b) && Less(b, c)
    ensures Less(a, c)
  {
    if a != "" && a[0] == b[0] == c[0] {
      LessIsTransitive(a[1..], b[1..], c[1..]);
    }
  }

  lemma {:induction false} LessIsTotal(a: string, b: string)
    ensures Less(a, b) || Less(b, a) || a == b
    ensures !(Less(a, b) && Less(b, a)) && !Less(a, a)
  {
    if a != "" && b != "" && a[0] == b[0] {
      LessIsTotal(a[1..], b[1..]);
      assert a == [a[0]] + a[1..] && b == [b[0]] + b[1..];
    }
    if a != "" {
      LessIsTotal(a[1..], a[1..]);
    }
  }

  predicate Increasing(s: seq<string>) {
    forall i, j :: 0 <= i < j < |s| ==> Less(s[i], s[j])
  }

  ghost function Elements(s: seq<string>): set<string> {
    set x | x in s
  }

  function Insert(s: seq<string>, x: string): seq<string> {
    if s == [] || Less(x, s[0]) then [x] + s else [s[0]] + Insert(s[1..], x)
  }

  lemma {:induction false} InsertKeepsOrder(s: seq<string>, x: string)
    requires Increasing(s) && x !in s
    ensures Increasing(Insert(s, x))
    ensures Elements(Insert(s, x)) == Elements(s) + {x}
  {
    if s != [] {
      LessIsTotal(x, s[0]);
      if Less(x, s[0]) {
        forall i | 0 < i < |s| ensures Less(x, s[i]) {
          LessIsTransitive(x, s[0], s[i]);
        }
      } else {
        InsertKeepsOrder(s[1..], x);
        var rest := Insert(s[1..], x);
        assert s == [s[0]] + s[1..];
        forall i | 0 <= i < |rest| ensures Less(s[0], rest[i]) {
          assert rest[i] in Elements(rest);
          if rest[i] != x {
            var j :| 0 <= j < |s[1..]| && s[1..][j] == rest[i];
            assert Less(s[0], s[j + 1]);
          }
        }
      }
    }
  }

  /** `sorted(lines)`, by what it promises. */
  ghost function Sorted(lines: set<string>): (s: seq<string>)
    ensures Increasing(s) && Elements(s) == lines
  {
    if lines == {} then []
    else
      var x :| x in lines;
      var s := Sorted(lines - {x});
      assert x !in Elements(s);
      InsertKeepsOrder(s, x);
      Insert(s, x)
  }

  /** There is only one such list. */
  lemma {:induction false} SortedIsUnique(s: seq<string>, t: seq<string>)
    requires Increasing(s) && Increasing(t) && Elements(s) == Elements(t)
    ensures s == t
  {
    if s == [] || t == [] {
      NoElements(s);
      NoElements(t);
    } else {
      SmallestFirst(s, t);
      SmallestFirst(t, s);
      LessIsTotal(s[0], t[0]);
      forall x ensures x in Elements(s[1..]) <==> x in Elements(t[1..]) {
        TailElements(s, x);
        TailElements(t, x);
      }
      assert Elements(s[1..]) == Elements(t[1..]);
      SortedIsUnique(s[1..], t[1..]);
      assert s == [s[0]] + s[1..] && t == [t[0]] + t[1..];
    }
  }

  lemma NoElements(s: seq<string>)
    ensures s == [] <==> Elements(s) == {}
  {
    if s != [] {
      assert s[0] in Elements(s);
    }
  }

  lemma SmallestFirst(s: seq<string>, t: seq<string>)
    requires Increasing(t) && s != [] && t != [] && Elements(s) == Elements(t)
    ensures s[0] == t[0] || Less(t[0], s[0])
  {
    assert s[0] in Elements(t);
  }

  lemma TailElements(s: seq<string>, x: string)
    requires Increasing(s) && s != []
    ensures x in Elements(s[1..]) <==> x in Elements(s) && x != s[0]
  {
    LessIsTotal(s[0], s[0]);
    if x in s[1..] {
      var j :| 0 <= j < |s[1..]| && s[1..][j] == x;
      assert Less(s[0], s[j + 1]);
    }
  }

  method Sort(lines: set<string>) returns (s: seq<string>)
    ensures s == Sorted(lines)
  {
    s := [];
    var rest := lines;
    while rest != {}
      invariant rest <= lines && Increasing(s) && Elements(s) == lines - rest
      decreases rest
    {
      var x :| x in rest;
      assert x !in Elements(s);
      InsertKeepsOrder(s, x);
      s, rest := Insert(s, x), rest - {x};
    }
    SortedIsUnique(s, Sorted(lines));
  }
}
