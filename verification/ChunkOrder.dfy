/** When chunks that come back in another order make up the same bytes. */
module ChunkOrder {
  import opened Words
  import opened Arithmetic
  import opened Mbufs
  import opened VerifyData

  /** The chunks in the order in which they came back. */
  function Reordered(chunks: seq<seq<byte>>, order: seq<nat>): (r: seq<seq<byte>>)
    requires forall i :: 0 <= i < |order| ==> order[i] < |chunks|
    ensures |r| == |order| && forall i :: 0 <= i < |r| ==> r[i] == chunks[order[i]]
  {
    seq(|order|, i requires 0 <= i < |order| => chunks[order[i]])
  }

  /** Each of `n` chunks comes back once. */
  ghost predicate IsOrder(order: seq<nat>, n: nat) {
    multiset(order) == multiset(Range(0, n))
  }

  lemma OrderMeans(order: seq<nat>, n: nat)
    requires IsOrder(order, n)
    ensures |order| == n && OnceEach(order, n)
  {
    assert |multiset(order)| == |multiset(Range(0, n))|;
    assert multiset{} + multiset(order) == multiset(Range(0, n));
    BackOnceEach(multiset{}, order, n);
  }

  /** All chunks but the last are `len` bytes long, and the last is not longer. */
  predicate Chunky(chunks: seq<seq<byte>>, len: nat) {
    forall i :: 0 <= i < |chunks| ==> |chunks[i]| <= len && (i < |chunks| - 1 ==> |chunks[i]| == len)
  }

  // ---- Any order ----

  /** Where in the output the chunk lands that comes back as number `i`: the last chunk, if it is already
      there, may be shorter than the others. */
  function Landing(chunks: seq<seq<byte>>, order: seq<nat>, len: nat, i: nat): int
    requires i <= |order|
  {
    if |chunks| > 0 && |chunks| - 1 in order[..i] then (i - 1) * len + |chunks[|chunks| - 1]| else i * len
  }

  lemma {:induction false} LandingIsBehind(chunks: seq<seq<byte>>, order: seq<nat>, len: nat, i: nat)
    requires Chunky(chunks, len) && OnceEach(order, |chunks|) && i <= |order|
    ensures |Join(Reordered(chunks, order)[..i])| == Landing(chunks, order, len, i)
  {
    if i > 0 {
      var parts, last, b := Reordered(chunks, order), |chunks| - 1, order[i - 1];
      LandingIsBehind(chunks, order, len, i - 1);
      assert parts[..i] == parts[..i - 1] + [parts[i - 1]];
      JoinOneMore(parts[..i - 1], parts[i - 1]);
      assert order[..i] == order[..i - 1] + [b];
      Distribute(i - 1, 1, len);
      if last in order[..i - 1] {
        Distribute(i - 2, 1, len);
        assert b != last;
      }
    }
  }

  /** The chunk that comes back as number `i` is the piece of the input at the place where it lands. */
  predicate LandsRight(chunks: seq<seq<byte>>, order: seq<nat>, len: nat, input: seq<byte>, i: nat)
    requires i < |order| && order[i] < |chunks|
  {
    var at := Landing(chunks, order, len, i);
    0 <= at <= at + |chunks[order[i]]| <= |input| && chunks[order[i]] == input[at..at + |chunks[order[i]]|]
  }

  /** A piece of `s` behind the `at` bytes that came before. */
  predicate PieceAt(part: seq<byte>, s: seq<byte>, at: nat) {
    at + |part| <= |s| && part == s[at..at + |part|]
  }

  predicate AllPieces(parts: seq<seq<byte>>, s: seq<byte>) {
    forall i :: 0 <= i < |parts| ==> PieceAt(parts[i], s, |Join(parts[..i])|)
  }

  lemma OneMorePiece(parts: seq<seq<byte>>, s: seq<byte>)
    requires parts != []
    ensures var n := |parts| - 1;
      AllPieces(parts, s) <==> AllPieces(parts[..n], s) && PieceAt(parts[n], s, |Join(parts[..n])|)
  {
    hide PieceAt, Join;
    var n := |parts| - 1;
    forall i | 0 <= i < n ensures parts[..n][..i] == parts[..i] && parts[..n][i] == parts[i] {
    }
  }

  lemma {:induction false} JoinIsPieces(parts: seq<seq<byte>>, s: seq<byte>)
    requires |Join(parts)| <= |s|
    ensures Join(parts) == s[..|Join(parts)|] <==> AllPieces(parts, s)
  {
    hide AllPieces;
    if parts == [] {
      assert AllPieces(parts, s) by { NoPieces(s); }
    } else {
      var n := |parts| - 1;
      var before, part := Join(parts[..n]), parts[n];
      JoinIsPieces(parts[..n], s);
      OneMorePiece(parts, s);
      assert s[..|before| + |part|] == s[..|before|] + s[|before|..|before| + |part|];
      SplitEqual(before, part, s[..|before|], s[|before|..|before| + |part|]);
    }
  }

  lemma NoPieces(s: seq<byte>)
    ensures AllPieces([], s)
  {
  }

  lemma SplitEqual(a: seq<byte>, b: seq<byte>, c: seq<byte>, d: seq<byte>)
    requires |a| == |c|
    ensures a + b == c + d <==> a == c && b == d
  {
    assert (a + b)[..|a|] == a && (a + b)[|a|..] == b;
    assert (c + d)[..|c|] == c && (c + d)[|c|..] == d;
  }

  /** In whatever order the chunks come back, their length is the same. */
  lemma WholeLength(chunks: seq<seq<byte>>, order: seq<nat>, len: nat)
    requires Chunky(chunks, len) && IsOrder(order, |chunks|)
    ensures forall i :: 0 <= i < |order| ==> order[i] < |chunks|
    ensures |Join(Reordered(chunks, order))|
      == if chunks == [] then 0 else (|chunks| - 1) * len + |chunks[|chunks| - 1]|
  {
    hide Join;
    var n := |chunks|;
    OrderMeans(order, n);
    LandingIsBehind(chunks, order, len, n);
    assert Reordered(chunks, order)[..n] == Reordered(chunks, order);
    assert order[..n] == order;
    if n > 0 {
      InRange(order, n, n - 1);
    }
  }

  lemma SameLength(chunks: seq<seq<byte>>, order: seq<nat>, len: nat)
    requires Chunky(chunks, len) && IsOrder(order, |chunks|)
    ensures forall i :: 0 <= i < |order| ==> order[i] < |chunks|
    ensures |Join(Reordered(chunks, order))| == |Join(chunks)|
  {
    hide Join, Chunky, IsOrder;
    WholeLength(chunks, order, len);
    assert IsOrder(Range(0, |chunks|), |chunks|) by { SameOrder(|chunks|); }
    WholeLength(chunks, Range(0, |chunks|), len);
    assert Reordered(chunks, Range(0, |chunks|)) == chunks;
  }

  lemma SameOrder(n: nat)
    ensures IsOrder(Range(0, n), n)
  {
  }

  lemma LandingRight(chunks: seq<seq<byte>>, order: seq<nat>, len: nat, input: seq<byte>, i: nat)
    requires Chunky(chunks, len) && OnceEach(order, |chunks|) && i < |order|
    ensures LandsRight(chunks, order, len, input, i) <==>
      PieceAt(chunks[order[i]], input, |Join(Reordered(chunks, order)[..i])|)
  {
    hide Join, Landing, Chunky;
    LandingIsBehind(chunks, order, len, i);
  }

  /** For every order: the output is the input exactly when every chunk lands right. */
  lemma RightExactlyWhenAllLandRight(chunks: seq<seq<byte>>, order: seq<nat>, len: nat)
    requires Chunky(chunks, len) && IsOrder(order, |chunks|)
    ensures forall i :: 0 <= i < |order| ==> order[i] < |chunks|
    ensures Join(Reordered(chunks, order)) == Join(chunks) <==>
      forall i :: 0 <= i < |order| ==> LandsRight(chunks, order, len, Join(chunks), i)
  {
    hide Join, Landing, Chunky, PieceAt, LandsRight, IsOrder;
    OrderMeans(order, |chunks|);
    var parts, input := Reordered(chunks, order), Join(chunks);
    SameLength(chunks, order, len);
    JoinIsPieces(parts, input);
    assert input[..|input|] == input;
    forall i | 0 <= i < |order|
      ensures LandsRight(chunks, order, len, input, i) <==> PieceAt(parts[i], input, |Join(parts[..i])|)
    {
      LandingRight(chunks, order, len, input, i);
    }
  }

  // ---- Orders that keep the last chunk in place ----

  /** The last chunk is as long as the others, or comes back last. */
  predicate Aligned(chunks: seq<seq<byte>>, order: seq<nat>, len: nat)
    requires |order| == |chunks|
  {
    chunks == [] || |chunks[|chunks| - 1]| == len || order[|chunks| - 1] == |chunks| - 1
  }

  lemma {:induction false} SameLengthsJoin(parts: seq<seq<byte>>, others: seq<seq<byte>>)
    requires |parts| == |others| && forall i :: 0 <= i < |parts| ==> |parts[i]| == |others[i]|
    ensures |Join(parts)| == |Join(others)|
    ensures Join(parts) == Join(others) <==> parts == others
  {
    if parts != [] {
      var n := |parts| - 1;
      SameLengthsJoin(parts[..n], others[..n]);
      SplitEqual(Join(parts[..n]), parts[n], Join(others[..n]), others[n]);
      assert parts == parts[..n] + [parts[n]] && others == others[..n] + [others[n]];
    }
  }

  lemma AlignedLengths(chunks: seq<seq<byte>>, order: seq<nat>, len: nat, i: nat)
    requires Chunky(chunks, len) && OnceEach(order, |chunks|) && |order| == |chunks|
    requires Aligned(chunks, order, len) && i < |order|
    ensures |chunks[order[i]]| == |chunks[i]|
  {
    assert order[i] == |chunks| - 1 && order[|chunks| - 1] == |chunks| - 1 ==> i == |chunks| - 1;
  }

  /** Then the output is the input exactly when every chunk has changed places only with equal ones. */
  lemma RightExactlyWhenEqual(chunks: seq<seq<byte>>, order: seq<nat>, len: nat)
    requires Chunky(chunks, len) && IsOrder(order, |chunks|)
    ensures |order| == |chunks| && forall i :: 0 <= i < |order| ==> order[i] < |chunks|
    ensures Aligned(chunks, order, len) ==>
      (Join(Reordered(chunks, order)) == Join(chunks) <==>
       forall i :: 0 <= i < |order| ==> chunks[order[i]] == chunks[i])
  {
    hide Join, Aligned, Chunky;
    OrderMeans(order, |chunks|);
    if Aligned(chunks, order, len) {
      var parts := Reordered(chunks, order);
      forall i | 0 <= i < |parts| ensures |parts[i]| == |chunks[i]| {
        AlignedLengths(chunks, order, len, i);
      }
      SameLengthsJoin(parts, chunks);
    }
  }
}
