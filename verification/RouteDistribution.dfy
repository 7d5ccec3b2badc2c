/** `complete_distrib` of test-fib/main.c: how many routes of every depth are to be made. */
module RouteDistribution {
  import opened Words
  import opened Arithmetic

  type uint8 = x: int | 0 <= x < 0x100

  const UINT8_MAX := 0xFF

  /** What the user asked for: at each depth a ratio in percent or, where the ratio is `UINT8_MAX`, a
      number; depths of ratio 0 are left to the program. */
  datatype Request = Request(lim: uint8, n: uint32, rpd: seq<uint8>, nrpd: seq<uint32>)

  predicate Valid(r: Request) {
    r.lim <= 128 && |r.rpd| == |r.nrpd| == 129
  }

  /** The number of routes at a depth that was asked for; the product is taken modulo 2^32. */
  function Asked(r: Request, d: nat): nat
    requires Valid(r) && d <= r.lim
  {
    if r.rpd[d] == UINT8_MAX then r.nrpd[d] else r.n * r.rpd[d] % TWO_32 / 100
  }

  // ---- Sums over depths ----

  /** All that was asked for below depth `k`. */
  function AskedBefore(r: Request, k: nat): nat
    requires Valid(r) && k <= r.lim + 1
  {
    if k == 0 then 0 else AskedBefore(r, k - 1) + if r.rpd[k - 1] != 0 then Asked(r, k - 1) else 0
  }

  /** How many depths below `k` were asked for, or left open. */
  function AskedDepths(r: Request, k: nat): (m: nat)
    requires Valid(r) && k <= r.lim + 1
    ensures m <= k
  {
    if k == 0 then 0 else AskedDepths(r, k - 1) + if r.rpd[k - 1] != 0 then 1 else 0
  }

  function OpenDepths(r: Request, k: nat): (m: nat)
    requires Valid(r) && k <= r.lim + 1
  {
    k - AskedDepths(r, k)
  }

  /** The routes given to open depths below `k`. */
  function GivenBefore(r: Request, counts: seq<uint32>, k: nat): nat
    requires Valid(r) && k <= r.lim + 1 && |counts| == 129
  {
    if k == 0 then 0 else GivenBefore(r, counts, k - 1) + if r.rpd[k - 1] == 0 then counts[k - 1] else 0
  }

  /** All routes below depth `k`. */
  function Total(counts: seq<uint32>, k: nat): nat
    requires k <= |counts|
  {
    if k == 0 then 0 else Total(counts, k - 1) + counts[k - 1]
  }

  lemma {:induction false} TotalIsBoth(r: Request, counts: seq<uint32>, k: nat)
    requires Valid(r) && k <= r.lim + 1 && |counts| == 129
    requires forall d :: 0 <= d < k && r.rpd[d] != 0 ==> counts[d] == Asked(r, d)
    ensures Total(counts, k) == AskedBefore(r, k) + GivenBefore(r, counts, k)
  {
    if k > 0 {
      TotalIsBoth(r, counts, k - 1);
    }
  }

  lemma {:induction false} GivenFrame(r: Request, counts: seq<uint32>, other: seq<uint32>, k: nat)
    requires Valid(r) && k <= r.lim + 1 && |counts| == |other| == 129
    requires forall d :: 0 <= d < k ==> counts[d] == other[d]
    ensures GivenBefore(r, counts, k) == GivenBefore(r, other, k)
  {
    if k > 0 {
      GivenFrame(r, counts, other, k - 1);
    }
  }

  lemma {:induction false} MoreAsked(r: Request, j: nat, k: nat)
    requires Valid(r) && j <= k <= r.lim + 1
    ensures OpenDepths(r, j) <= OpenDepths(r, k)
    ensures OpenDepths(r, j) == OpenDepths(r, k) ==> forall d :: j <= d < k ==> r.rpd[d] != 0
    decreases k
  {
    if j < k {
      MoreAsked(r, j, k - 1);
    }
  }

  // ---- The distribution ----

  /** What is left at an open depth is shared evenly among the open depths from there on, rounded down,
      but a depth gets no more routes than there are: 2^d of them, or 2^63 from depth 63 on. */
  ghost predicate FairShare(r: Request, counts: seq<uint32>, d: nat)
    requires Valid(r) && d <= r.lim && r.rpd[d] == 0 && |counts| == 129
  {
    var left := r.n - AskedBefore(r, r.lim + 1) % TWO_32 - GivenBefore(r, counts, d);
    var shares := OpenDepths(r, r.lim + 1) - OpenDepths(r, d);
    IsShare(counts[d], left, shares, Pow2(Min(d, 63)))
  }

  /** `c` is the largest number within `cap` of which there are enough for all shares. */
  predicate IsShare(c: int, left: int, shares: int, cap: nat) {
    && shares > 0 && 0 <= c <= cap && c * shares <= left
    && (c == cap || left < (c + 1) * shares)
  }

  lemma ShareOf(left: nat, shares: nat, cap: nat)
    requires shares > 0
    ensures IsShare(Min(cap, left / shares), left, shares, cap) && left / shares <= left
  {
    var q := left / shares;
    assert left == q * shares + left % shares;
    Distribute(q, 1, shares);
    AtLeastOnce(q, shares);
    if cap < q {
      MulMonotone(cap, q, shares);
    }
  }

  lemma AtLeastOnce(q: nat, b: nat)
    requires b > 0
    ensures q <= q * b
  {
  }

  /** The first loop, and the check behind it. */
  method FillAsked(counts: array<uint32>, r: Request) returns (nr: uint32, m: nat)
    requires Valid(r) && counts.Length == 129
    modifies counts
    ensures nr == AskedBefore(r, r.lim + 1) % TWO_32 && m == AskedDepths(r, r.lim + 1)
    ensures forall d :: 0 <= d <= r.lim && r.rpd[d] != 0 ==> counts[d] == Asked(r, d)
    ensures forall d :: 0 <= d < 129 && (d > r.lim || r.rpd[d] == 0) ==> counts[d] == old(counts[d])
  {
    hide AskedBefore, AskedDepths;
    nr, m := 0, 0;
    NothingAsked(r);
    for depth := 0 to r.lim + 1
      invariant nr == AskedBefore(r, depth) % TWO_32 && m == AskedDepths(r, depth)
      invariant forall d :: 0 <= d < depth && r.rpd[d] != 0 ==> counts[d] == Asked(r, d)
      invariant forall d :: 0 <= d < 129 && (d >= depth || r.rpd[d] == 0) ==> counts[d] == old(counts[d])
    {
      AskedStep(r, depth);
      if r.rpd[depth] != 0 {
        if r.rpd[depth] == UINT8_MAX {
          counts[depth] := r.nrpd[depth];
        } else {
          counts[depth] := r.n * r.rpd[depth] % TWO_32 / 100;
        }
        nr := (nr + counts[depth]) % TWO_32;
        m := m + 1;
      }
    }
  }

  lemma NothingAsked(r: Request)
    requires Valid(r)
    ensures AskedBefore(r, 0) == 0 && AskedDepths(r, 0) == 0
  {
  }

  lemma AskedStep(r: Request, depth: nat)
    requires Valid(r) && depth <= r.lim
    ensures r.rpd[depth] == 0 ==>
      AskedBefore(r, depth + 1) == AskedBefore(r, depth) && AskedDepths(r, depth + 1) == AskedDepths(r, depth)
    ensures r.rpd[depth] != 0 ==>
      && AskedBefore(r, depth + 1) % TWO_32 == (AskedBefore(r, depth) % TWO_32 + Asked(r, depth)) % TWO_32
      && AskedDepths(r, depth + 1) == AskedDepths(r, depth) + 1
  {
    hide Asked;
    ModSum(AskedBefore(r, depth), Asked(r, depth));
  }

  lemma ModSum(a: nat, b: nat)
    ensures (a + b) % TWO_32 == (a % TWO_32 + b) % TWO_32
  {
  }

  /** `complete_distrib`. It fails exactly when what was asked for, modulo 2^32, is more than `n`. When
      it succeeds, every open depth has its fair share, and the total is at most `n` exactly when the
      sum of what was asked for did not wrap around. */
  method CompleteDistrib(counts: array<uint32>, r: Request) returns (ok: bool)
    requires Valid(r) && counts.Length == 129
    modifies counts
    ensures ok <==> AskedBefore(r, r.lim + 1) % TWO_32 <= r.n
    ensures forall d :: 0 <= d <= r.lim && r.rpd[d] != 0 ==> counts[d] == Asked(r, d)
    ensures ok ==> forall d :: 0 <= d <= r.lim && r.rpd[d] == 0 ==> FairShare(r, counts[..], d)
    ensures ok ==> (Total(counts[..], r.lim + 1) <= r.n <==> AskedBefore(r, r.lim + 1) < TWO_32)
    ensures forall d :: r.lim < d < 129 ==> counts[d] == old(counts[d])
  {
    hide FairShare, Total, AskedBefore, GivenBefore, AskedDepths, Asked, Pow2, IsShare;
    var nr, m := FillAsked(counts, r);
    if nr > r.n {
      return false;
    }
    StartOpen(r, counts[..]);
    for depth := 0 to r.lim + 1
      invariant nr == AskedBefore(r, r.lim + 1) % TWO_32 + GivenBefore(r, counts[..], depth) <= r.n
      invariant m == AskedDepths(r, r.lim + 1) + OpenDepths(r, depth)
      invariant forall d :: 0 <= d <= r.lim && r.rpd[d] != 0 ==> counts[d] == Asked(r, d)
      invariant forall d :: 0 <= d < depth && r.rpd[d] == 0 ==> FairShare(r, counts[..], d)
      invariant forall d :: r.lim < d < 129 ==> counts[d] == old(counts[d])
    {
      Step(r, counts[..], depth);
      if r.rpd[depth] == 0 {
        ghost var was := counts[..];
        ShareOf(r.n - nr, r.lim + 1 - m, Pow2(Min(depth, 63)));
        var avgRoutesLeft: uint32 := (r.n - nr) / (r.lim + 1 - m);
        counts[depth] := Min(Pow2(Min(depth, 63)), avgRoutesLeft);
        ShareGiven(r, was, counts[..], depth);
        nr, m := nr + counts[depth], m + 1;
      }
    }
    TotalIsBoth(r, counts[..], r.lim + 1);
    WrapDecides(AskedBefore(r, r.lim + 1), GivenBefore(r, counts[..], r.lim + 1), r.n);
    ok := true;
  }

  lemma WrapDecides(asked: nat, given: nat, n: uint32)
    requires asked % TWO_32 + given <= n
    ensures asked + given <= n <==> asked < TWO_32
  {
  }

  lemma StartOpen(r: Request, counts: seq<uint32>)
    requires Valid(r) && |counts| == 129
    ensures GivenBefore(r, counts, 0) == 0 && OpenDepths(r, 0) == 0
  {
  }

  /** One more depth; an open depth leaves a positive number of shares. */
  lemma Step(r: Request, counts: seq<uint32>, depth: nat)
    requires Valid(r) && |counts| == 129 && depth <= r.lim
    ensures r.rpd[depth] != 0 ==> OpenDepths(r, depth + 1) == OpenDepths(r, depth)
    ensures r.rpd[depth] != 0 ==> GivenBefore(r, counts, depth + 1) == GivenBefore(r, counts, depth)
    ensures r.rpd[depth] == 0 ==> OpenDepths(r, depth + 1) == OpenDepths(r, depth) + 1 <= OpenDepths(r, r.lim + 1)
  {
    MoreAsked(r, depth + 1, r.lim + 1);
  }

  /** The new entry is a fair share, and the earlier ones stay so. */
  lemma ShareGiven(r: Request, was: seq<uint32>, counts: seq<uint32>, depth: nat)
    requires Valid(r) && |was| == |counts| == 129 && depth <= r.lim && r.rpd[depth] == 0
    requires forall d :: 0 <= d < 129 && d != depth ==> counts[d] == was[d]
    requires IsShare(counts[depth], r.n - AskedBefore(r, r.lim + 1) % TWO_32 - GivenBefore(r, was, depth),
                     OpenDepths(r, r.lim + 1) - OpenDepths(r, depth), Pow2(Min(depth, 63)))
    requires forall d :: 0 <= d < depth && r.rpd[d] == 0 ==> FairShare(r, was, d)
    ensures GivenBefore(r, counts, depth + 1) == GivenBefore(r, was, depth) + counts[depth]
    ensures forall d :: 0 <= d <= depth && r.rpd[d] == 0 ==> FairShare(r, counts, d)
  {
    hide FairShare, AskedBefore, Pow2, AskedDepths, IsShare, OpenDepths;
    GivenFrame(r, was, counts, depth);
    ShareHere(r, was, counts, depth);
    forall d | 0 <= d < depth && r.rpd[d] == 0 ensures FairShare(r, counts, d) {
      ShareFrame(r, was, counts, d);
    }
  }

  lemma ShareHere(r: Request, was: seq<uint32>, counts: seq<uint32>, depth: nat)
    requires Valid(r) && |was| == |counts| == 129 && depth <= r.lim && r.rpd[depth] == 0
    requires GivenBefore(r, counts, depth) == GivenBefore(r, was, depth)
    requires IsShare(counts[depth], r.n - AskedBefore(r, r.lim + 1) % TWO_32 - GivenBefore(r, was, depth),
                     OpenDepths(r, r.lim + 1) - OpenDepths(r, depth), Pow2(Min(depth, 63)))
    ensures FairShare(r, counts, depth)
  {
    hide AskedBefore, GivenBefore, Pow2, AskedDepths, IsShare, OpenDepths;
  }

  lemma ShareFrame(r: Request, was: seq<uint32>, counts: seq<uint32>, d: nat)
    requires Valid(r) && |was| == |counts| == 129 && d <= r.lim && r.rpd[d] == 0
    requires (forall k :: 0 <= k <= d ==> counts[k] == was[k]) && FairShare(r, was, d)
    ensures FairShare(r, counts, d)
  {
    hide AskedBefore, Pow2, AskedDepths, IsShare, OpenDepths;
    GivenFrame(r, was, counts, d);
    assert counts[d] == was[d];
  }

  // ---- What follows ----

  /** The number of routes at a depth is the ratio that was asked for exactly when the product fits
      32 bits. */
  lemma RatioMet(r: Request, d: nat)
    requires Valid(r) && d <= r.lim && r.rpd[d] != UINT8_MAX
    ensures Asked(r, d) == r.n * r.rpd[d] / 100 <==> r.n * r.rpd[d] < TWO_32
  {
    var product := r.n * r.rpd[d];
    assert product == product / TWO_32 * TWO_32 + product % TWO_32;
  }

  /** With the deepest depth left open, and deep enough for all remaining routes, the routes are exactly
      `n` unless the sum of those asked for wrapped around. */
  lemma DeepestTakesTheRest(r: Request, counts: seq<uint32>)
    requires Valid(r) && |counts| == 129 && r.rpd[r.lim] == 0
    requires forall d :: 0 <= d <= r.lim && r.rpd[d] != 0 ==> counts[d] == Asked(r, d)
    requires FairShare(r, counts, r.lim) && AskedBefore(r, r.lim + 1) < TWO_32
    ensures Total(counts, r.lim + 1) == r.n
      <==> r.n - AskedBefore(r, r.lim + 1) - GivenBefore(r, counts, r.lim) <= Pow2(Min(r.lim, 63))
    ensures r.lim >= 32 ==> Total(counts, r.lim + 1) == r.n
  {
    hide Asked, Pow2, AskedBefore, Total, IsShare;
    ShareOfOne(counts[r.lim], r.n - AskedBefore(r, r.lim + 1) - GivenBefore(r, counts, r.lim), Pow2(Min(r.lim, 63)));
    TotalIsBoth(r, counts, r.lim + 1);
    assert OpenDepths(r, r.lim + 1) - OpenDepths(r, r.lim) == 1;
    if r.lim >= 32 {
      DeepMeansMany(r.lim);
    }
  }

  lemma ShareOfOne(c: int, left: int, cap: nat)
    ensures IsShare(c, left, 1, cap) ==> c == Min(cap, left)
  {
  }

  lemma DeepMeansMany(d: nat)
    requires d >= 32
    ensures Pow2(Min(d, 63)) >= TWO_32
  {
    Pow2AtLeast(Min(d, 63));
  }

  lemma {:induction false} Pow2AtLeast(k: nat)
    requires k >= 32
    ensures Pow2(k) >= TWO_32
  {
    if k > 32 {
      Pow2AtLeast(k - 1);
    } else {
      assert Pow2(8) == 0x100;
      assert Pow2(16) == 0x1_0000;
      assert Pow2(24) == 0x100_0000;
    }
  }

  /** What the options `-n 1 -d 0:2147483648,1:2147483648` ask for: one IPv4 route in all, but 2^31
      routes at depth 0 and 2^31 at depth 1. */
  function WrappingRequest(): Request {
    var half := 0x8000_0000;
    Request(32, 1, seq(129, d => if d == 0 || d == 1 then UINT8_MAX else 0),
            seq(129, d => if d == 0 || d == 1 then half else 0))
  }

  lemma {:induction false} AskedByWrapping(k: nat)
    requires 2 <= k <= 33
    ensures AskedBefore(WrappingRequest(), k) == TWO_32
  {
    if k > 2 {
      AskedByWrapping(k - 1);
    } else {
      assert AskedBefore(WrappingRequest(), 1) == 0x8000_0000;
    }
  }

  /** The check can be passed by a sum that wraps: for this request it is 0, and not more than 1. */
  lemma WrappedSumIsAccepted()
    ensures Valid(WrappingRequest()) && WrappingRequest().lim == 32 && WrappingRequest().n == 1
    ensures AskedBefore(WrappingRequest(), 33) == TWO_32
    ensures AskedBefore(WrappingRequest(), 33) % TWO_32 <= WrappingRequest().n
  {
    hide AskedBefore;
    AskedByWrapping(33);
  }

  /** So the program accepts it, and goes on to make at least 2^32 routes instead of one. */
  method DistributeWrapped() returns (ok: bool, counts: array<uint32>)
    ensures ok && counts.Length == 129 && Total(counts[..], 33) >= TWO_32
  {
    hide AskedBefore, Total, GivenBefore;
    var r := WrappingRequest();
    WrappedSumIsAccepted();
    counts := new uint32[129](_ => 0);
    ok := CompleteDistrib(counts, r);
    TotalIsBoth(r, counts[..], 33);
  }
}
