/** What happens to the output buffers and to the collected output while the verify test of
    comp_perf_test_verify.c runs, as facts about values. */
module VerifyData {
  import opened Words
  import opened Mbufs
  import opened Segmentation

  /** What a pass over the buffers is to produce: how many segments each output buffer has, their
      size, and the bytes the device makes of each input buffer. */
  datatype Job = Job(shape: seq<nat>, segSz: nat, results: seq<seq<byte>>)

  predicate Fits(j: Job, b: nat)
    requires b < |j.shape| && b < |j.results|
  {
    |j.results[b]| <= j.shape[b] * j.segSz
  }

  ghost predicate IsJob(j: Job, out: seq<Mbuf>) {
    && |j.shape| == |j.results| == |out| && j.segSz > 0
    && forall b :: 0 <= b < |out| ==> Shaped(j, out, b)
  }

  ghost predicate Shaped(j: Job, out: seq<Mbuf>, b: nat)
    requires b < |out| && b < |j.shape|
  {
    |out[b].segs| == j.shape[b] && Rooms(out[b].segs, j.segSz)
  }

  /** Buffers may come back in any order, but each only once. */
  ghost predicate OnceEach(back: seq<nat>, ready: nat) {
    && (forall i :: 0 <= i < |back| ==> back[i] < ready)
    && (forall i, k :: 0 <= i < k < |back| ==> back[i] != back[k])
  }

  /** The chain holds the result and is still open to its full size. */
  ghost predicate Written(j: Job, b: nat, m: Mbuf)
    requires b < |j.shape| && b < |j.results|
  {
    && IsOutput(m, j.shape[b], j.segSz)
    && WellFormed(m.segs) && Fits(j, b) && |j.results[b]| <= |Contents(m.segs)|
    && Contents(m.segs)[..|j.results[b]|] == j.results[b]
  }

  /** The packet is the result. */
  ghost predicate Finished(j: Job, b: nat, m: Mbuf)
    requires b < |j.results|
  {
    WellFormed(m.segs) && m.pktLen == |j.results[b]| && Bytes(m) == j.results[b]
  }

  /** The first `ready` buffers have been opened to their full size; of those in `back`, the first `w`
      have been written and read, and the first `f` cut down to what was produced. */
  ghost predicate Stage(j: Job, out: seq<Mbuf>, ready: nat, back: seq<nat>, f: nat, w: nat) {
    && IsJob(j, out) && OnceEach(back, ready) && ready <= |out| && f <= w <= |back|
    && (forall b :: 0 <= b < ready && b !in back[..w] ==> IsOutput(out[b], j.shape[b], j.segSz))
    && (forall i :: f <= i < w ==> Written(j, back[i], out[back[i]]))
    && (forall i :: 0 <= i < f ==> Finished(j, back[i], out[back[i]]))
  }

  lemma OpenKeepsStage(j: Job, out: seq<Mbuf>, ready: nat, back: seq<nat>, f: nat, m: Mbuf)
    requires Stage(j, out, ready, back, f, f) && ready < |out|
    requires IsOutput(m, j.shape[ready], j.segSz)
    ensures Stage(j, out[ready := m], ready + 1, back, f, f)
  {
    var new_ := out[ready := m];
    forall b | 0 <= b < |new_| ensures Shaped(j, new_, b) {
      assert Shaped(j, out, b);
    }
  }

  /** More buffers come back. */
  lemma BackKeepsStage(j: Job, out: seq<Mbuf>, ready: nat, back: seq<nat>, f: nat, more: seq<nat>)
    requires Stage(j, out, ready, back, f, f) && |back| <= |more| && back == more[..|back|]
    requires OnceEach(more, ready)
    ensures Stage(j, out, ready, more, f, f)
  {
    assert more[..f] == back[..f];
  }

  /** The device wrote the result of the next buffer, which now reads back as that result. */
  lemma WriteKeepsStage(j: Job, out: seq<Mbuf>, ready: nat, back: seq<nat>, f: nat, w: nat)
    requires Stage(j, out, ready, back, f, w) && w < |back| && Fits(j, back[w])
    ensures var b := back[w];
      var m := out[b].(segs := Fill(out[b].segs, j.results[b]));
      && WellFormed(m.segs) && |j.results[b]| <= |Contents(m.segs)|
      && Contents(m.segs)[..|j.results[b]|] == j.results[b]
      && Stage(j, out[b := m], ready, back, f, w + 1)
  {
    var b := back[w];
    var m := out[b].(segs := Fill(out[b].segs, j.results[b]));
    assert b !in back[..w];
    assert IsOutput(out[b], j.shape[b], j.segSz);
    CapacityOfRooms(out[b].segs, j.segSz);
    FillReads(out[b].segs, j.results[b]);
    var new_ := out[b := m];
    assert Written(j, b, m);
    assert back[..w + 1] == back[..w] + [b];
    forall c | 0 <= c < |new_| ensures Shaped(j, new_, c) {
      assert Shaped(j, out, c);
    }
  }

  /** The next buffer's chain was cut down to the bytes produced. */
  lemma ShrinkKeepsStage(j: Job, out: seq<Mbuf>, ready: nat, back: seq<nat>, f: nat, w: nat)
    requires Stage(j, out, ready, back, f, w) && f < w
    ensures var b := back[f];
      var produced := |j.results[b]|;
      && SegmentsFor(produced, j.segSz) <= |out[b].segs|
      && Stage(j, out[b := Mbuf(Trim(out[b].segs, produced, j.segSz), produced)], ready, back, f + 1, w)
  {
    var b := back[f];
    var produced := |j.results[b]|;
    assert Written(j, b, out[b]);
    EnoughSegments(produced, j.segSz, j.shape[b]);
    TrimReads(out[b].segs, produced, j.segSz);
    var m := Mbuf(Trim(out[b].segs, produced, j.segSz), produced);
    var new_ := out[b := m];
    assert b in back[..w];
    assert Finished(j, b, m);
    forall c | 0 <= c < |new_| ensures Shaped(j, new_, c) {
      assert Shaped(j, out, c);
    }
  }

  // ---- The collected output ----

  /** The results of the buffers in `list`, in that order. */
  function Pick(j: Job, list: seq<nat>): (r: seq<seq<byte>>)
    requires InJob(j, list)
    ensures |r| == |list|
    ensures forall i :: 0 <= i < |r| ==> r[i] == j.results[list[i]]
  {
    seq(|list|, i requires 0 <= i < |list| => j.results[list[i]])
  }

  predicate InJob(j: Job, list: seq<nat>) {
    |j.shape| == |j.results| && forall i :: 0 <= i < |list| ==> list[i] < |j.results|
  }

  /** What a result adds to the output when it fits its buffer. */
  function Weight(j: Job, b: nat): nat
    requires b < |j.results| && |j.shape| == |j.results|
  {
    if Fits(j, b) then |j.results[b]| else 0
  }

  /** The bytes that a multiset of buffers adds to the output. */
  ghost function Mass(j: Job, bag: multiset<nat>, n: nat): nat
    requires n <= |j.results| && |j.shape| == |j.results|
  {
    if n == 0 then 0 else Mass(j, bag, n - 1) + bag[n - 1] * Weight(j, n - 1)
  }

  /** Room for every result that fits. */
  ghost function Room(j: Job, n: nat): nat
    requires n <= |j.results| && |j.shape| == |j.results|
  {
    if n == 0 then 0 else Room(j, n - 1) + Weight(j, n - 1)
  }

  lemma {:induction false} MassOfOneMore(j: Job, bag: multiset<nat>, x: nat, n: nat)
    requires n <= |j.results| && |j.shape| == |j.results|
    ensures Mass(j, bag + multiset{x}, n) == Mass(j, bag, n) + if x < n then Weight(j, x) else 0
  {
    if n > 0 {
      MassOfOneMore(j, bag, x, n - 1);
      var k, w := bag[n - 1], Weight(j, n - 1);
      assert (k + 1) * w == k * w + w;
    }
  }

  lemma {:induction false} MassWithinRoom(j: Job, bag: multiset<nat>, n: nat)
    requires n <= |j.results| && |j.shape| == |j.results| && forall x :: bag[x] <= 1
    ensures Mass(j, bag, n) <= Room(j, n)
    ensures (forall x :: 0 <= x < n ==> bag[x] == 1) ==> Mass(j, bag, n) == Room(j, n)
  {
    if n > 0 {
      MassWithinRoom(j, bag, n - 1);
    }
  }

  lemma {:induction false} OutputIsMass(j: Job, list: seq<nat>)
    requires InJob(j, list) && forall i :: 0 <= i < |list| ==> Fits(j, list[i])
    ensures |Join(Pick(j, list))| == Mass(j, multiset(list), |j.results|)
  {
    if list == [] {
      MassWithinRoom(j, multiset{}, |j.results|);
      EmptyMass(j, |j.results|);
      assert Pick(j, list) == [];
    } else {
      var n := |list| - 1;
      assert list == list[..n] + [list[n]];
      OutputIsMass(j, list[..n]);
      MassOfOneMore(j, multiset(list[..n]), list[n], |j.results|);
      assert Pick(j, list) == Pick(j, list[..n]) + [j.results[list[n]]];
      JoinOneMore(Pick(j, list[..n]), j.results[list[n]]);
    }
  }

  lemma {:induction false} EmptyMass(j: Job, n: nat)
    requires n <= |j.results| && |j.shape| == |j.results|
    ensures Mass(j, multiset{}, n) == 0
  {
    if n > 0 {
      EmptyMass(j, n - 1);
    }
  }

  /** The results of buffers that come back once each fit where there is room for all results that
      fit; when every buffer has come back, in whatever order, the size is the same. */
  lemma OutputWithinRoom(j: Job, list: seq<nat>)
    requires InJob(j, list) && OnceEach(list, |j.results|)
    requires forall i :: 0 <= i < |list| ==> Fits(j, list[i])
    ensures |Join(Pick(j, list))| <= Room(j, |j.results|)
    ensures multiset(list) == multiset(Range(0, |j.results|)) ==>
      |Join(Pick(j, list))| == Room(j, |j.results|)
  {
    OutputIsMass(j, list);
    forall x ensures multiset(list)[x] <= 1 {
      AtMostOnce(list, |j.results|, x);
    }
    MassWithinRoom(j, multiset(list), |j.results|);
    RangeOnce(|j.results|);
  }

  lemma {:induction false} AtMostOnce(list: seq<nat>, n: nat, x: nat)
    requires OnceEach(list, n)
    ensures multiset(list)[x] <= 1
  {
    if list != [] {
      var k := |list| - 1;
      assert list == list[..k] + [list[k]];
      AtMostOnce(list[..k], n, x);
      if x == list[k] {
        assert x !in list[..k];
        assert multiset(list[..k])[x] == 0;
      }
    }
  }

  /** Each buffer comes back once when the multiset of those that came back is part of the range of
      those that were sent. */
  lemma BackOnceEach(device: multiset<nat>, back: seq<nat>, n: nat)
    requires device + multiset(back) == multiset(Range(0, n))
    ensures OnceEach(back, n)
  {
    RangeOnce(n);
    forall i | 0 <= i < |back| ensures back[i] < n {
      assert back[i] in multiset(back);
      assert multiset(Range(0, n))[back[i]] >= 1;
    }
    forall i, k | 0 <= i < k < |back| ensures back[i] != back[k] {
      assert back == back[..k] + [back[k]] + back[k + 1..];
      assert back[i] in multiset(back[..k]) by { assert back[..k][i] == back[i]; }
      assert multiset(Range(0, n))[back[k]] <= 1;
      assert multiset(back)[back[k]] <= 1;
    }
  }

  lemma InRange(back: seq<nat>, n: nat, b: nat)
    requires multiset(back) == multiset(Range(0, n)) && b < n
    ensures b in back
  {
    assert Range(0, n)[b] == b;
    assert multiset(back)[b] > 0;
  }
}
