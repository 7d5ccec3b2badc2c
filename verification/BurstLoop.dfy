/** The burst loop of the compression tests, and `main_loop` of comp_perf_test_throughput.c. */
module BurstLoop {
  import opened Words
  import opened BurstEngine

  /** The local variables of the burst loop that live from one pass to the next. */
  datatype Locals = Locals(
    remainingOps: nat,
    totalDeqOps: nat,
    totalEnqOps: nat,
    opsUnused: nat,
    numEnq: nat,
    allocatedOps: nat)

  /** How a run ends: with every buffer done, by the user's stop signal, or at once because the burst
      size is not set. */
  datatype Outcome = Done | Stopped | UnknownBurstSize

  /** Room for a burst in front of the region of dequeued operations; `total_bufs` stays below 2^31
      so that `2 * total_bufs` does not wrap. */
  predicate RoomFor(totalBufs: nat, deqStart: nat, burstSz: nat) {
    0 < burstSz < 0x1_0000 && Min(totalBufs, burstSz) <= deqStart && totalBufs < 0x8000_0000
  }

  /** What holds whenever the loop condition is tested. */
  ghost predicate LoopHead(e: Engine, l: Locals, burstSz: nat)
    reads e, e.ops, e.bufOf
  {
    && RoomFor(e.totalBufs, e.deqStart, burstSz)
    && e.Valid(l.numEnq, l.opsUnused, 0)
    && l.totalEnqOps == |e.sent| && l.totalDeqOps == |e.back|
    && l.remainingOps + l.totalEnqOps == e.totalBufs
    && l.opsUnused <= Min(l.remainingOps, burstSz)
    && l.allocatedOps == l.opsUnused + l.totalEnqOps - l.totalDeqOps <= e.totalBufs
    && |e.pool| == 2 * e.totalBufs - l.allocatedOps
  }

  /** Nothing is under way and the pool is full. */
  ghost predicate AtRest(e: Engine)
    reads e, e.ops, e.bufOf
  {
    e.Valid(0, 0, 0) && e.device == [] && |e.pool| == 2 * e.totalBufs && multiset(e.pool) == e.opIds
  }

  function Start(totalBufs: nat): Locals {
    Locals(totalBufs, 0, 0, 0, 0, 0)
  }

  /** The burst of `numOps` operations is filled up and stands at the front. */
  ghost predicate Filled(e: Engine, l: Locals, burstSz: nat, numOps: nat)
    reads e, e.ops, e.bufOf
  {
    && RoomFor(e.totalBufs, e.deqStart, burstSz)
    && numOps == Min(l.remainingOps, burstSz)
    && e.Valid(0, numOps, 0)
    && l.totalEnqOps == |e.sent| && l.totalDeqOps == |e.back|
    && l.remainingOps + l.totalEnqOps == e.totalBufs
    && l.opsUnused <= numOps
    && l.allocatedOps == numOps + l.totalEnqOps - l.totalDeqOps <= e.totalBufs
    && |e.pool| == 2 * e.totalBufs - l.allocatedOps
  }

  /** Fills up the burst. The allocation always succeeds. */
  method Prepare(e: Engine, l: Locals, burstSz: nat) returns (ok: bool, m: Locals, numOps: uint16)
    requires LoopHead(e, l, burstSz) && l.remainingOps > 0
    modifies e`pool, e.ops, e.bufOf
    ensures ok && Filled(e, m, burstSz, numOps)
    ensures m == l.(allocatedOps := m.allocatedOps)
  {
    hide Sound;
    numOps := Min(l.remainingOps, burstSz);
    var opsNeeded: uint16 := numOps - l.opsUnused;
    e.Slide(l.numEnq, l.opsUnused);
    ok := true;
    if opsNeeded > 0 {
      ok := e.Refill(l.opsUnused, opsNeeded, l.totalEnqOps);
    }
    m := l.(allocatedOps := l.allocatedOps + opsNeeded);
  }

  /** The operations of a burst carry consecutive buffers, all of which exist. */
  lemma BurstCarriesNextBuffers(e: Engine, l: Locals, burstSz: nat, numOps: nat, i: nat)
    requires Filled(e, l, burstSz, numOps) && i < numOps
    ensures e.ops[i] < e.bufOf.Length && e.bufOf[e.ops[i]] == l.totalEnqOps + i < e.totalBufs
  {
    var waiting := e.ops[0..0 + numOps];
    assert waiting[i] == e.ops[i];
    assert Attached(e.bufOf[..], waiting)[i] == |e.sent| + i;
  }

  /** Offers the burst to the device. */
  method Offer(e: Engine, l: Locals, burstSz: nat, numOps: uint16) returns (m: Locals)
    requires Filled(e, l, burstSz, numOps)
    modifies e`device, e`sent
    ensures LoopHead(e, m, burstSz)
    ensures m.totalDeqOps == l.totalDeqOps && m.allocatedOps == l.allocatedOps
    ensures m.totalEnqOps == l.totalEnqOps + m.numEnq && m.opsUnused + m.numEnq == numOps
    ensures e.eager && numOps > 0 ==> m.numEnq > 0
  {
    hide Sound;
    var numEnq: uint16 := e.Enqueue(numOps);
    var opsUnused: uint16 := numOps - numEnq;
    m := Locals(l.remainingOps - numEnq, l.totalDeqOps, l.totalEnqOps + numEnq, opsUnused, numEnq,
                l.allocatedOps);
  }

  /** The first half of a pass. */
  method Submit(e: Engine, l: Locals, burstSz: nat) returns (ok: bool, m: Locals)
    requires LoopHead(e, l, burstSz) && l.remainingOps > 0
    modifies e`pool, e`device, e`sent, e.ops, e.bufOf
    ensures ok && LoopHead(e, m, burstSz)
    ensures m.totalDeqOps == l.totalDeqOps && m.totalEnqOps == l.totalEnqOps + m.numEnq
    ensures m.opsUnused + m.numEnq == Min(l.remainingOps, burstSz)
    ensures e.eager ==> m.numEnq > 0
  {
    hide Sound;
    var numOps;
    ok, m, numOps := Prepare(e, l, burstSz);
    if !ok {
      return;
    }
    m := Offer(e, m, burstSz, numOps);
  }

  /** The second half: take up to `max` finished operations and return them to the pool. */
  method Collect(e: Engine, l: Locals, burstSz: nat, max: nat) returns (m: Locals)
    requires LoopHead(e, l, burstSz)
    modifies e`pool, e`device, e`back, e.ops
    ensures LoopHead(e, m, burstSz)
    ensures m == l.(totalDeqOps := m.totalDeqOps, allocatedOps := m.allocatedOps)
    ensures l.totalDeqOps <= m.totalDeqOps <= l.totalDeqOps + max
    ensures e.eager && max > 0 && l.totalDeqOps < l.totalEnqOps ==> l.totalDeqOps < m.totalDeqOps
  {
    hide Sound;
    Counts(e, l.numEnq, l.opsUnused);
    var numDeq := e.Dequeue(l.numEnq, l.opsUnused, max);
    e.PutBack(l.numEnq, l.opsUnused, numDeq);
    m := l.(totalDeqOps := l.totalDeqOps + numDeq, allocatedOps := l.allocatedOps - numDeq);
  }

  lemma Counts(e: Engine, at: nat, n: nat)
    requires e.Valid(at, n, 0)
    ensures |e.sent| == |e.device| + |e.back|
    ensures 2 * e.totalBufs == |e.pool| + n + |e.device|
  {
    CountsMeanContents(e.opIds, e.bufOf[..], e.Placed(at, n, 0), e.sent, e.back, e.inOrder);
  }

  /** Once as many operations came back as there are buffers, the buffers went to the device exactly
      once each and in order, each came back once, and everything is where it was at first. */
  lemma AllDone(e: Engine, l: Locals, burstSz: nat)
    requires LoopHead(e, l, burstSz) && l.remainingOps == 0 && l.totalDeqOps >= e.totalBufs
    ensures AtRest(e) && l.allocatedOps == 0
    ensures e.sent == Range(0, e.totalBufs) && multiset(e.back) == multiset(e.sent)
    ensures e.inOrder ==> e.back == e.sent
  {
    Counts(e, l.numEnq, l.opsUnused);
    var p := e.Placed(l.numEnq, l.opsUnused, 0);
    CountsMeanContents(e.opIds, e.bufOf[..], p, e.sent, e.back, e.inOrder);
    assert p.waiting == [] == e.ops[0..0];
    assert e.Placed(0, 0, 0) == p;
  }

  /** Each round so far has sent or brought back a buffer, if the device is eager. */
  predicate Progress(eager: bool, rounds: int, l: Locals) {
    eager ==> rounds <= l.totalEnqOps + if l.remainingOps > 0 then 0 else l.totalDeqOps
  }

  /** One iteration of the throughput test. `patience` is how many bursts the user waits for before
      sending the stop signal; with an eager device, twice the number of buffers is enough. */
  method RunIteration(e: Engine, burstSz: nat, patience: nat) returns (outcome: Outcome)
    requires AtRest(e) && e.sent == e.back == [] && RoomFor(e.totalBufs, e.deqStart, burstSz)
    modifies e, e.ops, e.bufOf
    ensures outcome.Done? || outcome.Stopped?
    ensures outcome.Done? ==> AtRest(e) && e.sent == Range(0, e.totalBufs)
    ensures outcome.Done? ==> multiset(e.back) == multiset(e.sent)
    ensures e.eager && patience >= 2 * e.totalBufs ==> outcome.Done?
  {
    hide Sound;
    var l := Start(e.totalBufs);
    var polls, ok := patience, true;
    while l.remainingOps > 0
      invariant LoopHead(e, l, burstSz) && Progress(e.eager, patience - polls, l)
      decreases polls
    {
      if polls == 0 {
        return Stopped;
      }
      ok, l := Submit(e, l, burstSz);
      l := Collect(e, l, burstSz, burstSz);
      polls := polls - 1;
    }
    while l.totalDeqOps < e.totalBufs
      invariant LoopHead(e, l, burstSz) && l.remainingOps == 0 && Progress(e.eager, patience - polls, l)
      decreases polls
    {
      if polls == 0 {
        return Stopped;
      }
      l := Collect(e, l, burstSz, burstSz);
      polls := polls - 1;
    }
    AllDone(e, l, burstSz);
    outcome := Done;
  }

  /** `main_loop`: `numIter` iterations over the same buffers, on an array of `2 * total_bufs`
      entries. `runs` lists, for each iteration, the buffers in the order in which the device took
      them. */
  method MainLoop(totalBufs: nat, burstSz: nat, numIter: nat, eager: bool, patience: nat)
    returns (outcome: Outcome, e: Engine, ghost runs: seq<seq<nat>>)
    requires burstSz < 0x1_0000 && totalBufs < 0x8000_0000
    ensures fresh(e) && e.totalBufs == e.deqStart == totalBufs && e.ops.Length == 2 * totalBufs
    ensures outcome.UnknownBurstSize? <==> burstSz == 0
    ensures eager && patience >= 2 * totalBufs && burstSz > 0 ==> outcome.Done?
    ensures outcome.Done? ==> AtRest(e) && |runs| == numIter
    ensures outcome.Done? ==> forall i :: 0 <= i < numIter ==> runs[i] == Range(0, totalBufs)
  {
    hide Sound;
    e := new Engine(totalBufs, 2 * totalBufs, totalBufs, false, eager);
    runs := [];
    if burstSz == 0 {
      return UnknownBurstSize, e, runs;
    }
    for iter := 0 to numIter
      invariant AtRest(e) && e.eager == eager && fresh(e) && fresh(e.ops) && fresh(e.bufOf)
      invariant |runs| == iter && forall i :: 0 <= i < iter ==> runs[i] == Range(0, totalBufs)
    {
      e.Restart();
      outcome := RunIteration(e, burstSz, patience);
      if outcome.Stopped? {
        return;
      }
      runs := runs + [e.sent];
    }
    outcome := Done;
  }
}
