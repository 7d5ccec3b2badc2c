/** `cperf_cyclecount_op_setup` and `main_loop` of comp_perf_test_cyclecount.c. One array holds a
    burst in front and the dequeued operations behind it, and a pass asks the device for everything
    that is out. */
module CycleCount {
  import opened Words
  import opened BurstEngine
  import opened BurstLoop

  /** Builds and drops the operations of every buffer, burst by burst, without the device. The
      allocation never fails. */
  method OpSetup(e: Engine, burstSz: nat, numIter: nat) returns (ok: bool)
    requires AtRest(e) && RoomFor(e.totalBufs, e.deqStart, burstSz)
    modifies e, e.ops, e.bufOf
    ensures ok && AtRest(e)
    ensures numIter > 0 ==> e.sent == Range(0, e.totalBufs)
  {
    hide Sound;
    for iter := 0 to numIter
      invariant AtRest(e)
      invariant iter > 0 ==> e.sent == Range(0, e.totalBufs)
    {
      e.Restart();
      var remainingOps: nat, totalEnqOps: nat := e.totalBufs, 0;
      while remainingOps > 0
        invariant e.Valid(0, 0, 0) && e.device == [] && |e.pool| == 2 * e.totalBufs
        invariant totalEnqOps == |e.sent| && remainingOps + totalEnqOps == e.totalBufs
      {
        var numOps: uint16 := Min(remainingOps, burstSz);
        ok := e.Refill(0, numOps, totalEnqOps);
        if !ok {
          return;
        }
        e.Recycle(numOps);
        remainingOps, totalEnqOps := remainingOps - numOps, totalEnqOps + numOps;
      }
      Emptied(e);
    }
    ok := true;
  }

  lemma Emptied(e: Engine)
    requires e.Valid(0, 0, 0) && e.device == []
    ensures multiset(e.pool) == e.opIds && e.sent == Range(0, |e.sent|)
  {
    CountsMeanContents(e.opIds, e.bufOf[..], e.Placed(0, 0, 0), e.sent, e.back, e.inOrder);
  }

  /** One iteration: the first loop asks for `allocated` operations, as a 16-bit count. */
  method RunIteration(e: Engine, burstSz: nat, patience: nat) returns (outcome: Outcome)
    requires AtRest(e) && e.sent == e.back == [] && RoomFor(e.totalBufs, e.deqStart, burstSz)
    modifies e, e.ops, e.bufOf
    ensures outcome.Done? || outcome.Stopped?
    ensures outcome.Done? ==> AtRest(e) && e.sent == Range(0, e.totalBufs)
    ensures outcome.Done? ==> multiset(e.back) == multiset(e.sent)
    ensures e.eager && patience >= 2 * e.totalBufs ==> outcome.Done?
  {
    hide Sound;
    var l := Start(e.totalBufs);
    var polls, ok := patience, true;
    while l.remainingOps > 0
      invariant LoopHead(e, l, burstSz) && Progress(e.eager, patience - polls, l)
      decreases polls
    {
      if polls == 0 {
        return Stopped;
      }
      ok, l := Submit(e, l, burstSz);
      l := Collect(e, l, burstSz, l.allocatedOps % 0x1_0000);
      polls := polls - 1;
    }
    while l.totalDeqOps < e.totalBufs
      invariant LoopHead(e, l, burstSz) && l.remainingOps == 0 && Progress(e.eager, patience - polls, l)
      decreases polls
    {
      if polls == 0 {
        return Stopped;
      }
      l := Collect(e, l, burstSz, burstSz);
      polls := polls - 1;
    }
    AllDone(e, l, burstSz);
    outcome := Done;
  }

  /** `main_loop` on an array of `burst_sz + total_bufs` entries: the two regions do not overlap, and
      the pool is full again at the end. */
  method MainLoop(totalBufs: nat, burstSz: nat, numIter: nat, eager: bool, patience: nat)
    returns (outcome: Outcome, e: Engine, ghost runs: seq<seq<nat>>)
    requires burstSz < 0x1_0000 && totalBufs < 0x8000_0000
    ensures outcome.UnknownBurstSize? <==> burstSz == 0
    ensures eager && patience >= 2 * totalBufs && burstSz > 0 ==> outcome.Done?
    ensures fresh(e) && e.totalBufs == totalBufs && e.deqStart == burstSz && e.ops.Length == burstSz + totalBufs
    ensures outcome.Done? ==> AtRest(e) && |runs| == numIter
    ensures outcome.Done? ==> forall i :: 0 <= i < numIter ==> runs[i] == Range(0, totalBufs)
  {
    hide Sound;
    e := new Engine(totalBufs, burstSz + totalBufs, burstSz, false, eager);
    runs := [];
    if burstSz == 0 {
      return UnknownBurstSize, e, runs;
    }
    var ok := OpSetup(e, burstSz, numIter);
    for iter := 0 to numIter
      invariant AtRest(e) && e.eager == eager && fresh(e) && fresh(e.ops) && fresh(e.bufOf)
      invariant |runs| == iter && forall i :: 0 <= i < iter ==> runs[i] == Range(0, totalBufs)
    {
      e.Restart();
      outcome := RunIteration(e, burstSz, patience);
      if outcome.Stopped? {
        return;
      }
      runs := runs + [e.sent];
    }
    outcome := Done;
  }
}
