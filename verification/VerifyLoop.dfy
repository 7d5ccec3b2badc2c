/** `main_loop` of comp_perf_test_verify.c: the burst loop, with the data that passes through. */
module VerifyLoop {
  import opened Words
  import opened Mbufs
  import opened Segmentation
  import opened BurstEngine
  import opened BurstLoop
  import opened VerifyData

  /** How a pass over all buffers ends. */
  datatype Result = Completed | ForceStop | OutOfSpace | NoBurstSize

  class VerifyPass {
    const e: Engine
    const inBufs: array<Mbuf>
    const outBufs: array<Mbuf>
    const outSegSz: nat
    /** What the device makes of the bytes of a buffer. */
    const codec: seq<byte> -> seq<byte>
    /** `output_data_ptr` points to `output[outputSize]`. */
    const output: array<byte>
    var outputSize: nat
    /** The field `produced` of each operation. */
    var produced: seq<nat>
    ghost const job: Job

    constructor (e: Engine, inBufs: array<Mbuf>, outBufs: array<Mbuf>, outSegSz: nat,
                 codec: seq<byte> -> seq<byte>, output: array<byte>, ghost job: Job)
      ensures this.e == e && this.inBufs == inBufs && this.outBufs == outBufs
      ensures this.outSegSz == outSegSz && this.codec == codec && this.output == output
      ensures this.job == job && outputSize == 0 && |produced| == e.bufOf.Length
    {
      this.e, this.inBufs, this.outBufs, this.outSegSz := e, inBufs, outBufs, outSegSz;
      this.codec, this.output, this.job := codec, output, job;
      outputSize, produced := 0, seq(e.bufOf.Length, _ => 0);
    }

    ghost predicate Inputs()
      reads inBufs
    {
      && |job.results| == inBufs.Length
      && forall b :: 0 <= b < inBufs.Length ==>
           WellFormed(inBufs[b].segs) && codec(Bytes(inBufs[b])) == job.results[b]
    }

    ghost predicate Separate()
      reads this`produced
    {
      && inBufs != outBufs && inBufs.Length == outBufs.Length == e.totalBufs
      && output as object != e.ops && output as object != e.bufOf
      && |produced| == e.bufOf.Length && job.segSz == outSegSz
    }

    /** The results of the first `w` buffers that came back are what was collected, in that order. */
    ghost predicate Collected(w: nat)
      reads this`outputSize, e`back, output
    {
      IsCollected(job, e.back, w, output[..], outputSize)
    }

    ghost predicate Data(ready: nat, f: nat, w: nat)
      reads this`outputSize, this`produced, e`back, inBufs, outBufs, output
    {
      Separate() && Inputs() && Collected(w) && Stage(job, outBufs[..], ready, e.back, f, w)
    }

    /** Opens the output chain of one more buffer to its full size. */
    method Open(b: nat)
      requires b < outBufs.Length && Data(b, |e.back|, |e.back|)
      modifies outBufs
      ensures Data(b + 1, |e.back|, |e.back|)
    {
      ghost var was := outBufs[..];
      var m := Reset(outBufs[b], outSegSz);
      IsOpen(job, was, b, m);
      OpenKeepsStage(job, was, b, e.back, |e.back|, m);
      outBufs[b] := m;
      assert outBufs[..] == was[b := m];
    }

    /** The device works on an operation: it reads the input buffer `b` and, when the result fits,
        writes it into the output buffer. */
    method Work(op: OpId, b: nat, ghost ready: nat, ghost f: nat, ghost w: nat) returns (ok: bool)
      requires Data(ready, f, w) && w < |e.back| && b == e.back[w] && op < |produced|
      modifies this`produced, outBufs
      ensures ok <==> Fits(job, b)
      ensures ok ==> Stage(job, outBufs[..], ready, e.back, f, w + 1)
      ensures ok ==> produced == old(produced)[op := |job.results[b]|]
      ensures ok ==> WellFormed(outBufs[b].segs) && |job.results[b]| <= |Contents(outBufs[b].segs)|
      ensures ok ==> Contents(outBufs[b].segs)[..|job.results[b]|] == job.results[b]
      ensures !ok ==> produced == old(produced)
    {
      hide Stage, Join, Fill, Contents, OnceEach;
      ghost var was := outBufs[..];
      StageMeans(job, was, ready, e.back, f, w);
      var result := codec(Bytes(inBufs[b]));
      ok := |result| <= Capacity(outBufs[b].segs);
      if ok {
        WriteKeepsStage(job, was, ready, e.back, f, w);
        outBufs[b] := outBufs[b].(segs := Fill(outBufs[b].segs, result));
        assert outBufs[..] == was[b := outBufs[b]];
        produced := produced[op := |result|];
      }
    }

    /** Operation number `i` of those dequeued brings back the buffer `e.back[w]`; if its result fits,
        it is copied behind the output collected so far. */
    method ReadBack(i: nat, ghost ready: nat, ghost f: nat, ghost w: nat) returns (ok: bool)
      requires Data(ready, f, w) && w < |e.back| && i <= w && e.OutHolds(i, w - i)
      modifies this`outputSize, this`produced, outBufs, output
      ensures ok <==> Fits(job, e.back[w])
      ensures ok ==> Data(ready, f, w + 1)
      ensures ok ==> produced == old(produced)[e.ops[e.deqStart + i] := |job.results[e.back[w]]|]
    {
      hide Stage, Join, Fill, Contents, OnceEach, Pick, Room;
      var op := e.ops[e.deqStart + i];
      var b := e.bufOf[op];
      StageMeans(job, outBufs[..], ready, e.back, f, w);
      ok := Work(op, b, ready, f, w);
      if ok {
        NextOutput(job, e.back, w, output.Length);
        Copy(Contents(outBufs[b].segs)[..produced[op]]);
      }
    }

    /** The field `produced` of operation number `i` of those dequeued. */
    ghost predicate Noted(i: nat, f: nat)
      reads this, e, e.ops
    {
      && e.deqStart + i < e.ops.Length && e.ops[e.deqStart + i] < |produced|
      && f + i < |e.back| && e.back[f + i] < |job.results|
      && produced[e.ops[e.deqStart + i]] == |job.results[e.back[f + i]]|
    }

    /** The first loop over the `k` operations dequeued: it stops at the first whose result did not
        fit. */
    method ReadAll(k: nat, ghost ready: nat, ghost f: nat) returns (ok: bool)
      requires Data(ready, f, f) && f + k == |e.back|
      requires forall i :: 0 <= i < k ==> e.OutHolds(i, f)
      modifies this`outputSize, this`produced, outBufs, output
      ensures ok ==> Data(ready, f, f + k) && forall i :: 0 <= i < k ==> Noted(i, f)
      ensures !ok ==> SomethingTooLong(job)
    {
      hide Stage, IsCollected, Inputs;
      ok := true;
      StageOnce(job, outBufs[..], ready, e.back, f, f);
      CollectedInJob(f);
      for n := 0 to k
        invariant Data(ready, f, f + n)
        invariant forall i :: 0 <= i < k ==> e.OutHolds(i, f)
        invariant forall i :: 0 <= i < n ==> Noted(i, f)
      {
        label before:
        ok := ReadBack(n, ready, f, f + n);
        if !ok {
          return;
        }
        forall i | 0 <= i < n ensures Noted(i, f) {
          assert old@before(Noted(i, f)) && e.OutHolds(i, f) && e.OutHolds(n, f);
          assert e.back[f + i] != e.back[f + n];
        }
      }
    }

    lemma CollectedInJob(w: nat)
      requires Collected(w)
      ensures InJob(job, e.back)
    {
    }

    /** The second loop over the operations dequeued: every output chain is cut down to what was
        produced. */
    method ShrinkAll(k: nat, ghost ready: nat, ghost f: nat)
      requires Data(ready, f, f + k) && f + k == |e.back|
      requires forall i :: 0 <= i < k ==> e.OutHolds(i, f) && Noted(i, f)
      modifies outBufs
      ensures Data(ready, f + k, f + k)
    {
      hide Stage, IsCollected, Inputs;
      for n := 0 to k
        invariant Data(ready, f + n, f + k)
        invariant forall i :: 0 <= i < k ==> e.OutHolds(i, f) && Noted(i, f)
      {
        ghost var was := outBufs[..];
        assert e.OutHolds(n, f) && Noted(n, f);
        var op := e.ops[e.deqStart + n];
        var b := e.bufOf[op];
        StageMeansOut(job, was, ready, e.back, f + n, f + k);
        ShrinkKeepsStage(job, was, ready, e.back, f + n, f + k);
        var m := Shrink(outBufs[b], produced[op], outSegSz);
        outBufs[b] := m;
        assert outBufs[..] == was[b := m];
      }
    }

    /** `rte_memcpy` to the output pointer, which then advances. */
    method Copy(data: seq<byte>)
      requires outputSize + |data| <= output.Length
      modifies this`outputSize, output
      ensures outputSize == old(outputSize) + |data|
      ensures output[..outputSize] == old(output[..outputSize]) + data
    {
      forall k | 0 <= k < |data| {
        output[outputSize + k] := data[k];
      }
      outputSize := outputSize + |data|;
    }

    /** What holds of a pass whenever a loop condition is tested. */
    ghost predicate Head(l: Locals, burstSz: nat)
      reads this, e, e.ops, e.bufOf, inBufs, outBufs, output
    {
      LoopHead(e, l, burstSz) && Data(l.totalEnqOps + l.opsUnused, |e.back|, |e.back|)
    }

    /** Takes finished operations, collects their results, and returns them to the pool. */
    method CollectData(l: Locals, burstSz: nat) returns (ok: bool, m: Locals)
      requires Head(l, burstSz)
      modifies this`outputSize, this`produced, outBufs, output
      modifies e`pool, e`device, e`back, e.ops
      ensures ok ==> Head(m, burstSz) && m == l.(totalDeqOps := m.totalDeqOps, allocatedOps := m.allocatedOps)
      ensures ok ==> l.totalDeqOps <= m.totalDeqOps
      ensures ok && e.eager && l.totalDeqOps < l.totalEnqOps ==> l.totalDeqOps < m.totalDeqOps
      ensures !ok ==> SomethingTooLong(job)
    {
      hide Sound, Stage, IsCollected, Inputs, InJob, OnceEach;
      ghost var ready, was := l.totalEnqOps + l.opsUnused, e.back;
      Counts(e, l.numEnq, l.opsUnused);
      var numDeq := e.Dequeue(l.numEnq, l.opsUnused, burstSz);
      BackOfEngine(e, l.numEnq, l.opsUnused, numDeq, ready);
      MoreCameBack(ready, was);
      ok := ReadAll(numDeq, ready, |was|);
      if !ok {
        return false, l;
      }
      ShrinkAll(numDeq, ready, |was|);
      e.PutBack(l.numEnq, l.opsUnused, numDeq);
      m := l.(totalDeqOps := l.totalDeqOps + numDeq, allocatedOps := l.allocatedOps - numDeq);
    }

    /** Opens the output chains of the buffers that the burst was filled up with. */
    method OpenAll(from: nat, k: nat)
      requires from + k <= outBufs.Length && Data(from, |e.back|, |e.back|)
      modifies outBufs
      ensures Data(from + k, |e.back|, |e.back|)
    {
      hide Stage, IsCollected, Inputs;
      for i := 0 to k
        invariant Data(from + i, |e.back|, |e.back|)
      {
        Open(from + i);
      }
    }

    /** The first half of a pass of the loop. */
    method SubmitData(l: Locals, burstSz: nat) returns (m: Locals)
      requires Head(l, burstSz) && l.remainingOps > 0
      modifies outBufs, e`pool, e`device, e`sent, e.ops, e.bufOf
      ensures Head(m, burstSz) && m.totalDeqOps == l.totalDeqOps
      ensures m.totalEnqOps >= l.totalEnqOps && (e.eager ==> m.totalEnqOps > l.totalEnqOps)
    {
      hide Sound, Stage, IsCollected, Inputs;
      var ready := l.totalEnqOps + l.opsUnused;
      var ok, numOps;
      ok, m, numOps := Prepare(e, l, burstSz);
      assert Data(ready, |e.back|, |e.back|);
      OpenAll(ready, numOps - l.opsUnused);
      assert Data(m.totalEnqOps + numOps, |e.back|, |e.back|);
      m := Offer(e, m, burstSz, numOps);
    }

    /** Everything is at rest, and the collected output and the output buffers are what the job asks
        for. */
    ghost predicate Delivered()
      reads this, e, e.ops, e.bufOf, inBufs, outBufs, output
    {
      && AtRest(e) && Separate() && Inputs()
      && multiset(e.back) == multiset(Range(0, e.totalBufs)) && InJob(job, e.back)
      && outputSize == Room(job, |job.results|) <= output.Length
      && output[..outputSize] == Join(Pick(job, e.back))
      && (e.inOrder ==> output[..outputSize] == Join(job.results))
      && forall b :: 0 <= b < outBufs.Length ==> Fits(job, b) && Finished(job, b, outBufs[b])
    }

    /** All buffers through the device: `main_loop`. It completes unless the user stops it, no burst
        size is set, or a result is too long for its buffer. With an eager device the user need not wait
        for more than twice as many bursts as there are buffers. */
    method Run(burstSz: nat, patience: nat) returns (result: Result)
      requires AtRest(e) && e.sent == e.back == [] && outputSize == 0
      requires burstSz > 0 ==> RoomFor(e.totalBufs, e.deqStart, burstSz)
      requires Data(0, 0, 0)
      modifies this`outputSize, this`produced, outBufs, output, e, e.ops, e.bufOf
      ensures result.NoBurstSize? <==> burstSz == 0
      ensures result.Completed? ==> Delivered()
      ensures result.OutOfSpace? ==> SomethingTooLong(job)
      ensures e.eager && patience >= 2 * e.totalBufs ==> !result.ForceStop?
    {
      hide Sound, Stage, IsCollected, Inputs;
      if burstSz == 0 {
        return NoBurstSize;
      }
      var l, polls, ok := Start(e.totalBufs), patience, true;
      while l.remainingOps > 0
        invariant Head(l, burstSz) && Progress(e.eager, patience - polls, l)
        decreases polls
      {
        if polls == 0 {
          return ForceStop;
        }
        l := SubmitData(l, burstSz);
        ok, l := CollectData(l, burstSz);
        if !ok {
          return OutOfSpace;
        }
        polls := polls - 1;
      }
      while l.totalDeqOps < e.totalBufs
        invariant Head(l, burstSz) && l.remainingOps == 0 && Progress(e.eager, patience - polls, l)
        decreases polls
      {
        if polls == 0 {
          return ForceStop;
        }
        ok, l := CollectData(l, burstSz);
        if !ok {
          return OutOfSpace;
        }
        polls := polls - 1;
      }
      AllDone(e, l, burstSz);
      Deliver();
      result := Completed;
    }

    lemma Deliver()
      requires AtRest(e) && multiset(e.back) == multiset(Range(0, e.totalBufs))
      requires e.inOrder ==> e.back == Range(0, e.totalBufs)
      requires Data(e.totalBufs, |e.back|, |e.back|)
      ensures Delivered()
    {
      hide Sound, Stage, IsCollected;
      EveryBufferFinished(job, outBufs[..], e.totalBufs, e.back);
      AllCollected(job, outBufs[..], e.totalBufs, e.back, output[..], outputSize);
    }

    /** Dequeuing leaves the data as it was: the buffers it brings back are still to be read. */
    lemma MoreCameBack(ready: nat, was: seq<nat>)
      requires Separate() && Inputs() && Stage(job, outBufs[..], ready, was, |was|, |was|)
      requires |was| <= |e.back| && e.back[..|was|] == was && OnceEach(e.back, ready)
      requires IsCollected(job, was, |was|, output[..], outputSize)
      ensures Data(ready, |was|, |was|)
    {
      BackKeepsStage(job, outBufs[..], ready, was, |was|, e.back);
      assert was[..|was|] == was;
    }
  }

  ghost predicate IsCollected(j: Job, back: seq<nat>, w: nat, output: seq<byte>, size: nat) {
    && w <= |back| && InJob(j, back)
    && (forall i :: 0 <= i < w ==> Fits(j, back[i]))
    && size <= |output| && output[..size] == Join(Pick(j, back[..w]))
    && Room(j, |j.results|) <= |output|
  }

  lemma EveryBufferFinished(j: Job, out: seq<Mbuf>, n: nat, back: seq<nat>)
    requires Stage(j, out, n, back, |back|, |back|) && n == |out|
    requires multiset(back) == multiset(Range(0, n))
    ensures |j.results| == n
    ensures forall b :: 0 <= b < n ==> Finished(j, b, out[b])
  {
    hide IsJob, Written, Finished;
    StageOnce(j, out, n, back, |back|, |back|);
    forall b | 0 <= b < n ensures Finished(j, b, out[b]) {
      InRange(back, n, b);
      var i :| 0 <= i < |back| && back[i] == b;
      assert Finished(j, back[i], out[back[i]]);
    }
  }

  lemma AllCollected(j: Job, out: seq<Mbuf>, n: nat, back: seq<nat>, output: seq<byte>, size: nat)
    requires Stage(j, out, n, back, |back|, |back|) && n == |out|
    requires multiset(back) == multiset(Range(0, n))
    requires IsCollected(j, back, |back|, output, size)
    ensures InJob(j, back) && |j.results| == n && size == Room(j, n) <= |output|
    ensures output[..size] == Join(Pick(j, back))
    ensures back == Range(0, n) ==> Pick(j, back) == j.results
    ensures forall b :: 0 <= b < n ==> Fits(j, b)
  {
    hide Stage;
    StageOnce(j, out, n, back, |back|, |back|);
    assert back[..|back|] == back;
    OutputWithinRoom(j, back);
    forall b | 0 <= b < n ensures Fits(j, b) {
      InRange(back, n, b);
    }
  }

  /** Some buffer's result is longer than its output buffer. */
  ghost predicate SomethingTooLong(j: Job) {
    |j.shape| == |j.results| && exists b :: 0 <= b < |j.results| && !Fits(j, b)
  }

  lemma IsOpen(j: Job, out: seq<Mbuf>, b: nat, m: Mbuf)
    requires IsJob(j, out) && b < |out|
    requires |m.segs| == |out[b].segs| && m.pktLen == j.segSz * |m.segs| && AllFull(m.segs)
    requires forall i :: 0 <= i < |m.segs| ==> m.segs[i].room == out[b].segs[i].room
    ensures IsOutput(m, j.shape[b], j.segSz)
  {
    assert Shaped(j, out, b);
  }

  /** The buffer about to be written is open, so its capacity decides whether the result fits. */
  lemma StageMeans(j: Job, out: seq<Mbuf>, ready: nat, back: seq<nat>, f: nat, w: nat)
    requires Stage(j, out, ready, back, f, w) && w < |back|
    ensures back[w] < |out| == |j.results| == |j.shape| && OnceEach(back, |j.results|)
    ensures Fits(j, back[w]) <==> |j.results[back[w]]| <= Capacity(out[back[w]].segs)
  {
    assert Shaped(j, out, back[w]);
    CapacityOfRooms(out[back[w]].segs, j.segSz);
  }

  lemma StageOnce(j: Job, out: seq<Mbuf>, ready: nat, back: seq<nat>, f: nat, w: nat)
    requires Stage(j, out, ready, back, f, w)
    ensures OnceEach(back, ready) && ready <= |out| == |j.results|
  {
  }

  lemma StageMeansOut(j: Job, out: seq<Mbuf>, ready: nat, back: seq<nat>, f: nat, w: nat)
    requires Stage(j, out, ready, back, f, w) && f < w
    ensures back[f] < |out| == |j.results| && j.segSz > 0
  {
  }

  /** There is room for the next result, and it extends the output by itself. */
  lemma NextOutput(j: Job, back: seq<nat>, w: nat, room: nat)
    requires InJob(j, back) && w < |back| && OnceEach(back, |j.results|)
    requires forall i :: 0 <= i <= w ==> Fits(j, back[i])
    requires Room(j, |j.results|) <= room
    ensures Join(Pick(j, back[..w + 1])) == Join(Pick(j, back[..w])) + j.results[back[w]]
    ensures |Join(Pick(j, back[..w]))| + |j.results[back[w]]| <= room
  {
    assert Pick(j, back[..w + 1]) == Pick(j, back[..w]) + [j.results[back[w]]];
    JoinOneMore(Pick(j, back[..w]), j.results[back[w]]);
    OutputWithinRoom(j, back[..w + 1]);
  }

  lemma BackOfEngine(e: Engine, at: nat, n: nat, k: nat, ready: nat)
    requires e.Valid(at, n, k) && |e.sent| <= ready
    ensures OnceEach(e.back, ready)
  {
    BackOnceEach(multiset(Attached(e.bufOf[..], e.device)), e.back, |e.sent|);
  }
}
