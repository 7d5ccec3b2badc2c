/** The benchmark of test-crypto-perf/cperf_test_pmd_cyclecount.c for one burst size: one array is
    filled from the pool, offered to the device, and drained into again. */
module PmdCycleCount {
  import opened Words
  import opened CryptoOps

  datatype Outcome = Done | PoolTooSmall | Watched

  class Bench {
    const ops: array<OpId>
    const nbDescriptors: nat
    var pool: seq<OpId>
    var device: seq<OpId>
    /** Whether the device takes and gives back at least one operation whenever it can. */
    const eager: bool
    /** The counters `ops_enqd` and `ops_deqd`. */
    var opsEnqd: nat
    var opsDeqd: nat
    ghost const opIds: multiset<OpId>

    constructor (nbDescriptors: nat, poolSz: nat, eager: bool)
      requires nbDescriptors > 0
      ensures AtRest() && |opIds| == poolSz && this.nbDescriptors == nbDescriptors && this.eager == eager
    {
      this.nbDescriptors, this.eager := nbDescriptors, eager;
      ops := new OpId[nbDescriptors](_ => 0);
      pool, device, opsEnqd, opsDeqd := Range(0, poolSz), [], 0, 0;
      opIds := multiset(Range(0, poolSz));
      new;
      RangeOnce(poolSz);
    }

    /** The operations not in the pool or the device are those in the array from `at` up to `end`, and
        those before `got`. */
    ghost predicate Holds(got: nat, at: nat, end: nat)
      reads this, ops
    {
      && got <= at <= end <= ops.Length == nbDescriptors && nbDescriptors > 0
      && Conserved(opIds, pool, device, ops[..got] + ops[at..end])
    }

    ghost predicate AtRest()
      reads this, ops
    {
      Holds(0, 0, 0) && device == [] && multiset(pool) == opIds
    }

    /** Copies the last operations of the pool to the array. */
    method CopyLast(at: nat, n: nat)
      requires n <= |pool| && at + n <= ops.Length
      modifies ops
      ensures ops[at..at + n] == pool[|pool| - n..] && ops[..at] == old(ops[..at])
    {
      var rest := |pool| - n;
      forall i | at <= i < at + n {
        ops[i] := pool[rest + i - at];
      }
    }

    /** `rte_mempool_get_bulk` of `n` operations to the array at `at`, behind those that stand from `from`
        on: all of them or none. */
    method GetBulk(from: nat, at: nat, n: nat) returns (ok: bool)
      requires Holds(0, from, at) && at + n <= nbDescriptors
      modifies this`pool, ops
      ensures ok <==> n <= |old(pool)|
      ensures ok ==> Holds(0, from, at + n) && |pool| == |old(pool)| - n
      ensures ok ==> ops[..at] == old(ops[..at])
      ensures !ok ==> Holds(0, from, at) && pool == old(pool)
    {
      hide Conserved;
      if n > |pool| {
        return false;
      }
      ghost var held := ops[..0] + ops[from..at];
      FetchBehind(opIds, pool, device, held, |pool| - n);
      CopyLast(at, n);
      assert ops[from..at] == ops[..at][from..] == held;
      assert ops[..0] + ops[from..at + n] == held + pool[|pool| - n..];
      pool := pool[..|pool| - n];
      ok := true;
    }

    /** Fills the first `n` slots, burst by burst. It fails exactly when the pool has fewer. */
    method BuildOps(n: nat, testBurst: nat) returns (ok: bool)
      requires Holds(0, 0, 0) && n <= nbDescriptors && testBurst > 0
      modifies this`pool, ops
      ensures ok <==> n <= |old(pool)|
      ensures ok ==> Holds(0, 0, n) && |pool| == |old(pool)| - n
    {
      hide Conserved;
      var cur := 0;
      while cur < n
        invariant cur <= n && Holds(0, 0, cur) && |pool| == |old(pool)| - cur
      {
        var burst := Min(n - cur, testBurst);
        ok := GetBulk(0, cur, burst);
        if !ok {
          return;
        }
        cur := cur + burst;
      }
      ok := true;
    }

    /** `rte_mempool_put_bulk` of `n` slots. */
    method PutBulk(at: nat, n: nat)
      requires Holds(0, at, at + n)
      modifies this`pool
      ensures Holds(0, at + n, at + n) && pool == old(pool) + ops[at..at + n]
    {
      assert ops[..0] + ops[at..at + n] == ops[at..at + n];
      pool := pool + ops[at..at + n];
      assert ops[..0] + ops[at + n..at + n] == [];
    }

    /** Nothing is in the array, wherever one begins. */
    lemma NothingHeld(at: nat, other: nat)
      requires Holds(0, at, at) && other <= nbDescriptors
      ensures Holds(0, other, other)
    {
      assert ops[..0] + ops[at..at] == [] == ops[..0] + ops[other..other];
    }

    /** Takes operations burst by burst, each to its place in the array, and gives each burst back:
        afterwards the pool is as full as before. It fails exactly when the pool cannot supply the
        largest burst. */
    method BenchOps(n: nat, testBurst: nat) returns (ok: bool)
      requires AtRest() && n <= nbDescriptors && testBurst > 0
      modifies this`pool, ops
      ensures AtRest() && |pool| == |old(pool)|
      ensures ok <==> Min(n, testBurst) <= |old(pool)|
    {
      hide Conserved;
      var cur := 0;
      while cur < n
        invariant AtRest() && |pool| == |old(pool)|
        invariant cur > 0 ==> Min(n, testBurst) <= |old(pool)|
      {
        var burst := Min(n - cur, testBurst);
        NothingHeld(0, cur);
        ok := GetBulk(cur, cur, burst);
        if ok {
          PutBulk(cur, burst);
          NothingHeld(cur + burst, 0);
        } else {
          NothingHeld(cur, 0);
        }
        Full(opIds, pool, device, ops[..0] + ops[0..0]);
        if !ok {
          return;
        }
        cur := cur + testBurst;
      }
      ok := true;
    }

    /** Enqueues until the device takes nothing more or everything is enqueued; `k` operations went
        into the device, the first ones of the array. */
    method BenchEnq(n: nat, testBurst: nat) returns (k: nat)
      requires Holds(0, 0, n) && testBurst > 0
      modifies this`device, this`opsEnqd
      ensures k <= n && Holds(0, k, n) && (eager ==> k == n)
      ensures device == old(device) + ops[..k] && opsEnqd == old(opsEnqd) + k
    {
      hide Conserved;
      k := 0;
      while k < n
        invariant k <= n && Holds(0, k, n)
        invariant device == old(device) + ops[..k] && opsEnqd == old(opsEnqd) + k
      {
        var burst := Min(n - k, testBurst);
        var taken: nat :| taken <= burst && (eager ==> taken > 0);
        if taken == 0 {
          return;
        }
        TakeKeeps(k, taken, n);
        device := device + ops[k..k + taken];
        opsEnqd, k := opsEnqd + taken, k + taken;
      }
    }

    lemma TakeKeeps(k: nat, taken: nat, n: nat)
      requires Holds(0, k, n) && k + taken <= n
      ensures Conserved(opIds, pool, device + ops[k..k + taken], ops[..0] + ops[k + taken..n])
      ensures ops[..k] + ops[k..k + taken] == ops[..k + taken]
    {
      var waiting := ops[..0] + ops[k..n];
      EnqueueKeeps(opIds, pool, device, waiting, taken);
      assert waiting[..taken] == ops[k..k + taken];
      assert waiting[taken..] == ops[..0] + ops[k + taken..n];
    }

    /** The device hands one operation back, into slot `got`. */
    method HandBack(got: nat, at: nat, end: nat)
      requires Holds(got, at, end) && got < at && device != []
      modifies this`device, ops
      ensures Holds(got + 1, at, end) && |device| == |old(device)| - 1
    {
      hide Conserved;
      var j :| 0 <= j < |device|;
      ghost var was, held := device, ops[..got] + ops[at..end];
      var op := device[j];
      device := device[..j] + device[j + 1..];
      assert was == was[..j] + [op] + was[j + 1..];
      ReturnKeeps(opIds, pool, was, held, device, op);
      ops[got] := op;
      Reorder(opIds, pool, device, held + [op], ops[..got + 1] + ops[at..end]) by {
        assert ops[..got + 1] == ops[..got] + [op];
        assert held == ops[..got] + ops[at..end];
      }
    }

    /** Drains what was enqueued into the array it came from. Operations that did not fit the device
        stay in the slots behind. */
    method BenchDeq(n: nat, end: nat, testBurst: nat, patience: nat) returns (ok: bool, rest: nat)
      requires Holds(0, n, end) && |device| == n
      modifies this`device, this`opsDeqd, ops
      ensures ok ==> Holds(0, 0, end) && device == [] && opsDeqd == old(opsDeqd) + n
      ensures eager && testBurst > 0 && patience >= n ==> ok
    {
      hide Conserved;
      var cur: nat := 0;
      rest := patience;
      while cur < n
        invariant cur <= n && Holds(cur, n, end) && |device| == n - cur
        invariant opsDeqd == old(opsDeqd) + cur && rest <= patience
        invariant eager && testBurst > 0 ==> patience - rest <= cur
        decreases rest
      {
        if rest == 0 {
          return false, rest;
        }
        var burst: nat := Min(n - cur, testBurst);
        var back: nat :| back <= burst && (eager && burst > 0 ==> back > 0);
        for i := 0 to back
          invariant Holds(cur + i, n, end) && |device| == n - cur - i && opsDeqd == old(opsDeqd) + cur
        {
          HandBack(cur + i, n, end);
        }
        opsDeqd, cur, rest := opsDeqd + back, cur + back, rest - 1;
      }
      assert ops[..n] + ops[n..end] == ops[..0] + ops[0..end];
      ok := true;
    }

    /** One round: whatever part of the operations the device takes, the first slots then hold all of
        them again, in some order, so that one call puts them all back. */
    method Round(n: nat, testBurst: nat, patience: nat) returns (outcome: Outcome, done: nat, rest: nat)
      requires AtRest() && n <= nbDescriptors && testBurst > 0
      modifies this, ops
      ensures outcome.PoolTooSmall? <==> n > |opIds|
      ensures outcome.Done? ==> AtRest() && done <= n
      ensures outcome.Done? ==> opsEnqd == old(opsEnqd) + done && opsDeqd == old(opsDeqd) + done
      ensures eager ==> (outcome.Done? ==> done == n) && (patience >= n ==> !outcome.Watched?)
    {
      hide Conserved;
      done, rest := 0, patience;
      var ok := BuildOps(n, testBurst);
      if !ok {
        return PoolTooSmall, done, rest;
      }
      done := BenchEnq(n, testBurst);
      ok, rest := BenchDeq(done, n, testBurst, patience);
      if !ok {
        return Watched, done, rest;
      }
      assert 0 + n == n;
      PutBulk(0, n);
      NothingHeld(n, 0);
      Full(opIds, pool, device, ops[..0] + ops[0..0]);
      outcome := Done;
    }

    /** `pmd_cyclecount_bench_burst_sz`. */
    method Run(totalOps: nat, testBurst: nat, patience: nat) returns (outcome: Outcome)
      requires AtRest() && testBurst > 0
      modifies this, ops
      ensures outcome.Done? ==> AtRest() && opsEnqd == opsDeqd == totalOps
      ensures outcome.PoolTooSmall? ==> Min(nbDescriptors, totalOps) > |opIds|
      ensures outcome.Done? ==> Min(nbDescriptors, totalOps) <= |opIds|
      ensures eager && patience >= totalOps ==> !outcome.Watched?
    {
      hide Conserved;
      opsEnqd, opsDeqd := 0, 0;
      var cur, ok := 0, true;
      while cur < totalOps
        invariant AtRest() && opsEnqd == opsDeqd == 0
      {
        ok := BenchOps(Min(nbDescriptors, totalOps - cur), testBurst);
        if !ok {
          return PoolTooSmall;
        }
        cur := cur + nbDescriptors;
      }
      cur := 0;
      var polls := patience;
      while cur < totalOps
        invariant cur <= totalOps && AtRest() && opsEnqd == opsDeqd == cur
        invariant cur > 0 ==> Min(nbDescriptors, totalOps) <= |opIds|
        invariant eager ==> patience - polls <= cur
        decreases polls
      {
        if polls == 0 {
          return Watched;
        }
        var done, rest;
        outcome, done, rest := Round(Min(nbDescriptors, totalOps - cur), testBurst, polls);
        if !outcome.Done? {
          return;
        }
        cur, polls := cur + done, polls - 1;
      }
      outcome := Done;
    }
  }

  /** The last operations of the pool move behind those that are held. */
  lemma FetchBehind(opIds: multiset<OpId>, pool: seq<OpId>, device: seq<OpId>, held: seq<OpId>, rest: nat)
    requires Conserved(opIds, pool, device, held) && rest <= |pool|
    ensures Conserved(opIds, pool[..rest], device, held + pool[rest..])
  {
    assert pool == pool[..rest] + pool[rest..];
  }

  lemma Reorder(opIds: multiset<OpId>, pool: seq<OpId>, device: seq<OpId>, waiting: seq<OpId>, other: seq<OpId>)
    requires Conserved(opIds, pool, device, waiting) && multiset(waiting) == multiset(other)
    ensures Conserved(opIds, pool, device, other)
  {
  }

  lemma ReturnKeeps(opIds: multiset<OpId>, pool: seq<OpId>, device: seq<OpId>, waiting: seq<OpId>,
                    rest: seq<OpId>, op: OpId)
    requires Conserved(opIds, pool, device, waiting) && multiset(rest) + multiset{op} == multiset(device)
    ensures Conserved(opIds, pool, rest, waiting + [op])
  {
  }

  lemma Full(opIds: multiset<OpId>, pool: seq<OpId>, device: seq<OpId>, none: seq<OpId>)
    requires Conserved(opIds, pool, device, none) && device == [] && none == []
    ensures multiset(pool) == opIds && |pool| == |opIds|
  {
  }
}
