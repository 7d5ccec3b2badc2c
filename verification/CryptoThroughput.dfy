/** `cperf_throughput_test_runner` of test-crypto-perf/cperf_test_throughput.c: new operations are
    fetched to the front of the burst before the ones left over are moved behind them. */
module CryptoThroughput {
  import opened Words
  import opened CryptoOps

  /** The local variables of a run with one burst size that live from one round to the next. */
  datatype Locals = Locals(opsEnqd: nat, opsUnused: nat, opsEnqdTotal: nat, opsDeqdTotal: nat)

  /** A run ends with all operations done, or when the pool has too few operations; `Watched` means
      that it was not over when the observer stopped looking. */
  datatype Outcome = Done | PoolTooSmall | Watched

  /** The next burst is a full one, or what is left to do. */
  function BurstSize(l: Locals, testBurst: nat, total: nat): nat
    requires l.opsEnqdTotal <= total
  {
    if l.opsEnqdTotal + testBurst <= total then testBurst else total - l.opsEnqdTotal
  }

  class Bench {
    const ops: array<OpId>
    const opsProcessed: array<OpId>
    var pool: seq<OpId>
    /** Accepted and not yet handed back. */
    var device: seq<OpId>
    /** Whether it takes and gives back at least one operation whenever it can. */
    const eager: bool
    ghost const opIds: multiset<OpId>

    /** Arrays for bursts of up to `maxBurst`, a full pool of `poolSz` operations, an idle device. */
    constructor (maxBurst: nat, poolSz: nat, eager: bool)
      ensures Holds(0, 0) && device == [] && |opIds| == poolSz && multiset(pool) == opIds
      ensures ops.Length == opsProcessed.Length == maxBurst && fresh(ops) && fresh(opsProcessed)
      ensures this.eager == eager
    {
      ops := new OpId[maxBurst](_ => 0);
      opsProcessed := new OpId[maxBurst](_ => 0);
      pool, device, this.eager := Range(0, poolSz), [], eager;
      opIds := multiset(Range(0, poolSz));
      new;
      RangeOnce(poolSz);
    }

    /** The operations not in the pool or the device are the `n` in the array from `at` on. */
    ghost predicate Holds(at: nat, n: nat)
      reads this, ops
    {
      ops != opsProcessed && at + n <= ops.Length && Conserved(opIds, pool, device, ops[at..at + n])
    }

    /** What holds at the top of both loops. */
    ghost predicate Head(l: Locals, testBurst: nat, total: nat)
      reads this, ops
    {
      && Holds(l.opsEnqd, l.opsUnused)
      && l.opsEnqd + l.opsUnused <= testBurst <= ops.Length == opsProcessed.Length
      && l.opsEnqdTotal + l.opsUnused <= total
      && (l.opsUnused > 0 ==> BurstSize(l, testBurst, total) <= l.opsEnqd + l.opsUnused)
      && l.opsEnqdTotal == l.opsDeqdTotal + |device|
    }

    /** `rte_mempool_get_bulk` to the front of the array: all `n` operations or none. */
    method GetBulk(n: nat) returns (ok: bool)
      requires n <= ops.Length
      modifies this`pool, ops
      ensures ok <==> n <= |old(pool)|
      ensures ok ==> multiset(pool) + multiset(ops[..n]) == multiset(old(pool)) && |pool| == |old(pool)| - n
      ensures forall i :: n <= i < ops.Length ==> ops[i] == old(ops[i])
      ensures !ok ==> pool == old(pool) && ops[..] == old(ops[..])
    {
      if n > |pool| {
        return false;
      }
      var rest := |pool| - n;
      forall i | 0 <= i < n {
        ops[i] := pool[rest + i];
      }
      assert ops[..n] == pool[rest..];
      assert pool == pool[..rest] + pool[rest..];
      pool := pool[..rest];
      ok := true;
    }

    /** Moves the leftovers behind the new operations at the front. They are still there to be moved,
        because no more were fetched than went into the device. */
    method MoveLeftovers(opsEnqd: nat, opsUnused: nat, opsNeeded: nat)
      requires opsEnqd + opsUnused <= ops.Length && opsNeeded + opsUnused <= ops.Length
      requires opsUnused > 0 ==> opsNeeded <= opsEnqd
      modifies ops
      ensures ops[0..opsNeeded + opsUnused] == old(ops[..opsNeeded]) + old(ops[opsEnqd..opsEnqd + opsUnused])
    {
      ghost var new_, left := ops[..opsNeeded], ops[opsEnqd..opsEnqd + opsUnused];
      if opsEnqd > opsNeeded {
        MemMove(ops, opsNeeded, opsEnqd, opsUnused);
        assert ops[..opsNeeded] == new_;
      }
      assert ops[opsNeeded..opsNeeded + opsUnused] == left;
    }

    /** Puts a burst together: its first slots hold exactly the new operations and then all leftovers,
        in the order they had. It fails exactly when the pool cannot supply the burst beside what the
        device holds. */
    method Gather(opsEnqd: nat, opsUnused: nat, opsNeeded: nat) returns (ok: bool, ghost new_: seq<OpId>)
      requires Holds(opsEnqd, opsUnused) && opsNeeded + opsUnused <= ops.Length
      requires opsUnused > 0 ==> opsNeeded <= opsEnqd
      modifies this`pool, ops
      ensures ok <==> opsNeeded + opsUnused + |device| <= |opIds|
      ensures ok ==> Holds(0, opsNeeded + opsUnused) && |new_| == opsNeeded
      ensures ok ==> ops[0..opsNeeded + opsUnused] == new_ + old(ops[opsEnqd..opsEnqd + opsUnused])
      ensures ok ==> multiset(pool) + multiset(new_) == multiset(old(pool))
    {
      hide Conserved;
      ghost var was, left := pool, ops[opsEnqd..opsEnqd + opsUnused];
      Sizes(opIds, pool, device, left);
      ok := GetBulk(opsNeeded);
      new_ := ops[..opsNeeded];
      if ok {
        assert ops[opsEnqd..opsEnqd + opsUnused] == left by {
          assert opsUnused > 0 ==> opsNeeded <= opsEnqd;
        }
        MoveLeftovers(opsEnqd, opsUnused, opsNeeded);
        FetchKeeps(opIds, was, device, left, pool, new_);
      }
    }

    /** The next burst, from the counters: a full one, or all that is left to do. */
    method FillBurst(l: Locals, testBurst: uint16, total: nat)
      returns (ok: bool, burst: uint16, ghost new_: seq<OpId>)
      requires Head(l, testBurst, total) && l.opsEnqdTotal < total
      modifies this`pool, ops
      ensures burst <= testBurst && l.opsEnqdTotal + burst <= total && l.opsUnused <= burst
      ensures burst == testBurst || l.opsEnqdTotal + burst == total
      ensures ok <==> burst + |device| <= |opIds|
      ensures ok ==> Holds(0, burst) && |new_| == burst - l.opsUnused
      ensures ok ==> ops[0..burst] == new_ + old(ops[l.opsEnqd..l.opsEnqd + l.opsUnused])
      ensures ok ==> multiset(pool) + multiset(new_) == multiset(old(pool))
    {
      hide Conserved;
      burst := if l.opsEnqdTotal + testBurst <= total then testBurst else total - l.opsEnqdTotal;
      var opsNeeded: uint16 := burst - l.opsUnused;
      ok, new_ := Gather(l.opsEnqd, l.opsUnused, opsNeeded);
    }

    /** The device takes any number of the first operations of the burst. */
    method Enqueue(n: nat) returns (k: nat)
      requires Holds(0, n)
      modifies this`device
      ensures eager && n > 0 ==> k > 0
      ensures k <= n && Holds(k, n - k) && device == old(device) + ops[..k]
    {
      hide Conserved;
      k :| k <= n && (eager && n > 0 ==> k > 0);
      ghost var burst := ops[0..0 + n];
      EnqueueKeeps(opIds, pool, device, burst, k);
      assert burst[..k] == ops[..k] && burst[k..] == ops[k..k + (n - k)];
      device := device + ops[..k];
    }

    /** The device hands back any finished operations, which return to the pool. */
    method Dequeue(at: nat, n: nat, max: nat) returns (k: nat)
      requires Holds(at, n) && max <= opsProcessed.Length
      modifies this`device, this`pool, opsProcessed
      ensures eager && max > 0 && old(device) != [] ==> k > 0
      ensures k <= max && Holds(at, n) && |device| == |old(device)| - k && |pool| == |old(pool)| + k
    {
      hide Conserved;
      var limit: nat :| limit <= max && limit <= |device| && (eager && max > 0 && device != [] ==> limit > 0);
      ghost var was := device;
      k := 0;
      while k < limit
        invariant pool == old(pool)
        invariant k <= limit && |device| == |old(device)| - k && at + n <= ops.Length
        invariant multiset(device) + multiset(opsProcessed[..k]) == multiset(old(device))
        invariant ops[at..at + n] == old(ops[at..at + n])
      {
        var j :| 0 <= j < |device|;
        assert device == device[..j] + [device[j]] + device[j + 1..];
        opsProcessed[k] := device[j];
        device := device[..j] + device[j + 1..];
        assert opsProcessed[..k + 1] == opsProcessed[..k] + [opsProcessed[k]];
        k := k + 1;
      }
      DequeueKeeps(opIds, pool, was, ops[at..at + n], device, opsProcessed[..k]);
      pool := pool + opsProcessed[..k];
    }

    /** One round of the first loop. It fails exactly when the pool cannot supply the burst beside what
        the device holds. */
    method Round(l: Locals, testBurst: uint16, total: nat) returns (ok: bool, m: Locals)
      requires Head(l, testBurst, total) && l.opsEnqdTotal < total
      modifies this`pool, this`device, ops, opsProcessed
      ensures ok <==> Min(testBurst, total - l.opsEnqdTotal) + |old(device)| <= |opIds|
      ensures !ok ==> |opIds| < total
      ensures ok ==> Head(m, testBurst, total) && m.opsEnqdTotal >= l.opsEnqdTotal
      ensures ok && eager && testBurst > 0 ==> m.opsEnqdTotal > l.opsEnqdTotal
    {
      hide Conserved;
      m := l;
      var burst;
      ghost var new_;
      ok, burst, new_ := FillBurst(l, testBurst, total);
      if !ok {
        return;
      }
      var opsEnqd := Enqueue(burst);
      m := Locals(opsEnqd, burst - opsEnqd, l.opsEnqdTotal + opsEnqd, l.opsDeqdTotal);
      var opsDeqd := Dequeue(opsEnqd, burst - opsEnqd, testBurst);
      m := m.(opsDeqdTotal := m.opsDeqdTotal + opsDeqd);
    }

    /** All bursts of one size. Both totals end at exactly `total`, and the pool is as full as it was;
        only a pool of fewer operations than that can turn out too small. With an eager device the run is
        over after at most twice as many rounds as there are operations. */
    method Run(testBurst: uint16, total: nat, patience: nat) returns (outcome: Outcome, l: Locals)
      requires Holds(0, 0) && device == [] && testBurst <= ops.Length == opsProcessed.Length
      modifies this`pool, this`device, ops, opsProcessed
      ensures outcome.Done? ==> Holds(0, 0) && device == [] && multiset(pool) == opIds
      ensures outcome.Done? ==> l.opsEnqdTotal == l.opsDeqdTotal == total && l.opsUnused == 0
      ensures outcome.PoolTooSmall? ==> |opIds| < total
      ensures eager && testBurst > 0 && patience >= 2 * total ==> !outcome.Watched?
    {
      hide Conserved;
      l := Locals(0, 0, 0, 0);
      var polls, ok := patience, true;
      while l.opsEnqdTotal < total
        invariant Head(l, testBurst, total)
        invariant eager && testBurst > 0 ==> patience - polls <= l.opsEnqdTotal
        decreases polls
      {
        if polls == 0 {
          return Watched, l;
        }
        ok, l := Round(l, testBurst, total);
        if !ok {
          return PoolTooSmall, l;
        }
        polls := polls - 1;
      }
      while l.opsDeqdTotal < total
        invariant Head(l, testBurst, total) && l.opsEnqdTotal == total
        invariant eager && testBurst > 0 ==> patience - polls <= total + l.opsDeqdTotal
        decreases polls
      {
        if polls == 0 {
          return Watched, l;
        }
        var opsDeqd := Dequeue(l.opsEnqd, l.opsUnused, testBurst);
        l := l.(opsDeqdTotal := l.opsDeqdTotal + opsDeqd);
        polls := polls - 1;
      }
      assert ops[l.opsEnqd..l.opsEnqd + l.opsUnused] == [] == ops[0..0 + 0];
      Sizes(opIds, pool, device, []);
      outcome := Done;
    }
  }
}
