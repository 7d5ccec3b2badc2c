/** What the enqueue and dequeue loops of the compression tests share: the array of operations, the
    pool they come from, and a device that takes any prefix of a burst and hands back any finished
    operations. */
module BurstEngine {
  import opened Words

  type OpId = nat

  /** The buffers the operations `s` are attached to, by the table `bufOf`. */
  function Attached(bufOf: seq<nat>, s: seq<OpId>): (r: seq<nat>)
    requires InTable(bufOf, s)
    ensures |r| == |s|
    ensures forall i :: 0 <= i < |s| ==> r[i] == bufOf[s[i]]
  {
    seq(|s|, i requires 0 <= i < |s| => bufOf[s[i]])
  }

  predicate InTable(bufOf: seq<nat>, s: seq<OpId>) {
    forall i :: 0 <= i < |s| ==> s[i] < |bufOf|
  }

  /** Where all operations are: in the pool, waiting to be enqueued, inside the device, or in the
      region that the last dequeue wrote. */
  datatype Places = Places(pool: seq<OpId>, waiting: seq<OpId>, device: seq<OpId>, out: seq<OpId>)

  ghost function Everywhere(p: Places): multiset<OpId> {
    multiset(p.pool) + multiset(p.waiting) + multiset(p.device) + multiset(p.out)
  }

  /** Every operation is in one place. */
  ghost predicate Owned(opIds: multiset<OpId>, bufOf: seq<nat>, p: Places) {
    && (forall x :: opIds[x] <= 1)
    && (forall x :: x in opIds ==> x < |bufOf|)
    && Everywhere(p) == opIds
  }

  /** The buffers pass through in order: those sent are 0, 1, 2, ..., the waiting operations hold
      the next ones, and every buffer sent is inside the device or has come back. */
  ghost predicate Ordered(bufOf: seq<nat>, waiting: seq<OpId>, device: seq<OpId>, sent: seq<nat>,
                          back: seq<nat>, inOrder: bool)
  {
    && InTable(bufOf, waiting) && InTable(bufOf, device)
    && sent == Range(0, |sent|)
    && Attached(bufOf, waiting) == Range(|sent|, |sent| + |waiting|)
    && multiset(Attached(bufOf, device)) + multiset(back) == multiset(sent)
    && (inOrder ==> back + Attached(bufOf, device) == sent)
  }

  ghost predicate Sound(opIds: multiset<OpId>, bufOf: seq<nat>, p: Places, sent: seq<nat>, back: seq<nat>,
                        inOrder: bool)
  {
    Owned(opIds, bufOf, p) && Ordered(bufOf, p.waiting, p.device, sent, back, inOrder)
  }

  predicate Distinct(s: seq<OpId>) {
    forall i, j :: 0 <= i < j < |s| ==> s[i] != s[j]
  }

  /** Operations drawn from the pool have entries in the table and are all different. */
  lemma TakenAreDistinct(opIds: multiset<OpId>, bufOf: seq<nat>, p: Places, sent: seq<nat>, back: seq<nat>,
                         inOrder: bool, rest: seq<OpId>, taken: seq<OpId>)
    requires Sound(opIds, bufOf, p, sent, back, inOrder)
    requires multiset(rest) + multiset(taken) == multiset(p.pool)
    ensures InTable(bufOf, taken) && Distinct(taken)
  {
    assert multiset(taken) <= opIds;
    forall i | 0 <= i < |taken| ensures taken[i] < |bufOf| {
      assert taken[i] in multiset(taken);
    }
    forall i, j | 0 <= i < j < |taken| ensures taken[i] != taken[j] {
      assert taken == taken[..j] + [taken[j]] + taken[j + 1..];
      assert taken[i] in multiset(taken[..j]) by { assert taken[..j][i] == taken[i]; }
      assert multiset(taken)[taken[j]] <= 1;
    }
  }

  /** Operations taken from the pool may be attached to buffers without disturbing the others. */
  lemma AttachKeepsSound(opIds: multiset<OpId>, old_: seq<nat>, new_: seq<nat>, p: Places,
                         fresh_: seq<OpId>, rest: seq<OpId>, sent: seq<nat>, back: seq<nat>, inOrder: bool)
    requires Sound(opIds, old_, p, sent, back, inOrder)
    requires multiset(rest) + multiset(fresh_) == multiset(p.pool)
    requires |new_| == |old_| && InTable(new_, fresh_)
    requires Attached(new_, fresh_) == Range(|sent| + |p.waiting|, |sent| + |p.waiting| + |fresh_|)
    requires forall x :: 0 <= x < |old_| && x !in fresh_ ==> new_[x] == old_[x]
    ensures Sound(opIds, new_, p.(pool := rest, waiting := p.waiting + fresh_), sent, back, inOrder)
  {
    forall i | 0 <= i < |p.waiting| ensures new_[p.waiting[i]] == old_[p.waiting[i]] {
      NotInBoth(p.waiting, fresh_, p.waiting[i], opIds);
    }
    forall i | 0 <= i < |p.device| ensures new_[p.device[i]] == old_[p.device[i]] {
      NotInBoth(p.device, fresh_, p.device[i], opIds);
    }
    assert Attached(new_, p.device) == Attached(old_, p.device);
    var waiting := p.waiting + fresh_;
    forall i | 0 <= i < |waiting| ensures waiting[i] < |new_| && new_[waiting[i]] == |sent| + i {
      if i < |p.waiting| {
        assert Attached(old_, p.waiting)[i] == |sent| + i;
      } else {
        assert Attached(new_, fresh_)[i - |p.waiting|] == |sent| + i;
      }
    }
    assert Attached(new_, waiting) == Range(|sent|, |sent| + |waiting|);
  }

  lemma NotInBoth(s: seq<OpId>, t: seq<OpId>, x: OpId, opIds: multiset<OpId>)
    requires multiset(s) + multiset(t) <= opIds && (forall y :: opIds[y] <= 1) && x in s
    ensures x !in t
  {
    assert x in multiset(s);
    assert (multiset(s) + multiset(t))[x] <= 1;
    assert x !in multiset(t);
  }

  lemma AttachedConcat(bufOf: seq<nat>, s: seq<OpId>, t: seq<OpId>)
    requires InTable(bufOf, s) && InTable(bufOf, t)
    ensures InTable(bufOf, s + t)
    ensures Attached(bufOf, s + t) == Attached(bufOf, s) + Attached(bufOf, t)
  {
  }

  /** The first `k` waiting operations go into the device. */
  lemma EnqueueKeepsOrdered(bufOf: seq<nat>, waiting: seq<OpId>, device: seq<OpId>, k: nat,
                            sent: seq<nat>, back: seq<nat>, inOrder: bool)
    requires Ordered(bufOf, waiting, device, sent, back, inOrder) && k <= |waiting|
    ensures Ordered(bufOf, waiting[k..], device + waiting[..k], sent + Range(|sent|, |sent| + k), back, inOrder)
  {
    var first, rest, more := waiting[..k], waiting[k..], Range(|sent|, |sent| + k);
    assert Attached(bufOf, first) == more by {
      assert Attached(bufOf, first) == Attached(bufOf, waiting)[..k];
    }
    assert Attached(bufOf, rest) == Range(|sent + more|, |sent + more| + |rest|) by {
      assert Attached(bufOf, rest) == Attached(bufOf, waiting)[k..];
    }
    assert sent + more == Range(0, |sent + more|);
    AttachedConcat(bufOf, device, first);
    assert back + (Attached(bufOf, device) + more) == (back + Attached(bufOf, device)) + more;
  }

  lemma EnqueueKeepsSound(opIds: multiset<OpId>, bufOf: seq<nat>, p: Places, k: nat,
                          sent: seq<nat>, back: seq<nat>, inOrder: bool)
    requires Sound(opIds, bufOf, p, sent, back, inOrder) && k <= |p.waiting|
    ensures Sound(opIds, bufOf, p.(waiting := p.waiting[k..], device := p.device + p.waiting[..k]),
                  sent + Range(|sent|, |sent| + k), back, inOrder)
  {
    hide Ordered;
    EnqueueKeepsOrdered(bufOf, p.waiting, p.device, k, sent, back, inOrder);
    assert p.waiting == p.waiting[..k] + p.waiting[k..];
  }

  /** The device without its operation number `j`. */
  function Without(device: seq<OpId>, j: nat): seq<OpId>
    requires j < |device|
  {
    device[..j] + device[j + 1..]
  }

  /** One finished operation leaves the device. */
  lemma DequeueKeepsSound(opIds: multiset<OpId>, bufOf: seq<nat>, p: Places, j: nat,
                          sent: seq<nat>, back: seq<nat>, inOrder: bool)
    requires Sound(opIds, bufOf, p, sent, back, inOrder) && j < |p.device| && (inOrder ==> j == 0)
    ensures p.device[j] < |bufOf|
    ensures Sound(opIds, bufOf, p.(device := Without(p.device, j), out := p.out + [p.device[j]]),
                  sent, back + [bufOf[p.device[j]]], inOrder)
  {
    var op, rest := p.device[j], Without(p.device, j);
    assert p.device == p.device[..j] + [op] + p.device[j + 1..];
    assert multiset(p.device) == multiset(rest) + multiset{op};
    DequeueKeepsOrdered(bufOf, p.waiting, p.device, j, sent, back, inOrder);
  }

  lemma DequeueKeepsOrdered(bufOf: seq<nat>, waiting: seq<OpId>, device: seq<OpId>, j: nat,
                            sent: seq<nat>, back: seq<nat>, inOrder: bool)
    requires Ordered(bufOf, waiting, device, sent, back, inOrder) && j < |device| && (inOrder ==> j == 0)
    ensures Ordered(bufOf, waiting, Without(device, j), sent, back + [bufOf[device[j]]], inOrder)
  {
    var all, buf, rest := Attached(bufOf, device), bufOf[device[j]], Without(device, j);
    assert Attached(bufOf, rest) == all[..j] + all[j + 1..];
    assert all == all[..j] + [buf] + all[j + 1..];
    if inOrder {
      assert back + all == (back + [buf]) + all[1..];
      assert Attached(bufOf, rest) == all[1..];
    }
  }

  lemma PutBackKeepsSound(opIds: multiset<OpId>, bufOf: seq<nat>, p: Places, sent: seq<nat>,
                          back: seq<nat>, inOrder: bool)
    requires Sound(opIds, bufOf, p, sent, back, inOrder)
    ensures Sound(opIds, bufOf, p.(pool := p.pool + p.out, out := []), sent, back, inOrder)
  {
    hide Ordered;
  }

  lemma RecycleKeepsSound(opIds: multiset<OpId>, bufOf: seq<nat>, p: Places, sent: seq<nat>,
                          back: seq<nat>, inOrder: bool)
    requires Sound(opIds, bufOf, p, sent, back, inOrder) && p.device == []
    ensures var more := Range(|sent|, |sent| + |p.waiting|);
      Sound(opIds, bufOf, p.(pool := p.pool + p.waiting, waiting := []), sent + more, back + more, inOrder)
  {
    var more := Range(|sent|, |sent| + |p.waiting|);
    assert Attached(bufOf, p.device) == [];
    assert Attached(bufOf, []) == [];
    assert sent + more == Range(0, |sent + more|);
    if inOrder {
      assert back + [] == sent;
      assert (back + more) + [] == sent + more;
    }
  }

  /** Every buffer sent is in the device or has come back, so the device empties exactly when as
      many came back as were sent; each came back once. */
  lemma CountsMeanContents(opIds: multiset<OpId>, bufOf: seq<nat>, p: Places, sent: seq<nat>, back: seq<nat>,
                           inOrder: bool)
    requires Sound(opIds, bufOf, p, sent, back, inOrder)
    ensures |sent| == |p.device| + |back|
    ensures |opIds| == |p.pool| + |p.waiting| + |p.device| + |p.out|
    ensures p.device == [] ==> multiset(back) == multiset(sent) && (inOrder ==> back == sent)
    ensures p.device == [] && p.waiting == [] && p.out == [] ==> multiset(p.pool) == opIds
    ensures forall i :: 0 <= i < |back| ==> back[i] < |sent|
  {
    assert |multiset(Attached(bufOf, p.device)) + multiset(back)| == |multiset(sent)|;
    if p.device == [] {
      assert Attached(bufOf, p.device) == [];
    }
    forall i | 0 <= i < |back| ensures back[i] < |sent| {
      assert back[i] in multiset(back);
      assert back[i] in multiset(sent);
    }
  }

  class Engine {
    /** `mem->total_bufs`, and the array whose second region starts at `deq_ops`. */
    const totalBufs: nat
    const ops: array<OpId>
    const deqStart: nat
    /** The buffer each operation is attached to: `m_src`, `m_dst` and `input_chksum`. */
    const bufOf: array<nat>
    /** Whether the device finishes operations in the order in which it accepted them. */
    const inOrder: bool
    /** Whether it takes and gives back at least one operation whenever it can. */
    const eager: bool
    ghost const opIds: multiset<OpId>

    /** The operation pool, and the operations inside the device in the order it accepted them. */
    var pool: seq<OpId>
    var device: seq<OpId>

    /** The buffers the device accepted, and those it gave back, in order. */
    ghost var sent: seq<nat>
    ghost var back: seq<nat>

    ghost predicate Shape()
      reads this
    {
      && ops != bufOf
      && deqStart + totalBufs <= ops.Length
      && |opIds| == 2 * totalBufs
    }

    ghost function Placed(at: nat, n: nat, out: nat): Places
      reads this, ops
      requires at + n <= ops.Length && deqStart + out <= ops.Length
    {
      Places(pool, ops[at..at + n], device, ops[deqStart..deqStart + out])
    }

    /** `n` operations wait at `at`, and `out` have just been dequeued. */
    ghost predicate Valid(at: nat, n: nat, out: nat)
      reads this, ops, bufOf
    {
      && Shape()
      && at + n <= deqStart && deqStart + out <= ops.Length
      && Sound(opIds, bufOf[..], Placed(at, n, out), sent, back, inOrder)
    }

    /** Moves the operations left over from the last burst to the front, to keep their order. */
    method Slide(numEnq: nat, unused: nat)
      requires Valid(numEnq, unused, 0)
      modifies ops
      ensures Valid(0, unused, 0)
      ensures ops[0..unused] == old(ops[numEnq..numEnq + unused])
    {
      if unused > 0 && numEnq > 0 {
        MemMove(ops, 0, numEnq, unused);
      }
      assert ops[0..unused] == old(ops[numEnq..numEnq + unused]);
      assert Placed(0, unused, 0) == old(Placed(numEnq, unused, 0));
    }

    /** `rte_comp_op_bulk_alloc`: `k` operations from the pool, or none. */
    method Alloc(start: nat, k: nat) returns (ok: bool)
      requires Shape() && start + k <= deqStart
      modifies this`pool, ops
      ensures ok <==> k <= |old(pool)|
      ensures ok ==> |pool| == |old(pool)| - k
      ensures ok ==> multiset(pool) + multiset(ops[start..start + k]) == multiset(old(pool))
      ensures ok ==> ops[0..start + k] == old(ops[0..start]) + ops[start..start + k]
      ensures !ok ==> pool == old(pool) && ops[..] == old(ops[..])
    {
      if k > |pool| {
        return false;
      }
      var rest := |pool| - k;
      forall i | start <= i < start + k {
        ops[i] := pool[rest + i - start];
      }
      assert ops[start..start + k] == pool[rest..];
      assert pool == pool[..rest] + pool[rest..];
      pool := pool[..rest];
      ok := true;
    }

    /** Attaches the operations at `start` to consecutive buffers from `first` on. */
    method Attach(start: nat, k: nat, first: nat)
      requires ops != bufOf && start + k <= ops.Length
      requires InTable(bufOf[..], ops[start..start + k])
      requires Distinct(ops[start..start + k])
      modifies bufOf
      ensures Attached(bufOf[..], ops[start..start + k]) == Range(first, first + k)
      ensures forall x :: 0 <= x < bufOf.Length && x !in ops[start..start + k] ==> bufOf[x] == old(bufOf[x])
    {
      ghost var taken := ops[start..start + k];
      var i := 0;
      while i < k
        invariant i <= k
        invariant forall j :: 0 <= j < i ==> bufOf[taken[j]] == first + j
        invariant forall x :: 0 <= x < bufOf.Length && x !in taken ==> bufOf[x] == old(bufOf[x])
      {
        assert taken[i] == ops[start + i];
        bufOf[ops[start + i]] := first + i;
        i := i + 1;
      }
    }

    /** Fills the burst up to `unused + needed` operations: takes the missing ones from the pool and
        attaches each to the next buffer. */
    method Refill(unused: nat, needed: nat, totalEnq: nat) returns (ok: bool)
      requires Valid(0, unused, 0) && unused + needed <= deqStart && totalEnq == |sent|
      modifies this`pool, ops, bufOf
      ensures ok <==> needed <= |old(pool)|
      ensures ok ==> Valid(0, unused + needed, 0) && |pool| == |old(pool)| - needed
      ensures !ok ==> Valid(0, unused, 0) && pool == old(pool)
    {
      hide Sound, Everywhere, Attached, Range;
      ghost var was, table := Placed(0, unused, 0), bufOf[..];
      ok := Alloc(unused, needed);
      if ok {
        ghost var taken := ops[unused..unused + needed];
        TakenAreDistinct(opIds, table, was, sent, back, inOrder, pool, taken);
        Attach(unused, needed, totalEnq + unused);
        AttachKeepsSound(opIds, table, bufOf[..], was, taken, pool, sent, back, inOrder);
        assert Placed(0, unused + needed, 0) == was.(pool := pool, waiting := was.waiting + taken);
      } else {
        assert Placed(0, unused, 0) == was;
      }
    }

    /** `rte_compressdev_enqueue_burst`: the device takes as many of the first `n` operations as it
        likes. */
    method Enqueue(n: nat) returns (k: nat)
      requires Valid(0, n, 0)
      modifies this`device, this`sent
      ensures k <= n && (eager && n > 0 ==> k > 0)
      ensures Valid(k, n - k, 0)
      ensures device == old(device) + ops[..k]
      ensures |sent| == |old(sent)| + k && |back| == |old(back)|
    {
      hide Sound;
      k :| k <= n && (eager && n > 0 ==> k > 0);
      EnqueueKeepsSound(opIds, bufOf[..], Placed(0, n, 0), k, sent, back, inOrder);
      assert ops[0..n][..k] == ops[..k] && ops[0..n][k..] == ops[k..k + (n - k)];
      device := device + ops[..k];
      sent := sent + Range(|sent|, |sent| + k);
    }

    /** Operation number `i` of those just dequeued is the one that brought back the buffer
        `back[from + i]`. */
    ghost predicate OutHolds(i: nat, from: nat)
      reads this, ops, bufOf
    {
      && deqStart + i < ops.Length && ops[deqStart + i] < bufOf.Length
      && from + i < |back| && bufOf[ops[deqStart + i]] == back[from + i]
    }

    /** The device hands back one finished operation, behind the `k` it has already handed back. */
    method HandBack(at: nat, n: nat, k: nat)
      requires Valid(at, n, k) && device != [] && deqStart + k < ops.Length
      modifies this`device, this`back, ops
      ensures Valid(at, n, k + 1) && |device| == |old(device)| - 1
      ensures ops[deqStart + k] < bufOf.Length
      ensures forall x :: deqStart <= x < deqStart + k ==> ops[x] == old(ops[x])
      ensures back == old(back) + [bufOf[ops[deqStart + k]]]
    {
      hide Sound, Everywhere;
      var j :| 0 <= j < |device| && (inOrder ==> j == 0);
      ghost var was := Placed(at, n, k);
      DequeueKeepsSound(opIds, bufOf[..], was, j, sent, back, inOrder);
      ops[deqStart + k] := device[j];
      back := back + [bufOf[device[j]]];
      device := Without(device, j);
      assert Placed(at, n, k + 1) == was.(device := device, out := was.out + [was.device[j]]);
    }

    /** `rte_compressdev_dequeue_burst` into the second region: up to `max` finished operations, any
        of those in the device unless it works in order. The region has room for all of them. */
    method Dequeue(at: nat, n: nat, max: nat) returns (k: nat)
      requires Valid(at, n, 0) && |device| <= totalBufs
      modifies this`device, this`back, ops
      ensures k <= max && Valid(at, n, k) && (eager && max > 0 && old(device) != [] ==> k > 0)
      ensures |device| == |old(device)| - k && |back| == |old(back)| + k
      ensures back[..|old(back)|] == old(back)
      ensures forall i :: 0 <= i < k ==> OutHolds(i, |old(back)|)
    {
      hide Sound, Placed;
      var limit: nat :| limit <= max && limit <= |device| && (eager && max > 0 && device != [] ==> limit > 0);
      k := 0;
      ghost var from := |back|;
      while k < limit
        invariant k <= limit && |device| == |old(device)| - k && |back| == from + k
        invariant Valid(at, n, k)
        invariant back[..|old(back)|] == old(back)
        invariant forall i :: 0 <= i < k ==> OutHolds(i, from)
      {
        label before:
        HandBack(at, n, k);
        forall i | 0 <= i < k ensures OutHolds(i, from) {
          assert old@before(OutHolds(i, from));
        }
        k := k + 1;
      }
    }

    /** `rte_mempool_put_bulk` of the operations just dequeued. */
    method PutBack(at: nat, n: nat, k: nat)
      requires Valid(at, n, k)
      modifies this`pool
      ensures Valid(at, n, 0) && |pool| == |old(pool)| + k
    {
      hide Sound, Everywhere;
      PutBackKeepsSound(opIds, bufOf[..], Placed(at, n, k), sent, back, inOrder);
      pool := pool + ops[deqStart..deqStart + k];
      assert ops[deqStart..deqStart + 0] == [];
    }

    /** A new iteration: the record of buffers begins again. */
    ghost method Restart()
      requires Valid(0, 0, 0) && device == []
      modifies this`sent, this`back
      ensures Valid(0, 0, 0) && sent == back == []
    {
      sent, back := [], [];
      assert Attached(bufOf[..], device) == [];
      assert Attached(bufOf[..], ops[0..0]) == [];
    }

    /** An array of `length` entries, a full pool of `2 * total_bufs` operations, an idle device. */
    constructor (totalBufs: nat, length: nat, deqStart: nat, inOrder: bool, eager: bool)
      requires deqStart + totalBufs <= length
      ensures Valid(0, 0, 0) && device == [] && sent == back == []
      ensures |pool| == 2 * totalBufs && multiset(pool) == opIds
      ensures this.totalBufs == totalBufs && this.deqStart == deqStart && this.inOrder == inOrder
      ensures this.eager == eager
      ensures ops.Length == length && fresh(ops) && fresh(bufOf)
    {
      this.totalBufs, this.deqStart, this.inOrder, this.eager := totalBufs, deqStart, inOrder, eager;
      this.ops := new OpId[length](_ => 0);
      this.bufOf := new nat[2 * totalBufs](_ => 0);
      this.pool, this.device := Range(0, 2 * totalBufs), [];
      this.sent, this.back := [], [];
      this.opIds := multiset(Range(0, 2 * totalBufs));
      new;
      RangeOnce(2 * totalBufs);
      assert Attached(bufOf[..], device) == [];
      assert Attached(bufOf[..], ops[0..0]) == [];
    }

    /** Setting up operations without a device: the `n` waiting operations count as sent and as come
        back, and return to the pool. */
    method Recycle(n: nat)
      requires Valid(0, n, 0) && device == []
      modifies this`pool, this`sent, this`back
      ensures Valid(0, 0, 0) && |pool| == |old(pool)| + n && |sent| == |old(sent)| + n
    {
      hide Sound, Everywhere;
      var ops0 := ops[0..n];
      RecycleKeepsSound(opIds, bufOf[..], Placed(0, n, 0), sent, back, inOrder);
      pool := pool + ops0;
      sent, back := sent + Range(|sent|, |sent| + n), back + Range(|sent|, |sent| + n);
      assert Placed(0, 0, 0) == old(Placed(0, n, 0)).(pool := pool, waiting := []);
    }
  }
}
