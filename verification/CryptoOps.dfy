/** Where the operations of the crypto tests are: in the pool, in the array of a test, or inside the
    device. */
module CryptoOps {

  type OpId = nat

  /** Every operation is in the pool, inside the device, or waiting, and in one place only. */
  ghost predicate Conserved(opIds: multiset<OpId>, pool: seq<OpId>, device: seq<OpId>, waiting: seq<OpId>) {
    && (forall x :: opIds[x] <= 1)
    && multiset(pool) + multiset(device) + multiset(waiting) == opIds
  }

  lemma FetchKeeps(opIds: multiset<OpId>, pool: seq<OpId>, device: seq<OpId>, waiting: seq<OpId>,
                   rest: seq<OpId>, new_: seq<OpId>)
    requires Conserved(opIds, pool, device, waiting) && multiset(rest) + multiset(new_) == multiset(pool)
    ensures Conserved(opIds, rest, device, new_ + waiting)
  {
  }

  lemma EnqueueKeeps(opIds: multiset<OpId>, pool: seq<OpId>, device: seq<OpId>, burst: seq<OpId>, k: nat)
    requires Conserved(opIds, pool, device, burst) && k <= |burst|
    ensures Conserved(opIds, pool, device + burst[..k], burst[k..])
  {
    assert burst == burst[..k] + burst[k..];
  }

  lemma DequeueKeeps(opIds: multiset<OpId>, pool: seq<OpId>, device: seq<OpId>, waiting: seq<OpId>,
                     rest: seq<OpId>, done: seq<OpId>)
    requires Conserved(opIds, pool, device, waiting) && multiset(rest) + multiset(done) == multiset(device)
    ensures Conserved(opIds, pool + done, rest, waiting)
  {
  }

  lemma Sizes(opIds: multiset<OpId>, pool: seq<OpId>, device: seq<OpId>, waiting: seq<OpId>)
    requires Conserved(opIds, pool, device, waiting)
    ensures |opIds| == |pool| + |device| + |waiting|
    ensures device == [] && waiting == [] ==> multiset(pool) == opIds
  {
  }
}
