/** `rss_setup` of pipeline/obj.c, with the checks of `link_create`: the receive queues are spread over
    the redirection table of a port. */
module RssTable {
  import opened Words
  import opened Arithmetic

  const GROUP_SIZE := 64
  const RETA_SIZE_512 := 512
  const RETA_CONF_SIZE := RETA_SIZE_512 / GROUP_SIZE
  const LINK_RXQ_RSS_MAX := 16
  const UINT64_MAX := 0xFFFF_FFFF_FFFF_FFFF

  /** `struct rte_eth_rss_reta_entry64`. */
  datatype Group = Group(mask: nat, reta: seq<uint16>)

  const EmptyGroup := Group(0, seq(GROUP_SIZE, _ => 0))

  /** What `link_create` checks before anything is set up. */
  predicate Checked(retaSize: uint16, maxRxQueues: uint16, queueId: seq<uint32>) {
    && 0 < retaSize <= RETA_SIZE_512
    && 0 < |queueId| < LINK_RXQ_RSS_MAX
    && forall i :: 0 <= i < |queueId| ==> queueId[i] < maxRxQueues
  }

  method CheckRss(retaSize: uint16, maxRxQueues: uint16, queueId: seq<uint32>) returns (ok: bool)
    ensures ok <==> Checked(retaSize, maxRxQueues, queueId)
  {
    if retaSize == 0 || retaSize > RETA_SIZE_512 || |queueId| == 0 || |queueId| >= LINK_RXQ_RSS_MAX {
      return false;
    }
    for i := 0 to |queueId|
      invariant forall j :: 0 <= j < i ==> queueId[j] < maxRxQueues
    {
      if queueId[i] >= maxRxQueues {
        return false;
      }
    }
    ok := true;
  }

  predicate Shape(conf: seq<Group>) {
    |conf| == RETA_CONF_SIZE && forall g :: 0 <= g < |conf| ==> |conf[g].reta| == GROUP_SIZE
  }

  /** Where the port looks for entry `i` of the table. */
  function At(conf: seq<Group>, i: nat): uint16
    requires Shape(conf) && i < RETA_SIZE_512
  {
    conf[i / GROUP_SIZE].reta[i % GROUP_SIZE]
  }

  /** Writing one entry changes no other. */
  lemma OtherEntriesStay(conf: seq<Group>, i: nat, v: uint16)
    requires Shape(conf) && i < RETA_SIZE_512
    ensures var g := conf[i / GROUP_SIZE];
      var new_ := conf[i / GROUP_SIZE := g.(reta := g.reta[i % GROUP_SIZE := v])];
      && Shape(new_) && At(new_, i) == v
      && forall j :: 0 <= j < RETA_SIZE_512 && j != i ==> At(new_, j) == At(conf, j)
  {
    var g := conf[i / GROUP_SIZE];
    var new_ := conf[i / GROUP_SIZE := g.(reta := g.reta[i % GROUP_SIZE := v])];
    forall j | 0 <= j < RETA_SIZE_512 && j != i ensures At(new_, j) == At(conf, j) {
      if j / GROUP_SIZE == i / GROUP_SIZE {
        assert j % GROUP_SIZE != i % GROUP_SIZE;
      }
    }
  }

  /** A group is touched when an entry of the table falls into it. */
  predicate Touched(g: nat, retaSize: nat) {
    g * GROUP_SIZE < retaSize
  }

  /** Every entry of the table names the queue at its position modulo the number of queues, truncated to
      16 bits; exactly the touched groups have full masks; what lies behind the table is zero. */
  method RssSetup(retaSize: uint16, queueId: seq<uint32>) returns (conf: array<Group>)
    requires retaSize <= RETA_SIZE_512 && |queueId| > 0
    ensures fresh(conf) && Shape(conf[..])
    ensures forall i :: 0 <= i < retaSize ==> At(conf[..], i) == queueId[i % |queueId|] % 0x1_0000
    ensures forall i :: retaSize <= i < RETA_SIZE_512 ==> At(conf[..], i) == 0
    ensures forall g :: 0 <= g < RETA_CONF_SIZE ==>
      conf[g].mask == if Touched(g, retaSize) then UINT64_MAX else 0
  {
    conf := new Group[RETA_CONF_SIZE](_ => EmptyGroup);
    for i := 0 to retaSize
      invariant forall g :: 0 <= g < RETA_CONF_SIZE ==> conf[g].reta == EmptyGroup.reta
      invariant forall g :: 0 <= g < RETA_CONF_SIZE ==> conf[g].mask == if Touched(g, i) then UINT64_MAX else 0
    {
      conf[i / GROUP_SIZE] := conf[i / GROUP_SIZE].(mask := UINT64_MAX);
    }
    for i := 0 to retaSize
      invariant Shape(conf[..])
      invariant forall j :: 0 <= j < i ==> At(conf[..], j) == queueId[j % |queueId|] % 0x1_0000
      invariant forall j :: i <= j < RETA_SIZE_512 ==> At(conf[..], j) == 0
      invariant forall g :: 0 <= g < RETA_CONF_SIZE ==>
        conf[g].mask == if Touched(g, retaSize) then UINT64_MAX else 0
    {
      ghost var was := conf[..];
      var retaId, retaPos, rssQsPos := i / GROUP_SIZE, i % GROUP_SIZE, i % |queueId|;
      OtherEntriesStay(was, i, queueId[rssQsPos] % 0x1_0000);
      conf[retaId] := conf[retaId].(reta := conf[retaId].reta[retaPos := queueId[rssQsPos] % 0x1_0000]);
      assert conf[..] == was[retaId := conf[retaId]];
    }
  }

  // ---- Balance ----

  /** How many of the first `m` entries name position `k` among `n` queues. */
  function Hits(m: nat, n: nat, k: nat): nat
    requires n > 0
  {
    if m == 0 then 0 else Hits(m - 1, n, k) + if (m - 1) % n == k then 1 else 0
  }

  /** Every queue position gets the average number of entries, rounded down, and the first ones get one
      more until all entries are given out. */
  lemma {:induction false} Balanced(m: nat, n: nat, k: nat)
    requires k < n
    ensures Hits(m, n, k) == m / n + if k < m % n then 1 else 0
  {
    if m == 0 {
      QuotientIs(0, n, 0, 0);
    } else {
      Balanced(m - 1, n, k);
      NextRemainder(m - 1, n);
    }
  }

  /** How many of the first `m` entries of the table name queue `q`. */
  function Entries(conf: seq<Group>, m: nat, q: uint32): nat
    requires Shape(conf) && m <= RETA_SIZE_512
  {
    if m == 0 then 0 else Entries(conf, m - 1, q) + if At(conf, m - 1) == q then 1 else 0
  }

  lemma {:induction false} EntriesAreHits(conf: seq<Group>, m: nat, queueId: seq<uint32>, k: nat)
    requires Shape(conf) && m <= RETA_SIZE_512 && k < |queueId|
    requires forall i :: 0 <= i < |queueId| && i != k ==> queueId[i] != queueId[k]
    requires forall i :: 0 <= i < m ==> At(conf, i) == queueId[i % |queueId|]
    ensures Entries(conf, m, queueId[k]) == Hits(m, |queueId|, k)
  {
    if m > 0 {
      EntriesAreHits(conf, m - 1, queueId, k);
      assert At(conf, m - 1) == queueId[(m - 1) % |queueId|];
    }
  }

  /** After the checks of `link_create`, the table names the very queues that were asked for, and each
      queue that was listed once has its fair share of the entries. */
  lemma FairShare(conf: seq<Group>, retaSize: uint16, maxRxQueues: uint16, queueId: seq<uint32>, k: nat)
    requires Checked(retaSize, maxRxQueues, queueId) && k < |queueId| && Shape(conf)
    requires forall i :: 0 <= i < retaSize ==> At(conf, i) == queueId[i % |queueId|] % 0x1_0000
    requires forall i :: 0 <= i < |queueId| && i != k ==> queueId[i] != queueId[k]
    ensures forall i :: 0 <= i < retaSize ==> At(conf, i) == queueId[i % |queueId|]
    ensures var share := Entries(conf, retaSize, queueId[k]);
      share == retaSize / |queueId| || (share == retaSize / |queueId| + 1 && retaSize % |queueId| != 0)
  {
    forall i | 0 <= i < retaSize ensures At(conf, i) == queueId[i % |queueId|] {
      assert queueId[i % |queueId|] < maxRxQueues;
    }
    EntriesAreHits(conf, retaSize, queueId, k);
    Balanced(retaSize, |queueId|, k);
  }
}
