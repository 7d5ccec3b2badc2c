/** The pipelines of one data plane thread (pipeline/thread.c): the parallel arrays `p` and
    `pipeline_data`, and what an enable or a disable request does to them. */
module PipelineTable {
  import opened Words

  const THREAD_PIPELINES_MAX := 256

  type Ptr = nat

  /** `struct pipeline_data`. */
  datatype Slot = Slot(p: Ptr, timerPeriod: nat, timeNext: nat)

  /** What the time stamp counter says when a slot is filled in. */
  datatype Clock = Clock(hz: nat, now: nat)

  /** The used parts of `p` and `pipeline_data`. */
  datatype Table = Table(p: seq<Ptr>, data: seq<Slot>)

  predicate Coherent(t: Table) {
    && |t.p| == |t.data| <= THREAD_PIPELINES_MAX
    && forall i :: 0 <= i < |t.p| ==> t.p[i] == t.data[i].p
  }

  function MakeSlot(p: Ptr, periodMs: nat, clock: Clock): Slot {
    var period := (clock.hz * periodMs) % TWO_64 / 1000;
    Slot(p, period, (clock.now + period) % TWO_64)
  }

  /** A period of the timer is the milliseconds in ticks, less than one tick too short, and the timer
      is first due one period from now: the former just when the product fits 64 bits, the latter just
      when the sum does. */
  lemma MakeSlotMeans(p: Ptr, periodMs: nat, clock: Clock)
    ensures var slot, ticks := MakeSlot(p, periodMs, clock), clock.hz * periodMs;
      && slot.p == p
      && (1000 * slot.timerPeriod <= ticks < 1000 * (slot.timerPeriod + 1) <==> ticks < TWO_64)
      && (slot.timeNext == clock.now + slot.timerPeriod <==> clock.now + slot.timerPeriod < TWO_64)
      && slot.timerPeriod < TWO_64 / 1000 + 1 && slot.timeNext < TWO_64
  {
    var ticks := clock.hz * periodMs;
    assert ticks >= 0;
    WithinOne(ticks);
  }

  lemma WithinOne(ticks: nat)
    ensures var q := ticks % TWO_64 / 1000;
      1000 * q <= ticks < 1000 * (q + 1) <==> ticks < TWO_64
  {
    var rest := ticks % TWO_64;
    assert 1000 * (rest / 1000) <= rest < 1000 * (rest / 1000 + 1);
    assert rest == ticks || rest <= ticks - TWO_64;
  }

  function Append(t: Table, slot: Slot): Table {
    Table(t.p + [slot.p], t.data + [slot])
  }

  /** Index of the first slot that runs `p`, or the number of slots. */
  function Find(data: seq<Slot>, p: Ptr): (i: nat)
    ensures i <= |data|
    ensures i < |data| ==> data[i].p == p
    ensures forall j :: 0 <= j < i ==> data[j].p != p
  {
    if data == [] then 0
    else if data[0].p == p then 0
    else 1 + Find(data[1..], p)
  }

  /** The last element takes the place of element `i`. */
  function MoveLast<T>(s: seq<T>, i: nat): (r: seq<T>)
    requires i < |s|
    ensures |r| == |s| - 1
  {
    s[i := s[|s| - 1]][..|s| - 1]
  }

  /** Both arrays are indexed with the place found in `pipeline_data`. */
  function Remove(t: Table, p: Ptr): Table {
    var i := Find(t.data, p);
    if i < |t.data| && i < |t.p| then Table(MoveLast(t.p, i), MoveLast(t.data, i)) else t
  }

  lemma MoveLastBag<T>(s: seq<T>, i: nat)
    requires i < |s|
    ensures multiset(MoveLast(s, i)) == multiset(s) - multiset{s[i]}
  {
    var n := |s| - 1;
    assert s == s[..n] + [s[n]];
    if i < n {
      assert MoveLast(s, i) == s[..n][i := s[n]];
    } else {
      assert MoveLast(s, i) == s[..n];
    }
  }

  /** The first slot that runs `p` is the one removed: the last slot takes its place, and all others stay
      where they are. */
  lemma RemovePlaces(t: Table, p: Ptr)
    requires Coherent(t) && p in t.p
    ensures var i, r, last := Find(t.data, p), Remove(t, p), |t.p| - 1;
      && i <= last && t.p[i] == p && p !in t.p[..i]
      && |r.p| == |r.data| == last
      && (forall k :: 0 <= k < last && k != i ==> r.p[k] == t.p[k] && r.data[k] == t.data[k])
      && (i < last ==> r.p[i] == t.p[last] && r.data[i] == t.data[last])
  {
    var k :| 0 <= k < |t.p| && t.p[k] == p;
    assert t.data[k].p == p;
    forall j | 0 <= j < Find(t.data, p) ensures t.p[j] != p {
      assert t.data[j].p != p;
    }
  }

  /** An append keeps the arrays parallel and adds one occurrence of one pipeline. */
  lemma AppendMeans(t: Table, slot: Slot)
    requires Coherent(t) && |t.p| < THREAD_PIPELINES_MAX
    ensures Coherent(Append(t, slot))
    ensures multiset(Append(t, slot).p) == multiset(t.p) + multiset{slot.p}
    ensures multiset(Append(t, slot).data) == multiset(t.data) + multiset{slot}
  {
  }

  /** A removal keeps the arrays parallel, takes out one occurrence of `p` when there is one,
      and loses or changes no slot of any other pipeline. */
  lemma RemoveMeans(t: Table, p: Ptr)
    requires Coherent(t)
    ensures Coherent(Remove(t, p))
    ensures p !in t.p ==> Remove(t, p) == t
    ensures multiset(Remove(t, p).p) == multiset(t.p) - multiset{p}
    ensures p in t.p ==> |Remove(t, p).p| == |t.p| - 1
    ensures p in t.p ==>
      exists i :: 0 <= i < |t.data| && t.data[i].p == p
        && multiset(Remove(t, p).data) == multiset(t.data) - multiset{t.data[i]}
  {
    var i := Find(t.data, p);
    if i < |t.data| {
      assert t.p[i] == p;
      MoveLastBag(t.p, i);
      MoveLastBag(t.data, i);
    } else {
      forall j | 0 <= j < |t.p| ensures t.p[j] != p {
        assert t.data[j].p != p;
      }
      assert p !in t.p;
      assert multiset(t.p)[p] == 0;
    }
  }

  /** `struct thread_data` without its rings: fixed arrays and a count. */
  class ThreadData {
    const p: array<Ptr>
    const pipelineData: array<Slot>
    var nPipelines: nat

    ghost predicate Valid()
      reads this, p, pipelineData
    {
      && p.Length == pipelineData.Length == THREAD_PIPELINES_MAX
      && nPipelines <= THREAD_PIPELINES_MAX
      && Coherent(Contents())
    }

    ghost function Contents(): Table
      reads this, p, pipelineData
      requires nPipelines <= p.Length && nPipelines <= pipelineData.Length
    {
      Table(p[..nPipelines], pipelineData[..nPipelines])
    }

    constructor ()
      ensures Valid() && fresh(p) && fresh(pipelineData)
      ensures Contents() == Table([], [])
    {
      p := new Ptr[THREAD_PIPELINES_MAX](_ => 0);
      pipelineData := new Slot[THREAD_PIPELINES_MAX](_ => Slot(0, 0, 0));
      nPipelines := 0;
    }

    /** Answers an enable request; the same statements run on the control thread while this
        thread is not yet running. */
    method HandleEnable(pipeline: Ptr, periodMs: nat, clock: Clock) returns (status: int)
      requires Valid()
      modifies this, p, pipelineData
      ensures Valid()
      ensures status == if old(nPipelines) < THREAD_PIPELINES_MAX then 0 else -1
      ensures status == 0 ==> Contents() == Append(old(Contents()), MakeSlot(pipeline, periodMs, clock))
      ensures status == 0 ==> Contents().p == old(Contents()).p + [pipeline]
      ensures status != 0 ==> Contents() == old(Contents())
    {
      if nPipelines >= THREAD_PIPELINES_MAX {
        return -1;
      }
      p[nPipelines] := pipeline;
      pipelineData[nPipelines] := MakeSlot(pipeline, periodMs, clock);
      nPipelines := nPipelines + 1;
      status := 0;
      assert p[..nPipelines] == old(p[..nPipelines]) + [pipeline];
      assert pipelineData[..nPipelines]
          == old(pipelineData[..nPipelines]) + [MakeSlot(pipeline, periodMs, clock)];
      assert Contents() == Append(old(Contents()), MakeSlot(pipeline, periodMs, clock));
    }

    /** The last slot moves into the place of slot `i`. */
    method DropSlot(i: nat)
      requires Valid() && i < nPipelines
      modifies this, p, pipelineData
      ensures nPipelines == old(nPipelines) - 1
      ensures p[..nPipelines] == MoveLast(old(Contents()).p, i)
      ensures pipelineData[..nPipelines] == MoveLast(old(Contents()).data, i)
    {
      if i < nPipelines - 1 {
        p[i] := p[nPipelines - 1];
        pipelineData[i] := pipelineData[nPipelines - 1];
      }
      nPipelines := nPipelines - 1;
    }

    /** Answers a disable request: the first slot that runs the pipeline is dropped. */
    method HandleDisable(pipeline: Ptr) returns (found: bool)
      requires Valid()
      modifies this, p, pipelineData
      ensures Valid()
      ensures found <==> pipeline in old(Contents()).p
      ensures Contents() == Remove(old(Contents()), pipeline)
    {
      ghost var was := Contents();
      var i := 0;
      while i < nPipelines && pipelineData[i].p != pipeline
        invariant i <= nPipelines
        invariant forall j :: 0 <= j < i ==> pipelineData[j].p != pipeline
      {
        i := i + 1;
      }
      FirstMatch(was, i, pipeline);
      found := i < nPipelines;
      if found {
        DropSlot(i);
      }
      assert Contents() == Remove(was, pipeline);
      RemoveMeans(was, pipeline);
    }

    /** One turn of the data plane part of the dispatch loop; `ran` lists the calls of
        `rte_swx_pipeline_run`. */
    method RunPipelines() returns (ran: seq<Ptr>)
      requires Valid()
      ensures ran == Contents().p
    {
      ran := [];
      var j := 0;
      while j < nPipelines
        invariant j <= nPipelines && ran == p[..j]
      {
        ran := ran + [p[j]];
        j := j + 1;
      }
    }
  }

  lemma FirstMatch(t: Table, i: nat, p: Ptr)
    requires Coherent(t) && i <= |t.data|
    requires i < |t.data| ==> t.data[i].p == p
    requires forall j :: 0 <= j < i ==> t.data[j].p != p
    ensures Find(t.data, p) == i && (i < |t.data| <==> p in t.p)
  {
    if p in t.p {
      var k :| 0 <= k < |t.p| && t.p[k] == p;
      assert t.data[k].p == p;
    }
    if i < |t.data| {
      assert t.p[i] == p;
    }
  }
}
