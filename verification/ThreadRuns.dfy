/** What holds of every run of the protocol, whatever way its threads interleave. */
module ThreadRuns {
  import opened Words
  import opened PipelineTable
  import opened AtomicSwitch
  import opened ThreadProtocol

  function RunSteps(s: State, steps: seq<Step>): State
    decreases steps
  {
    if steps == [] then s else RunSteps(Next(s, steps[0]), steps[1..])
  }

  /** The commands in the order in which they take effect. */
  function Log(s: State, steps: seq<Step>): seq<Issued>
    decreases steps
  {
    if steps == [] then [] else Commit(s, steps[0]) + Log(Next(s, steps[0]), steps[1..])
  }

  /** After `thread_init`: no pipeline is on any thread, and no message exists. */
  ghost predicate Init(s: State) {
    && s.ctl.Idle? && s.heap == map[] && s.returned == []
    && (forall t :: 0 <= t < |s.lanes| ==> Quiet(s.lanes[t]) && s.lanes[t].table == Table([], []))
    && (forall n :: n in s.pipelines ==> !s.pipelines[n].enabled)
    && DistinctPointers(s.pipelines)
  }

  lemma {:induction false} RunRefines(s: State, steps: seq<Step>)
    requires Inv(s)
    ensures Inv(RunSteps(s, steps))
    ensures Abs(RunSteps(s, steps)) == Run(Abs(s), Log(s, steps))
    decreases steps
  {
    if steps != [] {
      var n := Next(s, steps[0]);
      StepRefines(s, steps[0]);
      RunRefines(n, steps[1..]);
      RunConcat(Abs(s), Commit(s, steps[0]), Log(n, steps[1..]));
    }
  }

  lemma InitInv(s: State)
    requires Init(s)
    ensures Inv(s)
  {
  }

  /** Every interleaving of the control thread with all data plane threads gives the tables, the
      records and the return codes of performing the same commands one at a time, at once. */
  lemma EveryInterleavingIsAtomic(s: State, steps: seq<Step>)
    requires Init(s)
    ensures WellFormed(Abs(s))
    ensures var e := RunSteps(s, steps);
      var atomic := Run(Abs(s), Log(s, steps));
      && Tables(e.lanes) == atomic.tables
      && (e.ctl.Idle? ==> e.pipelines == atomic.pipelines && e.returned == atomic.returned)
      && (!e.ctl.Idle? ==> e.returned <= atomic.returned && |atomic.returned| <= |e.returned| + 1)
  {
    RunRefines(s, steps);
  }

  /** In every interleaving, each call that has returned gave 0 if its command was granted in the state
      that the commands before it had left, and -1 if not. */
  lemma CodesOverEveryRun(s: State, steps: seq<Step>, k: nat)
    requires Init(s) && k < |RunSteps(s, steps).returned|
    ensures WellFormed(Abs(s)) && k < |Log(s, steps)|
    ensures var log := Log(s, steps);
      RunSteps(s, steps).returned[k] == (log[k].cmd, if Granted(Run(Abs(s), log[..k]), log[k]) then 0 else -1)
  {
    hide WellFormed, Granted;
    var log := Log(s, steps);
    EveryInterleavingIsAtomic(s, steps);
    CodesAreAppended(Abs(s), log);
    CodesOfRun(Abs(s), log, k);
  }

  /** In every interleaving, a disable that follows a successful disable of the same pipeline on the same
      thread returns 0 too, and leaves all tables and records as they are. */
  lemma DisablingTwice(s: State, steps: seq<Step>, k: nat)
    requires Init(s) && k + 1 < |RunSteps(s, steps).returned|
    requires var codes := RunSteps(s, steps).returned;
      codes[k].0.DisablePipeline? && codes[k].1 == 0 && codes[k + 1].0 == codes[k].0
    ensures WellFormed(Abs(s)) && k + 1 < |Log(s, steps)|
    ensures RunSteps(s, steps).returned[k + 1].1 == 0
    ensures var b, c := Run(Abs(s), Log(s, steps)[..k + 1]), Run(Abs(s), Log(s, steps)[..k + 2]);
      c.tables == b.tables && c.pipelines == b.pipelines
  {
    hide WellFormed, Granted, Init;
    var log := Log(s, steps);
    CodesOverEveryRun(s, steps, k);
    CodesOverEveryRun(s, steps, k + 1);
    DisableTwiceInRun(Abs(s), log, k);
  }

  // ---- Messages ----

  ghost function HandMessage(hand: Hand): multiset<Addr> {
    match hand
    case Empty => multiset{}
    case ToHandle(a) => multiset{a}
    case ToReply(a) => multiset{a}
  }

  /** The messages in all rings and in the hands of all data plane threads. */
  ghost function Messages(lanes: seq<Lane>): multiset<Addr> {
    if lanes == [] then multiset{}
    else multiset(lanes[0].req) + HandMessage(lanes[0].hand) + multiset(lanes[0].rsp) + Messages(lanes[1..])
  }

  lemma {:induction false} QuietLanesHoldNothing(lanes: seq<Lane>)
    requires AllQuiet(lanes)
    ensures Messages(lanes) == multiset{}
  {
    if lanes != [] {
      assert Quiet(lanes[0]);
      QuietLanesHoldNothing(lanes[1..]);
    }
  }

  lemma {:induction false} MessagesOfOneLane(lanes: seq<Lane>, t: nat, a: Addr)
    requires t < |lanes| && QuietBut(lanes, t)
    requires HoldsRequest(lanes[t], a) || HoldsResponse(lanes[t], a)
    ensures Messages(lanes) == multiset{a}
  {
    assert forall u :: 0 <= u < |lanes| - 1 ==> lanes[1..][u] == lanes[u + 1];
    if t == 0 {
      QuietLanesHoldNothing(lanes[1..]);
    } else {
      assert Quiet(lanes[0]);
      MessagesOfOneLane(lanes[1..], t - 1, a);
    }
  }

  /** In every reachable state at most one message exists outside the control thread, and only
      while that thread waits for the answer to it; it is the one message that was sent. */
  lemma AtMostOneMessage(s: State, steps: seq<Step>)
    requires Init(s)
    ensures var e := RunSteps(s, steps);
      Messages(e.lanes) == if e.ctl.Waiting? then multiset{e.ctl.sent} else multiset{}
  {
    RunRefines(s, steps);
    var e := RunSteps(s, steps);
    if e.ctl.Waiting? {
      MessagesOfOneLane(e.lanes, e.ctl.cmd.thread, e.ctl.sent);
    } else {
      QuietLanesHoldNothing(e.lanes);
    }
  }

  /** No ring is ever full, so neither enqueue loop goes round a second time. */
  lemma RingsAreNeverFull(s: State, steps: seq<Step>, t: nat)
    requires Init(s) && t < |RunSteps(s, steps).lanes|
    ensures var e := RunSteps(s, steps);
      && |e.lanes[t].req| + |e.lanes[t].rsp| <= 1 < RING_CAPACITY
      && (e.ctl.Sending? ==> Next(e, Enqueue).ctl.Waiting?)
      && (e.lanes[t].hand.ToReply? ==> Next(e, WorkerReply(t)).lanes[t].hand.Empty?)
  {
    hide Abs, WellFormed;
    InitInv(s);
    RunRefines(s, steps);
    RingsHoldAtMostOne(RunSteps(s, steps), t);
  }

  lemma RingsHoldAtMostOne(e: State, t: nat)
    requires MessageInv(e) && t < |e.lanes|
    ensures |e.lanes[t].req| + |e.lanes[t].rsp| <= 1
    ensures e.ctl.Sending? ==> e.ctl.cmd.thread < |e.lanes| && |e.lanes[e.ctl.cmd.thread].req| == 0
  {
    assert Quiet(e.lanes[t]) || (e.ctl.Waiting? && e.ctl.cmd.thread == t);
  }

  /** The buffer that comes back is the one that was sent, it holds the status, and it is the only
      message memory there is; freeing it leaves none. */
  lemma TheBufferSentComesBack(s: State, steps: seq<Step>)
    requires Init(s) && RunSteps(s, steps).ctl.Received?
    ensures var e := RunSteps(s, steps);
      && e.ctl.got == e.ctl.sent
      && e.heap.Keys == {e.ctl.got} && e.heap[e.ctl.got].Response?
      && Next(e, Finish).ctl.Idle? && Next(e, Finish).heap == map[]
      && Next(e, Finish).returned == e.returned + [(e.ctl.cmd, e.heap[e.ctl.got].status)]
  {
    hide Abs, WellFormed;
    InitInv(s);
    RunRefines(s, steps);
    ControlRefines(RunSteps(s, steps), Finish);
  }

  function Allocations(s: State, steps: seq<Step>): nat
    decreases steps
  {
    if steps == [] then 0
    else (if s.ctl.Idle? && Next(s, steps[0]).ctl.Sending? then 1 else 0)
         + Allocations(Next(s, steps[0]), steps[1..])
  }

  function Frees(s: State, steps: seq<Step>): nat
    decreases steps
  {
    if steps == [] then 0
    else (if s.ctl.Received? && Next(s, steps[0]).ctl.Idle? then 1 else 0)
         + Frees(Next(s, steps[0]), steps[1..])
  }

  /** Memory is conserved: what was allocated and not freed is the one buffer of the command under
      way, so between commands every buffer has been freed exactly once. */
  lemma {:induction false} BuffersAreConserved(s: State, steps: seq<Step>)
    requires Inv(s)
    ensures Allocations(s, steps) + |s.heap| == Frees(s, steps) + |RunSteps(s, steps).heap|
    ensures |RunSteps(s, steps).heap| == if RunSteps(s, steps).ctl.Idle? then 0 else 1
    decreases steps
  {
    if steps == [] {
      HeapSize(s);
    } else {
      var n := Next(s, steps[0]);
      StepRefines(s, steps[0]);
      ControlMoves(s, steps[0]);
      HeapSize(s);
      HeapSize(n);
      BuffersAreConserved(n, steps[1..]);
    }
  }

  /** A command starts by allocating and ends by freeing, or it never leaves the control thread. */
  lemma ControlMoves(s: State, step: Step)
    ensures s.ctl.Idle? && !Next(s, step).ctl.Idle? ==> Next(s, step).ctl.Sending?
    ensures !s.ctl.Idle? && Next(s, step).ctl.Idle? ==> s.ctl.Received?
    ensures s.ctl.Sending? ==> !Next(s, step).ctl.Received?
  {
  }

  lemma HeapSize(s: State)
    requires Inv(s)
    ensures |s.heap| == if s.ctl.Idle? then 0 else 1
  {
    if !s.ctl.Idle? {
      assert s.heap.Keys == {s.ctl.sent};
      assert |s.heap| == |s.heap.Keys|;
    }
  }

  // ---- Presence ----

  /** In every reachable state a pipeline recorded as enabled is in the table of the recorded
      thread, unless its disable has been handled and only the answer is still to come. */
  lemma EnabledIsPresent(s: State, steps: seq<Step>, name: string)
    requires Init(s) && name in RunSteps(s, steps).pipelines
    requires RunSteps(s, steps).pipelines[name].enabled
    ensures var e := RunSteps(s, steps);
      var pl := e.pipelines[name];
      || (pl.thread < |e.lanes| && pl.p in e.lanes[pl.thread].table.p)
      || (Pending(e) == Some(0) && e.ctl.cmd.name == name)
  {
    RunRefines(s, steps);
    var e := RunSteps(s, steps);
    if !(Pending(e) == Some(0) && e.ctl.cmd.name == name) {
      assert Abs(e).pipelines[name] == e.pipelines[name];
      assert Present(Abs(e), name);
    }
  }

  /** The branch marked "should not get here" is never reached: a disable request that a data plane
      thread handles finds its pipeline, and so does the search on the control thread. */
  lemma DisableAlwaysFinds(s: State, steps: seq<Step>)
    requires Init(s)
    ensures var e := RunSteps(s, steps);
      && (forall t :: 0 <= t < |e.lanes| && e.lanes[t].hand.ToHandle? ==>
            && e.lanes[t].hand.addr in e.heap
            && !e.heap[e.lanes[t].hand.addr].Response?
            && (e.heap[e.lanes[t].hand.addr].DisableRequest? ==>
                  e.heap[e.lanes[t].hand.addr].p in e.lanes[t].table.p))
      && (e.ctl.Idle? ==> forall name :: name in e.pipelines && e.pipelines[name].enabled ==>
            && e.pipelines[name].thread < |e.lanes|
            && e.pipelines[name].p in e.lanes[e.pipelines[name].thread].table.p)
  {
    RunRefines(s, steps);
    var e := RunSteps(s, steps);
    forall t | 0 <= t < |e.lanes| && e.lanes[t].hand.ToHandle?
      ensures e.lanes[t].hand.addr in e.heap && !e.heap[e.lanes[t].hand.addr].Response?
      ensures e.heap[e.lanes[t].hand.addr].DisableRequest? ==>
        e.heap[e.lanes[t].hand.addr].p in e.lanes[t].table.p
    {
      assert e.ctl.Waiting? && e.ctl.cmd.thread == t;
      if e.ctl.cmd.DisablePipeline? {
        assert Present(Abs(e), e.ctl.cmd.name);
      }
    }
    if e.ctl.Idle? {
      forall name | name in e.pipelines && e.pipelines[name].enabled
        ensures e.pipelines[name].thread < |e.lanes|
          && e.pipelines[name].p in e.lanes[e.pipelines[name].thread].table.p
      {
        assert Present(Abs(e), name);
      }
    }
  }

  /** The two arrays of every thread agree and stay within bounds in every reachable state. */
  lemma ArraysStayCoherent(s: State, steps: seq<Step>, t: nat)
    requires Init(s) && t < |RunSteps(s, steps).lanes|
    ensures Coherent(RunSteps(s, steps).lanes[t].table)
  {
    RunRefines(s, steps);
    assert Coherent(Abs(RunSteps(s, steps)).tables[t]);
  }

  // ---- Conservation, carried over from the atomic specification ----

  /** Between commands, the sum of `n_pipelines` is the number of successful enables less that of
      the disables which took a pipeline off, and if no enabled pipeline was enabled again, each
      pipeline fills one slot on one thread when enabled and none otherwise. */
  lemma SlotsOverEveryRun(s: State, steps: seq<Step>)
    requires Init(s)
    ensures WellFormed(Abs(s))
    ensures var e, log := RunSteps(s, steps), Log(s, steps);
      && Slots(Tables(e.lanes)) == EnableCount(Abs(s), log) - DisableCount(Abs(s), log)
      && (OneSlotIffEnabled(Abs(e)) <==> NeverReEnables(Abs(s), log))
  {
    RunRefines(s, steps);
    SlotsAreConserved(Abs(s), Log(s, steps));
    NoSlots(Tables(s.lanes));
    assert OneSlotIffEnabled(Abs(s));
    OneSlotExactlyWhenNeverReEnabled(Abs(s), Log(s, steps));
  }

  lemma {:induction false} NoSlots(tables: seq<Table>)
    requires forall t :: 0 <= t < |tables| ==> tables[t].p == []
    ensures Slots(tables) == 0
  {
    if tables != [] {
      NoSlots(tables[1..]);
    }
  }

  // ---- A command can always finish ----

  /** Steps that bring the command under way to its end. */
  ghost function FinishingSteps(s: State): seq<Step> {
    match s.ctl
    case Idle => []
    case Received(_, _, _) => [Finish]
    case Sending(cmd, _) =>
      [Enqueue, WorkerPoll(cmd.thread), WorkerHandle(cmd.thread, Clock(0, 0)), WorkerReply(cmd.thread),
       Dequeue, Finish]
    case Waiting(cmd, _) =>
      var t := cmd.thread;
      if t >= |s.lanes| then []
      else if s.lanes[t].req != [] then
        [WorkerPoll(t), WorkerHandle(t, Clock(0, 0)), WorkerReply(t), Dequeue, Finish]
      else if s.lanes[t].hand.ToHandle? then [WorkerHandle(t, Clock(0, 0)), WorkerReply(t), Dequeue, Finish]
      else if s.lanes[t].hand.ToReply? then [WorkerReply(t), Dequeue, Finish]
      else [Dequeue, Finish]
  }

  /** The first of the finishing steps is taken, and the others are what is left to do. */
  lemma FinishingStep(s: State)
    requires MessageInv(s) && !s.ctl.Idle?
    ensures FinishingSteps(s) != []
    ensures FinishingSteps(Next(s, FinishingSteps(s)[0])) == FinishingSteps(s)[1..]
  {
    if s.ctl.Waiting? {
      FinishingStepWaiting(s);
    }
  }

  lemma FinishingStepWaiting(s: State)
    requires MessageInv(s) && s.ctl.Waiting?
    ensures FinishingSteps(s) != []
    ensures FinishingSteps(Next(s, FinishingSteps(s)[0])) == FinishingSteps(s)[1..]
  {
    hide Append, Remove, MakeSlot;
    var t := s.ctl.cmd.thread;
    if s.lanes[t].hand.ToHandle? {
      assert Next(s, WorkerHandle(t, Clock(0, 0))).lanes[t].hand.ToReply?;
    }
  }

  /** No reachable state is a deadlock: the control thread can always get its answer and return. */
  lemma {:induction false} CommandsCanAlwaysFinish(s: State)
    requires Inv(s)
    ensures RunSteps(s, FinishingSteps(s)).ctl.Idle?
    decreases |FinishingSteps(s)|
  {
    if !s.ctl.Idle? {
      FinishingStep(s);
      StepRefines(s, FinishingSteps(s)[0]);
      CommandsCanAlwaysFinish(Next(s, FinishingSteps(s)[0]));
    }
  }
}
