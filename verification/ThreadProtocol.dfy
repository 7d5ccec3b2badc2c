/** The request and response protocol of pipeline/thread.c as a state machine. The control thread
    and every data plane thread take small steps of their own; a run is any sequence of steps. */
module ThreadProtocol {
  import opened Words
  import opened PipelineTable
  import opened AtomicSwitch

  /** Entries a ring of THREAD_MSGQ_SIZE = 64 can hold: one slot stays free. */
  const RING_CAPACITY := 63

  type Addr = nat

  /** The contents of a message buffer; a response overwrites the request it answers. */
  datatype Body =
    | EnableRequest(p: Ptr, periodMs: nat)
    | DisableRequest(p: Ptr)
    | Response(status: int)

  /** What a data plane thread does in `thread_msg_handle`. */
  datatype Hand = Empty | ToHandle(addr: Addr) | ToReply(addr: Addr)

  /** One data plane thread: `struct thread`, its rings, and its own data. */
  datatype Lane = Lane(
    enabled: bool,
    running: bool,
    req: seq<Addr>,
    hand: Hand,
    rsp: seq<Addr>,
    table: Table)

  /** Where the control thread is in `thread_pipeline_enable` or `thread_pipeline_disable`. */
  datatype Control =
    | Idle
    | Sending(cmd: Command, sent: Addr)
    | Waiting(cmd: Command, sent: Addr)
    | Received(cmd: Command, sent: Addr, got: Addr)

  datatype State = State(
    ctl: Control,
    pipelines: map<string, Pipeline>,
    lanes: seq<Lane>,
    heap: map<Addr, Body>,
    returned: seq<(Command, int)>)

  /** The steps of the control thread, and those of the data plane thread `t`. `Begin` carries what
      `calloc` and the time stamp counter answer. */
  datatype Step =
    | Launch(t: nat)
    | Begin(cmd: Command, memory: Option<Addr>, clock: Clock)
    | Enqueue
    | Dequeue
    | Finish
    | WorkerPoll(t: nat)
    | WorkerHandle(t: nat, clock: Clock)
    | WorkerReply(t: nat)

  // ---- The steps ----

  function Leave(s: State, cmd: Command, status: int): State {
    s.(ctl := Idle, returned := s.returned + [(cmd, status)])
  }

  function Update(s: State, t: nat, lane: Lane): State
    requires t < |s.lanes|
  {
    s.(lanes := s.lanes[t := lane])
  }

  function RequestOf(pipelines: map<string, Pipeline>, cmd: Command): Body
    requires cmd.name in pipelines
  {
    var pl := pipelines[cmd.name];
    if cmd.EnablePipeline? then EnableRequest(pl.p, pl.periodMs) else DisableRequest(pl.p)
  }

  /** From entering the function to returning early, or to having written the request. */
  function BeginStep(s: State, cmd: Command, memory: Option<Addr>, clock: Clock): State
  {
    if cmd.thread >= |s.lanes| || cmd.name !in s.pipelines || !s.lanes[cmd.thread].enabled
    then Leave(s, cmd, -1)
    else
      var lane, pl := s.lanes[cmd.thread], s.pipelines[cmd.name];
      if cmd.DisablePipeline? && !pl.enabled then Leave(s, cmd, 0)
      else if cmd.DisablePipeline? && pl.thread != cmd.thread then Leave(s, cmd, -1)
      else if !lane.running then OfflineStep(s, cmd, clock)
      else match memory
        case None => Leave(s, cmd, -1)
        case Some(a) =>
          // calloc hands out memory that is not in use: any other step is no step at all
          if a in s.heap then s
          else s.(ctl := Sending(cmd, a), heap := s.heap[a := RequestOf(s.pipelines, cmd)])
  }

  /** The thread is not running yet, so the control thread edits its table itself. */
  function OfflineStep(s: State, cmd: Command, clock: Clock): State
    requires cmd.thread < |s.lanes| && cmd.name in s.pipelines
  {
    var lane, pl := s.lanes[cmd.thread], s.pipelines[cmd.name];
    match cmd
    case EnablePipeline(t, name) =>
      if |lane.table.p| >= THREAD_PIPELINES_MAX then Leave(s, cmd, -1)
      else
        var table := Append(lane.table, MakeSlot(pl.p, pl.periodMs, clock));
        Leave(Update(s, t, lane.(table := table)).(pipelines := Complete(s.pipelines, cmd, 0)), cmd, 0)
    case DisablePipeline(t, name) =>
      if Find(lane.table.data, pl.p) == |lane.table.data| then Leave(s, cmd, 0)
      else
        var table := Remove(lane.table, pl.p);
        Leave(Update(s, t, lane.(table := table)).(pipelines := Complete(s.pipelines, cmd, 0)), cmd, 0)
  }

  /** `thread_msg_handle_pipeline_enable` and `thread_msg_handle_pipeline_disable`. */
  function HandleStep(s: State, t: nat, clock: Clock): State
    requires t < |s.lanes| && s.lanes[t].hand.ToHandle? && s.lanes[t].hand.addr in s.heap
  {
    var lane := s.lanes[t];
    var addr := lane.hand.addr;
    match s.heap[addr]
    case EnableRequest(p, periodMs) =>
      if |lane.table.p| >= THREAD_PIPELINES_MAX then Answer(s, t, lane.table, -1)
      else Answer(s, t, Append(lane.table, MakeSlot(p, periodMs, clock)), 0)
    case DisableRequest(p) => Answer(s, t, Remove(lane.table, p), 0)
    case Response(_) => Answer(s, t, lane.table, -1)
  }

  function Answer(s: State, t: nat, table: Table, status: int): State
    requires t < |s.lanes| && s.lanes[t].hand.ToHandle?
  {
    var addr := s.lanes[t].hand.addr;
    Update(s, t, s.lanes[t].(table := table, hand := ToReply(addr)))
      .(heap := s.heap[addr := Response(status)])
  }

  /** The buffer received is allocated memory with a status in it. */
  predicate Readable(s: State)
    requires s.ctl.Received?
  {
    s.ctl.got in s.heap && s.heap[s.ctl.got].Response? && s.ctl.cmd.name in s.pipelines
  }

  /** Reads the status, frees the buffer and updates the record. */
  function FinishStep(s: State): State
    requires s.ctl.Received? && Readable(s)
  {
    var cmd, status := s.ctl.cmd, s.heap[s.ctl.got].status;
    Leave(s.(heap := s.heap - {s.ctl.got}, pipelines := Complete(s.pipelines, cmd, status)), cmd, status)
  }

  /** One step. A step that its thread cannot take now, such as a dequeue from an empty ring or an
      enqueue on a full one, leaves the state as it is: the spin loops of the source. */
  function Next(s: State, step: Step): State {
    match step
    case Launch(t) =>
      if s.ctl.Idle? && t < |s.lanes| then Update(s, t, s.lanes[t].(running := true)) else s
    case Begin(cmd, memory, clock) =>
      if s.ctl.Idle? then BeginStep(s, cmd, memory, clock) else s
    case Enqueue =>
      if s.ctl.Sending? && s.ctl.cmd.thread < |s.lanes| then
        var t := s.ctl.cmd.thread;
        if |s.lanes[t].req| < RING_CAPACITY then
          Update(s, t, s.lanes[t].(req := s.lanes[t].req + [s.ctl.sent]))
            .(ctl := Waiting(s.ctl.cmd, s.ctl.sent))
        else s
      else s
    case Dequeue =>
      if s.ctl.Waiting? && s.ctl.cmd.thread < |s.lanes| then
        var t := s.ctl.cmd.thread;
        if s.lanes[t].rsp != [] then
          Update(s, t, s.lanes[t].(rsp := s.lanes[t].rsp[1..]))
            .(ctl := Received(s.ctl.cmd, s.ctl.sent, s.lanes[t].rsp[0]))
        else s
      else s
    case Finish =>
      if s.ctl.Received? && Readable(s) then FinishStep(s) else s
    case WorkerPoll(t) =>
      if t < |s.lanes| && s.lanes[t].running && s.lanes[t].hand.Empty? && s.lanes[t].req != [] then
        Update(s, t, s.lanes[t].(req := s.lanes[t].req[1..], hand := ToHandle(s.lanes[t].req[0])))
      else s
    case WorkerHandle(t, clock) =>
      if t < |s.lanes| && s.lanes[t].hand.ToHandle? && s.lanes[t].hand.addr in s.heap then HandleStep(s, t, clock)
      else s
    case WorkerReply(t) =>
      if t < |s.lanes| && s.lanes[t].hand.ToReply? && |s.lanes[t].rsp| < RING_CAPACITY then
        Update(s, t, s.lanes[t].(hand := Empty, rsp := s.lanes[t].rsp + [s.lanes[t].hand.addr]))
      else s
  }

  // ---- The invariant ----

  ghost predicate Quiet(lane: Lane) {
    lane.req == [] && lane.hand.Empty? && lane.rsp == []
  }

  /** The lane holds exactly one message: `a`. */
  ghost predicate HoldsRequest(lane: Lane, a: Addr) {
    || (lane.req == [a] && lane.hand.Empty? && lane.rsp == [])
    || (lane.req == [] && lane.hand == ToHandle(a) && lane.rsp == [])
  }

  ghost predicate HoldsResponse(lane: Lane, a: Addr) {
    || (lane.req == [] && lane.hand == ToReply(a) && lane.rsp == [])
    || (lane.req == [] && lane.hand.Empty? && lane.rsp == [a])
  }

  ghost predicate QuietBut(lanes: seq<Lane>, t: nat) {
    forall u :: 0 <= u < |lanes| && u != t ==> Quiet(lanes[u])
  }

  ghost predicate AllQuiet(lanes: seq<Lane>) {
    forall u :: 0 <= u < |lanes| ==> Quiet(lanes[u])
  }

  /** The checks that come before a request is sent. */
  ghost predicate Admitted(s: State, cmd: Command) {
    && cmd.thread < |s.lanes| && cmd.name in s.pipelines
    && s.lanes[cmd.thread].enabled && s.lanes[cmd.thread].running
    && (cmd.DisablePipeline? ==>
          s.pipelines[cmd.name].enabled && s.pipelines[cmd.name].thread == cmd.thread)
  }

  ghost predicate MessageInv(s: State) {
    match s.ctl
    case Idle => s.heap == map[] && AllQuiet(s.lanes)
    case Sending(cmd, a) =>
      && Admitted(s, cmd) && AllQuiet(s.lanes)
      && s.heap == map[a := RequestOf(s.pipelines, cmd)]
    case Waiting(cmd, a) =>
      && Admitted(s, cmd) && QuietBut(s.lanes, cmd.thread)
      && a in s.heap && s.heap.Keys == {a}
      && if s.heap[a].Response?
         then HoldsResponse(s.lanes[cmd.thread], a)
         else HoldsRequest(s.lanes[cmd.thread], a) && s.heap[a] == RequestOf(s.pipelines, cmd)
    case Received(cmd, a, got) =>
      && Admitted(s, cmd) && AllQuiet(s.lanes)
      && got == a && a in s.heap && s.heap.Keys == {a} && s.heap[a].Response?
  }

  ghost predicate Inv(s: State) {
    && MessageInv(s)
    && WellFormed(Abs(s))
  }

  /** The status of the answer that is on its way to the control thread, if there is one. */
  function Pending(s: State): Option<int> {
    if (s.ctl.Waiting? || s.ctl.Received?) && s.ctl.sent in s.heap && s.heap[s.ctl.sent].Response?
    then Some(s.heap[s.ctl.sent].status)
    else None
  }

  function Tables(lanes: seq<Lane>): (r: seq<Table>)
    ensures |r| == |lanes|
    ensures forall t :: 0 <= t < |lanes| ==> r[t] == lanes[t].table
  {
    seq(|lanes|, t requires 0 <= t < |lanes| => lanes[t].table)
  }

  function EnabledLanes(lanes: seq<Lane>): (r: seq<bool>)
    ensures |r| == |lanes|
    ensures forall t :: 0 <= t < |lanes| ==> r[t] == lanes[t].enabled
  {
    seq(|lanes|, t requires 0 <= t < |lanes| => lanes[t].enabled)
  }

  /** The atomic state: a command that has been handled counts as completed although its answer is
      still under way. */
  function Abs(s: State): Switch {
    match Pending(s)
    case None => Switch(EnabledLanes(s.lanes), s.pipelines, Tables(s.lanes), s.returned)
    case Some(status) =>
      Switch(EnabledLanes(s.lanes),
             if s.ctl.cmd.name in s.pipelines then Complete(s.pipelines, s.ctl.cmd, status) else s.pipelines,
             Tables(s.lanes),
             s.returned + [(s.ctl.cmd, status)])
  }

  // ---- Every step refines the atomic specification ----

  /** The command that takes effect with this step, if one does: when the control thread returns
      without sending, and when a data plane thread handles the request. */
  function Commit(s: State, step: Step): seq<Issued> {
    match step
    case Begin(cmd, memory, clock) =>
      if s.ctl.Idle? && Next(s, step).ctl.Idle? && Next(s, step) != s
      then [Issued(cmd, memory.Some? || !NeedsMessage(s, cmd), clock)] else []
    case WorkerHandle(t, clock) =>
      if s.ctl.Waiting? && Next(s, step) != s then [Issued(s.ctl.cmd, true, clock)] else []
    case _ => []
  }

  /** The command goes through a running data plane thread. */
  predicate NeedsMessage(s: State, cmd: Command) {
    cmd.thread < |s.lanes| && s.lanes[cmd.thread].running
  }

  lemma SameTables(lanes: seq<Lane>, t: nat, lane: Lane)
    requires t < |lanes|
    ensures Tables(lanes[t := lane]) == Tables(lanes)[t := lane.table]
    ensures lane.enabled == lanes[t].enabled ==> EnabledLanes(lanes[t := lane]) == EnabledLanes(lanes)
    ensures lane.table == lanes[t].table ==> Tables(lanes[t := lane]) == Tables(lanes)
  {
  }

  lemma OfflineRefines(s: State, cmd: Command, clock: Clock)
    requires Inv(s) && s.ctl.Idle? && Acceptable(Abs(s), cmd)
    requires cmd.DisablePipeline? ==> s.pipelines[cmd.name].enabled && s.pipelines[cmd.name].thread == cmd.thread
    ensures var n := OfflineStep(s, cmd, clock);
      MessageInv(n) && Abs(n) == Exec(Abs(s), Issued(cmd, true, clock))
  {
    var n := OfflineStep(s, cmd, clock);
    SameTables(s.lanes, cmd.thread, n.lanes[cmd.thread]);
    if cmd.DisablePipeline? {
      assert Present(Abs(s), cmd.name);
      FoundWhenPresent(s.lanes[cmd.thread].table, s.pipelines[cmd.name].p);
    }
  }

  /** How a call begins: one that has to go through a running thread sends a request, or fails for want
      of memory. Any other returns at once, with the code that the command has when memory is no matter. */
  lemma BeginAnswers(s: State, cmd: Command, memory: Option<Addr>, clock: Clock)
    requires Inv(s) && s.ctl.Idle?
    ensures var n := Next(s, Begin(cmd, memory, clock));
      && (Admitted(s, cmd) && memory.Some? ==> n.ctl == Sending(cmd, memory.value) && n.returned == s.returned)
      && (Admitted(s, cmd) && memory.None? ==> n == Leave(s, cmd, -1))
      && (!Admitted(s, cmd) ==>
            && n.ctl.Idle?
            && n.returned == s.returned
                 + [(cmd, if Granted(Abs(s), Issued(cmd, true, clock)) then 0 else -1)])
  {
    hide Append, Remove, MakeSlot, WellFormed;
    if !Admitted(s, cmd) && Acceptable(Abs(s), cmd) && s.pipelines[cmd.name].enabled && cmd.DisablePipeline?
      && s.pipelines[cmd.name].thread == cmd.thread
    {
      EnabledIsThere(s, cmd.name);
      FoundWhenPresent(s.lanes[cmd.thread].table, s.pipelines[cmd.name].p);
    }
  }

  lemma EnabledIsThere(s: State, name: string)
    requires WellFormed(Abs(s)) && s.ctl.Idle? && name in s.pipelines && s.pipelines[name].enabled
    ensures var pl := s.pipelines[name];
      pl.thread < |s.lanes| && Coherent(s.lanes[pl.thread].table) && pl.p in s.lanes[pl.thread].table.p
  {
    assert Present(Abs(s), name);
    assert Coherent(Abs(s).tables[s.pipelines[name].thread]);
  }

  lemma BeginRefines(s: State, cmd: Command, memory: Option<Addr>, clock: Clock)
    requires Inv(s) && s.ctl.Idle?
    ensures var step := Begin(cmd, memory, clock);
      Inv(Next(s, step)) && Abs(Next(s, step)) == Run(Abs(s), Commit(s, step))
  {
    hide OfflineStep, Run, WellFormed;
    var step := Begin(cmd, memory, clock);
    var n := Next(s, step);
    RunOne(Abs(s), Issued(cmd, memory.Some? || !NeedsMessage(s, cmd), clock));
    if cmd.thread < |s.lanes| && cmd.name in s.pipelines && s.lanes[cmd.thread].enabled
      && (cmd.DisablePipeline? ==> s.pipelines[cmd.name].enabled && s.pipelines[cmd.name].thread == cmd.thread)
      && !s.lanes[cmd.thread].running
    {
      OfflineRefines(s, cmd, clock);
      OfflineReturns(s, cmd, clock);
    } else if n.ctl.Idle? && n != s {
      assert |n.returned| == |s.returned| + 1;
    }
    assert Run(Abs(s), []) == Abs(s) by { RunNone(Abs(s)); }
  }

  lemma RunNone(a: Switch)
    requires WellFormed(a)
    ensures Run(a, []) == a
  {
  }

  lemma OfflineReturns(s: State, cmd: Command, clock: Clock)
    requires cmd.thread < |s.lanes| && cmd.name in s.pipelines
    ensures OfflineStep(s, cmd, clock).ctl.Idle?
    ensures |OfflineStep(s, cmd, clock).returned| == |s.returned| + 1
  {
  }

  lemma FoundWhenPresent(t: Table, p: Ptr)
    requires Coherent(t) && p in t.p
    ensures Find(t.data, p) < |t.data|
  {
    var k :| 0 <= k < |t.p| && t.p[k] == p;
    assert t.data[k].p == p;
  }

  lemma ControlRefines(s: State, step: Step)
    requires Inv(s) && (step.Launch? || step.Enqueue? || step.Dequeue? || step.Finish?)
    ensures Inv(Next(s, step)) && Abs(Next(s, step)) == Abs(s)
  {
    var n := Next(s, step);
    if step.Launch? && n != s {
      SameTables(s.lanes, step.t, n.lanes[step.t]);
    } else if !s.ctl.Idle? && n.lanes != s.lanes {
      SameTables(s.lanes, s.ctl.cmd.thread, n.lanes[s.ctl.cmd.thread]);
    } else if step.Finish? && n != s {
      assert n.heap == map[];
    }
  }

  lemma WorkerMovesRefine(s: State, step: Step)
    requires Inv(s) && (step.WorkerPoll? || step.WorkerReply?)
    ensures Inv(Next(s, step)) && Abs(Next(s, step)) == Abs(s)
  {
    if Next(s, step) != s {
      SameTables(s.lanes, step.t, Next(s, step).lanes[step.t]);
    }
  }

  lemma HandleRefines(s: State, t: nat, clock: Clock)
    requires Inv(s)
    ensures var step := WorkerHandle(t, clock);
      Inv(Next(s, step)) && Abs(Next(s, step)) == Run(Abs(s), Commit(s, step))
  {
    var step := WorkerHandle(t, clock);
    if t < |s.lanes| && s.lanes[t].hand.ToHandle? {
      assert s.ctl.Waiting? && s.ctl.cmd.thread == t;
      HandleIsExec(s, clock);
      RunOne(Abs(s), Issued(s.ctl.cmd, true, clock));
    }
  }

  /** Handling the request is performing the command. */
  lemma HandleIsExec(s: State, clock: Clock)
    requires Inv(s) && s.ctl.Waiting? && s.lanes[s.ctl.cmd.thread].hand.ToHandle?
    ensures var n := HandleStep(s, s.ctl.cmd.thread, clock);
      n != s && MessageInv(n) && Abs(n) == Exec(Abs(s), Issued(s.ctl.cmd, true, clock))
  {
    var cmd := s.ctl.cmd;
    var n := HandleStep(s, cmd.thread, clock);
    SameTables(s.lanes, cmd.thread, n.lanes[cmd.thread]);
    assert n.heap.Keys == {s.ctl.sent};
  }

  /** Every step keeps the invariant, and does to the atomic state exactly what the commands that
      take effect with it do at once. */
  lemma StepRefines(s: State, step: Step)
    requires Inv(s)
    ensures Inv(Next(s, step))
    ensures Abs(Next(s, step)) == Run(Abs(s), Commit(s, step))
  {
    match step
    case Begin(cmd, memory, clock) =>
      if s.ctl.Idle? {
        BeginRefines(s, cmd, memory, clock);
      }
    case WorkerHandle(t, clock) => HandleRefines(s, t, clock);
    case WorkerPoll(_) => WorkerMovesRefine(s, step);
    case WorkerReply(_) => WorkerMovesRefine(s, step);
    case _ => ControlRefines(s, step);
  }
}
