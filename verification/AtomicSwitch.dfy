/** What enabling and disabling pipelines means when each command takes effect at once:
    the specification that the message protocol of pipeline/thread.c is proved against. */
module AtomicSwitch {
  import opened Words
  import opened PipelineTable

  /** The fields of `struct pipeline` that a thread command reads or writes. */
  datatype Pipeline = Pipeline(p: Ptr, periodMs: nat, enabled: bool, thread: nat)

  datatype Command =
    | EnablePipeline(thread: nat, name: string)
    | DisablePipeline(thread: nat, name: string)

  /** A command with what the environment answered while it ran: whether a message buffer could be
      allocated, and the time stamp counter. */
  datatype Issued = Issued(cmd: Command, memory: bool, clock: Clock)

  datatype Switch = Switch(
    enabled: seq<bool>,
    pipelines: map<string, Pipeline>,
    tables: seq<Table>,
    returned: seq<(Command, int)>)

  ghost predicate WellFormed(a: Switch) {
    && |a.enabled| == |a.tables|
    && (forall t :: 0 <= t < |a.tables| ==> Coherent(a.tables[t]))
    && DistinctPointers(a.pipelines)
    && EnabledArePresent(a)
  }

  /** Two pipeline objects never hold the same `rte_swx_pipeline`. */
  ghost predicate DistinctPointers(pipelines: map<string, Pipeline>) {
    forall m, n :: m in pipelines && n in pipelines && pipelines[m].p == pipelines[n].p ==> m == n
  }

  ghost predicate Present(a: Switch, name: string)
    requires name in a.pipelines
  {
    var pl := a.pipelines[name];
    pl.thread < |a.tables| && pl.p in a.tables[pl.thread].p
  }

  ghost predicate EnabledArePresent(a: Switch) {
    forall name :: name in a.pipelines && a.pipelines[name].enabled ==> Present(a, name)
  }

  function Return(a: Switch, cmd: Command, status: int): Switch {
    a.(returned := a.returned + [(cmd, status)])
  }

  /** The record update that ends a command with the given status. */
  function Complete(pipelines: map<string, Pipeline>, cmd: Command, status: int): map<string, Pipeline>
    requires cmd.name in pipelines
  {
    var pl := pipelines[cmd.name];
    if status != 0 then pipelines
    else match cmd
      case EnablePipeline(t, name) => pipelines[name := pl.(enabled := true, thread := t)]
      case DisablePipeline(t, name) => pipelines[name := pl.(enabled := false)]
  }

  /** The command's parameters name a known pipeline and an initialised thread. */
  predicate Acceptable(a: Switch, cmd: Command)
    requires |a.enabled| == |a.tables|
  {
    cmd.thread < |a.tables| && cmd.name in a.pipelines && a.enabled[cmd.thread]
  }

  function Exec(a: Switch, i: Issued): Switch
    requires WellFormed(a)
  {
    var cmd := i.cmd;
    if !Acceptable(a, cmd) then Return(a, cmd, -1)
    else
      var pl := a.pipelines[cmd.name];
      var table := a.tables[cmd.thread];
      match cmd
      case EnablePipeline(t, name) =>
        if !i.memory || |table.p| >= THREAD_PIPELINES_MAX then Return(a, cmd, -1)
        else
          Return(a.(pipelines := Complete(a.pipelines, cmd, 0),
                    tables := a.tables[t := Append(table, MakeSlot(pl.p, pl.periodMs, i.clock))]),
                 cmd, 0)
      case DisablePipeline(t, name) =>
        if !pl.enabled then Return(a, cmd, 0)
        else if pl.thread != t || !i.memory then Return(a, cmd, -1)
        else
          Return(a.(pipelines := Complete(a.pipelines, cmd, 0),
                    tables := a.tables[t := Remove(table, pl.p)]),
                 cmd, 0)
  }

  // ---- What a command returns and records ----

  /** The command is carried out, or there is nothing to do: its thread exists and is initialised, its
      pipeline is known, and an enable finds memory and a free slot, while a disable finds the pipeline
      disabled, or memory and the pipeline on its recorded thread. */
  ghost predicate Granted(a: Switch, i: Issued)
    requires |a.enabled| == |a.tables|
  {
    && i.cmd.thread < |a.tables| && a.enabled[i.cmd.thread] && i.cmd.name in a.pipelines
    && match i.cmd
       case EnablePipeline(t, n) => i.memory && |a.tables[t].p| < 256
       case DisablePipeline(t, n) => a.pipelines[n].enabled ==> a.pipelines[n].thread == t && i.memory
  }

  /** Every command returns exactly one code: 0 if it is granted, and -1 if not. */
  lemma ReturnCode(a: Switch, i: Issued)
    requires WellFormed(a)
    ensures Exec(a, i).returned == a.returned + [(i.cmd, if Granted(a, i) then 0 else -1)]
  {
  }

  /** A granted enable records the thread; a granted disable keeps it. No other field, no other record
      and no thread changes, and a command that is not granted changes nothing. */
  lemma RecordsAfter(a: Switch, i: Issued)
    requires WellFormed(a)
    ensures var b := Exec(a, i);
      && b.enabled == a.enabled && |b.tables| == |a.tables| && b.pipelines.Keys == a.pipelines.Keys
      && (forall t :: 0 <= t < |a.tables| && t != i.cmd.thread ==> b.tables[t] == a.tables[t])
      && (forall n :: n in a.pipelines && n != i.cmd.name ==> b.pipelines[n] == a.pipelines[n])
      && (!Granted(a, i) ==> b.tables == a.tables && b.pipelines == a.pipelines)
      && (Granted(a, i) ==>
            var pl := a.pipelines[i.cmd.name];
            b.pipelines[i.cmd.name] ==
              if i.cmd.EnablePipeline? then Pipeline(pl.p, pl.periodMs, true, i.cmd.thread)
              else Pipeline(pl.p, pl.periodMs, false, pl.thread))
  {
    if Granted(a, i) {
      assert Acceptable(a, i.cmd);
    }
  }

  /** A granted enable puts one slot behind those of the thread: it runs the pipeline, with the timer
      period of the pipeline's record, from the time of the command on. */
  lemma EnabledSlot(a: Switch, i: Issued)
    requires WellFormed(a) && Granted(a, i) && i.cmd.EnablePipeline?
    requires i.clock.now + i.clock.hz * a.pipelines[i.cmd.name].periodMs < TWO_64
    ensures var t, pl, b := i.cmd.thread, a.pipelines[i.cmd.name], Exec(a, i);
      var n, ticks := |a.tables[t].p|, i.clock.hz * pl.periodMs;
      && b.tables[t].p == a.tables[t].p + [pl.p]
      && |b.tables[t].data| == n + 1 && b.tables[t].data[..n] == a.tables[t].data
      && var slot := b.tables[t].data[n];
         && slot.p == pl.p && slot.timeNext == i.clock.now + slot.timerPeriod
         && 1000 * slot.timerPeriod <= ticks < 1000 * (slot.timerPeriod + 1)
  {
    hide MakeSlot, Remove, EnabledArePresent, DistinctPointers;
    var t, pl := i.cmd.thread, a.pipelines[i.cmd.name];
    MakeSlotMeans(pl.p, pl.periodMs, i.clock);
    assert Coherent(a.tables[t]);
    assert Exec(a, i).tables[t] == Append(a.tables[t], MakeSlot(pl.p, pl.periodMs, i.clock));
  }

  /** Disabling again, on whatever thread, returns 0 and changes no table and no record. */
  lemma DisableTwice(a: Switch, i: Issued, again: Issued)
    requires WellFormed(a)
    requires i.cmd.DisablePipeline? && Exec(a, i).returned == a.returned + [(i.cmd, 0)]
    requires again.cmd.DisablePipeline? && again.cmd.name == i.cmd.name
    requires again.cmd.thread < |a.tables| && a.enabled[again.cmd.thread]
    ensures WellFormed(Exec(a, i))
    ensures var b := Exec(a, i);
      Exec(b, again) == b.(returned := b.returned + [(again.cmd, 0)])
  {
    ExecKeepsWellFormed(a, i);
    ReturnCode(a, i);
    assert (a.returned + [(i.cmd, 0)])[|a.returned|] == (i.cmd, 0);
    RecordsAfter(a, i);
  }

  /** One command keeps every enabled pipeline in the table of the thread it is recorded on, even
      when pipelines are enabled repeatedly or on several threads. */
  lemma ExecKeepsWellFormed(a: Switch, i: Issued)
    requires WellFormed(a)
    ensures WellFormed(Exec(a, i))
  {
    var b := Exec(a, i);
    var cmd := i.cmd;
    if b.tables != a.tables {
      var pl, t := a.pipelines[cmd.name], cmd.thread;
      if cmd.EnablePipeline? {
        AppendMeans(a.tables[t], MakeSlot(pl.p, pl.periodMs, i.clock));
      } else {
        RemoveMeans(a.tables[t], pl.p);
      }
      forall n | n in b.pipelines && b.pipelines[n].enabled ensures Present(b, n) {
        if n != cmd.name {
          assert Present(a, n);
          OthersStay(a, cmd, n, a.pipelines[n].thread);
        } else {
          assert b.tables[t].p == a.tables[t].p + [pl.p];
        }
      }
    }
  }

  /** A removal leaves the occurrences of other pipelines alone. */
  lemma OthersStay(a: Switch, cmd: Command, n: string, t: nat)
    requires WellFormed(a) && Acceptable(a, cmd) && n in a.pipelines && n != cmd.name
    requires t < |a.tables|
    requires a.pipelines[n].p in a.tables[t].p
    ensures a.pipelines[n].p in Remove(a.tables[t], a.pipelines[cmd.name].p).p
  {
    var p, q := a.pipelines[cmd.name].p, a.pipelines[n].p;
    RemoveMeans(a.tables[t], p);
    assert q in multiset(a.tables[t].p) - multiset{p};
    assert q in multiset(Remove(a.tables[t], p).p);
  }

  /** A run of commands. */
  function Run(a: Switch, log: seq<Issued>): (b: Switch)
    requires WellFormed(a)
    ensures WellFormed(b)
    decreases log
  {
    if log == [] then a
    else
      ExecKeepsWellFormed(a, log[0]);
      Run(Exec(a, log[0]), log[1..])
  }

  lemma {:induction false} RunConcat(a: Switch, log: seq<Issued>, more: seq<Issued>)
    requires WellFormed(a)
    ensures Run(a, log + more) == Run(Run(a, log), more)
    decreases log
  {
    if log == [] {
      assert log + more == more;
    } else {
      ExecKeepsWellFormed(a, log[0]);
      assert (log + more)[1..] == log[1..] + more;
      RunConcat(Exec(a, log[0]), log[1..], more);
    }
  }

  /** Over any run, the code of each command is decided by the state in which it found the switch. */
  lemma {:induction false} CodesOfRun(a: Switch, log: seq<Issued>, k: nat)
    requires WellFormed(a) && k < |log|
    ensures |Run(a, log).returned| == |a.returned| + |log| && a.returned <= Run(a, log).returned
    ensures Run(a, log).returned[|a.returned| + k]
      == (log[k].cmd, if Granted(Run(a, log[..k]), log[k]) then 0 else -1)
    decreases log
  {
    var b := Exec(a, log[0]);
    ExecKeepsWellFormed(a, log[0]);
    ReturnCode(a, log[0]);
    if k == 0 {
      CodesAreAppended(b, log[1..]);
      assert Run(a, log[..0]) == a;
    } else {
      CodesOfRun(b, log[1..], k - 1);
      assert log[..k][1..] == log[1..][..k - 1];
    }
  }

  lemma {:induction false} CodesAreAppended(a: Switch, log: seq<Issued>)
    requires WellFormed(a)
    ensures |Run(a, log).returned| == |a.returned| + |log| && a.returned <= Run(a, log).returned
    decreases log
  {
    if log != [] {
      ExecKeepsWellFormed(a, log[0]);
      ReturnCode(a, log[0]);
      CodesAreAppended(Exec(a, log[0]), log[1..]);
    }
  }

  lemma RunOne(a: Switch, i: Issued)
    requires WellFormed(a)
    ensures Run(a, [i]) == Exec(a, i) && WellFormed(Exec(a, i))
  {
    ExecKeepsWellFormed(a, i);
    assert Run(a, [i]) == Run(Exec(a, i), []);
  }

  lemma RunOneMore(a: Switch, log: seq<Issued>, k: nat)
    requires WellFormed(a) && k < |log|
    ensures Run(a, log[..k + 1]) == Exec(Run(a, log[..k]), log[k])
  {
    assert log[..k + 1] == log[..k] + [log[k]];
    RunConcat(a, log[..k], [log[k]]);
    RunOne(Run(a, log[..k]), log[k]);
  }

  /** The same at any place of a run. */
  lemma DisableTwiceInRun(a: Switch, log: seq<Issued>, k: nat)
    requires WellFormed(a) && k + 1 < |log|
    requires log[k].cmd.DisablePipeline? && log[k + 1].cmd == log[k].cmd && Granted(Run(a, log[..k]), log[k])
    ensures var b, c := Run(a, log[..k + 1]), Run(a, log[..k + 2]);
      Granted(b, log[k + 1]) && c.tables == b.tables && c.pipelines == b.pipelines
  {
    hide Exec, Run;
    var before := Run(a, log[..k]);
    RunOneMore(a, log, k);
    RunOneMore(a, log, k + 1);
    ReturnCode(before, log[k]);
    RecordsAfter(before, log[k]);
    DisableTwice(before, log[k], log[k + 1]);
  }

  // ---- Tables as multisets: conservation over any run ----

  predicate Enables(a: Switch, i: Issued)
    requires WellFormed(a)
  {
    i.cmd.EnablePipeline? && Exec(a, i).tables != a.tables
  }

  /** A disable that found its pipeline enabled on the named thread and took it off. */
  predicate Disables(a: Switch, i: Issued)
    requires WellFormed(a)
  {
    i.cmd.DisablePipeline? && Exec(a, i).tables != a.tables
  }

  /** A command takes effect exactly when its return code and the pipeline's record say so. */
  lemma EffectMeans(a: Switch, i: Issued)
    requires WellFormed(a)
    ensures Enables(a, i) <==> i.cmd.EnablePipeline? && Exec(a, i).returned == a.returned + [(i.cmd, 0)]
    ensures Disables(a, i) <==>
      && i.cmd.DisablePipeline? && Exec(a, i).returned == a.returned + [(i.cmd, 0)]
      && i.cmd.name in a.pipelines && a.pipelines[i.cmd.name].enabled
  {
    var cmd := i.cmd;
    if Acceptable(a, cmd) {
      var pl, t := a.pipelines[cmd.name], cmd.thread;
      if cmd.EnablePipeline? {
        if i.memory && |a.tables[t].p| < THREAD_PIPELINES_MAX {
          assert |Exec(a, i).tables[t].p| == |a.tables[t].p| + 1;
        }
      } else if pl.enabled && pl.thread == t && i.memory {
        assert Present(a, cmd.name);
        RemoveMeans(a.tables[t], pl.p);
        assert |Exec(a, i).tables[t].p| == |a.tables[t].p| - 1;
      }
    }
    assert a.returned + [(cmd, 0)] != a.returned + [(cmd, -1)] by {
      assert (a.returned + [(cmd, 0)])[|a.returned|] != (a.returned + [(cmd, -1)])[|a.returned|];
    }
  }

  /** One command changes the multiset of one thread by at most one pipeline, and no other thread. */
  lemma ExecOnBags(a: Switch, i: Issued, t: nat)
    requires WellFormed(a) && t < |a.tables|
    ensures |Exec(a, i).tables| == |a.tables|
    ensures Enables(a, i) ==> Acceptable(a, i.cmd)
    ensures Disables(a, i) ==> Acceptable(a, i.cmd) && a.pipelines[i.cmd.name].p in a.tables[i.cmd.thread].p
    ensures multiset(Exec(a, i).tables[t].p) ==
      if t != i.cmd.thread then multiset(a.tables[t].p)
      else if Enables(a, i) then multiset(a.tables[t].p) + multiset{a.pipelines[i.cmd.name].p}
      else if Disables(a, i) then multiset(a.tables[t].p) - multiset{a.pipelines[i.cmd.name].p}
      else multiset(a.tables[t].p)
  {
    EffectMeans(a, i);
    if Acceptable(a, i.cmd) && i.cmd.thread == t {
      var pl := a.pipelines[i.cmd.name];
      if Enables(a, i) {
        AppendMeans(a.tables[t], MakeSlot(pl.p, pl.periodMs, i.clock));
      } else if Disables(a, i) {
        assert Present(a, i.cmd.name);
        RemoveMeans(a.tables[t], pl.p);
      }
    }
  }

  /** How often a run of commands added `p` to thread `t`, less how often it took it off. */
  ghost function Balance(a: Switch, log: seq<Issued>, t: nat, p: Ptr): int
    requires WellFormed(a)
    decreases log
  {
    if log == [] then 0
    else
      var i := log[0];
      ExecKeepsWellFormed(a, i);
      (if Enables(a, i) && i.cmd.thread == t && a.pipelines[i.cmd.name].p == p then 1
       else if Disables(a, i) && i.cmd.thread == t && a.pipelines[i.cmd.name].p == p then -1
       else 0)
      + Balance(Exec(a, i), log[1..], t, p)
  }

  /** Over any run each thread runs each pipeline as often as it was enabled there and not
      disabled since. */
  lemma {:induction false} MultiplicityIsBalance(a: Switch, log: seq<Issued>, t: nat, p: Ptr)
    requires WellFormed(a) && t < |a.tables|
    ensures |Run(a, log).tables| == |a.tables|
    ensures multiset(Run(a, log).tables[t].p)[p] == multiset(a.tables[t].p)[p] + Balance(a, log, t, p)
    decreases log
  {
    if log != [] {
      var i := log[0];
      ExecKeepsWellFormed(a, i);
      ExecOnBags(a, i, t);
      if Disables(a, i) && i.cmd.thread == t {
        assert multiset(a.tables[t].p)[a.pipelines[i.cmd.name].p] > 0;
      }
      MultiplicityIsBalance(Exec(a, i), log[1..], t, p);
    }
  }

  /** The sum of `n_pipelines` over all threads. */
  function Slots(tables: seq<Table>): nat {
    if tables == [] then 0 else |tables[0].p| + Slots(tables[1..])
  }

  lemma {:induction false} SlotsUpdate(tables: seq<Table>, t: nat, table: Table)
    requires t < |tables|
    ensures Slots(tables[t := table]) == Slots(tables) - |tables[t].p| + |table.p|
  {
    if t == 0 {
      assert tables[t := table][1..] == tables[1..];
    } else {
      assert tables[t := table][1..] == tables[1..][t - 1 := table];
      SlotsUpdate(tables[1..], t - 1, table);
    }
  }

  ghost function EnableCount(a: Switch, log: seq<Issued>): nat
    requires WellFormed(a)
    decreases log
  {
    if log == [] then 0
    else
      ExecKeepsWellFormed(a, log[0]);
      (if Enables(a, log[0]) then 1 else 0) + EnableCount(Exec(a, log[0]), log[1..])
  }

  ghost function DisableCount(a: Switch, log: seq<Issued>): nat
    requires WellFormed(a)
    decreases log
  {
    if log == [] then 0
    else
      ExecKeepsWellFormed(a, log[0]);
      (if Disables(a, log[0]) then 1 else 0) + DisableCount(Exec(a, log[0]), log[1..])
  }

  /** No slot is lost or made up: the slots in use are those there at first, plus the successful
      enables, less the disables that took a pipeline off. */
  lemma {:induction false} SlotsAreConserved(a: Switch, log: seq<Issued>)
    requires WellFormed(a)
    ensures Slots(Run(a, log).tables) == Slots(a.tables) + EnableCount(a, log) - DisableCount(a, log)
    decreases log
  {
    if log != [] {
      var i := log[0];
      var b := Exec(a, i);
      ExecKeepsWellFormed(a, i);
      EffectMeans(a, i);
      if b.tables != a.tables {
        var t := i.cmd.thread;
        if Disables(a, i) {
          assert Present(a, i.cmd.name);
          RemoveMeans(a.tables[t], a.pipelines[i.cmd.name].p);
        }
        SlotsUpdate(a.tables, t, b.tables[t]);
      }
      SlotsAreConserved(b, log[1..]);
    }
  }

  // ---- When a pipeline is only enabled while disabled ----

  /** The command gives an enabled pipeline one more slot: enable does not look at the record. */
  predicate ReEnables(a: Switch, i: Issued)
    requires WellFormed(a)
  {
    Enables(a, i) && i.cmd.name in a.pipelines && a.pipelines[i.cmd.name].enabled
  }

  /** No command of the run enables a pipeline that is enabled at that moment. */
  predicate NeverReEnables(a: Switch, log: seq<Issued>)
    requires WellFormed(a)
    decreases log
  {
    log == [] || (
      ExecKeepsWellFormed(a, log[0]);
      !ReEnables(a, log[0]) && NeverReEnables(Exec(a, log[0]), log[1..]))
  }

  /** Each pipeline fills exactly one slot, on its recorded thread, when it is enabled and none
      at all when it is not. */
  ghost predicate OneSlotIffEnabled(a: Switch) {
    forall name, t :: name in a.pipelines && 0 <= t < |a.tables| ==>
      multiset(a.tables[t].p)[a.pipelines[name].p] == Share(a.pipelines[name], t)
  }

  function Share(pl: Pipeline, t: nat): nat {
    if pl.enabled && pl.thread == t then 1 else 0
  }

  lemma ExecKeepsOneSlot(a: Switch, i: Issued)
    requires WellFormed(a) && OneSlotIffEnabled(a) && !ReEnables(a, i)
    ensures OneSlotIffEnabled(Exec(a, i))
  {
    var b := Exec(a, i);
    EffectMeans(a, i);
    forall name, t | name in b.pipelines && 0 <= t < |b.tables|
      ensures multiset(b.tables[t].p)[b.pipelines[name].p] == Share(b.pipelines[name], t)
    {
      ExecOnBags(a, i, t);
      assert multiset(a.tables[t].p)[a.pipelines[name].p] == Share(a.pipelines[name], t);
    }
  }

  /** The slots that run `p`, over all threads. */
  ghost function Occupied(tables: seq<Table>, p: Ptr): nat {
    if tables == [] then 0 else multiset(tables[0].p)[p] + Occupied(tables[1..], p)
  }

  lemma {:induction false} OccupiedUpdate(tables: seq<Table>, t: nat, table: Table, p: Ptr)
    requires t < |tables|
    ensures Occupied(tables[t := table], p)
      == Occupied(tables, p) - multiset(tables[t].p)[p] + multiset(table.p)[p]
  {
    if t == 0 {
      assert tables[t := table][1..] == tables[1..];
    } else {
      assert tables[t := table][1..] == tables[1..][t - 1 := table];
      OccupiedUpdate(tables[1..], t - 1, table, p);
    }
  }

  /** The slots a pipeline fills beyond the one its record accounts for. */
  ghost function Excess(a: Switch, name: string): int
    requires name in a.pipelines
  {
    Occupied(a.tables, a.pipelines[name].p) - if a.pipelines[name].enabled then 1 else 0
  }

  /** A slot in excess is never got rid of, and arises only by enabling an enabled pipeline. */
  lemma ExecOnExcess(a: Switch, i: Issued, name: string)
    requires WellFormed(a) && name in a.pipelines
    ensures name in Exec(a, i).pipelines
    ensures Excess(Exec(a, i), name)
      == Excess(a, name) + if ReEnables(a, i) && i.cmd.name == name then 1 else 0
  {
    var b := Exec(a, i);
    EffectMeans(a, i);
    if Enables(a, i) || Disables(a, i) {
      ExecOnOccupied(a, i, a.pipelines[name].p);
    }
  }

  lemma ExecOnOccupied(a: Switch, i: Issued, p: Ptr)
    requires WellFormed(a) && (Enables(a, i) || Disables(a, i))
    ensures Acceptable(a, i.cmd)
    ensures Occupied(Exec(a, i).tables, p) == Occupied(a.tables, p)
      + if a.pipelines[i.cmd.name].p != p then 0 else if Enables(a, i) then 1 else -1
  {
    var b, t := Exec(a, i), i.cmd.thread;
    ExecOnBags(a, i, t);
    if Disables(a, i) {
      assert a.pipelines[i.cmd.name].p in multiset(a.tables[t].p);
    }
    OccupiedUpdate(a.tables, t, b.tables[t], p);
  }

  lemma {:induction false} ExcessNeverShrinks(a: Switch, log: seq<Issued>, name: string)
    requires WellFormed(a) && name in a.pipelines
    ensures name in Run(a, log).pipelines
    ensures Excess(Run(a, log), name) >= Excess(a, name)
    decreases log
  {
    if log != [] {
      ExecKeepsWellFormed(a, log[0]);
      ExecOnExcess(a, log[0], name);
      ExcessNeverShrinks(Exec(a, log[0]), log[1..], name);
    }
  }

  lemma {:induction false} OccupiedWhenOneSlot(a: Switch, name: string, n: nat)
    requires OneSlotIffEnabled(a) && name in a.pipelines && n <= |a.tables|
    ensures Occupied(a.tables[n..], a.pipelines[name].p)
      == if a.pipelines[name].enabled && n <= a.pipelines[name].thread < |a.tables| then 1 else 0
    decreases |a.tables| - n
  {
    if n < |a.tables| {
      assert a.tables[n..][1..] == a.tables[n + 1..];
      OccupiedWhenOneSlot(a, name, n + 1);
      assert multiset(a.tables[n].p)[a.pipelines[name].p] == Share(a.pipelines[name], n);
    }
  }

  lemma OneSlotMeansNoExcess(a: Switch, name: string)
    requires WellFormed(a) && OneSlotIffEnabled(a) && name in a.pipelines
    ensures Excess(a, name) == 0
  {
    OccupiedWhenOneSlot(a, name, 0);
    assert a.tables[0..] == a.tables;
    if a.pipelines[name].enabled {
      assert Present(a, name);
    }
  }

  /** A run keeps "one slot if and only if enabled" exactly when it never enables an enabled
      pipeline. */
  lemma {:induction false} OneSlotExactlyWhenNeverReEnabled(a: Switch, log: seq<Issued>)
    requires WellFormed(a) && OneSlotIffEnabled(a)
    ensures OneSlotIffEnabled(Run(a, log)) <==> NeverReEnables(a, log)
    decreases log
  {
    if log != [] {
      var i := log[0];
      ExecKeepsWellFormed(a, i);
      if ReEnables(a, i) {
        var name := i.cmd.name;
        OneSlotMeansNoExcess(a, name);
        ExecOnExcess(a, i, name);
        ExcessNeverShrinks(Exec(a, i), log[1..], name);
        if OneSlotIffEnabled(Run(a, log)) {
          OneSlotMeansNoExcess(Run(a, log), name);
        }
      } else {
        ExecKeepsOneSlot(a, i);
        OneSlotExactlyWhenNeverReEnabled(Exec(a, i), log[1..]);
      }
    }
  }
}
