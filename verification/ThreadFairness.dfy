/** Every command returns, as long as no thread is kept from taking its turns for ever. */
module ThreadFairness {
  import opened PipelineTable
  import opened ThreadProtocol
  import opened ThreadRuns

  /** An endless schedule says which step is tried at each moment; a step that cannot be taken does
      nothing. */
  type Schedule = nat -> Step

  ghost function At(s: State, schedule: Schedule, n: nat): State {
    if n == 0 then s else Next(At(s, schedule, n - 1), schedule(n - 1))
  }

  /** The same step of the same thread; the time stamp counter may say something else. */
  predicate SameTurn(a: Step, b: Step) {
    a == b || (a.WorkerHandle? && b.WorkerHandle? && a.t == b.t)
  }

  /** A step of one of `n` data plane threads, or of a command of the control thread. */
  predicate IsTurn(step: Step, n: nat) {
    match step
    case Launch(_) => false
    case Begin(_, _, _) => false
    case WorkerPoll(t) => t < n
    case WorkerHandle(t, _) => t < n
    case WorkerReply(t) => t < n
    case _ => true
  }

  ghost predicate ComesAgain(schedule: Schedule, step: Step, n: nat) {
    exists u: nat :: n <= u && SameTurn(schedule(u), step)
  }

  /** Every thread tries each of its steps again and again. */
  ghost predicate Fair(schedule: Schedule, threads: nat) {
    forall step: Step, n: nat :: IsTurn(step, threads) ==> ComesAgain(schedule, step, n)
  }

  lemma {:induction false} InvAlways(s: State, schedule: Schedule, n: nat)
    requires Inv(s)
    ensures Inv(At(s, schedule, n)) && |At(s, schedule, n).lanes| == |s.lanes|
  {
    hide Inv, Next;
    if n > 0 {
      InvAlways(s, schedule, n - 1);
      LanesStay(At(s, schedule, n - 1), schedule(n - 1));
      StepRefines(At(s, schedule, n - 1), schedule(n - 1));
    }
  }

  lemma LanesStay(s: State, step: Step)
    ensures |Next(s, step).lanes| == |s.lanes|
  {
  }

  /** While a command is under way, there is just one step that does anything, and it brings the command
      nearer to its end by one. */
  lemma OneStepMatters(s: State, step: Step)
    requires MessageInv(s) && !s.ctl.Idle?
    ensures FinishingSteps(s) != [] && IsTurn(FinishingSteps(s)[0], |s.lanes|)
    ensures SameTurn(step, FinishingSteps(s)[0]) ==> FinishingSteps(Next(s, step)) == FinishingSteps(s)[1..]
    ensures !SameTurn(step, FinishingSteps(s)[0]) ==> Next(s, step) == s
  {
    FinishingStep(s);
    if step.WorkerHandle? && SameTurn(step, FinishingSteps(s)[0]) {
      HandlingAnswers(s, step.t, step.clock);
    }
  }

  lemma HandlingAnswers(s: State, t: nat, clock: Clock)
    requires MessageInv(s) && s.ctl.Waiting? && t == s.ctl.cmd.thread && s.lanes[t].hand.ToHandle?
    ensures FinishingSteps(Next(s, WorkerHandle(t, clock))) == FinishingSteps(s)[1..]
  {
    assert Next(s, WorkerHandle(t, clock)).lanes[t].hand.ToReply?;
  }

  /** Until its turn comes, nothing changes; then there is one step less to go. */
  lemma {:induction false} TurnComes(s: State, schedule: Schedule, n: nat, u: nat) returns (v: nat)
    requires Inv(s) && !At(s, schedule, n).ctl.Idle? && n <= u
    requires FinishingSteps(At(s, schedule, n)) != []
    requires SameTurn(schedule(u), FinishingSteps(At(s, schedule, n))[0])
    ensures v > n && FinishingSteps(At(s, schedule, v)) == FinishingSteps(At(s, schedule, n))[1..]
    decreases u - n
  {
    hide MessageInv, Next, FinishingSteps;
    InvAlways(s, schedule, n);
    OneStepMatters(At(s, schedule, n), schedule(n));
    if SameTurn(schedule(n), FinishingSteps(At(s, schedule, n))[0]) {
      v := n + 1;
    } else {
      v := TurnComes(s, schedule, n + 1, u);
    }
  }

  lemma {:induction false} CommandReturns(s: State, schedule: Schedule, n: nat) returns (m: nat)
    requires Inv(s) && Fair(schedule, |s.lanes|)
    ensures m >= n && At(s, schedule, m).ctl.Idle?
    decreases |FinishingSteps(At(s, schedule, n))|
  {
    hide MessageInv, Next, FinishingSteps;
    if At(s, schedule, n).ctl.Idle? {
      m := n;
    } else {
      InvAlways(s, schedule, n);
      OneStepMatters(At(s, schedule, n), schedule(n));
      var step := FinishingSteps(At(s, schedule, n))[0];
      assert ComesAgain(schedule, step, n);
      var u: nat :| n <= u && SameTurn(schedule(u), step);
      var v := TurnComes(s, schedule, n, u);
      m := CommandReturns(s, schedule, v);
    }
  }

  /** Whatever state a run has reached, with every fair schedule the command under way returns. */
  lemma EveryFairScheduleFinishes(s: State, schedule: Schedule, n: nat)
    requires Init(s) && Fair(schedule, |s.lanes|)
    ensures exists m: nat :: n <= m && At(s, schedule, m).ctl.Idle?
  {
    InitInv(s);
    var m := CommandReturns(s, schedule, n);
  }
}
