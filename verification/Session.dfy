/** The session race of `prover_generic` and `verifier`: setup against a driver
    task, under a guard that aborts it when dropped. */
module Session {
  import opened Wrappers

  // ----- tasks and the guard -----

  /** What joining the driver yields: its own result, or that it did not run to the end. */
  datatype DriverResult = Returned(ok: bool) | JoinFailed

  datatype TaskState = Running | Finished(result: DriverResult) | Aborted

  /** A spawned task, shared between the runtime and whoever holds its handle. */
  class Task {
    var state: TaskState

    constructor ()
      ensures state == Running
    {
      state := Running;
    }

    /** Stops a task that is still running; a finished one keeps its result. */
    method Abort()
      modifies this
      ensures state == Stopped(old(state))
    {
      if state.Running? {
        state := Aborted;
      }
    }
  }

  function Stopped(t: TaskState): TaskState {
    if t.Running? then Aborted else t
  }

  /** The scope of a spawned task: while the slot is full, leaving the scope stops the task. */
  class AbortOnDrop {
    var slot: Option<Task>

    constructor (handle: Task)
      ensures slot == Some(handle)
    {
      slot := Some(handle);
    }

    // The source's `expect` is the precondition; `GuardNeverEmpty` shows the races meet it.
    method HandleMut() returns (handle: Task)
      requires slot.Some?
      ensures Some(handle) == slot
    {
      handle := slot.value;
    }

    method IntoInner() returns (handle: Task)
      requires slot.Some?
      modifies this
      ensures Some(handle) == old(slot) && slot == None
    {
      handle := slot.value;
      slot := None;
    }

    method Drop()
      modifies this, if slot.Some? then {slot.value} else {}
      ensures slot == None
      ensures old(slot).Some? ==> old(slot).value.state == Stopped(old(if slot.Some? then slot.value.state else Aborted))
    {
      var held := slot;
      slot := None;
      if held.Some? {
        held.value.Abort();
      }
    }
  }

  /** Dropping a guard that was not disarmed leaves nothing running; dropping a
      disarmed one touches nothing. */
  method DropNeverDetaches(task: Task, disarm: bool)
    modifies task
    ensures task.state == if disarm then old(task.state) else Stopped(old(task.state))
  {
    var guard := new AbortOnDrop(task);
    if disarm {
      var handle := guard.IntoInner();
    }
    guard.Drop();
  }

  // ----- the race, step by step -----

  /** Where the session future stands. It can be suspended -- and so dropped by
      its caller -- at `Parked`, `AwaitSetup` and `Join` only. */
  datatype Pc =
    | PollSetup      // about to poll setup, the first branch of the biased `select!`
    | PollDriver     // setup was pending, about to poll the driver
    | Parked         // both were pending
    | AwaitSetup     // the driver's result is saved, setup alone is awaited
    | Match          // setup succeeded
    | Join           // the handle was taken out of the guard, the driver is awaited
    | Exited(outcome: Outcome)
    | Cancelled(atJoin: bool)

  datatype Outcome = Success | SetupFailed | EarlyFinish(establishedThen: bool) | DriverFailed | Panicked

  datatype SetupState = Pending | Completed(ok: bool)

  datatype State = State(
    pc: Pc,
    setup: SetupState,
    established: bool,
    task: TaskState,
    slot: bool,                    // the guard holds the handle
    saved: Option<DriverResult>,   // `finished_driver`
    taken: nat,                    // how often the driver's result was taken off its handle
    expectFailed: bool,            // an `expect` of the guard met an empty slot
    polledAgain: bool,             // a finished handle, or a completed setup, was polled
    detached: bool)                // a handle to a running task was dropped without aborting it

  predicate Init(s: State) {
    s == State(PollSetup, Pending, false, Running, true, None, 0, false, false, false)
  }

  /** What one poll of setup does: it may store the flag, and it may complete --
      successfully only once it has stored it. */
  datatype Poll = StillPending(stores: bool) | Ready(stores: bool, ok: bool) | Panics

  predicate Allowed(s: State, p: Poll) {
    p.Ready? && p.ok ==> p.stores || s.established
  }

  // Locals are dropped on every way out; the guard aborts what it still holds.
  function Leave(s: State, outcome: Outcome): State {
    DropGuard(s).(pc := Exited(outcome))
  }

  function DropGuard(s: State): State {
    if s.slot then s.(slot := false, task := Stopped(s.task)) else s
  }

  function AfterSetupPoll(s: State, p: Poll, pending: Pc): State {
    var polled := s.(polledAgain := s.polledAgain || s.setup.Completed?);
    match p
    case StillPending(stores) => polled.(pc := pending, established := s.established || stores)
    case Panics => Leave(polled, Panicked)
    case Ready(stores, ok) =>
      var done := polled.(setup := Completed(ok), established := s.established || stores);
      if ok then done.(pc := Match) else Leave(done, SetupFailed)
  }

  /** Polling the driver through the guard, the second branch of the `select!`. */
  function AfterDriverPoll(s: State): State {
    if !s.slot then s.(expectFailed := true, pc := Exited(Panicked))
    else if s.task.Finished? then
      var polled := s.(taken := s.taken + 1, polledAgain := s.polledAgain || s.taken > 0);
      if !s.established then Leave(polled, EarlyFinish(s.established))
      else polled.(saved := Some(s.task.result), pc := AwaitSetup)
    else s.(pc := Parked)
  }

  function Conclude(s: State, r: DriverResult): State {
    Leave(s, OutcomeOf(r))
  }

  function AfterMatch(s: State): State {
    match s.saved
    case Some(r) => Conclude(s, r)
    case None => if !s.slot then s.(expectFailed := true, pc := Exited(Panicked)) else s.(slot := false, pc := Join)
  }

  /** Polling the bare handle. Once it is ready the function ends and drops it. */
  function AfterJoinPoll(s: State): State {
    if s.task.Finished? then
      Conclude(s.(taken := s.taken + 1, polledAgain := s.polledAgain || s.taken > 0), s.task.result)
    else s
  }

  /** The caller drops the suspended future: the guard aborts, a bare handle detaches. */
  function AfterCancel(s: State): State {
    DropGuard(s).(pc := Cancelled(s.pc.Join?), detached := s.detached || (s.pc.Join? && s.task.Running?))
  }

  predicate Suspended(pc: Pc) { pc.Parked? || pc.AwaitSetup? || pc.Join? }

  predicate PollsSetup(pc: Pc) { pc.PollSetup? || pc.AwaitSetup? }

  /** The function's own moves, `p` being what setup does if it is polled. */
  predicate Moves(s: State, t: State, p: Poll) {
    match s.pc
    case PollSetup => t == AfterSetupPoll(s, p, PollDriver)
    case PollDriver => t == AfterDriverPoll(s)
    case Parked => t == s.(pc := PollSetup)
    case AwaitSetup => t == AfterSetupPoll(s, p, AwaitSetup)
    case Match => t == AfterMatch(s)
    case Join => t == AfterJoinPoll(s)
    case _ => false
  }

  predicate FunctionStep(s: State, t: State, p: Poll) {
    Moves(s, t, p) && (PollsSetup(s.pc) ==> Allowed(s, p))
  }

  /** The driver runs on its own: it can finish between any two steps of the function. */
  ghost predicate DriverStep(s: State, t: State) {
    s.task.Running? && t.task.Finished? && t == s.(task := t.task)
  }

  ghost predicate Next(s: State, t: State) {
    || (exists p :: FunctionStep(s, t, p))
    || DriverStep(s, t)
    || (Suspended(s.pc) && t == AfterCancel(s))
  }

  /** A run: any interleaving of the function, the driver, and a caller that may cancel. */
  ghost predicate Run(states: seq<State>) {
    states != [] && Init(states[0]) && forall i | 0 <= i < |states| - 1 :: Next(states[i], states[i + 1])
  }

  // ----- the guard takes the steps -----

  /** The guard and its task, as the state describes them. */
  ghost predicate Holds(guard: AbortOnDrop, task: Task, s: State)
    reads guard, task
  {
    task.state == s.task && guard.slot == if s.slot then Some(task) else None
  }

  /** The driver's branch of the `select!`: look at the handle without giving it up; a
      driver that finished before the session was established ends the function. */
  method DriverBranch(guard: AbortOnDrop, task: Task, established: bool, ghost s: State)
    returns (pc: Pc, saved: Option<DriverResult>)
    requires Holds(guard, task, s) && s.pc.PollDriver? && s.slot && s.established == established && s.saved.None?
    modifies guard, task
    ensures Holds(guard, task, AfterDriverPoll(s))
    ensures pc == AfterDriverPoll(s).pc && saved == AfterDriverPoll(s).saved
  {
    var handle := guard.HandleMut();
    if !handle.state.Finished? {
      return Parked, None;
    }
    if !established {
      guard.Drop();
      return Exited(EarlyFinish(established)), None;
    }
    return AwaitSetup, Some(handle.state.result);
  }

  function OutcomeOf(r: DriverResult): Outcome { if r == Returned(true) then Success else DriverFailed }

  /** After a successful setup: a saved result settles the outcome, and otherwise the
      handle leaves the guard to be joined bare. */
  method Finish(guard: AbortOnDrop, task: Task, saved: Option<DriverResult>, ghost s: State) returns (pc: Pc)
    requires Holds(guard, task, s) && s.pc.Match? && s.slot && s.saved == saved
    modifies guard, task
    ensures Holds(guard, task, AfterMatch(s)) && pc == AfterMatch(s).pc
  {
    match saved {
      case Some(r) =>
        guard.Drop();
        return Exited(OutcomeOf(r));
      case None =>
        var handle := guard.IntoInner();
        return Join;
    }
  }

  // ----- what every step keeps -----

  predicate Active(pc: Pc) { !pc.Exited? && !pc.Cancelled? }

  predicate Inv(s: State) {
    && !s.expectFailed && !s.polledAgain
    && (s.setup == Completed(true) ==> s.established)
    && (Active(s.pc) ==>
          && !s.detached && !s.task.Aborted?
          && s.slot == !s.pc.Join?
          && (s.setup == if s.pc.Match? || s.pc.Join? then Completed(true) else Pending)
          && (match s.saved
              case None => s.taken == 0 && !s.pc.AwaitSetup?
              case Some(r) => s.taken == 1 && s.established && s.task == Finished(r) && (s.pc.AwaitSetup? || s.pc.Match?)))
    && s.taken <= 1
    && (match s.pc
        case Exited(Success) => s.setup == Completed(true) && s.task == Finished(Returned(true)) && s.taken == 1
        case Exited(DriverFailed) =>
          s.setup == Completed(true) && s.task.Finished? && s.task.result != Returned(true) && s.taken == 1
        case Exited(EarlyFinish(flag)) => !flag && !s.established && s.task.Finished? && s.setup.Pending? && s.taken == 1
        case Exited(SetupFailed) => s.setup == Completed(false)
        case Exited(Panicked) => s.setup.Pending?
        case _ => true)
    && (s.pc.Exited? ==> !s.task.Running? && !s.detached)
    && (s.pc.Cancelled? && !s.pc.atJoin ==> !s.task.Running? && !s.detached)
    && (s.detached ==> s.pc == Cancelled(true))
  }

  lemma InitHolds(s: State)
    requires Init(s)
    ensures Inv(s)
  {
  }

  /** Every step of every party keeps the invariant. */
  lemma StepKeeps(s: State, t: State)
    requires Inv(s) && Next(s, t)
    ensures Inv(t)
  {
    if p :| FunctionStep(s, t, p) {
      FunctionStepKeeps(s, t, p);
    } else if DriverStep(s, t) {
    } else {
      assert t == AfterCancel(s);
    }
  }

  lemma PollsAreOfPending(s: State)
    requires Inv(s) && PollsSetup(s.pc)
    ensures s.setup.Pending?
  {
  }

  lemma FunctionStepKeeps(s: State, t: State, p: Poll)
    requires Inv(s) && FunctionStep(s, t, p)
    ensures Inv(t)
  {
    if PollsSetup(s.pc) {
      SetupPollKeeps(s, p, if s.pc.PollSetup? then PollDriver else AwaitSetup);
    } else if s.pc.PollDriver? {
      DriverPollKeeps(s);
    } else if !s.pc.Parked? {
      EndingKeeps(s);
    }
  }

  lemma SetupPollKeeps(s: State, p: Poll, pending: Pc)
    requires Inv(s) && PollsSetup(s.pc) && Allowed(s, p)
    requires pending == if s.pc.PollSetup? then PollDriver else AwaitSetup
    ensures Inv(AfterSetupPoll(s, p, pending))
  {
  }

  lemma DriverPollKeeps(s: State)
    requires Inv(s) && s.pc.PollDriver?
    ensures Inv(AfterDriverPoll(s))
  {
  }

  lemma EndingKeeps(s: State)
    requires Inv(s) && (s.pc.Match? || s.pc.Join?)
    ensures s.pc.Match? ==> Inv(AfterMatch(s))
    ensures s.pc.Join? ==> Inv(AfterJoinPoll(s))
  {
  }

  lemma {:induction false} RunHolds(states: seq<State>, i: nat)
    requires Run(states) && i < |states|
    ensures Inv(states[i])
    decreases i
  {
    hide Inv, Next;
    if i == 0 {
      InitHolds(states[0]);
    } else {
      RunHolds(states, i - 1);
      assert Next(states[i - 1], states[i - 1 + 1]);
      StepKeeps(states[i - 1], states[i]);
    }
  }

  /** Safety, over every run: the driver's result is taken at most once, no finished
      handle and no completed setup is polled again, no `expect` fails; success
      means that setup and driver both succeeded; the early-finish error means that
      the flag was unset at that poll; and no exit leaves the driver running, except
      a cancellation during the final join. */
  lemma RaceIsSafe(states: seq<State>, i: nat)
    requires Run(states) && i < |states|
    ensures var s := states[i];
            && s.taken <= 1 && !s.polledAgain && !s.expectFailed
            && (s.pc == Exited(Success) ==>
                  s.setup == Completed(true) && s.established && s.task == Finished(Returned(true)))
            && (s.pc.Exited? && s.pc.outcome.EarlyFinish? ==>
                  !s.pc.outcome.establishedThen && s.setup.Pending? && s.task.Finished?)
            && (s.pc == Exited(DriverFailed) ==> s.task.Finished? && s.task.result != Returned(true))
            && (s.pc == Exited(SetupFailed) ==> s.setup == Completed(false))
            && (s.pc.Exited? || s.pc == Cancelled(false) ==> !s.task.Running? && !s.detached)
            && (s.detached ==> s.pc == Cancelled(true))
  {
    hide Run, Next;
    RunHolds(states, i);
  }

  /** In every state of every run the guard holds the handle when it is asked for it. */
  lemma GuardNeverEmpty(states: seq<State>, i: nat)
    requires Run(states) && i < |states|
    ensures states[i].pc.PollDriver? || (states[i].pc.Match? && states[i].saved.None?) ==> states[i].slot
  {
    hide Run, Next;
    RunHolds(states, i);
  }

  /** No wedge: once the driver has finished, a suspended race that is woken never
      suspends again on both -- with the flag unset it ends in the early-finish
      error, whatever setup would have waited for. */
  lemma FinishedDriverEndsTheRace(s: State, a: State, b: State, c: State, p: Poll, q: Poll, r: Poll)
    requires Inv(s) && s.pc.Parked? && s.task.Finished?
    requires FunctionStep(s, a, p) && FunctionStep(a, b, q) && (Active(b.pc) ==> FunctionStep(b, c, r))
    ensures Active(b.pc) ==> !c.pc.Parked?
    ensures q == StillPending(false) && !s.established ==> c.pc == Exited(EarlyFinish(false))
    ensures q.StillPending? && (s.established || q.stores) ==> c.pc == AwaitSetup && c.saved == Some(s.task.result)
  {
    assert a == s.(pc := PollSetup);
    assert b == AfterSetupPoll(a, q, PollDriver);
  }

  // ----- progress -----

  /** The function is never stuck: whatever setup answers where it is polled, there is a
      step, and only one. */
  lemma FunctionCanStep(s: State, p: Poll) returns (t: State)
    requires Active(s.pc) && (PollsSetup(s.pc) ==> Allowed(s, p))
    ensures FunctionStep(s, t, p) && forall u | FunctionStep(s, u, p) :: u == t
  {
    t := match s.pc
      case PollSetup => AfterSetupPoll(s, p, PollDriver)
      case PollDriver => AfterDriverPoll(s)
      case Parked => s.(pc := PollSetup)
      case AwaitSetup => AfterSetupPoll(s, p, AwaitSetup)
      case Match => AfterMatch(s)
      case _ => AfterJoinPoll(s);
  }

  /** What polling setup decides: a panic and an error end the function, success takes it
      to the driver's result, and otherwise the other branch, or the wait, goes on. */
  lemma SetupDecides(states: seq<State>, i: nat, t: State, p: Poll)
    requires Run(states) && i < |states| && PollsSetup(states[i].pc) && FunctionStep(states[i], t, p)
    ensures match p
            case Panics => t.pc == Exited(Panicked)
            case Ready(stores, ok) =>
              t.setup == Completed(ok) && t.established == (states[i].established || stores) &&
              (if ok then t.pc.Match? && t.saved == states[i].saved else t.pc == Exited(SetupFailed))
            case StillPending(stores) =>
              t.setup.Pending? && t.established == (states[i].established || stores) &&
              (if states[i].pc.PollSetup? then t.pc.PollDriver? else t.pc.AwaitSetup?)
    ensures t.task == if t.pc.Exited? then Stopped(states[i].task) else states[i].task
  {
    hide Run, Next;
    RunHolds(states, i);
  }

  /** What polling the driver decides: a running one parks the race; a finished one is the
      early-finish error before the session was established, and kept behind it. */
  lemma DriverDecides(states: seq<State>, i: nat, t: State, p: Poll)
    requires Run(states) && i < |states| && FunctionStep(states[i], t, p)
    ensures states[i].pc.PollDriver? ==>
              match states[i].task
              case Finished(r) =>
                if states[i].established then t.pc.AwaitSetup? && t.saved == Some(r) else t.pc == Exited(EarlyFinish(false))
              case _ => t.pc.Parked?
    ensures states[i].pc.Parked? ==> t.pc.PollSetup?
    ensures states[i].pc.PollDriver? || states[i].pc.Parked? ==> t.task == states[i].task
  {
    hide Run, Next;
    RunHolds(states, i);
  }

  /** The outcome of a race whose setup succeeded and whose driver finished with `r`. */
  predicate EndsWith(t: State, r: DriverResult) {
    && t.pc.Exited? && t.taken == 1
    && (t.pc == Exited(Success) <==> r == Returned(true))
    && (t.pc == Exited(DriverFailed) <==> r != Returned(true))
  }

  /** The join ends: as soon as the driver has finished, the next step returns its verdict;
      until then it waits. */
  lemma JoinEnds(states: seq<State>, i: nat, t: State, p: Poll)
    requires Run(states) && i < |states| && states[i].pc.Join? && FunctionStep(states[i], t, p)
    ensures states[i].task.Finished? ==> EndsWith(t, states[i].task.result)
    ensures states[i].task.Running? ==> t == states[i]
  {
    hide Run, Next;
    RunHolds(states, i);
  }

  /** So does a successful setup: a result that was kept is returned in one step, and
      otherwise one step leads to the join and, the driver finished, one more ends it. */
  lemma MatchEnds(states: seq<State>, i: nat, t: State, p: Poll, u: State, q: Poll)
    requires Run(states) && i < |states| && states[i].pc.Match? && FunctionStep(states[i], t, p)
    requires Active(t.pc) ==> FunctionStep(t, u, q)
    ensures match states[i].saved
            case Some(r) => EndsWith(t, r)
            case None => t.pc.Join? && t.task == states[i].task
    ensures states[i].task.Finished? ==> EndsWith(if Active(t.pc) then u else t, states[i].task.result)
  {
    hide Run, Next;
    RunHolds(states, i);
  }

  /** The race ends: once the driver has finished and setup answers when it is polled, four
      steps of the function at most bring it to an exit, from anywhere. */
  lemma RaceEnds(states: seq<State>, i: nat, ahead: seq<State>, polls: seq<Poll>)
    requires Run(states) && i < |states| && Active(states[i].pc) && states[i].task.Finished?
    requires |ahead| == 5 && |polls| == 4 && ahead[0] == states[i]
    requires forall k | 0 <= k < 4 ::
               if Active(ahead[k].pc) then FunctionStep(ahead[k], ahead[k + 1], polls[k]) && !polls[k].StillPending?
               else ahead[k + 1] == ahead[k]
    ensures ahead[4].pc.Exited?
  {
    hide Run, Next, Inv;
    RunHolds(states, i);
    StepAhead(ahead[0], ahead[0 + 1], polls[0]);
    StepAhead(ahead[1], ahead[1 + 1], polls[1]);
    StepAhead(ahead[2], ahead[2 + 1], polls[2]);
    StepAhead(ahead[3], ahead[3 + 1], polls[3]);
  }

  // How many steps are left at most.
  function StepsLeft(pc: Pc): nat {
    match pc
    case Parked => 4
    case PollSetup => 3
    case PollDriver => 3
    case AwaitSetup => 2
    case Match => 2
    case Join => 1
    case _ => 0
  }

  /** Steps left, the driver finished: a kept result shortens what `Match` has left. */
  function Left(s: State): nat { if s.pc.Match? && s.saved.Some? then 1 else StepsLeft(s.pc) }

  lemma StepAhead(s: State, t: State, p: Poll)
    requires Inv(s) && s.task.Finished? && (Active(s.pc) || s.pc.Exited?)
    requires if Active(s.pc) then FunctionStep(s, t, p) && !p.StillPending? else t == s
    ensures Inv(t) && t.task.Finished? && (Active(t.pc) || t.pc.Exited?)
    ensures Left(t) < Left(s) || t.pc.Exited?
  {
    if Active(s.pc) { FunctionStepKeeps(s, t, p); }
  }

  /** A success exists that joins the driver, having set up first. */
  lemma JoinedRun() returns (run: seq<State>)
    ensures Run(run) && run[|run| - 1].pc == Exited(Success) && exists i :: 0 <= i < |run| && run[i].pc.Join?
  {
    var s0 := State(PollSetup, Pending, false, Running, true, None, 0, false, false, false);
    var s1 := s0.(pc := Match, setup := Completed(true), established := true);
    var s2 := s1.(pc := Join, slot := false);
    var s3 := s2.(task := Finished(Returned(true)));
    var s4 := s3.(pc := Exited(Success), taken := 1);
    assert FunctionStep(s0, s1, Ready(true, true)) && FunctionStep(s1, s2, Panics) && FunctionStep(s3, s4, Panics);
    assert DriverStep(s2, s3);
    run := [s0, s1, s2, s3, s4];
    assert run[2].pc.Join?;
  }

  /** And one whose driver finished first, its result kept. */
  lemma KeptRun() returns (run: seq<State>)
    ensures Run(run) && run[|run| - 1].pc == Exited(Success) && forall i | 0 <= i < |run| :: !run[i].pc.Join?
  {
    var s0 := State(PollSetup, Pending, false, Running, true, None, 0, false, false, false);
    var s1 := s0.(pc := PollDriver, established := true);
    var s2 := s1.(task := Finished(Returned(true)));
    var s3 := s2.(pc := AwaitSetup, saved := Some(Returned(true)), taken := 1);
    var s4 := s3.(pc := Match, setup := Completed(true));
    var s5 := s4.(pc := Exited(Success), slot := false);
    assert FunctionStep(s0, s1, StillPending(true)) && DriverStep(s1, s2) && FunctionStep(s2, s3, Panics);
    assert FunctionStep(s3, s4, Ready(true, true)) && FunctionStep(s4, s5, Panics);
    run := [s0, s1, s2, s3, s4, s5];
  }

  /** What the three records of misuse record, in any state whatever: a completed setup
      polled again, a finished handle polled again, an `expect` met by an empty guard. */
  lemma MisuseIsRecorded(s: State, t: State, p: Poll)
    requires Moves(s, t, p)
    ensures PollsSetup(s.pc) && s.setup.Completed? ==> t.polledAgain
    ensures s.pc.PollDriver? && s.slot && s.task.Finished? && s.taken > 0 ==> t.polledAgain
    ensures s.pc.Join? && s.task.Finished? && s.taken > 0 ==> t.polledAgain
    ensures (s.pc.PollDriver? || (s.pc.Match? && s.saved.None?)) && !s.slot ==> t.expectFailed && t.pc == Exited(Panicked)
  {
    hide Stopped, OutcomeOf;
  }

  /** No record is lost, and a result is taken off a finished handle only. */
  predicate Keeps(s: State, t: State) {
    && (s.polledAgain ==> t.polledAgain) && (s.expectFailed ==> t.expectFailed)
    && (t.taken > s.taken ==> s.task.Finished? && (s.pc.PollDriver? || s.pc.Join?))
  }

  lemma RecordsAreKept(s: State, t: State, p: Poll)
    requires Moves(s, t, p)
    ensures Keeps(s, t)
  {
    hide Keeps;
    SetupPollRecords(s, p, PollDriver);
    SetupPollRecords(s, p, AwaitSetup);
    DriverPollRecords(s);
    EndingRecords(s);
    ParkedRecords(s);
  }

  lemma SetupPollRecords(s: State, p: Poll, pending: Pc)
    ensures Keeps(s, AfterSetupPoll(s, p, pending))
  {
  }

  lemma DriverPollRecords(s: State)
    ensures s.pc.PollDriver? ==> Keeps(s, AfterDriverPoll(s))
  {
  }

  lemma EndingRecords(s: State)
    ensures Keeps(s, AfterMatch(s)) && (s.pc.Join? ==> Keeps(s, AfterJoinPoll(s)))
  {
  }

  lemma ParkedRecords(s: State)
    ensures Keeps(s, s.(pc := PollSetup))
  {
  }

  /** And no state of a run is one: what is polled is fresh. */
  lemma PollsAreFresh(states: seq<State>, i: nat)
    requires Run(states) && i < |states|
    ensures PollsSetup(states[i].pc) ==> states[i].setup.Pending?
    ensures states[i].pc.PollDriver? ==> states[i].slot && states[i].taken == 0 && states[i].saved.None?
    ensures states[i].pc.Join? ==> !states[i].slot && states[i].taken == 0
  {
    hide Run, Next;
    RunHolds(states, i);
  }

  /** Nothing is lost: a driver error surfaces whenever setup succeeds, whichever finished first. */
  lemma DriverErrorSurfaces(states: seq<State>, i: nat)
    requires Run(states) && i < |states| && states[i].pc.Exited? && states[i].setup == Completed(true)
    ensures states[i].pc == Exited(Success) <==> states[i].task == Finished(Returned(true))
    ensures states[i].pc == Exited(Success) || states[i].pc == Exited(DriverFailed)
  {
    hide Run, Next;
    RunHolds(states, i);
  }

  /** Cancellation, exactly: dropping the suspended function leaves its driver running
      if and only if it was being joined and had not finished. Everywhere else the
      driver is stopped. */
  lemma CancelDetachesExactly(states: seq<State>, i: nat)
    requires Run(states) && i + 1 < |states|
    requires Suspended(states[i].pc) && states[i + 1] == AfterCancel(states[i])
    ensures states[i + 1].pc == Cancelled(states[i].pc.Join?)
    ensures states[i + 1].detached <==> states[i].pc.Join? && states[i].task.Running?
    ensures states[i + 1].task.Running? <==> states[i + 1].detached
  {
    hide Run, Next;
    RunHolds(states, i);
  }

  ghost predicate CancelledJoin(states: seq<State>, k: nat)
    requires k + 1 < |states|
  {
    states[k].pc.Join? && states[k].task.Running? && states[k + 1] == AfterCancel(states[k])
  }

  /** And nothing else detaches: a run has let go of a running driver exactly when one
      of its steps so far was such a cancellation. */
  lemma {:induction false} DetachedExactlyByCancelledJoin(states: seq<State>, i: nat)
    requires Run(states) && i < |states|
    ensures states[i].detached <==> exists k :: 0 <= k < i && CancelledJoin(states, k)
    decreases i
  {
    hide Run, Next;
    if i == 0 {
      InitialState(states);
    } else {
      DetachedExactlyByCancelledJoin(states, i - 1);
      NextOf(states, i - 1);
      RunHolds(states, i - 1);
      DetachStep(states, i - 1);
    }
  }

  lemma InitialState(states: seq<State>)
    requires Run(states)
    ensures !states[0].detached
  {
  }

  lemma NextOf(states: seq<State>, i: nat)
    requires Run(states) && i + 1 < |states|
    ensures Next(states[i], states[i + 1])
  {
  }

  lemma DetachStep(states: seq<State>, k: nat)
    requires k + 1 < |states| && Inv(states[k]) && Next(states[k], states[k + 1])
    ensures states[k + 1].detached <==> states[k].detached || CancelledJoin(states, k)
  {
  }

  /** And the exception is real: a run exists that detaches the driver, by
      cancelling while it is being joined. */
  lemma CancelledJoinDetaches() returns (states: seq<State>)
    ensures Run(states) && states[|states| - 1].detached
  {
    var s0 := State(PollSetup, Pending, false, Running, true, None, 0, false, false, false);
    var s1 := AfterSetupPoll(s0, Ready(true, true), PollDriver);
    var s2 := AfterMatch(s1);
    var s3 := AfterCancel(s2);
    assert FunctionStep(s0, s1, Ready(true, true));
    assert FunctionStep(s1, s2, Panics);
    states := [s0, s1, s2, s3];
  }
}
