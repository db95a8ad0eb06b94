/** The verifier whole: its setup, event by event, inside the race. */
module VerifierRace {
  import opened Wrappers
  import opened Gate
  import opened Session

  /** The race, and how many of the setup's events have happened. */
  datatype Progress = Progress(race: State, emitted: nat)

  /** One poll of the setup runs it from event `from` up to event `until`: the flag
      is stored when `Established` is passed, and it completes at its last event. */
  predicate SetupRuns(a: Answers, from: nat, until: nat, p: Poll) {
    && from <= until <= |Setup(a)|
    && match p
       case StillPending(stores) => stores == (Established in Setup(a)[from..until])
       case Ready(stores, ok) =>
         stores == (Established in Setup(a)[from..until]) && until == |Setup(a)| && ok == (Done in Setup(a))
       case Panics => Established !in Setup(a)[from..until]
  }

  ghost predicate FunctionAdvances(a: Answers, v: Progress, w: Progress, p: Poll) {
    && Moves(v.race, w.race, p)
    && if PollsSetup(v.race.pc) then SetupRuns(a, v.emitted, w.emitted, p) else w.emitted == v.emitted
  }

  ghost predicate Advances(a: Answers, v: Progress, w: Progress) {
    || (exists p :: FunctionAdvances(a, v, w, p))
    || (w.emitted == v.emitted && DriverStep(v.race, w.race))
    || (w.emitted == v.emitted && Suspended(v.race.pc) && w.race == AfterCancel(v.race))
  }

  ghost predicate VerifierRun(a: Answers, run: seq<Progress>) {
    && run != [] && Init(run[0].race) && run[0].emitted == 0
    && forall i | 0 <= i < |run| - 1 :: Advances(a, run[i], run[i + 1])
  }

  /** The flag says exactly whether `Established` has happened; a completed setup ran to its end. */
  predicate InStep(a: Answers, v: Progress) {
    && v.emitted <= |Setup(a)|
    && (v.race.established <==> Established in Setup(a)[..v.emitted])
    && (v.race.setup.Completed? ==> v.emitted == |Setup(a)| && v.race.setup.ok == (Done in Setup(a)))
  }

  lemma PrefixGrows(events: seq<Event>, from: nat, until: nat)
    requires from <= until <= |events|
    ensures Established in events[..until] <==> Established in events[..from] || Established in events[from..until]
  {
    assert events[..until] == events[..from] + events[from..until];
  }

  /** Each step of the verifier is a step of the race, and keeps the two in step. */
  lemma StepProjects(a: Answers, v: Progress, w: Progress)
    requires Advances(a, v, w) && InStep(a, v) && Inv(v.race)
    ensures Next(v.race, w.race) && InStep(a, w)
  {
    hide Setup, Inv;
    if p :| FunctionAdvances(a, v, w, p) {
      if PollsSetup(v.race.pc) {
        PollsAreOfPending(v.race);
        PollProjects(a, v, w, p);
      } else {
        MovesKeepSetup(v.race, w.race, p);
      }
      assert FunctionStep(v.race, w.race, p);
    }
  }

  lemma MovesKeepSetup(s: State, t: State, p: Poll)
    requires Moves(s, t, p) && !PollsSetup(s.pc)
    ensures t.setup == s.setup && t.established == s.established
  {
  }

  lemma PollProjects(a: Answers, v: Progress, w: Progress, p: Poll)
    requires FunctionAdvances(a, v, w, p) && PollsSetup(v.race.pc) && InStep(a, v)
    requires v.race.setup.Pending?
    ensures Allowed(v.race, p) && InStep(a, w)
  {
    hide Setup;
    PrefixGrows(Setup(a), v.emitted, w.emitted);
    assert Setup(a)[..|Setup(a)|] == Setup(a);
    EstablishedFirst(a);
  }

  lemma {:induction false} RunProjects(a: Answers, run: seq<Progress>, i: nat)
    requires VerifierRun(a, run) && i < |run|
    ensures InStep(a, run[i]) && Inv(run[i].race)
    decreases i
  {
    hide Setup, Advances, Inv, Next, InStep;
    if i == 0 {
      InitInStep(a, run[0]);
      InitHolds(run[0].race);
    } else {
      RunProjects(a, run, i - 1);
      assert Advances(a, run[i - 1], run[i - 1 + 1]);
      StepProjects(a, run[i - 1], run[i]);
      StepKeeps(run[i - 1].race, run[i].race);
    }
  }

  lemma InitInStep(a: Answers, v: Progress)
    requires Init(v.race) && v.emitted == 0
    ensures InStep(a, v)
  {
    assert Setup(a)[..0] == [];
  }

  /** Every interleaving of the verifier's own setup with its driver is a run of the race. */
  lemma VerifierRunIsRun(a: Answers, run: seq<Progress>)
    requires VerifierRun(a, run)
    ensures Run(seq(|run|, i requires 0 <= i < |run| => run[i].race))
  {
    hide Setup, Inv, InStep, Next;
    var states := seq(|run|, i requires 0 <= i < |run| => run[i].race);
    forall i | 0 <= i < |states| - 1 ensures Next(states[i], states[i + 1]) {
      RunProjects(a, run, i);
      assert Advances(a, run[i], run[i + 1]);
      StepProjects(a, run[i], run[i + 1]);
    }
  }

  /** Whatever order setup, driver and caller act in: in every state in which `accept`
      has been called, even if it fails or the caller gives up there, the request is
      within its limits, with server identity, and its every committed offset indexes
      a byte the session carried. A verifier that returns a session has called it. The
      early-finish error is returned only before the session was established. */
  lemma VerifierIsSafe(a: Answers, run: seq<Progress>, i: nat)
    requires VerifierRun(a, run) && i < |run|
    ensures run[i].emitted <= |Setup(a)|
    ensures LimitsAcceptCalled in Setup(a)[..run[i].emitted] ==> a.isMpc && WithinLimits(a)
    ensures AcceptCalled in Setup(a)[..run[i].emitted] ==>
              WithinLimits(a) && a.serverIdentity && CommitmentsIndexTheSession(a) && run[i].race.established
    ensures run[i].race.pc == Exited(Success) ==>
              AcceptCalled in Setup(a)[..run[i].emitted] && Done in Setup(a) && run[i].race.task == Finished(Returned(true))
    ensures run[i].race.pc.Exited? && run[i].race.pc.outcome.EarlyFinish? ==>
              run[i].emitted <= |Setup(a)| && Established !in Setup(a)[..run[i].emitted]
    ensures run[i].race.pc.Exited? || run[i].race.pc == Cancelled(false) ==> !run[i].race.task.Running?
  {
    hide Setup, CommitmentsIndexTheSession, WithinLimits, Advances, VerifierRun;
    RunProjects(a, run, i);
    forall e | e in Setup(a)[..run[i].emitted] ensures e in Setup(a) { PrefixHolds(Setup(a), run[i].emitted, e); }
    EstablishedFirst(a);
    LimitsAcceptExactly(a);
    AcceptsExactly(a);
    if AcceptCalled in Setup(a)[..run[i].emitted] { FlagBeforeAccept(a, run[i].emitted); }
    assert Setup(a)[..|Setup(a)|] == Setup(a);
  }

  lemma PrefixHolds(events: seq<Event>, n: nat, e: Event)
    requires n <= |events| && e in events[..n]
    ensures e in events
  {
  }

  // The flag is stored before the call, so in every prefix that holds the call.
  lemma FlagBeforeAccept(a: Answers, n: nat)
    requires n <= |Setup(a)| && AcceptCalled in Setup(a)[..n]
    ensures Established in Setup(a)[..n]
  {
    hide Setup;
    EstablishedFirst(a);
    var events := Setup(a);
    var k :| 0 <= k < n && events[..n][k] == AcceptCalled;
    assert forall i | 0 <= i < 5 :: events[i] == events[..5][i];
    assert k >= 4 && events[..n][2] == Established;
  }

  /** One poll may run any part of what is left, or nothing of it, and stay pending. */
  lemma AnyPartMayRun(a: Answers, from: nat, until: nat)
    requires from <= until <= |Setup(a)|
    ensures SetupRuns(a, from, until, StillPending(Established in Setup(a)[from..until]))
  {
    hide Setup;
  }

  /** Every request the gate allows, of a session that closes well, is served by some run:
      the gate refuses nothing it should not, and the race can finish. */
  lemma AllowedRequestIsServed(a: Answers) returns (run: seq<Progress>)
    requires a.fails == {} && a.isMpc && WithinLimits(a) && a.serverIdentity && CommitmentsIndexTheSession(a)
    requires a.nameRevealed && a.transcriptRevealed
    ensures VerifierRun(a, run) && run[|run| - 1].race.pc == Exited(Success)
  {
    hide Setup, CommitmentsIndexTheSession;
    AcceptsExactly(a);
    EstablishedFirst(a);
    var n := |Setup(a)|;
    assert Setup(a)[0..n] == Setup(a);
    var s0 := State(PollSetup, Pending, false, Running, true, None, 0, false, false, false);
    var s1 := s0.(pc := Match, setup := Completed(true), established := true);
    var s2 := s1.(pc := Join, slot := false);
    var s3 := s2.(task := Finished(Returned(true)));
    var s4 := s3.(pc := Exited(Success), taken := 1);
    run := [Progress(s0, 0), Progress(s1, n), Progress(s2, n), Progress(s3, n), Progress(s4, n)];
    assert FunctionAdvances(a, run[0], run[1], Ready(true, true));
    assert FunctionAdvances(a, run[1], run[2], Panics) && FunctionAdvances(a, run[3], run[4], Panics);
    assert Advances(a, run[2], run[3]);
  }
}
