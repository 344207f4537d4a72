/**
 When the worker purges an account early.

 Suspending an account requests a cleanup for thirty days later. A worker that has claimed the job
 runs it whatever happened to it since, so the question is which claimed jobs belong to a suspension
 that is no longer the one in force. The job's own row answers it: exactly the completed ones.
 */
module AdminPurges {
  import opened Prelude
  import opened AdminModel
  import opened AdminRuns

  /** A claimed and completed job whose account is suspended again was due before that suspension. */
  ghost predicate Overtaken(s: State, fell: map<Id, Time>) {
    forall j :: j in s.claimed && j < |s.jobs| && s.jobs[j].completed && Purgeable(s, s.jobs[j].account) ==>
        s.jobs[j].account in fell && fell[s.jobs[j].account] >= s.jobs[j].DueAt()
  }

  /** What the handler looks at. */
  predicate Purgeable(s: State, id: Id) {
    id in s.locals && s.locals[id].Suspended() && !s.locals[id].purged
  }

  /** An account becomes purgeable only by being suspended while active. */
  lemma BecomesPurgeable(s: State, s': State, effect: Effect, at: Time, id: Id)
    requires Effected(s, s', effect, at) && Purgeable(s', id)
    ensures Purgeable(s, id) || (Fells(s, effect) && effect.id == id)
  {
  }

  /** A job is completed by lifting the suspension of its account, or by the worker. */
  lemma BecomesCompleted(s: State, s': State, effect: Effect, at: Time, j: nat)
    requires Effected(s, s', effect, at) && j < |s.jobs| && j < |s'.jobs| && s'.jobs[j].completed
        && !s.jobs[j].completed
    ensures (effect.Suspends? && !effect.suspended && effect.id == s.jobs[j].account) || effect == Finishes(j)
  {
  }

  lemma JobsKeepRows(s: State, s': State, effect: Effect, at: Time, j: nat)
    requires Effected(s, s', effect, at) && j < |s.jobs|
    ensures j < |s'.jobs| && s'.jobs[j].account == s.jobs[j].account && s'.jobs[j].requestedAt == s.jobs[j].requestedAt
  {
  }

  lemma ReleasedIsNotPurgeable(s: State, s': State, effect: Effect, at: Time, id: Id)
    requires Effected(s, s', effect, at) && effect == Suspends(id, false)
    ensures !Purgeable(s', id)
  {
  }

  lemma EffectKeepsOvertaken(s: State, s': State, fell: map<Id, Time>, effect: Effect, at: Time, clock: Time)
    requires Worker(s) && Dated(s, fell, clock) && Overtaken(s, fell) && clock <= at
    requires Effected(s, s', effect, at) && s'.claimed == s.claimed
    requires effect.Finishes? ==> effect.job in s.handled
    ensures Overtaken(s', FellAfter(fell, s, effect, at))
  {
    var fell' := FellAfter(fell, s, effect, at);
    forall j | j in s'.claimed && j < |s'.jobs| && s'.jobs[j].completed && Purgeable(s', s'.jobs[j].account)
      ensures s'.jobs[j].account in fell' && fell'[s'.jobs[j].account] >= s'.jobs[j].DueAt()
    {
      JobsKeepRows(s, s', effect, at, j);
      var id := s.jobs[j].account;
      BecomesPurgeable(s, s', effect, at, id);
      if !(Fells(s, effect) && effect.id == id) && !s.jobs[j].completed {
        assert JobJustified(s, j);
        BecomesCompleted(s, s', effect, at, j);
        if effect == Suspends(id, false) {
          ReleasedIsNotPurgeable(s, s', effect, at, id);
        }
      }
    }
  }

  lemma StepKeepsOvertaken(s: State, e: Event, fell: map<Id, Time>, clock: Time)
    requires Worker(s) && Dated(s, fell, clock) && Overtaken(s, fell) && clock <= e.at
    ensures Overtaken(Apply(s, e), FellAfter(fell, s, EffectOf(s, e), e.at))
  {
    if !e.step.ClaimPurge? {
      EventEffect(s, e);
      ClaimsStay(s, e);
      EffectKeepsOvertaken(s, Apply(s, e), fell, EffectOf(s, e), e.at, clock);
    }
  }

  lemma ClaimsStay(s: State, e: Event)
    requires !e.step.ClaimPurge?
    ensures Apply(s, e).claimed == s.claimed
  {
    if !e.step.RunPurge? {
      OnlyWorkIsHandled(s, e);
    }
  }

  lemma {:induction false} RunKeepsOvertaken(s: State, events: seq<Event>, fell: map<Id, Time>, clock: Time)
    requires Worker(s) && Dated(s, fell, clock) && Overtaken(s, fell) && Timely(clock, events)
    ensures Overtaken(Run(s, events), FellDuring(s, fell, events))
    decreases |events|
  {
    if events != [] {
      var fell1 := FellAfter(fell, s, EffectOf(s, events[0]), events[0].at);
      StepKeepsOvertaken(s, events[0], fell, clock);
      StepKeepsDates(s, events[0], fell, clock);
      StepKeepsCleanups(s, events[0]);
      RunKeepsOvertaken(Apply(s, events[0]), events[1..], fell1, events[0].at);
    }
  }

  /**
   In every run from a state without suspensions, a claimed job whose account could be purged is
   completed exactly when the account was suspended again since the job was requested. The suspension
   in force then began only after the job was due.
   */
  lemma CompletedIffOvertaken(s: State, events: seq<Event>, clock: Time, j: nat)
    requires Untouched(s) && Timely(clock, events)
    ensures var s' := Run(s, events);
            var fell := FellDuring(s, map[], events);
            j in s'.claimed && j < |s'.jobs| && Purgeable(s', s'.jobs[j].account) ==>
              var (job, id) := (s'.jobs[j], s'.jobs[j].account);
              && id in fell
              && (job.completed <==> fell[id] != job.requestedAt)
              && (job.completed ==> fell[id] >= job.DueAt())
  {
    RunKeepsDates(s, events, map[], clock);
    RunKeepsOvertaken(s, events, map[], clock);
  }

  /** The account has a cleanup that is not completed and not yet due. */
  ghost predicate QueuedForLater(s: State, id: Id, now: Time) {
    exists k :: 0 <= k < |s.jobs| && !s.jobs[k].completed && s.jobs[k].account == id && s.jobs[k].DueAt() > now
  }

  /**
   When the handler of a claimed job purges its account less than thirty days after the suspension in
   force: exactly when the job table still holds a cleanup of that account that is not yet due. The
   handler of a job that was not cancelled is never early.
   */
  lemma PurgeIsEarlyIff(s: State, events: seq<Event>, clock: Time, j: nat, now: Time)
    requires Untouched(s) && Timely(clock, events) && Clock(clock, events) <= now
    ensures var s' := Run(s, events);
            var fell := FellDuring(s, map[], events);
            j in s'.claimed && j < |s'.jobs| && Purgeable(s', s'.jobs[j].account) ==>
              var (job, id) := (s'.jobs[j], s'.jobs[j].account);
              && id in fell
              && var purged := Apply(s', Event(now, RunPurge(j))).locals;
              && id in purged && purged[id].purged
              && (now < fell[id] + PURGE_DELAY <==> QueuedForLater(s', id, now))
              && (!job.completed ==> now >= fell[id] + PURGE_DELAY)
  {
    CompletedIffOvertaken(s, events, clock, j);
    RunKeepsDates(s, events, map[], clock);
    var s' := Run(s, events);
    if j in s'.claimed && j < |s'.jobs| && Purgeable(s', s'.jobs[j].account) {
      LaterCleanupIff(s', FellDuring(s, map[], events), Clock(clock, events), s'.jobs[j].account, now);
    }
  }

  /** The uncompleted cleanup of a purgeable account dates from the suspension in force. */
  lemma LaterCleanupIff(s: State, fell: map<Id, Time>, clock: Time, id: Id, now: Time)
    requires Worker(s) && Dated(s, fell, clock) && Purgeable(s, id) && id in fell
    ensures now < fell[id] + PURGE_DELAY <==> QueuedForLater(s, id, now)
  {
    assert Queued(s, id);
    var k :| 0 <= k < |s.jobs| && !s.jobs[k].completed && s.jobs[k].account == id;
    assert s.jobs[k].DueAt() == fell[id] + PURGE_DELAY;
  }

  // ---------------------------------------------------------------- a run in which it happens

  /** Account 1 is an administrator, account 2 is not. */
  function TwoAccounts(): State {
    State(true, map[1 := LocalAccount(true, false, None, false), 2 := LocalAccount(false, false, None, false)],
          map[], map[], [], [], [], {}, {})
  }

  function SuspendFirst(): Event {
    Event(0, ChangeSuspension(1, 2, true))
  }

  function EarlyRun(): seq<Event> {
    [Event(PURGE_DELAY, ClaimPurge(0)), Event(PURGE_DELAY, ChangeSuspension(1, 2, false)),
        Event(PURGE_DELAY, ChangeSuspension(1, 2, true)), Event(PURGE_DELAY + 1, RunPurge(0))]
  }

  lemma SuspendedFirst()
    ensures Untouched(TwoAccounts())
    ensures var s := Apply(TwoAccounts(), SuspendFirst());
            && s.jobs == [PurgeJob(2, 0, false)]
            && 2 in s.locals && s.locals[2] == LocalAccount(false, false, Some(0), false)
  {
    SuspendAcceptedIff(TwoAccounts(), 1, 2, 0);
  }

  /**
   Suspended, claimed when due, released, suspended again, run: the account is purged one microsecond
   after the suspension in force.
   */
  lemma EarlyPurgeHappens()
    ensures Untouched(TwoAccounts()) && Timely(0, [SuspendFirst()] + EarlyRun())
    ensures var s := Run(TwoAccounts(), [SuspendFirst()] + EarlyRun());
            && 2 in s.locals && s.locals[2].purged && s.locals[2].suspendedAt == Some(PURGE_DELAY)
            && Clock(0, [SuspendFirst()] + EarlyRun()) == PURGE_DELAY + 1
  {
    SuspendedFirst();
    EarlyRunPurges();
    EarlyRunIsTimely();
  }

  lemma EarlyRunPurges()
    ensures var s := Run(TwoAccounts(), [SuspendFirst()] + EarlyRun());
            2 in s.locals && s.locals[2].purged && s.locals[2].suspendedAt == Some(PURGE_DELAY)
  {
    SuspendedFirst();
    OneStep(TwoAccounts(), SuspendFirst(), EarlyRun());
    CancelledJobStillPurges(Apply(TwoAccounts(), SuspendFirst()), 0, 1, PURGE_DELAY);
  }

  lemma EarlyRunIsTimely()
    ensures Timely(0, [SuspendFirst()] + EarlyRun())
    ensures Clock(0, [SuspendFirst()] + EarlyRun()) == PURGE_DELAY + 1
  {
    AscendingIsTimely(0, [SuspendFirst()] + EarlyRun());
  }

  /** Events in ascending order of their times respect the clock. */
  lemma {:induction false} AscendingIsTimely(clock: Time, events: seq<Event>)
    requires forall i :: 0 <= i < |events| ==> clock <= events[i].at
    requires forall i, j :: 0 <= i < j < |events| ==> events[i].at <= events[j].at
    ensures Timely(clock, events)
    decreases |events|
  {
    if events != [] {
      AscendingIsTimely(events[0].at, events[1..]);
    }
  }
}
