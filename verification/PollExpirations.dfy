/**
 What the expiration protocol promises.

 A local poll always has the job of its deadline and is never closed before it. A remote poll keeps
 its job except through one kind of refresh, and even then some job is ahead.
 */
module PollExpirations {
  import opened Prelude
  import opened PollModel
  import opened PollRuns
  import opened PollDeadlines
  import opened PollDeadlineRuns

  /** An uncompleted job for this deadline, due at it unless it is being retried. */
  ghost predicate DueJob(job: Job, p: PollId, deadline: Time) {
    && job.kind == PollExpiration && job.poll == p && job.key == deadline && job.completed == false
    && deadline <= job.runAfter
    && (job.attempts == 0 ==> job.runAfter == deadline)
  }

  /**
   In every run, a local poll that was not notified has an uncompleted job requested for exactly its
   current deadline, due at that deadline unless it is being retried.
   */
  lemma LocalDeadlineHasJob(env: Instance, clock: Time, events: seq<Event>, p: PollId)
    requires Timely(clock, events)
    ensures var s := Run(env, Start(clock), events);
            p in s.db.polls && s.db.polls[p].status.Local? && s.db.polls[p].notifiedAt.None? ==>
              && s.db.polls[p].expiresAt.Some?
              && exists job :: job in s.db.jobs && DueJob(job, p, s.db.polls[p].expiresAt.value)
  {
    var s := Run(env, Start(clock), events);
    RunKeeps(env, Start(clock), events, p, false);
    RunKeepsLocal(env, Start(clock), events, p);
    if p in s.db.polls && s.db.polls[p].status.Local? && s.db.polls[p].notifiedAt.None? {
      var key := s.db.polls[p].expiresAt.value;
      assert HasJob(s.db.jobs, p, key);
      var j :| 0 <= j < |s.db.jobs| && s.db.jobs[j].Holds(PollExpiration, p, key);
      assert WellTimed(s.db.jobs[j]);
      assert s.db.jobs[j] in s.db.jobs && DueJob(s.db.jobs[j], p, key);
    }
  }

  /** A local poll is only ever closed at or after the deadline in force when it is closed. */
  lemma NeverClosedEarly(env: Instance, clock: Time, events: seq<Event>, p: PollId)
    requires Timely(clock, events)
    ensures var s := Run(env, Start(clock), events);
            p in s.db.polls && s.db.polls[p].status.Local? ==>
              && (s.db.polls[p].closedAt.Some? <==> s.db.polls[p].notifiedAt.Some?)
              && (s.db.polls[p].closedAt.Some? ==>
                  s.db.polls[p].closedAt == s.db.polls[p].expiresAt
                    && s.db.polls[p].expiresAt.value <= s.db.polls[p].notifiedAt.value)
  {
    RunKeeps(env, Start(clock), events, p, false);
  }

  /** Local or remote, a poll with a deadline always has a job whose handler still lies ahead. */
  lemma NoDeadlineForgotten(env: Instance, clock: Time, events: seq<Event>, p: PollId)
    requires Timely(clock, events)
    ensures var s := Run(env, Start(clock), events);
            Awaited(s, p) && ExpirationKey(s.db.polls[p]).Some? ==> exists j :: Ahead(s, p, j)
  {
    RunKeeps(env, Start(clock), events, p, false);
  }

  /** A remote poll keeps the job of its exact deadline through every run without a collision. */
  lemma RemoteDeadlineHasJob(env: Instance, clock: Time, events: seq<Event>, p: PollId)
    requires Timely(clock, events) && NeverCollides(env, Start(clock), events, p)
    ensures var s := Run(env, Start(clock), events);
            Awaited(s, p) && ExpirationKey(s.db.polls[p]).Some? ==>
                HasJob(s.db.jobs, p, ExpirationKey(s.db.polls[p]).value)
  {
    RunKeeps(env, Start(clock), events, p, true);
  }

  /** Once its worker finishes, a handled job no longer holds its key and nothing else does. */
  lemma HandledJobGoes(s: System, j: nat, p: PollId, key: Time, now: Time)
    requires UniqueKeys(s.db.jobs) && j < |s.db.jobs| && Handled(s, j) && s.db.jobs[j].Holds(PollExpiration, p, key)
    requires s.claims[s.db.jobs[j].claim.value].job == j
    ensures !HasJob(FinishStep(s, s.db.jobs[j].claim.value, now).db.jobs, p, key)
  {
    forall k | 0 <= k < |s.db.jobs| && k != j
      ensures !s.db.jobs[k].Holds(PollExpiration, p, key)
    {
      if k < j {
        assert !s.db.jobs[k].completed ==> !s.db.jobs[j].Holds(s.db.jobs[k].kind, s.db.jobs[k].poll, s.db.jobs[k].key);
      } else {
        assert !s.db.jobs[k].Holds(s.db.jobs[j].kind, s.db.jobs[j].poll, s.db.jobs[j].key);
      }
    }
  }

  ghost function Refreshed(s: System, freshId: PollId, status: StatusId, input: RemotePoll, now: Time): System {
    s.(db := Committed(s.db, RefreshRemotePoll(s.db, freshId, status, input, now)), clock := now)
  }

  lemma RefreshedRow(db: Db, p: PollId, input: RemotePoll, now: Time)
    requires p in db.polls
    ensures var db' := RefreshExistingPoll(db, p, input, now);
            && db'.jobs == EnqueueRemoteDeadline(db.jobs, p, input)
            && p in db'.polls && db'.polls[p].status == db.polls[p].status
            && db'.polls[p].notifiedAt == db.polls[p].notifiedAt
            && db'.polls[p].DueAt() == input.DueAt()
  {
  }

  /** What a refresh of an existing poll does to its deadline and to the queue. */
  lemma RefreshedPollRow(
    s: System, freshId: PollId, status: StatusId, input: RemotePoll, now: Time, p: PollId)
    requires PollFor(s.db, Remote(status)) == Some(p) && input.DueAt().Some?
    requires RefreshRemotePoll(s.db, freshId, status, input, now).Ok?
    ensures var s' := Refreshed(s, freshId, status, input, now);
            && s'.claims == s.claims
            && s'.db.jobs == EnqueueExpiration(s.db.jobs, p, input.DueAt().value + REMOTE_GRACE)
            && p in s'.db.polls && s'.db.polls[p].notifiedAt == s.db.polls[p].notifiedAt
            && ExpirationKey(s'.db.polls[p]) == Some(input.DueAt().value + REMOTE_GRACE)
  {
    RefreshedRow(s.db, p, input, now);
    assert Refreshed(s, freshId, status, input, now).db == RefreshExistingPoll(s.db, p, input, now);
  }

  /** A colliding refresh leaves the poll without its job once the worker finishes. */
  lemma CollisionLosesJob(s: System, freshId: PollId, status: StatusId, input: RemotePoll, now: Time, p: PollId)
    requires Base(s) && s.clock <= now && Awaited(s, p)
    requires PollFor(s.db, Remote(status)) == Some(p) && input.DueAt().Some?
    requires RefreshRemotePoll(s.db, freshId, status, input, now).Ok?
    requires Collides(s, Refresh(freshId, status, input), p)
    ensures exists c :: !Covered(FinishStep(Refreshed(s, freshId, status, input, now), c, now), p)
  {
    var s' := Refreshed(s, freshId, status, input, now);
    var key := input.DueAt().value + REMOTE_GRACE;
    RefreshedPollRow(s, freshId, status, input, now, p);
    var j :| 0 <= j < |s.db.jobs| && Handled(s, j) && s.db.jobs[j].Holds(PollExpiration, p, key);
    assert s'.db.jobs == s.db.jobs;
    HandledJobGoes(s', j, p, key, now);
    assert !Covered(FinishStep(s', s.db.jobs[j].claim.value, now), p);
  }

  /** Any other refresh keeps it, whichever worker finishes next. */
  lemma NoCollisionKeepsJob(
    s: System, freshId: PollId, status: StatusId, input: RemotePoll, now: Time, p: PollId, c: ClaimId)
    requires Base(s) && Kept(s, p, true) && s.clock <= now && NeverUsed(s.db, freshId)
    requires !Collides(s, Refresh(freshId, status, input), p)
    ensures Covered(FinishStep(Refreshed(s, freshId, status, input, now), c, now), p)
  {
    RefreshStep(s, freshId, status, input, now, p, true);
    FinishStepKeeps(Refreshed(s, freshId, status, input, now), c, now, p, true);
    assert FinishStep(Refreshed(s, freshId, status, input, now), c, now).clock == now;
  }

  /**
   The condition is exact: a refresh that collides, and only such a refresh, lets the next completion
   leave the poll without the job of its deadline.
   */
  lemma CollisionIsExact(s: System, freshId: PollId, status: StatusId, input: RemotePoll, now: Time, p: PollId)
    requires Base(s) && Kept(s, p, true) && s.clock <= now && Awaited(s, p) && NeverUsed(s.db, freshId)
    requires PollFor(s.db, Remote(status)) == Some(p) && input.DueAt().Some?
    requires RefreshRemotePoll(s.db, freshId, status, input, now).Ok?
    ensures (forall c :: Covered(FinishStep(Refreshed(s, freshId, status, input, now), c, now), p)) <==>
            !Collides(s, Refresh(freshId, status, input), p)
  {
    if Collides(s, Refresh(freshId, status, input), p) {
      CollisionLosesJob(s, freshId, status, input, now, p);
    } else {
      forall c
        ensures Covered(FinishStep(Refreshed(s, freshId, status, input, now), c, now), p)
      {
        NoCollisionKeepsJob(s, freshId, status, input, now, p, c);
      }
    }
  }

  /** A worker has run the job of this deadline and is about to mark it completed. */
  ghost predicate InFlight(s: System, p: PollId, key: Time) {
    exists j :: 0 <= j < |s.db.jobs| && Handled(s, j) && s.db.jobs[j].Holds(PollExpiration, p, key)
  }

  /**
   Why local edits need no such condition: for an edit with any input, even one validation would have
   turned away, the job of the new deadline survives the next completion exactly when it is not in
   flight, and a job in flight means a deadline that is not in the future.
   */
  lemma EditCollidesOnlyInThePast(s: System, p: PollId, input: NewPoll, now: Time)
    requires QueueInvariant(s) && s.clock <= now && p in s.db.polls
    ensures var s' := System(EditExistingPoll(s.db, p, input, now), s.claims, now);
            (forall c :: HasJob(FinishStep(s', c, now).db.jobs, p, Deadline(input, now))) <==>
                !InFlight(s, p, Deadline(input, now))
    ensures InFlight(s, p, Deadline(input, now)) ==> input.expiresIn <= 0
  {
    var s' := System(EditExistingPoll(s.db, p, input, now), s.claims, now);
    var key := Deadline(input, now);
    assert s'.db.jobs == EnqueueExpiration(s.db.jobs, p, key);
    ExpirationGrows(s.db.jobs, p, key);
    GrowthKeepsQueue(s, s'.db, now);
    if InFlight(s, p, key) {
      var j :| 0 <= j < |s.db.jobs| && Handled(s, j) && s.db.jobs[j].Holds(PollExpiration, p, key);
      assert s.db.jobs[j].key <= s.clock;
      GrowthKeepsHandled(s, s', j);
      HandledJobGoes(s', j, p, key, now);
    } else {
      NotInFlight(s, s', p, key);
      forall c
        ensures HasJob(FinishStep(s', c, now).db.jobs, p, key)
      {
        FinishedHolds(s', c, now, p, key);
      }
    }
  }

  lemma NotInFlight(s: System, s': System, p: PollId, key: Time)
    requires Grows(s.db.jobs, s'.db.jobs) && s'.claims == s.claims && !InFlight(s, p, key)
    ensures forall j :: 0 <= j < |s'.db.jobs| && Handled(s', j) ==> !s'.db.jobs[j].Holds(PollExpiration, p, key)
  {
    forall j: nat | j < |s'.db.jobs| && Handled(s', j)
      ensures !s'.db.jobs[j].Holds(PollExpiration, p, key)
    {
      GrowthKeepsHandled(s, s', j);
    }
  }
}
