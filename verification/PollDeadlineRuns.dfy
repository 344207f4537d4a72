/**
 The expiration protocol over runs: what the worker's steps keep, and with the requests every step.
 */
module PollDeadlineRuns {
  import opened Prelude
  import opened PollModel
  import opened PollRuns
  import opened PollDeadlines

  /** No job was completed or got a new key, none became handled, and what lay ahead still does. */
  ghost predicate OnlyClaims(s: System, s': System, p: PollId) {
    && s'.db.polls == s.db.polls && s.clock <= s'.clock
    && |s'.db.jobs| == |s.db.jobs|
    && (forall k :: 0 <= k < |s.db.jobs| ==> SameKey(s.db.jobs[k], s'.db.jobs[k]))
    && (forall k: nat :: k < |s.db.jobs| && Handled(s', k) ==> Handled(s, k))
    && (forall k: nat :: Ahead(s, p, k) ==> Ahead(s', p, k))
  }

  ghost predicate SameKey(job: Job, job': Job) {
    job'.kind == job.kind && job'.poll == job.poll && job'.key == job.key && job'.completed == job.completed
  }

  lemma OnlyClaimsKeep(s: System, s': System, p: PollId, exactly: bool)
    requires Kept(s, p, exactly) && OnlyClaims(s, s', p)
    ensures Kept(s', p, exactly)
  {
    forall key | HasJob(s.db.jobs, p, key)
      ensures HasJob(s'.db.jobs, p, key)
    {
      var k :| 0 <= k < |s.db.jobs| && s.db.jobs[k].Holds(PollExpiration, p, key);
      assert SameKey(s.db.jobs[k], s'.db.jobs[k]);
      assert s'.db.jobs[k].Holds(PollExpiration, p, key);
    }
    if exists k :: Ahead(s, p, k) {
      var k :| Ahead(s, p, k);
      assert Ahead(s', p, k);
    }
    forall k: nat | k < |s.db.jobs| && Handled(s', k)
      ensures Handled(s, k) && SameKey(s.db.jobs[k], s'.db.jobs[k])
    {
    }
  }

  lemma SameKeysUnique(jobs: seq<Job>, jobs': seq<Job>)
    requires UniqueKeys(jobs) && |jobs'| == |jobs|
    requires forall k :: 0 <= k < |jobs| ==>
        jobs'[k].kind == jobs[k].kind && jobs'[k].poll == jobs[k].poll && jobs'[k].key == jobs[k].key
          && (jobs[k].completed ==> jobs'[k].completed)
    ensures UniqueKeys(jobs')
  {
    forall i, j | 0 <= i < j < |jobs'| && !jobs'[i].completed
      ensures !jobs'[j].Holds(jobs'[i].kind, jobs'[i].poll, jobs'[i].key)
    {
      assert !jobs[j].Holds(jobs[i].kind, jobs[i].poll, jobs[i].key);
    }
  }

  lemma ClaimStepQueue(s: System, j: nat, c: ClaimId, now: Time)
    requires QueueInvariant(s) && s.clock <= now
    ensures QueueInvariant(ClaimStep(s, j, c, now).(clock := now))
  {
    var s' := ClaimStep(s, j, c, now).(clock := now);
    SameKeysUnique(s.db.jobs, s'.db.jobs);
    assert Claimable(s, j, c, now) ==> WellTimed(s.db.jobs[j]);
  }

  lemma ClaimStepKeeps(s: System, j: nat, c: ClaimId, now: Time, p: PollId, exactly: bool)
    requires Base(s) && Kept(s, p, exactly) && s.clock <= now
    ensures var s' := ClaimStep(s, j, c, now).(clock := now);
            Base(s') && Kept(s', p, exactly)
  {
    var s' := ClaimStep(s, j, c, now).(clock := now);
    ClaimStepQueue(s, j, c, now);
    ClaimStepClaims(s, j, c, now, p);
    OnlyClaimsKeep(s, s', p, exactly);
  }

  lemma ClaimStepClaims(s: System, j: nat, c: ClaimId, now: Time, p: PollId)
    requires QueueInvariant(s) && s.clock <= now
    ensures OnlyClaims(s, ClaimStep(s, j, c, now).(clock := now), p)
  {
    var s' := ClaimStep(s, j, c, now).(clock := now);
    forall k: nat | k < |s.db.jobs|
      ensures Handled(s', k) ==> Handled(s, k)
      ensures Ahead(s, p, k) ==> Ahead(s', p, k)
    {
    }
  }

  /** Writing one job row keeps the queue invariant if its key stays and its claim stays or goes. */
  lemma OneJobQueue(s: System, j: nat, job: Job, now: Time)
    requires QueueInvariant(s) && s.clock <= now && j < |s.db.jobs|
    requires var before := s.db.jobs[j];
             job.kind == before.kind && job.poll == before.poll && job.key == before.key
                 && (before.completed ==> job.completed)
    requires WellTimed(job) && (job.claim.None? || job.claim == s.db.jobs[j].claim)
    ensures QueueInvariant(System(s.db.(jobs := s.db.jobs[j := job]), s.claims, now))
  {
    SameKeysUnique(s.db.jobs, s.db.jobs[j := job]);
  }

  lemma FinishedJob(job: Job, progress: Progress, now: Time)
    requires WellTimed(job) && (job.kind.PollExpiration? ==> job.key <= now)
    ensures WellTimed(Finished(job, progress, now))
  {
  }

  lemma FinishStepQueue(s: System, c: ClaimId, now: Time)
    requires QueueInvariant(s) && s.clock <= now
    ensures QueueInvariant(FinishStep(s, c, now).(clock := now))
  {
    if FinishStep(s, c, now) != s {
      var j := s.claims[c].job;
      FinishedJob(s.db.jobs[j], s.claims[c].progress, now);
      OneJobQueue(s, j, Finished(s.db.jobs[j], s.claims[c].progress, now), now);
    }
  }

  /** A finished job either keeps its key or had been handled. */
  lemma FinishedHolds(s: System, c: ClaimId, now: Time, p: PollId, key: Time)
    requires QueueInvariant(s) && s.clock <= now && HasJob(s.db.jobs, p, key)
    requires forall j :: 0 <= j < |s.db.jobs| && Handled(s, j) ==> !s.db.jobs[j].Holds(PollExpiration, p, key)
    ensures HasJob(FinishStep(s, c, now).db.jobs, p, key)
  {
    var k :| 0 <= k < |s.db.jobs| && s.db.jobs[k].Holds(PollExpiration, p, key);
    assert !Handled(s, k);
    assert FinishStep(s, c, now).db.jobs[k].Holds(PollExpiration, p, key);
  }

  lemma FinishedAhead(s: System, c: ClaimId, now: Time, p: PollId)
    requires exists k :: Ahead(s, p, k)
    ensures exists k :: Ahead(FinishStep(s, c, now).(clock := now), p, k)
  {
    var k :| Ahead(s, p, k);
    assert Ahead(FinishStep(s, c, now).(clock := now), p, k);
  }

  lemma FinishedHandled(s: System, c: ClaimId, now: Time, j: nat)
    requires j < |FinishStep(s, c, now).db.jobs| && Handled(FinishStep(s, c, now).(clock := now), j)
    ensures Handled(s, j) && FinishStep(s, c, now).db.jobs[j] == s.db.jobs[j]
  {
  }

  /** Completing a job leaves every poll with the job it relies on. */
  lemma FinishStepKeeps(s: System, c: ClaimId, now: Time, p: PollId, exactly: bool)
    requires Base(s) && Kept(s, p, exactly) && s.clock <= now
    ensures var s' := FinishStep(s, c, now).(clock := now);
            Base(s') && Kept(s', p, exactly)
  {
    var s' := FinishStep(s, c, now).(clock := now);
    FinishStepQueue(s, c, now);
    forall j: nat | j < |s'.db.jobs| && Handled(s', j)
      ensures Handled(s, j) && s'.db.jobs[j] == s.db.jobs[j]
    {
      FinishedHandled(s, c, now, j);
    }
    if Awaited(s, p) {
      if exists k :: Ahead(s, p, k) {
        FinishedAhead(s, c, now, p);
      }
      var key := ExpirationKey(s.db.polls[p]);
      if key.Some? && (exactly || s.clock < key.value) {
        FinishedHolds(s, c, now, p, key.value);
      }
    }
  }

  /** What the expiration handler can do: close the poll it was run for, or nothing but a due check. */
  lemma ExpireFacts(env: Instance, db: Db, q: PollId, now: Time)
    ensures var (db', ok) := ExpireStep(env, db, q, now);
            && Grows(db.jobs, db'.jobs)
            && (db'.polls == db.polls || (q in db.polls && Expires(db.polls[q], now)
                && db'.polls == db.polls[q := ClosedPoll(db.polls[q], now)]))
            && (ok && q in db'.polls && db'.polls[q].notifiedAt.None? ==>
                db'.polls[q].DueAt().Some? && db'.polls[q].DueAt().value > now)
  {
    UpdateGrows(db.jobs, q, now);
  }

  lemma ExpireKeeps(env: Instance, s: System, q: PollId, now: Time, p: PollId, exactly: bool)
    requires Base(s) && Kept(s, p, exactly) && s.clock <= now
    ensures var s' := s.(db := ExpireStep(env, s.db, q, now).0, clock := now);
            Base(s') && Kept(s', p, exactly)
  {
    var s' := s.(db := ExpireStep(env, s.db, q, now).0, clock := now);
    ExpireFacts(env, s.db, q, now);
    GrowthKeepsQueue(s, s'.db, now);
    if s'.db.polls == s.db.polls {
      KeptPoll(s, s', p);
    } else {
      ShapesSet(s, s', q, ClosedPoll(s.db.polls[q], now));
      if p != q {
        KeptPoll(s, s', p);
      }
    }
  }

  ghost function Settled(s: System, c: ClaimId, progress: Progress): System
    requires c in s.claims
  {
    s.(claims := s.claims[c := s.claims[c].(progress := progress)])
  }

  lemma SettledHandled(s: System, c: ClaimId, progress: Progress, k: nat)
    requires c in s.claims && k < |s.db.jobs|
    ensures Handled(Settled(s, c, progress), k) ==>
        Handled(s, k) || (progress.Succeeded? && s.db.jobs[k].claim == Some(c))
    ensures s.db.jobs[k].claim != Some(c) ==> (Handled(Settled(s, c, progress), k) <==> Handled(s, k))
  {
  }

  /** Recording that a handler succeeded is safe once its poll's deadline lies in the future. */
  lemma SettleKeeps(s: System, c: ClaimId, progress: Progress, p: PollId, exactly: bool)
    requires Base(s) && Kept(s, p, exactly) && c in s.claims
    requires var job := s.db.jobs[s.claims[c].job];
             progress.Succeeded? && job.kind.PollExpiration? && job.poll == p && Awaited(s, p) ==>
               ExpirationKey(s.db.polls[p]).Some? && s.clock < ExpirationKey(s.db.polls[p]).value
    ensures Base(Settled(s, c, progress)) && Kept(Settled(s, c, progress), p, exactly)
  {
    var s' := Settled(s, c, progress);
    var j := s.claims[c].job;
    forall k: nat | k < |s.db.jobs|
      ensures Handled(s', k) ==> Handled(s, k) || (progress.Succeeded? && k == j)
      ensures k != j ==> (Handled(s', k) <==> Handled(s, k))
    {
      SettledHandled(s, c, progress, k);
    }
    if Awaited(s, p) {
      var key := ExpirationKey(s.db.polls[p]);
      if key.Some? && s.clock < key.value {
        var k :| 0 <= k < |s.db.jobs| && s.db.jobs[k].Holds(PollExpiration, p, key.value);
        assert Ahead(s', p, k);
      } else if exists k :: Ahead(s, p, k) {
        var k :| Ahead(s, p, k);
        assert Ahead(s', p, k);
      }
    }
  }

  lemma HandlerStepKeeps(env: Instance, s: System, c: ClaimId, fails: bool, now: Time, p: PollId, exactly: bool)
    requires Base(s) && Kept(s, p, exactly) && s.clock <= now
    ensures var s' := HandlerStep(env, s, c, fails, now).(clock := now);
            Base(s') && Kept(s', p, exactly)
  {
    if c in s.claims && s.claims[c].progress.Claimed? && s.claims[c].job < |s.db.jobs| {
      var job := s.db.jobs[s.claims[c].job];
      if job.kind.PollExpiration? {
        var (db', ok) := ExpireStep(env, s.db, job.poll, now);
        var s1 := s.(db := db', clock := now);
        ExpireFacts(env, s.db, job.poll, now);
        ExpireKeeps(env, s, job.poll, now, p, exactly);
        SettleKeeps(s1, c, if ok && !fails then Succeeded else Failed, p, exactly);
      } else {
        var s1 := s.(clock := now);
        assert Grows(s.db.jobs, s1.db.jobs);
        KeptPoll(s, s1, p);
        SettleKeeps(s1, c, if fails then Failed else Succeeded, p, exactly);
      }
    } else {
      KeptPoll(s, s.(clock := now), p);
    }
  }

  lemma TimePasses(s: System, now: Time, p: PollId, exactly: bool)
    requires Base(s) && Kept(s, p, exactly) && s.clock <= now
    ensures Base(s.(clock := now)) && Kept(s.(clock := now), p, exactly)
  {
    assert Grows(s.db.jobs, s.db.jobs);
    KeptPoll(s, s.(clock := now), p);
  }

  lemma WorkerKeeps(env: Instance, s: System, e: Event, p: PollId, exactly: bool)
    requires Base(s) && Kept(s, p, exactly) && s.clock <= e.at
    requires e.step.ClaimJob? || e.step.RunHandler? || e.step.Finish?
    ensures Base(Apply(env, s, e)) && Kept(Apply(env, s, e), p, exactly)
  {
    match e.step
    case ClaimJob(j, c) => ClaimStepKeeps(s, j, c, e.at, p, exactly);
    case RunHandler(c, fails) => HandlerStepKeeps(env, s, c, fails, e.at, p, exactly);
    case Finish(c) => FinishStepKeeps(s, c, e.at, p, exactly);
  }

  lemma BallotStepKeeps(env: Instance, s: System, e: Event, p: PollId, exactly: bool)
    requires Base(s) && Kept(s, p, exactly) && s.clock <= e.at
    requires e.step.VoteLocally? || e.step.VoteRemotely?
    ensures Base(Apply(env, s, e)) && Kept(Apply(env, s, e), p, exactly)
  {
    match e.step
    case VoteLocally(q, account, choices) => VoteStepKeeps(s, q, LocalVoter(account), choices, None, e.at, p, exactly);
    case VoteRemotely(q, actor, choice, activity) =>
      if q in s.db.polls && s.db.polls[q].status.Local? {
        VoteStepKeeps(s, q, RemoteVoter(actor), [choice], Some(activity), e.at, p, exactly);
      } else {
        TimePasses(s, e.at, p, exactly);
      }
  }

  lemma RequestKeeps(env: Instance, s: System, e: Event, p: PollId, exactly: bool)
    requires Base(s) && Kept(s, p, exactly) && s.clock <= e.at
    requires e.step.Create? || e.step.Edit? || e.step.Refresh?
    requires exactly ==> !Collides(s, e.step, p)
    ensures Base(Apply(env, s, e)) && Kept(Apply(env, s, e), p, exactly)
  {
    TimePasses(s, e.at, p, exactly);
    match e.step
    case Create(id, status, input) =>
      if NeverUsed(s.db, id) {
        CreateStep(env, s, id, status, input, e.at, p, exactly);
      }
    case Edit(freshId, status, input) =>
      if NeverUsed(s.db, freshId) {
        EditStep(env, s, freshId, status, input, e.at, p, exactly);
      }
    case Refresh(freshId, status, input) =>
      if NeverUsed(s.db, freshId) {
        RefreshStep(s, freshId, status, input, e.at, p, exactly);
      }
  }

  lemma StepKeeps(env: Instance, s: System, e: Event, p: PollId, exactly: bool)
    requires Base(s) && Kept(s, p, exactly) && s.clock <= e.at
    requires exactly ==> !Collides(s, e.step, p)
    ensures Base(Apply(env, s, e)) && Kept(Apply(env, s, e), p, exactly)
  {
    if e.step.Create? || e.step.Edit? || e.step.Refresh? {
      RequestKeeps(env, s, e, p, exactly);
    } else if e.step.VoteLocally? || e.step.VoteRemotely? {
      BallotStepKeeps(env, s, e, p, exactly);
    } else if e.step.DeleteNotices? {
      assert Grows(s.db.jobs, s.db.jobs);
      KeptPoll(s, Apply(env, s, e), p);
    } else {
      WorkerKeeps(env, s, e, p, exactly);
    }
  }

  // ---------------------------------------------------------------- runs

  /** No refresh in the run asks for a job of this poll that is about to be completed. */
  ghost predicate NeverCollides(env: Instance, s: System, events: seq<Event>, p: PollId)
    decreases |events|
  {
    events == [] || (!Collides(s, events[0].step, p) && NeverCollides(env, Apply(env, s, events[0]), events[1..], p))
  }

  lemma {:induction false} RunKeeps(env: Instance, s: System, events: seq<Event>, p: PollId, exactly: bool)
    requires Base(s) && Kept(s, p, exactly) && Timely(s.clock, events)
    requires exactly ==> NeverCollides(env, s, events, p)
    ensures var s' := Run(env, s, events);
            Base(s') && Kept(s', p, exactly)
    decreases |events|
  {
    if events != [] {
      StepKeeps(env, s, events[0], p, exactly);
      RunKeeps(env, Apply(env, s, events[0]), events[1..], p, exactly);
    }
  }

  /** A poll that exists before and after a step belongs to the same status. */
  lemma StatusKept(env: Instance, s: System, e: Event, p: PollId)
    requires p in s.db.polls && p in Apply(env, s, e).db.polls
    ensures Apply(env, s, e).db.polls[p].status == s.db.polls[p].status
  {
    match e.step
    case VoteLocally(q, account, choices) =>
      VoteLeavesDeadlines(s.db, q, LocalVoter(account), choices, None, e.at);
      assert DeadlineKept(s.db, Apply(env, s, e).db, p);
    case VoteRemotely(q, actor, choice, activity) =>
      VoteLeavesDeadlines(s.db, q, RemoteVoter(actor), [choice], Some(activity), e.at);
      assert DeadlineKept(s.db, Apply(env, s, e).db, p);
    case RunHandler(c, _) =>
      if c in s.claims && s.claims[c].job < |s.db.jobs| {
        ExpireFacts(env, s.db, s.db.jobs[s.claims[c].job].poll, e.at);
      }
    case _ => RowsKeepStatus(env, s, e, p);
  }

  /** Creating writes a new row, editing and refreshing keep the status of the row they write. */
  lemma RowsKeepStatus(env: Instance, s: System, e: Event, p: PollId)
    requires !e.step.VoteLocally? && !e.step.VoteRemotely? && !e.step.RunHandler?
    requires p in s.db.polls && p in Apply(env, s, e).db.polls
    ensures Apply(env, s, e).db.polls[p].status == s.db.polls[p].status
  {
  }

  /** Local polls are never refreshed, so for them the exact statement needs no condition. */
  ghost predicate LocalKept(s: System, p: PollId) {
    (p in s.db.polls ==> s.db.polls[p].status.Local?) ==> Kept(s, p, true)
  }

  lemma StepKeepsLocal(env: Instance, s: System, e: Event, p: PollId)
    requires Base(s) && LocalKept(s, p) && s.clock <= e.at
    ensures LocalKept(Apply(env, s, e), p)
  {
    var s' := Apply(env, s, e);
    if p !in s.db.polls || s.db.polls[p].status.Local? {
      assert !Collides(s, e.step, p);
      StepKeeps(env, s, e, p, true);
    } else if p in s'.db.polls {
      StatusKept(env, s, e, p);
    }
  }

  lemma {:induction false} RunKeepsLocal(env: Instance, s: System, events: seq<Event>, p: PollId)
    requires Base(s) && Kept(s, p, false) && LocalKept(s, p) && Timely(s.clock, events)
    ensures LocalKept(Run(env, s, events), p)
    decreases |events|
  {
    if events != [] {
      StepKeeps(env, s, events[0], p, false);
      StepKeepsLocal(env, s, events[0], p);
      RunKeepsLocal(env, Apply(env, s, events[0]), events[1..], p);
    }
  }
}
