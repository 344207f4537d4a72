/**
 How late an expiration can be.

 `PollExpirations.NoDeadlineForgotten` promises some job ahead for a poll with a deadline. That job may
 be one requested for an earlier deadline, or one that failed before. Here is when it is due at the
 latest: by the latest deadline the poll ever had, or within an hour of any moment it is looked at.
 */
module PollLateness {
  import opened Prelude
  import opened Ordering
  import opened PollModel
  import opened PollRuns
  import opened PollDeadlines
  import opened PollExpirations

  const LONGEST_RETRY: int := 3_600_000_000

  // ---------------------------------------------------------------- which deadlines jobs are for

  /** Keys of all expiration jobs of the poll, completed or not. */
  ghost function JobKeys(jobs: seq<Job>, p: PollId): set<Time> {
    set job | job in jobs && job.kind.PollExpiration? && job.poll == p :: job.key
  }

  /** The key of the poll's deadline at this moment, if it has one. */
  ghost function KeyNow(s: System, p: PollId): set<Time> {
    if p in s.db.polls && ExpirationKey(s.db.polls[p]).Some? then {ExpirationKey(s.db.polls[p]).value} else {}
  }

  /** The keys of all deadlines the poll has had, before the run and after each of its events. */
  ghost function DeadlinesHeld(env: Instance, s: System, events: seq<Event>, p: PollId): set<Time>
    decreases |events|
  {
    if events == [] then KeyNow(s, p) else KeyNow(s, p) + DeadlinesHeld(env, Apply(env, s, events[0]), events[1..], p)
  }

  lemma EnqueuedKey(jobs: seq<Job>, q: PollId, deadline: Time, p: PollId)
    ensures JobKeys(EnqueueExpiration(jobs, q, deadline), p) <= JobKeys(jobs, p) + if q == p then {deadline} else {}
  {
  }

  lemma UpdateKeys(jobs: seq<Job>, q: PollId, at: Time, p: PollId)
    ensures JobKeys(EnqueueUpdate(jobs, q, at), p) <= JobKeys(jobs, p)
  {
    var queued := Enqueue(jobs, PollUpdate, q, 0, at);
    var jobs' := EnqueueUpdate(jobs, q, at);
    forall job | job in jobs' && job.kind.PollExpiration? && job.poll == p
      ensures job.key in JobKeys(jobs, p)
    {
      var i :| 0 <= i < |jobs'| && jobs'[i] == job;
      assert queued[i] == job;
      assert job in jobs;
    }
  }

  lemma ReplacedJobKeys(jobs: seq<Job>, j: nat, job: Job, p: PollId)
    requires j < |jobs| && job.kind == jobs[j].kind && job.poll == jobs[j].poll && job.key == jobs[j].key
    ensures JobKeys(jobs[j := job], p) <= JobKeys(jobs, p)
  {
    forall x | x in jobs[j := job] && x.kind.PollExpiration? && x.poll == p
      ensures x.key in JobKeys(jobs, p)
    {
      assert x == job ==> jobs[j] in jobs;
      assert x != job ==> x in jobs;
    }
  }

  lemma CreateKeys(env: Instance, s: System, id: PollId, status: StatusId, input: NewPoll, now: Time, p: PollId)
    ensures var s' := s.(db := Committed(s.db, CreateLocalPoll(env, s.db, id, status, input, now)));
            JobKeys(s'.db.jobs, p) <= JobKeys(s.db.jobs, p) + KeyNow(s', p)
  {
    EnqueuedKey(s.db.jobs, id, Deadline(input, now), p);
  }

  lemma EditExistingKeys(s: System, q: PollId, input: NewPoll, now: Time, p: PollId)
    requires q in s.db.polls && s.db.polls[q].status.Local?
    ensures var s' := s.(db := EditExistingPoll(s.db, q, input, now));
            JobKeys(s'.db.jobs, p) <= JobKeys(s.db.jobs, p) + KeyNow(s', p)
  {
    EnqueuedKey(s.db.jobs, q, Deadline(input, now), p);
  }

  lemma EditKeys(env: Instance, s: System, freshId: PollId, status: StatusId, input: Option<NewPoll>, now: Time,
      p: PollId)
    ensures var s' := s.(db := Committed(s.db, EditLocalPoll(env, s.db, freshId, status, input, now)));
            JobKeys(s'.db.jobs, p) <= JobKeys(s.db.jobs, p) + KeyNow(s', p)
  {
    var existing := PollFor(s.db, Local(status));
    if input.Some? && existing.Some? {
      EditExistingKeys(s, existing.value, input.value, now, p);
    } else if input.Some? {
      CreateKeys(env, s, freshId, status, input.value, now, p);
    }
  }

  lemma RefreshKeys(s: System, freshId: PollId, status: StatusId, input: RemotePoll, now: Time, p: PollId)
    ensures var s' := s.(db := Committed(s.db, RefreshRemotePoll(s.db, freshId, status, input, now)));
            JobKeys(s'.db.jobs, p) <= JobKeys(s.db.jobs, p) + KeyNow(s', p)
  {
    if RefreshRemotePoll(s.db, freshId, status, input, now).Ok? {
      var existing := PollFor(s.db, Remote(status));
      var q := if existing.Some? then existing.value else freshId;
      RefreshedDeadline(s.db, freshId, status, input, now, q);
      StoredKey(s, s.(db := RefreshRemotePoll(s.db, freshId, status, input, now).value), input, q, p);
    }
  }

  /** The key of the job that a stored question asks for is the poll's own. */
  lemma StoredKey(s: System, s': System, input: RemotePoll, q: PollId, p: PollId)
    requires s'.db.jobs == EnqueueRemoteDeadline(s.db.jobs, q, input)
    requires q in s'.db.polls && s'.db.polls[q].status.Remote?
    requires s'.db.polls[q].closedAt == input.closedAt && s'.db.polls[q].expiresAt == input.expiresAt
    ensures JobKeys(s'.db.jobs, p) <= JobKeys(s.db.jobs, p) + KeyNow(s', p)
  {
    if input.DueAt().Some? {
      EnqueuedKey(s.db.jobs, q, input.DueAt().value + REMOTE_GRACE, p);
    }
  }

  /** A refresh requests the job of the deadline it stores. */
  lemma RefreshedDeadline(db: Db, freshId: PollId, status: StatusId, input: RemotePoll, now: Time, q: PollId)
    requires RefreshRemotePoll(db, freshId, status, input, now).Ok?
    requires var existing := PollFor(db, Remote(status)); q == if existing.Some? then existing.value else freshId
    ensures var db' := RefreshRemotePoll(db, freshId, status, input, now).value;
            && db'.jobs == EnqueueRemoteDeadline(db.jobs, q, input)
            && q in db'.polls && db'.polls[q].status.Remote?
            && db'.polls[q].closedAt == input.closedAt && db'.polls[q].expiresAt == input.expiresAt
  {
  }

  lemma VoteKeys(db: Db, q: PollId, voter: Voter, choices: seq<U32>, activity: Option<ActivityId>, now: Time, p: PollId)
    ensures JobKeys(VoteStep(db, q, voter, choices, activity, now).jobs, p) <= JobKeys(db.jobs, p)
  {
    UpdateKeys(db.jobs, q, now + UPDATE_DELAY, p);
  }

  lemma ExpireKeys(env: Instance, db: Db, q: PollId, now: Time, p: PollId)
    ensures JobKeys(ExpireStep(env, db, q, now).0.jobs, p) <= JobKeys(db.jobs, p)
  {
    UpdateKeys(db.jobs, q, now, p);
  }

  lemma WorkerKeys(env: Instance, s: System, e: Event, p: PollId)
    requires e.step.ClaimJob? || e.step.RunHandler? || e.step.Finish?
    ensures JobKeys(Apply(env, s, e).db.jobs, p) <= JobKeys(s.db.jobs, p)
  {
    match e.step
    case ClaimJob(j, c) =>
      if Claimable(s, j, c, e.at) {
        ReplacedJobKeys(s.db.jobs, j, s.db.jobs[j].(claim := Some(c)), p);
      }
    case RunHandler(c, _) =>
      if c in s.claims && s.claims[c].job < |s.db.jobs| {
        ExpireKeys(env, s.db, s.db.jobs[s.claims[c].job].poll, e.at, p);
      }
    case Finish(c) =>
      if c in s.claims && s.claims[c].job < |s.db.jobs| {
        ReplacedJobKeys(s.db.jobs, s.claims[c].job, Finished(s.db.jobs[s.claims[c].job], s.claims[c].progress, e.at),
            p);
      }
  }

  /** A new expiration job of a poll is for the deadline the poll has just received. */
  lemma StepKeys(env: Instance, s: System, e: Event, p: PollId)
    ensures JobKeys(Apply(env, s, e).db.jobs, p) <= JobKeys(s.db.jobs, p) + KeyNow(Apply(env, s, e), p)
  {
    match e.step
    case Create(id, status, input) => CreateKeys(env, s, id, status, input, e.at, p);
    case Edit(freshId, status, input) => EditKeys(env, s, freshId, status, input, e.at, p);
    case Refresh(freshId, status, input) => RefreshKeys(s, freshId, status, input, e.at, p);
    case VoteLocally(q, account, choices) => VoteKeys(s.db, q, LocalVoter(account), choices, None, e.at, p);
    case VoteRemotely(q, actor, choice, activity) =>
        VoteKeys(s.db, q, RemoteVoter(actor), [choice], Some(activity), e.at, p);
    case DeleteNotices(_) =>
    case _ => WorkerKeys(env, s, e, p);
  }

  /** Every expiration job was requested for a deadline the poll had at the time. */
  lemma {:induction false} JobsAreForDeadlinesHeld(env: Instance, s: System, events: seq<Event>, p: PollId)
    ensures JobKeys(Run(env, s, events).db.jobs, p) <= JobKeys(s.db.jobs, p) + DeadlinesHeld(env, s, events, p)
    decreases |events|
  {
    if events != [] {
      var s1 := Apply(env, s, events[0]);
      StepKeys(env, s, events[0], p);
      JobsAreForDeadlinesHeld(env, s1, events[1..], p);
      HeldFirst(env, s1, events[1..], p);
    }
  }

  lemma HeldFirst(env: Instance, s: System, events: seq<Event>, p: PollId)
    ensures KeyNow(s, p) <= DeadlinesHeld(env, s, events, p)
  {
  }

  // ---------------------------------------------------------------- how long retries can take

  /** Due when its deadline comes, or within the longest retry delay from now. */
  predicate SoonEnough(job: Job, clock: Time) {
    job.kind.PollExpiration? ==> job.runAfter <= job.key || job.runAfter <= clock + LONGEST_RETRY
  }

  ghost predicate AllSoonEnough(jobs: seq<Job>, clock: Time) {
    forall j :: 0 <= j < |jobs| ==> SoonEnough(jobs[j], clock)
  }

  lemma EnqueuedSoonEnough(jobs: seq<Job>, q: PollId, deadline: Time, clock: Time, now: Time)
    requires AllSoonEnough(jobs, clock) && clock <= now
    ensures AllSoonEnough(jobs, now)
    ensures AllSoonEnough(EnqueueExpiration(jobs, q, deadline), now)
    ensures AllSoonEnough(EnqueueUpdate(jobs, q, deadline), now)
  {
    forall j | 0 <= j < |jobs|
      ensures SoonEnough(jobs[j], now)
    {
      assert SoonEnough(jobs[j], clock);
    }
    var queued := Enqueue(jobs, PollUpdate, q, 0, deadline);
    assert AllSoonEnough(queued, now);
  }

  lemma RequestSoonEnough(env: Instance, s: System, e: Event)
    requires AllSoonEnough(s.db.jobs, s.clock) && s.clock <= e.at
    requires e.step.Create? || e.step.Edit? || e.step.Refresh? || e.step.DeleteNotices?
    ensures AllSoonEnough(Apply(env, s, e).db.jobs, e.at)
  {
    RequestedJobs(env, s, e);
    var jobs' := Apply(env, s, e).db.jobs;
    if q, deadline :| jobs' == EnqueueExpiration(s.db.jobs, q, deadline) {
      EnqueuedSoonEnough(s.db.jobs, q, deadline, s.clock, e.at);
    } else {
      EnqueuedSoonEnough(s.db.jobs, 0, 0, s.clock, e.at);
    }
  }

  /** A request other than a vote asks for one expiration at most. */
  lemma RequestedJobs(env: Instance, s: System, e: Event)
    requires e.step.Create? || e.step.Edit? || e.step.Refresh? || e.step.DeleteNotices?
    ensures var jobs' := Apply(env, s, e).db.jobs;
            jobs' == s.db.jobs || exists q, deadline :: jobs' == EnqueueExpiration(s.db.jobs, q, deadline)
  {
  }

  lemma VoteSoonEnough(env: Instance, s: System, e: Event)
    requires AllSoonEnough(s.db.jobs, s.clock) && s.clock <= e.at
    requires e.step.VoteLocally? || e.step.VoteRemotely?
    ensures AllSoonEnough(Apply(env, s, e).db.jobs, e.at)
  {
    EnqueuedSoonEnough(s.db.jobs, e.step.poll, e.at + UPDATE_DELAY, s.clock, e.at);
  }

  lemma FinishSoonEnough(s: System, c: ClaimId, now: Time)
    requires AllSoonEnough(s.db.jobs, now)
    ensures AllSoonEnough(FinishStep(s, c, now).db.jobs, now)
  {
  }

  lemma HandlerSoonEnough(env: Instance, s: System, c: ClaimId, fails: bool, now: Time)
    requires AllSoonEnough(s.db.jobs, now)
    ensures AllSoonEnough(HandlerStep(env, s, c, fails, now).db.jobs, now)
  {
    if c in s.claims && s.claims[c].job < |s.db.jobs| {
      EnqueuedSoonEnough(s.db.jobs, s.db.jobs[s.claims[c].job].poll, now, now, now);
    }
  }

  lemma WorkerSoonEnough(env: Instance, s: System, e: Event)
    requires AllSoonEnough(s.db.jobs, s.clock) && s.clock <= e.at
    requires e.step.ClaimJob? || e.step.RunHandler? || e.step.Finish?
    ensures AllSoonEnough(Apply(env, s, e).db.jobs, e.at)
  {
    EnqueuedSoonEnough(s.db.jobs, 0, 0, s.clock, e.at);
    match e.step
    case RunHandler(c, fails) => HandlerSoonEnough(env, s, c, fails, e.at);
    case Finish(c) => FinishSoonEnough(s, c, e.at);
    case _ =>
  }

  lemma StepSoonEnough(env: Instance, s: System, e: Event)
    requires AllSoonEnough(s.db.jobs, s.clock) && s.clock <= e.at
    ensures AllSoonEnough(Apply(env, s, e).db.jobs, Apply(env, s, e).clock)
  {
    if e.step.VoteLocally? || e.step.VoteRemotely? {
      VoteSoonEnough(env, s, e);
    } else if e.step.ClaimJob? || e.step.RunHandler? || e.step.Finish? {
      WorkerSoonEnough(env, s, e);
    } else {
      RequestSoonEnough(env, s, e);
    }
  }

  lemma {:induction false} RunSoonEnough(env: Instance, s: System, events: seq<Event>)
    requires AllSoonEnough(s.db.jobs, s.clock) && Timely(s.clock, events)
    ensures AllSoonEnough(Run(env, s, events).db.jobs, Run(env, s, events).clock)
    decreases |events|
  {
    if events != [] {
      StepSoonEnough(env, s, events[0]);
      RunSoonEnough(env, Apply(env, s, events[0]), events[1..]);
    }
  }

  // ---------------------------------------------------------------- the bound

  /**
   In every run, a poll with a deadline that was not notified has a job whose handler lies ahead and
   that is due no later than the latest deadline the poll has had, or else, while attempts fail,
   within an hour from now. This holds for remote polls after a collision, too.
   */
  lemma ExpirationIsNotLate(env: Instance, clock: Time, events: seq<Event>, p: PollId)
    requires Timely(clock, events)
    ensures var s := Run(env, Start(clock), events);
            var held := DeadlinesHeld(env, Start(clock), events, p);
            Awaited(s, p) && ExpirationKey(s.db.polls[p]).Some? ==>
              && held != {}
              && exists j: nat :: Ahead(s, p, j) && s.db.jobs[j].key in held
                    && (s.db.jobs[j].runAfter <= Greatest(held) || s.db.jobs[j].runAfter <= s.clock + LONGEST_RETRY)
  {
    var s := Run(env, Start(clock), events);
    NoDeadlineForgotten(env, clock, events, p);
    JobsAreForDeadlinesHeld(env, Start(clock), events, p);
    RunSoonEnough(env, Start(clock), events);
    if Awaited(s, p) && ExpirationKey(s.db.polls[p]).Some? {
      var j: nat :| Ahead(s, p, j);
      assert s.db.jobs[j] in s.db.jobs && s.db.jobs[j].key in JobKeys(s.db.jobs, p);
      assert SoonEnough(s.db.jobs[j], s.clock);
    }
  }
}
