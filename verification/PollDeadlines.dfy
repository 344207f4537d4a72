/**
 The expiration jobs as a protocol.

 An edit or a refresh leaves the job of the former deadline behind and requests one for the new
 deadline; requests are deduplicated against uncompleted jobs, including jobs a worker is just
 finishing. This module says what every state satisfies and that requests and votes keep it;
 `PollDeadlineRuns` does the same for the worker and for runs, `PollExpirations` draws the conclusions.
 */
module PollDeadlines {
  import opened Prelude
  import opened PollModel
  import opened PollRuns

  // ---------------------------------------------------------------- the queue itself

  ghost predicate UniqueKeys(jobs: seq<Job>) {
    forall i, j :: 0 <= i < j < |jobs| && !jobs[i].completed ==> !jobs[j].Holds(jobs[i].kind, jobs[i].poll, jobs[i].key)
  }

  /** A job never runs before the deadline it was requested for, and runs at it unless it failed. */
  ghost predicate WellTimed(job: Job) {
    match job.kind
    case PollExpiration => job.key <= job.runAfter && (job.attempts == 0 ==> job.runAfter == job.key)
    case PollUpdate => job.key == 0
  }

  ghost predicate ClaimsMatch(jobs: seq<Job>, claims: map<ClaimId, Claim>, clock: Time) {
    && (forall c :: c in claims ==> claims[c].job < |jobs|)
    && (forall c :: c in claims && jobs[claims[c].job].kind.PollExpiration? ==> jobs[claims[c].job].key <= clock)
    && (forall j :: 0 <= j < |jobs| && jobs[j].claim.Some? ==>
        jobs[j].claim.value in claims && claims[jobs[j].claim.value].job == j)
  }

  ghost predicate QueueInvariant(s: System) {
    && UniqueKeys(s.db.jobs)
    && (forall j :: 0 <= j < |s.db.jobs| ==> WellTimed(s.db.jobs[j]))
    && ClaimsMatch(s.db.jobs, s.claims, s.clock)
  }

  /** What enqueueing may do to the queue: append one well-timed job or hurry an update. */
  ghost predicate Grows(jobs: seq<Job>, jobs': seq<Job>) {
    && |jobs| <= |jobs'|
    && (forall i :: 0 <= i < |jobs| ==>
        jobs'[i] == jobs[i] || (jobs[i].kind.PollUpdate? && jobs'[i] == jobs[i].(runAfter := jobs'[i].runAfter)))
    && (forall i :: |jobs| <= i < |jobs'| ==> WellTimed(jobs'[i]) && jobs'[i].claim.None?)
    && (UniqueKeys(jobs) ==> UniqueKeys(jobs'))
  }

  lemma ExpirationGrows(jobs: seq<Job>, p: PollId, deadline: Time)
    ensures Grows(jobs, EnqueueExpiration(jobs, p, deadline))
  {
  }

  lemma UpdateGrows(jobs: seq<Job>, p: PollId, at: Time)
    ensures Grows(jobs, EnqueueUpdate(jobs, p, at))
  {
    var queued := Enqueue(jobs, PollUpdate, p, 0, at);
    var jobs' := EnqueueUpdate(jobs, p, at);
    assert UniqueKeys(jobs) ==> UniqueKeys(queued);
    if UniqueKeys(queued) {
      forall i, j | 0 <= i < j < |jobs'| && !jobs'[i].completed
        ensures !jobs'[j].Holds(jobs'[i].kind, jobs'[i].poll, jobs'[i].key)
      {
        assert !queued[j].Holds(queued[i].kind, queued[i].poll, queued[i].key);
      }
    }
  }

  lemma GrowthKeepsQueue(s: System, db': Db, now: Time)
    requires QueueInvariant(s) && Grows(s.db.jobs, db'.jobs) && s.clock <= now
    ensures QueueInvariant(System(db', s.claims, now))
  {
    var jobs, jobs' := s.db.jobs, db'.jobs;
    forall j | 0 <= j < |jobs'|
      ensures WellTimed(jobs'[j])
    {
      if j < |jobs| {
        assert WellTimed(jobs[j]);
      }
    }
  }

  // ---------------------------------------------------------------- what every state satisfies

  /** The deadline whose job is responsible for closing the poll. */
  function ExpirationKey(poll: Poll): Option<Time> {
    match poll.status
    case Local(_) => poll.expiresAt
    case Remote(_) => if poll.DueAt().Some? then Some(poll.DueAt().value + REMOTE_GRACE) else None
  }

  /** A local poll is closed exactly when it was notified, at or after its deadline. */
  ghost predicate LocalShape(poll: Poll, clock: Time) {
    && poll.expiresAt.Some?
    && (poll.closedAt.Some? <==> poll.notifiedAt.Some?)
    && (poll.closedAt.Some? ==>
        poll.closedAt == poll.expiresAt && poll.expiresAt.value <= poll.notifiedAt.value <= clock)
  }

  ghost predicate LocalShapes(s: System) {
    forall p :: p in s.db.polls && s.db.polls[p].status.Local? ==> LocalShape(s.db.polls[p], s.clock)
  }

  /** A worker has already run this job's handler and is only about to mark it completed. */
  ghost predicate Handled(s: System, j: nat)
    requires j < |s.db.jobs|
  {
    !s.db.jobs[j].completed && s.db.jobs[j].claim.Some? && s.db.jobs[j].claim.value in s.claims &&
    s.claims[s.db.jobs[j].claim.value].progress.Succeeded?
  }

  ghost predicate Awaited(s: System, p: PollId) {
    p in s.db.polls && s.db.polls[p].notifiedAt.None?
  }

  /** The poll's own job is not one that is about to be completed. */
  ghost predicate Guarded(s: System, p: PollId) {
    Awaited(s, p) ==>
      forall j ::
          0 <= j < |s.db.jobs| && Handled(s, j) && s.db.jobs[j].kind.PollExpiration? && s.db.jobs[j].poll == p ==>
        ExpirationKey(s.db.polls[p]) != Some(s.db.jobs[j].key)
  }

  /** An uncompleted job exists for the current deadline. */
  ghost predicate Covered(s: System, p: PollId) {
    Awaited(s, p) && ExpirationKey(s.db.polls[p]).Some? ==> HasJob(s.db.jobs, p, ExpirationKey(s.db.polls[p]).value)
  }

  ghost predicate HasJob(jobs: seq<Job>, p: PollId, key: Time) {
    exists j :: 0 <= j < |jobs| && jobs[j].Holds(PollExpiration, p, key)
  }

  /** A job of this poll whose handler has yet to run to success. */
  ghost predicate Ahead(s: System, p: PollId, j: nat) {
    j < |s.db.jobs| && !s.db.jobs[j].completed && s.db.jobs[j].kind.PollExpiration? && s.db.jobs[j].poll == p
        && !Handled(s, j)
  }

  /** Deadlines still in the future have their job, and an attempted job leaves another one ahead. */
  ghost predicate Remembered(s: System, p: PollId) {
    Awaited(s, p) ==>
      && (ExpirationKey(s.db.polls[p]).Some? && s.clock < ExpirationKey(s.db.polls[p]).value ==>
          HasJob(s.db.jobs, p, ExpirationKey(s.db.polls[p]).value))
      && ((exists j ::
          0 <= j < |s.db.jobs| && Handled(s, j) && s.db.jobs[j].kind.PollExpiration? && s.db.jobs[j].poll == p) ==>
            exists j :: Ahead(s, p, j))
      && (ExpirationKey(s.db.polls[p]).Some? ==> exists j :: Ahead(s, p, j))
  }

  // ---------------------------------------------------------------- transactions that leave the deadline alone

  /** The columns that decide when and whether the poll expires are as before. */
  ghost predicate DeadlineKept(db: Db, db': Db, p: PollId) {
    p in db'.polls ==>
      && p in db.polls
      && db'.polls[p].status == db.polls[p].status
      && db'.polls[p].expiresAt == db.polls[p].expiresAt
      && db'.polls[p].closedAt == db.polls[p].closedAt
      && db'.polls[p].notifiedAt == db.polls[p].notifiedAt
  }

  lemma GrowthKeepsHandled(s: System, s': System, j: nat)
    requires Grows(s.db.jobs, s'.db.jobs) && s'.claims == s.claims && j < |s'.db.jobs|
    ensures Handled(s', j) ==> j < |s.db.jobs| && Handled(s, j)
    ensures j < |s.db.jobs| && s.db.jobs[j].kind.PollExpiration? ==>
        s'.db.jobs[j] == s.db.jobs[j] && (Handled(s', j) <==> Handled(s, j))
  {
  }

  lemma KeptPoll(s: System, s': System, p: PollId)
    requires Grows(s.db.jobs, s'.db.jobs) && s'.claims == s.claims && s.clock <= s'.clock
        && DeadlineKept(s.db, s'.db, p)
    ensures Guarded(s, p) ==> Guarded(s', p)
    ensures Covered(s, p) ==> Covered(s', p)
    ensures Remembered(s, p) ==> Remembered(s', p)
  {
    forall j: nat | j < |s'.db.jobs|
      ensures Handled(s', j) ==> j < |s.db.jobs| && Handled(s, j)
      ensures j < |s.db.jobs| && s.db.jobs[j].kind.PollExpiration? ==>
          s'.db.jobs[j] == s.db.jobs[j] && (Handled(s', j) <==> Handled(s, j))
    {
      GrowthKeepsHandled(s, s', j);
    }
    if Awaited(s', p) {
      assert Awaited(s, p);
      var key := ExpirationKey(s.db.polls[p]);
      if key.Some? && HasJob(s.db.jobs, p, key.value) {
        var j :| 0 <= j < |s.db.jobs| && s.db.jobs[j].Holds(PollExpiration, p, key.value);
        assert s'.db.jobs[j].Holds(PollExpiration, p, key.value);
      }
      if exists j :: Ahead(s, p, j) {
        var j :| Ahead(s, p, j);
        assert Ahead(s', p, j);
      }
    }
  }

  // ---------------------------------------------------------------- transactions that set a deadline

  /** Setting a deadline requests its job, and is safe unless that job is one about to be completed. */
  lemma RearmedPoll(s: System, s': System, p: PollId, key: Time)
    requires QueueInvariant(s) && s'.claims == s.claims && s.clock <= s'.clock
    requires s'.db.jobs == EnqueueExpiration(s.db.jobs, p, key)
    requires p in s'.db.polls && ExpirationKey(s'.db.polls[p]) == Some(key)
    ensures Covered(s', p)
    ensures (forall j :: 0 <= j < |s.db.jobs| && Handled(s, j) ==> !s.db.jobs[j].Holds(PollExpiration, p, key)) ==>
        Guarded(s', p)
    ensures s.clock < key || NeverUsed(s.db, p) ==> Guarded(s', p) && Remembered(s', p)
    ensures Remembered(s, p) && (Awaited(s', p) ==> Awaited(s, p)) ==> Remembered(s', p)
  {
    ExpirationGrows(s.db.jobs, p, key);
    forall j: nat | j < |s'.db.jobs|
      ensures Handled(s', j) ==> j < |s.db.jobs| && Handled(s, j)
      ensures j < |s.db.jobs| && s.db.jobs[j].kind.PollExpiration? ==>
          s'.db.jobs[j] == s.db.jobs[j] && (Handled(s', j) <==> Handled(s, j))
    {
      GrowthKeepsHandled(s, s', j);
    }
    var j :| 0 <= j < |s'.db.jobs| && s'.db.jobs[j].Holds(PollExpiration, p, key);
    if Handled(s', j) {
      assert s.db.jobs[j].key <= s.clock;
      if Awaited(s, p) && Remembered(s, p) {
        var k :| Ahead(s, p, k);
        assert Ahead(s', p, k);
      }
    } else {
      assert Ahead(s', p, j);
    }
  }

  /** A remote poll without any deadline requests no job and needs none. */
  lemma DisarmedPoll(s: System, s': System, p: PollId)
    requires s'.claims == s.claims && s'.db.jobs == s.db.jobs
    requires p in s'.db.polls && ExpirationKey(s'.db.polls[p]).None?
    ensures Covered(s', p) && Guarded(s', p)
    ensures NeverUsed(s.db, p) ==> Remembered(s', p)
    ensures Remembered(s, p) && (Awaited(s', p) ==> Awaited(s, p)) ==> Remembered(s', p)
  {
    forall j: nat | j < |s'.db.jobs|
      ensures Handled(s', j) <==> Handled(s, j)
      ensures Ahead(s, p, j) ==> Ahead(s', p, j)
    {
    }
  }

  // ---------------------------------------------------------------- each kind of step

  /** Everything a single poll relies on, `exactly` when its job must be that of its deadline. */
  ghost predicate Kept(s: System, p: PollId, exactly: bool) {
    Remembered(s, p) && (exactly ==> Guarded(s, p) && Covered(s, p))
  }

  ghost predicate Base(s: System) {
    QueueInvariant(s) && LocalShapes(s)
  }

  /** A refresh asks for a job that a worker has run and is about to mark completed. */
  ghost predicate Collides(s: System, step: Step, p: PollId) {
    && step.Refresh?
    && PollFor(s.db, Remote(step.status)) == Some(p)
    && step.question.DueAt().Some?
    && exists j ::
        0 <= j < |s.db.jobs| && Handled(s, j)
          && s.db.jobs[j].Holds(PollExpiration, p, step.question.DueAt().value + REMOTE_GRACE)
  }

  lemma CreateStep(env: Instance, s: System, id: PollId, status: StatusId, input: NewPoll, now: Time, p: PollId,
      exactly: bool)
    requires Base(s) && Kept(s, p, exactly) && s.clock <= now && NeverUsed(s.db, id)
    ensures var s' := s.(db := Committed(s.db, CreateLocalPoll(env, s.db, id, status, input, now)), clock := now);
            Base(s') && Kept(s', p, exactly)
  {
    var r := CreateLocalPoll(env, s.db, id, status, input, now);
    var s' := s.(db := Committed(s.db, r), clock := now);
    if r.Ok? {
      ExpirationGrows(s.db.jobs, id, Deadline(input, now));
      if p == id {
        RearmedPoll(s, s', p, Deadline(input, now));
      } else {
        KeptPoll(s, s', p);
      }
    } else {
      KeptPoll(s, s', p);
    }
    GrowthKeepsQueue(s, s'.db, now);
  }

  lemma EditExistingStep(s: System, q: PollId, input: NewPoll, now: Time, p: PollId, exactly: bool)
    requires Base(s) && Kept(s, p, exactly) && s.clock <= now
    requires q in s.db.polls && s.db.polls[q].status.Local? && input.expiresIn >= MIN_POLL_EXPIRATION_SECONDS
    ensures var s' := s.(db := EditExistingPoll(s.db, q, input, now), clock := now);
            Base(s') && Kept(s', p, exactly)
  {
    var s' := s.(db := EditExistingPoll(s.db, q, input, now), clock := now);
    ExpirationGrows(s.db.jobs, q, Deadline(input, now));
    if p == q {
      RearmedPoll(s, s', p, Deadline(input, now));
    } else {
      KeptPoll(s, s', p);
    }
    GrowthKeepsQueue(s, s'.db, now);
  }

  lemma EditStep(env: Instance, s: System, freshId: PollId, status: StatusId, input: Option<NewPoll>, now: Time,
      p: PollId, exactly: bool)
    requires Base(s) && Kept(s, p, exactly) && s.clock <= now && NeverUsed(s.db, freshId)
    ensures var s' := s.(db := Committed(s.db, EditLocalPoll(env, s.db, freshId, status, input, now)), clock := now);
            Base(s') && Kept(s', p, exactly)
  {
    var r := EditLocalPoll(env, s.db, freshId, status, input, now);
    var s' := s.(db := Committed(s.db, r), clock := now);
    var existing := PollFor(s.db, Local(status));
    if r.Ok? && input.Some? && existing.Some? {
      EditExistingStep(s, existing.value, input.value, now, p, exactly);
    } else if input.Some? && existing.None? {
      CreateStep(env, s, freshId, status, input.value, now, p, exactly);
    } else {
      KeptPoll(s, s', p);
      GrowthKeepsQueue(s, s'.db, now);
    }
  }

  lemma ShapesSet(s: System, s': System, q: PollId, poll: Poll)
    requires LocalShapes(s) && s.clock <= s'.clock && s'.db.polls == s.db.polls[q := poll]
    requires poll.status.Local? ==> LocalShape(poll, s'.clock)
    ensures LocalShapes(s')
  {
  }

  /** A refresh writes one remote poll and requests the job of its deadline, if it has one. */
  lemma RemoteRowStep(s: System, s': System, q: PollId, poll: Poll, input: RemotePoll, p: PollId, exactly: bool)
    requires Base(s) && Kept(s, p, exactly) && s.clock <= s'.clock && s'.claims == s.claims
    requires s'.db.polls == s.db.polls[q := poll] && s'.db.jobs == EnqueueRemoteDeadline(s.db.jobs, q, input)
    requires poll.status.Remote? && poll.DueAt() == input.DueAt()
    requires NeverUsed(s.db, q) || (q in s.db.polls && poll.notifiedAt == s.db.polls[q].notifiedAt)
    requires exactly && p == q && input.DueAt().Some? ==>
      forall j :: 0 <= j < |s.db.jobs| && Handled(s, j) ==>
          !s.db.jobs[j].Holds(PollExpiration, p, input.DueAt().value + REMOTE_GRACE)
    ensures Base(s') && Kept(s', p, exactly)
  {
    ShapesSet(s, s', q, poll);
    if input.DueAt().Some? {
      ExpirationGrows(s.db.jobs, q, input.DueAt().value + REMOTE_GRACE);
    }
    GrowthKeepsQueue(s, s'.db, s'.clock);
    if p != q {
      KeptPoll(s, s', p);
    } else if input.DueAt().Some? {
      RearmedPoll(s, s', p, input.DueAt().value + REMOTE_GRACE);
    } else {
      DisarmedPoll(s, s', p);
    }
  }

  lemma RefreshStep(s: System, freshId: PollId, status: StatusId, input: RemotePoll, now: Time, p: PollId,
      exactly: bool)
    requires Base(s) && Kept(s, p, exactly) && s.clock <= now && NeverUsed(s.db, freshId)
    requires exactly ==> !Collides(s, Refresh(freshId, status, input), p)
    ensures var s' := s.(db := Committed(s.db, RefreshRemotePoll(s.db, freshId, status, input, now)), clock := now);
            Base(s') && Kept(s', p, exactly)
  {
    var r := RefreshRemotePoll(s.db, freshId, status, input, now);
    var s' := s.(db := Committed(s.db, r), clock := now);
    var existing := PollFor(s.db, Remote(status));
    if r.Err? {
      KeptPoll(s, s', p);
      GrowthKeepsQueue(s, s'.db, now);
    } else if existing.Some? {
      RemoteRowStep(s, s', existing.value, r.value.polls[existing.value], input, p, exactly);
    } else {
      RemoteRowStep(s, s', freshId, r.value.polls[freshId], input, p, exactly);
    }
  }

  lemma VoteLeavesDeadlines(db: Db, q: PollId, voter: Voter, choices: seq<U32>, activity: Option<ActivityId>, now: Time)
    ensures var db' := VoteStep(db, q, voter, choices, activity, now);
            Grows(db.jobs, db'.jobs) && db'.polls.Keys == db.polls.Keys && forall p :: DeadlineKept(db, db', p)
  {
    if VoteRejection(db, q, voter, choices, activity, now).None? {
      RecordLeavesDeadlines(db, q, voter, Positions(choices), activity, now);
      UpdateGrows(db.jobs, q, now + UPDATE_DELAY);
    }
  }

  lemma RecordLeavesDeadlines(db: Db, q: PollId, voter: Voter, positions: set<int>, activity: Option<ActivityId>,
      now: Time)
    requires q in db.polls
    ensures RecordVote(db, q, voter, positions, activity, now).jobs == db.jobs
    ensures RecordVote(db, q, voter, positions, activity, now).polls.Keys == db.polls.Keys
    ensures forall p :: DeadlineKept(db, RecordVote(db, q, voter, positions, activity, now), p)
  {
  }

  lemma ShapesKept(s: System, s': System)
    requires LocalShapes(s) && s.clock <= s'.clock && forall p :: DeadlineKept(s.db, s'.db, p)
    ensures LocalShapes(s')
  {
    forall p | p in s'.db.polls && s'.db.polls[p].status.Local?
      ensures LocalShape(s'.db.polls[p], s'.clock)
    {
      assert DeadlineKept(s.db, s'.db, p);
    }
  }

  lemma VoteStepKeeps(s: System, q: PollId, voter: Voter, choices: seq<U32>, activity: Option<ActivityId>, now: Time,
      p: PollId, exactly: bool)
    requires Base(s) && Kept(s, p, exactly) && s.clock <= now
    ensures var s' := s.(db := VoteStep(s.db, q, voter, choices, activity, now), clock := now);
            Base(s') && Kept(s', p, exactly)
  {
    var s' := s.(db := VoteStep(s.db, q, voter, choices, activity, now), clock := now);
    VoteLeavesDeadlines(s.db, q, voter, choices, activity, now);
    KeptPoll(s, s', p);
    ShapesKept(s, s');
    GrowthKeepsQueue(s, s'.db, now);
  }
}
