/**
 Tally updates to other servers are coalesced into one job per poll.

 The first part treats the queue alone, as a sequence of requests and completions, and compares it
 with the plain history. The second part places the requests in the system's runs.
 */
module PollUpdates {
  import opened Prelude
  import opened PollModel
  import opened PollRuns
  import opened PollDeadlines
  import opened PollDeadlineRuns

  datatype UpdateEvent = Request(poll: PollId, at: Time) | Complete(poll: PollId)

  ghost predicate Pending(job: Job, p: PollId) {
    job.Holds(PollUpdate, p, 0)
  }

  function CompleteUpdate(jobs: seq<Job>, p: PollId): (r: seq<Job>)
    ensures |r| == |jobs|
  {
    seq(|jobs|, i requires 0 <= i < |jobs| => if jobs[i].Holds(PollUpdate, p, 0) then jobs[i].(completed := true)
        else jobs[i])
  }

  ghost function Queue(events: seq<UpdateEvent>): seq<Job> {
    if events == [] then []
    else
      var jobs := Queue(events[..|events| - 1]);
      match events[|events| - 1]
      case Request(p, at) => EnqueueUpdate(jobs, p, at)
      case Complete(p) => CompleteUpdate(jobs, p)
  }

  /** The times requested for a poll since its last completion. */
  ghost function Requested(events: seq<UpdateEvent>, p: PollId): seq<Time> {
    if events == [] then []
    else
      var before := Requested(events[..|events| - 1], p);
      match events[|events| - 1]
      case Request(q, at) => if q == p then before + [at] else before
      case Complete(q) => if q == p then [] else before
  }

  ghost predicate IsMinimum(t: Time, times: seq<Time>) {
    t in times && forall u :: u in times ==> t <= u
  }

  /** No request: no pending job. Otherwise one pending job, due at the earliest time requested. */
  ghost predicate Coalesced(jobs: seq<Job>, p: PollId, times: seq<Time>) {
    && (times == [] ==> forall i :: 0 <= i < |jobs| ==> !Pending(jobs[i], p))
    && (times != [] ==> exists i :: 0 <= i < |jobs| && Pending(jobs[i], p) && IsMinimum(jobs[i].runAfter, times))
    && (forall i, j :: 0 <= i < j < |jobs| && Pending(jobs[i], p) ==> !Pending(jobs[j], p))
  }

  lemma RequestCoalesces(jobs: seq<Job>, q: PollId, at: Time, p: PollId, times: seq<Time>)
    requires Coalesced(jobs, p, times)
    ensures Coalesced(EnqueueUpdate(jobs, q, at), p, if q == p then times + [at] else times)
  {
    var queued := Enqueue(jobs, PollUpdate, q, 0, at);
    var r := EnqueueUpdate(jobs, q, at);
    assert forall i :: 0 <= i < |r| ==> (Pending(r[i], p) <==> Pending(queued[i], p));
    if times != [] {
      var i :| 0 <= i < |jobs| && Pending(jobs[i], p) && IsMinimum(jobs[i].runAfter, times);
      assert Pending(r[i], p);
      if q == p {
        assert r[i].runAfter == Min(jobs[i].runAfter, at);
        assert IsMinimum(r[i].runAfter, times + [at]);
      }
    } else if q == p {
      assert Pending(r[|jobs|], p) && r[|jobs|].runAfter == at;
      assert IsMinimum(at, [at]) && times + [at] == [at];
    }
  }

  lemma CompletionCoalesces(jobs: seq<Job>, q: PollId, p: PollId, times: seq<Time>)
    requires Coalesced(jobs, p, times)
    ensures Coalesced(CompleteUpdate(jobs, q), p, if q == p then [] else times)
  {
    var r := CompleteUpdate(jobs, q);
    if times != [] && q != p {
      var i :| 0 <= i < |jobs| && Pending(jobs[i], p) && IsMinimum(jobs[i].runAfter, times);
      assert Pending(r[i], p);
    }
    if q != p {
      assert forall i :: 0 <= i < |r| ==> (Pending(r[i], p) <==> Pending(jobs[i], p));
    }
  }

  /**
   Over every history there is at most one uncompleted update job per poll, there is one exactly when
   a request came since the last completion, and it is due at the earliest of those requests.
   */
  lemma {:induction false} UpdatesCoalesce(events: seq<UpdateEvent>, p: PollId)
    ensures Coalesced(Queue(events), p, Requested(events, p))
    decreases |events|
  {
    if events != [] {
      UpdatesCoalesce(events[..|events| - 1], p);
      var jobs, times := Queue(events[..|events| - 1]), Requested(events[..|events| - 1], p);
      match events[|events| - 1]
      case Request(q, at) => RequestCoalesces(jobs, q, at, p, times);
      case Complete(q) => CompletionCoalesces(jobs, q, p, times);
    }
  }

  // ---------------------------------------------------------------- in the system

  ghost predicate UpdatePending(db: Db, p: PollId, latest: Time) {
    exists i :: 0 <= i < |db.jobs| && Pending(db.jobs[i], p) && db.jobs[i].runAfter <= latest
  }

  /** A committed vote on a local poll with visible totals leaves an update due within three minutes. */
  lemma VoteLeavesUpdate(db: Db, p: PollId, voter: Voter, choices: seq<U32>, activity: Option<ActivityId>, now: Time)
    requires CastVote(db, p, voter, choices, activity, now).Ok? && db.polls[p].status.Local? && !db.polls[p].hideTotals
    ensures UpdatePending(VoteStep(db, p, voter, choices, activity, now), p, now + UPDATE_DELAY)
  {
  }

  /** So does the expiry of a local poll, at once and even when its totals were hidden. */
  lemma ExpiryLeavesUpdate(env: Instance, db: Db, p: PollId, now: Time)
    requires p in db.polls && db.polls[p].status.Local? && db.polls[p].notifiedAt.None?
        && ExpireStep(env, db, p, now).0.polls[p].notifiedAt.Some?
    ensures UpdatePending(ExpireStep(env, db, p, now).0, p, now)
  {
  }

  /** In every run at most one uncompleted update job exists per poll. */
  lemma OneUpdatePerPoll(env: Instance, clock: Time, events: seq<Event>, p: PollId)
    requires Timely(clock, events)
    ensures var jobs := Run(env, Start(clock), events).db.jobs;
            forall i, j :: 0 <= i < j < |jobs| && Pending(jobs[i], p) ==> !Pending(jobs[j], p)
  {
    RunKeeps(env, Start(clock), events, p, false);
    var jobs := Run(env, Start(clock), events).db.jobs;
    forall i, j | 0 <= i < j < |jobs| && Pending(jobs[i], p)
      ensures !Pending(jobs[j], p)
    {
      assert !jobs[j].Holds(jobs[i].kind, jobs[i].poll, jobs[i].key);
    }
  }

  ghost predicate AnyPending(jobs: seq<Job>, p: PollId) {
    exists i :: 0 <= i < |jobs| && Pending(jobs[i], p)
  }

  /** A worker has already run the poll's update job and is about to complete it. */
  ghost predicate Absorbing(s: System, p: PollId) {
    exists j: nat :: j < |s.db.jobs| && Handled(s, j) && Pending(s.db.jobs[j], p)
  }

  /**
   An announced vote can still be lost: its request is absorbed by a job that a worker has already
   run and is about to complete. That is the only way, so the condition below is exact.
   */
  lemma AnnouncementKeptIff(s: System, p: PollId, voter: Voter, choices: seq<U32>, activity: Option<ActivityId>,
      now: Time)
    requires Base(s) && s.clock <= now
    requires CastVote(s.db, p, voter, choices, activity, now).Ok? && s.db.polls[p].status.Local?
        && !s.db.polls[p].hideTotals
    ensures var s' := System(VoteStep(s.db, p, voter, choices, activity, now), s.claims, now);
            (forall c :: AnyPending(FinishStep(s', c, now).db.jobs, p)) <==> !Absorbing(s, p)
  {
    var db' := VoteStep(s.db, p, voter, choices, activity, now);
    assert db'.jobs == EnqueueUpdate(s.db.jobs, p, now + UPDATE_DELAY);
    RequestKeptIff(s, System(db', s.claims, now), p, now + UPDATE_DELAY);
  }

  lemma RequestKeptIff(s: System, s': System, p: PollId, at: Time)
    requires QueueInvariant(s) && s.clock <= s'.clock && s'.claims == s.claims
        && s'.db.jobs == EnqueueUpdate(s.db.jobs, p, at)
    ensures (forall c :: AnyPending(FinishStep(s', c, s'.clock).db.jobs, p)) <==> !Absorbing(s, p)
  {
    UpdateGrows(s.db.jobs, p, at);
    GrowthKeepsQueue(s, s'.db, s'.clock);
    assert s' == System(s'.db, s.claims, s'.clock);
    if Absorbing(s, p) {
      var j: nat :| j < |s.db.jobs| && Handled(s, j) && Pending(s.db.jobs[j], p);
      LostAnnouncement(s, s', p, j);
      assert !AnyPending(FinishStep(s', s.db.jobs[j].claim.value, s'.clock).db.jobs, p);
    } else {
      forall c
        ensures AnyPending(FinishStep(s', c, s'.clock).db.jobs, p)
      {
        KeptAnnouncement(s, s', p, c);
      }
    }
  }

  lemma KeptAnnouncement(s: System, s': System, p: PollId, c: ClaimId)
    requires Grows(s.db.jobs, s'.db.jobs) && s'.claims == s.claims && !Absorbing(s, p) && AnyPending(s'.db.jobs, p)
    ensures AnyPending(FinishStep(s', c, s'.clock).db.jobs, p)
  {
    var i: nat :| i < |s'.db.jobs| && Pending(s'.db.jobs[i], p);
    assert !Handled(s', i) by {
      if i < |s.db.jobs| {
        assert Pending(s.db.jobs[i], p) && !Handled(s, i);
      }
    }
    assert Pending(FinishStep(s', c, s'.clock).db.jobs[i], p);
  }

  lemma LostAnnouncement(s: System, s': System, p: PollId, j: nat)
    requires QueueInvariant(s') && j < |s.db.jobs| && Handled(s, j) && Pending(s.db.jobs[j], p) && s'.claims == s.claims
    requires Grows(s.db.jobs, s'.db.jobs)
    ensures s.db.jobs[j].claim.Some?
    ensures var jobs := FinishStep(s', s.db.jobs[j].claim.value, s'.clock).db.jobs;
            forall i :: 0 <= i < |jobs| ==> !Pending(jobs[i], p)
  {
    var jobs := FinishStep(s', s.db.jobs[j].claim.value, s'.clock).db.jobs;
    forall i | 0 <= i < |jobs|
      ensures !Pending(jobs[i], p)
    {
      if i < j {
        assert !s'.db.jobs[i].completed ==>
            !s'.db.jobs[j].Holds(s'.db.jobs[i].kind, s'.db.jobs[i].poll, s'.db.jobs[i].key);
      } else if i > j {
        assert !s'.db.jobs[i].Holds(s'.db.jobs[j].kind, s'.db.jobs[j].poll, s'.db.jobs[j].key);
      }
    }
  }
}
