/**
 What every event of a run does: requests commit the effects of `PollEffects` and leave the right
 announcement behind, and workers move a job and its claim field by field.
 */
module PollEvents {
  import opened Prelude
  import opened PollModel
  import opened PollFrames
  import opened PollRuns
  import opened PollTally
  import opened PollEffects

  // ---------------------------------------------------------------- announcements

  predicate UpdatePendingAt(job: Job, p: PollId) {
    Uncompleted(job, PollUpdate, p, 0)
  }

  /** A pending update comes forward when it would be later than `at`; without one a new job is added. */
  predicate UpdateAsked(jobs: seq<Job>, jobs': seq<Job>, p: PollId, at: Time) {
    if Requested(jobs, PollUpdate, p, 0) then
      && |jobs'| == |jobs|
      && forall i :: 0 <= i < |jobs| ==>
          jobs'[i] == if UpdatePendingAt(jobs[i], p) && at < jobs[i].runAfter
            then jobs[i].(runAfter := at) else jobs[i]
    else
      jobs' == jobs + [Job(kind := PollUpdate, poll := p, key := 0, runAfter := at,
          attempts := 0, completed := false, claim := None)]
  }

  lemma UpdateIsAsked(jobs: seq<Job>, p: PollId, at: Time)
    ensures UpdateAsked(jobs, EnqueueUpdate(jobs, p, at), p, at)
  {
    EnqueueAsks(jobs, PollUpdate, p, 0, at);
    var queued := Enqueue(jobs, PollUpdate, p, 0, at);
    forall i | 0 <= i < |queued|
      ensures queued[i].Holds(PollUpdate, p, 0) <==> UpdatePendingAt(queued[i], p)
    {
    }
    if !Requested(jobs, PollUpdate, p, 0) {
      assert forall i :: 0 <= i < |jobs| ==> queued[i] == jobs[i] && !UpdatePendingAt(jobs[i], p);
    }
  }

  /** After a vote: an update three minutes later, for a local poll that shows its totals. */
  ghost predicate VoteAnnounced(jobs: seq<Job>, jobs': seq<Job>, poll: Poll, p: PollId, now: Time) {
    if poll.status.Local? && poll.hideTotals == false then UpdateAsked(jobs, jobs', p, now + 180_000_000)
    else jobs' == jobs
  }

  // ---------------------------------------------------------------- requests

  /** The tables after a vote request: everything as before, or the vote recorded and announced. */
  ghost predicate VoteHandled(db: Db, db': Db, p: PollId, voter: Voter, choices: seq<U32>,
      activity: Option<ActivityId>, now: Time) {
    if Objection(db, p, voter, choices, activity, now).Some? then
      db' == db
    else
      && BallotsRecorded(db, db', p, voter, choices, activity)
      && CountersMoved(db, db', p, choices)
      && p in db.polls && OnlyRow(db.polls, db'.polls, p)
      && PollVoted(db.polls[p], db'.polls[p], !HasVoted(db, p, voter), now)
      && db'.notices == db.notices
      && VoteAnnounced(db.jobs, db'.jobs, db.polls[p], p, now)
  }

  lemma VoteIsHandled(db: Db, p: PollId, voter: Voter, choices: seq<U32>, activity: Option<ActivityId>, now: Time)
    requires PositionsCounted(db, p)
    ensures VoteHandled(db, VoteStep(db, p, voter, choices, activity, now), p, voter, choices, activity, now)
  {
    VoteIsAnswered(db, p, voter, choices, activity, now);
    var r := CastVote(db, p, voter, choices, activity, now);
    if r.Ok? {
      AcceptedChoicesAreSmall(db, p, voter, choices, activity, now);
      AcceptedVoteIsRecorded(db, p, voter, choices, activity, now);
      UpdateIsAsked(db.jobs, p, now + 180_000_000);
    }
  }

  /** A local request is the account's vote; a delivery is the actor's vote in a local poll. */
  lemma VoteEvents(env: Instance, s: System, now: Time, p: PollId, account: AccountId, choices: seq<U32>, choice: U32,
      activity: ActivityId)
    requires PositionsCounted(s.db, p)
    ensures var s' := Apply(env, s, Event(now, VoteLocally(p, account, choices)));
            && VoteHandled(s.db, s'.db, p, LocalVoter(account), choices, None, now)
            && s'.claims == s.claims && s'.clock == now
    ensures var s' := Apply(env, s, Event(now, VoteRemotely(p, account, choice, activity)));
            && s'.claims == s.claims && s'.clock == now
            && if p in s.db.polls && s.db.polls[p].status.Local?
               then VoteHandled(s.db, s'.db, p, RemoteVoter(account), [choice], Some(activity), now)
               else s'.db == s.db
  {
    VoteIsHandled(s.db, p, LocalVoter(account), choices, None, now);
    VoteIsHandled(s.db, p, RemoteVoter(account), [choice], Some(activity), now);
  }

  /** An accepted creation is a new poll; any other leaves the tables as they were. */
  lemma CreateEvent(env: Instance, s: System, now: Time, id: PollId, status: StatusId, input: NewPoll)
    requires ForeignKeys(s.db)
    ensures var s' := Apply(env, s, Event(now, Create(id, status, input)));
            && s'.claims == s.claims && s'.clock == now
            && if NeverUsed(s.db, id) && Fault(env.graphemes, input) == None
                && (forall p :: p in s.db.polls ==> s.db.polls[p].status != Local(status))
               then PollCreated(s.db, s'.db, id, status, input, now)
               else s'.db == s.db
  {
    CreatedPollIsStored(env, s.db, id, status, input, now);
  }

  /** An edit acts on the poll of its status, or creates one, unless its input has a fault. */
  lemma EditEvent(env: Instance, s: System, now: Time, freshId: PollId, status: StatusId, input: Option<NewPoll>)
    requires Sound(s.db) && NeverUsed(s.db, freshId)
    ensures var s' := Apply(env, s, Event(now, Edit(freshId, status, input)));
            && s'.claims == s.claims && s'.clock == now
            && (input.Some? && Fault(env.graphemes, input.value).Some? ==> s'.db == s.db)
            && (input.None? && (forall p :: p in s.db.polls ==> s.db.polls[p].status != Local(status)) ==>
                s'.db == s.db)
            && (input.Some? && Fault(env.graphemes, input.value).None?
                && (forall p :: p in s.db.polls ==> s.db.polls[p].status != Local(status)) ==>
                PollCreated(s.db, s'.db, freshId, status, input.value, now))
            && (forall p :: p in s.db.polls && s.db.polls[p].status == Local(status) ==>
                && (input.None? ==> PollRemoved(s.db, s'.db, p))
                && (input.Some? && Fault(env.graphemes, input.value).None? ==>
                    PollEdited(s.db, s'.db, p, input.value, now)))
  {
    EditIsAnswered(env, s.db, freshId, status, input, now);
  }

  predicate Acceptable(question: RemotePoll) {
    2 <= |question.options| <= 500 && Storable(question)
  }

  /** An acceptable question rewrites the poll of its status or brings one in; another changes nothing. */
  lemma RefreshEvent(env: Instance, s: System, now: Time, freshId: PollId, status: StatusId, question: RemotePoll)
    requires Sound(s.db) && NeverUsed(s.db, freshId)
    ensures var s' := Apply(env, s, Event(now, Refresh(freshId, status, question)));
            && s'.claims == s.claims && s'.clock == now
            && (!Acceptable(question) ==> s'.db == s.db)
            && (Acceptable(question) ==>
                && (forall p :: p in s.db.polls && s.db.polls[p].status == Remote(status) ==>
                    QuestionStored(s.db, s'.db, p, status, question, now))
                && ((forall p :: p in s.db.polls ==> s.db.polls[p].status != Remote(status)) ==>
                    QuestionStored(s.db, s'.db, freshId, status, question, now)))
  {
    QuestionIsStored(s.db, freshId, status, question, now);
  }

  lemma DeletionEvent(env: Instance, s: System, now: Time, notices: set<Notice>)
    ensures var s' := Apply(env, s, Event(now, DeleteNotices(notices)));
            && s'.claims == s.claims && s'.clock == now
            && s'.db == s.db.(notices := s'.db.notices)
            && forall n :: n in s'.db.notices <==> n in s.db.notices && n !in notices
  {
  }

  // ---------------------------------------------------------------- workers

  /** The job in this place was replaced and no other. */
  predicate OnlyJob(jobs: seq<Job>, jobs': seq<Job>, j: nat, job: Job) {
    && |jobs'| == |jobs|
    && j < |jobs| && jobs'[j] == job
    && forall i :: 0 <= i < |jobs| && i != j ==> jobs'[i] == jobs[i]
  }

  ghost predicate OnlyClaim(claims: map<ClaimId, Claim>, claims': map<ClaimId, Claim>, c: ClaimId, claim: Claim) {
    && c in claims' && claims'[c] == claim
    && (forall d :: d != c ==> (d in claims' <==> d in claims))
    && (forall d :: d != c && d in claims ==> claims'[d] == claims[d])
  }

  /** An uncompleted job that is due can be claimed, and gets the new claim. */
  lemma ClaimEvent(env: Instance, s: System, now: Time, j: nat, c: ClaimId)
    ensures var s' := Apply(env, s, Event(now, ClaimJob(j, c)));
            && s'.clock == now
            && if j < |s.db.jobs| && s.db.jobs[j].completed == false && s.db.jobs[j].runAfter <= now && c !in s.claims
               then
                 && s'.db == s.db.(jobs := s'.db.jobs)
                 && OnlyJob(s.db.jobs, s'.db.jobs, j, s.db.jobs[j].(claim := Some(c)))
                 && OnlyClaim(s.claims, s'.claims, c, Claim(j, Claimed))
               else
                 s'.db == s.db && s'.claims == s.claims
  {
  }

  /** The first second doubles with each failed attempt until it reaches an hour. */
  lemma RetriesBackOff(attempts: nat)
    ensures RetryDelay(0) == 1_000_000
    ensures RetryDelay(attempts + 1) == Min(2 * RetryDelay(attempts), 3_600_000_000)
  {
    assert PowerOfTwo(11) == 2048 && PowerOfTwo(12) == 4096 by {
      assert PowerOfTwo(4) == 16;
      assert PowerOfTwo(8) == 256;
    }
    if attempts < 11 {
      PowerIsMonotone(attempts, 11);
      PowerIsMonotone(attempts + 1, 11);
    }
  }

  lemma {:induction false} PowerIsMonotone(m: nat, n: nat)
    requires m <= n
    ensures PowerOfTwo(m) <= PowerOfTwo(n)
  {
    if m < n {
      PowerIsMonotone(m, n - 1);
    }
  }

  /** The worker that still holds the lease completes the job, or puts it off by the retry delay. */
  lemma FinishEvent(env: Instance, s: System, now: Time, c: ClaimId)
    ensures var s' := Apply(env, s, Event(now, Finish(c)));
            && s'.clock == now && s'.claims == s.claims
            && if c in s.claims && s.claims[c].job < |s.db.jobs| && s.db.jobs[s.claims[c].job].claim == Some(c) then
                 var (j, job) := (s.claims[c].job, s.db.jobs[s.claims[c].job]);
                 && s'.db == s.db.(jobs := s'.db.jobs)
                 && match s.claims[c].progress
                    case Claimed => s'.db.jobs == s.db.jobs
                    case Succeeded => OnlyJob(s.db.jobs, s'.db.jobs, j, job.(completed := true, claim := None))
                    case Failed => OnlyJob(s.db.jobs, s'.db.jobs, j,
                        job.(attempts := job.attempts + 1, runAfter := now + RetryDelay(job.attempts), claim := None))
               else
                 s'.db == s.db
  {
  }

  /** What the expiration handler commits: the expiry, and for a local poll an update due at once. */
  ghost predicate ExpiryCommitted(env: Instance, db: Db, db': Db, p: PollId, now: Time)
    requires p in db.polls
  {
    exists e :: PollExpired(env, db, e, p, now)
      && db' == e.db.(jobs := db'.jobs)
      && if db.polls[p].status.Local? then UpdateAsked(db.jobs, db'.jobs, p, now) else db'.jobs == db.jobs
  }

  ghost predicate DueNow(poll: Poll, now: Time) {
    poll.notifiedAt == None && (OverAt(poll).Some? ==> OverAt(poll).value <= now)
  }

  /**
   The handler of an expiration job closes a poll that is over and not notified yet, fails when a
   notification is there already, and changes nothing otherwise; it succeeds unless it or the publishing
   fails. The handler of an update job only publishes.
   */
  lemma HandlerEvent(env: Instance, s: System, now: Time, c: ClaimId, publishingFails: bool)
    requires c in s.claims && s.claims[c].progress == Claimed && s.claims[c].job < |s.db.jobs|
    ensures var s', job := Apply(env, s, Event(now, RunHandler(c, publishingFails))), s.db.jobs[s.claims[c].job];
            var expires := job.kind == PollExpiration && job.poll in s.db.polls && DueNow(s.db.polls[job.poll], now);
            var fails := publishingFails || (expires && AlreadyTold(env, s.db, job.poll));
            && s'.clock == now
            && OnlyClaim(s.claims, s'.claims, c, Claim(s.claims[c].job, if fails then Failed else Succeeded))
            && if expires && !AlreadyTold(env, s.db, job.poll)
               then ExpiryCommitted(env, s.db, s'.db, job.poll, now)
               else s'.db == s.db
  {
    var p := s.db.jobs[s.claims[c].job].poll;
    ExpiryIsAnswered(env, s.db, p, now);
    UpdateIsAsked(s.db.jobs, p, now);
    var r := ExpirePoll(env, s.db, p, now);
    if p in s.db.polls && DueNow(s.db.polls[p], now) && !AlreadyTold(env, s.db, p) {
      CommittedExpiry(env, s.db, p, now);
    }
  }

  lemma CommittedExpiry(env: Instance, db: Db, p: PollId, now: Time)
    requires p in db.polls && DueNow(db.polls[p], now) && !AlreadyTold(env, db, p)
    ensures ExpireStep(env, db, p, now).1 && ExpiryCommitted(env, db, ExpireStep(env, db, p, now).0, p, now)
  {
    ExpiryIsAnswered(env, db, p, now);
    UpdateIsAsked(db.jobs, p, now);
    var e := ExpirePoll(env, db, p, now).value.value;
    assert PollExpired(env, db, e, p, now);
    assert ExpireStep(env, db, p, now).0 == e.db.(jobs := ExpireStep(env, db, p, now).0.jobs);
  }

  /** A claim without a run ahead of it: nothing happens. */
  lemma HandlerIdle(env: Instance, s: System, now: Time, c: ClaimId, publishingFails: bool)
    requires !(c in s.claims && s.claims[c].progress == Claimed && s.claims[c].job < |s.db.jobs|)
    ensures Apply(env, s, Event(now, RunHandler(c, publishingFails))) == s.(clock := now)
  {
  }

  // ---------------------------------------------------------------- positions over runs

  ghost predicate AllPositionsCounted(db: Db) {
    forall s :: s in db.options ==> 0 <= s.position < 500
  }

  lemma RewriteIsCounted(options: map<Slot, Choice>, options': map<Slot, Choice>, p: PollId, rows: seq<Choice>)
    requires OptionsAre(options, options', p, rows) && |rows| <= 500
    requires forall s :: s in options ==> 0 <= s.position < 500
    ensures forall s :: s in options' ==> 0 <= s.position < 500
  {
  }

  lemma StepKeepsPositions(env: Instance, s: System, e: Event)
    requires Sound(s.db) && AllPositionsCounted(s.db)
    ensures AllPositionsCounted(Apply(env, s, e).db)
  {
    var s' := Apply(env, s, e);
    match e.step {
      case Create(id, status, input) =>
        CreateEvent(env, s, e.at, id, status, input);
        if s'.db != s.db {
          RewriteIsCounted(s.db.options, s'.db.options, id, FreshOptions(input.options));
        }
      case VoteLocally(p, account, choices) => VoteEvents(env, s, e.at, p, account, choices, 0, 0);
      case VoteRemotely(p, actor, choice, activity) => VoteEvents(env, s, e.at, p, actor, [], choice, activity);
      case Edit(freshId, status, input) =>
        if NeverUsed(s.db, freshId) {
          EditKeepsPositions(env, s, e.at, freshId, status, input);
        }
      case Refresh(freshId, status, question) =>
        if NeverUsed(s.db, freshId) {
          RefreshKeepsPositions(env, s, e.at, freshId, status, question);
        }
      case ClaimJob(j, c) => ClaimEvent(env, s, e.at, j, c);
      case RunHandler(c, publishingFails) =>
        if c in s.claims && s.claims[c].progress == Claimed && s.claims[c].job < |s.db.jobs| {
          HandlerEvent(env, s, e.at, c, publishingFails);
        } else {
          HandlerIdle(env, s, e.at, c, publishingFails);
        }
      case Finish(c) => FinishEvent(env, s, e.at, c);
      case DeleteNotices(notices) => DeletionEvent(env, s, e.at, notices);
    }
  }

  lemma EditKeepsPositions(env: Instance, s: System, now: Time, freshId: PollId, status: StatusId,
      input: Option<NewPoll>)
    requires Sound(s.db) && AllPositionsCounted(s.db) && NeverUsed(s.db, freshId)
    ensures AllPositionsCounted(Apply(env, s, Event(now, Edit(freshId, status, input))).db)
  {
    var s' := Apply(env, s, Event(now, Edit(freshId, status, input)));
    EditEvent(env, s, now, freshId, status, input);
    if p :| p in s.db.polls && s.db.polls[p].status == Local(status) {
      if s'.db != s.db && input.Some? && s'.db.options != s.db.options {
        RewriteIsCounted(s.db.options, s'.db.options, p, FreshOptions(input.value.options));
      }
    } else if s'.db != s.db {
      RewriteIsCounted(s.db.options, s'.db.options, freshId, FreshOptions(input.value.options));
    }
  }

  lemma RefreshKeepsPositions(env: Instance, s: System, now: Time, freshId: PollId, status: StatusId,
      question: RemotePoll)
    requires Sound(s.db) && AllPositionsCounted(s.db) && NeverUsed(s.db, freshId)
    ensures AllPositionsCounted(Apply(env, s, Event(now, Refresh(freshId, status, question))).db)
  {
    var s' := Apply(env, s, Event(now, Refresh(freshId, status, question)));
    RefreshEvent(env, s, now, freshId, status, question);
    if Acceptable(question) {
      if p :| p in s.db.polls && s.db.polls[p].status == Remote(status) {
        RewriteIsCounted(s.db.options, s'.db.options, p, GivenOptions(question));
      } else {
        RewriteIsCounted(s.db.options, s'.db.options, freshId, GivenOptions(question));
      }
    }
  }

  lemma {:induction false} RunKeepsPositions(env: Instance, s: System, events: seq<Event>)
    requires TallyInvariant(s.db) && AllPositionsCounted(s.db)
    ensures TallyInvariant(Run(env, s, events).db) && AllPositionsCounted(Run(env, s, events).db)
    decreases |events|
  {
    if events != [] {
      StepKeepsTally(env, s, events[0]);
      StepKeepsPositions(env, s, events[0]);
      RunKeepsPositions(env, Apply(env, s, events[0]), events[1..]);
    }
  }

  /**
   At any moment of any run, the next vote is turned away with the first objection to it, or recorded
   under the numbers it names and announced.
   */
  lemma EveryVoteIsHandled(env: Instance, clock: Time, events: seq<Event>, now: Time, p: PollId, account: AccountId,
      choices: seq<U32>)
    ensures var s := Run(env, Start(clock), events);
            var s' := Run(env, Start(clock), events + [Event(now, VoteLocally(p, account, choices))]);
            VoteHandled(s.db, s'.db, p, LocalVoter(account), choices, None, now)
  {
    var s, e := Run(env, Start(clock), events), Event(now, VoteLocally(p, account, choices));
    RunKeepsPositions(env, Start(clock), events);
    VoteEvents(env, s, now, p, account, choices, 0, 0);
    RunThen(env, Start(clock), events, e);
  }

  lemma {:induction false} RunThen(env: Instance, s: System, events: seq<Event>, e: Event)
    ensures Run(env, s, events + [e]) == Apply(env, Run(env, s, events), e)
    decreases |events|
  {
    if events == [] {
      assert Run(env, Apply(env, s, e), []) == Apply(env, s, e);
    } else {
      assert (events + [e])[1..] == events[1..] + [e];
      RunThen(env, Apply(env, s, events[0]), events[1..], e);
    }
  }
}
