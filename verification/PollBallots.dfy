/**
 Voting: when a vote counts, that a closed poll is frozen, and that the order of votes is immaterial.
 */
module PollBallots {
  import opened Prelude
  import opened PollModel
  import opened PollRuns
  import opened PollFrames
  import opened PollTally

  // ---------------------------------------------------------------- votes and the deadline

  /** The step may rewrite the poll's own rows: an edit of its status or a refresh of it. */
  ghost predicate Rewrites(step: Step, status: PollStatus) {
    match step
    case Edit(_, id, _) => status == Local(id)
    case Refresh(_, id, _) => status == Remote(id)
    case _ => false
  }

  /** The step is a vote in this poll. */
  ghost predicate VotesIn(step: Step, p: PollId) {
    match step
    case VoteLocally(q, _, _) => q == p
    case VoteRemotely(q, _, _, _) => q == p
    case _ => false
  }

  /** Rows, totals and closing time of the poll are the same. */
  ghost predicate Frozen(db: Db, db': Db, p: PollId) {
    && p in db.polls && p in db'.polls
    && SameBallotRows(db, db', p)
    && db'.polls[p].votersCount == db.polls[p].votersCount
    && db'.polls[p].status == db.polls[p].status
    && db'.polls[p].expiresAt == db.polls[p].expiresAt
    && (db.polls[p].closedAt.Some? ==> db'.polls[p].closedAt == db.polls[p].closedAt)
  }

  lemma VoteElsewhere(db: Db, q: PollId, voter: Voter, choices: seq<U32>, activity: Option<ActivityId>, now: Time,
      p: PollId)
    requires ForeignKeys(db) && p in db.polls && (p == q ==> CastVote(db, q, voter, choices, activity, now).Err?)
    ensures Frozen(db, VoteStep(db, q, voter, choices, activity, now), p)
  {
    if VoteRejection(db, q, voter, choices, activity, now).None? {
      VoteRows(db, q, voter, Positions(choices), activity, now);
      assert SameRows(db, RecordVote(db, q, voter, Positions(choices), activity, now), p);
    }
  }

  lemma EditElsewhere(env: Instance, db: Db, freshId: PollId, status: StatusId, input: Option<NewPoll>, now: Time,
      p: PollId)
    requires ForeignKeys(db) && p in db.polls && db.polls[p].status != Local(status)
    ensures Frozen(db, Committed(db, EditLocalPoll(env, db, freshId, status, input, now)), p)
  {
    var r := EditLocalPoll(env, db, freshId, status, input, now);
    var existing := PollFor(db, Local(status));
    if input.None? && existing.Some? {
      DeleteRows(db, existing.value);
      assert SameRows(db, r.value, p);
    } else if r.Ok? && input.Some? && existing.Some? {
      if EditChanges(db, existing.value, input.value) {
        ChangedEditRows(db, existing.value, input.value, now);
      } else {
        UnchangedEditRows(db, existing.value, input.value, now);
      }
      assert SameRows(db, r.value, p);
    } else if r.Ok? && input.Some? {
      CreateRows(env, db, freshId, status, input.value, now);
      assert SameRows(db, r.value, p);
    }
  }

  lemma RefreshElsewhere(db: Db, freshId: PollId, status: StatusId, input: RemotePoll, now: Time, p: PollId)
    requires ForeignKeys(db) && p in db.polls && db.polls[p].status != Remote(status)
    ensures Frozen(db, Committed(db, RefreshRemotePoll(db, freshId, status, input, now)), p)
  {
    var r := RefreshRemotePoll(db, freshId, status, input, now);
    var existing := PollFor(db, Remote(status));
    if r.Ok? && existing.Some? {
      RefreshRows(db, existing.value, input, now);
      assert SameRows(db, r.value, p);
    } else if r.Ok? {
      InsertRows(db, freshId, status, input, now);
      assert SameRows(db, r.value, p);
    }
  }

  lemma CreateElsewhere(env: Instance, db: Db, id: PollId, status: StatusId, input: NewPoll, now: Time, p: PollId)
    requires ForeignKeys(db) && p in db.polls
    ensures Frozen(db, Committed(db, CreateLocalPoll(env, db, id, status, input, now)), p)
  {
    var r := CreateLocalPoll(env, db, id, status, input, now);
    if r.Ok? {
      CreateRows(env, db, id, status, input, now);
      assert SameRows(db, r.value, p);
    }
  }

  lemma ExpireFreezes(env: Instance, db: Db, q: PollId, now: Time, p: PollId)
    requires p in db.polls
    ensures Frozen(db, ExpireStep(env, db, q, now).0, p)
  {
  }

  lemma WorkerFreezes(env: Instance, s: System, e: Event, p: PollId)
    requires p in s.db.polls && (e.step.ClaimJob? || e.step.RunHandler? || e.step.Finish? || e.step.DeleteNotices?)
    ensures Frozen(s.db, Apply(env, s, e).db, p)
  {
    if e.step.RunHandler? && e.step.claim in s.claims && s.claims[e.step.claim].job < |s.db.jobs| {
      ExpireRows(env, s.db, s.db.jobs[s.claims[e.step.claim].job].poll, e.at);
      ExpireFreezes(env, s.db, s.db.jobs[s.claims[e.step.claim].job].poll, e.at, p);
    }
  }

  /**
   One step at a time: the rows and totals of a poll change only by an edit or refresh of it, or by
   a vote that is accepted while it is open and strictly before its deadline.
   */
  lemma OnlyTimelyVotesChangeRows(env: Instance, s: System, e: Event, p: PollId)
    requires ForeignKeys(s.db) && p in s.db.polls && !Rewrites(e.step, s.db.polls[p].status)
    ensures
      || Frozen(s.db, Apply(env, s, e).db, p)
      || (&& VotesIn(e.step, p) && s.db.polls[p].closedAt.None?
          && (s.db.polls[p].expiresAt.Some? ==> e.at < s.db.polls[p].expiresAt.value))
  {
    match e.step
    case Create(id, status, input) => CreateElsewhere(env, s.db, id, status, input, e.at, p);
    case VoteLocally(q, account, choices) =>
      if p != q || s.db.polls[p].Ended(e.at) {
        VoteElsewhere(s.db, q, LocalVoter(account), choices, None, e.at, p);
      }
    case VoteRemotely(q, actor, choice, activity) =>
      if p != q || s.db.polls[p].Ended(e.at) {
        VoteElsewhere(s.db, q, RemoteVoter(actor), [choice], Some(activity), e.at, p);
      }
    case Edit(freshId, status, input) => EditElsewhere(env, s.db, freshId, status, input, e.at, p);
    case Refresh(freshId, status, input) => RefreshElsewhere(s.db, freshId, status, input, e.at, p);
    case _ => WorkerFreezes(env, s, e, p);
  }

  lemma FrozenChain(db: Db, db1: Db, db2: Db, p: PollId)
    requires Frozen(db, db1, p) && Frozen(db1, db2, p)
    ensures Frozen(db, db2, p)
  {
  }

  /** Once closed, a poll's rows and totals are final in every continuation without edit or refresh. */
  lemma {:induction false} ClosedPollIsFrozen(env: Instance, s: System, events: seq<Event>, p: PollId)
    requires TallyInvariant(s.db) && p in s.db.polls && s.db.polls[p].closedAt.Some?
    requires forall i :: 0 <= i < |events| ==> !Rewrites(events[i].step, s.db.polls[p].status)
    ensures Frozen(s.db, Run(env, s, events).db, p)
    decreases |events|
  {
    if events != [] {
      var e, s' := events[0], Apply(env, s, events[0]);
      assert !Rewrites(e.step, s.db.polls[p].status);
      OnlyTimelyVotesChangeRows(env, s, e, p);
      StepKeepsTally(env, s, e);
      assert Frozen(s.db, s'.db, p);
      ClosedPollIsFrozen(env, s', events[1..], p);
      FrozenChain(s.db, s'.db, Run(env, s', events[1..]).db, p);
    }
  }

  // ---------------------------------------------------------------- order of votes

  datatype Vote = Vote(poll: PollId, voter: Voter, choices: seq<U32>, activity: Option<ActivityId>, at: Time)

  ghost function Cast(db: Db, v: Vote): Result<Db, VoteError> {
    CastVote(db, v.poll, v.voter, v.choices, v.activity, v.at)
  }

  /** Everything an accepted vote satisfies, as one conjunction. */
  ghost predicate Acceptable(db: Db, v: Vote) {
    && v.poll in db.polls && !db.polls[v.poll].Ended(v.at)
    && v.choices != [] && (!db.polls[v.poll].multiple ==> |Selected(v.choices)| == 1)
    && (BallotsBy(db, v.poll, v.voter) == {} || (v.voter.RemoteVoter? && db.polls[v.poll].multiple))
    && (forall q :: q in Positions(v.choices) ==>
        Slot(v.poll, q) in db.options && Ballot(v.poll, v.voter, q) !in db.votes)
    && !ActivityUsed(db.votes, v.activity) && (v.activity.Some? ==> |Selected(v.choices)| == 1)
  }

  /** The checks in sequence reject nothing exactly when the conjunction holds. */
  lemma AcceptedIff(db: Db, v: Vote)
    ensures Cast(db, v).Ok? <==> Acceptable(db, v)
  {
  }

  /** Recording one voter's ballots leaves another voter's rows as they were. */
  lemma OtherVoterUntouched(db: Db, a: Vote, voter: Voter, p: PollId)
    requires a.poll in db.polls && a.voter != voter
    ensures var db' := RecordVote(db, a.poll, a.voter, Positions(a.choices), a.activity, a.at);
            && BallotsBy(db', p, voter) == BallotsBy(db, p, voter)
            && (forall q :: Ballot(p, voter, q) in db'.votes <==> Ballot(p, voter, q) in db.votes)
            && db'.options.Keys == db.options.Keys
  {
  }

  lemma OtherActivityUnused(db: Db, a: Vote, activity: Option<ActivityId>)
    requires a.poll in db.polls && !ActivityUsed(db.votes, activity) && (activity.Some? ==> a.activity != activity)
    ensures !ActivityUsed(RecordVote(db, a.poll, a.voter, Positions(a.choices), a.activity, a.at).votes, activity)
  {
    var db' := RecordVote(db, a.poll, a.voter, Positions(a.choices), a.activity, a.at);
    assert forall x :: x in db'.votes ==> (x in db.votes && db'.votes[x] == db.votes[x]) || db'.votes[x] == a.activity;
  }

  /** A vote by someone else does not turn an acceptable vote away. */
  lemma StillAccepted(db: Db, a: Vote, b: Vote)
    requires Acceptable(db, a) && Acceptable(db, b) && a.voter != b.voter
    requires b.activity.Some? ==> a.activity != b.activity
    ensures Acceptable(RecordVote(db, a.poll, a.voter, Positions(a.choices), a.activity, a.at), b)
  {
    OtherVoterUntouched(db, a, b.voter, b.poll);
    OtherActivityUnused(db, a, b.activity);
  }

  lemma BumpsCommute(options: map<Slot, Choice>, p: PollId, P: set<int>, q: PollId, Q: set<int>)
    ensures Bump(Bump(options, p, P), q, Q) == Bump(Bump(options, q, Q), p, P)
  {
  }

  lemma BallotsCommute(votes: map<Ballot, Option<ActivityId>>, a: Vote, b: Vote)
    requires a.voter != b.voter
    ensures var (P, Q) := (Positions(a.choices), Positions(b.choices));
            AddBallots(AddBallots(votes, a.poll, a.voter, P, a.activity), b.poll, b.voter, Q, b.activity)
            == AddBallots(AddBallots(votes, b.poll, b.voter, Q, b.activity), a.poll, a.voter, P, a.activity)
  {
  }

  lemma RecordsCommute(db: Db, a: Vote, b: Vote)
    requires a.poll in db.polls && b.poll in db.polls && a.voter != b.voter
    ensures var (P, Q) := (Positions(a.choices), Positions(b.choices));
            SameButTimes(
              RecordVote(RecordVote(db, a.poll, a.voter, P, a.activity, a.at), b.poll, b.voter, Q, b.activity, b.at),
              RecordVote(RecordVote(db, b.poll, b.voter, Q, b.activity, b.at), a.poll, a.voter, P, a.activity, a.at))
  {
    BumpsCommute(db.options, a.poll, Positions(a.choices), b.poll, Positions(b.choices));
    BallotsCommute(db.votes, a, b);
    PollRowsCommute(db, a, b);
  }

  lemma PollRowsCommute(db: Db, a: Vote, b: Vote)
    requires a.poll in db.polls && b.poll in db.polls && a.voter != b.voter
    ensures var db1 := RecordVote(db, a.poll, a.voter, Positions(a.choices), a.activity, a.at);
            var db2 := RecordVote(db, b.poll, b.voter, Positions(b.choices), b.activity, b.at);
            var polls1 := RecordVote(db1, b.poll, b.voter, Positions(b.choices), b.activity, b.at).polls;
            var polls2 := RecordVote(db2, a.poll, a.voter, Positions(a.choices), a.activity, a.at).polls;
            && polls1.Keys == polls2.Keys
            && forall p :: p in polls1 ==> polls1[p].(updatedAt := 0) == polls2[p].(updatedAt := 0)
  {
    OtherVoterUntouched(db, a, b.voter, b.poll);
    OtherVoterUntouched(db, b, a.voter, a.poll);
    JoinsCommute(db.polls, a.poll, BallotsBy(db, a.poll, a.voter) == {}, a.at, b.poll,
        BallotsBy(db, b.poll, b.voter) == {}, b.at);
  }

  lemma JoinsCommute(polls: map<PollId, Poll>, p: PollId, pFirst: bool, pAt: Time, q: PollId, qFirst: bool, qAt: Time)
    requires p in polls && q in polls
    ensures var (byP, byQ) := (polls[p := Joined(polls[p], pFirst, pAt)], polls[q := Joined(polls[q], qFirst, qAt)]);
            var (pq, qp) := (byP[q := Joined(byP[q], qFirst, qAt)], byQ[p := Joined(byQ[p], pFirst, pAt)]);
            pq.Keys == qp.Keys && forall r :: r in pq ==> pq[r].(updatedAt := 0) == qp[r].(updatedAt := 0)
  {
  }

  /** Accepted votes of different voters commute, in one poll or in two. */
  lemma VotesCommute(db: Db, a: Vote, b: Vote)
    requires Cast(db, a).Ok? && Cast(db, b).Ok? && a.voter != b.voter
    requires a.activity.Some? ==> a.activity != b.activity
    ensures Cast(Cast(db, a).value, b).Ok? && Cast(Cast(db, b).value, a).Ok?
    ensures SameButTimes(Cast(Cast(db, a).value, b).value, Cast(Cast(db, b).value, a).value)
  {
    AcceptedIff(db, a);
    AcceptedIff(db, b);
    StillAccepted(db, a, b);
    StillAccepted(db, b, a);
    AcceptedIff(Cast(db, a).value, b);
    AcceptedIff(Cast(db, b).value, a);
    RecordsCommute(db, a, b);
  }

  // ---------------------------------------------------------------- one by one or all at once

  /** A choice delivered by another server, under its own activity id. */
  datatype Delivery = Delivery(choice: U32, activity: ActivityId, at: Time)

  /** The deliveries of one actor, each recorded as a vote of its own. */
  ghost function Deliver(db: Db, p: PollId, actor: AccountId, ds: seq<Delivery>): Result<Db, VoteError> {
    if ds == [] then Ok(db)
    else
      var before := Deliver(db, p, actor, ds[..|ds| - 1]);
      var d := ds[|ds| - 1];
      if before.Err? then before else CastVote(before.value, p, RemoteVoter(actor), [d.choice], Some(d.activity), d.at)
  }

  ghost function DeliveredPositions(ds: seq<Delivery>): set<int> {
    set d | d in ds :: AsI32(d.choice)
  }

  /** Distinct existing choices under distinct unused ids, all in time, from an actor who has not voted. */
  ghost predicate Deliverable(db: Db, p: PollId, actor: AccountId, ds: seq<Delivery>) {
    && p in db.polls && db.polls[p].multiple
    && BallotsBy(db, p, RemoteVoter(actor)) == {}
    && (forall i :: 0 <= i < |ds| ==>
        !db.polls[p].Ended(ds[i].at) && Slot(p, AsI32(ds[i].choice)) in db.options
          && !ActivityUsed(db.votes, Some(ds[i].activity)))
    && (forall i, j :: 0 <= i < j < |ds| ==> ds[i].choice != ds[j].choice && ds[i].activity != ds[j].activity)
  }

  /** What the deliveries have done to the counters, said without mentioning their order. */
  ghost predicate DeliveredTally(db: Db, db': Db, p: PollId, ds: seq<Delivery>) {
    && p in db.polls && p in db'.polls
    && db'.options == Bump(db.options, p, DeliveredPositions(ds))
    && db'.polls[p].votersCount == (if ds != [] && db.polls[p].votersCount.Some?
        then Some(db.polls[p].votersCount.value + 1) else db.polls[p].votersCount)
    && db'.polls[p].multiple == db.polls[p].multiple
    && db'.polls[p].closedAt == db.polls[p].closedAt && db'.polls[p].expiresAt == db.polls[p].expiresAt
  }

  /** And to the vote rows. */
  ghost predicate DeliveredRows(votes: map<Ballot, Option<ActivityId>>, votes': map<Ballot, Option<ActivityId>>,
      p: PollId, actor: AccountId, ds: seq<Delivery>) {
    && votes'.Keys == votes.Keys + NewBallots(p, RemoteVoter(actor), DeliveredPositions(ds))
    && (forall b :: b in votes ==> votes'[b] == votes[b])
    && (forall b :: b in votes' && b !in votes ==> exists d :: d in ds && votes'[b] == Some(d.activity))
  }

  ghost predicate DeliveredAs(db: Db, db': Db, p: PollId, actor: AccountId, ds: seq<Delivery>) {
    DeliveredTally(db, db', p, ds) && DeliveredRows(db.votes, db'.votes, p, actor, ds)
  }

  lemma AsI32Injective(c: U32, d: U32)
    requires AsI32(c) == AsI32(d)
    ensures c == d
  {
  }

  lemma EarlierDiffer(ds: seq<Delivery>)
    requires ds != []
    requires forall i, j :: 0 <= i < j < |ds| ==> ds[i].choice != ds[j].choice && ds[i].activity != ds[j].activity
    ensures var (d, front) := (ds[|ds| - 1], ds[..|ds| - 1]);
            forall x | x in front :: AsI32(x.choice) != AsI32(d.choice) && x.activity != d.activity
  {
    var d, front := ds[|ds| - 1], ds[..|ds| - 1];
    forall x | x in front
      ensures AsI32(x.choice) != AsI32(d.choice) && x.activity != d.activity
    {
      var i :| 0 <= i < |front| && front[i] == x;
      assert ds[i].choice != ds[|ds| - 1].choice && ds[i].activity != ds[|ds| - 1].activity;
      if AsI32(x.choice) == AsI32(d.choice) {
        AsI32Injective(x.choice, d.choice);
      }
    }
  }

  /** An id used neither before nor by the earlier deliveries is still unused. */
  lemma StillUnused(
    votes: map<Ballot, Option<ActivityId>>, votes': map<Ballot, Option<ActivityId>>,
    p: PollId, actor: AccountId, front: seq<Delivery>, activity: ActivityId)
    requires DeliveredRows(votes, votes', p, actor, front)
    requires !ActivityUsed(votes, Some(activity)) && forall x | x in front :: x.activity != activity
    ensures !ActivityUsed(votes', Some(activity))
  {
    forall b | b in votes'
      ensures votes'[b] != Some(activity)
    {
    }
  }

  lemma NextDeliveryAccepted(db: Db, db1: Db, p: PollId, actor: AccountId, ds: seq<Delivery>)
    requires ds != [] && Deliverable(db, p, actor, ds) && DeliveredAs(db, db1, p, actor, ds[..|ds| - 1])
    ensures var d := ds[|ds| - 1];
            VoteRejection(db1, p, RemoteVoter(actor), [d.choice], Some(d.activity), d.at).None?
  {
    var d, front := ds[|ds| - 1], ds[..|ds| - 1];
    assert Selected([d.choice]) == {d.choice};
    assert Positions([d.choice]) == {AsI32(d.choice)};
    assert !db.polls[p].Ended(d.at) && Slot(p, AsI32(d.choice)) in db.options
        && !ActivityUsed(db.votes, Some(d.activity));
    EarlierDiffer(ds);
    StillUnused(db.votes, db1.votes, p, actor, front, d.activity);
    NewVoterHasNoRows(db, p, RemoteVoter(actor));
    assert Ballot(p, RemoteVoter(actor), AsI32(d.choice)) !in db1.votes;
  }

  /** The last delivery adds exactly one position. */
  lemma LastPosition(ds: seq<Delivery>)
    requires ds != [] && forall i, j :: 0 <= i < j < |ds| ==> ds[i].choice != ds[j].choice
    ensures var (d, front) := (ds[|ds| - 1], ds[..|ds| - 1]);
            && DeliveredPositions(ds) == DeliveredPositions(front) + {AsI32(d.choice)}
            && AsI32(d.choice) !in DeliveredPositions(front)
            && Positions([d.choice]) == {AsI32(d.choice)}
  {
    var d, front := ds[|ds| - 1], ds[..|ds| - 1];
    assert ds == front + [d];
    forall x | x in front
      ensures AsI32(x.choice) != AsI32(d.choice)
    {
      var i :| 0 <= i < |front| && front[i] == x;
      assert ds[i].choice != ds[|ds| - 1].choice;
      if AsI32(x.choice) == AsI32(d.choice) {
        AsI32Injective(x.choice, d.choice);
      }
    }
  }

  lemma NextTally(db: Db, db1: Db, p: PollId, actor: AccountId, ds: seq<Delivery>)
    requires ds != [] && Deliverable(db, p, actor, ds) && DeliveredAs(db, db1, p, actor, ds[..|ds| - 1])
    ensures var d := ds[|ds| - 1];
            DeliveredTally(db, RecordVote(db1, p, RemoteVoter(actor), {AsI32(d.choice)}, Some(d.activity), d.at), p, ds)
  {
    var d, front := ds[|ds| - 1], ds[..|ds| - 1];
    LastPosition(ds);
    BumpOneMore(db.options, p, DeliveredPositions(front), AsI32(d.choice));
    JoinedOnce(db, db1, p, actor, front);
  }

  lemma BumpOneMore(options: map<Slot, Choice>, p: PollId, positions: set<int>, q: int)
    requires q !in positions
    ensures Bump(Bump(options, p, positions), p, {q}) == Bump(options, p, positions + {q})
  {
  }

  /** The actor counts as a new voter for the first delivery only. */
  lemma JoinedOnce(db: Db, db1: Db, p: PollId, actor: AccountId, front: seq<Delivery>)
    requires DeliveredAs(db, db1, p, actor, front) && BallotsBy(db, p, RemoteVoter(actor)) == {}
    ensures BallotsBy(db1, p, RemoteVoter(actor)) == {} <==> front == []
  {
    if front != [] {
      assert front[0] in front;
      assert Ballot(p, RemoteVoter(actor), AsI32(front[0].choice)) in db1.votes.Keys;
      assert Ballot(p, RemoteVoter(actor), AsI32(front[0].choice)) in BallotsBy(db1, p, RemoteVoter(actor));
    } else {
      assert BallotsBy(db1, p, RemoteVoter(actor)) == BallotsBy(db, p, RemoteVoter(actor));
    }
  }

  lemma NextBallotRow(votes: map<Ballot, Option<ActivityId>>, votes1: map<Ballot, Option<ActivityId>>, p: PollId,
      voter: Voter, positions: set<int>, q: int, activity: Option<ActivityId>)
    requires votes1.Keys == votes.Keys + NewBallots(p, voter, positions) && Ballot(p, voter, q) !in votes
    requires forall b :: b in votes ==> votes1[b] == votes[b]
    ensures var votes2 := AddBallots(votes1, p, voter, {q}, activity);
            && votes2.Keys == votes.Keys + NewBallots(p, voter, positions + {q})
            && (forall b :: b in votes ==> votes2[b] == votes[b])
            && (forall b :: b in votes2 && b !in votes ==>
                votes2[b] == activity || (b in votes1 && votes2[b] == votes1[b]))
  {
  }

  lemma NextRows(votes: map<Ballot, Option<ActivityId>>, votes1: map<Ballot, Option<ActivityId>>, p: PollId,
      actor: AccountId, ds: seq<Delivery>)
    requires ds != [] && DeliveredRows(votes, votes1, p, actor, ds[..|ds| - 1])
    requires forall i, j :: 0 <= i < j < |ds| ==> ds[i].choice != ds[j].choice
    requires forall q :: Ballot(p, RemoteVoter(actor), q) !in votes
    ensures var d := ds[|ds| - 1];
            DeliveredRows(votes, AddBallots(votes1, p, RemoteVoter(actor), {AsI32(d.choice)}, Some(d.activity)), p,
                actor, ds)
  {
    var d, front, voter := ds[|ds| - 1], ds[..|ds| - 1], RemoteVoter(actor);
    LastPosition(ds);
    NextBallotRow(votes, votes1, p, voter, DeliveredPositions(front), AsI32(d.choice), Some(d.activity));
    var votes2 := AddBallots(votes1, p, voter, {AsI32(d.choice)}, Some(d.activity));
    forall b | b in votes2 && b !in votes
      ensures exists x :: x in ds && votes2[b] == Some(x.activity)
    {
      if votes2[b] == Some(d.activity) {
        assert d in ds;
      } else {
        var x :| x in front && votes1[b] == Some(x.activity);
        assert x in ds;
      }
    }
  }

  lemma NothingDelivered(db: Db, p: PollId, actor: AccountId)
    requires p in db.polls
    ensures DeliveredAs(db, db, p, actor, [])
  {
    assert DeliveredPositions([]) == {};
    assert NewBallots(p, RemoteVoter(actor), {}) == {};
    assert Bump(db.options, p, {}) == db.options;
  }

  lemma NextDelivery(db: Db, db1: Db, p: PollId, actor: AccountId, ds: seq<Delivery>)
    requires ds != [] && Deliverable(db, p, actor, ds) && DeliveredAs(db, db1, p, actor, ds[..|ds| - 1])
    ensures var d := ds[|ds| - 1];
            DeliveredAs(db, RecordVote(db1, p, RemoteVoter(actor), {AsI32(d.choice)}, Some(d.activity), d.at), p,
                actor, ds)
  {
    NextTally(db, db1, p, actor, ds);
    forall q
      ensures Ballot(p, RemoteVoter(actor), q) !in db.votes
    {
      assert Ballot(p, RemoteVoter(actor), q) !in BallotsBy(db, p, RemoteVoter(actor));
    }
    NextRows(db.votes, db1.votes, p, actor, ds);
  }

  lemma FewerDeliverable(db: Db, p: PollId, actor: AccountId, ds: seq<Delivery>)
    requires ds != [] && Deliverable(db, p, actor, ds)
    ensures Deliverable(db, p, actor, ds[..|ds| - 1])
  {
  }

  lemma {:induction false} DeliveriesInAnyOrder(db: Db, p: PollId, actor: AccountId, ds: seq<Delivery>)
    requires Deliverable(db, p, actor, ds)
    ensures Deliver(db, p, actor, ds).Ok? && DeliveredAs(db, Deliver(db, p, actor, ds).value, p, actor, ds)
    decreases |ds|
  {
    if ds == [] {
      NothingDelivered(db, p, actor);
    } else {
      var d, front := ds[|ds| - 1], ds[..|ds| - 1];
      FewerDeliverable(db, p, actor, ds);
      DeliveriesInAnyOrder(db, p, actor, front);
      var db1 := Deliver(db, p, actor, front).value;
      NextDeliveryAccepted(db, db1, p, actor, ds);
      assert Positions([d.choice]) == {AsI32(d.choice)};
      assert Deliver(db, p, actor, ds) ==
          Ok(RecordVote(db1, p, RemoteVoter(actor), {AsI32(d.choice)}, Some(d.activity), d.at));
      NextDelivery(db, db1, p, actor, ds);
    }
  }

  /** The same counters and number of voters, and like rows for the two voters. */
  ghost predicate SameOutcome(one: Db, all: Db, p: PollId, a: Voter, b: Voter) {
    && p in one.polls && p in all.polls
    && one.options == all.options
    && one.polls[p].votersCount == all.polls[p].votersCount
    && forall q :: Ballot(p, a, q) in one.votes <==> Ballot(p, b, q) in all.votes
  }

  /**
   Choices delivered one by one, in whatever order, give the tallies and the voter count of one vote
   for all of them, however that vote lists and repeats them, and one ballot per choice either way.
   */
  lemma SeparateVotesEqualBatch(db: Db, p: PollId, actor: AccountId, ds: seq<Delivery>, batch: Vote)
    requires Deliverable(db, p, actor, ds)
    requires batch.poll == p && BallotsBy(db, p, batch.voter) == {} && Cast(db, batch).Ok?
    requires Selected(batch.choices) == set d | d in ds :: d.choice
    ensures Deliver(db, p, actor, ds).Ok?
    ensures SameOutcome(Deliver(db, p, actor, ds).value, Cast(db, batch).value, p, RemoteVoter(actor), batch.voter)
  {
    DeliveriesInAnyOrder(db, p, actor, ds);
    SamePositionsChosen(ds, batch.choices);
    BatchTally(db, batch);
    CompareOutcomes(db, Deliver(db, p, actor, ds).value, Cast(db, batch).value, actor, ds, batch);
  }

  lemma CompareOutcomes(db: Db, one: Db, all: Db, actor: AccountId, ds: seq<Delivery>, batch: Vote)
    requires DeliveredAs(db, one, batch.poll, actor, ds) && BatchedAs(db, all, batch)
    requires ds != [] && DeliveredPositions(ds) == Positions(batch.choices)
    requires BallotsBy(db, batch.poll, RemoteVoter(actor)) == {} && BallotsBy(db, batch.poll, batch.voter) == {}
    ensures SameOutcome(one, all, batch.poll, RemoteVoter(actor), batch.voter)
  {
    SameBallots(db, one, all, batch.poll, RemoteVoter(actor), batch.voter, Positions(batch.choices));
  }

  /** Two voters who start without rows and vote for the same positions end up with like rows. */
  lemma SameBallots(db: Db, one: Db, all: Db, p: PollId, a: Voter, b: Voter, positions: set<int>)
    requires BallotsBy(db, p, a) == {} && BallotsBy(db, p, b) == {}
    requires one.votes.Keys == db.votes.Keys + NewBallots(p, a, positions)
    requires all.votes.Keys == db.votes.Keys + NewBallots(p, b, positions)
    ensures forall q :: Ballot(p, a, q) in one.votes <==> Ballot(p, b, q) in all.votes
  {
    NewVoterHasNoRows(db, p, a);
    NewVoterHasNoRows(db, p, b);
  }

  /** A set of choices names the same positions whether delivered or listed. */
  lemma SamePositionsChosen(ds: seq<Delivery>, choices: seq<U32>)
    requires Selected(choices) == set d | d in ds :: d.choice
    ensures DeliveredPositions(ds) == Positions(choices)
    ensures choices != [] ==> ds != []
  {
    forall d | d in ds
      ensures AsI32(d.choice) in Positions(choices)
    {
      assert d.choice in Selected(choices);
    }
    forall c | c in choices
      ensures AsI32(c) in DeliveredPositions(ds)
    {
      assert c in Selected(choices);
    }
    assert choices != [] ==> choices[0] in Selected(choices);
  }

  lemma NewVoterHasNoRows(db: Db, p: PollId, voter: Voter)
    requires BallotsBy(db, p, voter) == {}
    ensures forall q :: Ballot(p, voter, q) !in db.votes
  {
    forall q
      ensures Ballot(p, voter, q) !in db.votes
    {
      assert Ballot(p, voter, q) !in BallotsBy(db, p, voter);
    }
  }

  /** What an accepted vote of a new voter does, counter by counter and row by row. */
  ghost predicate BatchedAs(db: Db, all: Db, batch: Vote) {
    && batch.poll in db.polls && batch.poll in all.polls
    && all.options == Bump(db.options, batch.poll, Positions(batch.choices))
    && all.polls[batch.poll].votersCount == Joined(db.polls[batch.poll], true, batch.at).votersCount
    && all.votes.Keys == db.votes.Keys + NewBallots(batch.poll, batch.voter, Positions(batch.choices))
  }

  lemma BatchTally(db: Db, batch: Vote)
    requires Cast(db, batch).Ok? && BallotsBy(db, batch.poll, batch.voter) == {}
    ensures batch.choices != [] && BatchedAs(db, Cast(db, batch).value, batch)
  {
  }
}
