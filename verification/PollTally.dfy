/**
 The cached counters of a local poll always agree with its vote rows.

 `votes_count` of every option and `voters_count` of the poll are caches. `Tallied` says what they
 must equal, `TallyAlwaysHolds` that they do after any run, and the last two theorems what clients
 may conclude about the totals.
 */
module PollTally {
  import opened Prelude
  import opened PollModel
  import opened PollRuns
  import opened PollFrames

  /** Positions are exactly 0..n-1 and the two caches equal what the vote rows say. */
  ghost predicate TalliedWith(db: Db, p: PollId, n: nat)
    requires p in db.polls
  {
    && (forall i: int :: Slot(p, i) in db.options <==> 0 <= i < n)
    && (forall i :: 0 <= i < n ==> db.options[Slot(p, i)].votes == |BallotsAt(db, p, i)|)
    && db.polls[p].votersCount == Some(|VotersOf(db, p)|)
    && (!db.polls[p].multiple ==> SingleBallots(db, p))
  }

  ghost predicate SingleBallots(db: Db, p: PollId) {
    forall b, c :: b in BallotsOf(db, p) && c in BallotsOf(db, p) && b.voter == c.voter ==> b == c
  }

  ghost predicate Tallied(db: Db, p: PollId)
    requires p in db.polls
  {
    exists n: nat :: TalliedWith(db, p, n)
  }

  ghost predicate TallyInvariant(db: Db) {
    && Sound(db)
    && (forall p :: p in db.polls && db.polls[p].status.Local? ==> Tallied(db, p))
  }

  // ---------------------------------------------------------------- one transaction

  lemma SameRowsKeepTally(db: Db, db': Db, p: PollId)
    requires p in db.polls && p in db'.polls && SameBallotRows(db, db', p) && Tallied(db, p)
    requires db'.polls[p].votersCount == db.polls[p].votersCount && db'.polls[p].multiple == db.polls[p].multiple
    ensures Tallied(db', p)
  {
    var n: nat :| TalliedWith(db, p, n);
    SameRowsSets(db, db', p);
    forall i | 0 <= i < n
      ensures db'.options[Slot(p, i)].votes == |BallotsAt(db', p, i)|
    {
      assert BallotsAt(db', p, i) == BallotsAt(db, p, i);
    }
    assert TalliedWith(db', p, n);
  }

  /** A transaction on one poll keeps the invariant if that poll comes out tallied. */
  lemma ElsewhereKeepsTally(db: Db, db': Db, p: PollId)
    requires TallyInvariant(db) && Sound(db') && Elsewhere(db, db', p)
    requires p in db'.polls && db'.polls[p].status.Local? ==> Tallied(db', p)
    ensures TallyInvariant(db')
  {
    forall q | q in db'.polls && db'.polls[q].status.Local?
      ensures Tallied(db', q)
    {
      if q != p {
        assert SameRows(db, db', q);
        SameRowsKeepTally(db, db', q);
      }
    }
  }

  /** Fresh options with zero counts and no votes are a correct tally of nothing. */
  lemma RewriteIsTallied(db: Db, db': Db, p: PollId, poll: Poll, titles: seq<string>)
    requires Rewrote(db, db', p, poll, ZeroRows(titles)) && poll.votersCount == Some(0)
    ensures Tallied(db', p)
  {
    var n := |titles|;
    assert VotersOf(db', p) == {};
    forall i | 0 <= i < n
      ensures db'.options[Slot(p, i)].votes == |BallotsAt(db', p, i)|
    {
      assert BallotsAt(db', p, i) == {};
    }
    assert TalliedWith(db', p, n);
  }

  /** What a recorded vote does to the number of ballots at a position. */
  lemma RecordedCount(db: Db, p: PollId, voter: Voter, positions: set<int>, activity: Option<ActivityId>, now: Time,
      i: int)
    requires p in db.polls && (i in positions ==> Ballot(p, voter, i) !in db.votes)
    ensures |BallotsAt(RecordVote(db, p, voter, positions, activity, now), p, i)| ==
        |BallotsAt(db, p, i)| + if i in positions then 1 else 0
  {
    AddedCount(db, RecordVote(db, p, voter, positions, activity, now), p, voter, positions, i);
  }

  lemma AddedCount(db: Db, db': Db, p: PollId, voter: Voter, positions: set<int>, i: int)
    requires db'.votes.Keys == db.votes.Keys + NewBallots(p, voter, positions)
    requires i in positions ==> Ballot(p, voter, i) !in db.votes
    ensures |BallotsAt(db', p, i)| == |BallotsAt(db, p, i)| + if i in positions then 1 else 0
  {
    if i in positions {
      assert BallotsAt(db', p, i) == BallotsAt(db, p, i) + {Ballot(p, voter, i)};
    } else {
      assert BallotsAt(db', p, i) == BallotsAt(db, p, i);
    }
  }

  /** What it does to the number of voters. */
  lemma RecordedVoters(db: Db, p: PollId, voter: Voter, positions: set<int>, activity: Option<ActivityId>, now: Time)
    requires p in db.polls && exists q :: q in positions
    ensures |VotersOf(RecordVote(db, p, voter, positions, activity, now), p)| ==
        |VotersOf(db, p)| + if BallotsBy(db, p, voter) == {} then 1 else 0
  {
    var db' := RecordVote(db, p, voter, positions, activity, now);
    forall v | v in VotersOf(db', p)
      ensures v in VotersOf(db, p) + {voter}
    {
      var b :| b in db'.votes && b.poll == p && b.voter == v;
      assert b in db.votes || b in NewBallots(p, voter, positions);
    }
    forall v | v in VotersOf(db, p) + {voter}
      ensures v in VotersOf(db', p)
    {
      if v == voter {
        var q :| q in positions;
        assert Ballot(p, voter, q) in db'.votes;
      } else {
        var b :| b in db.votes && b.poll == p && b.voter == v;
        assert b in db'.votes;
      }
    }
    assert VotersOf(db', p) == VotersOf(db, p) + {voter};
    VoterKnown(db, p, voter);
    if voter in VotersOf(db, p) {
      assert VotersOf(db, p) + {voter} == VotersOf(db, p);
    }
  }

  lemma RecordedSingle(db: Db, p: PollId, voter: Voter, positions: set<int>, activity: Option<ActivityId>, now: Time)
    requires p in db.polls && SingleBallots(db, p) && BallotsBy(db, p, voter) == {}
    requires forall q, r :: q in positions && r in positions ==> q == r
    ensures SingleBallots(RecordVote(db, p, voter, positions, activity, now), p)
  {
    var db' := RecordVote(db, p, voter, positions, activity, now);
    assert forall b :: b in BallotsOf(db, p) && b.voter == voter ==> b in BallotsBy(db, p, voter);
    assert forall b :: b in BallotsOf(db', p) ==> b in BallotsOf(db, p) || b in NewBallots(p, voter, positions);
  }

  /** An accepted vote moves every cache by exactly what it moves the rows. */
  lemma RecordVoteKeepsTally(db: Db, p: PollId, voter: Voter, positions: set<int>, activity: Option<ActivityId>,
      now: Time)
    requires p in db.polls && Tallied(db, p)
    requires exists q :: q in positions
    requires forall q :: q in positions ==> Ballot(p, voter, q) !in db.votes
    requires !db.polls[p].multiple ==>
        BallotsBy(db, p, voter) == {} && forall q, r :: q in positions && r in positions ==> q == r
    ensures Tallied(RecordVote(db, p, voter, positions, activity, now), p)
  {
    var db' := RecordVote(db, p, voter, positions, activity, now);
    var n: nat :| TalliedWith(db, p, n);
    forall i | 0 <= i < n
      ensures db'.options[Slot(p, i)].votes == |BallotsAt(db', p, i)|
    {
      RecordedCount(db, p, voter, positions, activity, now, i);
    }
    RecordedVoters(db, p, voter, positions, activity, now);
    if !db.polls[p].multiple {
      RecordedSingle(db, p, voter, positions, activity, now);
    }
    assert TalliedWith(db', p, n);
  }

  lemma VoterKnown(db: Db, p: PollId, voter: Voter)
    ensures voter in VotersOf(db, p) <==> BallotsBy(db, p, voter) != {}
  {
    if voter in VotersOf(db, p) {
      var b :| b in db.votes && b.poll == p && b.voter == voter;
      assert b in BallotsBy(db, p, voter);
    }
    if BallotsBy(db, p, voter) != {} {
      var b :| b in BallotsBy(db, p, voter);
      assert b in db.votes && b.poll == p && b.voter == voter;
    }
  }

  lemma VoteKeepsTally(db: Db, p: PollId, voter: Voter, choices: seq<U32>, activity: Option<ActivityId>, now: Time)
    requires TallyInvariant(db)
    ensures TallyInvariant(VoteStep(db, p, voter, choices, activity, now))
  {
    if VoteRejection(db, p, voter, choices, activity, now).None? {
      AcceptedVoteKeepsTally(db, p, voter, choices, activity, now);
      JobsDoNotMatter(RecordVote(db, p, voter, Positions(choices), activity, now),
          VoteStep(db, p, voter, choices, activity, now));
    }
  }

  lemma AcceptedVoteKeepsTally(db: Db, p: PollId, voter: Voter, choices: seq<U32>, activity: Option<ActivityId>,
      now: Time)
    requires TallyInvariant(db) && VoteRejection(db, p, voter, choices, activity, now).None?
    ensures TallyInvariant(RecordVote(db, p, voter, Positions(choices), activity, now))
  {
    var positions := Positions(choices);
    assert AsI32(choices[0]) in positions;
    if !db.polls[p].multiple {
      OneSelected(choices);
    }
    RecordKeepsInvariant(db, p, voter, positions, activity, now);
  }

  lemma RecordKeepsInvariant(db: Db, p: PollId, voter: Voter, positions: set<int>, activity: Option<ActivityId>,
      now: Time)
    requires TallyInvariant(db) && p in db.polls && exists q :: q in positions
    requires forall q :: q in positions ==> Slot(p, q) in db.options && Ballot(p, voter, q) !in db.votes
    requires !db.polls[p].multiple ==>
        BallotsBy(db, p, voter) == {} && forall q, r :: q in positions && r in positions ==> q == r
    ensures TallyInvariant(RecordVote(db, p, voter, positions, activity, now))
  {
    var db' := RecordVote(db, p, voter, positions, activity, now);
    if db.polls[p].status.Local? {
      RecordVoteKeepsTally(db, p, voter, positions, activity, now);
    }
    VoteRows(db, p, voter, positions, activity, now);
    StatusesStayUnique(db, db', p, db'.polls[p]);
    ElsewhereKeepsTally(db, db', p);
  }

  lemma OneSelected(choices: seq<U32>)
    requires |Selected(choices)| == 1
    ensures forall q, r :: q in Positions(choices) && r in Positions(choices) ==> q == r
  {
    var c :| Selected(choices) == {c} by {
      var c := choices[0];
      assert c in Selected(choices);
      assert |Selected(choices) - {c}| == 0;
      assert Selected(choices) == {c};
    }
    assert forall d :: d in choices ==> d in Selected(choices);
  }

  lemma JobsDoNotMatter(db: Db, db': Db)
    requires TallyInvariant(db)
    requires db'.polls == db.polls && db'.options == db.options && db'.votes == db.votes
    ensures TallyInvariant(db')
  {
    forall p | p in db'.polls && db'.polls[p].status.Local?
      ensures Tallied(db', p)
    {
      SameRowsKeepTally(db, db', p);
    }
  }

  lemma CreateKeepsTally(env: Instance, db: Db, id: PollId, status: StatusId, input: NewPoll, now: Time)
    requires TallyInvariant(db)
    ensures TallyInvariant(Committed(db, CreateLocalPoll(env, db, id, status, input, now)))
  {
    var result := CreateLocalPoll(env, db, id, status, input, now);
    if result.Ok? {
      CreateRows(env, db, id, status, input, now);
      StatusesStayUnique(db, result.value, id, CreatedPoll(status, input, now));
      RewriteIsTallied(db, result.value, id, CreatedPoll(status, input, now), input.options);
      ElsewhereKeepsTally(db, result.value, id);
    }
  }

  lemma EditKeepsTally(env: Instance, db: Db, freshId: PollId, status: StatusId, input: Option<NewPoll>, now: Time)
    requires TallyInvariant(db)
    ensures TallyInvariant(Committed(db, EditLocalPoll(env, db, freshId, status, input, now)))
  {
    var result := EditLocalPoll(env, db, freshId, status, input, now);
    var existing := PollFor(db, Local(status));
    if existing.Some? && input.None? {
      DeleteRows(db, existing.value);
      ElsewhereKeepsTally(db, result.value, existing.value);
    } else if existing.Some? && result.Ok? {
      EditExistingKeepsTally(db, existing.value, input.value, now);
    } else if input.Some? {
      CreateKeepsTally(env, db, freshId, status, input.value, now);
    }
  }

  lemma EditExistingKeepsTally(db: Db, p: PollId, input: NewPoll, now: Time)
    requires TallyInvariant(db) && p in db.polls && db.polls[p].status.Local?
    ensures TallyInvariant(EditExistingPoll(db, p, input, now))
  {
    var db' := EditExistingPoll(db, p, input, now);
    if EditChanges(db, p, input) {
      ChangedEditRows(db, p, input, now);
      RewriteIsTallied(db, db', p, EditedPoll(db.polls[p], input, true, now), input.options);
    } else {
      UnchangedEditRows(db, p, input, now);
      SameRowsKeepTally(db, db', p);
    }
    ElsewhereKeepsTally(db, db', p);
  }

  lemma RefreshKeepsTally(db: Db, freshId: PollId, status: StatusId, input: RemotePoll, now: Time)
    requires TallyInvariant(db)
    ensures TallyInvariant(Committed(db, RefreshRemotePoll(db, freshId, status, input, now)))
  {
    var result := RefreshRemotePoll(db, freshId, status, input, now);
    var existing := PollFor(db, Remote(status));
    if result.Ok? && existing.Some? {
      RefreshRows(db, existing.value, input, now);
      StatusesStayUnique(db, result.value, existing.value, RefreshedPoll(db.polls[existing.value], input, now));
      ElsewhereKeepsTally(db, result.value, existing.value);
    } else if result.Ok? {
      InsertRows(db, freshId, status, input, now);
      StatusesStayUnique(db, result.value, freshId, InsertedPoll(status, input, now));
      ElsewhereKeepsTally(db, result.value, freshId);
    }
  }

  lemma ExpireKeepsTally(env: Instance, db: Db, p: PollId, now: Time)
    requires TallyInvariant(db)
    ensures TallyInvariant(ExpireStep(env, db, p, now).0)
  {
    var db' := ExpireStep(env, db, p, now).0;
    ExpireRows(env, db, p, now);
    if db'.polls == db.polls {
      JobsDoNotMatter(db, db');
    } else {
      PollRowKeepsTally(db, db', p, ClosedPoll(db.polls[p], now));
    }
  }

  lemma PollRowKeepsTally(db: Db, db': Db, p: PollId, poll: Poll)
    requires TallyInvariant(db) && p in db.polls && db'.polls == db.polls[p := poll]
    requires db'.options == db.options && db'.votes == db.votes
    requires poll.status == db.polls[p].status && poll.votersCount == db.polls[p].votersCount
        && poll.multiple == db.polls[p].multiple
    ensures TallyInvariant(db')
  {
    StatusesStayUnique(db, db', p, poll);
    if poll.status.Local? {
      SameRowsKeepTally(db, db', p);
    }
    assert forall q: PollId :: q != p ==> SameRows(db, db', q);
    ElsewhereKeepsTally(db, db', p);
  }

  lemma ExpireRows(env: Instance, db: Db, p: PollId, now: Time)
    ensures var db' := ExpireStep(env, db, p, now).0;
            && db'.options == db.options && db'.votes == db.votes
            && (db'.polls == db.polls || (p in db.polls && db'.polls == db.polls[p := ClosedPoll(db.polls[p], now)]))
  {
  }

  // ---------------------------------------------------------------- runs

  lemma StepKeepsTally(env: Instance, s: System, e: Event)
    requires TallyInvariant(s.db)
    ensures TallyInvariant(Apply(env, s, e).db)
  {
    match e.step
    case Create(id, status, input) => CreateKeepsTally(env, s.db, id, status, input, e.at);
    case VoteLocally(p, account, choices) => VoteKeepsTally(s.db, p, LocalVoter(account), choices, None, e.at);
    case VoteRemotely(p, actor, choice, activity) =>
        VoteKeepsTally(s.db, p, RemoteVoter(actor), [choice], Some(activity), e.at);
    case Edit(freshId, status, input) => EditKeepsTally(env, s.db, freshId, status, input, e.at);
    case Refresh(freshId, status, input) => RefreshKeepsTally(s.db, freshId, status, input, e.at);
    case RunHandler(c, fails) => HandlerKeepsTally(env, s, c, fails, e.at);
    case _ => QueueStepKeepsTally(env, s, e);
  }

  lemma HandlerKeepsTally(env: Instance, s: System, c: ClaimId, fails: bool, now: Time)
    requires TallyInvariant(s.db)
    ensures TallyInvariant(HandlerStep(env, s, c, fails, now).db)
  {
    if c in s.claims && s.claims[c].job < |s.db.jobs| {
      ExpireKeepsTally(env, s.db, s.db.jobs[s.claims[c].job].poll, now);
    }
  }

  lemma QueueStepKeepsTally(env: Instance, s: System, e: Event)
    requires TallyInvariant(s.db) && (e.step.ClaimJob? || e.step.Finish? || e.step.DeleteNotices?)
    ensures TallyInvariant(Apply(env, s, e).db)
  {
    JobsDoNotMatter(s.db, Apply(env, s, e).db);
  }

  /** In every run, every local poll's counters equal its vote rows. */
  lemma {:induction false} TallyAlwaysHolds(env: Instance, s: System, events: seq<Event>)
    requires TallyInvariant(s.db)
    ensures TallyInvariant(Run(env, s, events).db)
    decreases |events|
  {
    if events != [] {
      StepKeepsTally(env, s, events[0]);
      TallyAlwaysHolds(env, Apply(env, s, events[0]), events[1..]);
    }
  }

  lemma TallyHoldsFromStart(env: Instance, clock: Time, events: seq<Event>)
    ensures TallyInvariant(Run(env, Start(clock), events).db)
  {
    TallyAlwaysHolds(env, Start(clock), events);
  }

  // ---------------------------------------------------------------- totals

  /** The total a client is shown: the sum of the option counters. */
  ghost function VotesShown(db: Db, p: PollId, n: nat): int
    requires forall i :: 0 <= i < n ==> Slot(p, i) in db.options
  {
    if n == 0 then 0 else VotesShown(db, p, n - 1) + db.options[Slot(p, n - 1)].votes
  }

  ghost function BallotsBelow(db: Db, p: PollId, n: nat): set<Ballot> {
    set b | b in db.votes && b.poll == p && 0 <= b.position < n
  }

  lemma {:induction false} ShownIsBallots(db: Db, p: PollId, m: nat, n: nat)
    requires p in db.polls && TalliedWith(db, p, n) && m <= n
    ensures VotesShown(db, p, m) == |BallotsBelow(db, p, m)|
    ensures VotesShown(db, p, m) <= m * |VotersOf(db, p)|
  {
    if m == 0 {
      assert BallotsBelow(db, p, 0) == {};
    } else {
      ShownIsBallots(db, p, m - 1, n);
      assert BallotsBelow(db, p, m) == BallotsBelow(db, p, m - 1) + BallotsAt(db, p, m - 1);
      var at := BallotsAt(db, p, m - 1);
      VoterCount(at);
      assert (set b | b in at :: b.voter) <= VotersOf(db, p);
      SubsetSize(set b | b in at :: b.voter, VotersOf(db, p));
      assert m * |VotersOf(db, p)| == (m - 1) * |VotersOf(db, p)| + |VotersOf(db, p)|;
    }
  }

  /** Voters among some ballots: no more than the ballots, and as many when nobody occurs twice. */
  lemma {:induction false} VoterCount(ballots: set<Ballot>)
    ensures |set b | b in ballots :: b.voter| <= |ballots|
    ensures (forall b, c :: b in ballots && c in ballots && b.voter == c.voter ==> b == c) ==>
        |set b | b in ballots :: b.voter| == |ballots|
    decreases |ballots|
  {
    if ballots != {} {
      var b :| b in ballots;
      var rest := ballots - {b};
      VoterCount(rest);
      assert (set c | c in ballots :: c.voter) == (set c | c in rest :: c.voter) + {b.voter};
    }
  }

  /**
   What the caches promise together: the shown total is the number of vote rows, equals the voter
   count in a single-choice poll, and lies between the voters and voters times options otherwise.
   */
  lemma TotalsAreConsistent(db: Db, p: PollId, n: nat)
    requires ForeignKeys(db) && p in db.polls && TalliedWith(db, p, n)
    ensures VotesShown(db, p, n) == |BallotsOf(db, p)|
    ensures !db.polls[p].multiple ==> Some(VotesShown(db, p, n)) == db.polls[p].votersCount
    ensures db.polls[p].votersCount.value <= VotesShown(db, p, n) <= db.polls[p].votersCount.value * n
  {
    ShownIsBallots(db, p, n, n);
    assert BallotsBelow(db, p, n) == BallotsOf(db, p) by {
      forall b | b in BallotsOf(db, p)
        ensures b in BallotsBelow(db, p, n)
      {
        assert b.At() in db.options;
      }
    }
    VoterCount(BallotsOf(db, p));
    assert (set b | b in BallotsOf(db, p) :: b.voter) == VotersOf(db, p);
  }
}
