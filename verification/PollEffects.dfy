/**
 What each poll request does to the tables, said from the request's own fields.

 `PollModel` computes the tables after a transaction; the laws here read them off row by row and field
 by field, with the numbers of the original, and say for every request when it is accepted.
 */
module PollEffects {
  import opened Prelude
  import opened Text
  import opened PollModel
  import opened PollFrames

  // ---------------------------------------------------------------- votes

  /** The position, as a number, is one of the choices. */
  predicate Names(choices: seq<U32>, q: int) {
    exists i :: 0 <= i < |choices| && choices[i] == q
  }

  predicate OneChoice(choices: seq<U32>) {
    forall i, j :: 0 <= i < j < |choices| ==> choices[i] == choices[j]
  }

  ghost predicate HasVoted(db: Db, p: PollId, voter: Voter) {
    exists q :: Ballot(p, voter, q) in db.votes
  }

  /** Neither closed nor past its deadline. */
  predicate TakesVotes(poll: Poll, now: Time) {
    poll.closedAt == None && (poll.expiresAt.Some? ==> now < poll.expiresAt.value)
  }

  /** Positions of options are what the signed column can hold, counted from zero. */
  ghost predicate PositionsCounted(db: Db, p: PollId) {
    forall s :: s in db.options && s.poll == p ==> 0 <= s.position < 0x8000_0000
  }

  /** The stored position is the one signed 32-bit number congruent to the choice. */
  lemma ChoiceIsCongruent(c: U32)
    ensures -0x8000_0000 <= AsI32(c) < 0x8000_0000
    ensures exists k :: c == AsI32(c) + k * 0x1_0000_0000
    ensures c < 0x8000_0000 ==> AsI32(c) == c
  {
    if c < 0x8000_0000 {
      assert c == AsI32(c) + 0 * 0x1_0000_0000;
    } else {
      assert c == AsI32(c) + 1 * 0x1_0000_0000;
    }
  }

  lemma PositionsAreNames(choices: seq<U32>, q: int)
    requires forall i :: 0 <= i < |choices| ==> choices[i] < 0x8000_0000
    ensures q in Positions(choices) <==> Names(choices, q)
  {
    if q in Positions(choices) {
      var c :| c in choices && AsI32(c) == q;
      ChoiceIsCongruent(c);
    }
    if i :| 0 <= i < |choices| && choices[i] == q {
      assert AsI32(choices[i]) in Positions(choices);
    }
  }

  ghost predicate BallotsRecorded(db: Db, db': Db, p: PollId, voter: Voter, choices: seq<U32>,
      activity: Option<ActivityId>) {
    && (forall b :: b in db'.votes <==>
        b in db.votes || (b.poll == p && b.voter == voter && Names(choices, b.position)))
    && (forall b :: b in db.votes ==> db'.votes[b] == db.votes[b])
    && (forall b :: b in db'.votes && b !in db.votes ==> db'.votes[b] == activity)
  }

  ghost predicate CountersMoved(db: Db, db': Db, p: PollId, choices: seq<U32>) {
    && (forall s :: s in db'.options <==> s in db.options)
    && (forall s :: s in db.options ==>
        && db'.options[s].title == db.options[s].title
        && db'.options[s].votes == db.options[s].votes + if s.poll == p && Names(choices, s.position) then 1 else 0)
  }

  predicate PollVoted(poll: Poll, poll': Poll, first: bool, now: Time) {
    && poll'.status == poll.status && poll'.multiple == poll.multiple && poll'.hideTotals == poll.hideTotals
    && poll'.expiresAt == poll.expiresAt && poll'.closedAt == poll.closedAt && poll'.notifiedAt == poll.notifiedAt
    && poll'.updatedAt == now
    && match poll.votersCount
       case None => poll'.votersCount == None
       case Some(n) => poll'.votersCount == Some(if first then n + 1 else n)
  }

  /** The rows of every other poll, and of no poll, are the same. */
  ghost predicate OnlyRow(polls: map<PollId, Poll>, polls': map<PollId, Poll>, p: PollId) {
    && p in polls'
    && (forall q :: q != p ==> (q in polls' <==> q in polls))
    && (forall q :: q != p && q in polls ==> polls'[q] == polls[q])
  }

  /**
   An accepted vote writes one ballot under each number it names and under no other, adds one to the
   counts of exactly those options, and counts the voter if this is the voter's first ballot.
   */
  lemma AcceptedVoteIsRecorded(db: Db, p: PollId, voter: Voter, choices: seq<U32>, activity: Option<ActivityId>,
      now: Time)
    requires CastVote(db, p, voter, choices, activity, now).Ok?
    requires forall i :: 0 <= i < |choices| ==> choices[i] < 0x8000_0000
    ensures var db' := CastVote(db, p, voter, choices, activity, now).value;
            && BallotsRecorded(db, db', p, voter, choices, activity)
            && CountersMoved(db, db', p, choices)
            && p in db.polls && OnlyRow(db.polls, db'.polls, p)
            && PollVoted(db.polls[p], db'.polls[p], !HasVoted(db, p, voter), now)
            && db'.notices == db.notices && db'.jobs == db.jobs
    ensures forall q :: Names(choices, q) ==> Slot(p, q) in db.options && Ballot(p, voter, q) !in db.votes
  {
    forall q
      ensures q in Positions(choices) <==> Names(choices, q)
    {
      PositionsAreNames(choices, q);
    }
    VotedIff(db, p, voter);
  }

  lemma VotedIff(db: Db, p: PollId, voter: Voter)
    ensures HasVoted(db, p, voter) <==> BallotsBy(db, p, voter) != {}
  {
    if HasVoted(db, p, voter) {
      var q :| Ballot(p, voter, q) in db.votes;
      assert Ballot(p, voter, q) in BallotsBy(db, p, voter);
    }
    if BallotsBy(db, p, voter) != {} {
      var b := Pick(BallotsBy(db, p, voter));
      assert b == Ballot(p, voter, b.position);
    }
  }

  lemma OneChoiceIff(choices: seq<U32>)
    requires choices != []
    ensures OneChoice(choices) <==> |Selected(choices)| == 1
  {
    assert choices[0] in Selected(choices);
    if OneChoice(choices) {
      assert Selected(choices) == {choices[0]};
    } else {
      var i, j :| 0 <= i < j < |choices| && choices[i] != choices[j];
      SubsetSize({choices[i], choices[j]}, Selected(choices));
    }
  }

  /** Why the checks of a vote turn it away, in their order. */
  ghost function Objection(db: Db, p: PollId, voter: Voter, choices: seq<U32>, activity: Option<ActivityId>,
      now: Time): Option<VoteError> {
    if p !in db.polls then Some(NotFound)
    else if !TakesVotes(db.polls[p], now) then Some(Expired)
    else if choices == [] then Some(InvalidChoice)
    else if !db.polls[p].multiple && !OneChoice(choices) then Some(MultipleChoices)
    else if HasVoted(db, p, voter) && !(voter.RemoteVoter? && db.polls[p].multiple) then Some(AlreadyVoted)
    else if exists i :: 0 <= i < |choices| && Slot(p, choices[i]) !in db.options then Some(InvalidChoice)
    else if exists i :: 0 <= i < |choices| && Ballot(p, voter, choices[i]) in db.votes then Some(AlreadyVoted)
    else if activity.Some? && !(OneChoice(choices) && forall b :: b in db.votes ==> db.votes[b] != activity)
      then Some(VoteDatabase)
    else None
  }

  /** A vote is answered with the first objection to it and accepted when there is none. */
  lemma VoteIsAnswered(db: Db, p: PollId, voter: Voter, choices: seq<U32>, activity: Option<ActivityId>, now: Time)
    requires PositionsCounted(db, p)
    ensures var r, objection := CastVote(db, p, voter, choices, activity, now),
                Objection(db, p, voter, choices, activity, now);
            (r.Ok? <==> objection == None) && (r.Err? ==> objection == Some(r.error))
  {
    VotedIff(db, p, voter);
    if choices != [] {
      OneChoiceIff(choices);
      OptionsNamed(db, p, voter, choices);
    }
  }

  lemma OptionsNamed(db: Db, p: PollId, voter: Voter, choices: seq<U32>)
    requires PositionsCounted(db, p)
    ensures (exists q | q in Positions(choices) :: Slot(p, q) !in db.options) <==>
        exists i :: 0 <= i < |choices| && Slot(p, choices[i]) !in db.options
    ensures (forall q | q in Positions(choices) :: Slot(p, q) in db.options) ==>
        ((exists q | q in Positions(choices) :: Ballot(p, voter, q) in db.votes) <==>
            exists i :: 0 <= i < |choices| && Ballot(p, voter, choices[i]) in db.votes)
  {
    forall i | 0 <= i < |choices|
      ensures AsI32(choices[i]) in Positions(choices)
      ensures Slot(p, AsI32(choices[i])) in db.options <==> Slot(p, choices[i]) in db.options
      ensures Slot(p, choices[i]) in db.options ==> AsI32(choices[i]) == choices[i]
    {
      ChoiceIsCongruent(choices[i]);
    }
    forall q | q in Positions(choices)
      ensures exists i :: 0 <= i < |choices| && AsI32(choices[i]) == q
    {
      var c :| c in choices && AsI32(c) == q;
    }
  }

  /** An accepted vote names numbers below 2^31: what wraps round is no option's position. */
  lemma AcceptedChoicesAreSmall(db: Db, p: PollId, voter: Voter, choices: seq<U32>, activity: Option<ActivityId>,
      now: Time)
    requires PositionsCounted(db, p) && CastVote(db, p, voter, choices, activity, now).Ok?
    ensures forall i :: 0 <= i < |choices| ==> choices[i] < 0x8000_0000
  {
    VoteIsAnswered(db, p, voter, choices, activity, now);
    forall i | 0 <= i < |choices|
      ensures choices[i] < 0x8000_0000
    {
      assert Slot(p, choices[i]) in db.options;
    }
  }

  // ---------------------------------------------------------------- local polls

  predicate Blank(title: string) {
    forall k :: 0 <= k < |title| ==> IsWhitespace(title[k])
  }

  /** What is wrong with a new poll, in the order it is looked for. */
  function Fault(graphemes: string -> nat, input: NewPoll): Option<PollError> {
    var titles := input.options;
    if |titles| < 2 || |titles| > 4 then Some(OptionCount)
    else if input.expiresIn < 300 || input.expiresIn > 2_629_746 then Some(ExpirationRange)
    else if exists i :: 0 <= i < |titles| && (Blank(titles[i]) || graphemes(Trim(titles[i])) > 50)
      then Some(OptionLength)
    else if exists i, j :: 0 <= i < j < |titles| && Trim(titles[i]) == Trim(titles[j]) then Some(DuplicateOptions)
    else None
  }

  /** Validation finds the first fault: too few or many options, a bad duration, a bad title, two alike. */
  lemma ValidationFindsFault(graphemes: string -> nat, input: NewPoll)
    ensures Validate(graphemes, input) ==
        match Fault(graphemes, input) case Some(e) => Err(e) case None => Ok(())
  {
    var titles := input.options;
    forall i | 0 <= i < |titles|
      ensures Trim(titles[i]) == "" <==> Blank(titles[i])
      ensures Trimmed(titles)[i] == Trim(titles[i]) && Trimmed(titles)[i] in Trimmed(titles)
    {
      BlankIff(titles[i]);
    }
  }

  predicate Uncompleted(job: Job, kind: JobKind, p: PollId, key: Time) {
    job.kind == kind && job.poll == p && job.key == key && job.completed == false
  }

  predicate Requested(jobs: seq<Job>, kind: JobKind, p: PollId, key: Time) {
    exists i :: 0 <= i < |jobs| && Uncompleted(jobs[i], kind, p, key)
  }

  /** A job was asked for: one was there uncompleted, or a fresh one comes last. */
  predicate JobAsked(jobs: seq<Job>, jobs': seq<Job>, kind: JobKind, p: PollId, key: Time, runAfter: Time) {
    if Requested(jobs, kind, p, key) then jobs' == jobs
    else jobs' == jobs + [Job(kind := kind, poll := p, key := key, runAfter := runAfter,
        attempts := 0, completed := false, claim := None)]
  }

  lemma EnqueueAsks(jobs: seq<Job>, kind: JobKind, p: PollId, key: Time, runAfter: Time)
    ensures JobAsked(jobs, Enqueue(jobs, kind, p, key, runAfter), kind, p, key, runAfter)
  {
    forall i | 0 <= i < |jobs|
      ensures jobs[i].Holds(kind, p, key) <==> Uncompleted(jobs[i], kind, p, key)
    {
    }
  }

  /** The options of the poll are exactly these, in order from zero; those of other polls are as before. */
  ghost predicate OptionsAre(options: map<Slot, Choice>, options': map<Slot, Choice>, p: PollId, rows: seq<Choice>) {
    && OtherOptionsKept(options, options', p)
    && (forall s :: s in options' && s.poll == p ==> 0 <= s.position < |rows|)
    && (forall i :: 0 <= i < |rows| ==> Slot(p, i) in options' && options'[Slot(p, i)] == rows[i])
  }

  ghost predicate OtherOptionsKept(options: map<Slot, Choice>, options': map<Slot, Choice>, p: PollId) {
    && (forall s: Slot :: s.poll != p ==> (s in options' <==> s in options))
    && (forall s: Slot :: s.poll != p && s in options ==> options'[s] == options[s])
  }

  /** The poll has no votes left, and the votes in other polls are as before. */
  ghost predicate VotesGone(votes: map<Ballot, Option<ActivityId>>, votes': map<Ballot, Option<ActivityId>>,
      p: PollId) {
    && (forall b :: b in votes' <==> b in votes && b.poll != p)
    && (forall b :: b in votes' ==> votes'[b] == votes[b])
  }

  function FreshOptions(titles: seq<string>): seq<Choice> {
    seq(|titles|, i requires 0 <= i < |titles| => Choice(Trim(titles[i]), 0))
  }

  lemma RewrittenOptions(db: Db, db': Db, p: PollId, poll: Poll, rows: seq<(string, nat)>, choices: seq<Choice>)
    requires Rewrote(db, db', p, poll, rows) && ForeignKeys(db)
    requires |choices| == |rows| && forall i :: 0 <= i < |rows| ==> choices[i] == Choice(Trim(rows[i].0), rows[i].1)
    ensures OptionsAre(db.options, db'.options, p, choices)
    ensures VotesGone(db.votes, db'.votes, p)
    ensures OnlyRow(db.polls, db'.polls, p) && db'.polls[p] == poll && db'.notices == db.notices
  {
    OtherRowsKept(db, db', p);
  }

  lemma OtherRowsKept(db: Db, db': Db, p: PollId)
    requires Elsewhere(db, db', p)
    ensures OtherOptionsKept(db.options, db'.options, p)
    ensures forall b: Ballot :: b.poll != p ==> (b in db.votes <==> b in db'.votes)
    ensures forall b: Ballot :: b.poll != p && b in db.votes ==> db'.votes[b] == db.votes[b]
  {
    forall s: Slot | s.poll != p
      ensures (s in db.options <==> s in db'.options) && (s in db.options ==> db'.options[s] == db.options[s])
    {
      assert SameRows(db, db', s.poll);
    }
    forall b: Ballot | b.poll != p
      ensures (b in db.votes <==> b in db'.votes) && (b in db.votes ==> db'.votes[b] == db.votes[b])
    {
      assert SameRows(db, db', b.poll);
    }
  }

  /** The tables after a local poll was attached to a status under a new id. */
  ghost predicate PollCreated(db: Db, db': Db, id: PollId, status: StatusId, input: NewPoll, now: Time) {
    var deadline := now + input.expiresIn * 1_000_000;
    && id !in db.polls && OnlyRow(db.polls, db'.polls, id)
    && db'.polls[id] == Poll(status := Local(status), multiple := input.multiple, hideTotals := input.hideTotals,
        expiresAt := Some(deadline), closedAt := None, notifiedAt := None, votersCount := Some(0), updatedAt := now)
    && OptionsAre(db.options, db'.options, id, FreshOptions(input.options))
    && VotesGone(db.votes, db'.votes, id)
    && JobAsked(db.jobs, db'.jobs, PollExpiration, id, deadline, deadline)
    && db'.notices == db.notices
  }

  /** Creation fails on the first fault of the input or a used key, and else stores the poll as given. */
  lemma CreatedPollIsStored(env: Instance, db: Db, id: PollId, status: StatusId, input: NewPoll, now: Time)
    requires ForeignKeys(db)
    ensures var r, fault := CreateLocalPoll(env, db, id, status, input, now), Fault(env.graphemes, input);
            if fault.Some? then r == Err(fault.value)
            else if id in db.polls || (exists p :: p in db.polls && db.polls[p].status == Local(status))
              then r == Err(Database)
            else r.Ok? && PollCreated(db, r.value, id, status, input, now)
  {
    ValidationFindsFault(env.graphemes, input);
    var r := CreateLocalPoll(env, db, id, status, input, now);
    if r.Ok? {
      CreateRows(env, db, id, status, input, now);
      RewrittenOptions(db, r.value, id, CreatedPoll(status, input, now), ZeroRows(input.options),
          FreshOptions(input.options));
      EnqueueAsks(db.jobs, PollExpiration, id, Deadline(input, now), Deadline(input, now));
    }
  }

  /** The stored titles are not, in order, the trimmed new ones, or the mode is another. */
  ghost predicate ChoicesDiffer(db: Db, p: PollId, multiple: bool, titles: seq<string>)
    requires p in db.polls
  {
    || db.polls[p].multiple != multiple
    || (exists s :: s in db.options && s.poll == p && !(0 <= s.position < |titles|))
    || (exists i :: 0 <= i < |titles| && !(Slot(p, i) in db.options && db.options[Slot(p, i)].title == titles[i]))
  }

  ghost predicate PollEdited(db: Db, db': Db, p: PollId, input: NewPoll, now: Time)
    requires p in db.polls
  {
    var deadline := now + input.expiresIn * 1_000_000;
    var titles := seq(|input.options|, i requires 0 <= i < |input.options| => Trim(input.options[i]));
    && OnlyRow(db.polls, db'.polls, p)
    && db'.notices == db.notices
    && JobAsked(db.jobs, db'.jobs, PollExpiration, p, deadline, deadline)
    && db'.polls[p] == Poll(status := db.polls[p].status, multiple := input.multiple, hideTotals := input.hideTotals,
        expiresAt := Some(deadline), closedAt := None, notifiedAt := None,
        votersCount := if ChoicesDiffer(db, p, input.multiple, titles) then Some(0) else db.polls[p].votersCount,
        updatedAt := now)
    && if ChoicesDiffer(db, p, input.multiple, titles)
       then OptionsAre(db.options, db'.options, p, FreshOptions(input.options)) && VotesGone(db.votes, db'.votes, p)
       else db'.options == db.options && db'.votes == db.votes
  }

  lemma DifferIff(db: Db, p: PollId, multiple: bool, titles: seq<string>)
    requires p in db.polls
    ensures ChoicesDiffer(db, p, multiple, titles) <==>
        db.polls[p].multiple != multiple || !TitlesAre(db, p, titles)
  {
    if TitlesAre(db, p, titles) {
      forall s | s in db.options && s.poll == p
        ensures 0 <= s.position < |titles| && db.options[s].title == titles[s.position]
      {
        assert s in SlotsOf(db, p);
      }
      forall i | 0 <= i < |titles|
        ensures Slot(p, i) in db.options && db.options[Slot(p, i)].title == titles[i]
      {
        assert Slot(p, i) in SlotsOf(db, p);
      }
    }
    if !ChoicesDiffer(db, p, multiple, titles) {
      forall s | s in SlotsOf(db, p)
        ensures 0 <= s.position < |titles| && db.options[s].title == titles[s.position]
      {
        assert s == Slot(p, s.position);
      }
    }
  }

  lemma EditedPollIsStored(db: Db, p: PollId, input: NewPoll, now: Time)
    requires ForeignKeys(db) && p in db.polls
    ensures PollEdited(db, EditExistingPoll(db, p, input, now), p, input, now)
  {
    var db' := EditExistingPoll(db, p, input, now);
    var titles := seq(|input.options|, i requires 0 <= i < |input.options| => Trim(input.options[i]));
    assert titles == Trimmed(input.options);
    DifferIff(db, p, input.multiple, titles);
    EnqueueAsks(db.jobs, PollExpiration, p, Deadline(input, now), Deadline(input, now));
    if EditChanges(db, p, input) {
      ChangedEditRows(db, p, input, now);
      RewrittenOptions(db, db', p, EditedPoll(db.polls[p], input, true, now), ZeroRows(input.options),
          FreshOptions(input.options));
    }
  }

  /** The poll, its options and its votes are gone, and nothing else changed. */
  ghost predicate PollRemoved(db: Db, db': Db, p: PollId) {
    && (forall q :: q in db'.polls <==> q in db.polls && q != p)
    && (forall q :: q in db'.polls ==> db'.polls[q] == db.polls[q])
    && (forall s :: s in db'.options <==> s in db.options && s.poll != p)
    && (forall s :: s in db'.options ==> db'.options[s] == db.options[s])
    && VotesGone(db.votes, db'.votes, p)
    && db'.notices == db.notices && db'.jobs == db.jobs
  }

  /**
   An edit without a poll removes the status's poll if it has one. An edit with one fails on its first
   fault, rewrites the poll the status has, or creates one.
   */
  lemma EditIsAnswered(env: Instance, db: Db, freshId: PollId, status: StatusId, input: Option<NewPoll>, now: Time)
    requires Sound(db)
    ensures var r := EditLocalPoll(env, db, freshId, status, input, now);
            && (forall p :: p in db.polls && db.polls[p].status == Local(status) ==>
                match input
                case None => r.Ok? && PollRemoved(db, r.value, p)
                case Some(given) =>
                  match Fault(env.graphemes, given)
                  case Some(e) => r == Err(e)
                  case None => r.Ok? && PollEdited(db, r.value, p, given, now))
            && ((forall p :: p in db.polls ==> db.polls[p].status != Local(status)) ==>
                match input
                case None => r == Ok(db)
                case Some(given) =>
                  match Fault(env.graphemes, given)
                  case Some(e) => r == Err(e)
                  case None => if freshId in db.polls then r == Err(Database)
                    else r.Ok? && PollCreated(db, r.value, freshId, status, given, now))
  {
    if input.Some? {
      ValidationFindsFault(env.graphemes, input.value);
      CreatedPollIsStored(env, db, freshId, status, input.value, now);
    }
    forall p | p in db.polls && db.polls[p].status == Local(status)
      ensures PollFor(db, Local(status)) == Some(p)
      ensures input.Some? ==> PollEdited(db, EditExistingPoll(db, p, input.value, now), p, input.value, now)
      ensures PollRemoved(db, DeletePoll(db, p), p)
    {
      if input.Some? {
        EditedPollIsStored(db, p, input.value, now);
      }
    }
  }

  // ---------------------------------------------------------------- remote polls

  function GivenOptions(question: RemotePoll): seq<Choice> {
    seq(|question.options|, i requires 0 <= i < |question.options| =>
      Choice(Trim(question.options[i].0), question.options[i].1))
  }

  /** The input's own counters and times; what a question does not say is kept, or off for a new poll. */
  predicate RowGiven(poll: Poll, status: StatusId, question: RemotePoll, now: Time) {
    && poll.status == Remote(status) && poll.multiple == question.multiple
    && poll.expiresAt == question.expiresAt && poll.closedAt == question.closedAt && poll.updatedAt == now
    && match question.votersCount
       case None => poll.votersCount == None
       case Some(n) => poll.votersCount == Some(n)
  }

  /** Ask for an expiration five minutes after the closing time, or else the deadline, if there is one. */
  predicate GraceAsked(jobs: seq<Job>, jobs': seq<Job>, p: PollId, question: RemotePoll) {
    match question.closedAt
    case Some(t) => JobAsked(jobs, jobs', PollExpiration, p, t + 300_000_000, t + 300_000_000)
    case None =>
      match question.expiresAt
      case Some(t) => JobAsked(jobs, jobs', PollExpiration, p, t + 300_000_000, t + 300_000_000)
      case None => jobs' == jobs
  }

  ghost predicate QuestionStored(db: Db, db': Db, p: PollId, status: StatusId, question: RemotePoll, now: Time) {
    && OnlyRow(db.polls, db'.polls, p)
    && RowGiven(db'.polls[p], status, question, now)
    && OptionsAre(db.options, db'.options, p, GivenOptions(question))
    && VotesGone(db.votes, db'.votes, p)
    && GraceAsked(db.jobs, db'.jobs, p, question)
    && db'.notices == db.notices
  }

  /** Counts the signed 64-bit columns can hold. */
  predicate Storable(question: RemotePoll) {
    && (forall i :: 0 <= i < |question.options| ==> question.options[i].1 < 9_223_372_036_854_775_808)
    && (question.votersCount.Some? ==> question.votersCount.value < 9_223_372_036_854_775_808)
  }

  lemma GraceIsAsked(jobs: seq<Job>, p: PollId, question: RemotePoll)
    ensures GraceAsked(jobs, EnqueueRemoteDeadline(jobs, p, question), p, question)
  {
    if question.DueAt().Some? {
      var at := question.DueAt().value + REMOTE_GRACE;
      EnqueueAsks(jobs, PollExpiration, p, at, at);
    }
  }

  lemma RefreshedIsStored(db: Db, p: PollId, status: StatusId, question: RemotePoll, now: Time)
    requires ForeignKeys(db) && p in db.polls && db.polls[p].status == Remote(status)
    ensures var db' := RefreshExistingPoll(db, p, question, now);
            && QuestionStored(db, db', p, status, question, now)
            && db'.polls[p].hideTotals == db.polls[p].hideTotals
            && db'.polls[p].notifiedAt == db.polls[p].notifiedAt
  {
    RefreshRows(db, p, question, now);
    RewrittenOptions(db, RefreshExistingPoll(db, p, question, now), p, RefreshedPoll(db.polls[p], question, now),
        question.options, GivenOptions(question));
    GraceIsAsked(db.jobs, p, question);
  }

  lemma InsertedIsStored(db: Db, id: PollId, status: StatusId, question: RemotePoll, now: Time)
    requires ForeignKeys(db)
    ensures var db' := InsertRemotePoll(db, id, status, question, now);
            && QuestionStored(db, db', id, status, question, now)
            && db'.polls[id].hideTotals == false && db'.polls[id].notifiedAt == None
  {
    InsertRows(db, id, status, question, now);
    RewrittenOptions(db, InsertRemotePoll(db, id, status, question, now), id, InsertedPoll(status, question, now),
        question.options, GivenOptions(question));
    GraceIsAsked(db.jobs, id, question);
  }

  /**
   A question is turned away for its number of options, a count no column holds, or a used key. Otherwise
   the one poll of its status has exactly the question's counts, titles, mode and times.
   */
  lemma QuestionIsStored(db: Db, freshId: PollId, status: StatusId, question: RemotePoll, now: Time)
    requires Sound(db)
    ensures var r := RefreshRemotePoll(db, freshId, status, question, now);
            if |question.options| < 2 || |question.options| > 500 then r == Err(OptionCount)
            else if !Storable(question) then r == Err(Database)
            else
              && (forall p :: p in db.polls && db.polls[p].status == Remote(status) ==>
                  && r.Ok? && QuestionStored(db, r.value, p, status, question, now)
                  && r.value.polls[p].hideTotals == db.polls[p].hideTotals
                  && r.value.polls[p].notifiedAt == db.polls[p].notifiedAt)
              && ((forall p :: p in db.polls ==> db.polls[p].status != Remote(status)) ==>
                  if freshId in db.polls then
                    r == Err(Database)
                  else
                    && r.Ok? && QuestionStored(db, r.value, freshId, status, question, now)
                    && r.value.polls[freshId].hideTotals == false && r.value.polls[freshId].notifiedAt == None)
  {
    assert Storable(question) <==> CountsFit(question);
    InsertedIsStored(db, freshId, status, question, now);
    forall p | p in db.polls && db.polls[p].status == Remote(status)
      ensures PollFor(db, Remote(status)) == Some(p)
      ensures QuestionStored(db, RefreshExistingPoll(db, p, question, now), p, status, question, now)
      ensures RefreshExistingPoll(db, p, question, now).polls[p].hideTotals == db.polls[p].hideTotals
      ensures RefreshExistingPoll(db, p, question, now).polls[p].notifiedAt == db.polls[p].notifiedAt
    {
      RefreshedIsStored(db, p, status, question, now);
    }
  }

  // ---------------------------------------------------------------- expiry

  /** A poll is over at its closing time, or at its deadline while it has none. */
  function OverAt(poll: Poll): Option<Time> {
    match poll.closedAt
    case Some(t) => Some(t)
    case None => poll.expiresAt
  }

  /** Local voters are told, and so is the author of a local status. */
  ghost predicate Told(env: Instance, db: Db, p: PollId, a: AccountId)
    requires p in db.polls
  {
    HasVoted(db, p, LocalVoter(a)) || (db.polls[p].status.Local? && a == env.author(db.polls[p].status))
  }

  ghost predicate AlreadyTold(env: Instance, db: Db, p: PollId)
    requires p in db.polls
  {
    var status := db.polls[p].status;
    exists a :: Told(env, db, p, a) && Notice(a, status, env.author(status)) in db.notices
  }

  ghost predicate PollExpired(env: Instance, db: Db, e: Expiration, p: PollId, now: Time)
    requires p in db.polls
  {
    var before := db.polls[p];
    && e.newlyExpired == true && e.nextAttemptAt == None
    && OnlyRow(db.polls, e.db.polls, p)
    && e.db.polls[p] == Poll(status := before.status, multiple := before.multiple, hideTotals := before.hideTotals,
        expiresAt := before.expiresAt, closedAt := if OverAt(before) == None then Some(now) else OverAt(before),
        notifiedAt := Some(now), votersCount := before.votersCount, updatedAt := now)
    && (forall n :: n in e.notices <==>
        n.status == before.status && n.author == env.author(before.status) && Told(env, db, p, n.account))
    && (forall n :: n in e.db.notices <==> n in db.notices || n in e.notices)
    && e.db.options == db.options && e.db.votes == db.votes && e.db.jobs == db.jobs
  }

  /**
   An early attempt changes nothing and names the time to come back at; a later one closes the poll at
   the time it was over, once, and fails as a whole when someone to be told has a row already.
   */
  lemma ExpiryIsAnswered(env: Instance, db: Db, p: PollId, now: Time)
    ensures var r := ExpirePoll(env, db, p, now);
            if p !in db.polls then r == Ok(None)
            else if OverAt(db.polls[p]).Some? && now < OverAt(db.polls[p]).value
              then r == Ok(Some(Expiration(db, {}, false, OverAt(db.polls[p]))))
            else if db.polls[p].notifiedAt.Some? then r == Ok(Some(Expiration(db, {}, false, None)))
            else if AlreadyTold(env, db, p) then r == Err(Database)
            else r.Ok? && r.value.Some? && PollExpired(env, db, r.value.value, p, now)
  {
    if p in db.polls {
      assert OverAt(db.polls[p]) == db.polls[p].DueAt();
      ToldIff(env, db, p);
      BlockedIff(env, db, p);
    }
  }

  lemma ToldIff(env: Instance, db: Db, p: PollId)
    requires p in db.polls
    ensures forall a :: Told(env, db, p, a) <==> a in Recipients(env, db, p)
  {
    forall a
      ensures HasVoted(db, p, LocalVoter(a)) <==> a in LocalVotersOf(db, p)
    {
      if a in LocalVotersOf(db, p) {
        var b :| b in db.votes && b.poll == p && b.voter.LocalVoter? && b.voter.account == a;
        assert b == Ballot(p, LocalVoter(a), b.position);
      }
    }
  }

  lemma BlockedIff(env: Instance, db: Db, p: PollId)
    requires p in db.polls
    ensures AlreadyTold(env, db, p) <==> NoticesFor(env, db, p) * db.notices != {}
  {
    ToldIff(env, db, p);
    var status := db.polls[p].status;
    if a :| Told(env, db, p, a) && Notice(a, status, env.author(status)) in db.notices {
      assert Notice(a, status, env.author(status)) in NoticesFor(env, db, p) * db.notices;
    }
    if NoticesFor(env, db, p) * db.notices != {} {
      var n := Pick(NoticesFor(env, db, p) * db.notices);
      assert Told(env, db, p, n.account);
    }
  }
}
