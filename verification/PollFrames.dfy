/** Each transaction touches the rows of one poll only; what it leaves alone is stated here once. */
module PollFrames {
  import opened Prelude
  import opened PollModel

  /** Every vote row belongs to an existing option of an existing poll, and so does every option. */
  ghost predicate ForeignKeys(db: Db) {
    && (forall b :: b in db.votes ==> b.At() in db.options)
    && (forall s :: s in db.options ==> s.poll in db.polls)
  }

  /** At most one poll per status. */
  ghost predicate UniqueStatuses(db: Db) {
    forall p, q :: p in db.polls && q in db.polls && db.polls[p].status == db.polls[q].status ==> p == q
  }

  ghost predicate Sound(db: Db) {
    ForeignKeys(db) && UniqueStatuses(db)
  }

  ghost predicate SameRows(db: Db, db': Db, q: PollId) {
    && (q in db.polls <==> q in db'.polls)
    && (q in db.polls ==> db'.polls[q] == db.polls[q])
    && SameBallotRows(db, db', q)
  }

  /** The option and vote rows of the poll are the same. */
  ghost predicate SameBallotRows(db: Db, db': Db, q: PollId) {
    && (forall s: Slot :: s.poll == q ==> (s in db.options <==> s in db'.options))
    && (forall s: Slot :: s.poll == q && s in db.options ==> db'.options[s] == db.options[s])
    && (forall b: Ballot :: b.poll == q ==> (b in db.votes <==> b in db'.votes))
    && (forall b: Ballot :: b.poll == q && b in db.votes ==> db'.votes[b] == db.votes[b])
  }

  /** Equal in everything but the time of the last change. */
  ghost predicate SameButTimes(db: Db, db': Db) {
    && db'.options == db.options && db'.votes == db.votes && db'.notices == db.notices && db'.jobs == db.jobs
    && db'.polls.Keys == db.polls.Keys
    && forall p :: p in db.polls ==> db'.polls[p].(updatedAt := 0) == db.polls[p].(updatedAt := 0)
  }

  /** Only rows of poll `p` may differ. */
  ghost predicate Elsewhere(db: Db, db': Db, p: PollId) {
    forall q: PollId :: q != p ==> SameRows(db, db', q)
  }

  lemma SameRowsSets(db: Db, db': Db, q: PollId)
    requires SameBallotRows(db, db', q)
    ensures BallotsOf(db', q) == BallotsOf(db, q)
    ensures VotersOf(db', q) == VotersOf(db, q)
    ensures LocalVotersOf(db', q) == LocalVotersOf(db, q)
    ensures SlotsOf(db', q) == SlotsOf(db, q)
  {
  }

  /** The rows of a poll just after its options were replaced: the new ones, and no votes. */
  lemma ReplaceOptionsRows(db: Db, p: PollId, rows: seq<(string, nat)>)
    requires forall b :: b in db.votes && b.poll == p ==> b.At() in db.options
    ensures var db' := ReplaceOptions(db, p, rows);
            && Elsewhere(db, db', p)
            && db'.polls == db.polls && db'.jobs == db.jobs && db'.notices == db.notices
            && (forall s: Slot :: s.poll == p ==> (s in db'.options <==> 0 <= s.position < |rows|))
            && (forall b :: b in db'.votes ==> b.poll != p)
            && TitlesReplaced(db', p, rows)
  {
  }

  ghost predicate TitlesReplaced(db: Db, p: PollId, rows: seq<(string, nat)>) {
    forall i :: 0 <= i < |rows| ==>
        Slot(p, i) in db.options && db.options[Slot(p, i)] == Choice(Text.Trim(rows[i].0), rows[i].1)
  }

  /** An insert or update of option and vote rows under poll `p` keeps the references intact. */
  lemma ReplaceOptionsSound(db: Db, p: PollId, rows: seq<(string, nat)>)
    requires ForeignKeys(db) && p in db.polls
    ensures ForeignKeys(ReplaceOptions(db, p, rows))
  {
    ReplaceOptionsRows(db, p, rows);
    var db' := ReplaceOptions(db, p, rows);
    forall b | b in db'.votes
      ensures b.At() in db'.options
    {
      assert SameRows(db, db', b.poll);
    }
    forall s | s in db'.options
      ensures s.poll in db'.polls
    {
      if s.poll != p {
        assert SameRows(db, db', s.poll);
      }
    }
  }

  /** Poll `p` now has this row, these options and no votes; nothing else about rows changed. */
  ghost predicate Rewrote(db: Db, db': Db, p: PollId, poll: Poll, rows: seq<(string, nat)>) {
    && Elsewhere(db, db', p)
    && ForeignKeys(db')
    && db'.polls == db.polls[p := poll]
    && db'.notices == db.notices
    && (forall s: Slot :: s.poll == p ==> (s in db'.options <==> 0 <= s.position < |rows|))
    && (forall b :: b in db'.votes ==> b.poll != p)
    && TitlesReplaced(db', p, rows)
  }

  lemma RewriteRows(db: Db, p: PollId, poll: Poll, rows: seq<(string, nat)>)
    requires ForeignKeys(db)
    ensures Rewrote(db, ReplaceOptions(db.(polls := db.polls[p := poll]), p, rows), p, poll, rows)
  {
    var db1 := db.(polls := db.polls[p := poll]);
    assert ForeignKeys(db1);
    assert Elsewhere(db, db1, p);
    ReplaceOptionsRows(db1, p, rows);
    ReplaceOptionsSound(db1, p, rows);
    ElsewhereChain(db, db1, ReplaceOptions(db1, p, rows), p);
  }

  lemma JobsAside(db: Db, db1: Db, jobs: seq<Job>, p: PollId, poll: Poll, rows: seq<(string, nat)>)
    requires Rewrote(db, db1, p, poll, rows)
    ensures Rewrote(db, db1.(jobs := jobs), p, poll, rows)
  {
    var db2 := db1.(jobs := jobs);
    assert Elsewhere(db1, db2, p);
    ElsewhereChain(db, db1, db2, p);
  }

  function CreatedPoll(status: StatusId, input: NewPoll, now: Time): Poll {
    Poll(Local(status), input.multiple, input.hideTotals, Some(Deadline(input, now)), None, None, Some(0), now)
  }

  lemma CreateRows(env: Instance, db: Db, id: PollId, status: StatusId, input: NewPoll, now: Time)
    requires ForeignKeys(db)
    requires CreateLocalPoll(env, db, id, status, input, now).Ok?
    ensures var db' := CreateLocalPoll(env, db, id, status, input, now).value;
            && Rewrote(db, db', id, CreatedPoll(status, input, now), ZeroRows(input.options))
            && db'.jobs == EnqueueExpiration(db.jobs, id, Deadline(input, now))
  {
    var poll := CreatedPoll(status, input, now);
    var rows := ZeroRows(input.options);
    RewriteRows(db, id, poll, rows);
    JobsAside(db, ReplaceOptions(db.(polls := db.polls[id := poll]), id, rows),
              EnqueueExpiration(db.jobs, id, Deadline(input, now)), id, poll, rows);
  }

  function EditedPoll(before: Poll, input: NewPoll, changed: bool, now: Time): Poll {
    before.(multiple := input.multiple, hideTotals := input.hideTotals,
            expiresAt := Some(Deadline(input, now)), closedAt := None, notifiedAt := None,
            votersCount := if changed then Some(0) else before.votersCount, updatedAt := now)
  }

  lemma DeleteVotesSound(db: Db, p: PollId)
    requires ForeignKeys(db)
    ensures ForeignKeys(DeleteVotes(db, p)) && Elsewhere(db, DeleteVotes(db, p), p)
  {
  }

  lemma ReplaceIgnoresPolls(db: Db, p: PollId, rows: seq<(string, nat)>, polls: map<PollId, Poll>)
    ensures ReplaceOptions(db, p, rows).(polls := polls) == ReplaceOptions(db.(polls := polls), p, rows)
  {
  }

  lemma ChangedEditRows(db: Db, p: PollId, input: NewPoll, now: Time)
    requires ForeignKeys(db) && p in db.polls && EditChanges(db, p, input)
    ensures Rewrote(db, EditExistingPoll(db, p, input, now), p, EditedPoll(db.polls[p], input, true, now),
        ZeroRows(input.options))
  {
    var poll := EditedPoll(db.polls[p], input, true, now);
    var rows := ZeroRows(input.options);
    var db1 := DeleteVotes(db, p);
    DeleteVotesSound(db, p);
    RewriteRows(db1, p, poll, rows);
    ReplaceIgnoresPolls(db1, p, rows, db.polls[p := poll]);
    var db2 := ReplaceOptions(db1.(polls := db.polls[p := poll]), p, rows);
    ElsewhereChain(db, db1, db2, p);
    JobsAside(db, db2, EnqueueExpiration(db.jobs, p, Deadline(input, now)), p, poll, rows);
  }

  lemma UnchangedEditRows(db: Db, p: PollId, input: NewPoll, now: Time)
    requires ForeignKeys(db) && p in db.polls && !EditChanges(db, p, input)
    ensures var db' := EditExistingPoll(db, p, input, now);
            && Elsewhere(db, db', p) && SameBallotRows(db, db', p) && ForeignKeys(db')
            && db'.polls == db.polls[p := EditedPoll(db.polls[p], input, false, now)]
            && db'.notices == db.notices
  {
  }

  function RefreshedPoll(before: Poll, input: RemotePoll, now: Time): Poll {
    before.(multiple := input.multiple, expiresAt := input.expiresAt, closedAt := input.closedAt,
            votersCount := RemoteVoters(input), updatedAt := now)
  }

  lemma RefreshRows(db: Db, p: PollId, input: RemotePoll, now: Time)
    requires ForeignKeys(db) && p in db.polls
    ensures Rewrote(db, RefreshExistingPoll(db, p, input, now), p, RefreshedPoll(db.polls[p], input, now),
        input.options)
  {
    var poll := RefreshedPoll(db.polls[p], input, now);
    var db1 := if RefreshChanges(db, p, input) then DeleteVotes(db, p) else db;
    DeleteVotesSound(db, p);
    RewriteRows(db1, p, poll, input.options);
    ReplaceIgnoresPolls(db1, p, input.options, db.polls[p := poll]);
    var db2 := ReplaceOptions(db1.(polls := db.polls[p := poll]), p, input.options);
    ElsewhereChain(db, db1, db2, p);
    JobsAside(db, db2, EnqueueRemoteDeadline(db.jobs, p, input), p, poll, input.options);
  }

  function InsertedPoll(status: StatusId, input: RemotePoll, now: Time): Poll {
    Poll(Remote(status), input.multiple, false, input.expiresAt, input.closedAt, None, RemoteVoters(input), now)
  }

  lemma InsertRows(db: Db, id: PollId, status: StatusId, input: RemotePoll, now: Time)
    requires ForeignKeys(db)
    ensures Rewrote(db, InsertRemotePoll(db, id, status, input, now), id, InsertedPoll(status, input, now),
        input.options)
  {
    var poll := InsertedPoll(status, input, now);
    RewriteRows(db, id, poll, input.options);
    JobsAside(db, ReplaceOptions(db.(polls := db.polls[id := poll]), id, input.options),
              EnqueueRemoteDeadline(db.jobs, id, input), id, poll, input.options);
  }

  /** Writing one poll row keeps statuses unique if it keeps its status or takes a free one. */
  lemma StatusesStayUnique(db: Db, db': Db, p: PollId, poll: Poll)
    requires UniqueStatuses(db) && db'.polls == db.polls[p := poll]
    requires if p in db.polls then poll.status == db.polls[p].status else PollFor(db, poll.status).None?
    ensures UniqueStatuses(db')
  {
  }

  lemma DeleteRows(db: Db, p: PollId)
    requires ForeignKeys(db)
    ensures Elsewhere(db, DeletePoll(db, p), p) && ForeignKeys(DeletePoll(db, p)) && p !in DeletePoll(db, p).polls
  {
  }

  /** A recorded vote adds the voter's ballots and moves only the counters it names. */
  lemma VoteRows(db: Db, p: PollId, voter: Voter, positions: set<int>, activity: Option<ActivityId>, now: Time)
    requires ForeignKeys(db) && p in db.polls
    requires forall q :: q in positions ==> Slot(p, q) in db.options
    ensures var db' := RecordVote(db, p, voter, positions, activity, now);
            Elsewhere(db, db', p) && ForeignKeys(db')
                && BallotsOf(db', p) == BallotsOf(db, p) + NewBallots(p, voter, positions)
  {
    var db' := RecordVote(db, p, voter, positions, activity, now);
    forall b | b in db'.votes
      ensures b.At() in db'.options
    {
      if b in NewBallots(p, voter, positions) {
        assert b.At() == Slot(p, b.position);
      }
    }
  }

  lemma ElsewhereChain(db: Db, db1: Db, db2: Db, p: PollId)
    requires Elsewhere(db, db1, p) && Elsewhere(db1, db2, p)
    ensures Elsewhere(db, db2, p)
  {
    forall q: PollId | q != p
      ensures SameRows(db, db2, q)
    {
      assert SameRows(db, db1, q) && SameRows(db1, db2, q);
    }
  }
}
