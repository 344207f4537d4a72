/**
 Refreshing a remote poll, settled against the schema.

 A refresh is documented to reset local votes when the choices changed. It compares titles to decide
 on an explicit delete, but replaces the option rows in any case, and deleting an option row deletes
 the votes that reference it. So a refresh always resets the votes; the comparison decides nothing.
 */
module PollRefresh {
  import opened Prelude
  import opened Text
  import opened PollModel
  import opened PollFrames

  /** The vote table after any refresh, changed choices or not: every row of the poll is gone. */
  lemma RefreshWipesVotes(db: Db, p: PollId, input: RemotePoll, now: Time)
    requires ForeignKeys(db) && p in db.polls
    ensures var db' := RefreshExistingPoll(db, p, input, now);
            && db'.votes == (map b | b in db.votes && b.poll != p :: db.votes[b])
            && (forall s: Slot :: s.poll == p ==> (s in db'.options <==> 0 <= s.position < |input.options|))
            && (forall i :: 0 <= i < |input.options| ==>
                db'.options[Slot(p, i)] == Choice(Trim(input.options[i].0), input.options[i].1))
            && (forall s: Slot :: s.poll != p ==>
                (s in db'.options <==> s in db.options) && (s in db.options ==> db'.options[s] == db.options[s]))
  {
    RefreshRows(db, p, input, now);
    var poll := RefreshedPoll(db.polls[p], input, now);
    RewriteDropsVotes(db, RefreshExistingPoll(db, p, input, now), p, poll, input.options);
    RewriteKeepsOtherSlots(db, RefreshExistingPoll(db, p, input, now), p, poll, input.options);
  }

  lemma RewriteDropsVotes(db: Db, db': Db, p: PollId, poll: Poll, rows: seq<(string, nat)>)
    requires Rewrote(db, db', p, poll, rows)
    ensures db'.votes == (map b | b in db.votes && b.poll != p :: db.votes[b])
  {
    forall b: Ballot | b.poll != p
      ensures (b in db'.votes <==> b in db.votes) && (b in db.votes ==> db'.votes[b] == db.votes[b])
    {
      assert SameRows(db, db', b.poll);
    }
  }

  lemma RewriteKeepsOtherSlots(db: Db, db': Db, p: PollId, poll: Poll, rows: seq<(string, nat)>)
    requires Rewrote(db, db', p, poll, rows)
    ensures forall s: Slot :: s.poll != p ==>
        (s in db'.options <==> s in db.options) && (s in db.options ==> db'.options[s] == db.options[s])
    ensures forall s: Slot :: s.poll == p ==> (s in db'.options <==> 0 <= s.position < |rows|)
    ensures forall i :: 0 <= i < |rows| ==>
        Slot(p, i) in db'.options && db'.options[Slot(p, i)] == Choice(Trim(rows[i].0), rows[i].1)
  {
    forall s: Slot | s.poll != p
      ensures (s in db'.options <==> s in db.options) && (s in db.options ==> db'.options[s] == db.options[s])
    {
      assert SameRows(db, db', s.poll);
    }
  }

  /** Votes survive a refresh exactly when there are none to lose. */
  lemma VotesSurviveRefreshIff(db: Db, p: PollId, input: RemotePoll, now: Time)
    requires ForeignKeys(db) && p in db.polls
    ensures BallotsOf(RefreshExistingPoll(db, p, input, now), p) == BallotsOf(db, p) <==> BallotsOf(db, p) == {}
  {
    RefreshWipesVotes(db, p, input, now);
    assert BallotsOf(RefreshExistingPoll(db, p, input, now), p) == {};
  }

  /** An edit of a local poll, by contrast, keeps its votes exactly when it keeps its choices. */
  lemma VotesSurviveEditIff(db: Db, p: PollId, input: NewPoll, now: Time)
    requires ForeignKeys(db) && p in db.polls
    ensures BallotsOf(EditExistingPoll(db, p, input, now), p) == BallotsOf(db, p) <==>
        !EditChanges(db, p, input) || BallotsOf(db, p) == {}
  {
    if EditChanges(db, p, input) {
      ChangedEditRows(db, p, input, now);
      assert BallotsOf(EditExistingPoll(db, p, input, now), p) == {};
    } else {
      UnchangedEditRows(db, p, input, now);
      SameRowsSets(db, EditExistingPoll(db, p, input, now), p);
    }
  }

  /**
   What the comparison would have kept: given the titles a previous refresh stored, the explicit
   delete is skipped exactly when the new titles, untrimmed, are those titles trimmed. A question
   with surrounding whitespace in a title therefore counts as changed against itself.
   */
  lemma ComparisonIsAgainstTrimmedTitles(db: Db, p: PollId, earlier: RemotePoll, input: RemotePoll, now: Time)
    requires ForeignKeys(db) && p in db.polls
    ensures var db' := RefreshExistingPoll(db, p, earlier, now);
            !RefreshChanges(db', p, input) <==>
              && input.multiple == earlier.multiple
              && |input.options| == |earlier.options|
              && forall i :: 0 <= i < |input.options| ==> input.options[i].0 == Trim(earlier.options[i].0)
    ensures !RefreshChanges(RefreshExistingPoll(db, p, earlier, now), p, earlier) <==>
              forall i :: 0 <= i < |earlier.options| ==> Trim(earlier.options[i].0) == earlier.options[i].0
  {
    RefreshWipesVotes(db, p, earlier, now);
    StoredTitles(RefreshExistingPoll(db, p, earlier, now), p, earlier, RemoteTitles(input));
    StoredTitles(RefreshExistingPoll(db, p, earlier, now), p, earlier, RemoteTitles(earlier));
  }

  lemma StoredTitles(db: Db, p: PollId, stored: RemotePoll, titles: seq<string>)
    requires forall s: Slot :: s.poll == p ==> (s in db.options <==> 0 <= s.position < |stored.options|)
    requires forall i :: 0 <= i < |stored.options| ==>
        db.options[Slot(p, i)] == Choice(Trim(stored.options[i].0), stored.options[i].1)
    ensures TitlesAre(db, p, titles) <==>
        |titles| == |stored.options| && forall i :: 0 <= i < |titles| ==> titles[i] == Trim(stored.options[i].0)
  {
    if TitlesAre(db, p, titles) {
      if |stored.options| > 0 {
        assert Slot(p, |stored.options| - 1) in SlotsOf(db, p);
      }
      if |titles| > 0 {
        assert Slot(p, |titles| - 1) in db.options;
      }
      forall i | 0 <= i < |titles|
        ensures titles[i] == Trim(stored.options[i].0)
      {
        assert Slot(p, i) in SlotsOf(db, p);
      }
    }
  }

  // ---------------------------------------------------------------- refreshing twice

  /** The rows a refresh writes depend on the question alone. */
  lemma RewritesAgree(db: Db, db1: Db, db2: Db, p: PollId, poll1: Poll, poll2: Poll, rows: seq<(string, nat)>)
    requires Rewrote(db, db1, p, poll1, rows) && Rewrote(db1, db2, p, poll2, rows)
    ensures db2.options == db1.options && db2.votes == db1.votes && db2.notices == db1.notices
  {
    RewriteDropsVotes(db, db1, p, poll1, rows);
    RewriteDropsVotes(db1, db2, p, poll2, rows);
    RewriteKeepsOtherSlots(db, db1, p, poll1, rows);
    RewriteKeepsOtherSlots(db1, db2, p, poll2, rows);
    SameSlots(db1.options, db2.options, p, |rows|);
  }

  lemma SameSlots(options1: map<Slot, Choice>, options2: map<Slot, Choice>, p: PollId, n: nat)
    requires forall s: Slot :: s.poll != p ==>
        (s in options2 <==> s in options1) && (s in options1 ==> options2[s] == options1[s])
    requires forall s: Slot :: s.poll == p ==>
        (s in options1 <==> 0 <= s.position < n) && (s in options2 <==> 0 <= s.position < n)
    requires forall i :: 0 <= i < n ==> options1[Slot(p, i)] == options2[Slot(p, i)]
    ensures options1 == options2
  {
    forall s: Slot | s in options1
      ensures options2[s] == options1[s]
    {
      assert s == Slot(s.poll, s.position);
    }
  }

  lemma EnqueueTwice(jobs: seq<Job>, p: PollId, input: RemotePoll)
    ensures EnqueueRemoteDeadline(EnqueueRemoteDeadline(jobs, p, input), p, input) ==
        EnqueueRemoteDeadline(jobs, p, input)
  {
  }

  lemma SecondRefresh(db: Db, db1: Db, p: PollId, poll: Poll, input: RemotePoll, again: Time)
    requires Rewrote(db, db1, p, poll, input.options) && db1.jobs == EnqueueRemoteDeadline(db.jobs, p, input)
    requires poll == RefreshedPoll(poll, input, poll.updatedAt)
    ensures SameButTimes(db1, RefreshExistingPoll(db1, p, input, again))
  {
    RefreshRows(db1, p, input, again);
    RewritesAgree(db, db1, RefreshExistingPoll(db1, p, input, again), p, poll, RefreshedPoll(poll, input, again),
        input.options);
    EnqueueTwice(db.jobs, p, input);
  }

  /** Refreshing again with the same question is like refreshing once, up to the time of the change. */
  lemma RefreshIsIdempotent(db: Db, id: PollId, status: StatusId, input: RemotePoll, now: Time, id2: PollId,
      again: Time)
    requires Sound(db) && RefreshRemotePoll(db, id, status, input, now).Ok?
    ensures var once := RefreshRemotePoll(db, id, status, input, now).value;
            var twice := RefreshRemotePoll(once, id2, status, input, again);
            twice.Ok? && SameButTimes(once, twice.value)
  {
    var once := RefreshRemotePoll(db, id, status, input, now).value;
    var existing := PollFor(db, Remote(status));
    if existing.Some? {
      var p := existing.value;
      RefreshRows(db, p, input, now);
      StatusesStayUnique(db, once, p, RefreshedPoll(db.polls[p], input, now));
      assert PollFor(once, Remote(status)) == Some(p) by {
        assert once.polls[p].status == Remote(status);
      }
      SecondRefresh(db, once, p, RefreshedPoll(db.polls[p], input, now), input, again);
    } else {
      InsertRows(db, id, status, input, now);
      StatusesStayUnique(db, once, id, InsertedPoll(status, input, now));
      assert PollFor(once, Remote(status)) == Some(id) by {
        assert once.polls[id].status == Remote(status);
      }
      SecondRefresh(db, once, id, InsertedPoll(status, input, now), input, again);
    }
  }

  // ---------------------------------------------------------------- refreshing without a deadline

  /**
   A refresh that removes the deadline of an unnotified poll lets any job still queued for it close
   the poll whenever it runs, with that moment as its closing time.
   */
  lemma RemovedDeadlineLetsOldJobClose(env: Instance, db: Db, p: PollId, input: RemotePoll, now: Time, later: Time)
    requires ForeignKeys(db) && p in db.polls && db.polls[p].status.Remote? && db.polls[p].notifiedAt.None?
    requires input.DueAt().None?
    ensures var db' := RefreshExistingPoll(db, p, input, now);
            var r := ExpirePoll(env, db', p, later);
            && r.Ok? && r.value.Some? && r.value.value.newlyExpired
            && r.value.value.db.polls[p].closedAt == Some(later)
  {
    var db' := RefreshExistingPoll(db, p, input, now);
    RefreshWipesVotes(db, p, input, now);
    assert LocalVotersOf(db', p) == {};
    assert NoticesFor(env, db', p) == {};
  }
}
