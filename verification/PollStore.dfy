/**
 The poll transactions row by row, as the database executes them.

 `PollModel` says what each transaction amounts to; the methods here reach it statement by statement,
 checking unique keys on every insert. An error drops the transaction, which puts every table back.
 */
module PollStore {
  import opened Prelude
  import opened Text
  import opened PollModel
  import opened PollFrames

  ghost predicate Sorted(s: seq<U32>) {
    forall i, j :: 0 <= i < j < |s| ==> s[i] < s[j]
  }

  method Insert(s: seq<U32>, c: U32) returns (r: seq<U32>)
    requires Sorted(s)
    ensures Sorted(r) && Elements(r) == Elements(s) + {c}
  {
    var at := 0;
    while at < |s| && s[at] < c
      invariant 0 <= at <= |s|
      invariant forall i :: 0 <= i < at ==> s[i] < c
    {
      at := at + 1;
    }
    if at < |s| && s[at] == c {
      return s;
    }
    Spliced(s, at, c);
    return s[..at] + [c] + s[at..];
  }

  lemma Spliced(s: seq<U32>, at: nat, c: U32)
    requires Sorted(s) && at <= |s|
    requires forall i :: 0 <= i < at ==> s[i] < c
    requires at < |s| ==> c < s[at]
    ensures Sorted(s[..at] + [c] + s[at..])
    ensures Elements(s[..at] + [c] + s[at..]) == Elements(s) + {c}
  {
    var r := s[..at] + [c] + s[at..];
    forall i, j | 0 <= i < j < |r|
      ensures r[i] < r[j]
    {
      assert r[i] == if i < at then s[i] else if i == at then c else s[i - 1];
      assert r[j] == if j < at then s[j] else if j == at then c else s[j - 1];
    }
    SplicedElements(s, at, c);
  }

  lemma SplicedElements<T>(s: seq<T>, at: nat, c: T)
    requires at <= |s|
    ensures Elements(s[..at] + [c] + s[at..]) == Elements(s) + {c}
  {
    assert s == s[..at] + s[at..];
    assert forall x :: x in s <==> x in s[..at] || x in s[at..];
    assert forall x :: x in s[..at] + [c] + s[at..] <==> x in s[..at] || x == c || x in s[at..];
  }

  /** `sort_unstable` and `dedup` of the choices of one vote. */
  method SortedDistinct(choices: seq<U32>) returns (r: seq<U32>)
    ensures Sorted(r) && Elements(r) == Elements(choices)
  {
    r := [];
    var n := 0;
    while n < |choices|
      invariant 0 <= n <= |choices|
      invariant Sorted(r) && Elements(r) == Elements(choices[..n])
    {
      r := Insert(r, choices[n]);
      assert choices[..n + 1] == choices[..n] + [choices[n]];
      n := n + 1;
    }
    assert choices[..n] == choices;
  }

  lemma SortedSize(r: seq<U32>, choices: seq<U32>)
    requires Sorted(r) && Elements(r) == Elements(choices)
    ensures |r| == |Selected(choices)|
  {
    DistinctSize(r);
    assert Elements(choices) == Selected(choices);
  }

  /** The options after inserting the first `n` rows one by one. */
  function PutOptions(options: map<Slot, Choice>, p: PollId, rows: seq<(string, nat)>, n: nat): map<Slot, Choice>
    requires n <= |rows|
  {
    if n == 0 then options
    else PutOptions(options, p, rows, n - 1)[Slot(p, n - 1) := Choice(Trim(rows[n - 1].0), rows[n - 1].1)]
  }

  lemma {:induction false} NextSlotFree(options: map<Slot, Choice>, p: PollId, rows: seq<(string, nat)>, n: nat)
    requires n <= |rows| && forall s :: s in options ==> s.poll != p
    ensures forall s :: s in PutOptions(options, p, rows, n) && s.poll == p ==> s.position < n
  {
    if n > 0 {
      NextSlotFree(options, p, rows, n - 1);
    }
  }

  lemma {:induction false} PutIsInsert(db: Db, p: PollId, rows: seq<(string, nat)>, n: nat)
    requires n <= |rows|
    ensures PutOptions(db.options, p, rows, n) == InsertSlots(db, p, rows[..n]).options
  {
    if n == 0 {
      NoRowsInserted(db, p, rows);
    } else {
      PutIsInsert(db, p, rows, n - 1);
      OneMoreRow(db, p, rows, n - 1);
    }
  }

  lemma NoRowsInserted(db: Db, p: PollId, rows: seq<(string, nat)>)
    ensures InsertSlots(db, p, rows[..0]).options == db.options
  {
    assert NewSlots(p, 0) == {};
  }

  lemma OneMoreRow(db: Db, p: PollId, rows: seq<(string, nat)>, k: nat)
    requires k < |rows|
    ensures InsertSlots(db, p, rows[..k + 1]).options ==
        InsertSlots(db, p, rows[..k]).options[Slot(p, k) := Choice(Trim(rows[k].0), rows[k].1)]
  {
    var longer, shorter := InsertSlots(db, p, rows[..k + 1]).options, InsertSlots(db, p, rows[..k]).options;
    var extended := shorter[Slot(p, k) := Choice(Trim(rows[k].0), rows[k].1)];
    forall s: Slot
      ensures (s in longer <==> s in extended) && (s in longer ==> longer[s] == extended[s])
    {
      InsertedAt(db, p, rows[..k + 1], s);
      InsertedAt(db, p, rows[..k], s);
    }
    assert longer == extended;
  }

  lemma InsertedAt(db: Db, p: PollId, rows: seq<(string, nat)>, s: Slot)
    ensures var options := InsertSlots(db, p, rows).options;
            if s.poll == p && 0 <= s.position < |rows|
            then s in options && options[s] == Choice(Trim(rows[s.position].0), rows[s.position].1)
            else (s in options <==> s in db.options) && (s in options ==> options[s] == db.options[s])
  {
  }

  class Store {
    var polls: map<PollId, Poll>
    var options: map<Slot, Choice>
    var votes: map<Ballot, Option<ActivityId>>
    var notices: set<Notice>
    var jobs: seq<Job>

    constructor ()
      ensures Tables() == Db(map[], map[], map[], {}, [])
    {
      polls, options, votes, notices, jobs := map[], map[], map[], {}, [];
    }

    ghost function Tables(): Db
      reads this
    {
      Db(polls, options, votes, notices, jobs)
    }

    method FindPoll(status: PollStatus) returns (r: Option<PollId>)
      requires UniqueStatuses(Tables())
      ensures r == PollFor(Tables(), status)
    {
      if exists p :: p in polls && polls[p].status == status {
        var p :| p in polls && polls[p].status == status;
        r := Some(p);
      } else {
        r := None;
      }
    }

    /** Insert a job unless an uncompleted one holds the key. */
    method EnqueueJob(kind: JobKind, p: PollId, key: Time, runAfter: Time)
      modifies this`jobs
      ensures jobs == Enqueue(old(jobs), kind, p, key, runAfter)
    {
      var i := 0;
      while i < |jobs|
        invariant 0 <= i <= |jobs| && jobs == old(jobs)
        invariant forall k :: 0 <= k < i ==> !jobs[k].Holds(kind, p, key)
      {
        if jobs[i].Holds(kind, p, key) {
          return;
        }
        i := i + 1;
      }
      jobs := jobs + [Job(kind, p, key, runAfter, 0, false, None)];
    }

    /** Request a tally update and hurry the pending one when it is due later. */
    method EnqueuePollUpdate(p: PollId, runAfter: Time)
      modifies this`jobs
      ensures jobs == EnqueueUpdate(old(jobs), p, runAfter)
    {
      EnqueueJob(PollUpdate, p, 0, runAfter);
      ghost var queued := jobs;
      var i := 0;
      while i < |jobs|
        invariant 0 <= i <= |jobs| == |queued|
        invariant forall k :: 0 <= k < i ==>
            jobs[k] == if queued[k].Holds(PollUpdate, p, 0)
              then queued[k].(runAfter := Min(queued[k].runAfter, runAfter)) else queued[k]
        invariant forall k :: i <= k < |jobs| ==> jobs[k] == queued[k]
      {
        if jobs[i].Holds(PollUpdate, p, 0) {
          jobs := jobs[i := jobs[i].(runAfter := Min(jobs[i].runAfter, runAfter))];
        }
        i := i + 1;
      }
    }

    /** Delete the option rows of a poll, and with them the votes that reference them. */
    method DeleteOptionRows(p: PollId)
      modifies this`options, this`votes
      ensures Tables() == DeleteSlots(old(Tables()), p)
    {
      votes := map b | b in votes && !(b.poll == p && b.At() in options) :: votes[b];
      options := map s | s in options && s.poll != p :: options[s];
    }

    /** One option row; its primary key and its count are checked. */
    method InsertOption(s: Slot, title: string, votesCount: nat) returns (ok: bool)
      modifies this`options
      ensures ok <==> s !in old(options) && votesCount < I64_LIMIT
      ensures options == if ok then old(options)[s := Choice(Trim(title), votesCount)] else old(options)
    {
      ok := s !in options && votesCount < I64_LIMIT;
      if ok {
        options := options[s := Choice(Trim(title), votesCount)];
      }
    }

    /** Number the rows from zero and insert them with trimmed titles, up to the first that is rejected. */
    method InsertOptionRows(p: PollId, rows: seq<(string, nat)>) returns (ok: bool)
      requires forall s :: s in options ==> s.poll != p
      modifies this`options
      ensures ok <==> RowsFit(rows)
      ensures ok ==> options == PutOptions(old(options), p, rows, |rows|)
    {
      ghost var before := options;
      var position := 0;
      while position < |rows|
        invariant 0 <= position <= |rows|
        invariant forall i :: 0 <= i < position ==> rows[i].1 < I64_LIMIT
        invariant options == PutOptions(before, p, rows, position)
      {
        NextSlotFree(before, p, rows, position);
        ok := InsertOption(Slot(p, position), rows[position].0, rows[position].1);
        if !ok {
          return;
        }
        position := position + 1;
      }
      return true;
    }

    method ReplaceOptionRows(p: PollId, rows: seq<(string, nat)>) returns (ok: bool)
      modifies this`options, this`votes
      ensures ok <==> RowsFit(rows)
      ensures ok ==> Tables() == ReplaceOptions(old(Tables()), p, rows)
    {
      DeleteOptionRows(p);
      PutIsInsert(Tables(), p, rows, |rows|);
      assert rows[..|rows|] == rows;
      ok := InsertOptionRows(p, rows);
    }

    /** The checks of a vote, in the source's order; `distinct` holds the sorted choices. */
    method CheckVote(p: PollId, voter: Voter, choices: seq<U32>, now: Time)
        returns (failed: Option<VoteError>, distinct: seq<U32>)
      ensures failed == VoteCheck(Tables(), p, voter, choices, now)
      ensures Sorted(distinct) && Elements(distinct) == Elements(choices)
    {
      distinct := SortedDistinct(choices);
      SortedSize(distinct, choices);
      SamePositions(distinct, choices);
      SameEmptiness(distinct, choices);
      if p !in polls {
        return Some(NotFound), distinct;
      }
      var poll := polls[p];
      if poll.Ended(now) {
        return Some(Expired), distinct;
      }
      if distinct == [] {
        return Some(InvalidChoice), distinct;
      }
      if !poll.multiple && |distinct| != 1 {
        return Some(MultipleChoices), distinct;
      }
      var existing := set b | b in votes && b.poll == p && b.voter == voter;
      if existing != {} && (voter.LocalVoter? || !poll.multiple) {
        return Some(AlreadyVoted), distinct;
      }
      var positions := set c | c in distinct :: AsI32(c);
      if exists q :: q in positions && Slot(p, q) !in options {
        return Some(InvalidChoice), distinct;
      }
      if exists q :: q in positions && Ballot(p, voter, q) in votes {
        return Some(AlreadyVoted), distinct;
      }
      return None, distinct;
    }

    /** Cast the choices of one voter: every check first, then one row per choice. */
    method Vote(p: PollId, voter: Voter, choices: seq<U32>, activity: Option<ActivityId>, now: Time)
        returns (r: Result<(), VoteError>)
      modifies this
      ensures r.Ok? ==> CastVote(old(Tables()), p, voter, choices, activity, now) == Ok(Tables())
      ensures r.Err? ==>
          CastVote(old(Tables()), p, voter, choices, activity, now) == Err(r.error) && Tables() == old(Tables())
    {
      ghost var before := Tables();
      var failed, distinct := CheckVote(p, voter, choices, now);
      if failed.Some? {
        return Err(failed.value);
      }
      var positions := seq(|distinct|, i requires 0 <= i < |distinct| => AsI32(distinct[i]));
      CheckedRows(before, p, voter, choices, now, distinct, positions);
      var existing := set b | b in votes && b.poll == p && b.voter == voter;
      assert existing == BallotsBy(before, p, voter);
      var ok := InsertBallots(p, voter, positions, activity);
      if !ok {
        return Err(VoteDatabase);
      }
      polls := polls[p := Joined(polls[p], existing == {}, now)];
      Recorded(before, Tables(), p, voter, choices, activity, now);
      return Ok(());
    }

    /** One vote row and one counter update per choice; a used activity id fails the whole vote. */
    method InsertBallots(p: PollId, voter: Voter, positions: seq<int>, activity: Option<ActivityId>) returns (ok: bool)
      requires Distinct(positions) && positions != []
      requires forall i :: 0 <= i < |positions| ==>
          Slot(p, positions[i]) in options && Ballot(p, voter, positions[i]) !in votes
      modifies this`options, this`votes
      ensures ok <==> !ActivityUsed(old(votes), activity) && (activity.Some? ==> |positions| == 1)
      ensures ok ==>
          options == Bump(old(options), p, Elements(positions))
            && votes == AddBallots(old(votes), p, voter, Elements(positions), activity)
      ensures !ok ==> options == old(options) && votes == old(votes)
    {
      var options0, votes0 := options, votes;
      ghost var done: set<int> := {};
      NothingBumped(options, votes, p, voter, activity);
      var n := 0;
      while n < |positions|
        invariant 0 <= n <= |positions|
        invariant done == Elements(positions[..n]) && (n == 0 <==> done == {})
        invariant Unvoted(votes0, p, voter, done)
        invariant options == Bump(options0, p, done)
        invariant votes == AddBallots(votes0, p, voter, done, activity)
        invariant n > 0 ==> !ActivityUsed(votes0, activity) && (activity.Some? ==> n == 1)
      {
        NextElement(positions, n);
        var inserted := InsertBallot(p, voter, positions[n], activity, options0, votes0, done);
        if !inserted {
          options, votes := options0, votes0;
          return false;
        }
        done := done + {positions[n]};
        n := n + 1;
      }
      assert positions[..n] == positions;
      return true;
    }

    /** The next row of a vote whose rows for the positions in `done` are already in. */
    method InsertBallot(p: PollId, voter: Voter, q: int, activity: Option<ActivityId>,
                        ghost options0: map<Slot, Choice>, ghost votes0: map<Ballot, Option<ActivityId>>,
                            ghost done: set<int>)
      returns (ok: bool)
      requires options == Bump(options0, p, done) && votes == AddBallots(votes0, p, voter, done, activity)
      requires q !in done && Slot(p, q) in options0 && Ballot(p, voter, q) !in votes0
      requires Unvoted(votes0, p, voter, done)
      modifies this`options, this`votes
      ensures ok <==> !ActivityUsed(votes0, activity) && (activity.Some? ==> done == {})
      ensures ok ==>
          options == Bump(options0, p, done + {q}) && votes == AddBallots(votes0, p, voter, done + {q}, activity)
            && Unvoted(votes0, p, voter, done + {q})
      ensures !ok ==> options == old(options) && votes == old(votes)
    {
      NextBallot(options0, votes0, p, voter, done, q, activity);
      var b := Ballot(p, voter, q);
      if b in votes || (activity.Some? && exists c :: c in votes && votes[c] == activity) {
        return false;
      }
      votes := votes[b := activity];
      var row := options[b.At()];
      options := options[b.At() := row.(votes := row.votes + 1)];
      return true;
    }

    /** Insert a poll row, its options and its expiration job. */
    method CreateLocal(env: Instance, id: PollId, status: StatusId, input: NewPoll, now: Time)
        returns (r: Result<(), PollError>)
      requires UniqueStatuses(Tables())
      modifies this
      ensures r.Ok? ==> CreateLocalPoll(env, old(Tables()), id, status, input, now) == Ok(Tables())
      ensures r.Err? ==>
          CreateLocalPoll(env, old(Tables()), id, status, input, now) == Err(r.error) && Tables() == old(Tables())
    {
      var valid := Validate(env.graphemes, input);
      if valid.Err? {
        return Err(valid.error);
      }
      var taken := FindPoll(Local(status));
      if id in polls || taken.Some? {
        return Err(Database);
      }
      var expiresAt := Deadline(input, now);
      polls := polls[id := Poll(Local(status), input.multiple, input.hideTotals, Some(expiresAt), None, None, Some(0),
          now)];
      var replaced := ReplaceOptionRows(id, ZeroRows(input.options));
      assert replaced;
      EnqueueJob(PollExpiration, id, expiresAt, expiresAt);
      return Ok(());
    }

    /** Replace or remove the poll of a status as part of an edit. */
    method ReplaceLocal(env: Instance, freshId: PollId, status: StatusId, input: Option<NewPoll>, now: Time)
        returns (r: Result<(), PollError>)
      requires UniqueStatuses(Tables())
      modifies this
      ensures r.Ok? ==> EditLocalPoll(env, old(Tables()), freshId, status, input, now) == Ok(Tables())
      ensures r.Err? ==>
          EditLocalPoll(env, old(Tables()), freshId, status, input, now) == Err(r.error) && Tables() == old(Tables())
    {
      var existing := FindPoll(Local(status));
      if input.None? {
        if existing.Some? {
          RemovePoll(existing.value);
        }
        return Ok(());
      }
      var valid := Validate(env.graphemes, input.value);
      if valid.Err? {
        return Err(valid.error);
      }
      if existing.Some? {
        EditExisting(existing.value, input.value, now);
        return Ok(());
      }
      r := CreateLocal(env, freshId, status, input.value, now);
    }

    /** Delete a poll row; its options and votes go with it. */
    method RemovePoll(p: PollId)
      modifies this`polls, this`options, this`votes
      ensures Tables() == DeletePoll(old(Tables()), p)
    {
      polls := polls - {p};
      options := map s | s in options && s.poll != p :: options[s];
      votes := map b | b in votes && b.poll != p :: votes[b];
    }

    method EditExisting(p: PollId, input: NewPoll, now: Time)
      requires p in polls
      modifies this
      ensures Tables() == EditExistingPoll(old(Tables()), p, input, now)
    {
      var expiresAt := Deadline(input, now);
      var same := CompareTitles(p, Trimmed(input.options));
      var changed := polls[p].multiple != input.multiple || !same;
      if changed {
        ClearVotes(p);
        var replaced := ReplaceOptionRows(p, ZeroRows(input.options));
        assert replaced;
      }
      var poll := polls[p].(multiple := input.multiple, hideTotals := input.hideTotals,
                            expiresAt := Some(expiresAt), closedAt := None, notifiedAt := None, updatedAt := now);
      if changed {
        poll := poll.(votersCount := Some(0));
      }
      polls := polls[p := poll];
      EnqueueJob(PollExpiration, p, expiresAt, expiresAt);
    }

    method ClearVotes(p: PollId)
      modifies this`votes
      ensures Tables() == DeleteVotes(old(Tables()), p)
    {
      votes := map b | b in votes && b.poll != p :: votes[b];
    }

    /** Whether the stored titles, by position, are exactly the given ones. */
    method CompareTitles(p: PollId, titles: seq<string>) returns (same: bool)
      ensures same <==> TitlesAre(Tables(), p, titles)
    {
      var stored := set s | s in options && s.poll == p;
      assert stored == SlotsOf(Tables(), p);
      same := (forall s :: s in stored ==> 0 <= s.position < |titles| && options[s].title == titles[s.position])
              && (forall i :: 0 <= i < |titles| ==> Slot(p, i) in options);
    }

    /** Insert or refresh the poll of a remote status; a rejected write drops the transaction. */
    method UpsertRemote(freshId: PollId, status: StatusId, input: RemotePoll, now: Time)
      returns (r: Result<(), PollError>)
      requires UniqueStatuses(Tables())
      modifies this
      ensures r.Ok? ==> RefreshRemotePoll(old(Tables()), freshId, status, input, now) == Ok(Tables())
      ensures r.Err? ==>
                && RefreshRemotePoll(old(Tables()), freshId, status, input, now) == Err(r.error)
                && Tables() == old(Tables())
    {
      if !(2 <= |input.options| <= MAX_REMOTE_OPTIONS) {
        return Err(OptionCount);
      }
      var polls0, options0, votes0, jobs0 := polls, options, votes, jobs;
      var existing := FindPoll(Remote(status));
      var ok;
      if existing.Some? {
        ok := RefreshExisting(existing.value, input, now);
      } else {
        ok := InsertRemote(freshId, status, input, now);
      }
      if !ok {
        polls, options, votes, jobs := polls0, options0, votes0, jobs0;
        return Err(Database);
      }
      return Ok(());
    }

    /** Write a poll row; a negative voter count is rejected. */
    method WritePoll(p: PollId, poll: Poll, voters: Option<nat>) returns (ok: bool)
      modifies this`polls
      ensures ok <==> (voters.Some? ==> voters.value < I64_LIMIT)
      ensures polls == if ok then old(polls)[p := poll] else old(polls)
    {
      ok := voters.Some? ==> voters.value < I64_LIMIT;
      if ok {
        polls := polls[p := poll];
      }
    }

    method InsertRemote(freshId: PollId, status: StatusId, input: RemotePoll, now: Time) returns (ok: bool)
      modifies this`polls, this`options, this`votes, this`jobs
      ensures ok <==> freshId !in old(polls) && CountsFit(input)
      ensures ok ==> Tables() == InsertRemotePoll(old(Tables()), freshId, status, input, now)
    {
      if freshId in polls {
        return false;
      }
      var poll := Poll(Remote(status), input.multiple, false, input.expiresAt, input.closedAt, None,
          RemoteVoters(input), now);
      ok := WritePoll(freshId, poll, input.votersCount);
      if ok {
        ok := ReplaceOptionRows(freshId, input.options);
      }
      if ok {
        RequestRemoteDeadline(freshId, input);
      }
    }

    method RefreshExisting(p: PollId, input: RemotePoll, now: Time) returns (ok: bool)
      requires p in polls
      modifies this`polls, this`options, this`votes, this`jobs
      ensures ok <==> CountsFit(input)
      ensures ok ==> Tables() == RefreshExistingPoll(old(Tables()), p, input, now)
    {
      var same := CompareTitles(p, RemoteTitles(input));
      if polls[p].multiple != input.multiple || !same {
        ClearVotes(p);
      }
      ok := ReplaceOptionRows(p, input.options);
      if ok {
        var poll := polls[p].(multiple := input.multiple, expiresAt := input.expiresAt, closedAt := input.closedAt,
                              votersCount := RemoteVoters(input), updatedAt := now);
        ok := WritePoll(p, poll, input.votersCount);
      }
      if ok {
        RequestRemoteDeadline(p, input);
      }
    }

    method RequestRemoteDeadline(p: PollId, input: RemotePoll)
      modifies this`jobs
      ensures jobs == EnqueueRemoteDeadline(old(jobs), p, input)
    {
      if input.DueAt().Some? {
        var at := input.DueAt().value + REMOTE_GRACE;
        EnqueueJob(PollExpiration, p, at, at);
      }
    }

    /** Close a due poll and insert one notification per recipient, all or nothing. */
    method Expire(env: Instance, p: PollId, now: Time) returns (r: Result<Option<Outcome>, PollError>)
      modifies this
      ensures r.Err? ==> ExpirePoll(env, old(Tables()), p, now) == Err(r.error) && Tables() == old(Tables())
      ensures r.Ok? ==> ExpirePoll(env, old(Tables()), p, now).Ok?
      ensures r.Ok? && r.value.None? ==> ExpirePoll(env, old(Tables()), p, now) == Ok(None) && Tables() == old(Tables())
      ensures r.Ok? && r.value.Some? ==>
          ExpirePoll(env, old(Tables()), p, now) ==
            Ok(Some(Expiration(Tables(), r.value.value.notices, r.value.value.newlyExpired,
            r.value.value.nextAttemptAt)))
    {
      if p !in polls {
        return Ok(None);
      }
      var poll := polls[p];
      var dueAt := poll.DueAt();
      if dueAt.Some? && dueAt.value > now {
        return Ok(Some(Outcome({}, false, dueAt)));
      }
      if poll.notifiedAt.Some? {
        return Ok(Some(Outcome({}, false, None)));
      }
      var recipients := set b | b in votes && b.poll == p && b.voter.LocalVoter? :: b.voter.account;
      if poll.status.Local? {
        recipients := recipients + {env.author(poll.status)};
      }
      assert recipients == Recipients(env, Tables(), p);
      var ok, inserted := InsertNotices(recipients, poll.status, env.author(poll.status));
      if !ok {
        return Err(Database);
      }
      polls := polls[p := ClosedPoll(poll, now)];
      return Ok(Some(Outcome(inserted, true, None)));
    }

    /** One row per recipient; a row that is already there fails the whole transaction. */
    method InsertNotices(recipients: set<AccountId>, status: PollStatus, author: AccountId)
        returns (ok: bool, inserted: set<Notice>)
      modifies this`notices
      ensures inserted == Addressed(recipients, status, author)
      ensures ok <==> inserted * old(notices) == {}
      ensures notices == if ok then old(notices) + inserted else old(notices)
    {
      inserted := set a | a in recipients :: Notice(a, status, author);
      ok := InsertRows(inserted);
    }

    method InsertRows(rows: set<Notice>) returns (ok: bool)
      modifies this`notices
      ensures ok <==> rows * old(notices) == {}
      ensures notices == if ok then old(notices) + rows else old(notices)
    {
      var before := notices;
      var todo := rows;
      while todo != {}
        invariant todo <= rows
        invariant (rows - todo) * before == {}
        invariant notices == before + (rows - todo)
        decreases |todo|
      {
        var row :| row in todo;
        if row in notices {
          assert row in rows * before;
          notices := before;
          return false;
        }
        notices := notices + {row};
        todo := todo - {row};
      }
      return true;
    }
  }

  datatype Outcome = Outcome(notices: set<Notice>, newlyExpired: bool, nextAttemptAt: Option<Time>)

  ghost function Addressed(accounts: set<AccountId>, status: PollStatus, author: AccountId): set<Notice> {
    set a | a in accounts :: Notice(a, status, author)
  }

  /** The rows written are those of the closed form. */
  lemma Recorded(db: Db, db': Db, p: PollId, voter: Voter, choices: seq<U32>, activity: Option<ActivityId>, now: Time)
    requires VoteCheck(db, p, voter, choices, now).None? && !ActivityUsed(db.votes, activity)
        && (activity.Some? ==> |Selected(choices)| == 1)
    requires db' == Db(db.polls[p := Joined(db.polls[p], BallotsBy(db, p, voter) == {}, now)],
        Bump(db.options, p, Positions(choices)), AddBallots(db.votes, p, voter, Positions(choices), activity),
        db.notices, db.jobs)
    ensures CastVote(db, p, voter, choices, activity, now) == Ok(db')
  {
  }

  /** What passing every check tells about the sorted choices. */
  lemma CheckedRows(db: Db, p: PollId, voter: Voter, choices: seq<U32>, now: Time, distinct: seq<U32>,
      positions: seq<int>)
    requires VoteCheck(db, p, voter, choices, now).None? && Sorted(distinct) && Elements(distinct) == Elements(choices)
    requires |positions| == |distinct| && forall i :: 0 <= i < |distinct| ==> positions[i] == AsI32(distinct[i])
    ensures positions != [] && |positions| == |Selected(choices)| && Elements(positions) == Positions(choices)
        && Distinct(positions)
    ensures forall i :: 0 <= i < |positions| ==>
        Slot(p, positions[i]) in db.options && Ballot(p, voter, positions[i]) !in db.votes
  {
    SortedSize(distinct, choices);
    SamePositions(distinct, choices);
    SameEmptiness(distinct, choices);
    forall i | 0 <= i < |positions|
      ensures positions[i] in Positions(choices)
    {
      assert distinct[i] in distinct;
    }
    forall q | q in Positions(choices)
      ensures q in Elements(positions)
    {
      var c :| c in distinct && AsI32(c) == q;
      var i :| 0 <= i < |distinct| && distinct[i] == c;
      assert positions[i] in positions;
    }
  }

  lemma SamePositions(distinct: seq<U32>, choices: seq<U32>)
    requires Elements(distinct) == Elements(choices)
    ensures Positions(distinct) == Positions(choices)
    ensures forall q :: q in Positions(choices) <==> exists c :: c in distinct && AsI32(c) == q
  {
    assert forall c :: c in distinct <==> c in Elements(distinct);
    assert forall c :: c in choices <==> c in Elements(choices);
  }

  lemma NothingBumped(options: map<Slot, Choice>, votes: map<Ballot, Option<ActivityId>>, p: PollId, voter: Voter,
      activity: Option<ActivityId>)
    ensures Bump(options, p, {}) == options
    ensures AddBallots(votes, p, voter, {}, activity) == votes
  {
    assert NewBallots(p, voter, {}) == {};
  }

  lemma NextElement(s: seq<int>, n: nat)
    requires Distinct(s) && n < |s|
    ensures Elements(s[..n + 1]) == Elements(s[..n]) + {s[n]}
    ensures s[n] !in Elements(s[..n])
  {
    assert s[..n + 1] == s[..n] + [s[n]];
  }

  ghost predicate Unvoted(votes: map<Ballot, Option<ActivityId>>, p: PollId, voter: Voter, positions: set<int>) {
    forall x :: x in positions ==> Ballot(p, voter, x) !in votes
  }

  /** What inserting the next row needs and achieves. */
  lemma NextBallot(options: map<Slot, Choice>, votes: map<Ballot, Option<ActivityId>>, p: PollId, voter: Voter,
      done: set<int>, q: int, activity: Option<ActivityId>)
    requires q !in done && Slot(p, q) in options && Ballot(p, voter, q) !in votes
    requires forall x :: x in done ==> Ballot(p, voter, x) !in votes
    ensures var (o, v, b) := (Bump(options, p, done), AddBallots(votes, p, voter, done, activity), Ballot(p, voter, q));
            && b.At() in o && b !in v
            && Bump(options, p, done + {q}) == o[b.At() := o[b.At()].(votes := o[b.At()].votes + 1)]
            && AddBallots(votes, p, voter, done + {q}, activity) == v[b := activity]
            && (ActivityUsed(v, activity) <==> ActivityUsed(votes, activity) || (activity.Some? && done != {}))
  {
    OneMoreBump(options, p, done, q);
    OneMoreBallot(votes, p, voter, done, q, activity);
    UsedIff(votes, p, voter, done, activity);
  }

  lemma OneMoreBump(options: map<Slot, Choice>, p: PollId, positions: set<int>, q: int)
    requires q !in positions && Slot(p, q) in options
    ensures var bumped := Bump(options, p, positions);
            Bump(options, p, positions + {q}) ==
                bumped[Slot(p, q) := bumped[Slot(p, q)].(votes := bumped[Slot(p, q)].votes + 1)]
  {
  }

  lemma OneMoreBallot(votes: map<Ballot, Option<ActivityId>>, p: PollId, voter: Voter, positions: set<int>, q: int,
      activity: Option<ActivityId>)
    ensures AddBallots(votes, p, voter, positions + {q}, activity) ==
        AddBallots(votes, p, voter, positions, activity)[Ballot(p, voter, q) := activity]
  {
  }

  lemma SameEmptiness(distinct: seq<U32>, choices: seq<U32>)
    requires Elements(distinct) == Elements(choices)
    ensures distinct == [] <==> choices == []
  {
    assert |distinct| > 0 ==> distinct[0] in Elements(distinct);
    assert |choices| > 0 ==> choices[0] in Elements(choices);
  }

  /** While a vote is inserted, its activity id is taken if it was before or by the vote's first row. */
  lemma UsedIff(votes: map<Ballot, Option<ActivityId>>, p: PollId, voter: Voter, done: set<int>,
      activity: Option<ActivityId>)
    requires forall x :: x in done ==> Ballot(p, voter, x) !in votes
    ensures ActivityUsed(AddBallots(votes, p, voter, done, activity), activity) <==>
        ActivityUsed(votes, activity) || (activity.Some? && done != {})
  {
    var now := AddBallots(votes, p, voter, done, activity);
    if b :| b in votes && votes[b] == activity {
      assert b in now && now[b] == activity;
    }
    if done != {} {
      var x := Pick(done);
      assert Ballot(p, voter, x) in now && now[Ballot(p, voter, x)] == activity;
    }
  }
}
