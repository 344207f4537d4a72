/**
 Runs from empty tables that end in the losses the theorems describe, so the states exist.

 A refresh can meet the job that a worker has just run, and a vote the update that was just sent.
 `PollExpirations.CollisionIsExact` and `PollUpdates.AnnouncementKeptIff` say that nothing else loses
 a job; here is one run each in which it is lost.
 */
module PollWitnesses {
  import opened Prelude
  import opened PollModel
  import opened PollRuns
  import opened PollFrames
  import opened PollDeadlines
  import opened PollUpdates

  lemma RunOneMore(env: Instance, s: System, events: seq<Event>, e: Event)
    ensures Run(env, s, events + [e]) == Apply(env, Run(env, s, events), e)
    decreases |events|
  {
    if events == [] {
      assert events + [e] == [e];
      assert Run(env, Apply(env, s, e), [e][1..]) == Apply(env, s, e);
    } else {
      RunOneMore(env, Apply(env, s, events[0]), events[1..], e);
      assert (events + [e])[1..] == events[1..] + [e];
    }
  }

  /** Events in ascending order of their times respect the clock. */
  lemma {:induction false} AscendingIsTimely(clock: Time, events: seq<Event>)
    requires forall i :: 0 <= i < |events| ==> clock <= events[i].at
    requires forall i, j :: 0 <= i < j < |events| ==> events[i].at <= events[j].at
    ensures Timely(clock, events)
    decreases |events|
  {
    if events != [] {
      AscendingIsTimely(events[0].at, events[1..]);
    }
  }

  // ---------------------------------------------------------------- a refresh that loses its job

  /** A single-choice question with two answers and this deadline. */
  function Question(deadline: Time): RemotePoll {
    RemotePoll([("a", 0), ("b", 0)], false, Some(deadline), None, None)
  }

  function RefreshAt(at: Time, freshId: PollId, deadline: Time): Event {
    Event(at, Refresh(freshId, 7, Question(deadline)))
  }

  /** Poll 1 of remote status 7 is the only poll, open and not notified. */
  ghost predicate OnlyPoll(s: System, deadline: Time) {
    && s.db.polls.Keys == {1}
    && s.db.polls[1].status == Remote(7)
    && s.db.polls[1].expiresAt == Some(deadline)
    && s.db.polls[1].closedAt.None? && s.db.polls[1].notifiedAt.None?
  }

  lemma FirstRefresh(env: Instance, at: Time, deadline: Time)
    ensures var s' := Apply(env, Start(at), RefreshAt(at, 1, deadline));
            && OnlyPoll(s', deadline) && s'.claims == map[]
            && s'.db.jobs == [Job(PollExpiration, 1, deadline + REMOTE_GRACE, deadline + REMOTE_GRACE, 0, false, None)]
  {
    assert PollFor(Start(at).db, Remote(7)).None?;
    assert CountsFit(Question(deadline));
  }

  lemma NextRefresh(env: Instance, s: System, at: Time, freshId: PollId, deadline: Time, before: Time)
    requires OnlyPoll(s, before) && freshId != 1 && NeverUsed(s.db, freshId)
    ensures var s' := Apply(env, s, RefreshAt(at, freshId, deadline));
            && OnlyPoll(s', deadline) && s'.claims == s.claims
            && s'.db.jobs == EnqueueExpiration(s.db.jobs, 1, deadline + REMOTE_GRACE)
  {
    assert s.db.polls[1].status == Remote(7);
    assert PollFor(s.db, Remote(7)) == Some(1);
    assert CountsFit(Question(deadline));
  }

  const LATER: Time := 1_000_000_000

  function FirstJob(claim: Option<ClaimId>): Job {
    Job(PollExpiration, 1, 300_000_000, 300_000_000, 0, false, claim)
  }

  function SecondJob(): Job {
    Job(PollExpiration, 1, 1_300_000_000, 1_300_000_000, 0, false, None)
  }

  /** The poll's job is claimed, its deadline moves away, and the claimed job finds it not due. */
  function CollisionRun(): seq<Event> {
    [RefreshAt(0, 1, 0), Event(300_000_000, ClaimJob(0, 5)), RefreshAt(300_000_000, 2, LATER),
        Event(300_000_000, RunHandler(5, false))]
  }

  lemma CollisionState(env: Instance)
    ensures var s := Run(env, Start(0), CollisionRun());
            && OnlyPoll(s, LATER)
            && s.db.jobs == [FirstJob(Some(5)), SecondJob()]
            && s.claims == map[5 := Claim(0, Succeeded)]
  {
    var e := CollisionRun();
    var s1 := Apply(env, Start(0), e[0]);
    FirstRefresh(env, 0, 0);
    var s2 := Apply(env, s1, e[1]);
    Claimed5(env, s1);
    var s3 := Apply(env, s2, e[2]);
    NextRefresh(env, s2, 300_000_000, 2, LATER, 0);
    TwoJobs();
    NotDue(env, s3, 300_000_000);
    RunFour(env, e[0], e[1], e[2], e[3]);
  }

  lemma Claimed5(env: Instance, s: System)
    requires OnlyPoll(s, 0) && s.db.jobs == [FirstJob(None)] && s.claims == map[]
    ensures var s' := Apply(env, s, Event(300_000_000, ClaimJob(0, 5)));
            && OnlyPoll(s', 0) && s'.db.jobs == [FirstJob(Some(5))] && s'.claims == map[5 := Claim(0, Claimed)]
            && NeverUsed(s'.db, 2)
  {
  }

  lemma TwoJobs()
    ensures EnqueueExpiration([FirstJob(Some(5))], 1, LATER + REMOTE_GRACE) == [FirstJob(Some(5)), SecondJob()]
  {
  }

  /** The handler of the claimed job finds the deadline in the future and succeeds. */
  lemma NotDue(env: Instance, s: System, at: Time)
    requires OnlyPoll(s, LATER) && at < LATER
    requires s.db.jobs == [FirstJob(Some(5)), SecondJob()] && s.claims == map[5 := Claim(0, Claimed)]
    ensures var s' := Apply(env, s, Event(at, RunHandler(5, false)));
            s'.db == s.db && s'.claims == map[5 := Claim(0, Succeeded)]
  {
  }

  lemma RunFour(env: Instance, a: Event, b: Event, c: Event, d: Event)
    ensures Run(env, Start(0), [a, b, c, d]) == Apply(env, Apply(env, Apply(env, Apply(env, Start(0), a), b), c), d)
  {
    RunOneMore(env, Start(0), [], a);
    RunOneMore(env, Start(0), [a], b);
    RunOneMore(env, Start(0), [a, b], c);
    RunOneMore(env, Start(0), [a, b, c], d);
    assert [] + [a] == [a] && [a] + [b] == [a, b] && [a, b] + [c] == [a, b, c] && [a, b, c] + [d] == [a, b, c, d];
  }

  /**
   In this run the poll is open, waiting for its expiration, and a refresh back to its first deadline
   collides; when the worker finishes, no uncompleted job is left for that deadline.
   */
  lemma CollisionHappens(env: Instance)
    ensures Timely(0, CollisionRun() + [RefreshAt(300_000_000, 3, 0), Event(300_000_000, Finish(5))])
    ensures var s := Run(env, Start(0), CollisionRun());
            Awaited(s, 1) && Collides(s, Refresh(3, 7, Question(0)), 1)
    ensures var s' := Run(env, Start(0),
        CollisionRun() + [RefreshAt(300_000_000, 3, 0), Event(300_000_000, Finish(5))]);
            Awaited(s', 1) && ExpirationKey(s'.db.polls[1]) == Some(300_000_000) && !Covered(s', 1)
  {
    var s := Run(env, Start(0), CollisionRun());
    var back, finish := RefreshAt(300_000_000, 3, 0), Event(300_000_000, Finish(5));
    CollisionState(env);
    assert PollFor(s.db, Remote(7)) == Some(1) by {
      assert s.db.polls[1].status == Remote(7);
    }
    assert Handled(s, 0) && s.db.jobs[0].Holds(PollExpiration, 1, 0 + REMOTE_GRACE);
    var s5 := Apply(env, s, back);
    NextRefresh(env, s, 300_000_000, 3, 0, LATER);
    assert s5.db.jobs == s.db.jobs;
    RunOneMore(env, Start(0), CollisionRun(), back);
    RunOneMore(env, Start(0), CollisionRun() + [back], finish);
    assert CollisionRun() + [back] + [finish] == CollisionRun() + [back, finish];
    Completed(env, s5);
    TimelyCollision();
  }

  lemma Completed(env: Instance, s: System)
    requires OnlyPoll(s, 0) && s.db.jobs == [FirstJob(Some(5)), SecondJob()]
        && s.claims == map[5 := Claim(0, Succeeded)]
    ensures var s' := Apply(env, s, Event(300_000_000, Finish(5)));
            Awaited(s', 1) && ExpirationKey(s'.db.polls[1]) == Some(300_000_000) && !Covered(s', 1)
  {
    var s' := Apply(env, s, Event(300_000_000, Finish(5)));
    assert s'.db.jobs == [FirstJob(Some(5)).(completed := true, claim := None), SecondJob()];
  }

  lemma TimelyCollision()
    ensures Timely(0, CollisionRun() + [RefreshAt(300_000_000, 3, 0), Event(300_000_000, Finish(5))])
  {
    AscendingIsTimely(0, CollisionRun() + [RefreshAt(300_000_000, 3, 0), Event(300_000_000, Finish(5))]);
  }

  // ---------------------------------------------------------------- a vote that is not announced

  /** Graphemes are counted as characters and account 0 wrote everything. */
  function PlainInstance(): Instance {
    Instance(title => |title|, status => 0)
  }

  function NewLocalPoll(): NewPoll {
    NewPoll(["a", "b"], 3_600, false, false)
  }

  function VoteAt(at: Time, account: AccountId, choice: U32): Event {
    Event(at, VoteLocally(1, account, [choice]))
  }

  /** Poll 1 of local status 7, with two answers, visible totals and an hour to go. */
  ghost predicate OpenPoll(s: System) {
    && 1 in s.db.polls
    && s.db.polls[1].status == Local(7)
    && !s.db.polls[1].multiple && !s.db.polls[1].hideTotals
    && s.db.polls[1].expiresAt == Some(3_600_000_000)
    && s.db.polls[1].closedAt.None?
    && Slot(1, 0) in s.db.options && Slot(1, 1) in s.db.options
    && ForeignKeys(s.db)
  }

  ghost predicate HasNotVoted(s: System, account: AccountId) {
    BallotsBy(s.db, 1, LocalVoter(account)) == {}
  }

  function ExpirationJob(): Job {
    Job(PollExpiration, 1, 3_600_000_000, 3_600_000_000, 0, false, None)
  }

  function UpdateJob(claim: Option<ClaimId>): Job {
    Job(PollUpdate, 1, 0, 180_000_000, 0, false, claim)
  }

  lemma LettersAreValid()
    ensures Validate(PlainInstance().graphemes, NewLocalPoll()).Ok?
  {
    Letter("a");
    Letter("b");
    var titles := Trimmed(NewLocalPoll().options);
    assert titles[0] == "a" && titles[1] == "b";
  }

  lemma Letter(title: string)
    requires |title| == 1 && !Text.IsWhitespace(title[0])
    ensures Text.Trim(title) == title
  {
    assert Text.TrimStart(title) == title;
    assert Text.TrimEnd(title) == title;
  }

  lemma Created()
    ensures var s := Apply(PlainInstance(), Start(0), Event(0, Create(1, 7, NewLocalPoll())));
            && OpenPoll(s) && s.claims == map[] && s.db.jobs == [ExpirationJob()]
            && forall account :: HasNotVoted(s, account)
  {
    LettersAreValid();
    assert PollFor(Start(0).db, Local(7)).None?;
    CreateRows(PlainInstance(), Start(0).db, 1, 7, NewLocalPoll(), 0);
    var s := Apply(PlainInstance(), Start(0), Event(0, Create(1, 7, NewLocalPoll())));
    assert forall b :: b in s.db.votes ==> b.poll != 1;
  }

  lemma VoteAccepted(s: System, at: Time, account: AccountId, choice: U32)
    requires OpenPoll(s) && HasNotVoted(s, account) && choice <= 1 && at < 3_600_000_000
    ensures CastVote(s.db, 1, LocalVoter(account), [choice], None, at).Ok?
    ensures CastVote(s.db, 1, LocalVoter(account), [choice], None, at).value
            == RecordVote(s.db, 1, LocalVoter(account), {choice}, None, at)
  {
    assert Selected([choice]) == {choice};
    assert Positions([choice]) == {choice};
    assert Ballot(1, LocalVoter(account), choice) !in BallotsBy(s.db, 1, LocalVoter(account));
  }

  lemma Voted(env: Instance, s: System, at: Time, account: AccountId, choice: U32, other: AccountId)
    requires OpenPoll(s) && HasNotVoted(s, account) && choice <= 1 && at < 3_600_000_000
    requires other != account && HasNotVoted(s, other)
    ensures var s' := Apply(env, s, VoteAt(at, account, choice));
            && OpenPoll(s') && s'.claims == s.claims && HasNotVoted(s', other)
            && s'.db.jobs == EnqueueUpdate(s.db.jobs, 1, at + UPDATE_DELAY)
  {
    VoteAccepted(s, at, account, choice);
    VoteRows(s.db, 1, LocalVoter(account), {choice}, None, at);
    OthersHaveNotVoted(s.db, RecordVote(s.db, 1, LocalVoter(account), {choice}, None, at), account, choice, other);
  }

  lemma OthersHaveNotVoted(db: Db, db': Db, account: AccountId, choice: int, other: AccountId)
    requires db'.votes.Keys == db.votes.Keys + NewBallots(1, LocalVoter(account), {choice})
    requires other != account && BallotsBy(db, 1, LocalVoter(other)) == {}
    ensures BallotsBy(db', 1, LocalVoter(other)) == {}
  {
    forall b | b in BallotsBy(db', 1, LocalVoter(other))
      ensures b in BallotsBy(db, 1, LocalVoter(other))
    {
    }
  }

  /** A first vote asks for an update; a worker claims the job when it is due and sends the update. */
  function AbsorptionRun(): seq<Event> {
    [Event(0, Create(1, 7, NewLocalPoll())), VoteAt(0, 10, 0), Event(180_000_000, ClaimJob(1, 5)),
        Event(180_000_000, RunHandler(5, false))]
  }

  ghost predicate UpdateSent(s: System) {
    && OpenPoll(s) && HasNotVoted(s, 11) && HasNotVoted(s, 12)
    && s.db.jobs == [ExpirationJob(), UpdateJob(Some(5))]
    && s.claims == map[5 := Claim(1, Succeeded)]
  }

  lemma AbsorptionState()
    ensures UpdateSent(Run(PlainInstance(), Start(0), AbsorptionRun()))
  {
    var env, e := PlainInstance(), AbsorptionRun();
    var s1 := Apply(env, Start(0), e[0]);
    Created();
    var s2 := Apply(env, s1, e[1]);
    Voted(env, s1, 0, 10, 0, 11);
    Voted(env, s1, 0, 10, 0, 12);
    FirstUpdate();
    var s3 := Apply(env, s2, e[2]);
    Sent(env, s2);
    RunFour(env, e[0], e[1], e[2], e[3]);
  }

  lemma FirstUpdate()
    ensures EnqueueUpdate([ExpirationJob()], 1, 0 + UPDATE_DELAY) == [ExpirationJob(), UpdateJob(None)]
  {
  }

  lemma Sent(env: Instance, s: System)
    requires OpenPoll(s) && HasNotVoted(s, 11) && HasNotVoted(s, 12)
    requires s.db.jobs == [ExpirationJob(), UpdateJob(None)] && s.claims == map[]
    ensures UpdateSent(Apply(env, Apply(env, s, Event(180_000_000, ClaimJob(1, 5))),
        Event(180_000_000, RunHandler(5, false))))
  {
    var s1 := Apply(env, s, Event(180_000_000, ClaimJob(1, 5)));
    assert s1.db.jobs == [ExpirationJob(), UpdateJob(Some(5))] && s1.claims == map[5 := Claim(1, Claimed)];
  }

  /**
   In this run a vote is accepted while the update before it is being completed; when the worker
   finishes, no update is pending although the vote was not part of the last one.
   */
  lemma AbsorptionHappens()
    ensures Timely(0, AbsorptionRun() + [VoteAt(180_000_000, 11, 1), Event(180_000_000, Finish(5))])
    ensures var s := Run(PlainInstance(), Start(0), AbsorptionRun());
            Absorbing(s, 1) && CastVote(s.db, 1, LocalVoter(11), [1], None, 180_000_000).Ok?
    ensures var s' := Run(PlainInstance(), Start(0),
        AbsorptionRun() + [VoteAt(180_000_000, 11, 1), Event(180_000_000, Finish(5))]);
            OpenPoll(s') && !AnyPending(s'.db.jobs, 1)
  {
    var env, s := PlainInstance(), Run(PlainInstance(), Start(0), AbsorptionRun());
    var vote, finish := VoteAt(180_000_000, 11, 1), Event(180_000_000, Finish(5));
    AbsorptionState();
    VoteIsAbsorbed(env, s);
    RunOneMore(env, Start(0), AbsorptionRun(), vote);
    RunOneMore(env, Start(0), AbsorptionRun() + [vote], finish);
    assert AbsorptionRun() + [vote] + [finish] == AbsorptionRun() + [vote, finish];
    TimelyAbsorption();
  }

  lemma VoteIsAbsorbed(env: Instance, s: System)
    requires UpdateSent(s)
    ensures Absorbing(s, 1) && CastVote(s.db, 1, LocalVoter(11), [1], None, 180_000_000).Ok?
    ensures var s' := Apply(env, Apply(env, s, VoteAt(180_000_000, 11, 1)), Event(180_000_000, Finish(5)));
            OpenPoll(s') && !AnyPending(s'.db.jobs, 1)
  {
    assert Handled(s, 1) && Pending(s.db.jobs[1], 1);
    VoteAccepted(s, 180_000_000, 11, 1);
    Voted(env, s, 180_000_000, 11, 1, 12);
    SameUpdate();
    UpdateCompleted(env, Apply(env, s, VoteAt(180_000_000, 11, 1)));
  }

  lemma SameUpdate()
    ensures EnqueueUpdate([ExpirationJob(), UpdateJob(Some(5))], 1, 180_000_000 + UPDATE_DELAY) ==
        [ExpirationJob(), UpdateJob(Some(5))]
  {
    assert [ExpirationJob(), UpdateJob(Some(5))][1].Holds(PollUpdate, 1, 0);
  }

  lemma UpdateCompleted(env: Instance, s: System)
    requires OpenPoll(s) && s.db.jobs == [ExpirationJob(), UpdateJob(Some(5))]
        && s.claims == map[5 := Claim(1, Succeeded)]
    ensures var s' := Apply(env, s, Event(180_000_000, Finish(5)));
            OpenPoll(s') && !AnyPending(s'.db.jobs, 1)
  {
    var s' := Apply(env, s, Event(180_000_000, Finish(5)));
    assert s'.db.jobs == [ExpirationJob(), UpdateJob(Some(5)).(completed := true, claim := None)];
  }

  lemma TimelyAbsorption()
    ensures Timely(0, AbsorptionRun() + [VoteAt(180_000_000, 11, 1), Event(180_000_000, Finish(5))])
  {
    AscendingIsTimely(0, AbsorptionRun() + [VoteAt(180_000_000, 11, 1), Event(180_000_000, Finish(5))]);
  }
}
