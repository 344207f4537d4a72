/**
 A run from empty tables in which an edited poll expires again, in vain.

 The author's notification of the first expiry is still there, and `PollNotices` says that with it
 every later expiry of the status fails.
 */
module PollSecondExpiry {
  import opened Prelude
  import opened PollModel
  import opened PollRuns
  import opened PollFrames
  import opened PollNotices
  import opened PollWitnesses

  const FIRST: Time := 3_600_000_000
  const SECOND: Time := 7_200_000_000

  /** The poll is created, expires, and is edited; both of its expiration jobs are run when due. */
  function FirstExpiryRun(): seq<Event> {
    [Event(0, Create(1, 7, NewLocalPoll())), Event(FIRST, ClaimJob(0, 5))]
  }

  function SecondExpiryRun(): seq<Event> {
    [Event(FIRST, Edit(2, 7, Some(NewLocalPoll()))), Event(SECOND, ClaimJob(2, 6)), Event(SECOND, RunHandler(6, false))]
  }

  function FirstHandler(): Event {
    Event(FIRST, RunHandler(5, false))
  }

  /** The only poll is that of local status 7. */
  ghost predicate OnlyLocalPoll(s: System) {
    s.db.polls.Keys == {1} && s.db.polls[1].status == Local(7)
  }

  ghost predicate DueFirst(s: System) {
    && OnlyLocalPoll(s)
    && s.db.polls[1].expiresAt == Some(FIRST) && s.db.polls[1].closedAt.None? && s.db.polls[1].notifiedAt.None?
    && s.db.notices == {}
    && s.db.jobs == [ExpirationJob().(claim := Some(5))] && s.claims == map[5 := Claim(0, Claimed)]
  }

  lemma CreatedOnly()
    ensures var s := Apply(PlainInstance(), Start(0), FirstExpiryRun()[0]);
            && OnlyLocalPoll(s) && s.db.notices == {} && s.claims == map[] && s.db.jobs == [ExpirationJob()]
            && s.db.polls[1].expiresAt == Some(FIRST) && s.db.polls[1].closedAt.None? && s.db.polls[1].notifiedAt.None?
  {
    LettersAreValid();
    assert PollFor(Start(0).db, Local(7)).None?;
    CreateRows(PlainInstance(), Start(0).db, 1, 7, NewLocalPoll(), 0);
    Created();
  }

  lemma ClaimedFirst(s: System)
    requires OnlyLocalPoll(s) && s.db.notices == {} && s.claims == map[] && s.db.jobs == [ExpirationJob()]
    requires s.db.polls[1].expiresAt == Some(FIRST) && s.db.polls[1].closedAt.None? && s.db.polls[1].notifiedAt.None?
    ensures DueFirst(Apply(PlainInstance(), s, FirstExpiryRun()[1]))
  {
  }

  lemma CreatedAndClaimed()
    ensures DueFirst(Run(PlainInstance(), Start(0), FirstExpiryRun()))
  {
    var env, e := PlainInstance(), FirstExpiryRun();
    CreatedOnly();
    ClaimedFirst(Apply(env, Start(0), e[0]));
    RunOneMore(env, Start(0), [], e[0]);
    RunOneMore(env, Start(0), [e[0]], e[1]);
    assert [] + [e[0]] == [e[0]] && [e[0]] + [e[1]] == e;
  }

  function SentUpdate(): Job {
    Job(PollUpdate, 1, 0, FIRST, 0, false, None)
  }

  /** The author was notified and the poll is closed. */
  ghost predicate ExpiredOnce(s: System) {
    && OnlyLocalPoll(s) && s.db.polls[1].notifiedAt == Some(FIRST)
    && AuthorNotified(PlainInstance(), s.db, 7)
    && s.db.jobs == [ExpirationJob().(claim := Some(5)), SentUpdate()] && s.claims == map[5 := Claim(0, Succeeded)]
  }

  lemma ExpiresFirst(s: System)
    requires DueFirst(s)
    ensures ExpiryEvent(PlainInstance(), s, FirstHandler(), 1)
  {
    ExpiryNotifiesEachOnce(PlainInstance(), s.db, 1, FIRST);
  }

  lemma FirstRows(s: System)
    requires DueFirst(s) && ExpiryEvent(PlainInstance(), s, FirstHandler(), 1)
    ensures var s' := Apply(PlainInstance(), s, FirstHandler());
            && s'.db.polls == map[1 := ClosedPoll(s.db.polls[1], FIRST)]
            && s'.db.jobs == EnqueueUpdate(s.db.jobs, 1, FIRST)
            && s'.claims == map[5 := Claim(0, Succeeded)]
  {
    assert s.db.polls == map[1 := s.db.polls[1]];
  }

  lemma FirstExpiry(s: System)
    requires DueFirst(s)
    ensures ExpiryEvent(PlainInstance(), s, FirstHandler(), 1)
    ensures ExpiredOnce(Apply(PlainInstance(), s, FirstHandler()))
  {
    ExpiresFirst(s);
    ExpiryLeavesAuthorRow(PlainInstance(), s, FirstHandler(), 1);
    FirstRows(s);
    FirstUpdateAt();
  }

  lemma FirstUpdateAt()
    ensures EnqueueUpdate([ExpirationJob().(claim := Some(5))], 1, FIRST) ==
        [ExpirationJob().(claim := Some(5)), SentUpdate()]
  {
  }

  function NextExpirationJob(claim: Option<ClaimId>): Job {
    Job(PollExpiration, 1, SECOND, SECOND, 0, false, claim)
  }

  /** The edited poll is open again until its second deadline, but the author's row is still there. */
  ghost predicate OpenAgain(s: System) {
    && OnlyLocalPoll(s)
    && s.db.polls[1].expiresAt == Some(SECOND) && s.db.polls[1].closedAt.None? && s.db.polls[1].notifiedAt.None?
    && AuthorNotified(PlainInstance(), s.db, 7)
  }

  lemma EditedAgain(s: System)
    requires ExpiredOnce(s)
    ensures var s' := Apply(PlainInstance(), s, Event(FIRST, Edit(2, 7, Some(NewLocalPoll()))));
            && OpenAgain(s') && s'.claims == s.claims
            && s'.db.jobs == [ExpirationJob().(claim := Some(5)), SentUpdate(), NextExpirationJob(None)]
  {
    LettersAreValid();
    assert s.db.polls[1].status == Local(7);
    assert PollFor(s.db, Local(7)) == Some(1);
    assert NeverUsed(s.db, 2);
    NextExpirationQueued();
  }

  lemma NextExpirationQueued()
    ensures EnqueueExpiration([ExpirationJob().(claim := Some(5)), SentUpdate()], 1, SECOND)
            == [ExpirationJob().(claim := Some(5)), SentUpdate(), NextExpirationJob(None)]
  {
  }

  lemma SecondExpiry(s: System)
    requires OpenAgain(s) && s.db.jobs == [ExpirationJob().(claim := Some(5)), SentUpdate(), NextExpirationJob(Some(6))]
    requires 6 in s.claims && s.claims[6] == Claim(2, Claimed)
    ensures var s' := Apply(PlainInstance(), s, Event(SECOND, RunHandler(6, false)));
            && s'.db == s.db && 6 in s'.claims && s'.claims[6] == Claim(2, Failed)
            && Expires(s.db.polls[1], SECOND)
  {
    AuthorRowBlocksExpiry(PlainInstance(), s.db, 1, SECOND);
  }

  lemma ClaimedAgain(s: System)
    requires OpenAgain(s) && s.db.jobs == [ExpirationJob().(claim := Some(5)), SentUpdate(), NextExpirationJob(None)]
    requires s.claims == map[5 := Claim(0, Succeeded)]
    ensures var s' := Apply(PlainInstance(), s, Event(SECOND, ClaimJob(2, 6)));
            && OpenAgain(s') && s'.db.jobs == [ExpirationJob().(claim := Some(5)), SentUpdate(),
                NextExpirationJob(Some(6))]
            && 6 in s'.claims && s'.claims[6] == Claim(2, Claimed)
  {
  }

  lemma RunThreeMore(env: Instance, s: System, a: Event, b: Event, c: Event)
    ensures Run(env, s, [a, b, c]) == Apply(env, Apply(env, Apply(env, s, a), b), c)
  {
    RunOneMore(env, s, [], a);
    RunOneMore(env, s, [a], b);
    RunOneMore(env, s, [a, b], c);
    assert [] + [a] == [a] && [a] + [b] == [a, b] && [a, b] + [c] == [a, b, c];
  }

  /**
   In this run a poll expires and its author is told; after an edit the handler of its new deadline
   runs when due and fails, with the poll still open and nobody notified.
   */
  lemma SecondExpiryFails()
    ensures Timely(0, FirstExpiryRun() + [FirstHandler()]) && Timely(FIRST, SecondExpiryRun())
    ensures var due := Run(PlainInstance(), Start(0), FirstExpiryRun());
            && ExpiryEvent(PlainInstance(), due, FirstHandler(), 1)
            && var s := Run(PlainInstance(), Apply(PlainInstance(), due, FirstHandler()), SecondExpiryRun());
            && 1 in s.db.polls && Expires(s.db.polls[1], SECOND)
            && s.db.polls[1].closedAt.None? && s.db.polls[1].notifiedAt.None?
            && 6 in s.claims && s.claims[6].progress.Failed?
  {
    var env, e := PlainInstance(), SecondExpiryRun();
    CreatedAndClaimed();
    var due := Run(env, Start(0), FirstExpiryRun());
    FirstExpiry(due);
    var s1 := Apply(env, due, FirstHandler());
    EditedAgain(s1);
    var s2 := Apply(env, s1, e[0]);
    ClaimedAgain(s2);
    SecondExpiry(Apply(env, s2, e[1]));
    RunThreeMore(env, s1, e[0], e[1], e[2]);
    ExpiryRunsAreTimely();
  }

  lemma ExpiryRunsAreTimely()
    ensures Timely(0, FirstExpiryRun() + [FirstHandler()]) && Timely(FIRST, SecondExpiryRun())
  {
    AscendingIsTimely(0, FirstExpiryRun() + [FirstHandler()]);
    AscendingIsTimely(FIRST, SecondExpiryRun());
  }
}
