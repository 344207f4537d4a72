/**
 Expiry notifications: who gets one, how often, and why an edited poll gets no second round.

 The expiration transaction inserts one row per recipient under a unique key of recipient, author and
 status. Editing a poll clears `notifications_sent_at` so that it may expire again, but the rows of
 the first expiry are still there, and the author is a recipient every time.
 */
module PollNotices {
  import opened Prelude
  import opened PollModel
  import opened PollRuns
  import opened PollDeadlines
  import opened PollDeadlineRuns

  /** The transaction closes the poll and notifies, rather than checking the time or failing. */
  ghost predicate NewlyExpires(env: Instance, db: Db, p: PollId, now: Time) {
    var r := ExpirePoll(env, db, p, now);
    r.Ok? && r.value.Some? && r.value.value.newlyExpired
  }

  /** The step is a worker running the expiration handler for this poll, and it closes the poll. */
  ghost predicate ExpiryEvent(env: Instance, s: System, e: Event, p: PollId) {
    && e.step.RunHandler?
    && e.step.claim in s.claims && s.claims[e.step.claim].progress.Claimed? && s.claims[e.step.claim].job < |s.db.jobs|
    && s.db.jobs[s.claims[e.step.claim].job].kind.PollExpiration?
    && s.db.jobs[s.claims[e.step.claim].job].poll == p
    && NewlyExpires(env, s.db, p, e.at)
  }

  ghost function ExpiryCount(env: Instance, s: System, events: seq<Event>, p: PollId): nat
    decreases |events|
  {
    if events == [] then 0
    else
      var later := ExpiryCount(env, Apply(env, s, events[0]), events[1..], p);
      if ExpiryEvent(env, s, events[0], p) then 1 + later else later
  }

  // ---------------------------------------------------------------- one expiry

  /**
   A due, unnotified poll is closed exactly when no recipient already has the row; then each
   recipient, that is each local voter and the local author, gets exactly one new row.
   */
  lemma ExpiryNotifiesEachOnce(env: Instance, db: Db, p: PollId, now: Time)
    requires p in db.polls && Expires(db.polls[p], now)
    ensures var status := db.polls[p].status;
            NewlyExpires(env, db, p, now) <==>
                forall a :: a in Recipients(env, db, p) ==> Notice(a, status, env.author(status)) !in db.notices
    ensures NewlyExpires(env, db, p, now) ==>
              var x := ExpirePoll(env, db, p, now).value.value;
              && |x.notices| == |Recipients(env, db, p)|
              && x.db.notices - db.notices == x.notices
              && |x.db.notices| == |db.notices| + |Recipients(env, db, p)|
              && (forall a :: a in Recipients(env, db, p) <==>
                  Notice(a, db.polls[p].status, env.author(db.polls[p].status)) in x.notices)
              && (db.polls[p].status.Local? ==>
                  Recipients(env, db, p) == LocalVotersOf(db, p) + {env.author(db.polls[p].status)})
              && (db.polls[p].status.Remote? ==> Recipients(env, db, p) == LocalVotersOf(db, p))
    ensures !NewlyExpires(env, db, p, now) ==> ExpirePoll(env, db, p, now) == Err(Database)
  {
    var status := db.polls[p].status;
    NoticesClash(Recipients(env, db, p), status, env.author(status), db.notices);
    NoticeCount(Recipients(env, db, p), status, env.author(status));
  }

  lemma NoticesClash(accounts: set<AccountId>, status: PollStatus, author: AccountId, notices: set<Notice>)
    ensures (set a | a in accounts :: Notice(a, status, author)) * notices == {} <==>
        forall a :: a in accounts ==> Notice(a, status, author) !in notices
  {
    var rows := set a | a in accounts :: Notice(a, status, author);
    if n :| n in rows * notices {
      assert n.account in accounts && n == Notice(n.account, status, author);
    }
    if a :| a in accounts && Notice(a, status, author) in notices {
      assert Notice(a, status, author) in rows * notices;
    }
  }

  lemma {:induction false} NoticeCount(accounts: set<AccountId>, status: PollStatus, author: AccountId)
    ensures |set a | a in accounts :: Notice(a, status, author)| == |accounts|
    decreases |accounts|
  {
    if accounts == {} {
      assert (set a | a in accounts :: Notice(a, status, author)) == {};
    } else {
      var x: nat :| x in accounts;
      var rest := accounts - {x};
      NoticeCount(rest, status, author);
      assert (set a | a in accounts :: Notice(a, status, author)) ==
          (set a | a in rest :: Notice(a, status, author)) + {Notice(x, status, author)};
    }
  }

  // ---------------------------------------------------------------- at most once

  ghost predicate Notified(s: System, p: PollId) {
    p in s.db.polls && s.db.polls[p].notifiedAt.Some?
  }

  /** Nothing but an edit of its own status makes a notified poll expire again. */
  ghost predicate Unedited(events: seq<Event>, status: PollStatus) {
    forall i :: 0 <= i < |events| && events[i].step.Edit? ==> Local(events[i].step.status) != status
  }

  lemma StaysNotified(env: Instance, s: System, e: Event, p: PollId)
    requires p in s.db.polls && Unedited([e], s.db.polls[p].status)
    ensures p in Apply(env, s, e).db.polls
    ensures Notified(s, p) ==> Notified(Apply(env, s, e), p) && !ExpiryEvent(env, s, e, p)
    ensures Apply(env, s, e).db.polls[p].status == s.db.polls[p].status
    ensures ExpiryEvent(env, s, e, p) ==> Notified(Apply(env, s, e), p)
  {
    assert [e][0] == e;
    match e.step
    case Edit(_, _, _) => EditKeepsOthers(env, s, e, p);
    case VoteLocally(_, _, _) => VoteKeepsNotified(env, s, e, p);
    case VoteRemotely(_, _, _, _) => VoteKeepsNotified(env, s, e, p);
    case RunHandler(_, _) => HandlerKeepsNotified(env, s, e, p);
    case _ =>
  }

  lemma VoteKeepsNotified(env: Instance, s: System, e: Event, p: PollId)
    requires p in s.db.polls && (e.step.VoteLocally? || e.step.VoteRemotely?)
    ensures p in Apply(env, s, e).db.polls && DeadlineKept(s.db, Apply(env, s, e).db, p)
  {
    match e.step
    case VoteLocally(q, account, choices) => VoteLeavesDeadlines(s.db, q, LocalVoter(account), choices, None, e.at);
    case VoteRemotely(q, actor, choice, activity) =>
        VoteLeavesDeadlines(s.db, q, RemoteVoter(actor), [choice], Some(activity), e.at);
  }

  lemma HandlerKeepsNotified(env: Instance, s: System, e: Event, p: PollId)
    requires p in s.db.polls && e.step.RunHandler?
    ensures p in Apply(env, s, e).db.polls
    ensures Notified(s, p) ==> Notified(Apply(env, s, e), p) && !ExpiryEvent(env, s, e, p)
    ensures Apply(env, s, e).db.polls[p].status == s.db.polls[p].status
    ensures ExpiryEvent(env, s, e, p) ==> Notified(Apply(env, s, e), p)
  {
    var c := e.step.claim;
    if c in s.claims && s.claims[c].job < |s.db.jobs| {
      ExpireFacts(env, s.db, s.db.jobs[s.claims[c].job].poll, e.at);
    }
  }

  /** An edit of another status leaves the row of this poll alone. */
  lemma EditKeepsOthers(env: Instance, s: System, e: Event, p: PollId)
    requires p in s.db.polls && (e.step.Edit? ==> Local(e.step.status) != s.db.polls[p].status)
    ensures e.step.Edit? ==> p in Apply(env, s, e).db.polls && Apply(env, s, e).db.polls[p] == s.db.polls[p]
  {
  }

  lemma {:induction false} AtMostOneExpiry(env: Instance, s: System, events: seq<Event>, p: PollId)
    requires p in s.db.polls && Unedited(events, s.db.polls[p].status)
    ensures ExpiryCount(env, s, events, p) <= if Notified(s, p) then 0 else 1
    decreases |events|
  {
    if events != [] {
      assert Unedited([events[0]], s.db.polls[p].status) && Unedited(events[1..], s.db.polls[p].status);
      StaysNotified(env, s, events[0], p);
      AtMostOneExpiry(env, Apply(env, s, events[0]), events[1..], p);
    }
  }

  /** Between two edits a local poll expires at most once. */
  lemma AtMostOneExpiryBetweenEdits(env: Instance, s: System, events: seq<Event>, p: PollId)
    requires p in s.db.polls && s.db.polls[p].status.Local?
    requires forall i :: 0 <= i < |events| && events[i].step.Edit? ==> events[i].step.status != s.db.polls[p].status.id
    ensures ExpiryCount(env, s, events, p) <= 1
  {
    AtMostOneExpiry(env, s, events, p);
  }

  /** A remote poll expires at most once in its whole life, whatever refreshes it receives. */
  lemma AtMostOneExpiryOfRemote(env: Instance, s: System, events: seq<Event>, p: PollId)
    requires p in s.db.polls && s.db.polls[p].status.Remote?
    ensures ExpiryCount(env, s, events, p) <= 1
  {
    AtMostOneExpiry(env, s, events, p);
  }

  // ---------------------------------------------------------------- never twice for one status

  ghost predicate AuthorNotified(env: Instance, db: Db, status: StatusId) {
    Notice(env.author(Local(status)), Local(status), env.author(Local(status))) in db.notices
  }

  ghost predicate NoticesKept(events: seq<Event>) {
    forall i :: 0 <= i < |events| ==> !events[i].step.DeleteNotices?
  }

  lemma NoticesGrow(env: Instance, s: System, e: Event)
    requires !e.step.DeleteNotices?
    ensures s.db.notices <= Apply(env, s, e).db.notices
  {
  }

  /** Every expiry of a local poll leaves the author's row behind. */
  lemma ExpiryLeavesAuthorRow(env: Instance, s: System, e: Event, p: PollId)
    requires ExpiryEvent(env, s, e, p) && p in s.db.polls && s.db.polls[p].status.Local?
    ensures AuthorNotified(env, Apply(env, s, e).db, s.db.polls[p].status.id)
  {
    var status := s.db.polls[p].status;
    assert env.author(status) in Recipients(env, s.db, p);
    assert Notice(env.author(status), status, env.author(status)) in NoticesFor(env, s.db, p);
  }

  /** With the author's row present the handler fails on every poll of that status, edited or not. */
  lemma AuthorRowBlocksExpiry(env: Instance, db: Db, p: PollId, now: Time)
    requires p in db.polls && db.polls[p].status.Local? && AuthorNotified(env, db, db.polls[p].status.id)
    ensures !NewlyExpires(env, db, p, now)
    ensures Expires(db.polls[p], now) ==> ExpirePoll(env, db, p, now) == Err(Database)
  {
    if Expires(db.polls[p], now) {
      ExpiryNotifiesEachOnce(env, db, p, now);
      assert env.author(db.polls[p].status) in Recipients(env, db, p);
    }
  }

  /** The step expires the poll attached to a local status. */
  ghost predicate StatusExpires(env: Instance, s: System, e: Event, status: StatusId) {
    exists p :: p in s.db.polls && s.db.polls[p].status == Local(status) && ExpiryEvent(env, s, e, p)
  }

  /** Number of times any poll attached to a local status expires. */
  ghost function StatusExpiryCount(env: Instance, s: System, events: seq<Event>, status: StatusId): nat
    decreases |events|
  {
    if events == [] then 0
    else
      var later := StatusExpiryCount(env, Apply(env, s, events[0]), events[1..], status);
      if StatusExpires(env, s, events[0], status) then 1 + later else later
  }

  /**
   However often a status's poll is edited, removed and added again, it expires at most once in any
   run that keeps notification rows: after the first time every attempt is rolled back.
   */
  lemma {:induction false} StatusExpiresAtMostOnce(env: Instance, s: System, events: seq<Event>, status: StatusId)
    requires NoticesKept(events)
    ensures StatusExpiryCount(env, s, events, status) <= if AuthorNotified(env, s.db, status) then 0 else 1
    decreases |events|
  {
    if events != [] {
      var e, s' := events[0], Apply(env, s, events[0]);
      assert !e.step.DeleteNotices?;
      NoticesGrow(env, s, e);
      if p :| p in s.db.polls && s.db.polls[p].status == Local(status) && ExpiryEvent(env, s, e, p) {
        ExpiryLeavesAuthorRow(env, s, e, p);
        if AuthorNotified(env, s.db, status) {
          AuthorRowBlocksExpiry(env, s.db, p, e.at);
        }
      }
      assert NoticesKept(events[1..]);
      StatusExpiresAtMostOnce(env, s', events[1..], status);
    }
  }

  /**
   The second expiry an edit is meant to allow: once its new deadline has passed it happens exactly
   when no recipient still has a row of an earlier one.
   */
  lemma SecondExpiryNeedsClearedRows(env: Instance, db: Db, p: PollId, input: NewPoll, edited: Time, now: Time)
    requires p in db.polls && db.polls[p].status.Local? && Deadline(input, edited) <= now
    ensures var db' := EditExistingPoll(db, p, input, edited);
            var status := db.polls[p].status;
            NewlyExpires(env, db', p, now) <==>
                forall a :: a in Recipients(env, db', p) ==> Notice(a, status, env.author(status)) !in db.notices
  {
    var db' := EditExistingPoll(db, p, input, edited);
    assert Expires(db'.polls[p], now);
    ExpiryNotifiesEachOnce(env, db', p, now);
  }
}
