/** The groups and state rows the notification backfill writes, said from the notifications. */
module GroupRows {
  import opened Prelude
  import opened NotificationGroups

  /** Of a grouped kind: favourites, follows and reblogs. */
  predicate Grouped(t: Notifications, id: Id) {
    id in t && (t[id].kind == Favourite || t[id].kind == Follow || t[id].kind == Reblog)
  }

  ghost predicate AllWellFormed(t: Notifications) {
    forall id :: id in t ==> WellFormed(t[id])
  }

  /** What a notification is about: the follower's account, or the status, local or remote. */
  lemma TargetColumns(n: Notification)
    requires WellFormed(n) && n.kind != Ungrouped
    ensures var target := TargetOf(n);
            && target.account == n.account && target.kind == n.kind
            && (n.kind == Follow ==> target.targetKind == AccountTarget && target.targetId == n.account)
            && (n.kind != Follow && n.status.Some? ==>
                target.targetKind == LocalStatusTarget && target.targetId == n.status.value)
            && (n.kind != Follow && n.remoteStatus.Some? ==>
                target.targetKind == RemoteStatusTarget && target.targetId == n.remoteStatus.value)
  {
  }

  /** Both are of a grouped kind and agree on recipient, kind and status. */
  predicate Alike(t: Notifications, a: Id, b: Id) {
    && Grouped(t, a) && Grouped(t, b)
    && t[a].account == t[b].account && t[a].kind == t[b].kind
    && t[a].status == t[b].status && t[a].remoteStatus == t[b].remoteStatus
  }

  ghost predicate EarliestAlike(t: Notifications, first: Id, id: Id) {
    Alike(t, first, id) && forall x :: Alike(t, x, id) ==> t[first].createdAt <= t[x].createdAt
  }

  /** In the same half day, counted in whole half days from the given time. */
  ghost predicate SameHalfDay(start: Time, a: Time, b: Time) {
    exists k :: InHalfDay(start, k, a) && InHalfDay(start, k, b)
  }

  predicate InHalfDay(start: Time, k: int, at: Time) {
    0 <= at - start - k * (12 * 3_600_000_000) < 12 * 3_600_000_000
  }

  lemma BucketIsHalfDay(start: Time, k: int, at: Time)
    ensures BucketAt(start, at) == k <==> InHalfDay(start, k, at)
  {
  }

  lemma AlikeIff(t: Notifications, a: Id, b: Id)
    requires AllWellFormed(t) && a in t && b in t
    ensures Alike(t, a, b) <==> Eligible(t, a) && Eligible(t, b) && TargetOf(t[a]) == TargetOf(t[b])
  {
    if Eligible(t, a) && Eligible(t, b) {
      SameTargetIff(t[a], t[b]);
    }
  }

  lemma AnchorIsEarliest(t: Notifications, first: Id, id: Id)
    requires AllWellFormed(t) && EarliestAlike(t, first, id)
    ensures About(t, TargetOf(t[id])) != {} && Anchor(t, TargetOf(t[id])) == t[first].createdAt
  {
    var about := About(t, TargetOf(t[id]));
    AlikeIff(t, first, id);
    assert first in about;
    forall x | x in about
      ensures t[first].createdAt <= t[x].createdAt
    {
      AlikeIff(t, x, id);
    }
  }

  /**
   Two notifications get the same group exactly when they are alike and fall into the same half day,
   counted from the earliest notification like them.
   */
  lemma SameGroupExactly(t: Notifications, a: Id, b: Id, first: Id)
    requires AllWellFormed(t) && Grouped(t, a) && Grouped(t, b) && EarliestAlike(t, first, a)
    ensures Backfilled(t)[a].Some? && Backfilled(t)[b].Some?
    ensures Backfilled(t)[a] == Backfilled(t)[b] <==>
        Alike(t, a, b) && SameHalfDay(t[first].createdAt, t[a].createdAt, t[b].createdAt)
  {
    SameGroupIff(t, a, b);
    AlikeIff(t, a, b);
    AnchorIsEarliest(t, first, a);
    var start := t[first].createdAt;
    BucketIsHalfDay(start, BucketAt(start, t[a].createdAt), t[a].createdAt);
    BucketIsHalfDay(start, BucketAt(start, t[a].createdAt), t[b].createdAt);
    if k :| InHalfDay(start, k, t[a].createdAt) && InHalfDay(start, k, t[b].createdAt) {
      BucketIsHalfDay(start, k, t[a].createdAt);
      BucketIsHalfDay(start, k, t[b].createdAt);
    }
  }

  /** Created before, or at the same time with no larger id. */
  predicate NoLater(t: Notifications, a: Id, b: Id)
    requires a in t && b in t
  {
    t[a].createdAt < t[b].createdAt || (t[a].createdAt == t[b].createdAt && a <= b)
  }

  /** Other kinds get no group; a group is named after the first of its notifications, by time and then id. */
  lemma GroupIsNamedAfterFirst(t: Notifications, id: Id)
    requires id in t
    ensures id in Backfilled(t)
    ensures !Grouped(t, id) ==> Backfilled(t)[id] == None
    ensures Grouped(t, id) ==>
        && Backfilled(t)[id].Some? && var group := Backfilled(t)[id].value;
        && group in t && Backfilled(t)[group] == Some(group)
        && forall x :: x in t && Backfilled(t)[x] == Some(group) ==> NoLater(t, group, x)
  {
    if Grouped(t, id) {
      var group := GroupOf(t, id);
      GroupNamesItself(t, id);
      forall x | x in t && Backfilled(t)[x] == Some(group)
        ensures NoLater(t, group, x)
      {
        assert x in Members(t, TargetOf(t[x]), Bucket(t, x));
      }
    }
  }

  /** The last notification about the target, by time and then id. */
  ghost predicate LastAbout(t: Notifications, target: Target, last: Id) {
    && Grouped(t, last) && TargetOf(t[last]) == target
    && forall x :: Grouped(t, x) && TargetOf(t[x]) == target ==> NoLater(t, x, last)
  }

  /** A target has a state row exactly when there is a grouped notification about it. */
  lemma StateRowIff(t: Notifications, target: Target)
    ensures target in States(t) <==> exists id :: Grouped(t, id) && TargetOf(t[id]) == target
  {
    StatesOnlyForTargets(t, target);
    GroupedAbout(t, target);
  }

  lemma GroupedAbout(t: Notifications, target: Target)
    ensures (exists id :: Grouped(t, id) && TargetOf(t[id]) == target) <==>
        exists id :: Eligible(t, id) && TargetOf(t[id]) == target
  {
    if id :| Eligible(t, id) && TargetOf(t[id]) == target {
      assert Grouped(t, id) && TargetOf(t[id]) == target;
    }
    if id :| Grouped(t, id) && TargetOf(t[id]) == target {
      assert Eligible(t, id) && TargetOf(t[id]) == target;
    }
  }

  /**
   A target's state row names the group of its last notification, and gives the times of the first
   and the last notification of that group.
   */
  lemma StateRowIsExact(t: Notifications, target: Target, last: Id)
    requires LastAbout(t, target, last)
    ensures target in States(t) && last in Backfilled(t)
    ensures var state := States(t)[target];
            && Backfilled(t)[last] == Some(state.group) && state.group in t
            && state.startedAt == t[state.group].createdAt && state.updatedAt == t[last].createdAt
  {
    assert last in About(t, target);
    LastIsUnique(t, target, last);
    StateIs(t, target, last);
  }

  lemma LastIsUnique(t: Notifications, target: Target, last: Id)
    requires LastAbout(t, target, last) && About(t, target) != {}
    ensures last == Last(t, About(t, target)) && LatestTime(t, About(t, target)) == t[last].createdAt
  {
    assert last in About(t, target);
    var other := Last(t, About(t, target));
    assert NoLater(t, other, last);
  }
}
