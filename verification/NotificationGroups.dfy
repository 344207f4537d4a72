/**
 The backfill of notification groups.

 Existing notifications about one target are cut into twelve-hour buckets counted from the target's
 first notification; a bucket is one group, named after its first notification. One state row per
 target then remembers the group new notifications may still join.
 */
module NotificationGroups {
  import opened Prelude
  import opened Ordering

  type Id = int

  /** Microseconds. */
  type Time = int

  const TWELVE_HOURS: int := 43_200_000_000

  datatype Kind = Favourite | Follow | Reblog | Ungrouped

  datatype Notification = Notification(account: Id, kind: Kind, status: Option<Id>, remoteStatus: Option<Id>,
      createdAt: Time)

  datatype TargetKind = AccountTarget | LocalStatusTarget | RemoteStatusTarget

  datatype Target = Target(account: Id, kind: Kind, targetKind: TargetKind, targetId: Id)

  datatype GroupState = GroupState(group: Id, startedAt: Time, updatedAt: Time)

  type Notifications = map<Id, Notification>

  function TargetOf(n: Notification): Target {
    var targetKind := if n.kind == Follow then AccountTarget else if n.status.Some? then LocalStatusTarget
        else RemoteStatusTarget;
    var targetId := if n.status.Some? then n.status.value else if n.remoteStatus.Some? then n.remoteStatus.value
        else n.account;
    Target(n.account, n.kind, targetKind, targetId)
  }

  predicate Eligible(t: Notifications, id: Id) {
    id in t && t[id].kind != Ungrouped
  }

  // ---------------------------------------------------------------- the queries

  ghost function About(t: Notifications, target: Target): (r: set<Id>)
    ensures forall id :: id in r <==> Eligible(t, id) && TargetOf(t[id]) == target
  {
    set id | id in t && t[id].kind != Ungrouped && TargetOf(t[id]) == target
  }

  ghost function Times(t: Notifications, ids: set<Id>): (r: set<Time>)
    requires forall id :: id in ids ==> id in t
    ensures forall id :: id in ids ==> t[id].createdAt in r
    ensures forall x :: x in r ==> exists id :: id in ids && t[id].createdAt == x
  {
    set id | id in ids :: t[id].createdAt
  }

  ghost function Earliest(t: Notifications, ids: set<Id>): (r: Time)
    requires ids != {} && forall id :: id in ids ==> id in t
    ensures forall id :: id in ids ==> r <= t[id].createdAt
    ensures exists id :: id in ids && t[id].createdAt == r
  {
    var some := Pick(ids);
    assert some in ids && t[some].createdAt in Times(t, ids);
    Least(Times(t, ids))
  }

  ghost function LatestTime(t: Notifications, ids: set<Id>): (r: Time)
    requires ids != {} && forall id :: id in ids ==> id in t
    ensures forall id :: id in ids ==> t[id].createdAt <= r
    ensures exists id :: id in ids && t[id].createdAt == r
  {
    var some := Pick(ids);
    assert some in ids && t[some].createdAt in Times(t, ids);
    Greatest(Times(t, ids))
  }

  /** `min(created_at) OVER` the target. */
  ghost function Anchor(t: Notifications, target: Target): Time
    requires About(t, target) != {}
  {
    Earliest(t, About(t, target))
  }

  /** Which bucket a creation time falls into. */
  function BucketAt(anchor: Time, createdAt: Time): int {
    (createdAt - anchor) / TWELVE_HOURS
  }

  ghost function Bucket(t: Notifications, id: Id): int
    requires Eligible(t, id)
  {
    assert id in About(t, TargetOf(t[id]));
    BucketAt(Anchor(t, TargetOf(t[id])), t[id].createdAt)
  }

  /** The notifications of one window partition: same target, same bucket. */
  ghost function Members(t: Notifications, target: Target, bucket: int): (r: set<Id>)
    ensures forall id :: id in r <==> Eligible(t, id) && TargetOf(t[id]) == target && Bucket(t, id) == bucket
  {
    set id | id in t && Eligible(t, id) && TargetOf(t[id]) == target && Bucket(t, id) == bucket
  }

  /** First by creation time, then id. */
  ghost function First(t: Notifications, ids: set<Id>): (r: Id)
    requires ids != {} && forall id :: id in ids ==> id in t
    ensures r in ids
    ensures forall id :: id in ids ==>
        t[r].createdAt < t[id].createdAt || (t[r].createdAt == t[id].createdAt && r <= id)
  {
    var time := Earliest(t, ids);
    var earliest := set id | id in ids && t[id].createdAt == time;
    assert earliest != {} by {
      var id :| id in ids && t[id].createdAt == time;
      assert id in earliest;
    }
    assert forall id :: id in ids && t[id].createdAt == time ==> id in earliest;
    Least(earliest)
  }

  /** Last by creation time, then id. */
  ghost function Last(t: Notifications, ids: set<Id>): (r: Id)
    requires ids != {} && forall id :: id in ids ==> id in t
    ensures r in ids
    ensures forall id :: id in ids ==>
        t[id].createdAt < t[r].createdAt || (t[id].createdAt == t[r].createdAt && id <= r)
  {
    var time := LatestTime(t, ids);
    var latest := set id | id in ids && t[id].createdAt == time;
    assert latest != {} by {
      var id :| id in ids && t[id].createdAt == time;
      assert id in latest;
    }
    assert forall id :: id in ids && t[id].createdAt == time ==> id in latest;
    Greatest(latest)
  }

  /** `first_value(id)` of the notification's partition. */
  ghost function GroupOf(t: Notifications, id: Id): (r: Id)
    requires Eligible(t, id)
    ensures Eligible(t, r) && TargetOf(t[r]) == TargetOf(t[id]) && Bucket(t, r) == Bucket(t, id)
    ensures forall x :: x in Members(t, TargetOf(t[id]), Bucket(t, id)) ==> t[r].createdAt <= t[x].createdAt
  {
    var members := Members(t, TargetOf(t[id]), Bucket(t, id));
    assert id in members;
    First(t, members)
  }

  /** The `group_id` column after the update: set for eligible notifications, null for others. */
  ghost function Backfilled(t: Notifications): map<Id, Option<Id>> {
    map id | id in t :: if Eligible(t, id) then Some(GroupOf(t, id)) else None
  }

  /** Window partition by assigned group alone, as the state query has it. */
  ghost function GroupMembers(t: Notifications, group: Id): (r: set<Id>)
    ensures forall id :: id in r <==> Eligible(t, id) && GroupOf(t, id) == group
  {
    set id | id in t && Eligible(t, id) && GroupOf(t, id) == group
  }

  /** The one row kept per target: that of the last notification. */
  ghost function StateOf(t: Notifications, target: Target): GroupState
    requires About(t, target) != {}
  {
    var last := Last(t, About(t, target));
    var group := GroupOf(t, last);
    assert last in GroupMembers(t, group);
    GroupState(group, Earliest(t, GroupMembers(t, group)), LatestTime(t, GroupMembers(t, group)))
  }

  ghost function Targets(t: Notifications): (r: set<Target>)
    ensures forall target :: target in r <==> About(t, target) != {}
  {
    var r := set id | id in t && t[id].kind != Ungrouped :: TargetOf(t[id]);
    assert forall target :: target in r <==> About(t, target) != {} by {
      forall target
        ensures target in r <==> About(t, target) != {}
      {
        if target in r {
          var id :| id in t && t[id].kind != Ungrouped && TargetOf(t[id]) == target;
          assert id in About(t, target);
        }
        if About(t, target) != {} {
          var id := Pick(About(t, target));
          assert id in About(t, target) && TargetOf(t[id]) in r;
        }
      }
    }
    r
  }

  ghost function States(t: Notifications): map<Target, GroupState> {
    map target | target in Targets(t) :: StateOf(t, target)
  }

  // ---------------------------------------------------------------- the groups

  /** The table's constraint: a follow concerns no status, the other grouped kinds exactly one. */
  predicate WellFormed(n: Notification) {
    match n.kind
    case Follow => n.status.None? && n.remoteStatus.None?
    case Ungrouped => true
    case _ => n.status.Some? != n.remoteStatus.Some?
  }

  /** Notifications have the same target exactly when account, type and status are the same. */
  lemma SameTargetIff(a: Notification, b: Notification)
    requires WellFormed(a) && WellFormed(b) && a.kind != Ungrouped && b.kind != Ungrouped
    ensures TargetOf(a) == TargetOf(b) <==>
        a.account == b.account && a.kind == b.kind && a.status == b.status && a.remoteStatus == b.remoteStatus
  {
  }

  lemma BucketBounds(anchor: Time, createdAt: Time)
    ensures var bucket := BucketAt(anchor, createdAt);
            anchor + bucket * TWELVE_HOURS <= createdAt < anchor + bucket * TWELVE_HOURS + TWELVE_HOURS
  {
  }

  lemma BucketsInOrder(anchor: Time, a: Time, b: Time)
    requires a <= b
    ensures BucketAt(anchor, a) <= BucketAt(anchor, b)
  {
    BucketBounds(anchor, a);
    BucketBounds(anchor, b);
  }

  /** Two notifications get the same group exactly when they share target and bucket. */
  lemma SameGroupIff(t: Notifications, a: Id, b: Id)
    requires Eligible(t, a) && Eligible(t, b)
    ensures GroupOf(t, a) == GroupOf(t, b) <==> TargetOf(t[a]) == TargetOf(t[b]) && Bucket(t, a) == Bucket(t, b)
  {
  }

  /** Groups share account, type and target and span less than twelve hours. */
  lemma GroupIsCloseTogether(t: Notifications, a: Id, b: Id)
    requires Eligible(t, a) && Eligible(t, b) && GroupOf(t, a) == GroupOf(t, b)
    ensures TargetOf(t[a]) == TargetOf(t[b])
    ensures -TWELVE_HOURS < t[a].createdAt - t[b].createdAt < TWELVE_HOURS
  {
    SameGroupIff(t, a, b);
    var anchor := Anchor(t, TargetOf(t[a]));
    assert a in About(t, TargetOf(t[a]));
    BucketBounds(anchor, t[a].createdAt);
    BucketBounds(anchor, t[b].createdAt);
  }

  /** A group is named after its own first notification, so the name determines the group. */
  lemma GroupNamesItself(t: Notifications, id: Id)
    requires Eligible(t, id)
    ensures Eligible(t, GroupOf(t, id)) && GroupOf(t, GroupOf(t, id)) == GroupOf(t, id)
    ensures t[GroupOf(t, id)].createdAt <= t[id].createdAt
  {
    SameGroupIff(t, GroupOf(t, id), id);
    assert id in Members(t, TargetOf(t[id]), Bucket(t, id));
  }

  /** Exactly the grouped kinds get a group; the groups partition them. */
  lemma BackfillIsPartition(t: Notifications)
    ensures Backfilled(t).Keys == t.Keys
    ensures forall id :: id in t ==> (Backfilled(t)[id].Some? <==> Eligible(t, id))
    ensures forall a, b :: Eligible(t, a) && Eligible(t, b) ==>
              (Backfilled(t)[a] == Backfilled(t)[b] <==>
                  TargetOf(t[a]) == TargetOf(t[b]) && Bucket(t, a) == Bucket(t, b))
    ensures forall id :: Eligible(t, id) ==>
        Eligible(t, GroupOf(t, id)) && Backfilled(t)[GroupOf(t, id)] == Backfilled(t)[id]
  {
    forall a, b | Eligible(t, a) && Eligible(t, b)
      ensures Backfilled(t)[a] == Backfilled(t)[b] <==> TargetOf(t[a]) == TargetOf(t[b]) && Bucket(t, a) == Bucket(t, b)
    {
      SameGroupIff(t, a, b);
    }
    forall id | Eligible(t, id)
      ensures Eligible(t, GroupOf(t, id)) && Backfilled(t)[GroupOf(t, id)] == Backfilled(t)[id]
    {
      GroupNamesItself(t, id);
    }
  }

  // ---------------------------------------------------------------- the state rows

  /** The group of the last notification about a target is the last group about it. */
  lemma LastGroup(t: Notifications, target: Target, id: Id)
    requires id in About(t, target)
    ensures Bucket(t, id) <= Bucket(t, Last(t, About(t, target)))
  {
    var last := Last(t, About(t, target));
    BucketsInOrder(Anchor(t, target), t[id].createdAt, t[last].createdAt);
  }

  /**
   The state names the target's latest group; `started_at` is the creation time of the notification
   the group is named after and `updated_at` the latest creation time of any about the target.
   */
  ghost predicate DescribesLatestGroup(t: Notifications, target: Target, state: GroupState)
    requires About(t, target) != {}
  {
    && Eligible(t, state.group) && TargetOf(t[state.group]) == target && GroupOf(t, state.group) == state.group
    && (forall id :: id in About(t, target) ==> Bucket(t, id) <= Bucket(t, state.group))
    && state.startedAt == t[state.group].createdAt
    && state.updatedAt == LatestTime(t, About(t, target))
  }

  lemma DescribesGroup(t: Notifications, target: Target, last: Id)
    requires About(t, target) != {} && last == Last(t, About(t, target))
    ensures DescribesLatestGroup(t, target,
        GroupState(GroupOf(t, last), t[GroupOf(t, last)].createdAt, LatestTime(t, About(t, target))))
  {
    GroupNamesItself(t, last);
    LatestBucket(t, target, last);
  }

  lemma StateIs(t: Notifications, target: Target, last: Id)
    requires About(t, target) != {} && last == Last(t, About(t, target))
    ensures StateOf(t, target) == GroupState(GroupOf(t, last), t[GroupOf(t, last)].createdAt,
        LatestTime(t, About(t, target)))
  {
    StartedAt(t, last);
    UpdatedAt(t, target, last);
  }

  /** Every target with grouped notifications has one state row, and it describes the latest group. */
  lemma StateNamesLatestGroup(t: Notifications, target: Target)
    requires About(t, target) != {}
    ensures target in States(t) && DescribesLatestGroup(t, target, States(t)[target])
  {
    var last := Last(t, About(t, target));
    StateIs(t, target, last);
    DescribesGroup(t, target, last);
  }

  lemma LatestBucket(t: Notifications, target: Target, last: Id)
    requires About(t, target) != {} && last == Last(t, About(t, target))
    ensures forall id :: id in About(t, target) ==> Bucket(t, id) <= Bucket(t, GroupOf(t, last))
  {
    forall id | id in About(t, target)
      ensures Bucket(t, id) <= Bucket(t, GroupOf(t, last))
    {
      LastGroup(t, target, id);
    }
  }

  lemma StartedAt(t: Notifications, last: Id)
    requires Eligible(t, last)
    ensures GroupMembers(t, GroupOf(t, last)) != {}
    ensures Earliest(t, GroupMembers(t, GroupOf(t, last))) == t[GroupOf(t, last)].createdAt
  {
    var group := GroupOf(t, last);
    GroupNamesItself(t, last);
    assert group in GroupMembers(t, group);
    forall id | id in GroupMembers(t, group)
      ensures t[group].createdAt <= t[id].createdAt
    {
      GroupNamesItself(t, id);
    }
  }

  lemma UpdatedAt(t: Notifications, target: Target, last: Id)
    requires About(t, target) != {} && last == Last(t, About(t, target))
    ensures GroupMembers(t, GroupOf(t, last)) != {}
    ensures LatestTime(t, GroupMembers(t, GroupOf(t, last))) == LatestTime(t, About(t, target))
  {
    var group := GroupOf(t, last);
    assert last in GroupMembers(t, group);
    forall id | id in GroupMembers(t, group)
      ensures id in About(t, target)
    {
      SameGroupIff(t, id, last);
    }
  }

  /** No other target has a row. */
  lemma StatesOnlyForTargets(t: Notifications, target: Target)
    ensures target in States(t) <==> exists id :: Eligible(t, id) && TargetOf(t[id]) == target
  {
    if target in States(t) {
      assert Pick(About(t, target)) in About(t, target);
    }
    if id :| Eligible(t, id) && TargetOf(t[id]) == target {
      assert id in About(t, target);
    }
  }
}
