/**
 Filling the trend caches from the tables they summarize.

 Tag usage is counted per actor first and then summed per day; interactions are turned into rows of
 ones and zeros, put together and summed per status. Each statement reads what earlier ones wrote.
 The theorems say that the sums are the counts one would take directly.
 */
module TrendCache {
  import opened Prelude

  type Id = int

  /** Microseconds since midnight of some day, in UTC. */
  type Time = int

  datatype Origin = Local | Remote

  datatype StatusRow = StatusRow(actor: Id, publishedAt: Time, deleted: bool, isPublic: bool)

  /** Key of a row that attaches a tag to a status. */
  datatype TagRow = TagRow(origin: Origin, status: Id, tag: Id)

  datatype ReblogTarget = ReblogTarget(local: Option<Id>, remote: Option<Id>)

  /** The summarized tables; interaction tables map a row to the status it concerns. */
  datatype Source = Source(
    localStatuses: map<Id, StatusRow>,
    remoteStatuses: map<Id, StatusRow>,
    tags: set<TagRow>,
    localFavourites: map<Id, Id>,
    remoteFavourites: map<Id, Id>,
    localReblogs: map<Id, Id>,
    remoteReblogs: map<Id, ReblogTarget>,
    localRemoteFavourites: map<Id, Id>,
    localRemoteReblogs: map<Id, Id>)

  // ---------------------------------------------------------------- sums

  ghost function Sum<K>(keys: set<K>, f: map<K, nat>): nat
    requires keys <= f.Keys
    decreases |keys|
  {
    if keys == {} then 0 else var k := Pick(keys); f[k] + Sum(keys - {k}, f)
  }

  ghost function RowsWith<R(!new), K>(rows: set<R>, keyOf: R -> K, keys: set<K>): set<R> {
    set r | r in rows && keyOf(r) in keys
  }

  /** Summing group counts counts the rows of all the groups. */
  lemma {:induction false} SumOfCounts<R(!new), K>(rows: set<R>, keyOf: R -> K, keys: set<K>, f: map<K, nat>)
    requires keys <= f.Keys && forall k :: k in keys ==> f[k] == |RowsWith(rows, keyOf, {k})|
    ensures Sum(keys, f) == |RowsWith(rows, keyOf, keys)|
    decreases |keys|
  {
    if keys == {} {
      assert RowsWith(rows, keyOf, keys) == {};
    } else {
      var k := Pick(keys);
      SumOfCounts(rows, keyOf, keys - {k}, f);
      assert RowsWith(rows, keyOf, keys) == RowsWith(rows, keyOf, {k}) + RowsWith(rows, keyOf, keys - {k});
    }
  }

  /** A renaming that never merges two elements keeps the size. */
  lemma {:induction false} RenamedSize<A(!new), B>(s: set<A>, f: A -> B)
    requires forall a, b :: a in s && b in s && f(a) == f(b) ==> a == b
    ensures |Image(s, f)| == |s|
    decreases |s|
  {
    if s == {} {
      assert Image(s, f) == {};
    } else {
      var x := Pick(s);
      RenamedSize(s - {x}, f);
      assert Image(s, f) == Image(s - {x}, f) + {f(x)};
    }
  }

  ghost function Image<A(!new), B>(s: set<A>, f: A -> B): set<B> {
    set a | a in s :: f(a)
  }

  // ---------------------------------------------------------------- tag usage

  function DayOf(at: Time): int {
    at / 86_400_000_000
  }

  ghost function StatusOf(s: Source, origin: Origin, id: Id): Option<StatusRow> {
    match origin
    case Local => if id in s.localStatuses then Some(s.localStatuses[id]) else None
    case Remote => if id in s.remoteStatuses then Some(s.remoteStatuses[id]) else None
  }

  /** The join keeps the row: its status exists, is public, not deleted and at most eight days old. */
  ghost predicate Counts(s: Source, row: TagRow, now: Time) {
    var status := StatusOf(s, row.origin, row.status);
    status.Some? && !status.value.deleted && status.value.isPublic && status.value.publishedAt >= now - 691_200_000_000
  }

  ghost function Usage(s: Source, now: Time): set<TagRow> {
    set row | row in s.tags && Counts(s, row, now)
  }

  datatype ActorKey = ActorKey(tag: Id, day: int, origin: Origin, actor: Id)

  datatype DayKey = DayKey(tag: Id, day: int)

  datatype Daily = Daily(uses: nat, accounts: nat)

  ghost function ActorKeyOf(s: Source, row: TagRow): ActorKey {
    var status := StatusOf(s, row.origin, row.status);
    if status.Some? then ActorKey(row.tag, DayOf(status.value.publishedAt), row.origin, status.value.actor)
    else ActorKey(row.tag, 0, row.origin, 0)
  }

  /** First level: `GROUP BY tag, day, origin, actor`. */
  ghost function ActorUsage(s: Source, now: Time): map<ActorKey, nat> {
    map k | k in (set row | row in Usage(s, now) :: ActorKeyOf(s, row)) ::
        |RowsWith(Usage(s, now), r => ActorKeyOf(s, r), {k})|
  }

  /** The first-level rows that belong to a tag and day. */
  ghost function ActorsOn(actors: map<ActorKey, nat>, day: DayKey): set<ActorKey> {
    set k | k in actors && k.tag == day.tag && k.day == day.day
  }

  /** Second level: `GROUP BY tag, day` over the first. */
  ghost function DailyUsage(actors: map<ActorKey, nat>): map<DayKey, Daily> {
    map day | day in (set k | k in actors :: DayKey(k.tag, k.day)) ::
        Daily(Sum(ActorsOn(actors, day), actors), |ActorsOn(actors, day)|)
  }

  /** What the two levels stand for: the uses of the tag on that day. */
  ghost function UsesOn(s: Source, now: Time, day: DayKey): set<TagRow> {
    set row | row in Usage(s, now) && ActorKeyOf(s, row).tag == day.tag && ActorKeyOf(s, row).day == day.day
  }

  ghost function UsersOn(s: Source, now: Time, day: DayKey): set<(Origin, Id)> {
    set row | row in UsesOn(s, now, day) :: (row.origin, ActorKeyOf(s, row).actor)
  }

  lemma ActorsAreUsers(s: Source, now: Time, day: DayKey)
    ensures |ActorsOn(ActorUsage(s, now), day)| == |UsersOn(s, now, day)|
  {
    var actors := ActorsOn(ActorUsage(s, now), day);
    var user := (k: ActorKey) => (k.origin, k.actor);
    RenamedSize(actors, user);
    assert Image(actors, user) == UsersOn(s, now, day) by {
      forall u | u in UsersOn(s, now, day)
        ensures u in Image(actors, user)
      {
        var row :| row in UsesOn(s, now, day) && u == (row.origin, ActorKeyOf(s, row).actor);
        assert ActorKeyOf(s, row) in actors && user(ActorKeyOf(s, row)) == u;
      }
      forall k | k in actors
        ensures user(k) in UsersOn(s, now, day)
      {
        var row :| row in Usage(s, now) && ActorKeyOf(s, row) == k;
        assert row in UsesOn(s, now, day);
      }
    }
  }

  lemma ActorRowsAreUses(s: Source, now: Time, day: DayKey)
    ensures RowsWith(Usage(s, now), r => ActorKeyOf(s, r), ActorsOn(ActorUsage(s, now), day)) == UsesOn(s, now, day)
  {
    forall row | row in UsesOn(s, now, day)
      ensures ActorKeyOf(s, row) in ActorsOn(ActorUsage(s, now), day)
    {
    }
  }

  /**
   Counting twice is counting once: a day's uses are its qualifying status-tag rows, its accounts the
   distinct local and remote authors among them, and only days with a use have a row.
   */
  lemma TwoLevelsEqualOne(s: Source, now: Time, day: DayKey)
    ensures var daily := DailyUsage(ActorUsage(s, now));
            && (day in daily <==> UsesOn(s, now, day) != {})
            && (day in daily ==> daily[day] == Daily(|UsesOn(s, now, day)|, |UsersOn(s, now, day)|))
  {
    var actors := ActorUsage(s, now);
    DayPresent(s, now, day);
    var on := ActorsOn(actors, day);
    SumOfCounts(Usage(s, now), r => ActorKeyOf(s, r), on, actors);
    ActorRowsAreUses(s, now, day);
    ActorsAreUsers(s, now, day);
  }

  lemma DayPresent(s: Source, now: Time, day: DayKey)
    ensures day in DailyUsage(ActorUsage(s, now)) <==> UsesOn(s, now, day) != {}
  {
    var actors := ActorUsage(s, now);
    if day in DailyUsage(actors) {
      var k :| k in actors && day == DayKey(k.tag, k.day);
      var row :| row in Usage(s, now) && ActorKeyOf(s, row) == k;
      assert row in UsesOn(s, now, day);
    }
    if row :| row in UsesOn(s, now, day) {
      assert ActorKeyOf(s, row) in actors;
    }
  }

  // ---------------------------------------------------------------- interactions

  datatype Table = LocalFavourite | RemoteFavourite | LocalReblog | RemoteReblog

  /** A row of the union: where it came from, its status, and a one in the column it counts for. */
  datatype Interaction = Interaction(table: Table, row: Id, status: Id, favourites: nat, reblogs: nat)

  ghost function Ones(table: Table, rows: map<Id, Id>): set<Interaction> {
    set r | r in rows :: One(table, r, rows[r])
  }

  function One(table: Table, row: Id, status: Id): Interaction {
    if IsFavourite(table) then Interaction(table, row, status, 1, 0) else Interaction(table, row, status, 0, 1)
  }

  /** The reblogs of local statuses, those of remote ones filtered out. */
  function LocalTargets(reblogs: map<Id, ReblogTarget>): map<Id, Id> {
    map r | r in reblogs && reblogs[r].local.Some? :: reblogs[r].local.value
  }

  function RemoteTargets(reblogs: map<Id, ReblogTarget>): map<Id, Id> {
    map r | r in reblogs && reblogs[r].remote.Some? :: reblogs[r].remote.value
  }

  ghost function Interactions(f1: map<Id, Id>, f2: map<Id, Id>, r1: map<Id, Id>, r2: map<Id, Id>): set<Interaction> {
    Ones(LocalFavourite, f1) + Ones(RemoteFavourite, f2) + Ones(LocalReblog, r1) + Ones(RemoteReblog, r2)
  }

  ghost function LocalInteractions(s: Source): set<Interaction> {
    Interactions(s.localFavourites, s.remoteFavourites, s.localReblogs, LocalTargets(s.remoteReblogs))
  }

  /** Remote statuses have one favourite table only. */
  ghost function RemoteInteractions(s: Source): set<Interaction> {
    Interactions(s.localRemoteFavourites, map[], s.localRemoteReblogs, RemoteTargets(s.remoteReblogs))
  }

  ghost function On(interactions: set<Interaction>, status: Id): set<Interaction> {
    set i | i in interactions && i.status == status
  }

  ghost function SumFavourites(interactions: set<Interaction>): nat
    decreases |interactions|
  {
    if interactions == {} then 0 else var i := Pick(interactions); i.favourites + SumFavourites(interactions - {i})
  }

  ghost function SumReblogs(interactions: set<Interaction>): nat
    decreases |interactions|
  {
    if interactions == {} then 0 else var i := Pick(interactions); i.reblogs + SumReblogs(interactions - {i})
  }

  datatype Metric = Metric(favourites: nat, reblogs: nat, publishedAt: Time)

  /** `JOIN totals`: statuses that exist and have at least one interaction. */
  ghost function Metrics(statuses: map<Id, StatusRow>, interactions: set<Interaction>): map<Id, Metric> {
    map id | id in statuses && On(interactions, id) != {} ::
      Metric(SumFavourites(On(interactions, id)), SumReblogs(On(interactions, id)), statuses[id].publishedAt)
  }

  predicate IsFavourite(table: Table) {
    table.LocalFavourite? || table.RemoteFavourite?
  }

  ghost function OfColumn(interactions: set<Interaction>, favourites: bool): set<Interaction> {
    set i | i in interactions && IsFavourite(i.table) == favourites
  }

  lemma {:induction false} SumsAreCounts(interactions: set<Interaction>)
    requires forall i :: i in interactions ==> i == One(i.table, i.row, i.status)
    ensures SumFavourites(interactions) == |OfColumn(interactions, true)|
    ensures SumReblogs(interactions) == |OfColumn(interactions, false)|
    decreases |interactions|
  {
    if interactions != {} {
      var x := Pick(interactions);
      var rest := interactions - {x};
      SumsAreCounts(rest);
      assert OfColumn(interactions, IsFavourite(x.table)) == OfColumn(rest, IsFavourite(x.table)) + {x};
      assert OfColumn(interactions, !IsFavourite(x.table)) == OfColumn(rest, !IsFavourite(x.table));
    }
  }

  /** The rows of a table that concern a status. */
  ghost function RowsOn(rows: map<Id, Id>, status: Id): set<Id> {
    set r | r in rows && rows[r] == status
  }

  ghost function Tagged(table: Table, rows: map<Id, Id>, status: Id): set<Interaction> {
    set r | r in RowsOn(rows, status) :: One(table, r, status)
  }

  lemma TaggedSize(table: Table, rows: map<Id, Id>, status: Id)
    ensures |Tagged(table, rows, status)| == |RowsOn(rows, status)|
  {
    var tag := (r: Id) => One(table, r, status);
    RenamedSize(RowsOn(rows, status), tag);
    assert Tagged(table, rows, status) == Image(RowsOn(rows, status), tag);
  }

  lemma OnIsTagged(f1: map<Id, Id>, f2: map<Id, Id>, r1: map<Id, Id>, r2: map<Id, Id>, status: Id)
    ensures var on := On(Interactions(f1, f2, r1, r2), status);
            && on == Tagged(LocalFavourite, f1, status) + Tagged(RemoteFavourite, f2, status)
                + Tagged(LocalReblog, r1, status) + Tagged(RemoteReblog, r2, status)
            && forall i :: i in on ==> i == One(i.table, i.row, i.status)
  {
    OnesOn(LocalFavourite, f1, status);
    OnesOn(RemoteFavourite, f2, status);
    OnesOn(LocalReblog, r1, status);
    OnesOn(RemoteReblog, r2, status);
    var on := On(Interactions(f1, f2, r1, r2), status);
    assert on == On(Ones(LocalFavourite, f1), status) + On(Ones(RemoteFavourite, f2), status)
        + On(Ones(LocalReblog, r1), status) + On(Ones(RemoteReblog, r2), status);
  }

  lemma OnesOn(table: Table, rows: map<Id, Id>, status: Id)
    ensures On(Ones(table, rows), status) == Tagged(table, rows, status)
    ensures forall i :: i in Tagged(table, rows, status) ==> i.table == table && i == One(i.table, i.row, i.status)
  {
    forall i | i in On(Ones(table, rows), status)
      ensures i in Tagged(table, rows, status)
    {
      var r :| r in rows && i == One(table, r, rows[r]);
      assert r in RowsOn(rows, status);
    }
  }

  /** For one kind of status: the metric is there exactly when some row concerns it, and counts the rows. */
  lemma MetricIsDirectCount(statuses: map<Id, StatusRow>, f1: map<Id, Id>, f2: map<Id, Id>, r1: map<Id, Id>,
      r2: map<Id, Id>, id: Id)
    ensures var metrics := Metrics(statuses, Interactions(f1, f2, r1, r2));
            && (id in metrics <==>
                id in statuses && RowsOn(f1, id) + RowsOn(f2, id) + RowsOn(r1, id) + RowsOn(r2, id) != {})
            && (id in metrics ==>
                  metrics[id] == Metric(|RowsOn(f1, id)| + |RowsOn(f2, id)|, |RowsOn(r1, id)| + |RowsOn(r2, id)|,
                      statuses[id].publishedAt))
  {
    OnIsTagged(f1, f2, r1, r2, id);
    TaggedSize(LocalFavourite, f1, id);
    TaggedSize(RemoteFavourite, f2, id);
    TaggedSize(LocalReblog, r1, id);
    TaggedSize(RemoteReblog, r2, id);
    SplitByColumn(f1, f2, r1, r2, id);
    var on := On(Interactions(f1, f2, r1, r2), id);
    SumsAreCounts(on);
    PresentIff(f1, f2, r1, r2, id);
  }

  lemma PresentIff(f1: map<Id, Id>, f2: map<Id, Id>, r1: map<Id, Id>, r2: map<Id, Id>, id: Id)
    ensures On(Interactions(f1, f2, r1, r2), id) != {} <==>
        RowsOn(f1, id) + RowsOn(f2, id) + RowsOn(r1, id) + RowsOn(r2, id) != {}
  {
    OnIsTagged(f1, f2, r1, r2, id);
    TaggedPresent(LocalFavourite, f1, id);
    TaggedPresent(RemoteFavourite, f2, id);
    TaggedPresent(LocalReblog, r1, id);
    TaggedPresent(RemoteReblog, r2, id);
  }

  lemma TaggedPresent(table: Table, rows: map<Id, Id>, status: Id)
    ensures Tagged(table, rows, status) == {} <==> RowsOn(rows, status) == {}
  {
    TaggedSize(table, rows, status);
  }

  lemma SplitByColumn(f1: map<Id, Id>, f2: map<Id, Id>, r1: map<Id, Id>, r2: map<Id, Id>, id: Id)
    ensures var on := On(Interactions(f1, f2, r1, r2), id);
            && |OfColumn(on, true)| == |Tagged(LocalFavourite, f1, id)| + |Tagged(RemoteFavourite, f2, id)|
            && |OfColumn(on, false)| == |Tagged(LocalReblog, r1, id)| + |Tagged(RemoteReblog, r2, id)|
  {
    OnIsTagged(f1, f2, r1, r2, id);
    OnesOn(LocalFavourite, f1, id);
    OnesOn(RemoteFavourite, f2, id);
    OnesOn(LocalReblog, r1, id);
    OnesOn(RemoteReblog, r2, id);
    FourTables(Tagged(LocalFavourite, f1, id), Tagged(RemoteFavourite, f2, id), Tagged(LocalReblog, r1, id),
        Tagged(RemoteReblog, r2, id));
  }

  lemma FourTables(a: set<Interaction>, b: set<Interaction>, c: set<Interaction>, d: set<Interaction>)
    requires forall i :: i in a ==> i.table == LocalFavourite
    requires forall i :: i in b ==> i.table == RemoteFavourite
    requires forall i :: i in c ==> i.table == LocalReblog
    requires forall i :: i in d ==> i.table == RemoteReblog
    ensures |OfColumn(a + b + c + d, true)| == |a| + |b|
    ensures |OfColumn(a + b + c + d, false)| == |c| + |d|
  {
    assert OfColumn(a + b + c + d, true) == a + b && a !! b;
    assert OfColumn(a + b + c + d, false) == c + d && c !! d;
  }

  /** A local status is credited with local and remote favourites and reblogs, each row once. */
  lemma LocalMetricIsDirectCount(s: Source, id: Id)
    ensures var metrics := Metrics(s.localStatuses, LocalInteractions(s));
            id in metrics ==>
              && metrics[id].favourites == |RowsOn(s.localFavourites, id)| + |RowsOn(s.remoteFavourites, id)|
              && metrics[id].reblogs == |RowsOn(s.localReblogs, id)| + |set r | r in s.remoteReblogs
                  && s.remoteReblogs[r].local == Some(id)|
    ensures id in Metrics(s.localStatuses, LocalInteractions(s)) <==>
              && id in s.localStatuses
              && RowsOn(s.localFavourites, id) + RowsOn(s.remoteFavourites, id) + RowsOn(s.localReblogs, id)
                  + (set r | r in s.remoteReblogs && s.remoteReblogs[r].local == Some(id)) != {}
  {
    MetricIsDirectCount(s.localStatuses, s.localFavourites, s.remoteFavourites, s.localReblogs,
        LocalTargets(s.remoteReblogs), id);
    assert RowsOn(LocalTargets(s.remoteReblogs), id) == set r | r in s.remoteReblogs
        && s.remoteReblogs[r].local == Some(id);
  }

  /** A remote status with the favourites of local accounts and with local and remote reblogs. */
  lemma RemoteMetricIsDirectCount(s: Source, id: Id)
    ensures var metrics := Metrics(s.remoteStatuses, RemoteInteractions(s));
            id in metrics ==>
              && metrics[id].favourites == |RowsOn(s.localRemoteFavourites, id)|
              && metrics[id].reblogs == |RowsOn(s.localRemoteReblogs, id)| + |set r | r in s.remoteReblogs
                  && s.remoteReblogs[r].remote == Some(id)|
    ensures id in Metrics(s.remoteStatuses, RemoteInteractions(s)) <==>
              && id in s.remoteStatuses
              && RowsOn(s.localRemoteFavourites, id) + RowsOn(s.localRemoteReblogs, id)
                  + (set r | r in s.remoteReblogs && s.remoteReblogs[r].remote == Some(id)) != {}
  {
    MetricIsDirectCount(s.remoteStatuses, s.localRemoteFavourites, map[], s.localRemoteReblogs,
        RemoteTargets(s.remoteReblogs), id);
    assert RowsOn(map[], id) == {};
    assert RowsOn(RemoteTargets(s.remoteReblogs), id) == set r | r in s.remoteReblogs
        && s.remoteReblogs[r].remote == Some(id);
  }

  // ---------------------------------------------------------------- rows of a table, in any order

  /** The rows a scan delivers for a table with this primary key: each once, in some order. */
  ghost predicate Scans<K(!new)>(rows: seq<K>, keys: set<K>) {
    Distinct(rows) && forall k :: k in rows <==> k in keys
  }

  /** `GROUP BY` a key: one row per value, where it first occurs. */
  function GroupBy<K(==, !new)>(keys: seq<K>): (r: seq<K>)
    ensures forall k :: k in r <==> k in keys
  {
    if keys == [] then []
    else
      var front, last := GroupBy(keys[..|keys| - 1]), keys[|keys| - 1];
      assert keys == keys[..|keys| - 1] + [last];
      if last in front then front else front + [last]
  }

  lemma {:induction false} GroupsAreDistinct<K(!new)>(keys: seq<K>)
    ensures Distinct(GroupBy(keys))
    decreases |keys|
  {
    if keys != [] {
      GroupsAreDistinct(keys[..|keys| - 1]);
    }
  }

  /** The groups a status joins with. */
  function Matches(groups: seq<Id>, status: Id): seq<Id> {
    if groups == [] then []
    else Matches(groups[..|groups| - 1], status) + if groups[|groups| - 1] == status then [status] else []
  }

  /** `FROM status JOIN totals`: a row for every pair that matches. */
  function Join(statuses: seq<Id>, groups: seq<Id>): seq<Id> {
    if statuses == [] then []
    else Join(statuses[..|statuses| - 1], groups) + Matches(groups, statuses[|statuses| - 1])
  }

  lemma {:induction false} MatchesOnce(groups: seq<Id>, status: Id)
    requires Distinct(groups)
    ensures Matches(groups, status) == if status in groups then [status] else []
    decreases |groups|
  {
    if groups != [] {
      var front, last := groups[..|groups| - 1], groups[|groups| - 1];
      assert groups == front + [last];
      MatchesOnce(front, status);
      assert forall i :: 0 <= i < |front| ==> front[i] == groups[i] && front[i] != last;
    }
  }

  /** One row per status follows from one group per status and one status row per id. */
  lemma {:induction false} JoinIsDistinct(statuses: seq<Id>, groups: seq<Id>)
    requires Distinct(statuses) && Distinct(groups)
    ensures Distinct(Join(statuses, groups))
    ensures forall id :: id in Join(statuses, groups) <==> id in statuses && id in groups
    decreases |statuses|
  {
    if statuses != [] {
      var front, last := statuses[..|statuses| - 1], statuses[|statuses| - 1];
      assert statuses == front + [last];
      JoinIsDistinct(front, groups);
      MatchesOnce(groups, last);
      assert last !in front by {
        assert forall i :: 0 <= i < |front| ==> front[i] == statuses[i] && front[i] != last;
      }
    }
  }

  // ---------------------------------------------------------------- what is to be rescored

  datatype Dirty = DirtyTag(id: Id) | DirtyLocal(id: Id) | DirtyRemote(id: Id)

  /** Key columns of a metric row; exactly one of them is set. */
  datatype MetricRow = MetricRow(local: Option<Id>, remote: Option<Id>)

  function LocalRows(ids: seq<Id>): (r: seq<MetricRow>)
    ensures |r| == |ids| && forall i :: 0 <= i < |ids| ==> r[i] == MetricRow(Some(ids[i]), None)
  {
    seq(|ids|, i requires 0 <= i < |ids| => MetricRow(Some(ids[i]), None))
  }

  function RemoteRows(ids: seq<Id>): (r: seq<MetricRow>)
    ensures |r| == |ids| && forall i :: 0 <= i < |ids| ==> r[i] == MetricRow(None, Some(ids[i]))
  {
    seq(|ids|, i requires 0 <= i < |ids| => MetricRow(None, Some(ids[i])))
  }

  function SelectTags(tags: seq<Id>): (r: seq<Dirty>)
    ensures |r| == |tags| && forall i :: 0 <= i < |tags| ==> r[i] == DirtyTag(tags[i])
  {
    seq(|tags|, i requires 0 <= i < |tags| => DirtyTag(tags[i]))
  }

  /** `WHERE local_status_id IS NOT NULL`. */
  function SelectLocal(metrics: seq<MetricRow>): seq<Dirty> {
    if metrics == [] then []
    else
      var last := metrics[|metrics| - 1];
      SelectLocal(metrics[..|metrics| - 1]) + if last.local.Some? then [DirtyLocal(last.local.value)] else []
  }

  /** `WHERE remote_status_id IS NOT NULL`. */
  function SelectRemote(metrics: seq<MetricRow>): seq<Dirty> {
    if metrics == [] then []
    else
      var last := metrics[|metrics| - 1];
      SelectRemote(metrics[..|metrics| - 1]) + if last.remote.Some? then [DirtyRemote(last.remote.value)] else []
  }

  function TagsOf(days: seq<DayKey>): (r: seq<Id>)
    ensures |r| == |days| && forall i :: 0 <= i < |days| ==> r[i] == days[i].tag
  {
    seq(|days|, i requires 0 <= i < |days| => days[i].tag)
  }

  /** The rows the last statement inserts, given the rows its three selections scan. */
  function DirtyRows(days: seq<DayKey>, metrics: seq<MetricRow>): seq<Dirty> {
    SelectTags(GroupBy(TagsOf(days))) + SelectLocal(metrics) + SelectRemote(metrics)
  }

  lemma {:induction false} SelectedLocal(metrics: seq<MetricRow>)
    requires Distinct(metrics) && forall m :: m in metrics ==> m.local.None? || m.remote.None?
    ensures Distinct(SelectLocal(metrics))
    ensures forall d :: d in SelectLocal(metrics) <==> d.DirtyLocal? && MetricRow(Some(d.id), None) in metrics
    decreases |metrics|
  {
    if metrics != [] {
      var front, last := metrics[..|metrics| - 1], metrics[|metrics| - 1];
      assert metrics == front + [last];
      SelectedLocal(front);
      assert last in metrics && last !in front by {
        assert forall i :: 0 <= i < |front| ==> front[i] == metrics[i] && front[i] != last;
      }
    }
  }

  lemma {:induction false} SelectedRemote(metrics: seq<MetricRow>)
    requires Distinct(metrics) && forall m :: m in metrics ==> m.local.None? || m.remote.None?
    ensures Distinct(SelectRemote(metrics))
    ensures forall d :: d in SelectRemote(metrics) <==> d.DirtyRemote? && MetricRow(None, Some(d.id)) in metrics
    decreases |metrics|
  {
    if metrics != [] {
      var front, last := metrics[..|metrics| - 1], metrics[|metrics| - 1];
      assert metrics == front + [last];
      SelectedRemote(front);
      assert last in metrics && last !in front by {
        assert forall i :: 0 <= i < |front| ==> front[i] == metrics[i] && front[i] != last;
      }
    }
  }

  /** The metric table: what the two inserts add, one after the other. */
  function MetricRows(local: seq<Id>, remote: seq<Id>): seq<MetricRow> {
    LocalRows(local) + RemoteRows(remote)
  }

  /** No two rows agree on both key columns, so the table's unique constraint is never violated. */
  lemma MetricRowsAreUnique(local: seq<Id>, remote: seq<Id>)
    requires Distinct(local) && Distinct(remote)
    ensures Distinct(MetricRows(local, remote))
    ensures forall m :: m in MetricRows(local, remote) ==> m.local.None? || m.remote.None?
    ensures forall id :: MetricRow(Some(id), None) in MetricRows(local, remote) <==> id in local
    ensures forall id :: MetricRow(None, Some(id)) in MetricRows(local, remote) <==> id in remote
  {
    var rows := MetricRows(local, remote);
    forall id | id in local
      ensures MetricRow(Some(id), None) in rows
    {
      var i :| 0 <= i < |local| && local[i] == id;
      assert rows[i] == MetricRow(Some(id), None);
    }
    forall id | id in remote
      ensures MetricRow(None, Some(id)) in rows
    {
      var i :| 0 <= i < |remote| && remote[i] == id;
      assert rows[|local| + i] == MetricRow(None, Some(id));
    }
  }

  lemma DisjointConcat(a: seq<Dirty>, b: seq<Dirty>)
    requires Distinct(a) && Distinct(b) && forall d :: d in a ==> d !in b
    ensures Distinct(a + b)
  {
    var s := a + b;
    forall i, j | 0 <= i < j < |s|
      ensures s[i] != s[j]
    {
      assert i < |a| ==> s[i] in a;
      assert j >= |a| ==> s[j] in b;
    }
  }

  lemma SelectedTags(days: seq<DayKey>)
    ensures Distinct(SelectTags(GroupBy(TagsOf(days))))
    ensures forall d :: d in SelectTags(GroupBy(TagsOf(days))) <==>
        d.DirtyTag? && exists day :: day in days && day.tag == d.id
  {
    var tags := GroupBy(TagsOf(days));
    GroupsAreDistinct(TagsOf(days));
    forall d
      ensures d in SelectTags(tags) <==> d.DirtyTag? && exists day :: day in days && day.tag == d.id
    {
      if d in SelectTags(tags) {
        var i :| 0 <= i < |tags| && DirtyTag(tags[i]) == d;
        assert tags[i] in tags && tags[i] in TagsOf(days);
        var k :| 0 <= k < |days| && TagsOf(days)[k] == d.id;
        assert days[k] in days;
      }
      if d.DirtyTag? && exists day :: day in days && day.tag == d.id {
        var k :| 0 <= k < |days| && days[k].tag == d.id;
        assert TagsOf(days)[k] in tags;
        var i :| 0 <= i < |tags| && tags[i] == d.id;
        assert SelectTags(tags)[i] == d;
      }
    }
  }

  /** No key is inserted twice; a tag or status is in it exactly when the caches have a row for it. */
  lemma DirtyHasNoDuplicates(days: seq<DayKey>, local: seq<Id>, remote: seq<Id>)
    requires Distinct(local) && Distinct(remote)
    ensures Distinct(DirtyRows(days, MetricRows(local, remote)))
    ensures forall key :: key in DirtyRows(days, MetricRows(local, remote)) <==>
              match key
              case DirtyTag(id) => exists day :: day in days && day.tag == id
              case DirtyLocal(id) => id in local
              case DirtyRemote(id) => id in remote
  {
    var metrics := MetricRows(local, remote);
    MetricRowsAreUnique(local, remote);
    SelectedTags(days);
    SelectedLocal(metrics);
    SelectedRemote(metrics);
    var tags := SelectTags(GroupBy(TagsOf(days)));
    DisjointConcat(tags, SelectLocal(metrics));
    DisjointConcat(tags + SelectLocal(metrics), SelectRemote(metrics));
  }

  /** The grouping is needed: without it the tags are distinct only if none is used on two days. */
  lemma UngroupedTagsDistinctIff(days: seq<DayKey>)
    requires Distinct(days)
    ensures Distinct(SelectTags(TagsOf(days))) <==> forall a, b :: a in days && b in days && a.tag == b.tag ==> a == b
  {
    if forall a, b :: a in days && b in days && a.tag == b.tag ==> a == b {
      forall i, j | 0 <= i < j < |days|
        ensures SelectTags(TagsOf(days))[i] != SelectTags(TagsOf(days))[j]
      {
        assert days[i] in days && days[j] in days && days[i] != days[j];
      }
    }
    if Distinct(SelectTags(TagsOf(days))) {
      forall a, b | a in days && b in days && a.tag == b.tag
        ensures a == b
      {
        var i :| 0 <= i < |days| && days[i] == a;
        var j :| 0 <= j < |days| && days[j] == b;
        assert SelectTags(TagsOf(days))[i] == SelectTags(TagsOf(days))[j];
      }
    }
  }

  // ---------------------------------------------------------------- the whole migration

  function StatusesOf(rows: seq<Interaction>): (r: seq<Id>)
    ensures |r| == |rows| && forall i :: 0 <= i < |rows| ==> r[i] == rows[i].status
  {
    seq(|rows|, i requires 0 <= i < |rows| => rows[i].status)
  }

  /** The ids one of the metric inserts writes: existing statuses joined with the groups of interactions. */
  function JoinedIds(statuses: seq<Id>, interactions: seq<Interaction>): seq<Id> {
    Join(statuses, GroupBy(StatusesOf(interactions)))
  }

  /** Scanned in any order, the join yields the keys of the metrics, each once. */
  lemma JoinedIdsAreMetrics(statuses: map<Id, StatusRow>, ids: seq<Id>, interactions: set<Interaction>,
      rows: seq<Interaction>)
    requires Scans(ids, statuses.Keys) && Scans(rows, interactions)
    ensures Distinct(JoinedIds(ids, rows))
    ensures forall id :: id in JoinedIds(ids, rows) <==> id in Metrics(statuses, interactions)
  {
    var groups := GroupBy(StatusesOf(rows));
    GroupsAreDistinct(StatusesOf(rows));
    JoinIsDistinct(ids, groups);
    forall id
      ensures id in groups <==> On(interactions, id) != {}
    {
      if id in groups {
        var k :| 0 <= k < |rows| && StatusesOf(rows)[k] == id;
        assert rows[k] in rows && rows[k] in On(interactions, id);
      }
      if i :| i in On(interactions, id) {
        assert i in rows;
        var k :| 0 <= k < |rows| && rows[k] == i;
        assert StatusesOf(rows)[k] in groups;
      }
    }
  }

  /** The rows the statements of the migration scan, in orders of the database's choosing. */
  datatype Scan = Scan(days: seq<DayKey>, localIds: seq<Id>, localRows: seq<Interaction>, remoteIds: seq<Id>,
      remoteRows: seq<Interaction>)

  ghost predicate ScansSource(scan: Scan, s: Source, now: Time) {
    && Scans(scan.days, DailyUsage(ActorUsage(s, now)).Keys)
    && Scans(scan.localIds, s.localStatuses.Keys) && Scans(scan.localRows, LocalInteractions(s))
    && Scans(scan.remoteIds, s.remoteStatuses.Keys) && Scans(scan.remoteRows, RemoteInteractions(s))
  }

  function SeededRows(scan: Scan): seq<Dirty> {
    DirtyRows(scan.days, MetricRows(JoinedIds(scan.localIds, scan.localRows),
        JoinedIds(scan.remoteIds, scan.remoteRows)))
  }

  /** A qualifying status uses the tag. */
  ghost predicate TagUsed(s: Source, now: Time, tag: Id) {
    exists row :: row in Usage(s, now) && row.tag == tag
  }

  lemma TagUsedIff(s: Source, now: Time, tag: Id)
    ensures (exists day :: day in DailyUsage(ActorUsage(s, now)) && day.tag == tag) <==> TagUsed(s, now, tag)
  {
    var daily := DailyUsage(ActorUsage(s, now));
    if day :| day in daily && day.tag == tag {
      DayPresent(s, now, day);
      var row :| row in UsesOn(s, now, day);
      assert row.tag == tag;
    }
    if row :| row in Usage(s, now) && row.tag == tag {
      var day := DayKey(tag, ActorKeyOf(s, row).day);
      assert row in UsesOn(s, now, day);
      DayPresent(s, now, day);
    }
  }

  /**
   Across all statements and for every order of their scans: no key is marked for rescoring twice, a
   tag is marked exactly when a qualifying status uses it, a status exactly when it has a metric.
   */
  lemma SeedMarksEachOnce(s: Source, now: Time, scan: Scan)
    requires ScansSource(scan, s, now)
    ensures Distinct(SeededRows(scan))
    ensures forall key :: key in SeededRows(scan) <==>
              match key
              case DirtyTag(id) => TagUsed(s, now, id)
              case DirtyLocal(id) => id in Metrics(s.localStatuses, LocalInteractions(s))
              case DirtyRemote(id) => id in Metrics(s.remoteStatuses, RemoteInteractions(s))
  {
    var local, remote := JoinedIds(scan.localIds, scan.localRows), JoinedIds(scan.remoteIds, scan.remoteRows);
    JoinedIdsAreMetrics(s.localStatuses, scan.localIds, LocalInteractions(s), scan.localRows);
    JoinedIdsAreMetrics(s.remoteStatuses, scan.remoteIds, RemoteInteractions(s), scan.remoteRows);
    DirtyHasNoDuplicates(scan.days, local, remote);
    forall id: Id
      ensures TagUsed(s, now, id) <==> exists day :: day in scan.days && day.tag == id
    {
      TagUsedIff(s, now, id);
      assert forall day :: day in scan.days <==> day in DailyUsage(ActorUsage(s, now));
    }
  }
}
