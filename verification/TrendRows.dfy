/** The rows the trend backfill writes, said from the rows it reads. */
module TrendRows {
  import opened Prelude
  import opened TrendCache

  // ---------------------------------------------------------------- tag usage

  ghost function Statuses(s: Source, origin: Origin): map<Id, StatusRow> {
    match origin
    case Local => s.localStatuses
    case Remote => s.remoteStatuses
  }

  /** The row attaches a tag to a public status that was not deleted and is eight days old at most. */
  ghost predicate Qualifies(s: Source, row: TagRow, now: Time) {
    && row in s.tags && row.status in Statuses(s, row.origin)
    && var status := Statuses(s, row.origin)[row.status];
    && status.isPublic == true && status.deleted == false
    && now - status.publishedAt <= 8 * 24 * 3_600_000_000
  }

  /** Published within the twenty-four hours of that day. */
  ghost predicate OnDay(s: Source, row: TagRow, day: int) {
    && row.status in Statuses(s, row.origin)
    && 0 <= Statuses(s, row.origin)[row.status].publishedAt - day * 86_400_000_000 < 86_400_000_000
  }

  ghost predicate IsUse(s: Source, now: Time, tag: Id, day: int, row: TagRow) {
    Qualifies(s, row, now) && row.tag == tag && OnDay(s, row, day)
  }

  ghost predicate IsBy(s: Source, row: TagRow, origin: Origin, actor: Id) {
    && row.origin == origin && row.status in Statuses(s, origin)
    && Statuses(s, origin)[row.status].actor == actor
  }

  lemma UsageIsQualifying(s: Source, now: Time, row: TagRow, tag: Id, day: int, origin: Origin, actor: Id)
    ensures row in UsesOn(s, now, DayKey(tag, day)) <==> IsUse(s, now, tag, day, row)
    ensures Qualifies(s, row, now) ==>
        (ActorKeyOf(s, row) == ActorKey(tag, day, origin, actor) <==>
          row.tag == tag && OnDay(s, row, day) && IsBy(s, row, origin, actor))
    ensures row in Usage(s, now) <==> Qualifies(s, row, now)
  {
    if row.status in Statuses(s, row.origin) {
      DayBounds(Statuses(s, row.origin)[row.status].publishedAt, day);
    }
  }

  lemma DayBounds(at: Time, day: int)
    ensures DayOf(at) == day <==> 0 <= at - day * 86_400_000_000 < 86_400_000_000
  {
  }

  /** The first table counts the uses of a tag on a day by one author, and has no row without a use. */
  lemma ActorRowsAreExact(s: Source, now: Time, tag: Id, day: int, origin: Origin, actor: Id, rows: set<TagRow>)
    requires forall row :: row in rows <==> IsUse(s, now, tag, day, row) && IsBy(s, row, origin, actor)
    ensures var key := ActorKey(tag, day, origin, actor);
            && (key in ActorUsage(s, now) <==> rows != {})
            && (key in ActorUsage(s, now) ==> ActorUsage(s, now)[key] == |rows|)
  {
    var key := ActorKey(tag, day, origin, actor);
    forall row
      ensures row in rows <==> row in Usage(s, now) && ActorKeyOf(s, row) == key
    {
      UsageIsQualifying(s, now, row, tag, day, origin, actor);
    }
    assert RowsWith(Usage(s, now), r => ActorKeyOf(s, r), {key}) == rows;
  }

  /**
   The second counts all uses of a tag on a day and the distinct authors among them, local and remote
   ones apart, and has no row for a day without a use.
   */
  lemma DailyRowsAreExact(s: Source, now: Time, tag: Id, day: int, rows: set<TagRow>, users: set<(Origin, Id)>)
    requires forall row :: row in rows <==> IsUse(s, now, tag, day, row)
    requires forall origin, actor :: (origin, actor) in users <==>
        exists row :: row in rows && IsBy(s, row, origin, actor)
    ensures var daily := DailyUsage(ActorUsage(s, now));
            && (DayKey(tag, day) in daily <==> rows != {})
            && (DayKey(tag, day) in daily ==> daily[DayKey(tag, day)] == Daily(uses := |rows|, accounts := |users|))
  {
    TwoLevelsEqualOne(s, now, DayKey(tag, day));
    forall row
      ensures row in rows <==> row in UsesOn(s, now, DayKey(tag, day))
    {
      UsageIsQualifying(s, now, row, tag, day, Local, 0);
    }
    assert rows == UsesOn(s, now, DayKey(tag, day));
    UsersAreAuthors(s, now, DayKey(tag, day), rows, users);
  }

  lemma UsersAreAuthors(s: Source, now: Time, day: DayKey, rows: set<TagRow>, users: set<(Origin, Id)>)
    requires rows == UsesOn(s, now, day)
    requires forall origin, actor :: (origin, actor) in users <==>
        exists row :: row in rows && IsBy(s, row, origin, actor)
    ensures users == UsersOn(s, now, day)
  {
    forall row | row in rows
      ensures IsBy(s, row, row.origin, ActorKeyOf(s, row).actor)
    {
      UsageIsQualifying(s, now, row, day.tag, day.day, Local, 0);
    }
    forall user: (Origin, Id)
      ensures user in users <==> user in UsersOn(s, now, day)
    {
      var (origin, actor) := user;
      assert user == (origin, actor);
      assert (origin, actor) in users <==> exists row :: row in rows && IsBy(s, row, origin, actor);
      if row :| row in rows && IsBy(s, row, origin, actor) {
        assert row in UsesOn(s, now, day) && (row.origin, ActorKeyOf(s, row).actor) == user;
      }
      if user in UsersOn(s, now, day) {
        var row :| row in UsesOn(s, now, day) && (row.origin, ActorKeyOf(s, row).actor) == user;
        assert IsBy(s, row, origin, actor);
      }
    }
  }

  // ---------------------------------------------------------------- metrics

  /**
   The row of a local status: its favourites by local and by remote accounts, its reblogs by both, and
   when it was published. There is one exactly for the existing statuses with any of these.
   */
  lemma LocalMetricRow(s: Source, id: Id)
    ensures var (f1, f2, r1, r2) := (
                set r | r in s.localFavourites && s.localFavourites[r] == id,
                set r | r in s.remoteFavourites && s.remoteFavourites[r] == id,
                set r | r in s.localReblogs && s.localReblogs[r] == id,
                set r | r in s.remoteReblogs && s.remoteReblogs[r].local == Some(id));
            var metrics := Metrics(s.localStatuses, LocalInteractions(s));
            && (id in metrics <==> id in s.localStatuses && (f1 != {} || f2 != {} || r1 != {} || r2 != {}))
            && (id in metrics ==> metrics[id] == Metric(favourites := |f1| + |f2|, reblogs := |r1| + |r2|,
                publishedAt := s.localStatuses[id].publishedAt))
  {
    LocalMetricIsDirectCount(s, id);
    assert RowsOn(s.localFavourites, id) == set r | r in s.localFavourites && s.localFavourites[r] == id;
    assert RowsOn(s.remoteFavourites, id) == set r | r in s.remoteFavourites && s.remoteFavourites[r] == id;
    assert RowsOn(s.localReblogs, id) == set r | r in s.localReblogs && s.localReblogs[r] == id;
  }

  /** The row of a remote status: favourites of local accounts, reblogs by local and remote ones. */
  lemma RemoteMetricRow(s: Source, id: Id)
    ensures var (f, r1, r2) := (
                set r | r in s.localRemoteFavourites && s.localRemoteFavourites[r] == id,
                set r | r in s.localRemoteReblogs && s.localRemoteReblogs[r] == id,
                set r | r in s.remoteReblogs && s.remoteReblogs[r].remote == Some(id));
            var metrics := Metrics(s.remoteStatuses, RemoteInteractions(s));
            && (id in metrics <==> id in s.remoteStatuses && (f != {} || r1 != {} || r2 != {}))
            && (id in metrics ==> metrics[id] == Metric(favourites := |f|, reblogs := |r1| + |r2|,
                publishedAt := s.remoteStatuses[id].publishedAt))
  {
    RemoteMetricIsDirectCount(s, id);
    assert RowsOn(s.localRemoteFavourites, id) ==
        set r | r in s.localRemoteFavourites && s.localRemoteFavourites[r] == id;
    assert RowsOn(s.localRemoteReblogs, id) == set r | r in s.localRemoteReblogs && s.localRemoteReblogs[r] == id;
  }
}
