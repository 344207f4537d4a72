/**
 Sitemap chunks and pages.

 The index lists one cursor per chunk of at most `limit` eligible rows, found by numbering the rows;
 each page is read later and separately, as the first `limit` eligible rows from its cursor on. The
 two queries never see each other's result, so it has to be proved that the pages make up the rows.
 */
module Sitemap {
  import opened Prelude
  import opened Ordering

  type Time = int

  datatype Account = Account(username: string, discoverable: bool, limited: bool, suspended: bool, purged: bool,
      updatedAt: Time) {
    predicate Listed() {
      discoverable && !limited && !suspended && !purged
    }
  }

  datatype Post = Post(account: int, isPublic: bool, sensitive: bool, deleted: bool, updatedAt: Time)

  /** Ids of eligible rows, in the order of the `uuid` type, with their time of change. */
  type Rows = map<int, Time>

  function ProfileRows(accounts: map<int, Account>): Rows {
    map id | id in accounts && accounts[id].Listed() :: accounts[id].updatedAt
  }

  function PostRows(accounts: map<int, Account>, posts: map<int, Post>): Rows {
    map id | id in posts
      && posts[id].isPublic && !posts[id].sensitive && !posts[id].deleted
      && posts[id].account in accounts && accounts[posts[id].account].Listed()
      :: posts[id].updatedAt
  }

  // ---------------------------------------------------------------- row numbers

  /** Integer quotient of nonnegative numbers. */
  function Quotient(n: nat, limit: nat): nat
    requires limit > 0
  {
    if n < limit then 0 else 1 + Quotient(n - limit, limit)
  }

  function Remainder(n: nat, limit: nat): (r: nat)
    requires limit > 0
    ensures r <= n && r < limit
  {
    if n < limit then n else Remainder(n - limit, limit)
  }

  lemma {:induction false} DivisionIsExact(n: nat, limit: nat)
    requires limit > 0
    ensures n == Quotient(n, limit) * limit + Remainder(n, limit)
  {
    if n >= limit {
      DivisionIsExact(n - limit, limit);
    }
  }

  lemma {:induction false} RemainderNext(n: nat, limit: nat)
    requires limit > 0
    ensures Remainder(n + 1, limit) == if Remainder(n, limit) + 1 == limit then 0 else Remainder(n, limit) + 1
  {
    if n >= limit {
      RemainderNext(n - limit, limit);
    }
  }

  /** Rows share the chunk that starts at row `i` exactly when they are among the `limit` rows from it. */
  lemma {:induction false} SameChunkIff(i: nat, j: nat, limit: nat)
    requires limit > 0 && Remainder(i, limit) == 0
    ensures Quotient(j, limit) == Quotient(i, limit) <==> i <= j < i + limit
  {
    if i >= limit && j >= limit {
      SameChunkIff(i - limit, j - limit, limit);
    }
  }

  lemma {:induction false} ChunkStart(k: nat, limit: nat)
    requires limit > 0
    ensures Remainder(k - Remainder(k, limit), limit) == 0
  {
    if k >= limit {
      ChunkStart(k - limit, limit);
    }
  }

  // ---------------------------------------------------------------- the queries

  datatype Chunk = Chunk(cursor: int, lastModified: Time)

  /** The eligible rows in the order of their ids. */
  ghost predicate Lists(rows: Rows, sorted: seq<int>) {
    Increasing(sorted) && forall id :: id in sorted <==> id in rows
  }

  ghost function Sorted(rows: Rows): (r: seq<int>)
    ensures Lists(rows, r)
  {
    Ascending(rows.Keys)
  }

  function TimeOf(rows: Rows, id: int): Time {
    if id in rows then rows[id] else 0
  }

  /** Times of the rows numbered with the same quotient as row `i`. */
  ghost function Partition(rows: Rows, sorted: seq<int>, i: nat, limit: nat): set<Time>
    requires limit > 0
  {
    set j: nat | j < |sorted| && Quotient(j, limit) == Quotient(i, limit) :: TimeOf(rows, sorted[j])
  }

  ghost function Latest(rows: Rows, sorted: seq<int>, i: nat, limit: nat): (r: Time)
    requires limit > 0 && i < |sorted|
    ensures r in Partition(rows, sorted, i, limit) && forall t :: t in Partition(rows, sorted, i, limit) ==> t <= r
  {
    assert TimeOf(rows, sorted[i]) in Partition(rows, sorted, i, limit);
    Greatest(Partition(rows, sorted, i, limit))
  }

  /** Of the first `n` numbered rows, those whose number is a multiple of the limit. */
  ghost function ChunksUpTo(rows: Rows, sorted: seq<int>, limit: nat, n: nat): seq<Chunk>
    requires limit > 0 && n <= |sorted|
  {
    if n == 0 then []
    else
      var before := ChunksUpTo(rows, sorted, limit, n - 1);
      if Remainder(n - 1, limit) == 0 then before + [Chunk(sorted[n - 1], Latest(rows, sorted, n - 1, limit))]
          else before
  }

  ghost function Chunks(rows: Rows, limit: nat): seq<Chunk>
    requires limit > 0
  {
    ChunksUpTo(rows, Sorted(rows), limit, |Sorted(rows)|)
  }

  function AtLeast(cursor: int, sorted: seq<int>): seq<int> {
    if sorted == [] then [] else if sorted[0] >= cursor then [sorted[0]] + AtLeast(cursor, sorted[1..])
        else AtLeast(cursor, sorted[1..])
  }

  function PageOf(sorted: seq<int>, cursor: int, limit: nat): seq<int> {
    var from := AtLeast(cursor, sorted);
    from[..Min(limit, |from|)]
  }

  ghost function Page(rows: Rows, cursor: int, limit: nat): seq<int> {
    PageOf(Sorted(rows), cursor, limit)
  }

  function PagesOf(sorted: seq<int>, chunks: seq<Chunk>, limit: nat): seq<int> {
    if chunks == [] then []
    else
      var last := chunks[|chunks| - 1];
      PagesOf(sorted, chunks[..|chunks| - 1], limit) + PageOf(sorted, last.cursor, limit)
  }

  // ---------------------------------------------------------------- pages of a sorted list

  lemma {:induction false} AtLeastIsSuffix(cursor: int, sorted: seq<int>, i: nat)
    requires Increasing(sorted) && i <= |sorted|
    requires (forall j :: 0 <= j < i ==> sorted[j] < cursor) && (forall j :: i <= j < |sorted| ==> sorted[j] >= cursor)
    ensures AtLeast(cursor, sorted) == sorted[i..]
    decreases |sorted|
  {
    if sorted != [] {
      AtLeastIsSuffix(cursor, sorted[1..], if i == 0 then 0 else i - 1);
      assert i > 0 ==> sorted[1..][i - 1..] == sorted[i..];
    }
  }

  /** A page read from row `i` is the slice from there. */
  lemma PageIsSlice(sorted: seq<int>, i: nat, limit: nat)
    requires Increasing(sorted) && i < |sorted|
    ensures PageOf(sorted, sorted[i], limit) == sorted[i..Min(i + limit, |sorted|)]
  {
    AtLeastIsSuffix(sorted[i], sorted, i);
    assert sorted[i..][..Min(limit, |sorted| - i)] == sorted[i..Min(i + limit, |sorted|)];
  }

  function NextMultiple(n: nat, limit: nat): nat
    requires limit > 0
  {
    if Remainder(n, limit) == 0 then n else n + (limit - Remainder(n, limit))
  }

  lemma MultipleAfter(n: nat, limit: nat)
    requires limit > 0
    ensures NextMultiple(n + 1, limit) == if Remainder(n, limit) == 0 then n + limit else NextMultiple(n, limit)
  {
    RemainderNext(n, limit);
  }

  /** Where the pages of the chunks among the first `n` rows end. */
  function Reach(sorted: seq<int>, limit: nat, n: nat): seq<int>
    requires limit > 0
  {
    sorted[..Min(NextMultiple(n, limit), |sorted|)]
  }

  lemma {:induction false} PagesSoFar(rows: Rows, sorted: seq<int>, limit: nat, n: nat)
    requires limit > 0 && Increasing(sorted) && n <= |sorted|
    ensures PagesOf(sorted, ChunksUpTo(rows, sorted, limit, n), limit) == Reach(sorted, limit, n)
  {
    if n > 0 {
      PagesSoFar(rows, sorted, limit, n - 1);
      NextReach(rows, sorted, limit, n, ChunksUpTo(rows, sorted, limit, n - 1));
    }
  }

  lemma NextReach(rows: Rows, sorted: seq<int>, limit: nat, n: nat, before: seq<Chunk>)
    requires limit > 0 && Increasing(sorted) && 0 < n <= |sorted| && before == ChunksUpTo(rows, sorted, limit, n - 1)
    requires PagesOf(sorted, before, limit) == Reach(sorted, limit, n - 1)
    ensures PagesOf(sorted, ChunksUpTo(rows, sorted, limit, n), limit) == Reach(sorted, limit, n)
  {
    MultipleAfter(n - 1, limit);
    if Remainder(n - 1, limit) == 0 {
      OnePageMore(sorted, before, Chunk(sorted[n - 1], Latest(rows, sorted, n - 1, limit)), n - 1, limit);
    }
  }

  lemma OnePageMore(sorted: seq<int>, chunks: seq<Chunk>, chunk: Chunk, i: nat, limit: nat)
    requires Increasing(sorted) && i < |sorted| && chunk.cursor == sorted[i]
        && PagesOf(sorted, chunks, limit) == sorted[..i]
    ensures PagesOf(sorted, chunks + [chunk], limit) == sorted[..Min(i + limit, |sorted|)]
  {
    PageIsSlice(sorted, i, limit);
    assert (chunks + [chunk])[..|chunks|] == chunks;
    var m := Min(i + limit, |sorted|);
    assert sorted[..i] + sorted[i..m] == sorted[..m];
  }

  /** The pages of the advertised cursors, one after the other, are the eligible rows in order. */
  lemma PagesCoverExactly(rows: Rows, limit: nat)
    requires limit > 0
    ensures PagesOf(Sorted(rows), Chunks(rows, limit), limit) == Sorted(rows)
  {
    PagesSoFar(rows, Sorted(rows), limit, |Sorted(rows)|);
  }

  // ---------------------------------------------------------------- each page

  ghost predicate ChunkStartsAt(rows: Rows, sorted: seq<int>, limit: nat, chunk: Chunk, i: nat)
    requires limit > 0
  {
    i < |sorted| && Remainder(i, limit) == 0 && chunk == Chunk(sorted[i], Latest(rows, sorted, i, limit))
  }

  lemma {:induction false} ChunkStarts(rows: Rows, sorted: seq<int>, limit: nat, n: nat, chunk: Chunk)
    requires limit > 0 && n <= |sorted| && chunk in ChunksUpTo(rows, sorted, limit, n)
    ensures exists i: nat :: ChunkStartsAt(rows, sorted, limit, chunk, i)
  {
    if n > 0 {
      if chunk in ChunksUpTo(rows, sorted, limit, n - 1) {
        ChunkStarts(rows, sorted, limit, n - 1, chunk);
      } else {
        assert ChunkStartsAt(rows, sorted, limit, chunk, n - 1);
      }
    }
  }

  lemma RowInPartition(rows: Rows, sorted: seq<int>, limit: nat, i: nat, k: nat)
    requires limit > 0 && i <= k < i + limit && k < |sorted| && Remainder(i, limit) == 0
    ensures TimeOf(rows, sorted[k]) in Partition(rows, sorted, i, limit)
  {
    SameChunkIff(i, k, limit);
  }

  lemma PartitionHasRow(rows: Rows, sorted: seq<int>, limit: nat, i: nat, t: Time)
    requires limit > 0 && Remainder(i, limit) == 0 && t in Partition(rows, sorted, i, limit)
    ensures exists k: nat :: i <= k < i + limit && k < |sorted| && TimeOf(rows, sorted[k]) == t
  {
    var j: nat :| j < |sorted| && Quotient(j, limit) == Quotient(i, limit) && TimeOf(rows, sorted[j]) == t;
    SameChunkIff(i, j, limit);
  }

  lemma OnPageAt(sorted: seq<int>, limit: nat, i: nat, id: int)
    requires Increasing(sorted) && i < |sorted|
    ensures id in PageOf(sorted, sorted[i], limit) <==>
        exists k: nat :: i <= k < i + limit && k < |sorted| && sorted[k] == id
  {
    PageIsSlice(sorted, i, limit);
    var page := sorted[i..Min(i + limit, |sorted|)];
    if id in page {
      var j :| 0 <= j < |page| && page[j] == id;
      assert sorted[i + j] == id;
    }
    if k: nat :| i <= k < i + limit && k < |sorted| && sorted[k] == id {
      assert page[k - i] == id;
    }
  }

  /** Every row of the page has one of the chunk's times. */
  lemma PageTimeInPartition(rows: Rows, sorted: seq<int>, limit: nat, i: nat, id: int)
    requires limit > 0 && Increasing(sorted) && i < |sorted| && Remainder(i, limit) == 0
    requires id in PageOf(sorted, sorted[i], limit)
    ensures TimeOf(rows, id) in Partition(rows, sorted, i, limit)
  {
    OnPageAt(sorted, limit, i, id);
    var k: nat :| i <= k < i + limit && k < |sorted| && sorted[k] == id;
    RowInPartition(rows, sorted, limit, i, k);
  }

  /** And every time of the chunk is that of a row on the page. */
  lemma PartitionTimeOnPage(rows: Rows, sorted: seq<int>, limit: nat, i: nat, t: Time)
    requires limit > 0 && Increasing(sorted) && i < |sorted| && Remainder(i, limit) == 0
    requires t in Partition(rows, sorted, i, limit)
    ensures exists id :: id in PageOf(sorted, sorted[i], limit) && TimeOf(rows, id) == t
  {
    PartitionHasRow(rows, sorted, limit, i, t);
    var k: nat :| i <= k < i + limit && k < |sorted| && TimeOf(rows, sorted[k]) == t;
    OnPageAt(sorted, limit, i, sorted[k]);
  }

  lemma PageOfChunk(rows: Rows, sorted: seq<int>, limit: nat, i: nat, chunk: Chunk)
    requires limit > 0 && Increasing(sorted) && ChunkStartsAt(rows, sorted, limit, chunk, i)
    ensures var page := PageOf(sorted, chunk.cursor, limit);
            && 1 <= |page| <= limit && page[0] == chunk.cursor
            && (forall id :: id in page ==> TimeOf(rows, id) <= chunk.lastModified)
            && (exists id :: id in page && TimeOf(rows, id) == chunk.lastModified)
  {
    PageIsSlice(sorted, i, limit);
    PartitionTimeOnPage(rows, sorted, limit, i, chunk.lastModified);
    forall id | id in PageOf(sorted, chunk.cursor, limit)
      ensures TimeOf(rows, id) <= chunk.lastModified
    {
      PageTimeInPartition(rows, sorted, limit, i, id);
    }
  }

  lemma PageIsEligible(rows: Rows, sorted: seq<int>, cursor: int, limit: nat)
    requires Lists(rows, sorted)
    ensures forall id :: id in PageOf(sorted, cursor, limit) ==> id in rows
  {
    AtLeastIsSuffix(cursor, sorted, FirstAtLeast(sorted, cursor));
  }

  /** A page is never empty nor longer than the limit, and its advertised time is that of its latest row. */
  lemma PageIsAsAdvertised(rows: Rows, limit: nat, chunk: Chunk)
    requires limit > 0 && chunk in Chunks(rows, limit)
    ensures var page := Page(rows, chunk.cursor, limit);
            && 1 <= |page| <= limit && page[0] == chunk.cursor
            && (forall id :: id in page ==> id in rows && rows[id] <= chunk.lastModified)
            && (exists id :: id in page && rows[id] == chunk.lastModified)
  {
    ChunkStarts(rows, Sorted(rows), limit, |Sorted(rows)|, chunk);
    var i: nat :| ChunkStartsAt(rows, Sorted(rows), limit, chunk, i);
    PageOfChunk(rows, Sorted(rows), limit, i, chunk);
    PageIsEligible(rows, Sorted(rows), chunk.cursor, limit);
    var id :| id in Page(rows, chunk.cursor, limit) && TimeOf(rows, id) == chunk.lastModified;
    assert rows[id] == chunk.lastModified;
  }

  // ---------------------------------------------------------------- stale indexes

  ghost function FirstAtLeast(sorted: seq<int>, cursor: int): (i: nat)
    requires Increasing(sorted)
    ensures i <= |sorted| && (forall j :: 0 <= j < i ==> sorted[j] < cursor)
        && (forall j :: i <= j < |sorted| ==> sorted[j] >= cursor)
    decreases |sorted|
  {
    if sorted == [] || sorted[|sorted| - 1] < cursor then |sorted| else FirstAtLeast(sorted[..|sorted| - 1], cursor)
  }

  ghost function Between(rows: Rows, low: int, high: int): set<int> {
    set x | x in rows && low <= x < high
  }

  lemma SliceIsBetween(rows: Rows, sorted: seq<int>, low: int, i: nat, k: nat)
    requires Lists(rows, sorted) && i <= k < |sorted|
    requires (forall j :: 0 <= j < i ==> sorted[j] < low) && (forall j :: i <= j < |sorted| ==> sorted[j] >= low)
    ensures Elements(sorted[i..k]) == Between(rows, low, sorted[k])
  {
    forall x | x in Between(rows, low, sorted[k])
      ensures x in sorted[i..k]
    {
      assert x in sorted;
      var j :| 0 <= j < |sorted| && sorted[j] == x;
      assert i <= j < k;
      assert sorted[i..k][j - i] == x;
    }
    forall x | x in sorted[i..k]
      ensures x in Between(rows, low, sorted[k])
    {
      var slice := sorted[i..k];
      var j :| 0 <= j < |slice| && slice[j] == x;
      assert x == sorted[i + j] && x in sorted;
    }
  }

  /** From the first row at or after `low`, row `k` is preceded by the rows in between. */
  lemma BetweenCount(rows: Rows, sorted: seq<int>, low: int, i: nat, k: nat)
    requires Lists(rows, sorted) && i <= k < |sorted|
    requires (forall j :: 0 <= j < i ==> sorted[j] < low) && (forall j :: i <= j < |sorted| ==> sorted[j] >= low)
    ensures |Between(rows, low, sorted[k])| == k - i
  {
    SliceIsBetween(rows, sorted, low, i, k);
    DistinctSize(sorted[i..k]);
  }

  lemma OnPageByIndex(sorted: seq<int>, cursor: int, limit: nat, i: nat, k: nat)
    requires Increasing(sorted) && k < |sorted| && i <= |sorted|
    requires (forall j :: 0 <= j < i ==> sorted[j] < cursor) && (forall j :: i <= j < |sorted| ==> sorted[j] >= cursor)
    ensures sorted[k] in PageOf(sorted, cursor, limit) <==> i <= k < i + limit
  {
    AtLeastIsSuffix(cursor, sorted, i);
    var page := PageOf(sorted, cursor, limit);
    if i <= k < i + limit {
      assert page[k - i] == sorted[k];
    }
    if sorted[k] in page {
      var j :| 0 <= j < |page| && page[j] == sorted[k];
      assert page[j] == sorted[i + j];
    }
  }

  /** A row is on the page of a cursor exactly when fewer than `limit` rows lie between them. */
  lemma OnPageIff(rows: Rows, cursor: int, limit: nat, id: int)
    requires id in rows
    ensures id in Page(rows, cursor, limit) <==> cursor <= id && |Between(rows, cursor, id)| < limit
  {
    var sorted := Sorted(rows);
    var i := FirstAtLeast(sorted, cursor);
    assert id in sorted;
    var k :| 0 <= k < |sorted| && sorted[k] == id;
    OnPageByIndex(sorted, cursor, limit, i, k);
    if cursor <= id {
      BetweenCount(rows, sorted, cursor, i, k);
    }
  }

  lemma {:induction false} HasChunk(rows: Rows, sorted: seq<int>, limit: nat, i: nat, n: nat)
    requires limit > 0 && i < n <= |sorted| && Remainder(i, limit) == 0
    ensures exists chunk :: chunk in ChunksUpTo(rows, sorted, limit, n) && chunk.cursor == sorted[i]
  {
    var chunks := ChunksUpTo(rows, sorted, limit, n);
    if i == n - 1 {
      assert chunks[|chunks| - 1].cursor == sorted[i];
    } else {
      HasChunk(rows, sorted, limit, i, n - 1);
      var chunk :| chunk in ChunksUpTo(rows, sorted, limit, n - 1) && chunk.cursor == sorted[i];
      assert chunk in chunks;
    }
  }

  lemma ChunkNearby(rows: Rows, sorted: seq<int>, limit: nat, k: nat)
    requires limit > 0 && Lists(rows, sorted) && k < |sorted|
    ensures exists chunk ::
        chunk in ChunksUpTo(rows, sorted, limit, |sorted|) && chunk.cursor <= sorted[k]
          && |Between(rows, chunk.cursor, sorted[k])| < limit
  {
    var i := k - Remainder(k, limit);
    ChunkStart(k, limit);
    HasChunk(rows, sorted, limit, i, |sorted|);
    BetweenCount(rows, sorted, sorted[i], i, k);
  }

  /** Some advertised cursor has fewer than `limit` eligible rows between itself and the row. */
  lemma CursorNearby(rows: Rows, limit: nat, id: int)
    requires limit > 0 && id in rows
    ensures exists chunk ::
        chunk in Chunks(rows, limit) && chunk.cursor <= id && |Between(rows, chunk.cursor, id)| < limit
  {
    assert id in Sorted(rows);
    var k: nat :| k < |Sorted(rows)| && Sorted(rows)[k] == id;
    ChunkNearby(rows, Sorted(rows), limit, k);
  }

  /**
   A stale index still covers: whatever rows have become ineligible since it was read, and whatever
   rows with larger ids have been added, every remaining row is on the page of some old cursor.
   */
  lemma StaleIndexCovers(rows: Rows, later: Rows, limit: nat, id: int)
    requires limit > 0 && id in rows && id in later
    requires forall x, y :: x in later && x !in rows && y in rows ==> x > y
    ensures exists chunk :: chunk in Chunks(rows, limit) && id in Page(later, chunk.cursor, limit)
  {
    CursorNearby(rows, limit, id);
    var chunk :| chunk in Chunks(rows, limit) && chunk.cursor <= id && |Between(rows, chunk.cursor, id)| < limit;
    SubsetSize(Between(later, chunk.cursor, id), Between(rows, chunk.cursor, id));
    OnPageIff(later, chunk.cursor, limit, id);
  }

  /** Limiting, suspending, purging or hiding an account takes its profile and its posts out, nothing else. */
  lemma HidingRemovesRows(accounts: map<int, Account>, posts: map<int, Post>, hidden: int, row: Account)
    requires hidden in accounts && !row.Listed()
    ensures ProfileRows(accounts[hidden := row]) == ProfileRows(accounts) - {hidden}
    ensures PostRows(accounts[hidden := row], posts) ==
        (map id | id in PostRows(accounts, posts) && posts[id].account != hidden :: posts[id].updatedAt)
  {
    var after := PostRows(accounts[hidden := row], posts);
    assert forall id :: id in after <==> id in PostRows(accounts, posts) && posts[id].account != hidden;
  }

  /** So an index read before moderation still leads to every profile and post that remains. */
  lemma ModerationLeavesCovered(accounts: map<int, Account>, posts: map<int, Post>, hidden: int, row: Account,
      limit: nat, id: int)
    requires hidden in accounts && !row.Listed() && limit > 0
    ensures id in ProfileRows(accounts[hidden := row]) ==>
              exists chunk ::
                  chunk in Chunks(ProfileRows(accounts), limit)
                    && id in Page(ProfileRows(accounts[hidden := row]), chunk.cursor, limit)
    ensures id in PostRows(accounts[hidden := row], posts) ==>
              exists chunk ::
                  chunk in Chunks(PostRows(accounts, posts), limit)
                    && id in Page(PostRows(accounts[hidden := row], posts), chunk.cursor, limit)
  {
    HidingRemovesRows(accounts, posts, hidden, row);
    if id in ProfileRows(accounts[hidden := row]) {
      StaleIndexCovers(ProfileRows(accounts), ProfileRows(accounts[hidden := row]), limit, id);
    }
    if id in PostRows(accounts[hidden := row], posts) {
      StaleIndexCovers(PostRows(accounts, posts), PostRows(accounts[hidden := row], posts), limit, id);
    }
  }

  // ---------------------------------------------------------------- growing tables

  function Cursors(chunks: seq<Chunk>): seq<int> {
    seq(|chunks|, i requires 0 <= i < |chunks| => chunks[i].cursor)
  }

  lemma {:induction false} PrefixCursors(rows: Rows, later: Rows, a: seq<int>, b: seq<int>, limit: nat, n: nat)
    requires limit > 0 && n <= |a| && a <= b
    ensures Cursors(ChunksUpTo(later, b, limit, n)) == Cursors(ChunksUpTo(rows, a, limit, n))
  {
    if n > 0 {
      PrefixCursors(rows, later, a, b, limit, n - 1);
      CursorsAppend(ChunksUpTo(later, b, limit, n - 1), Chunk(b[n - 1], Latest(later, b, n - 1, limit)));
      CursorsAppend(ChunksUpTo(rows, a, limit, n - 1), Chunk(a[n - 1], Latest(rows, a, n - 1, limit)));
    }
  }

  lemma CursorsAppend(chunks: seq<Chunk>, chunk: Chunk)
    ensures Cursors(chunks + [chunk]) == Cursors(chunks) + [chunk.cursor]
  {
  }

  lemma {:induction false} MoreRowsMoreChunks(rows: Rows, sorted: seq<int>, limit: nat, m: nat, n: nat)
    requires limit > 0 && m <= n <= |sorted|
    ensures Cursors(ChunksUpTo(rows, sorted, limit, m)) <= Cursors(ChunksUpTo(rows, sorted, limit, n))
  {
    if m < n {
      MoreRowsMoreChunks(rows, sorted, limit, m, n - 1);
      CursorsAppend(ChunksUpTo(rows, sorted, limit, n - 1), Chunk(sorted[n - 1], Latest(rows, sorted, n - 1, limit)));
    }
  }

  /** How many of the sorted rows were there before: all larger ids are new. */
  ghost function FirstNew(rows: Rows, sorted: seq<int>): (n: nat)
    requires Increasing(sorted)
    requires forall x, y :: x in sorted && x !in rows && y in rows ==> x > y
    ensures n <= |sorted| && (forall j :: 0 <= j < n ==> sorted[j] in rows)
        && (forall j :: n <= j < |sorted| ==> sorted[j] !in rows)
    decreases |sorted|
  {
    if sorted == [] then 0
    else if sorted[|sorted| - 1] in rows then
      assert forall j :: 0 <= j < |sorted| ==> sorted[j] in sorted && sorted[j] <= sorted[|sorted| - 1];
      |sorted|
    else FirstNew(rows, sorted[..|sorted| - 1])
  }

  lemma SortedPrefix(rows: Rows, later: Rows, a: seq<int>, b: seq<int>)
    requires Lists(rows, a) && Lists(later, b) && rows.Keys <= later.Keys
    requires forall x, y :: x in later && x !in rows && y in rows ==> x > y
    ensures a <= b
  {
    var n := FirstNew(rows, b);
    forall x
      ensures x in b[..n] <==> x in a
    {
      if x in a {
        assert x in later && x in b;
        var j :| 0 <= j < |b| && b[j] == x;
        assert b[..n][j] == x;
      }
    }
    OrderIsUnique(b[..n], a);
  }

  /** Appending rows with larger ids keeps every advertised cursor, in its place in the index. */
  lemma CursorsAreStable(rows: Rows, later: Rows, limit: nat)
    requires limit > 0 && rows.Keys <= later.Keys
    requires forall x, y :: x in later && x !in rows && y in rows ==> x > y
    ensures Cursors(Chunks(rows, limit)) <= Cursors(Chunks(later, limit))
  {
    var a, b := Sorted(rows), Sorted(later);
    SortedPrefix(rows, later, a, b);
    PrefixCursors(rows, later, a, b, limit, |a|);
    MoreRowsMoreChunks(later, b, limit, |a|, |b|);
  }
}
