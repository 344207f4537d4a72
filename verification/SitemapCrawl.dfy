/**
 The sitemap from end to end.

 A crawler reads the index document, follows each address, and reads the page it is served. Ids are
 sixteen bytes in addresses and keys in the queries; the order of the keys is that of the bytes.
 What the crawler collects is every eligible profile and post, once and in order.
 */
module SitemapCrawl {
  import opened Prelude
  import opened Ordering
  import opened Sitemap
  import opened SitemapXml
  import opened SitemapCursor

  // ---------------------------------------------------------------- ids as bytes and as keys

  /** The number a byte string stands for, most significant byte first. */
  function Key(bytes: seq<Byte>): nat {
    if bytes == [] then 0 else Key(bytes[..|bytes| - 1]) * 256 + bytes[|bytes| - 1]
  }

  function BytesOf(key: nat, n: nat): (r: seq<Byte>)
    ensures |r| == n
  {
    if n == 0 then [] else BytesOf(key / 256, n - 1) + [key % 256]
  }

  function KeyLimit(n: nat): nat {
    if n == 0 then 1 else KeyLimit(n - 1) * 256
  }

  lemma {:induction false} KeyOfBytes(key: nat, n: nat)
    requires key < KeyLimit(n)
    ensures Key(BytesOf(key, n)) == key
  {
    if n > 0 {
      KeyOfBytes(key / 256, n - 1);
    }
  }

  lemma {:induction false} BytesOfKey(bytes: seq<Byte>)
    ensures Key(bytes) < KeyLimit(|bytes|)
    ensures BytesOf(Key(bytes), |bytes|) == bytes
    decreases |bytes|
  {
    if bytes != [] {
      var front, last := bytes[..|bytes| - 1], bytes[|bytes| - 1];
      BytesOfKey(front);
      assert Key(bytes) / 256 == Key(front) && Key(bytes) % 256 == last;
      assert bytes == front + [last];
    }
  }

  /** The order of the `uuid` type: the first byte that differs decides. */
  ghost predicate Precedes(a: seq<Byte>, b: seq<Byte>) {
    exists i :: 0 <= i < |a| && i < |b| && a[..i] == b[..i] && a[i] < b[i]
  }

  lemma {:induction false} PrecedesGivesLess(a: seq<Byte>, b: seq<Byte>, i: nat)
    requires |a| == |b| && i < |a| && a[..i] == b[..i] && a[i] < b[i]
    ensures Key(a) < Key(b)
    decreases |a|
  {
    var n := |a| - 1;
    if i == n {
      assert a[..n] == b[..n];
    } else {
      assert a[..n][..i] == a[..i] && b[..n][..i] == b[..i];
      PrecedesGivesLess(a[..n], b[..n], i);
    }
  }

  ghost function FirstDifference(a: seq<Byte>, b: seq<Byte>): (i: nat)
    requires |a| == |b| && a != b
    ensures i < |a| && a[..i] == b[..i] && a[i] != b[i]
    decreases |a|
  {
    var n := |a| - 1;
    assert a == [] || a == a[..n] + [a[n]];
    assert b == [] || b == b[..n] + [b[n]];
    if a[..n] == b[..n] then n
    else
      var i := FirstDifference(a[..n], b[..n]);
      assert a[..n][..i] == a[..i] && b[..n][..i] == b[..i];
      i
  }

  /** Ordering rows by key is ordering them by id. */
  lemma KeyOrderIsByteOrder(a: seq<Byte>, b: seq<Byte>)
    requires |a| == |b|
    ensures Precedes(a, b) <==> Key(a) < Key(b)
  {
    if i :| 0 <= i < |a| && i < |b| && a[..i] == b[..i] && a[i] < b[i] {
      PrecedesGivesLess(a, b, i);
    }
    if Key(a) < Key(b) {
      var i := FirstDifference(a, b);
      if b[i] < a[i] {
        PrecedesGivesLess(b, a, i);
      }
    }
  }

  // ---------------------------------------------------------------- what the server serves

  /** The configured address, the two kinds of document, the tables, and how times and post ids are written. */
  datatype Site = Site(
    url: string,
    index: Markup,
    urlset: Markup,
    accounts: map<int, Account>,
    posts: map<int, Post>,
    formatTime: Time -> string,
    formatId: int -> string)

  datatype Kind = Profiles | PostsKind

  function Directory(kind: Kind): string {
    match kind
    case Profiles => "/sitemaps/profiles/"
    case PostsKind => "/sitemaps/posts/"
  }

  function TrimSlashes(url: string): string {
    if url != [] && url[|url| - 1] == '/' then TrimSlashes(url[..|url| - 1]) else url
  }

  function AbsoluteUrl(site: Site, path: string): string {
    TrimSlashes(site.url) + path
  }

  ghost function RowsOf(site: Site, kind: Kind): Rows {
    match kind
    case Profiles => ProfileRows(site.accounts)
    case PostsKind => PostRows(site.accounts, site.posts)
  }

  function Username(site: Site, account: int): string {
    if account in site.accounts then site.accounts[account].username else ""
  }

  /** The entry of one row on its page. */
  ghost function RowEntry(site: Site, kind: Kind, id: int): Entry {
    var path := match kind
      case Profiles => "/@" + Username(site, id)
      case PostsKind =>
          "/@" + (if id in site.posts then Username(site, site.posts[id].account) else "") + "/" + site.formatId(id);
    Entry(AbsoluteUrl(site, path), site.formatTime(TimeOf(RowsOf(site, kind), id)))
  }

  ghost function RowEntries(site: Site, kind: Kind, ids: seq<int>): (r: seq<Entry>)
    ensures |r| == |ids|
  {
    seq(|ids|, i requires 0 <= i < |ids| => RowEntry(site, kind, ids[i]))
  }

  function Segment(cursor: int): string {
    EncodeCursor(BytesOf(if cursor < 0 then 0 else cursor, 16)) + SUFFIX
  }

  /** The index entry of one chunk. */
  function ChunkEntry(site: Site, kind: Kind, chunk: Chunk): Entry {
    Entry(AbsoluteUrl(site, Directory(kind) + Segment(chunk.cursor)), site.formatTime(chunk.lastModified))
  }

  function ChunkEntries(site: Site, kind: Kind, chunks: seq<Chunk>): (r: seq<Entry>)
    ensures |r| == |chunks|
  {
    seq(|chunks|, i requires 0 <= i < |chunks| => ChunkEntry(site, kind, chunks[i]))
  }

  /** The index: profiles first, then posts. */
  ghost function IndexDocument(site: Site, limit: nat): string
    requires limit > 0
  {
    Document(site.index,
             ChunkEntries(site, Profiles, Chunks(RowsOf(site, Profiles), limit))
             + ChunkEntries(site, PostsKind, Chunks(RowsOf(site, PostsKind), limit)))
  }

  /** A page, or nothing when the path segment is no cursor. */
  ghost function ServePage(site: Site, kind: Kind, segment: string, limit: nat): Option<string> {
    var id := DecodeCursor(segment);
    if '/' in segment || id.None? then None
    else Some(Document(site.urlset, RowEntries(site, kind, Page(RowsOf(site, kind), Key(id.value), limit))))
  }

  /** The two routes. */
  ghost function Serve(site: Site, path: string, limit: nat): Option<string> {
    if StripPrefix(path, Directory(Profiles)).Some? then
      ServePage(site, Profiles, StripPrefix(path, Directory(Profiles)).value, limit)
    else if StripPrefix(path, Directory(PostsKind)).Some? then
      ServePage(site, PostsKind, StripPrefix(path, Directory(PostsKind)).value, limit)
    else
      None
  }

  // ---------------------------------------------------------------- the crawler

  /** Follow one address of the index and read the page. */
  ghost function Fetch(site: Site, location: string, limit: nat): Option<seq<Entry>> {
    var path := StripPrefix(location, TrimSlashes(site.url));
    if path.None? then None
    else
      var page := Serve(site, path.value, limit);
      if page.None? then None else Read(site.urlset, page.value)
  }

  /** All pages together, or nothing when one is missing. */
  function Gather(pages: seq<Option<seq<Entry>>>): Option<seq<Entry>> {
    if pages == [] then Some([])
    else
      var before, last := Gather(pages[..|pages| - 1]), pages[|pages| - 1];
      if before.None? || last.None? then None else Some(before.value + last.value)
  }

  ghost function Fetches(site: Site, entries: seq<Entry>, limit: nat): (r: seq<Option<seq<Entry>>>)
    ensures |r| == |entries| && forall i :: 0 <= i < |entries| ==> r[i] == Fetch(site, entries[i].location, limit)
  {
    seq(|entries|, i requires 0 <= i < |entries| => Fetch(site, entries[i].location, limit))
  }

  /** Follow all of them. */
  ghost function FetchAll(site: Site, entries: seq<Entry>, limit: nat): Option<seq<Entry>> {
    Gather(Fetches(site, entries, limit))
  }

  ghost function Crawl(site: Site, limit: nat): Option<seq<Entry>>
    requires limit > 0
  {
    var index := Read(site.index, IndexDocument(site, limit));
    if index.None? then None else FetchAll(site, index.value, limit)
  }

  /** The documents can be read, ids are ids, and formatted times contain no markup. */
  ghost predicate Proper(site: Site) {
    site.index.Readable() && site.urlset.Readable() && ProperRows(site)
  }

  ghost predicate ProperRows(site: Site) {
    && (forall id :: id in site.accounts ==> 0 <= id < KeyLimit(16))
    && (forall id :: id in site.posts ==> 0 <= id < KeyLimit(16))
    && (forall t :: '<' !in site.formatTime(t))
  }

  // ---------------------------------------------------------------- following one address

  lemma {:induction false} LettersHaveNoSlash(digits: seq<Digit>)
    ensures '/' !in Letters(digits)
  {
    forall i | 0 <= i < |digits|
      ensures Letters(digits)[i] != '/'
    {
    }
  }

  /** The segment advertised for a key is served as that key. */
  lemma SegmentDecodes(key: int)
    requires 0 <= key < KeyLimit(16)
    ensures '/' !in Segment(key)
    ensures DecodeCursor(Segment(key)).Some? && Key(DecodeCursor(Segment(key)).value) == key
  {
    CursorIff(Segment(key), BytesOf(key, 16));
    KeyOfBytes(key, 16);
    LettersHaveNoSlash(Digits(BytesOf(key, 16)));
  }

  lemma PathsDiffer(segment: string)
    ensures StripPrefix(Directory(Profiles) + segment, Directory(Profiles)) == Some(segment)
    ensures StripPrefix(Directory(PostsKind) + segment, Directory(PostsKind)) == Some(segment)
    ensures StripPrefix(Directory(PostsKind) + segment, Directory(Profiles)).None?
  {
    StripsPrefix(Directory(Profiles), segment);
    StripsPrefix(Directory(PostsKind), segment);
    assert (Directory(PostsKind) + segment)[11] == 'o' && Directory(Profiles)[11] == 'r';
  }

  lemma RowEntriesAreReadable(site: Site, kind: Kind, ids: seq<int>)
    requires Proper(site)
    ensures Read(site.urlset, Document(site.urlset, RowEntries(site, kind, ids))) == Some(RowEntries(site, kind, ids))
  {
    DocumentRoundTrip(site.urlset, RowEntries(site, kind, ids));
  }

  /** Following an advertised address yields the entries of the page from its cursor on. */
  lemma FetchChunk(site: Site, kind: Kind, chunk: Chunk, limit: nat)
    requires Proper(site) && 0 <= chunk.cursor < KeyLimit(16)
    ensures Fetch(site, ChunkEntry(site, kind, chunk).location, limit)
            == Some(RowEntries(site, kind, Page(RowsOf(site, kind), chunk.cursor, limit)))
  {
    var path := Directory(kind) + Segment(chunk.cursor);
    StripsPrefix(TrimSlashes(site.url), path);
    PathsDiffer(Segment(chunk.cursor));
    SegmentDecodes(chunk.cursor);
    assert Serve(site, path, limit)
           == Some(Document(site.urlset, RowEntries(site, kind, Page(RowsOf(site, kind), chunk.cursor, limit))));
    RowEntriesAreReadable(site, kind, Page(RowsOf(site, kind), chunk.cursor, limit));
  }

  // ---------------------------------------------------------------- following all of them

  lemma RowEntriesConcat(site: Site, kind: Kind, a: seq<int>, b: seq<int>)
    ensures RowEntries(site, kind, a + b) == RowEntries(site, kind, a) + RowEntries(site, kind, b)
  {
  }

  /** What the pages of the chunks contain. */
  ghost function ChunkPages(site: Site, kind: Kind, chunks: seq<Chunk>, limit: nat): (r: seq<Option<seq<Entry>>>)
    ensures |r| == |chunks|
  {
    seq(|chunks|, i requires 0 <= i < |chunks| =>
        Some(RowEntries(site, kind, Page(RowsOf(site, kind), chunks[i].cursor, limit))))
  }

  lemma {:induction false} GatherChunks(site: Site, kind: Kind, chunks: seq<Chunk>, limit: nat)
    ensures Gather(ChunkPages(site, kind, chunks, limit))
            == Some(RowEntries(site, kind, PagesOf(Sorted(RowsOf(site, kind)), chunks, limit)))
    decreases |chunks|
  {
    if chunks != [] {
      var front, last := chunks[..|chunks| - 1], chunks[|chunks| - 1];
      GatherChunks(site, kind, front, limit);
      var pages, sorted := ChunkPages(site, kind, chunks, limit), Sorted(RowsOf(site, kind));
      FrontPages(site, kind, chunks, limit);
      assert pages[|pages| - 1] == Some(RowEntries(site, kind, PageOf(sorted, last.cursor, limit)));
      RowEntriesConcat(site, kind, PagesOf(sorted, front, limit), PageOf(sorted, last.cursor, limit));
    }
  }

  lemma FrontPages(site: Site, kind: Kind, chunks: seq<Chunk>, limit: nat)
    requires chunks != []
    ensures ChunkPages(site, kind, chunks, limit)[..|chunks| - 1] ==
        ChunkPages(site, kind, chunks[..|chunks| - 1], limit)
  {
  }

  lemma FetchChunks(site: Site, kind: Kind, chunks: seq<Chunk>, limit: nat)
    requires Proper(site) && forall i :: 0 <= i < |chunks| ==> 0 <= chunks[i].cursor < KeyLimit(16)
    ensures Fetches(site, ChunkEntries(site, kind, chunks), limit) == ChunkPages(site, kind, chunks, limit)
  {
    var entries := ChunkEntries(site, kind, chunks);
    forall i | 0 <= i < |chunks|
      ensures Fetches(site, entries, limit)[i] == ChunkPages(site, kind, chunks, limit)[i]
    {
      FetchChunk(site, kind, chunks[i], limit);
    }
  }

  lemma {:induction false} GatherConcat(a: seq<Option<seq<Entry>>>, b: seq<Option<seq<Entry>>>)
    requires Gather(a).Some? && Gather(b).Some?
    ensures Gather(a + b) == Some(Gather(a).value + Gather(b).value)
    decreases |b|
  {
    if b == [] {
      assert a + b == a && Gather(a).value + [] == Gather(a).value;
    } else {
      var front := b[..|b| - 1];
      GatherConcat(a, front);
      assert (a + b)[..|a + b| - 1] == a + front;
      Associates(Gather(a).value, Gather(front).value, b[|b| - 1].value);
    }
  }

  lemma FetchConcat(site: Site, a: seq<Entry>, b: seq<Entry>, limit: nat)
    requires FetchAll(site, a, limit).Some? && FetchAll(site, b, limit).Some?
    ensures FetchAll(site, a + b, limit) == Some(FetchAll(site, a, limit).value + FetchAll(site, b, limit).value)
  {
    FetchesConcat(site, a, b, limit);
    GatherConcat(Fetches(site, a, limit), Fetches(site, b, limit));
  }

  lemma FetchesConcat(site: Site, a: seq<Entry>, b: seq<Entry>, limit: nat)
    ensures Fetches(site, a + b, limit) == Fetches(site, a, limit) + Fetches(site, b, limit)
  {
    SameFetches(site, a, a + b, 0, limit);
    SameFetches(site, b, a + b, |a|, limit);
    assert Fetches(site, a + b, limit)
        == Fetches(site, a + b, limit)[0..|a|] + Fetches(site, a + b, limit)[|a|..|a| + |b|];
  }

  /** A stretch of the addresses yields the same stretch of the pages. */
  lemma SameFetches(site: Site, part: seq<Entry>, entries: seq<Entry>, at: nat, limit: nat)
    requires at + |part| <= |entries| && entries[at..at + |part|] == part
    ensures Fetches(site, entries, limit)[at..at + |part|] == Fetches(site, part, limit)
  {
    forall i | 0 <= i < |part|
      ensures Fetches(site, entries, limit)[at + i] == Fetches(site, part, limit)[i]
    {
      assert entries[at..at + |part|][i] == entries[at + i];
    }
  }

  lemma CursorsAreIds(site: Site, kind: Kind, limit: nat)
    requires Proper(site) && limit > 0
    ensures forall chunk :: chunk in Chunks(RowsOf(site, kind), limit) ==> 0 <= chunk.cursor < KeyLimit(16)
  {
    forall chunk | chunk in Chunks(RowsOf(site, kind), limit)
      ensures 0 <= chunk.cursor < KeyLimit(16)
    {
      PageIsAsAdvertised(RowsOf(site, kind), limit, chunk);
      assert chunk.cursor in Page(RowsOf(site, kind), chunk.cursor, limit);
    }
  }

  lemma IndexIsReadable(site: Site, limit: nat)
    requires Proper(site) && limit > 0
    ensures Read(site.index, IndexDocument(site, limit))
            == Some(ChunkEntries(site, Profiles, Chunks(RowsOf(site, Profiles), limit))
                    + ChunkEntries(site, PostsKind, Chunks(RowsOf(site, PostsKind), limit)))
  {
    DocumentRoundTrip(site.index,
                      ChunkEntries(site, Profiles, Chunks(RowsOf(site, Profiles), limit))
                      + ChunkEntries(site, PostsKind, Chunks(RowsOf(site, PostsKind), limit)));
  }

  lemma FetchKind(site: Site, kind: Kind, limit: nat)
    requires Proper(site) && limit > 0
    ensures FetchAll(site, ChunkEntries(site, kind, Chunks(RowsOf(site, kind), limit)), limit)
            == Some(RowEntries(site, kind, Sorted(RowsOf(site, kind))))
  {
    CursorsAreIds(site, kind, limit);
    FetchChunks(site, kind, Chunks(RowsOf(site, kind), limit), limit);
    GatherChunks(site, kind, Chunks(RowsOf(site, kind), limit), limit);
    PagesCoverExactly(RowsOf(site, kind), limit);
  }

  /**
   Reading the index, decoding its addresses and reading the pages lists exactly the eligible
   profiles and then the eligible posts, each once and in the order of their ids.
   */
  lemma CrawlListsEverything(site: Site, limit: nat)
    requires Proper(site) && limit > 0
    ensures Crawl(site, limit)
            == Some(RowEntries(site, Profiles, Sorted(RowsOf(site, Profiles)))
                + RowEntries(site, PostsKind, Sorted(RowsOf(site, PostsKind))))
  {
    IndexIsReadable(site, limit);
    FetchKind(site, Profiles, limit);
    FetchKind(site, PostsKind, limit);
    FetchConcat(site,
                ChunkEntries(site, Profiles, Chunks(RowsOf(site, Profiles), limit)),
                ChunkEntries(site, PostsKind, Chunks(RowsOf(site, PostsKind), limit)), limit);
  }

  /**
   A crawler that read the index earlier still finds every row that remains: some address it holds
   leads to a page that lists the row as it is now.
   */
  lemma StaleCrawlFinds(earlier: Site, site: Site, kind: Kind, limit: nat, id: int)
    requires Proper(earlier) && Proper(site) && earlier.url == site.url && limit > 0
    requires id in RowsOf(earlier, kind) && id in RowsOf(site, kind)
    requires forall x, y :: x in RowsOf(site, kind) && x !in RowsOf(earlier, kind) && y in RowsOf(earlier, kind) ==>
        x > y
    ensures exists entry ::
              && entry in ChunkEntries(earlier, kind, Chunks(RowsOf(earlier, kind), limit))
              && Fetch(site, entry.location, limit).Some?
              && RowEntry(site, kind, id) in Fetch(site, entry.location, limit).value
  {
    var chunks := Chunks(RowsOf(earlier, kind), limit);
    StaleIndexCovers(RowsOf(earlier, kind), RowsOf(site, kind), limit, id);
    var chunk :| chunk in chunks && id in Page(RowsOf(site, kind), chunk.cursor, limit);
    CursorsAreIds(earlier, kind, limit);
    PageLists(site, kind, chunk, limit, id);
    AddressKept(earlier, site, kind, chunks, chunk);
  }

  lemma PageLists(site: Site, kind: Kind, chunk: Chunk, limit: nat, id: int)
    requires Proper(site) && 0 <= chunk.cursor < KeyLimit(16) && id in Page(RowsOf(site, kind), chunk.cursor, limit)
    ensures Fetch(site, ChunkEntry(site, kind, chunk).location, limit).Some?
    ensures RowEntry(site, kind, id) in Fetch(site, ChunkEntry(site, kind, chunk).location, limit).value
  {
    FetchChunk(site, kind, chunk, limit);
    var page := Page(RowsOf(site, kind), chunk.cursor, limit);
    var k :| 0 <= k < |page| && page[k] == id;
    assert RowEntries(site, kind, page)[k] == RowEntry(site, kind, id);
  }

  /** The index advertised the chunk at the address where its page is still served. */
  lemma AddressKept(earlier: Site, site: Site, kind: Kind, chunks: seq<Chunk>, chunk: Chunk)
    requires earlier.url == site.url && chunk in chunks
    ensures ChunkEntry(earlier, kind, chunk) in ChunkEntries(earlier, kind, chunks)
    ensures ChunkEntry(earlier, kind, chunk).location == ChunkEntry(site, kind, chunk).location
  {
    var i :| 0 <= i < |chunks| && chunks[i] == chunk;
    assert ChunkEntries(earlier, kind, chunks)[i] == ChunkEntry(earlier, kind, chunk);
  }

  /** The same for the documents the server writes. */
  lemma ServerCrawlListsEverything(site: Site, limit: nat)
    requires site.index == IndexMarkup() && site.urlset == UrlsetMarkup() && limit > 0
    requires ProperRows(site)
    ensures Crawl(site, limit)
            == Some(RowEntries(site, Profiles, Sorted(RowsOf(site, Profiles)))
                + RowEntries(site, PostsKind, Sorted(RowsOf(site, PostsKind))))
  {
    CrawlListsEverything(site, limit);
  }
}
