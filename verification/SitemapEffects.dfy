/**
 What a crawl of the sitemap lists, said from the rows themselves and from literal text.

 `SitemapCrawl` reads the crawl off the eligible rows; here eligibility, addresses and times are spelt
 out, and so are the alphabet of the cursors, the escapes and the documents.
 */
module SitemapEffects {
  import opened Prelude
  import opened Ordering
  import opened Sitemap
  import opened SitemapXml
  import opened SitemapCursor
  import opened SitemapCrawl

  // ---------------------------------------------------------------- who is listed

  /** A profile search engines may see: discoverable, and not limited, suspended or purged. */
  predicate VisibleProfile(site: Site, id: int) {
    && id in site.accounts
    && site.accounts[id].discoverable == true && site.accounts[id].limited == false
    && site.accounts[id].suspended == false && site.accounts[id].purged == false
  }

  /** A public, unmarked post that is still there, of such a profile. */
  predicate VisiblePost(site: Site, id: int) {
    && id in site.posts
    && site.posts[id].isPublic == true && site.posts[id].sensitive == false && site.posts[id].deleted == false
    && VisibleProfile(site, site.posts[id].account)
  }

  lemma RowsAreVisible(site: Site)
    ensures forall id :: id in RowsOf(site, Profiles) <==> VisibleProfile(site, id)
    ensures forall id :: id in RowsOf(site, PostsKind) <==> VisiblePost(site, id)
    ensures forall id :: VisibleProfile(site, id) ==>
        TimeOf(RowsOf(site, Profiles), id) == site.accounts[id].updatedAt
    ensures forall id :: VisiblePost(site, id) ==>
        TimeOf(RowsOf(site, PostsKind), id) == site.posts[id].updatedAt
  {
  }

  /** The configured address without the slashes at its end. */
  predicate BaseOf(url: string, base: string) {
    && base <= url
    && (forall k :: |base| <= k < |url| ==> url[k] == '/')
    && (base != [] ==> base[|base| - 1] != '/')
  }

  lemma {:induction false} TrimIsBase(url: string)
    ensures BaseOf(url, TrimSlashes(url))
  {
    if url != [] && url[|url| - 1] == '/' {
      TrimIsBase(url[..|url| - 1]);
    }
  }

  lemma BaseIsUnique(url: string, a: string, b: string)
    requires BaseOf(url, a) && BaseOf(url, b)
    ensures a == b
  {
    assert a == url[..|a|] && b == url[..|b|];
    assert |b| > 0 ==> b[|b| - 1] == url[|b| - 1];
    assert |a| > 0 ==> a[|a| - 1] == url[|a| - 1];
  }

  // ---------------------------------------------------------------- the crawl

  ghost predicate ListsProfiles(site: Site, base: string, ids: seq<int>, entries: seq<Entry>) {
    && Increasing(ids) && |entries| == |ids|
    && (forall id :: id in ids <==> VisibleProfile(site, id))
    && forall i :: 0 <= i < |ids| ==> IsProfileEntry(site, base, ids[i], entries[i])
  }

  ghost predicate ListsPosts(site: Site, base: string, ids: seq<int>, entries: seq<Entry>) {
    && Increasing(ids) && |entries| == |ids|
    && (forall id :: id in ids <==> VisiblePost(site, id))
    && forall i :: 0 <= i < |ids| ==> IsPostEntry(site, base, ids[i], entries[i])
  }

  predicate IsProfileEntry(site: Site, base: string, id: int, e: Entry) {
    && id in site.accounts
    && e.location == base + ("/@" + site.accounts[id].username)
    && e.lastModified == site.formatTime(site.accounts[id].updatedAt)
  }

  predicate IsPostEntry(site: Site, base: string, id: int, e: Entry) {
    && id in site.posts && site.posts[id].account in site.accounts
    && e.location == base + ("/@" + site.accounts[site.posts[id].account].username + "/" + site.formatId(id))
    && e.lastModified == site.formatTime(site.posts[id].updatedAt)
  }

  /**
   A crawl lists the visible profiles and then the visible posts, each once and in the order of the
   ids, under their addresses and with their own times, and nothing else.
   */
  lemma CrawlListsExactly(site: Site, limit: nat, base: string)
    requires site.index == IndexMarkup() && site.urlset == UrlsetMarkup() && limit > 0
    requires ProperRows(site) && BaseOf(site.url, base)
    ensures Crawl(site, limit).Some?
    ensures exists profiles, posts, a, b ::
        ListsProfiles(site, base, profiles, a) && ListsPosts(site, base, posts, b) && Crawl(site, limit).value == a + b
  {
    ServerCrawlListsEverything(site, limit);
    var profiles, posts := Sorted(RowsOf(site, Profiles)), Sorted(RowsOf(site, PostsKind));
    ProfilesListed(site, base, profiles);
    PostsListed(site, base, posts);
  }

  lemma ProfilesListed(site: Site, base: string, ids: seq<int>)
    requires BaseOf(site.url, base) && Lists(RowsOf(site, Profiles), ids)
    ensures ListsProfiles(site, base, ids, RowEntries(site, Profiles, ids))
  {
    RowsAreVisible(site);
    TrimIsBase(site.url);
    BaseIsUnique(site.url, base, TrimSlashes(site.url));
    forall i | 0 <= i < |ids|
      ensures IsProfileEntry(site, base, ids[i], RowEntries(site, Profiles, ids)[i])
    {
      assert ids[i] in ids && VisibleProfile(site, ids[i]);
    }
  }

  lemma PostsListed(site: Site, base: string, ids: seq<int>)
    requires BaseOf(site.url, base) && Lists(RowsOf(site, PostsKind), ids)
    ensures ListsPosts(site, base, ids, RowEntries(site, PostsKind, ids))
  {
    RowsAreVisible(site);
    TrimIsBase(site.url);
    BaseIsUnique(site.url, base, TrimSlashes(site.url));
    forall i | 0 <= i < |ids|
      ensures IsPostEntry(site, base, ids[i], RowEntries(site, PostsKind, ids)[i])
    {
      assert ids[i] in ids && VisiblePost(site, ids[i]);
      PostEntryIs(site, base, ids[i]);
    }
  }

  lemma PostEntryIs(site: Site, base: string, id: int)
    requires base == TrimSlashes(site.url) && VisiblePost(site, id)
    ensures IsPostEntry(site, base, id, RowEntry(site, PostsKind, id))
  {
    RowsAreVisible(site);
  }

  // ---------------------------------------------------------------- taking a post out

  /** The row hides the post: it is not public, marked sensitive, or deleted. */
  predicate Hidden(row: Post) {
    row.isPublic == false || row.sensitive == true || row.deleted == true
  }

  /** The later crawl is the earlier one without the entry of this post. */
  ghost predicate EntryTakenOut(site: Site, base: string, id: int, before: seq<Entry>, after: seq<Entry>) {
    exists k :: 0 <= k < |before| && IsPostEntry(site, base, id, before[k]) && after == Without(before, k)
  }

  /** Hiding a listed post takes its entry out of the crawl, and nothing else. */
  lemma HidingTakesEntryOut(site: Site, id: int, row: Post, limit: nat, base: string)
    requires site.index == IndexMarkup() && site.urlset == UrlsetMarkup() && limit > 0
    requires ProperRows(site) && BaseOf(site.url, base)
    requires VisiblePost(site, id) && Hidden(row)
    ensures var after := site.(posts := site.posts[id := row]);
            && Crawl(site, limit).Some? && Crawl(after, limit).Some?
            && EntryTakenOut(site, base, id, Crawl(site, limit).value, Crawl(after, limit).value)
  {
    var after := site.(posts := site.posts[id := row]);
    ServerCrawlListsEverything(site, limit);
    ServerCrawlListsEverything(after, limit);
    SameProfiles(site, after);
    PostTakenOut(site, after, id, row, base, RowEntries(site, Profiles, Sorted(RowsOf(site, Profiles))));
  }

  lemma PostTakenOut(site: Site, after: Site, id: int, row: Post, base: string, profiles: seq<Entry>)
    requires after == site.(posts := site.posts[id := row]) && VisiblePost(site, id) && Hidden(row)
    requires BaseOf(site.url, base)
    ensures EntryTakenOut(site, base, id,
        profiles + RowEntries(site, PostsKind, Sorted(RowsOf(site, PostsKind))),
        profiles + RowEntries(after, PostsKind, Sorted(RowsOf(after, PostsKind))))
  {
    var posts, posts' := Sorted(RowsOf(site, PostsKind)), Sorted(RowsOf(after, PostsKind));
    var entries := RowEntries(site, PostsKind, posts);
    var k := HiddenPost(site, after, id, row, posts, posts');
    SameEntries(site, after, id, row, posts, k);
    TrimIsBase(site.url);
    BaseIsUnique(site.url, base, TrimSlashes(site.url));
    PostEntryIs(site, base, id);
    assert (profiles + entries)[|profiles| + k] == entries[k];
    WithoutSecond(profiles, entries, k);
  }

  function Without<T>(s: seq<T>, k: nat): seq<T>
    requires k < |s|
  {
    s[..k] + s[k + 1..]
  }

  lemma WithoutSecond<T>(a: seq<T>, b: seq<T>, k: nat)
    requires k < |b|
    ensures Without(a + b, |a| + k) == a + Without(b, k)
  {
  }

  lemma SameProfiles(site: Site, after: Site)
    requires after == site.(posts := after.posts)
    ensures RowEntries(after, Profiles, Sorted(RowsOf(after, Profiles)))
        == RowEntries(site, Profiles, Sorted(RowsOf(site, Profiles)))
  {
    assert RowsOf(after, Profiles) == RowsOf(site, Profiles);
  }

  /** The ids listed afterwards are those before without the hidden one. */
  lemma HiddenPost(site: Site, after: Site, id: int, row: Post, posts: seq<int>, posts': seq<int>) returns (k: nat)
    requires after == site.(posts := site.posts[id := row]) && VisiblePost(site, id) && Hidden(row)
    requires Lists(RowsOf(site, PostsKind), posts) && Lists(RowsOf(after, PostsKind), posts')
    ensures k < |posts| && posts[k] == id && posts' == Without(posts, k)
  {
    RowsAreVisible(site);
    RowsAreVisible(after);
    assert id in posts;
    k :| 0 <= k < |posts| && posts[k] == id;
    forall x
      ensures x in Without(posts, k) <==> x in posts'
    {
      assert x in posts' <==> x in posts && x != id;
      if x in posts && x != id {
        var j :| 0 <= j < |posts| && posts[j] == x;
        assert j < k ==> Without(posts, k)[j] == x;
        assert j > k ==> Without(posts, k)[j - 1] == x;
      }
    }
    OrderIsUnique(Without(posts, k), posts');
  }

  /** The other posts' entries are the same before and after. */
  lemma SameEntries(site: Site, after: Site, id: int, row: Post, posts: seq<int>, k: nat)
    requires after == site.(posts := site.posts[id := row]) && VisiblePost(site, id) && Hidden(row)
    requires Lists(RowsOf(site, PostsKind), posts) && k < |posts| && posts[k] == id
    ensures RowEntries(after, PostsKind, Without(posts, k)) == Without(RowEntries(site, PostsKind, posts), k)
  {
    RowsAreVisible(site);
    RowsAreVisible(after);
    var kept := Without(posts, k);
    forall i | 0 <= i < |kept|
      ensures RowEntry(after, PostsKind, kept[i]) == RowEntry(site, PostsKind, kept[i])
    {
      assert kept[i] == posts[if i < k then i else i + 1];
      assert kept[i] != id && kept[i] in posts;
      assert VisiblePost(site, kept[i]) && VisiblePost(after, kept[i]);
    }
  }

  // ---------------------------------------------------------------- addresses of pages

  /** Where a chunk is advertised, and its time. */
  lemma ChunkIsAdvertised(site: Site, chunk: Chunk, base: string)
    requires BaseOf(site.url, base) && 0 <= chunk.cursor < KeyLimit(16)
    ensures exists id: seq<Byte> ::
        && |id| == 16 && Key(id) == chunk.cursor
        && ChunkEntry(site, Profiles, chunk).location == base + ("/sitemaps/profiles/" + (EncodeCursor(id) + ".xml"))
        && ChunkEntry(site, PostsKind, chunk).location == base + ("/sitemaps/posts/" + (EncodeCursor(id) + ".xml"))
    ensures ChunkEntry(site, Profiles, chunk).lastModified == site.formatTime(chunk.lastModified)
    ensures ChunkEntry(site, PostsKind, chunk).lastModified == site.formatTime(chunk.lastModified)
  {
    TrimIsBase(site.url);
    BaseIsUnique(site.url, base, TrimSlashes(site.url));
    KeyOfBytes(chunk.cursor, 16);
    assert |BytesOf(chunk.cursor, 16)| == 16 && Key(BytesOf(chunk.cursor, 16)) == chunk.cursor;
  }

  /** The path under which the page from this id on is served. */
  ghost function PathFor(kind: Kind, id: seq<Byte>): string {
    (match kind case Profiles => "/sitemaps/profiles/" case PostsKind => "/sitemaps/posts/")
    + (EncodeCursor(id) + ".xml")
  }

  /** Exactly the paths of sixteen-byte ids are served, and with the page from that id on. */
  lemma ServesIff(site: Site, path: string, limit: nat)
    ensures Serve(site, path, limit).Some? <==>
        exists kind, id: seq<Byte> :: |id| == 16 && path == PathFor(kind, id)
    ensures forall kind, id: seq<Byte> :: |id| == 16 && path == PathFor(kind, id) ==>
        Serve(site, path, limit) ==
          Some(Document(site.urlset, RowEntries(site, kind, Page(RowsOf(site, kind), Key(id), limit))))
  {
    forall kind, id: seq<Byte> | |id| == 16 && path == PathFor(kind, id)
      ensures Serve(site, path, limit) ==
          Some(Document(site.urlset, RowEntries(site, kind, Page(RowsOf(site, kind), Key(id), limit))))
    {
      ServesPath(site, kind, id, limit);
    }
    if Serve(site, path, limit).Some? {
      ServedHasPath(site, path, limit);
    }
  }

  lemma ServesPath(site: Site, kind: Kind, id: seq<Byte>, limit: nat)
    requires |id| == 16
    ensures Serve(site, PathFor(kind, id), limit) ==
        Some(Document(site.urlset, RowEntries(site, kind, Page(RowsOf(site, kind), Key(id), limit))))
  {
    var segment := EncodeCursor(id) + ".xml";
    PathsDiffer(segment);
    CursorIff(segment, id);
    LettersHaveNoSlash(Digits(id));
  }

  lemma ServedHasPath(site: Site, path: string, limit: nat)
    requires Serve(site, path, limit).Some?
    ensures exists kind, id: seq<Byte> :: |id| == 16 && path == PathFor(kind, id)
  {
    var kind := if StripPrefix(path, Directory(Profiles)).Some? then Profiles else PostsKind;
    var segment := StripPrefix(path, Directory(kind)).value;
    var id := DecodeCursor(segment).value;
    CursorIff(segment, id);
    assert path == PathFor(kind, id);
  }

  // ---------------------------------------------------------------- literal text

  /** Escaping goes character by character. */
  lemma EscapeByCharacter(a: string, b: string)
    ensures Escape([]) == [] && Escape(a + b) == Escape(a) + Escape(b)
  {
    EscapeAbsent([], 0);
    EscapeConcat(a, b, 0);
  }

  /** Exactly five characters are written as their predefined entities. */
  lemma EscapeTable(c: char)
    ensures c == '&' ==> Escape([c]) == "&amp;"
    ensures c == '<' ==> Escape([c]) == "&lt;"
    ensures c == '>' ==> Escape([c]) == "&gt;"
    ensures c == '"' ==> Escape([c]) == "&quot;"
    ensures c == '\'' ==> Escape([c]) == "&apos;"
    ensures c != '&' && c != '<' && c != '>' && c != '"' && c != '\'' ==> Escape([c]) == [c]
  {
    EscapeChar(c);
  }

  /** The alphabet of section 5 of RFC 4648. */
  lemma AlphabetIsUrlSafe(d: Digit)
    ensures d < 26 ==> Letter(d) == "ABCDEFGHIJKLMNOPQRSTUVWXYZ"[d]
    ensures 26 <= d < 52 ==> Letter(d) == "abcdefghijklmnopqrstuvwxyz"[d - 26]
    ensures 52 <= d ==> Letter(d) == "0123456789-_"[d - 52]
  {
  }

  /** The three bytes are written as a group of four digits for the same 24-bit number. */
  predicate SameNumber(bytes: seq<Byte>, digits: seq<Digit>)
    requires |bytes| == 3 && |digits| == 4
  {
    (bytes[0] as int) * 65536 + (bytes[1] as int) * 256 + bytes[2]
      == (digits[0] as int) * 262144 + (digits[1] as int) * 4096 + (digits[2] as int) * 64 + digits[3]
  }

  /** Groups of three bytes follow one another as groups of four digits. */
  lemma GroupsKeepValue(bytes: seq<Byte>)
    requires |bytes| >= 3
    ensures |Digits(bytes)| >= 4 && SameNumber(bytes[..3], Digits(bytes)[..4])
    ensures Digits(bytes)[4..] == Digits(bytes[3..])
  {
    GroupValue(bytes[0], bytes[1], bytes[2]);
  }

  /** One or two bytes left over are written with zero bits after them. */
  lemma LastGroupKeepsValue(bytes: seq<Byte>)
    ensures |bytes| == 0 ==> Digits(bytes) == []
    ensures |bytes| == 1 ==>
        |Digits(bytes)| == 2 && SameNumber(bytes + [0, 0], Digits(bytes) + [0, 0])
    ensures |bytes| == 2 ==>
        |Digits(bytes)| == 3 && SameNumber(bytes + [0], Digits(bytes) + [0])
  {
    if |bytes| == 1 {
      GroupValue(bytes[0], 0, 0);
      assert D2(0, 0) == 0 && D3(0) == 0;
    } else if |bytes| == 2 {
      GroupValue(bytes[0], bytes[1], 0);
      assert D3(0) == 0;
    }
  }

  lemma GroupValue(a: Byte, b: Byte, c: Byte)
    ensures (a as int) * 65536 + (b as int) * 256 + c
        == (D0(a) as int) * 262144 + (D1(a, b) as int) * 4096 + (D2(b, c) as int) * 64 + D3(c)
  {
  }

  /** An index with one chunk and a page with one row, as they are sent. */
  lemma SmallDocuments(e: Entry)
    ensures Document(IndexMarkup(), [e]) ==
        "<?xml version=\"1.0\"" + " encoding=\"UTF-8\"?>\n"
        + "<sitemapindex xmlns=\"" + "http://www.sitemaps.org" + "/schemas/sitemap/0.9\">\n"
        + ("  <sitemap><loc>" + (Escape(e.location) + ("</loc><lastmod>" + (e.lastModified
          + "</lastmod></sitemap>\n"))) + "</sitemapindex>\n")
    ensures Document(UrlsetMarkup(), [e]) ==
        "<?xml version=\"1.0\"" + " encoding=\"UTF-8\"?>\n"
        + "<urlset xmlns=\"" + "http://www.sitemaps.org" + "/schemas/sitemap/0.9\">\n"
        + ("  <url><loc>" + (Escape(e.location) + ("</loc><lastmod>" + (e.lastModified
          + "</lastmod></url>\n"))) + "</urlset>\n")
  {
    OneEntryText(IndexMarkup(), e);
    OneEntryText(UrlsetMarkup(), e);
  }

  lemma OneEntryText(m: Markup, e: Entry)
    ensures Document(m, [e]) ==
        m.start + ((m.before + (Escape(e.location) + (m.between + (e.lastModified + m.after)))) + m.end)
  {
    assert [e][1..] == [];
    assert EntriesText(m, []) == [];
    assert EntriesText(m, [e]) == EntryText(m, e);
  }
}
