/**
 The XML the sitemap handlers write.

 Escaping is five replacements in a row, each over the output of the one before. It equals replacing
 every special character at once, and it can be undone; so can a whole document.
 */
module SitemapXml {
  import opened Prelude

  // ---------------------------------------------------------------- escaping

  /** `str::replace` of one character. */
  function Replace(s: string, c: char, text: string): string {
    if s == [] then [] else (if s[0] == c then text else [s[0]]) + Replace(s[1..], c, text)
  }

  /** The predefined entities of section 4.6 of XML 1.0. */
  function Entity(c: char): string {
    if c == '&' then "&amp;"
    else if c == '<' then "&lt;"
    else if c == '>' then "&gt;"
    else if c == '"' then "&quot;"
    else if c == '\'' then "&apos;"
    else [c]
  }

  /** The replaced characters in the order of the replacements. */
  function Special(k: nat): char
    requires k < 5
  {
    if k == 0 then '&' else if k == 1 then '<' else if k == 2 then '>' else if k == 3 then '"' else '\''
  }

  /** The replacements from number `k` on, each over the output of the one before. */
  function EscapeFrom(s: string, k: nat): string
    requires k <= 5
    decreases 5 - k
  {
    if k == 5 then s else EscapeFrom(Replace(s, Special(k), Entity(Special(k))), k + 1)
  }

  function Escape(s: string): string {
    EscapeFrom(s, 0)
  }

  function EscapeAtOnce(s: string): string {
    if s == [] then [] else Entity(s[0]) + EscapeAtOnce(s[1..])
  }

  lemma {:induction false} ReplaceConcat(a: string, b: string, c: char, text: string)
    ensures Replace(a + b, c, text) == Replace(a, c, text) + Replace(b, c, text)
    decreases |a|
  {
    if a == [] {
      assert a + b == b;
    } else {
      ReplaceConcat(a[1..], b, c, text);
      assert (a + b)[1..] == a[1..] + b;
      Associates(if a[0] == c then text else [a[0]], Replace(a[1..], c, text), Replace(b, c, text));
    }
  }

  lemma {:induction false} ReplaceAbsent(s: string, c: char, text: string)
    requires c !in s
    ensures Replace(s, c, text) == s
    decreases |s|
  {
    if s != [] {
      ReplaceAbsent(s[1..], c, text);
    }
  }

  lemma ReplaceOne(x: char, c: char, text: string)
    ensures Replace([x], c, text) == if x == c then text else [x]
  {
    assert [x][1..] == [];
    assert Replace([], c, text) == [];
  }

  lemma {:induction false} EscapeConcat(a: string, b: string, k: nat)
    requires k <= 5
    ensures EscapeFrom(a + b, k) == EscapeFrom(a, k) + EscapeFrom(b, k)
    decreases 5 - k
  {
    if k < 5 {
      ReplaceConcat(a, b, Special(k), Entity(Special(k)));
      EscapeConcat(Replace(a, Special(k), Entity(Special(k))), Replace(b, Special(k), Entity(Special(k))), k + 1);
    }
  }

  lemma {:induction false} EscapeAbsent(s: string, k: nat)
    requires k <= 5 && forall i :: k <= i < 5 ==> Special(i) !in s
    ensures EscapeFrom(s, k) == s
    decreases 5 - k
  {
    if k < 5 {
      ReplaceAbsent(s, Special(k), Entity(Special(k)));
      EscapeAbsent(s, k + 1);
    }
  }

  /** What a replacement writes contains nothing a later one looks for. */
  lemma LaterAbsent(k: nat, i: nat)
    requires k < i < 5
    ensures Special(i) !in Entity(Special(k))
  {
    assert Special(i) != '&';
  }

  lemma {:induction false} EscapeOne(c: char, k: nat)
    requires k <= 5
    ensures (forall i :: k <= i < 5 ==> Special(i) != c) ==> EscapeFrom([c], k) == [c]
    ensures (exists i :: k <= i < 5 && Special(i) == c) ==> EscapeFrom([c], k) == Entity(c)
    decreases 5 - k
  {
    if k < 5 {
      ReplaceOne(c, Special(k), Entity(Special(k)));
      if c == Special(k) {
        forall i | k + 1 <= i < 5
          ensures Special(i) !in Entity(c)
        {
          LaterAbsent(k, i);
        }
        EscapeAbsent(Entity(c), k + 1);
      } else {
        EscapeOne(c, k + 1);
      }
    }
  }

  lemma EscapeChar(c: char)
    ensures Escape([c]) == Entity(c)
  {
    EscapeOne(c, 0);
    assert Special(0) == '&' && Special(1) == '<' && Special(2) == '>' && Special(3) == '"' && Special(4) == '\'';
  }

  /** The five replacements in sequence are one simultaneous pass. */
  lemma {:induction false} EscapeIsSimultaneous(s: string)
    ensures Escape(s) == EscapeAtOnce(s)
    decreases |s|
  {
    if s == [] {
      EscapeAbsent(s, 0);
    } else {
      EscapeIsSimultaneous(s[1..]);
      EscapeConcat([s[0]], s[1..], 0);
      assert s == [s[0]] + s[1..];
      EscapeChar(s[0]);
    }
  }

  // ---------------------------------------------------------------- reading back

  function StripPrefix(s: string, prefix: string): (r: Option<string>)
    ensures r.Some? ==> s == prefix + r.value
  {
    if prefix <= s then Some(s[|prefix|..]) else None
  }

  lemma StripsPrefix(prefix: string, rest: string)
    ensures StripPrefix(prefix + rest, prefix) == Some(rest)
  {
    assert (prefix + rest)[..|prefix|] == prefix;
  }

  /** The character an escaped text starts with, and what follows it. */
  function ReadOne(t: string): (r: Option<(char, string)>)
    ensures r.Some? ==> |r.value.1| < |t|
  {
    if t == [] then None
    else if t[0] != '&' then Some((t[0], t[1..]))
    else if "&amp;" <= t then Some(('&', t[5..]))
    else if "&lt;" <= t then Some(('<', t[4..]))
    else if "&gt;" <= t then Some(('>', t[4..]))
    else if "&quot;" <= t then Some(('"', t[6..]))
    else if "&apos;" <= t then Some(('\'', t[6..]))
    else None
  }

  function Unescape(t: string): Option<string>
    decreases |t|
  {
    if t == [] then Some([])
    else
      var one := ReadOne(t);
      if one.None? then None
      else
        var rest := Unescape(one.value.1);
        if rest.None? then None else Some([one.value.0] + rest.value)
  }

  lemma ReadEntity(c: char, rest: string)
    ensures ReadOne(Entity(c) + rest) == Some((c, rest))
  {
    var t := Entity(c) + rest;
    var e := Entity(c);
    assert t[..|e|] == e && t[|e|..] == rest;
    assert t[0] == e[0];
    assert |e| > 1 ==> t[1] == e[1] && t[2] == e[2];
  }

  /** Escaping can be undone, so different texts never look alike. */
  lemma {:induction false} EscapeRoundTrip(s: string)
    ensures Unescape(Escape(s)) == Some(s)
    decreases |s|
  {
    EscapeIsSimultaneous(s);
    if s != [] {
      EscapeRoundTrip(s[1..]);
      EscapeIsSimultaneous(s[1..]);
      ReadEntity(s[0], EscapeAtOnce(s[1..]));
      assert s == [s[0]] + s[1..];
    }
  }

  /** Escaped text holds no markup character. */
  lemma EscapedHasNoMarkup(s: string)
    ensures '<' !in Escape(s) && '>' !in Escape(s) && '"' !in Escape(s) && '\'' !in Escape(s)
  {
    EscapeIsSimultaneous(s);
    forall k: nat | 1 <= k < 5
      ensures Special(k) !in EscapeAtOnce(s)
    {
      NoSpecial(s, k);
    }
    assert Special(1) == '<' && Special(2) == '>' && Special(3) == '"' && Special(4) == '\'';
  }

  lemma {:induction false} NoSpecial(s: string, k: nat)
    requires 1 <= k < 5
    ensures Special(k) !in EscapeAtOnce(s)
    decreases |s|
  {
    if s != [] {
      NoSpecial(s[1..], k);
      EntityPlain(s[0], k);
    }
  }

  lemma EntityPlain(c: char, k: nat)
    requires 1 <= k < 5
    ensures Special(k) !in Entity(c)
  {
    assert Special(k) != '&';
  }

  // ---------------------------------------------------------------- documents

  /** One listed address with its formatted time of change. */
  datatype Entry = Entry(location: string, lastModified: string)

  /** The fixed parts of the two kinds of document. */
  datatype Markup = Markup(start: string, before: string, between: string, after: string, end: string) {
    /** The parts around a text begin with markup, and the document's end does not look like an entry. */
    predicate Readable() {
      && between != [] && between[0] == '<' && after != [] && after[0] == '<'
      && !(before <= end) && !(end <= before)
    }
  }

  function IndexMarkup(): (m: Markup)
    ensures m.Readable()
  {
    var m := Markup(
      "<?xml version=\"1.0\"" + " encoding=\"UTF-8\"?>\n"
      + "<sitemapindex xmlns=\"" + "http://www.sitemaps.org" + "/schemas/sitemap/0.9\">\n",
      "  <sitemap><loc>", "</loc><lastmod>", "</lastmod></sitemap>\n", "</sitemapindex>\n");
    assert m.before[0] != m.end[0];
    m
  }

  function UrlsetMarkup(): (m: Markup)
    ensures m.Readable()
  {
    var m := Markup(
      "<?xml version=\"1.0\"" + " encoding=\"UTF-8\"?>\n"
      + "<urlset xmlns=\"" + "http://www.sitemaps.org" + "/schemas/sitemap/0.9\">\n",
      "  <url><loc>", "</loc><lastmod>", "</lastmod></url>\n", "</urlset>\n");
    assert m.before[0] != m.end[0];
    m
  }

  function EntryText(m: Markup, e: Entry): string {
    m.before + (Escape(e.location) + (m.between + (e.lastModified + m.after)))
  }

  function EntriesText(m: Markup, entries: seq<Entry>): string {
    if entries == [] then [] else EntryText(m, entries[0]) + EntriesText(m, entries[1..])
  }

  function Document(m: Markup, entries: seq<Entry>): string {
    m.start + (EntriesText(m, entries) + m.end)
  }

  lemma {:induction false} EntriesTextAppend(m: Markup, entries: seq<Entry>, e: Entry)
    ensures EntriesText(m, entries + [e]) == EntriesText(m, entries) + EntryText(m, e)
    decreases |entries|
  {
    if entries == [] {
      assert [e][1..] == [];
      assert EntriesText(m, []) == [];
      assert entries + [e] == [e];
    } else {
      EntriesTextAppend(m, entries[1..], e);
      assert (entries + [e])[1..] == entries[1..] + [e];
      Associates(EntryText(m, entries[0]), EntriesText(m, entries[1..]), EntryText(m, e));
    }
  }

  /** The handlers' loop, pushing one piece after the other onto the body. */
  method Render(m: Markup, entries: seq<Entry>) returns (body: string)
    ensures body == Document(m, entries)
  {
    body := m.start;
    var n := 0;
    while n < |entries|
      invariant 0 <= n <= |entries|
      invariant body == m.start + EntriesText(m, entries[..n])
    {
      body := PushEntry(m, body, entries[n]);
      EntriesTextAppend(m, entries[..n], entries[n]);
      Associates(m.start, EntriesText(m, entries[..n]), EntryText(m, entries[n]));
      assert entries[..n + 1] == entries[..n] + [entries[n]];
      n := n + 1;
    }
    assert entries[..n] == entries;
    Associates(m.start, EntriesText(m, entries), m.end);
    body := body + m.end;
  }

  method PushEntry(m: Markup, body: string, e: Entry) returns (r: string)
    ensures r == body + EntryText(m, e)
  {
    r := body + m.before;
    r := r + Escape(e.location);
    r := r + m.between;
    r := r + e.lastModified;
    r := r + m.after;
  }

  /** Text up to the next tag, and the rest from it on. */
  function UpToTag(s: string): (string, string) {
    if s == [] || s[0] == '<' then ([], s) else var (text, rest) := UpToTag(s[1..]); ([s[0]] + text, rest)
  }

  lemma {:induction false} ReadsUpToTag(text: string, rest: string)
    requires '<' !in text && rest != [] && rest[0] == '<'
    ensures UpToTag(text + rest) == (text, rest)
    decreases |text|
  {
    if text == [] {
      assert text + rest == rest;
    } else {
      ReadsUpToTag(text[1..], rest);
      assert (text + rest)[1..] == text[1..] + rest;
      assert text == [text[0]] + text[1..];
    }
  }

  function ReadEntry(m: Markup, s: string): Option<(Entry, string)> {
    var s1 := StripPrefix(s, m.before);
    if s1.None? then None
    else
      var (location, s2) := UpToTag(s1.value);
      var s3 := StripPrefix(s2, m.between);
      if s3.None? then None
      else
        var (lastModified, s4) := UpToTag(s3.value);
        var s5 := StripPrefix(s4, m.after);
        var text := Unescape(location);
        if s5.None? || text.None? then None else Some((Entry(text.value, lastModified), s5.value))
  }

  lemma ReadsEntry(m: Markup, e: Entry, rest: string)
    requires m.Readable() && '<' !in e.lastModified
    ensures ReadEntry(m, EntryText(m, e) + rest) == Some((e, rest))
  {
    var s4 := m.after + rest;
    var s3 := e.lastModified + s4;
    var s2 := m.between + s3;
    var s1 := Escape(e.location) + s2;
    assert EntryText(m, e) + rest == m.before + s1;
    StripsPrefix(m.before, s1);
    EscapedHasNoMarkup(e.location);
    ReadsUpToTag(Escape(e.location), s2);
    StripsPrefix(m.between, s3);
    ReadsUpToTag(e.lastModified, s4);
    StripsPrefix(m.after, rest);
    EscapeRoundTrip(e.location);
  }

  /** A reader of such documents. */
  function ReadEntries(m: Markup, s: string): Option<seq<Entry>>
    decreases |s|
  {
    if s == m.end then Some([])
    else
      var one := ReadEntry(m, s);
      if one.None? || |one.value.1| >= |s| then None
      else
        var rest := ReadEntries(m, one.value.1);
        if rest.None? then None else Some([one.value.0] + rest.value)
  }

  function Read(m: Markup, s: string): Option<seq<Entry>> {
    var body := StripPrefix(s, m.start);
    if body.None? then None else ReadEntries(m, body.value)
  }

  lemma {:induction false} ReadsEntries(m: Markup, entries: seq<Entry>)
    requires m.Readable() && forall i :: 0 <= i < |entries| ==> '<' !in entries[i].lastModified
    ensures ReadEntries(m, EntriesText(m, entries) + m.end) == Some(entries)
    decreases |entries|
  {
    if entries == [] {
      assert EntriesText(m, entries) + m.end == m.end;
    } else {
      var rest := EntriesText(m, entries[1..]) + m.end;
      assert EntriesText(m, entries) + m.end == EntryText(m, entries[0]) + rest;
      ReadsEntries(m, entries[1..]);
      ReadsFirst(m, entries[0], rest, entries[1..]);
      assert entries == [entries[0]] + entries[1..];
    }
  }

  lemma ReadsFirst(m: Markup, e: Entry, rest: string, others: seq<Entry>)
    requires m.Readable() && '<' !in e.lastModified && ReadEntries(m, rest) == Some(others)
    ensures ReadEntries(m, EntryText(m, e) + rest) == Some([e] + others)
  {
    NotTheEnd(m, e, rest);
    ReadsEntry(m, e, rest);
    assert |EntryText(m, e)| > 0;
  }

  lemma NotTheEnd(m: Markup, e: Entry, rest: string)
    requires m.Readable()
    ensures EntryText(m, e) + rest != m.end
  {
    var s := EntryText(m, e) + rest;
    assert s[..|m.before|] == m.before;
    assert m.before <= s;
  }

  /** Whatever addresses are listed, reading the document gives back exactly those addresses. */
  lemma DocumentRoundTrip(m: Markup, entries: seq<Entry>)
    requires m.Readable() && forall i :: 0 <= i < |entries| ==> '<' !in entries[i].lastModified
    ensures Read(m, Document(m, entries)) == Some(entries)
  {
    StripsPrefix(m.start, EntriesText(m, entries) + m.end);
    ReadsEntries(m, entries);
  }
}
