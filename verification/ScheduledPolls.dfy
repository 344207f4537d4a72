/** Polls kept with scheduled statuses until publication. */
module ScheduledPolls {
  import opened Prelude
  import opened Text
  import opened Ordering
  import opened PollModel

  type ScheduledId = nat

  datatype Header = Header(multiple: bool, hideTotals: bool, expiresIn: int)

  datatype TitleKey = TitleKey(scheduled: ScheduledId, position: int)

  /** The two tables of scheduled polls. */
  datatype Shelf = Shelf(headers: map<ScheduledId, Header>, titles: map<TitleKey, string>)

  ghost function PositionsOf(shelf: Shelf, id: ScheduledId): set<int> {
    set k | k in shelf.titles && k.scheduled == id :: k.position
  }

  lemma PositionHasTitle(shelf: Shelf, id: ScheduledId, q: int)
    ensures q in PositionsOf(shelf, id) <==> TitleKey(id, q) in shelf.titles
  {
    if TitleKey(id, q) in shelf.titles {
      assert TitleKey(id, q).position in PositionsOf(shelf, id);
    }
  }

  ghost function TitlesInOrder(shelf: Shelf, id: ScheduledId): seq<string> {
    var order := Ascending(PositionsOf(shelf, id));
    seq(|order|, i requires 0 <= i < |order| =>
      if TitleKey(id, order[i]) in shelf.titles then shelf.titles[TitleKey(id, order[i])] else "")
  }

  /** Load the parameters retained with a scheduled status, titles by ascending position. */
  ghost function Load(shelf: Shelf, id: ScheduledId): Option<NewPoll> {
    if id !in shelf.headers then None
    else
      var header := shelf.headers[id];
      Some(NewPoll(TitlesInOrder(shelf, id), header.expiresIn, header.multiple, header.hideTotals))
  }

  function TrimmedPoll(input: NewPoll): NewPoll {
    input.(options := Trimmed(input.options))
  }

  /** The tables after storing a poll under an unused id. */
  ghost predicate Stored(before: Shelf, after: Shelf, id: ScheduledId, input: NewPoll) {
    && after.headers == before.headers[id := Header(input.multiple, input.hideTotals, input.expiresIn)]
    && (forall k: TitleKey :: k.scheduled != id ==> (k in after.titles <==> k in before.titles))
    && (forall k: TitleKey :: k.scheduled != id && k in before.titles ==> after.titles[k] == before.titles[k])
    && (forall q: int :: TitleKey(id, q) in after.titles <==> 0 <= q < |input.options|)
    && (forall q :: 0 <= q < |input.options| ==> after.titles[TitleKey(id, q)] == Trim(input.options[q]))
  }

  /** The title rows after inserting the first `n` titles, trimmed and numbered from zero. */
  function PutTitles(titles: map<TitleKey, string>, id: ScheduledId, options: seq<string>, n: nat): map<TitleKey,
      string>
    requires n <= |options|
  {
    if n == 0 then titles else PutTitles(titles, id, options, n - 1)[TitleKey(id, n - 1) := Trim(options[n - 1])]
  }

  function Shelve(shelf: Shelf, id: ScheduledId, input: NewPoll): Shelf {
    Shelf(shelf.headers[id := Header(input.multiple, input.hideTotals, input.expiresIn)],
          PutTitles(shelf.titles, id, input.options, |input.options|))
  }

  /** Title rows reference an existing header. */
  ghost predicate TitlesReference(shelf: Shelf) {
    forall k :: k in shelf.titles ==> k.scheduled in shelf.headers
  }

  lemma {:induction false} PutTitleAt(titles: map<TitleKey, string>, id: ScheduledId, options: seq<string>, n: nat,
      k: TitleKey)
    requires n <= |options|
    ensures var r := PutTitles(titles, id, options, n);
            if k.scheduled == id && 0 <= k.position < n then k in r && r[k] == Trim(options[k.position])
            else (k in r <==> k in titles) && (k in r ==> r[k] == titles[k])
  {
    if n > 0 {
      PutTitleAt(titles, id, options, n - 1, k);
    }
  }

  lemma ShelvedReferences(shelf: Shelf, id: ScheduledId, input: NewPoll)
    requires TitlesReference(shelf)
    ensures TitlesReference(Shelve(shelf, id, input))
  {
    forall k | k in Shelve(shelf, id, input).titles
      ensures k.scheduled in Shelve(shelf, id, input).headers
    {
      PutTitleAt(shelf.titles, id, input.options, |input.options|, k);
    }
  }

  /** What the tables hold after storing a poll under an unused id. */
  lemma ShelvedIsStored(shelf: Shelf, id: ScheduledId, input: NewPoll)
    requires TitlesReference(shelf) && id !in shelf.headers
    ensures Stored(shelf, Shelve(shelf, id, input), id, input) && TitlesReference(Shelve(shelf, id, input))
  {
    var after := Shelve(shelf, id, input);
    forall k: TitleKey
      ensures k.scheduled == id && 0 <= k.position < |input.options| ==>
                k in after.titles && after.titles[k] == Trim(input.options[k.position])
      ensures !(k.scheduled == id && 0 <= k.position < |input.options|) ==>
                (k in after.titles <==> k in shelf.titles) && (k in after.titles ==> after.titles[k] == shelf.titles[k])
    {
      PutTitleAt(shelf.titles, id, input.options, |input.options|, k);
    }
    forall q: int
      ensures TitleKey(id, q) in after.titles <==> 0 <= q < |input.options|
    {
      assert TitleKey(id, q) !in shelf.titles;
    }
  }

  class ScheduledStore {
    var headers: map<ScheduledId, Header>
    var titles: map<TitleKey, string>

    constructor ()
      ensures Contents() == Shelf(map[], map[])
    {
      headers, titles := map[], map[];
    }

    ghost function Contents(): Shelf
      reads this
    {
      Shelf(headers, titles)
    }

    ghost predicate Valid()
      reads this
    {
      TitlesReference(Contents())
    }

    method InsertTitles(id: ScheduledId, options: seq<string>)
      modifies this`titles
      ensures titles == PutTitles(old(titles), id, options, |options|)
    {
      var position := 0;
      while position < |options|
        invariant 0 <= position <= |options|
        invariant titles == PutTitles(old(titles), id, options, position)
      {
        titles := titles[TitleKey(id, position) := Trim(options[position])];
        position := position + 1;
      }
    }

    /** Store a poll with a scheduled status, its titles trimmed and numbered from zero. */
    method Create(graphemes: string -> nat, id: ScheduledId, input: NewPoll) returns (r: Result<(), PollError>)
      requires Valid()
      modifies this
      ensures Valid()
      ensures r.Ok? <==> Validate(graphemes, input).Ok? && id !in old(headers)
      ensures r.Err? ==>
          Contents() == old(Contents()) && r.error == if Validate(graphemes, input).Err?
            then Validate(graphemes, input).error else Database
      ensures r.Ok? ==> Contents() == Shelve(old(Contents()), id, input)
    {
      var valid := Validate(graphemes, input);
      if valid.Err? {
        return Err(valid.error);
      }
      if id in headers {
        return Err(Database);
      }
      ShelvedReferences(Contents(), id, input);
      headers := headers[id := Header(input.multiple, input.hideTotals, input.expiresIn)];
      InsertTitles(id, input.options);
      return Ok(());
    }
  }

  /** Storing and loading gives back the input with its titles trimmed. */
  lemma ScheduledRoundTrip(before: Shelf, after: Shelf, id: ScheduledId, input: NewPoll)
    requires Stored(before, after, id, input)
    ensures Load(after, id) == Some(TrimmedPoll(input))
    ensures forall other :: other != id ==> Load(after, other) == Load(before, other)
  {
    StoredInOrder(before, after, id, input);
    forall other | other != id
      ensures Load(after, other) == Load(before, other)
    {
      OthersLoadSame(before, after, id, input, other);
    }
  }

  lemma StoredInOrder(before: Shelf, after: Shelf, id: ScheduledId, input: NewPoll)
    requires Stored(before, after, id, input)
    ensures TitlesInOrder(after, id) == Trimmed(input.options)
  {
    forall q
      ensures q in PositionsOf(after, id) <==> 0 <= q < |input.options|
    {
      PositionHasTitle(after, id, q);
    }
    AscendingSegment(PositionsOf(after, id), |input.options|);
  }

  lemma OthersLoadSame(before: Shelf, after: Shelf, id: ScheduledId, input: NewPoll, other: ScheduledId)
    requires Stored(before, after, id, input) && other != id
    ensures Load(after, other) == Load(before, other)
  {
    forall q
      ensures q in PositionsOf(after, other) <==> q in PositionsOf(before, other)
    {
      PositionHasTitle(after, other, q);
      PositionHasTitle(before, other, q);
      assert TitleKey(other, q) in after.titles <==> TitleKey(other, q) in before.titles;
    }
    OrderIsUnique(Ascending(PositionsOf(after, other)), Ascending(PositionsOf(before, other)));
    assert TitlesInOrder(after, other) == TitlesInOrder(before, other);
  }

  lemma TrimmedTwice(titles: seq<string>)
    ensures Trimmed(Trimmed(titles)) == Trimmed(titles)
  {
    forall i | 0 <= i < |titles|
      ensures Trimmed(Trimmed(titles))[i] == Trimmed(titles)[i]
    {
      TrimIdempotent(titles[i]);
    }
  }

  /** The stored poll passes validation, or fails it with the same error, exactly as the input does. */
  lemma StoredValidatesAlike(graphemes: string -> nat, input: NewPoll)
    ensures Validate(graphemes, TrimmedPoll(input)) == Validate(graphemes, input)
  {
    TrimmedTwice(input.options);
  }

  /** Publishing the stored poll leaves the very tables that publishing the input would have left. */
  lemma PublishingStoredIsDirect(env: Instance, db: Db, id: PollId, status: StatusId, input: NewPoll, now: Time)
    ensures CreateLocalPoll(env, db, id, status, TrimmedPoll(input), now) ==
        CreateLocalPoll(env, db, id, status, input, now)
  {
    StoredValidatesAlike(env.graphemes, input);
    if Validate(env.graphemes, input).Ok? {
      SameRowsInserted(id, input.options);
    }
  }

  lemma SameRowsInserted(p: PollId, titles: seq<string>)
    ensures forall d: Db :: InsertSlots(d, p, ZeroRows(Trimmed(titles))) == InsertSlots(d, p, ZeroRows(titles))
  {
    forall d: Db
      ensures InsertSlots(d, p, ZeroRows(Trimmed(titles))) == InsertSlots(d, p, ZeroRows(titles))
    {
      var a, b := InsertSlots(d, p, ZeroRows(Trimmed(titles))), InsertSlots(d, p, ZeroRows(titles));
      forall s | s in a.options
        ensures s in b.options && a.options[s] == b.options[s]
      {
        if s.poll == p && 0 <= s.position < |titles| {
          TrimIdempotent(titles[s.position]);
        }
      }
      assert a.options == b.options;
    }
  }
}
