/**
 When reordering works, what it results in, and what rule positions look like in every run.
 */
module RuleOrder {
  import opened Prelude
  import opened Text
  import opened Ordering
  import opened InstanceRules

  /** Beyond this many rules the temporary positions saturate. */
  const MAX_TEMPORARY: nat := 2_146_483_648

  // ---------------------------------------------------------------- one pass

  lemma PositionExact(temporary: bool, i: nat)
    ensures i < MAX_TEMPORARY ==> Position(temporary, i) == (if temporary then TEMPORARY_BASE + i else i)
    ensures Position(true, MAX_TEMPORARY) == Position(true, MAX_TEMPORARY - 1)
  {
  }

  /** How far a pass has come: the first `n` rules have their new position, the others the old one. */
  ghost predicate Placed(rules: Rules, rules': Rules, ordered: seq<RuleId>, n: nat, temporary: bool) {
    && n <= |ordered|
    && (forall i :: 0 <= i < |ordered| ==> ordered[i] in rules && ordered[i] in rules')
    && (forall i :: 0 <= i < n ==> rules'[ordered[i]].position == Position(temporary, i))
    && (forall i :: n <= i < |ordered| ==> rules'[ordered[i]].position == rules[ordered[i]].position)
  }

  lemma {:induction false} PassPlaces(rules: Rules, ordered: seq<RuleId>, n: nat, temporary: bool)
    requires CompleteOrder(rules, ordered) && n <= |ordered|
    requires MoveAll(rules, ordered, n, temporary).Some?
    ensures Placed(rules, MoveAll(rules, ordered, n, temporary).value, ordered, n, temporary)
  {
    CompleteOrderMeans(rules, ordered);
    if n > 0 {
      PassPlaces(rules, ordered, n - 1, temporary);
    }
  }

  /** The write of rule `n` succeeds exactly when no rule still waiting has the position it takes. */
  lemma FreeIff(rules: Rules, now: Rules, ordered: seq<RuleId>, n: nat, temporary: bool)
    requires CompleteOrder(rules, ordered) && n < |ordered|
    requires OnlyMoved(rules, now, ordered) && Placed(rules, now, ordered, n, temporary)
    ensures Free(now, ordered[n], Position(temporary, n)) <==>
              && Position(temporary, n) >= 0
              && (forall i :: 0 <= i < n ==> Position(temporary, i) != Position(temporary, n))
              && (forall j :: n < j < |ordered| ==> rules[ordered[j]].position != Position(temporary, n))
  {
    CompleteOrderMeans(rules, ordered);
    assert forall id :: Active(now, id) <==> Active(rules, id);
    if Free(now, ordered[n], Position(temporary, n)) {
      forall i | 0 <= i < n
        ensures Position(temporary, i) != Position(temporary, n)
      {
        assert Active(now, ordered[i]) && ordered[i] != ordered[n];
      }
      forall j | n < j < |ordered|
        ensures rules[ordered[j]].position != Position(temporary, n)
      {
        assert Active(now, ordered[j]) && ordered[j] != ordered[n];
      }
    }
  }

  // ---------------------------------------------------------------- both passes

  /** No rule is still sitting on a temporary position when an earlier one in the order needs it. */
  ghost predicate NoClash(rules: Rules, ordered: seq<RuleId>) {
    forall j :: 0 <= j < |ordered| && ordered[j] in rules ==>
        !(TEMPORARY_BASE <= rules[ordered[j]].position < TEMPORARY_BASE + j)
  }

  lemma {:induction false} FirstPassSucceeds(rules: Rules, ordered: seq<RuleId>, n: nat)
    requires CompleteOrder(rules, ordered) && n <= |ordered| <= MAX_TEMPORARY && NoClash(rules, ordered)
    ensures MoveAll(rules, ordered, n, true).Some?
  {
    CompleteOrderMeans(rules, ordered);
    if n > 0 {
      FirstPassSucceeds(rules, ordered, n - 1);
      PassPlaces(rules, ordered, n - 1, true);
      MovesOnly(rules, ordered, n - 1, true);
      FreeIff(rules, MoveAll(rules, ordered, n - 1, true).value, ordered, n - 1, true);
      forall i: nat | i < n
        ensures Position(true, i) == TEMPORARY_BASE + i
      {
        PositionExact(true, i);
      }
    }
  }

  lemma FirstPassNeeds(rules: Rules, ordered: seq<RuleId>, n: nat)
    requires CompleteOrder(rules, ordered) && n < |ordered| && MoveAll(rules, ordered, |ordered|, true).Some?
    ensures forall i :: 0 <= i < n ==> Position(true, i) != Position(true, n)
    ensures forall j :: n < j < |ordered| ==> ordered[j] in rules && rules[ordered[j]].position != Position(true, n)
  {
    CompleteOrderMeans(rules, ordered);
    if MoveAll(rules, ordered, n + 1, true).None? {
      StuckAt(rules, ordered, n + 1, true);
    }
    PassPlaces(rules, ordered, n, true);
    MovesOnly(rules, ordered, n, true);
    FreeIff(rules, MoveAll(rules, ordered, n, true).value, ordered, n, true);
  }

  lemma FirstPassIff(rules: Rules, ordered: seq<RuleId>)
    requires CompleteOrder(rules, ordered)
    ensures MoveAll(rules, ordered, |ordered|, true).Some? <==> |ordered| <= MAX_TEMPORARY && NoClash(rules, ordered)
  {
    if |ordered| <= MAX_TEMPORARY && NoClash(rules, ordered) {
      FirstPassSucceeds(rules, ordered, |ordered|);
    }
    if MoveAll(rules, ordered, |ordered|, true).Some? {
      if |ordered| > MAX_TEMPORARY {
        FirstPassNeeds(rules, ordered, MAX_TEMPORARY);
        PositionExact(true, 0);
        assert false;
      }
      forall j | 0 <= j < |ordered| && ordered[j] in rules
        ensures !(TEMPORARY_BASE <= rules[ordered[j]].position < TEMPORARY_BASE + j)
      {
        var i := rules[ordered[j]].position - TEMPORARY_BASE;
        if 0 <= i < j {
          FirstPassNeeds(rules, ordered, i);
          PositionExact(true, i);
          assert false;
        }
      }
    }
  }

  /** Coming from the temporary positions, no write of the second pass can collide. */
  lemma {:induction false} SecondPassSucceeds(rules: Rules, ordered: seq<RuleId>, n: nat)
    requires CompleteOrder(rules, ordered) && n <= |ordered| <= MAX_TEMPORARY
    requires forall i :: 0 <= i < |ordered| ==> ordered[i] in rules && rules[ordered[i]].position == TEMPORARY_BASE + i
    ensures MoveAll(rules, ordered, n, false).Some?
  {
    if n > 0 {
      SecondPassSucceeds(rules, ordered, n - 1);
      PassPlaces(rules, ordered, n - 1, false);
      MovesOnly(rules, ordered, n - 1, false);
      FreeIff(rules, MoveAll(rules, ordered, n - 1, false).value, ordered, n - 1, false);
      forall i: nat | i < n
        ensures Position(false, i) == i
      {
        PositionExact(false, i);
      }
    }
  }

  lemma MovedOrderComplete(rules: Rules, moved: Rules, ordered: seq<RuleId>)
    requires CompleteOrder(rules, ordered) && OnlyMoved(rules, moved, ordered)
    ensures CompleteOrder(moved, ordered)
  {
    assert ActiveIds(moved) == ActiveIds(rules);
  }

  lemma Temporary(rules: Rules, ordered: seq<RuleId>)
    requires CompleteOrder(rules, ordered) && |ordered| <= MAX_TEMPORARY && NoClash(rules, ordered)
    ensures var moved := MoveAll(rules, ordered, |ordered|, true);
            && moved.Some? && CompleteOrder(moved.value, ordered) && OnlyMoved(rules, moved.value, ordered)
            && forall i :: 0 <= i < |ordered| ==>
                ordered[i] in moved.value && moved.value[ordered[i]].position == TEMPORARY_BASE + i
  {
    FirstPassIff(rules, ordered);
    var moved := MoveAll(rules, ordered, |ordered|, true).value;
    PassPlaces(rules, ordered, |ordered|, true);
    MovesOnly(rules, ordered, |ordered|, true);
    MovedOrderComplete(rules, moved, ordered);
    forall i | 0 <= i < |ordered|
      ensures moved[ordered[i]].position == TEMPORARY_BASE + i
    {
      PositionExact(true, i);
    }
  }

  /**
   Reordering succeeds exactly for a complete order of not too many rules in which no rule holds the
   temporary position of one ordered before it.
   */
  lemma ReorderSucceedsIff(rules: Rules, ordered: seq<RuleId>)
    ensures Reorder(rules, ordered).Ok? <==>
        CompleteOrder(rules, ordered) && |ordered| <= MAX_TEMPORARY && NoClash(rules, ordered)
    ensures Reorder(rules, ordered) == Err(InvalidOrder) <==> !CompleteOrder(rules, ordered)
    ensures Reorder(rules, ordered).Err? && CompleteOrder(rules, ordered) ==> Reorder(rules, ordered) == Err(Database)
  {
    if CompleteOrder(rules, ordered) {
      FirstPassIff(rules, ordered);
      if |ordered| <= MAX_TEMPORARY && NoClash(rules, ordered) {
        Temporary(rules, ordered);
        SecondPassSucceeds(MoveAll(rules, ordered, |ordered|, true).value, ordered, |ordered|);
      }
    }
  }

  /** The rules as clients see them: active ones by ascending position. */
  ghost predicate ListedAs(rules: Rules, list: seq<RuleId>) {
    && (forall id :: id in list <==> Active(rules, id))
    && (forall i :: 0 <= i < |list| ==> list[i] in rules)
    && (forall i, j :: 0 <= i < j < |list| ==> rules[list[i]].position < rules[list[j]].position)
  }

  /** There is only one such list. */
  lemma ListingIsUnique(rules: Rules, a: seq<RuleId>, b: seq<RuleId>)
    requires Indexed(rules) && ListedAs(rules, a) && ListedAs(rules, b)
    ensures a == b
  {
    var pa := seq(|a|, i requires 0 <= i < |a| => rules[a[i]].position);
    var pb := seq(|b|, i requires 0 <= i < |b| => rules[b[i]].position);
    SamePositions(rules, a, b, pa, pb);
    SamePositions(rules, b, a, pb, pa);
    OrderIsUnique(pa, pb);
    forall i | 0 <= i < |a|
      ensures a[i] == b[i]
    {
      assert pa[i] == pb[i];
      assert a[i] in a && b[i] in b;
    }
  }

  lemma SamePositions(rules: Rules, a: seq<RuleId>, b: seq<RuleId>, pa: seq<int>, pb: seq<int>)
    requires ListedAs(rules, a) && ListedAs(rules, b) && |pa| == |a| && |pb| == |b|
    requires forall i :: 0 <= i < |a| ==> pa[i] == rules[a[i]].position
    requires forall i :: 0 <= i < |b| ==> pb[i] == rules[b[i]].position
    ensures forall x :: x in pa ==> x in pb
  {
    forall x | x in pa
      ensures x in pb
    {
      var i :| 0 <= i < |pa| && pa[i] == x;
      assert a[i] in a;
      var j :| 0 <= j < |b| && b[j] == a[i];
      assert pb[j] == x;
    }
  }

  /**
   The result: the rules are listed in exactly the supplied order, at positions 0..n-1; nothing but
   positions of active rules changed.
   */
  lemma ReorderResult(rules: Rules, ordered: seq<RuleId>)
    requires Reorder(rules, ordered).Ok?
    ensures var r := Reorder(rules, ordered).value;
            && ListedAs(r, ordered)
            && OnlyMoved(rules, r, ordered)
            && (forall i :: 0 <= i < |ordered| ==> r[ordered[i]].position == i)
            && (forall id :: id in rules && rules[id].discarded ==> r[id] == rules[id])
  {
    ReorderSucceedsIff(rules, ordered);
    Temporary(rules, ordered);
    var moved := MoveAll(rules, ordered, |ordered|, true).value;
    var r := Reorder(rules, ordered).value;
    PassPlaces(moved, ordered, |ordered|, false);
    MovesOnly(moved, ordered, |ordered|, false);
    CompleteOrderMeans(rules, ordered);
    forall i: nat | i < |ordered|
      ensures Position(false, i) == i
    {
      PositionExact(false, i);
    }
    assert OnlyMoved(rules, r, ordered);
    assert forall id :: Active(r, id) <==> Active(rules, id);
  }

  /** Below the temporary base nothing can go wrong: every complete order is accepted. */
  lemma RoomyReorder(rules: Rules, ordered: seq<RuleId>)
    requires Indexed(rules) && forall id :: Active(rules, id) ==> rules[id].position < TEMPORARY_BASE
    ensures Reorder(rules, ordered).Ok? <==> CompleteOrder(rules, ordered)
  {
    ReorderSucceedsIff(rules, ordered);
    if CompleteOrder(rules, ordered) {
      CompleteOrderMeans(rules, ordered);
      var positions := seq(|ordered|, i requires 0 <= i < |ordered| => rules[ordered[i]].position);
      DistinctSize(positions);
      Pigeonholes(Elements(positions), TEMPORARY_BASE);
    }
  }

  lemma {:induction false} Pigeonholes(keys: set<int>, n: nat)
    requires forall x :: x in keys ==> 0 <= x < n
    ensures |keys| <= n
  {
    if n == 0 {
      assert forall x :: x !in keys;
      assert keys == {};
    } else {
      Pigeonholes(keys - {n - 1}, n - 1);
    }
  }

  /** Without room the first pass does collide: a rule at the base blocks the one ordered first. */
  lemma CrampedReorder()
    ensures var rules: Rules := map[1 := Rule("a", 0, false), 2 := Rule("b", 1_000_000, false)];
            && Indexed(rules) && CompleteOrder(rules, [1, 2]) && CompleteOrder(rules, [2, 1])
            && Reorder(rules, [1, 2]) == Err(Database) && Reorder(rules, [2, 1]).Ok?
  {
    var rules: Rules := map[1 := Rule("a", 0, false), 2 := Rule("b", 1_000_000, false)];
    TwoRules(rules, 1, 2);
    ReorderSucceedsIff(rules, [1, 2]);
    ReorderSucceedsIff(rules, [2, 1]);
  }

  lemma TwoRules(rules: Rules, a: RuleId, b: RuleId)
    requires rules.Keys == {a, b} && a != b && !rules[a].discarded && !rules[b].discarded
    requires rules[a].position == 0 && rules[b].position == TEMPORARY_BASE
    ensures Indexed(rules) && CompleteOrder(rules, [a, b]) && CompleteOrder(rules, [b, a])
    ensures !NoClash(rules, [a, b]) && NoClash(rules, [b, a])
  {
    assert ActiveIds(rules) == {a, b};
    assert multiset({a, b}) == multiset{a, b};
    assert [a, b][1] == b;
  }

  // ---------------------------------------------------------------- runs

  datatype RuleStep =
    | Add(id: RuleId, text: string)
    | Retext(id: RuleId, text: string)
    | Retire(id: RuleId)
    | Rearrange(ordered: seq<RuleId>)

  ghost function Outcome(rules: Rules, step: RuleStep): Result<Rules, RuleError> {
    match step
    case Add(id, text) => Create(rules, id, text)
    case Retext(id, text) => Update(rules, id, text)
    case Retire(id) => Ok(Discard(rules, id))
    case Rearrange(ordered) => Reorder(rules, ordered)
  }

  /** A failed step is rolled back. */
  ghost function Apply(rules: Rules, step: RuleStep): Rules {
    var r := Outcome(rules, step);
    if r.Ok? then r.value else rules
  }

  ghost function Run(rules: Rules, steps: seq<RuleStep>): Rules
    decreases |steps|
  {
    if steps == [] then rules else Run(Apply(rules, steps[0]), steps[1..])
  }

  lemma AddKeepsIndex(rules: Rules, id: RuleId, text: string)
    requires Indexed(rules) && Create(rules, id, text).Ok?
    ensures Indexed(Create(rules, id, text).value)
  {
    NextInRange(rules);
    assert forall b :: Active(rules, b) ==> rules[b].position in ActivePositions(rules);
  }

  lemma StepKeepsIndex(rules: Rules, step: RuleStep)
    requires Indexed(rules)
    ensures Indexed(Apply(rules, step))
  {
    match step
    case Add(id, text) =>
      if Create(rules, id, text).Ok? {
        AddKeepsIndex(rules, id, text);
      }
    case Rearrange(ordered) =>
      if Reorder(rules, ordered).Ok? {
        EveryWriteKeepsIndex(rules, ordered, |ordered|, true);
        EveryWriteKeepsIndex(MoveAll(rules, ordered, |ordered|, true).value, ordered, |ordered|, false);
      }
    case _ =>
  }

  /** In every run active positions stay unique and within the column's range. */
  lemma {:induction false} RunKeepsIndex(rules: Rules, steps: seq<RuleStep>)
    requires Indexed(rules)
    ensures Indexed(Run(rules, steps))
    decreases |steps|
  {
    if steps != [] {
      StepKeepsIndex(rules, steps[0]);
      RunKeepsIndex(Apply(rules, steps[0]), steps[1..]);
    }
  }

  /** Adding a rule fails only on a bad text, a used id, or a rule at the last position there is. */
  lemma CreateSucceedsIff(rules: Rules, id: RuleId, text: string)
    requires Indexed(rules)
    ensures Create(rules, id, text).Ok? <==>
        ValidText(text) && id !in rules && forall b :: Active(rules, b) ==> rules[b].position != I32_MAX
  {
    NextInRange(rules);
  }

  // ---------------------------------------------------------------- runs as edits of a list

  function Without(list: seq<RuleId>, id: RuleId): (r: seq<RuleId>)
    ensures forall x :: x in r <==> x in list && x != id
  {
    if list == [] then []
    else if list[0] == id then Without(list[1..], id)
    else [list[0]] + Without(list[1..], id)
  }

  /** What each successful step means for the list clients see. */
  function Listing(rules: Rules, list: seq<RuleId>, step: RuleStep): seq<RuleId> {
    match step
    case Add(id, _) => list + [id]
    case Retext(_, _) => list
    case Retire(id) => Without(list, id)
    case Rearrange(ordered) => ordered
  }

  lemma {:induction false} WithoutStaysIncreasing(rules: Rules, list: seq<RuleId>, id: RuleId)
    requires forall i :: 0 <= i < |list| ==> list[i] in rules
    requires forall i, j :: 0 <= i < j < |list| ==> rules[list[i]].position < rules[list[j]].position
    ensures forall i :: 0 <= i < |Without(list, id)| ==> Without(list, id)[i] in rules
    ensures forall i, j :: 0 <= i < j < |Without(list, id)| ==>
        rules[Without(list, id)[i]].position < rules[Without(list, id)[j]].position
    decreases |list|
  {
    if list != [] {
      var rest := Without(list[1..], id);
      WithoutStaysIncreasing(rules, list[1..], id);
      forall j | 0 <= j < |rest|
        ensures rest[j] in list[1..] && rules[list[0]].position < rules[rest[j]].position
      {
        assert rest[j] in rest;
        var k :| 0 <= k < |list[1..]| && list[1..][k] == rest[j];
        assert list[k + 1] == rest[j];
      }
    }
  }

  lemma AddAppends(rules: Rules, list: seq<RuleId>, id: RuleId, text: string)
    requires Indexed(rules) && ListedAs(rules, list) && Create(rules, id, text).Ok?
    ensures ListedAs(Create(rules, id, text).value, list + [id])
  {
    NextInRange(rules);
    forall i | 0 <= i < |list|
      ensures rules[list[i]].position < NextPosition(rules)
    {
      assert list[i] in list && rules[list[i]].position in ActivePositions(rules);
    }
  }

  lemma RetireRemoves(rules: Rules, list: seq<RuleId>, id: RuleId)
    requires ListedAs(rules, list)
    ensures ListedAs(Discard(rules, id), Without(list, id))
  {
    WithoutStaysIncreasing(rules, list, id);
    assert forall i :: 0 <= i < |Without(list, id)| ==> Without(list, id)[i] in Without(list, id);
  }

  lemma RetextKeeps(rules: Rules, list: seq<RuleId>, id: RuleId, text: string)
    requires ListedAs(rules, list) && Update(rules, id, text).Ok?
    ensures ListedAs(Update(rules, id, text).value, list)
  {
  }

  /** The table behaves like a list: append, change a text, remove, replace the order. */
  lemma StepEditsList(rules: Rules, list: seq<RuleId>, step: RuleStep)
    requires Indexed(rules) && ListedAs(rules, list)
    ensures ListedAs(Apply(rules, step), if Outcome(rules, step).Ok? then Listing(rules, list, step) else list)
  {
    if Outcome(rules, step).Ok? {
      match step
      case Add(id, text) => AddAppends(rules, list, id, text);
      case Retext(id, text) => RetextKeeps(rules, list, id, text);
      case Retire(id) => RetireRemoves(rules, list, id);
      case Rearrange(ordered) => ReorderResult(rules, ordered);
    }
  }

  ghost function ListAfter(rules: Rules, list: seq<RuleId>, steps: seq<RuleStep>): seq<RuleId>
    decreases |steps|
  {
    if steps == [] then list
    else ListAfter(Apply(rules, steps[0]),
        if Outcome(rules, steps[0]).Ok? then Listing(rules, list, steps[0]) else list, steps[1..])
  }

  /** In every run, the rules listed by position are the list obtained by those edits. */
  lemma {:induction false} RunEditsList(rules: Rules, list: seq<RuleId>, steps: seq<RuleStep>)
    requires Indexed(rules) && ListedAs(rules, list)
    ensures ListedAs(Run(rules, steps), ListAfter(rules, list, steps))
    decreases |steps|
  {
    if steps != [] {
      StepKeepsIndex(rules, steps[0]);
      StepEditsList(rules, list, steps[0]);
      RunEditsList(Apply(rules, steps[0]),
          if Outcome(rules, steps[0]).Ok? then Listing(rules, list, steps[0]) else list, steps[1..]);
    }
  }

  // ---------------------------------------------------------------- how large positions get

  /** The number of rules at the last successful reorder plus the rules added since. */
  ghost function NextBound(rules: Rules, bound: nat, step: RuleStep): nat {
    if Outcome(rules, step).Err? then bound
    else match step
      case Add(_, _) => bound + 1
      case Rearrange(ordered) => |ordered|
      case _ => bound
  }

  ghost function BoundAfter(rules: Rules, bound: nat, steps: seq<RuleStep>): nat
    decreases |steps|
  {
    if steps == [] then bound else BoundAfter(Apply(rules, steps[0]), NextBound(rules, bound, steps[0]), steps[1..])
  }

  ghost predicate Below(rules: Rules, bound: nat) {
    forall id :: Active(rules, id) ==> rules[id].position < bound
  }

  lemma StepStaysBelow(rules: Rules, bound: nat, step: RuleStep)
    requires Indexed(rules) && Below(rules, bound)
    ensures Below(Apply(rules, step), NextBound(rules, bound, step))
  {
    match step
    case Add(_, _) =>
      assert forall p :: p in ActivePositions(rules) ==> p < bound;
    case Rearrange(ordered) =>
      if Reorder(rules, ordered).Ok? {
        ReorderResult(rules, ordered);
        var r := Reorder(rules, ordered).value;
        forall id | Active(r, id)
          ensures r[id].position < |ordered|
        {
          assert id in ordered;
        }
      }
    case _ =>
  }

  /** In every run the largest position is below the rules last reordered plus those added since. */
  lemma {:induction false} PositionsStayBelow(rules: Rules, bound: nat, steps: seq<RuleStep>)
    requires Indexed(rules) && Below(rules, bound)
    ensures Below(Run(rules, steps), BoundAfter(rules, bound, steps))
    decreases |steps|
  {
    if steps != [] {
      StepKeepsIndex(rules, steps[0]);
      StepStaysBelow(rules, bound, steps[0]);
      PositionsStayBelow(Apply(rules, steps[0]), NextBound(rules, bound, steps[0]), steps[1..]);
    }
  }

  /** So a run that reorders now and then never sees a collision. */
  lemma ReorderAlwaysWorksInRoomyRuns(steps: seq<RuleStep>, ordered: seq<RuleId>)
    requires BoundAfter(map[], 0, steps) <= TEMPORARY_BASE
    ensures Reorder(Run(map[], steps), ordered).Ok? <==> CompleteOrder(Run(map[], steps), ordered)
  {
    RunKeepsIndex(map[], steps);
    PositionsStayBelow(map[], 0, steps);
    RoomyReorder(Run(map[], steps), ordered);
  }

  // ---------------------------------------------------------------- contiguity

  /** Active positions are exactly 0..n-1. */
  ghost predicate Contiguous(rules: Rules, n: nat) {
    forall p :: p in ActivePositions(rules) <==> 0 <= p < n
  }

  lemma ReorderIsContiguous(rules: Rules, ordered: seq<RuleId>)
    requires Reorder(rules, ordered).Ok?
    ensures Contiguous(Reorder(rules, ordered).value, |ordered|)
  {
    ReorderResult(rules, ordered);
    var r := Reorder(rules, ordered).value;
    forall p
      ensures p in ActivePositions(r) <==> 0 <= p < |ordered|
    {
      if 0 <= p < |ordered| {
        assert ordered[p] in ordered && Active(r, ordered[p]) && r[ordered[p]].position == p;
      }
      if p in ActivePositions(r) {
        var id :| id in r && !r[id].discarded && r[id].position == p;
        assert Active(r, id) && id in ordered;
      }
    }
  }

  lemma CreateIsContiguous(rules: Rules, id: RuleId, text: string, n: nat)
    requires Contiguous(rules, n) && Create(rules, id, text).Ok?
    ensures Contiguous(Create(rules, id, text).value, n + 1)
  {
    var r := Create(rules, id, text).value;
    if n > 0 {
      assert n - 1 in ActivePositions(rules);
      GreatestIs(ActivePositions(rules), n - 1);
    } else {
      assert ActivePositions(rules) == {} by {
        assert forall p :: p !in ActivePositions(rules);
      }
    }
    assert ActivePositions(r) == ActivePositions(rules) + {n} by {
      assert r[id].position == n;
      forall p | p in ActivePositions(rules)
        ensures p in ActivePositions(r)
      {
        var b :| b in rules && !rules[b].discarded && rules[b].position == p;
        assert b in r && !r[b].discarded && r[b].position == p;
      }
    }
  }

  lemma UpdateKeepsPositions(rules: Rules, id: RuleId, text: string)
    requires Update(rules, id, text).Ok?
    ensures ActivePositions(Update(rules, id, text).value) == ActivePositions(rules)
  {
    var r := Update(rules, id, text).value;
    assert r.Keys == rules.Keys;
    assert forall b :: b in rules ==> r[b].position == rules[b].position && r[b].discarded == rules[b].discarded;
  }

  /**
   Without discards a contiguous list stays contiguous and its length is the bound, so the bound on
   positions is attained.
   */
  lemma {:induction false} ContiguousWithoutDiscards(rules: Rules, n: nat, steps: seq<RuleStep>)
    requires Contiguous(rules, n) && forall i :: 0 <= i < |steps| ==> !steps[i].Retire?
    ensures Contiguous(Run(rules, steps), BoundAfter(rules, n, steps))
    decreases |steps|
  {
    if steps != [] {
      var step := steps[0];
      if Outcome(rules, step).Ok? {
        match step
        case Add(id, text) => CreateIsContiguous(rules, id, text, n);
        case Retext(id, text) => UpdateKeepsPositions(rules, id, text);
        case Retire(id) =>
        case Rearrange(ordered) => ReorderIsContiguous(rules, ordered);
      }
      ContiguousWithoutDiscards(Apply(rules, step), NextBound(rules, n, step), steps[1..]);
    }
  }

  /** A discard keeps the list contiguous exactly when it takes the last rule. */
  lemma DiscardKeepsContiguityIff(rules: Rules, n: nat, id: RuleId)
    requires Indexed(rules) && Contiguous(rules, n) && Active(rules, id)
    ensures (exists m :: Contiguous(Discard(rules, id), m)) <==> rules[id].position == n - 1
  {
    var r := Discard(rules, id);
    var p := rules[id].position;
    assert p in ActivePositions(rules);
    DiscardedPositions(rules, id);
    if p == n - 1 {
      assert Contiguous(r, n - 1);
    }
    if m :| Contiguous(r, m) {
      assert n - 1 in ActivePositions(rules);
      assert p !in ActivePositions(r);
      assert p != n - 1 ==> n - 1 in ActivePositions(r);
    }
  }

  lemma DiscardedPositions(rules: Rules, id: RuleId)
    requires Indexed(rules) && Active(rules, id)
    ensures ActivePositions(Discard(rules, id)) == ActivePositions(rules) - {rules[id].position}
  {
    var r := Discard(rules, id);
    forall p
      ensures p in ActivePositions(r) <==> p in ActivePositions(rules) && p != rules[id].position
    {
      if p in ActivePositions(r) {
        var b :| b in r && !r[b].discarded && r[b].position == p;
        assert Active(rules, b) && b != id;
      }
      if p in ActivePositions(rules) && p != rules[id].position {
        var b :| b in rules && !rules[b].discarded && rules[b].position == p;
        assert b in r && !r[b].discarded && r[b].position == p;
      }
    }
  }
}
