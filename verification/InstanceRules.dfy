/**
 The instance's rules and their order.

 Positions of active rules are unique, which the database checks on every single write, not at the
 end of a transaction. Reordering therefore moves every rule out of the way first. `RuleTable`
 performs the writes one by one; the lemmas say when that works, what the result is, and what
 positions look like in any run.
 */
module InstanceRules {
  import opened Prelude
  import opened Text
  import opened Ordering

  type RuleId = nat

  datatype Rule = Rule(text: string, position: int, discarded: bool)

  type Rules = map<RuleId, Rule>

  datatype RuleError = InvalidText | InvalidOrder | Database

  const I32_MAX: int := 0x7FFF_FFFF
  const TEMPORARY_BASE: int := 1_000_000
  const MAX_RULE_CHARS: nat := 300

  predicate Active(rules: Rules, id: RuleId) {
    id in rules && !rules[id].discarded
  }

  ghost function ActiveIds(rules: Rules): set<RuleId> {
    set id | id in rules && !rules[id].discarded
  }

  /** The unique index over active positions, and the column's range. */
  ghost predicate Indexed(rules: Rules) {
    && (forall a, b :: Active(rules, a) && Active(rules, b) && rules[a].position == rules[b].position ==> a == b)
    && (forall a :: a in rules ==> 0 <= rules[a].position <= I32_MAX)
  }

  function SaturatingAdd(a: int, b: int): int {
    Min(a + b, I32_MAX)
  }

  /** `index as i32`, which wraps. */
  function IndexAsI32(i: nat): int {
    var low := i % 0x1_0000_0000;
    if low <= I32_MAX then low else low - 0x1_0000_0000
  }

  function TemporaryPosition(i: nat): int {
    SaturatingAdd(TEMPORARY_BASE, IndexAsI32(i))
  }

  function Position(temporary: bool, i: nat): (r: int)
    ensures r <= I32_MAX
  {
    if temporary then TemporaryPosition(i) else IndexAsI32(i)
  }

  // ---------------------------------------------------------------- transactions

  predicate ValidText(text: string) {
    1 <= |Trim(text)| <= MAX_RULE_CHARS
  }

  /** No other active rule has this position and the column allows it. */
  ghost predicate Free(rules: Rules, id: RuleId, position: int) {
    position >= 0 && forall b :: Active(rules, b) && rules[b].position == position ==> b == id
  }

  /** One `UPDATE … SET position`, rejected when it breaks a constraint. */
  ghost function Move(rules: Rules, id: RuleId, position: int): Option<Rules> {
    if id in rules && Free(rules, id, position) then Some(rules[id := rules[id].(position := position)]) else None
  }

  /** The first `n` writes of one pass over the supplied order. */
  ghost function MoveAll(rules: Rules, ordered: seq<RuleId>, n: nat, temporary: bool): Option<Rules>
    requires n <= |ordered|
  {
    if n == 0 then Some(rules)
    else
      var before := MoveAll(rules, ordered, n - 1, temporary);
      if before.None? then None else Move(before.value, ordered[n - 1], Position(temporary, n - 1))
  }

  /** The two tables differ in positions of the listed rules only. */
  ghost predicate OnlyMoved(rules: Rules, rules': Rules, ordered: seq<RuleId>) {
    && rules'.Keys == rules.Keys
    && (forall id :: id in rules ==> rules'[id] == rules[id].(position := rules'[id].position))
    && (forall id :: id in rules && id !in ordered ==> rules'[id] == rules[id])
  }

  lemma {:induction false} MovesOnly(rules: Rules, ordered: seq<RuleId>, n: nat, temporary: bool)
    requires n <= |ordered|
    ensures var r := MoveAll(rules, ordered, n, temporary);
            r.Some? ==> OnlyMoved(rules, r.value, ordered)
  {
    if n > 0 {
      MovesOnly(rules, ordered, n - 1, temporary);
    }
  }

  /** Every active rule exactly once. */
  ghost predicate CompleteOrder(rules: Rules, ordered: seq<RuleId>) {
    multiset(ordered) == multiset(ActiveIds(rules))
  }

  lemma CompleteOrderMeans(rules: Rules, ordered: seq<RuleId>)
    requires CompleteOrder(rules, ordered)
    ensures forall i :: 0 <= i < |ordered| ==> Active(rules, ordered[i])
    ensures forall i, j :: 0 <= i < j < |ordered| ==> ordered[i] != ordered[j]
    ensures forall id :: Active(rules, id) ==> id in ordered
  {
    forall i | 0 <= i < |ordered|
      ensures Active(rules, ordered[i])
    {
      assert ordered[i] in multiset(ordered);
    }
    forall i, j | 0 <= i < j < |ordered|
      ensures ordered[i] != ordered[j]
    {
      var id := ordered[i];
      assert multiset(ordered)[id] <= 1;
      assert ordered == ordered[..j] + ordered[j..];
      assert multiset(ordered) == multiset(ordered[..j]) + multiset(ordered[j..]);
      assert ordered[..j][i] == id;
      assert id in multiset(ordered[..j]);
      assert ordered[j..][0] == ordered[j] && ordered[j] in multiset(ordered[j..]);
    }
    forall id | Active(rules, id)
      ensures id in ordered
    {
      assert id in multiset(ActiveIds(rules));
    }
  }

  ghost function Reorder(rules: Rules, ordered: seq<RuleId>): Result<Rules, RuleError> {
    if !CompleteOrder(rules, ordered) then
      Err(InvalidOrder)
    else
      var moved := MoveAll(rules, ordered, |ordered|, true);
      if moved.None? then
        Err(Database)
      else
        var placed := MoveAll(moved.value, ordered, |ordered|, false);
        if placed.None? then Err(Database) else Ok(placed.value)
  }

  ghost function ActivePositions(rules: Rules): set<int> {
    set id | id in rules && !rules[id].discarded :: rules[id].position
  }

  /** One more than the largest active position, saturating; zero when there is no active rule. */
  ghost function NextPosition(rules: Rules): int {
    if ActivePositions(rules) == {} then 0 else SaturatingAdd(Greatest(ActivePositions(rules)), 1)
  }

  ghost function Create(rules: Rules, id: RuleId, text: string): Result<Rules, RuleError> {
    if !ValidText(text) then
      Err(InvalidText)
    else if id in rules || NextPosition(rules) in ActivePositions(rules) then
      Err(Database)
    else
      Ok(rules[id := Rule(Trim(text), NextPosition(rules), false)])
  }

  function Update(rules: Rules, id: RuleId, text: string): Result<Rules, RuleError> {
    if !ValidText(text) then
      Err(InvalidText)
    else if Active(rules, id) then
      Ok(rules[id := rules[id].(text := Trim(text))])
    else
      Ok(rules)
  }

  function Discard(rules: Rules, id: RuleId): Rules {
    if Active(rules, id) then rules[id := rules[id].(discarded := true)] else rules
  }

  // ---------------------------------------------------------------- the table

  class RuleTable {
    var rules: Rules

    constructor ()
      ensures rules == map[]
    {
      rules := map[];
    }

    /** Add a rule after the last active one. */
    method CreateRule(id: RuleId, text: string) returns (r: Result<Rule, RuleError>)
      requires Indexed(rules)
      modifies this
      ensures Indexed(rules)
      ensures r.Ok? ==> Create(old(rules), id, text) == Ok(rules) && Active(rules, id) && r.value == rules[id]
      ensures r.Err? ==> Create(old(rules), id, text) == Err(r.error) && rules == old(rules)
    {
      if !ValidText(text) {
        return Err(InvalidText);
      }
      var next := FindNextPosition();
      NextInRange(rules);
      if id in rules || exists b :: b in rules && Active(rules, b) && rules[b].position == next {
        return Err(Database);
      }
      rules := rules[id := Rule(Trim(text), next, false)];
      return Ok(rules[id]);
    }

    /** `ORDER BY position DESC LIMIT 1` over the active rules, plus one. */
    method FindNextPosition() returns (next: int)
      ensures next == NextPosition(rules)
    {
      var left := set id | id in rules && !rules[id].discarded;
      ghost var all := left;
      var largest: Option<int> := None;
      while left != {}
        invariant left <= all
        invariant largest.None? <==> left == all
        invariant largest.Some? ==> exists b :: b in all - left && rules[b].position == largest.value
        invariant forall b :: b in all - left ==> largest.Some? && rules[b].position <= largest.value
        decreases |left|
      {
        var id: nat :| id in left;
        if largest.None? || rules[id].position > largest.value {
          largest := Some(rules[id].position);
        }
        left := left - {id};
      }
      assert ActivePositions(rules) == set b | b in all :: rules[b].position;
      if largest.Some? {
        GreatestIs(ActivePositions(rules), largest.value);
        next := SaturatingAdd(largest.value, 1);
      } else {
        next := 0;
      }
    }

    /** Change the text of an active rule; identity and order stay. */
    method UpdateRule(id: RuleId, text: string) returns (r: Result<Option<Rule>, RuleError>)
      requires Indexed(rules)
      modifies this
      ensures Indexed(rules)
      ensures r.Ok? ==> Update(old(rules), id, text) == Ok(rules)
      ensures r.Ok? ==> r.value == if Active(old(rules), id) then Some(rules[id]) else None
      ensures r.Err? ==> Update(old(rules), id, text) == Err(r.error) && rules == old(rules)
    {
      if !ValidText(text) {
        return Err(InvalidText);
      }
      if !Active(rules, id) {
        return Ok(None);
      }
      rules := rules[id := rules[id].(text := Trim(text))];
      return Ok(Some(rules[id]));
    }

    /** Retire a rule, keeping its row. */
    method DiscardRule(id: RuleId) returns (r: Option<Rule>)
      requires Indexed(rules)
      modifies this
      ensures Indexed(rules) && rules == Discard(old(rules), id)
      ensures r == if Active(old(rules), id) then Some(rules[id]) else None
    {
      if !Active(rules, id) {
        return None;
      }
      rules := rules[id := rules[id].(discarded := true)];
      return Some(rules[id]);
    }

    /** One checked write of a position. */
    method SetPosition(id: RuleId, position: int) returns (ok: bool)
      modifies this
      ensures ok <==> Move(old(rules), id, position).Some?
      ensures rules == if ok then Move(old(rules), id, position).value else old(rules)
    {
      ok := id in rules && position >= 0 && forall b ::
          b in rules && Active(rules, b) && rules[b].position == position ==> b == id;
      if ok {
        rules := rules[id := rules[id].(position := position)];
      }
    }

    /** One pass of writes in the supplied order; the index holds after each of them. */
    method Place(ordered: seq<RuleId>, temporary: bool) returns (ok: bool)
      requires Indexed(rules)
      modifies this
      ensures ok <==> MoveAll(old(rules), ordered, |ordered|, temporary).Some?
      ensures ok ==> rules == MoveAll(old(rules), ordered, |ordered|, temporary).value && Indexed(rules)
    {
      ghost var before := rules;
      var i := 0;
      while i < |ordered|
        invariant 0 <= i <= |ordered|
        invariant MoveAll(before, ordered, i, temporary) == Some(rules)
        invariant Indexed(rules)
      {
        ok := SetPosition(ordered[i], Position(temporary, i));
        if !ok {
          StuckAt(before, ordered, i + 1, temporary);
          return;
        }
        i := i + 1;
        EveryWriteKeepsIndex(before, ordered, i, temporary);
      }
      return true;
    }

    /** Replace the order of the active rules, or leave everything as it was. */
    method ReorderRules(ordered: seq<RuleId>) returns (r: Result<(), RuleError>)
      requires Indexed(rules)
      modifies this
      ensures Indexed(rules)
      ensures r.Ok? ==> Reorder(old(rules), ordered) == Ok(rules)
      ensures r.Err? ==> Reorder(old(rules), ordered) == Err(r.error) && rules == old(rules)
    {
      var saved := rules;
      var current := set id | id in rules && !rules[id].discarded;
      assert current == ActiveIds(rules);
      if multiset(ordered) != multiset(current) {
        return Err(InvalidOrder);
      }
      var ok := Place(ordered, true);
      if ok {
        ok := Place(ordered, false);
      }
      if !ok {
        rules := saved;
        return Err(Database);
      }
      return Ok(());
    }
  }

  lemma NextInRange(rules: Rules)
    requires Indexed(rules)
    ensures 0 <= NextPosition(rules) <= I32_MAX
    ensures NextPosition(rules) in ActivePositions(rules) <==> I32_MAX in ActivePositions(rules)
    ensures NextPosition(rules) !in ActivePositions(rules) ==>
        forall p :: p in ActivePositions(rules) ==> p < NextPosition(rules)
  {
    assert forall p :: p in ActivePositions(rules) ==> 0 <= p <= I32_MAX;
  }

  lemma WriteKeepsIndex(rules: Rules, id: RuleId, position: int)
    requires Indexed(rules) && position <= I32_MAX
    ensures Move(rules, id, position).Some? ==> Indexed(Move(rules, id, position).value)
  {
  }

  /** The unique index holds after each single write of a pass. */
  lemma {:induction false} EveryWriteKeepsIndex(rules: Rules, ordered: seq<RuleId>, n: nat, temporary: bool)
    requires Indexed(rules) && n <= |ordered|
    ensures MoveAll(rules, ordered, n, temporary).Some? ==> Indexed(MoveAll(rules, ordered, n, temporary).value)
  {
    if n > 0 && MoveAll(rules, ordered, n, temporary).Some? {
      EveryWriteKeepsIndex(rules, ordered, n - 1, temporary);
      WriteKeepsIndex(MoveAll(rules, ordered, n - 1, temporary).value, ordered[n - 1], Position(temporary, n - 1));
    }
  }

  lemma {:induction false} StuckAt(rules: Rules, ordered: seq<RuleId>, n: nat, temporary: bool)
    requires n <= |ordered|
    requires MoveAll(rules, ordered, n, temporary).None?
    ensures MoveAll(rules, ordered, |ordered|, temporary).None?
    decreases |ordered| - n
  {
    if n < |ordered| {
      StuckAt(rules, ordered, n + 1, temporary);
    }
  }
}
