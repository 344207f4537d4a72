/** What each change of the instance rules does to the rows, and when it is turned away. */
module RuleEffects {
  import opened Prelude
  import opened Text
  import opened Ordering
  import opened InstanceRules
  import opened RuleOrder

  /** No characters between the blank ends, or more than 300. */
  predicate BadText(text: string) {
    |Trim(text)| == 0 || |Trim(text)| > 300
  }

  /** Listed to clients: there and not retired. */
  predicate Shown(rules: Rules, id: RuleId) {
    id in rules && rules[id].discarded == false
  }

  /** One row was written, the others are as before. */
  ghost predicate OnlyRule(rules: Rules, rules': Rules, id: RuleId, rule: Rule) {
    && (forall other :: other in rules' <==> other in rules || other == id)
    && (forall other :: other in rules && other != id ==> rules'[other] == rules[other])
    && id in rules' && rules'[id] == rule
  }

  /**
   A rule is added at the end: after all shown ones and at zero when there is none, with its text
   trimmed. It is turned away for its text, a used id, or a shown rule at the last position there is.
   */
  lemma AddedRule(rules: Rules, id: RuleId, text: string)
    requires Indexed(rules)
    ensures var r := Create(rules, id, text);
            if BadText(text) then r == Err(InvalidText)
            else if id in rules || (exists b :: Shown(rules, b) && rules[b].position == 2_147_483_647)
              then r == Err(Database)
            else
              && r.Ok?
              && id in r.value && OnlyRule(rules, r.value, id,
                  Rule(text := Trim(text), position := r.value[id].position, discarded := false))
              && if exists b :: Shown(rules, b) then
                   && (forall b :: Shown(rules, b) ==> rules[b].position < r.value[id].position)
                   && (exists b :: Shown(rules, b) && rules[b].position + 1 == r.value[id].position)
                 else r.value[id].position == 0
  {
    NextInRange(rules);
    CreateSucceedsIff(rules, id, text);
    assert forall b :: Shown(rules, b) <==> Active(rules, b);
    forall b | Shown(rules, b)
      ensures rules[b].position in ActivePositions(rules)
    {
    }
    if ActivePositions(rules) != {} && Create(rules, id, text).Ok? {
      LastShown(rules);
    }
  }

  lemma LastShown(rules: Rules)
    requires Indexed(rules) && ActivePositions(rules) != {} && NextPosition(rules) !in ActivePositions(rules)
    ensures forall b :: Shown(rules, b) ==> rules[b].position < NextPosition(rules)
    ensures exists b :: Shown(rules, b) && rules[b].position + 1 == NextPosition(rules)
  {
    var last := Greatest(ActivePositions(rules));
    var b :| b in rules && !rules[b].discarded && rules[b].position == last;
    assert Shown(rules, b);
    assert forall c :: Shown(rules, c) ==> rules[c].position in ActivePositions(rules);
  }

  /** A shown rule gets the trimmed text and keeps everything else; no other rule changes. */
  lemma RetextedRule(rules: Rules, id: RuleId, text: string)
    ensures var r := Update(rules, id, text);
            if BadText(text) then r == Err(InvalidText)
            else if !Shown(rules, id) then r == Ok(rules)
            else r.Ok? && OnlyRule(rules, r.value, id,
                Rule(text := Trim(text), position := rules[id].position, discarded := false))
  {
  }

  /** A shown rule is retired and keeps everything else; no other rule changes. */
  lemma RetiredRule(rules: Rules, id: RuleId)
    ensures var r := Discard(rules, id);
            if !Shown(rules, id) then r == rules
            else OnlyRule(rules, r, id,
                Rule(text := rules[id].text, position := rules[id].position, discarded := true))
  {
  }

  /** An order is complete when it names every shown rule, nothing else, and nothing twice. */
  lemma CompleteOrderIff(rules: Rules, ordered: seq<RuleId>)
    ensures CompleteOrder(rules, ordered) <==>
        && (forall i :: 0 <= i < |ordered| ==> Shown(rules, ordered[i]))
        && (forall i, j :: 0 <= i < j < |ordered| ==> ordered[i] != ordered[j])
        && (forall id :: Shown(rules, id) ==> id in ordered)
  {
    assert forall id :: Shown(rules, id) <==> Active(rules, id);
    if CompleteOrder(rules, ordered) {
      CompleteOrderMeans(rules, ordered);
    }
    if Distinct(ordered) && forall id :: Shown(rules, id) <==> id in ordered {
      DistinctCounts(ordered);
      forall id: RuleId
        ensures multiset(ordered)[id] == multiset(ActiveIds(rules))[id]
      {
        assert id in ActiveIds(rules) <==> Shown(rules, id);
      }
    }
  }

  lemma {:induction false} DistinctCounts<T>(s: seq<T>)
    requires Distinct(s)
    ensures forall x :: multiset(s)[x] == if x in s then 1 else 0
  {
    if s != [] {
      var front, last := s[..|s| - 1], s[|s| - 1];
      DistinctCounts(front);
      assert s == front + [last];
      assert last !in front;
    }
  }

  /** The rule sits on one of the temporary positions, counted from a million, before its own. */
  predicate InTheWay(rules: Rules, ordered: seq<RuleId>, j: nat)
    requires j < |ordered|
  {
    ordered[j] in rules && 1_000_000 <= rules[ordered[j]].position < 1_000_000 + j
  }

  /** Each rule named has its index as position and its old text; the rules not named are as before. */
  ghost predicate Rearranged(rules: Rules, rules': Rules, ordered: seq<RuleId>) {
    && rules'.Keys == rules.Keys
    && (forall i :: 0 <= i < |ordered| ==>
        && ordered[i] in rules
        && rules'[ordered[i]] == Rule(text := rules[ordered[i]].text, position := i, discarded := false))
    && (forall id :: id in rules && id !in ordered ==> rules'[id] == rules[id])
  }

  /**
   A complete order is refused exactly when there are more than 2 146 483 648 rules, or some rule holds
   the temporary position of one named before it.
   */
  lemma RearrangedRules(rules: Rules, ordered: seq<RuleId>)
    ensures var r := Reorder(rules, ordered);
            if !CompleteOrder(rules, ordered) then r == Err(InvalidOrder)
            else if |ordered| > 2_146_483_648 || exists j :: 0 <= j < |ordered| && InTheWay(rules, ordered, j)
              then r == Err(Database)
            else r.Ok? && Rearranged(rules, r.value, ordered)
  {
    ReorderSucceedsIff(rules, ordered);
    ClashIff(rules, ordered);
    if Reorder(rules, ordered).Ok? {
      ReorderedRows(rules, ordered);
    }
  }

  lemma ClashIff(rules: Rules, ordered: seq<RuleId>)
    ensures NoClash(rules, ordered) <==> !exists j :: 0 <= j < |ordered| && InTheWay(rules, ordered, j)
  {
    forall j | 0 <= j < |ordered|
      ensures InTheWay(rules, ordered, j) <==>
          ordered[j] in rules && TEMPORARY_BASE <= rules[ordered[j]].position < TEMPORARY_BASE + j
    {
    }
  }

  lemma ReorderedRows(rules: Rules, ordered: seq<RuleId>)
    requires Reorder(rules, ordered).Ok?
    ensures Rearranged(rules, Reorder(rules, ordered).value, ordered)
  {
    ReorderResult(rules, ordered);
    CompleteOrderMeans(rules, ordered);
    var r := Reorder(rules, ordered).value;
    forall i | 0 <= i < |ordered|
      ensures ordered[i] in rules
      ensures r[ordered[i]] == Rule(text := rules[ordered[i]].text, position := i, discarded := false)
    {
      assert Active(rules, ordered[i]);
    }
  }
}
