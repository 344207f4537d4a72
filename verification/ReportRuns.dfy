/**
 Reports over any run of rule changes and report transactions.

 Reports keep the text of a rule as it was when the report named it. What administrators later do to
 the rules never reaches a stored report, and a report about a violation always names a rule.
 */
module ReportRuns {
  import opened Prelude
  import opened InstanceRules
  import opened Reports
  import opened ReportStore
  import RuleOrder

  datatype Step =
    | ChangeRules(change: RuleOrder.RuleStep)
    | File(id: ReportId, report: NewReport)
    | Reclassify(id: ReportId, category: Category, ruleIds: seq<RuleId>)
    | AssignTo(id: ReportId, assignee: Option<AccountId>)
    | MarkResolved(id: ReportId, actor: Option<AccountId>)

  /** A failed transaction changes nothing. */
  ghost function Apply(t: Tables, step: Step): Tables {
    match step
    case ChangeRules(change) => t.(rules := RuleOrder.Apply(t.rules, change))
    case File(id, input) => Committed(t, CreateReport(t, id, input))
    case Reclassify(id, category, ruleIds) => Committed(t, UpdateReport(t, id, category, ruleIds))
    case AssignTo(id, assignee) => Assign(t, id, assignee)
    case MarkResolved(id, actor) => Resolve(t, id, actor)
  }

  function Committed(t: Tables, r: Result<Tables, ReportError>): Tables {
    if r.Ok? then r.value else t
  }

  ghost function Run(t: Tables, steps: seq<Step>): Tables
    decreases |steps|
  {
    if steps == [] then t else Run(Apply(t, steps[0]), steps[1..])
  }

  // ---------------------------------------------------------------- what every report satisfies

  /** A snapshot row as it is recorded: a nonempty text of bounded length. */
  ghost predicate RuleTextsValid(rules: Rules) {
    forall id :: id in rules ==> 1 <= |rules[id].text| <= MAX_RULE_CHARS
  }

  ghost predicate ReportValid(t: Tables, id: ReportId)
    requires id in t.reports
  {
    && Consistent(t.reports[id])
    && |t.reports[id].comment| <= MAX_COMMENT_CHARS
    && (t.reports[id].category == Violation ==> Key(id, 0) in t.snapshots)
  }

  ghost predicate Sound(t: Tables) {
    && References(t)
    && RuleTextsValid(t.rules)
    && (forall k :: k in t.snapshots ==> 1 <= |t.snapshots[k].text| <= MAX_RULE_CHARS)
    && (forall id :: id in t.reports ==> ReportValid(t, id))
  }

  /** Child rows of the report are the same in both. */
  ghost predicate SameChildren<V(!new)>(rows: map<Key, V>, rows': map<Key, V>, id: ReportId) {
    forall k: Key :: k.report == id ==> (k in rows <==> k in rows') && (k in rows ==> rows'[k] == rows[k])
  }

  lemma PutElsewhere<V(!new)>(rows: map<Key, V>, id: ReportId, values: seq<V>, other: ReportId)
    requires other != id
    ensures SameChildren(rows, PutRows(rows, id, values, |values|), other)
    ensures SameChildren(rows, PutRows(RemoveRows(rows, id), id, values, |values|), other)
  {
    forall k: Key | k.report == other
      ensures k in rows <==> k in PutRows(rows, id, values, |values|)
      ensures k in rows ==> PutRows(rows, id, values, |values|)[k] == rows[k]
    {
      PutRowsAt(rows, id, values, |values|, k);
    }
    forall k: Key | k.report == other
      ensures k in rows <==> k in PutRows(RemoveRows(rows, id), id, values, |values|)
      ensures k in rows ==> PutRows(RemoveRows(rows, id), id, values, |values|)[k] == rows[k]
    {
      PutRowsAt(RemoveRows(rows, id), id, values, |values|, k);
    }
  }

  lemma PutKeepsReferences<V>(rows: map<Key, V>, id: ReportId, values: seq<V>, reports: map<ReportId, ReportRow>)
    requires id in reports && forall k :: k in rows ==> k.report in reports
    ensures forall k :: k in PutRows(rows, id, values, |values|) ==> k.report in reports
  {
    forall k | k in PutRows(rows, id, values, |values|)
      ensures k.report in reports
    {
      PutRowsAt(rows, id, values, |values|, k);
    }
  }

  /** Rows written from snapshots of valid rules are valid, and there is a first one if there is any. */
  lemma PutKeepsTexts(rules: Rules, snapshots: map<Key, Snapshot>, id: ReportId, ids: seq<RuleId>)
    requires RuleTextsValid(rules) && Snapshots(rules, ids).Ok?
    requires forall k :: k in snapshots ==> 1 <= |snapshots[k].text| <= MAX_RULE_CHARS
    ensures var values := Snapshots(rules, ids).value;
            var r := PutRows(snapshots, id, values, |values|);
            && (forall k :: k in r ==> 1 <= |r[k].text| <= MAX_RULE_CHARS)
            && (values != [] ==> Key(id, 0) in r)
  {
    var values := Snapshots(rules, ids).value;
    var r := PutRows(snapshots, id, values, |values|);
    forall k | k in r
      ensures 1 <= |r[k].text| <= MAX_RULE_CHARS
    {
      PutRowsAt(snapshots, id, values, |values|, k);
    }
    PutRowsAt(snapshots, id, values, |values|, Key(id, 0));
  }

  lemma OthersStayValid(t: Tables, t': Tables, id: ReportId)
    requires Sound(t)
    requires forall x :: x in t'.reports && x != id ==>
        x in t.reports && t'.reports[x] == t.reports[x] && SameChildren(t.snapshots, t'.snapshots, x)
    requires id in t'.reports ==> ReportValid(t', id)
    ensures forall x :: x in t'.reports ==> ReportValid(t', x)
  {
    forall x | x in t'.reports && x != id
      ensures ReportValid(t', x)
    {
      assert ReportValid(t, x);
      assert Key(x, 0).report == x;
    }
  }

  lemma FileKeepsSound(t: Tables, id: ReportId, input: NewReport)
    requires Sound(t) && CreateReport(t, id, input).Ok?
    ensures Sound(CreateReport(t, id, input).value)
  {
    var t' := CreateReport(t, id, input).value;
    var values := Snapshots(t.rules, input.ruleIds).value;
    PutKeepsReferences(t.evidence, id, StatusRows(input.statuses), t'.reports);
    PutKeepsReferences(t.snapshots, id, values, t'.reports);
    PutKeepsTexts(t.rules, t.snapshots, id, input.ruleIds);
    forall x | x in t'.reports && x != id
      ensures SameChildren(t.snapshots, t'.snapshots, x)
    {
      PutElsewhere(t.snapshots, id, values, x);
    }
    AccountRoundTrip(input.source);
    AccountRoundTrip(input.target);
    OthersStayValid(t, t', id);
  }

  lemma ReclassifyKeepsSound(t: Tables, id: ReportId, category: Category, ruleIds: seq<RuleId>)
    requires Sound(t) && UpdateReport(t, id, category, ruleIds).Ok?
    ensures Sound(UpdateReport(t, id, category, ruleIds).value)
  {
    var t' := UpdateReport(t, id, category, ruleIds).value;
    if id in t.reports {
      var values := Snapshots(t.rules, ruleIds).value;
      PutKeepsReferences(RemoveRows(t.snapshots, id), id, values, t'.reports);
      PutKeepsTexts(t.rules, RemoveRows(t.snapshots, id), id, ruleIds);
      forall x | x in t'.reports && x != id
        ensures SameChildren(t.snapshots, t'.snapshots, x)
      {
        PutElsewhere(t.snapshots, id, values, x);
      }
      assert ReportValid(t, id);
      OthersStayValid(t, t', id);
    }
  }

  lemma RulesKeepTexts(rules: Rules, change: RuleOrder.RuleStep)
    requires RuleTextsValid(rules)
    ensures RuleTextsValid(RuleOrder.Apply(rules, change))
  {
    match change
    case Rearrange(ordered) =>
      if Reorder(rules, ordered).Ok? {
        RuleOrder.ReorderResult(rules, ordered);
      }
    case _ =>
  }

  lemma MarkKeepsSound(t: Tables, id: ReportId, row: ReportRow)
    requires Sound(t) && id in t.reports
        && row == t.reports[id].(assignee := row.assignee, resolvedBy := row.resolvedBy)
    ensures Sound(t.(reports := t.reports[id := row]))
  {
    var t' := t.(reports := t.reports[id := row]);
    assert ReportValid(t, id);
    OthersStayValid(t, t', id);
  }

  lemma StepKeepsSound(t: Tables, step: Step)
    requires Sound(t)
    ensures Sound(Apply(t, step))
  {
    match step
    case ChangeRules(change) =>
      RulesKeepTexts(t.rules, change);
      OthersStayValid(t, Apply(t, step), 0) by {
        assert 0 in t.reports ==> ReportValid(t, 0);
      }
    case File(id, input) =>
      if CreateReport(t, id, input).Ok? {
        FileKeepsSound(t, id, input);
      }
    case Reclassify(id, category, ruleIds) =>
      if UpdateReport(t, id, category, ruleIds).Ok? {
        ReclassifyKeepsSound(t, id, category, ruleIds);
      }
    case AssignTo(id, assignee) =>
      if id in t.reports {
        MarkKeepsSound(t, id, t.reports[id].(assignee := assignee));
      }
    case MarkResolved(id, actor) =>
      if id in t.reports {
        MarkKeepsSound(t, id, t.reports[id].(resolvedBy := actor));
      }
  }

  lemma {:induction false} RunKeepsSound(t: Tables, steps: seq<Step>)
    requires Sound(t)
    ensures Sound(Run(t, steps))
    decreases |steps|
  {
    if steps != [] {
      StepKeepsSound(t, steps[0]);
      RunKeepsSound(Apply(t, steps[0]), steps[1..]);
    }
  }

  /** In every run, a report about a violation loads with at least one rule, and no comment is too long. */
  lemma ViolationsNameARule(steps: seq<Step>, id: ReportId)
    ensures var t := Run(Tables(map[], map[], map[], map[]), steps);
            id in t.reports ==>
              && Consistent(t.reports[id])
              && |t.reports[id].comment| <= MAX_COMMENT_CHARS
              && (t.reports[id].category == Violation ==> |Load(t.evidence, t.snapshots, id, t.reports[id]).rules| >= 1)
  {
    var t := Run(Tables(map[], map[], map[], map[]), steps);
    RunKeepsSound(Tables(map[], map[], map[], map[]), steps);
    if id in t.reports {
      assert ReportValid(t, id);
      if t.reports[id].category == Violation {
        assert Key(id, 0) in t.snapshots;
        assert 0 in PositionsOf(t.snapshots, id);
        LoadsAll(t.snapshots, KeysOf(t.snapshots, id));
      }
    }
  }

  lemma {:induction false} LoadsAll(snapshots: map<Key, Snapshot>, keys: seq<Key>)
    requires forall i :: 0 <= i < |keys| ==> keys[i] in snapshots
    ensures |SnapshotsAt(snapshots, keys)| == |keys|
    decreases |keys|
  {
    if keys != [] {
      LoadsAll(snapshots, keys[..|keys| - 1]);
    }
  }

  // ---------------------------------------------------------------- what never changes

  /** A filed report keeps its id, and its evidence and snapshots unless `exceptRules`. */
  ghost predicate Kept(t: Tables, t': Tables, id: ReportId, exceptRules: bool) {
    && id in t.reports && id in t'.reports
    && t'.reports[id].(category := Other, assignee := None, resolvedBy := None) ==
        t.reports[id].(category := Other, assignee := None, resolvedBy := None)
    && SameChildren(t.evidence, t'.evidence, id)
    && (!exceptRules ==>
        SameChildren(t.snapshots, t'.snapshots, id) && t'.reports[id].category == t.reports[id].category)
  }

  lemma FileKeepsReport(t: Tables, other: ReportId, input: NewReport, id: ReportId)
    requires id in t.reports && CreateReport(t, other, input).Ok?
    ensures Kept(t, CreateReport(t, other, input).value, id, false)
  {
    PutElsewhere(t.evidence, other, StatusRows(input.statuses), id);
    PutElsewhere(t.snapshots, other, Snapshots(t.rules, input.ruleIds).value, id);
  }

  lemma ReclassifyKeepsReport(t: Tables, other: ReportId, category: Category, ruleIds: seq<RuleId>, id: ReportId)
    requires id in t.reports && UpdateReport(t, other, category, ruleIds).Ok?
    ensures Kept(t, UpdateReport(t, other, category, ruleIds).value, id, other == id)
  {
    if other in t.reports && other != id {
      PutElsewhere(t.snapshots, other, Snapshots(t.rules, ruleIds).value, id);
    }
  }

  lemma StepKeepsReport(t: Tables, step: Step, id: ReportId)
    requires id in t.reports
    ensures Kept(t, Apply(t, step), id, step.Reclassify? && step.id == id)
  {
    match step
    case File(other, input) =>
      if CreateReport(t, other, input).Ok? {
        FileKeepsReport(t, other, input, id);
      }
    case Reclassify(other, category, ruleIds) =>
      if UpdateReport(t, other, category, ruleIds).Ok? {
        ReclassifyKeepsReport(t, other, category, ruleIds, id);
      }
    case _ =>
  }

  ghost predicate Reclassified(steps: seq<Step>, id: ReportId) {
    exists i :: 0 <= i < |steps| && steps[i].Reclassify? && steps[i].id == id
  }

  lemma KeptChain(t: Tables, t1: Tables, t2: Tables, id: ReportId, a: bool, b: bool)
    requires Kept(t, t1, id, a) && Kept(t1, t2, id, b)
    ensures Kept(t, t2, id, a || b)
  {
  }

  lemma {:induction false} RunKeepsReport(t: Tables, steps: seq<Step>, id: ReportId)
    requires id in t.reports
    ensures Kept(t, Run(t, steps), id, Reclassified(steps, id))
    decreases |steps|
  {
    if steps != [] {
      var step, t1 := steps[0], Apply(t, steps[0]);
      StepKeepsReport(t, step, id);
      RunKeepsReport(t1, steps[1..], id);
      KeptChain(t, t1, Run(t1, steps[1..]), id, step.Reclassify? && step.id == id, Reclassified(steps[1..], id));
      if Reclassified(steps[1..], id) {
        var i :| 0 <= i < |steps[1..]| && steps[1..][i].Reclassify? && steps[1..][i].id == id;
        assert steps[i + 1].Reclassify? && steps[i + 1].id == id;
      }
    }
  }

  lemma SameChildrenSameKeys<V(!new)>(rows: map<Key, V>, rows': map<Key, V>, id: ReportId)
    requires SameChildren(rows, rows', id)
    ensures KeysOf(rows', id) == KeysOf(rows, id)
  {
    assert PositionsOf(rows', id) == PositionsOf(rows, id);
  }

  lemma {:induction false} SameStatuses(evidence: map<Key, StatusRow>, evidence': map<Key, StatusRow>, id: ReportId,
      keys: seq<Key>)
    requires SameChildren(evidence, evidence', id) && forall i :: 0 <= i < |keys| ==> keys[i].report == id
    ensures StatusesAt(evidence', keys) == StatusesAt(evidence, keys)
    decreases |keys|
  {
    if keys != [] {
      SameStatuses(evidence, evidence', id, keys[..|keys| - 1]);
    }
  }

  lemma {:induction false} SameSnapshots(snapshots: map<Key, Snapshot>, snapshots': map<Key, Snapshot>, id: ReportId,
      keys: seq<Key>)
    requires SameChildren(snapshots, snapshots', id) && forall i :: 0 <= i < |keys| ==> keys[i].report == id
    ensures SnapshotsAt(snapshots', keys) == SnapshotsAt(snapshots, keys)
    decreases |keys|
  {
    if keys != [] {
      SameSnapshots(snapshots, snapshots', id, keys[..|keys| - 1]);
    }
  }

  /**
   In every continuation a filed report loads with the same accounts and statuses, and with the same
   rule texts until the report itself is reclassified, whatever happens to the rules.
   */
  lemma StoredReportIsStable(t: Tables, steps: seq<Step>, id: ReportId)
    requires id in t.reports && Consistent(t.reports[id])
    ensures var t' := Run(t, steps);
            && id in t'.reports && Consistent(t'.reports[id])
            && var before, after := Load(t.evidence, t.snapshots, id, t.reports[id]),
                Load(t'.evidence, t'.snapshots, id, t'.reports[id]);
            && after.source == before.source && after.target == before.target && after.statuses == before.statuses
            && (!Reclassified(steps, id) ==> after.rules == before.rules)
  {
    var t' := Run(t, steps);
    RunKeepsReport(t, steps, id);
    SameChildrenSameKeys(t.evidence, t'.evidence, id);
    SameStatuses(t.evidence, t'.evidence, id, KeysOf(t.evidence, id));
    if !Reclassified(steps, id) {
      SameChildrenSameKeys(t.snapshots, t'.snapshots, id);
      SameSnapshots(t.snapshots, t'.snapshots, id, KeysOf(t.snapshots, id));
    }
  }
}
