/** When report transactions are accepted, what they leave alone, and what each event of a run does. */
module ReportEffects {
  import opened Prelude
  import opened InstanceRules
  import opened Reports
  import opened ReportStore
  import opened ReportRuns
  import RuleEffects
  import RuleOrder

  ghost predicate NamesUnknownRule(rules: Rules, ids: seq<RuleId>) {
    exists i :: 0 <= i < |ids| && !RuleEffects.Shown(rules, ids[i])
  }

  predicate NamedTwice<T(==)>(s: seq<T>) {
    exists i, j :: 0 <= i < j < |s| && s[i] == s[j]
  }

  /** Why a new report is turned away, in the order of the checks. */
  ghost function Complaint(t: Tables, id: ReportId, input: NewReport): Option<ReportError> {
    if |input.comment| > 1000 then Some(CommentTooLong)
    else if NamesUnknownRule(t.rules, input.ruleIds) then Some(UnknownRule)
    else if input.category == Violation && input.ruleIds == [] then Some(NoRule)
    else if id in t.reports || NamedTwice(input.statuses) || NamedTwice(input.ruleIds)
        || (input.activity.Some? && exists other :: other in t.reports && t.reports[other].activity == input.activity)
      then Some(ReportError.Database)
    else None
  }

  /** The child rows of this report are these, by position, and those of other reports are as before. */
  ghost predicate ChildrenAre<V(!new)>(rows: map<Key, V>, rows': map<Key, V>, id: ReportId, values: seq<V>) {
    && (forall k: Key :: k.report != id ==> (k in rows' <==> k in rows))
    && (forall k: Key :: k.report != id && k in rows ==> rows'[k] == rows[k])
    && (forall k: Key :: k.report == id ==> (k in rows' <==> 0 <= k.position < |values|))
    && (forall i :: 0 <= i < |values| ==> Key(id, i) in rows' && rows'[Key(id, i)] == values[i])
  }

  ghost predicate OnlyReport(reports: map<ReportId, ReportRow>, reports': map<ReportId, ReportRow>, id: ReportId) {
    && id in reports'
    && (forall other :: other != id ==> (other in reports' <==> other in reports))
    && (forall other :: other != id && other in reports ==> reports'[other] == reports[other])
  }

  /** A new report's rows, and nobody else's: one for each status, one for each rule, and its own. */
  ghost predicate Filed(t: Tables, t': Tables, id: ReportId, input: NewReport) {
    && t'.rules == t.rules
    && OnlyReport(t.reports, t'.reports, id)
    && (exists rows: seq<StatusRow> ::
        && |rows| == |input.statuses|
        && (forall i :: 0 <= i < |rows| ==>
            match input.statuses[i]
            case LocalStatus(s) => rows[i] == StatusRow(local := Some(s), remote := None)
            case RemoteStatus(s) => rows[i] == StatusRow(local := None, remote := Some(s)))
        && ChildrenAre(t.evidence, t'.evidence, id, rows))
    && (exists taken ::
        TextsOf(t.rules, input.ruleIds, taken) && ChildrenAre(t.snapshots, t'.snapshots, id, taken))
  }

  lemma PutIsChildren<V(!new)>(rows: map<Key, V>, id: ReportId, values: seq<V>)
    requires forall k :: k in rows ==> k.report != id
    ensures ChildrenAre(rows, PutRows(rows, id, values, |values|), id, values)
  {
    forall k: Key
      ensures k.report == id && 0 <= k.position < |values| ==>
          k in PutRows(rows, id, values, |values|) && PutRows(rows, id, values, |values|)[k] == values[k.position]
      ensures !(k.report == id && 0 <= k.position < |values|) ==>
          && (k in PutRows(rows, id, values, |values|) <==> k in rows)
          && (k in rows ==> PutRows(rows, id, values, |values|)[k] == rows[k])
    {
      PutRowsAt(rows, id, values, |values|, k);
    }
  }

  lemma RemovedThenChildren<V(!new)>(rows: map<Key, V>, rows': map<Key, V>, id: ReportId, values: seq<V>)
    requires ChildrenAre(RemoveRows(rows, id), rows', id, values)
    ensures ChildrenAre(rows, rows', id, values)
  {
    forall k: Key | k.report != id
      ensures k in RemoveRows(rows, id) <==> k in rows
      ensures k in rows ==> RemoveRows(rows, id)[k] == rows[k]
    {
    }
  }

  /** A report is filed unless there is a complaint about it; `CreateThenFind` says what it loads as. */
  lemma FilingIsAnswered(t: Tables, id: ReportId, input: NewReport)
    requires References(t)
    ensures var r := CreateReport(t, id, input);
            match Complaint(t, id, input)
            case Some(e) => r == Err(e)
            case None => r.Ok? && Filed(t, r.value, id, input)
  {
    NamesIff(t.rules, input.ruleIds);
    if CreateReport(t, id, input).Ok? {
      FiledRows(t, id, input);
    }
  }

  lemma NamesIff(rules: Rules, ids: seq<RuleId>)
    ensures NamesUnknownRule(rules, ids) <==> Snapshots(rules, ids) == Err(UnknownRule)
    ensures !NamesUnknownRule(rules, ids) ==>
        Snapshots(rules, ids).Ok? && TextsOf(rules, ids, Snapshots(rules, ids).value)
  {
    forall i | 0 <= i < |ids|
      ensures RuleEffects.Shown(rules, ids[i]) <==> Active(rules, ids[i])
    {
    }
  }

  lemma FiledRows(t: Tables, id: ReportId, input: NewReport)
    requires References(t) && CreateReport(t, id, input).Ok?
    ensures Filed(t, CreateReport(t, id, input).value, id, input)
  {
    NamesIff(t.rules, input.ruleIds);
    var rows, taken := StatusRows(input.statuses), Snapshots(t.rules, input.ruleIds).value;
    PutIsChildren(t.evidence, id, rows);
    PutIsChildren(t.snapshots, id, taken);
    var t' := CreateReport(t, id, input).value;
    assert ChildrenAre(t.evidence, t'.evidence, id, rows) && ChildrenAre(t.snapshots, t'.snapshots, id, taken);
  }

  /** Reclassifying replaces the snapshots of the report, and of no other. */
  ghost predicate Reclassed(t: Tables, t': Tables, id: ReportId, category: Category, ruleIds: seq<RuleId>)
    requires id in t.reports
  {
    && t'.rules == t.rules && t'.evidence == t.evidence
    && OnlyReport(t.reports, t'.reports, id)
    && t'.reports[id] == t.reports[id].(category := category)
    && exists taken :: TextsOf(t.rules, ruleIds, taken) && ChildrenAre(t.snapshots, t'.snapshots, id, taken)
  }

  lemma ReclassifyingIsAnswered(t: Tables, id: ReportId, category: Category, ruleIds: seq<RuleId>)
    ensures var r := UpdateReport(t, id, category, ruleIds);
            if id !in t.reports then r == Ok(t)
            else if NamesUnknownRule(t.rules, ruleIds) then r == Err(UnknownRule)
            else if category == Violation && ruleIds == [] then r == Err(NoRule)
            else if NamedTwice(ruleIds) then r == Err(ReportError.Database)
            else r.Ok? && Reclassed(t, r.value, id, category, ruleIds)
  {
    NamesIff(t.rules, ruleIds);
    var r := UpdateReport(t, id, category, ruleIds);
    if id in t.reports && r.Ok? {
      var taken := Snapshots(t.rules, ruleIds).value;
      PutIsChildren(RemoveRows(t.snapshots, id), id, taken);
      RemovedThenChildren(t.snapshots, r.value.snapshots, id, taken);
    }
  }

  /** Both marks of an administrator replace the one before; nothing else about any report changes. */
  lemma MarksAreKept(t: Tables, id: ReportId, mark: Option<AccountId>)
    ensures var t' := Assign(t, id, mark);
            && t' == t.(reports := t'.reports)
            && (id !in t.reports ==> t' == t)
            && (id in t.reports ==>
                OnlyReport(t.reports, t'.reports, id) && t'.reports[id] == t.reports[id].(assignee := mark))
    ensures var t' := Resolve(t, id, mark);
            && t' == t.(reports := t'.reports)
            && (id !in t.reports ==> t' == t)
            && (id in t.reports ==>
                OnlyReport(t.reports, t'.reports, id) && t'.reports[id] == t.reports[id].(resolvedBy := mark))
  {
  }

  /** A row loads exactly when each of its two accounts is in exactly one of its two columns. */
  lemma ConsistentIff(row: ReportRow)
    ensures Consistent(row) <==>
        row.sourceLocal.Some? != row.sourceRemote.Some? && row.targetLocal.Some? != row.targetRemote.Some?
  {
  }

  /** In a run, a report is filed or nothing happens. */
  lemma FileEvent(t: Tables, id: ReportId, input: NewReport)
    requires References(t)
    ensures var t' := Apply(t, File(id, input));
            if Complaint(t, id, input).Some? then t' == t else Filed(t, t', id, input)
  {
    FilingIsAnswered(t, id, input);
  }

  /** In a run, a report is reclassified or nothing happens. */
  lemma ReclassifyEvent(t: Tables, id: ReportId, category: Category, ruleIds: seq<RuleId>)
    ensures var t' := Apply(t, Reclassify(id, category, ruleIds));
            if id !in t.reports || NamesUnknownRule(t.rules, ruleIds) || (category == Violation && ruleIds == [])
                || NamedTwice(ruleIds)
            then t' == t
            else Reclassed(t, t', id, category, ruleIds)
  {
    ReclassifyingIsAnswered(t, id, category, ruleIds);
  }
}
