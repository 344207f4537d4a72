/**
 Writing reports: creation, update of the rule snapshots, and the administrator's marks.

 The functions give each transaction's effect, `ReportTable` performs the inserts one by one against
 the unique indexes on a report's statuses and rules.
 */
module ReportStore {
  import opened Prelude
  import opened Ordering
  import opened InstanceRules
  import opened Reports

  const MAX_COMMENT_CHARS: nat := 1_000

  // ---------------------------------------------------------------- transactions

  /** The current texts of the named rules, in the order named; all of them must be active. */
  function Snapshots(rules: Rules, ids: seq<RuleId>): Result<seq<Snapshot>, ReportError> {
    if forall i :: 0 <= i < |ids| ==> Active(rules, ids[i])
    then Ok(seq(|ids|, i requires 0 <= i < |ids|
        && Active(rules, ids[i]) => Snapshot(Some(ids[i]), rules[ids[i]].text)))
    else Err(UnknownRule)
  }

  function StatusRows(statuses: seq<Status>): (r: seq<StatusRow>)
    ensures |r| == |statuses|
  {
    seq(|statuses|, i requires 0 <= i < |statuses| => RowFor(statuses[i]))
  }

  /** The first `n` values as child rows of a report, numbered from zero. */
  function PutRows<V>(rows: map<Key, V>, id: ReportId, values: seq<V>, n: nat): map<Key, V>
    requires n <= |values|
  {
    if n == 0 then rows else PutRows(rows, id, values, n - 1)[Key(id, n - 1) := values[n - 1]]
  }

  function RemoveRows<V>(rows: map<Key, V>, id: ReportId): map<Key, V> {
    map k | k in rows && k.report != id :: rows[k]
  }

  predicate ActivityTaken(reports: map<ReportId, ReportRow>, activity: Option<string>) {
    activity.Some? && exists id :: id in reports && reports[id].activity == activity
  }

  function NewRow(input: NewReport): ReportRow {
    var (sourceLocal, sourceRemote) := AccountColumns(input.source);
    var (targetLocal, targetRemote) := AccountColumns(input.target);
    ReportRow(sourceLocal, sourceRemote, targetLocal, targetRemote, input.category, input.comment, input.forwarded,
        input.activity, None, None)
  }

  function CreateReport(t: Tables, id: ReportId, input: NewReport): Result<Tables, ReportError> {
    var rules := Snapshots(t.rules, input.ruleIds);
    if |input.comment| > MAX_COMMENT_CHARS then
      Err(CommentTooLong)
    else if rules.Err? then
      Err(rules.error)
    else if input.category == Violation && rules.value == [] then
      Err(NoRule)
    else if id in t.reports || ActivityTaken(t.reports, input.activity) || !Distinct(input.statuses)
        || !Distinct(input.ruleIds) then
      Err(ReportError.Database)
    else
      Ok(t.(reports := t.reports[id := NewRow(input)],
            evidence := PutRows(t.evidence, id, StatusRows(input.statuses), |input.statuses|),
            snapshots := PutRows(t.snapshots, id, rules.value, |rules.value|)))
  }

  function UpdateReport(t: Tables, id: ReportId, category: Category, ruleIds: seq<RuleId>): Result<Tables,
      ReportError> {
    var rules := Snapshots(t.rules, ruleIds);
    if id !in t.reports then
      Ok(t)
    else if rules.Err? then
      Err(rules.error)
    else if category == Violation && rules.value == [] then
      Err(NoRule)
    else if !Distinct(ruleIds) then
      Err(ReportError.Database)
    else
      Ok(t.(reports := t.reports[id := t.reports[id].(category := category)],
            snapshots := PutRows(RemoveRows(t.snapshots, id), id, rules.value, |rules.value|)))
  }

  function Assign(t: Tables, id: ReportId, assignee: Option<AccountId>): Tables {
    if id in t.reports then t.(reports := t.reports[id := t.reports[id].(assignee := assignee)]) else t
  }

  function Resolve(t: Tables, id: ReportId, actor: Option<AccountId>): Tables {
    if id in t.reports then t.(reports := t.reports[id := t.reports[id].(resolvedBy := actor)]) else t
  }

  /** Child rows belong to existing reports. */
  ghost predicate References(t: Tables) {
    && (forall k :: k in t.evidence ==> k.report in t.reports)
    && (forall k :: k in t.snapshots ==> k.report in t.reports)
  }

  // ---------------------------------------------------------------- what inserting rows amounts to

  lemma {:induction false} PutRowsAt<V>(rows: map<Key, V>, id: ReportId, values: seq<V>, n: nat, k: Key)
    requires n <= |values|
    ensures var r := PutRows(rows, id, values, n);
            if k.report == id && 0 <= k.position < n
            then k in r && r[k] == values[k.position]
            else (k in r <==> k in rows) && (k in r ==> r[k] == rows[k])
  {
    if n > 0 {
      PutRowsAt(rows, id, values, n - 1, k);
    }
  }

  lemma PutKeys<V>(rows: map<Key, V>, id: ReportId, values: seq<V>)
    requires forall k :: k in rows ==> k.report != id
    ensures KeysOf(PutRows(rows, id, values, |values|), id) == seq(|values|, i => Key(id, i))
  {
    var r := PutRows(rows, id, values, |values|);
    forall p
      ensures p in PositionsOf(r, id) <==> 0 <= p < |values|
    {
      PutRowsAt(rows, id, values, |values|, Key(id, p));
      if p in PositionsOf(r, id) {
        var k :| k in r && k.report == id && k.position == p;
        assert k == Key(id, p);
      }
    }
    AscendingSegment(PositionsOf(r, id), |values|);
  }

  lemma {:induction false} StatusesFollow(evidence: map<Key, StatusRow>, id: ReportId, statuses: seq<Status>, n: nat)
    requires n <= |statuses|
    requires forall i :: 0 <= i < n ==> Key(id, i) in evidence && evidence[Key(id, i)] == RowFor(statuses[i])
    ensures StatusesAt(evidence, seq(n, i => Key(id, i))) == statuses[..n]
  {
    if n > 0 {
      StatusesFollow(evidence, id, statuses, n - 1);
      assert seq(n, i => Key(id, i))[..n - 1] == seq(n - 1, i => Key(id, i));
      assert statuses[..n] == statuses[..n - 1] + [statuses[n - 1]];
    }
  }

  lemma {:induction false} SnapshotsFollow(snapshots: map<Key, Snapshot>, id: ReportId, values: seq<Snapshot>, n: nat)
    requires n <= |values|
    requires forall i :: 0 <= i < n ==> Key(id, i) in snapshots && snapshots[Key(id, i)] == values[i]
    ensures SnapshotsAt(snapshots, seq(n, i => Key(id, i))) == values[..n]
  {
    if n > 0 {
      SnapshotsFollow(snapshots, id, values, n - 1);
      assert seq(n, i => Key(id, i))[..n - 1] == seq(n - 1, i => Key(id, i));
      assert values[..n] == values[..n - 1] + [values[n - 1]];
    }
  }

  lemma PutStatuses(evidence: map<Key, StatusRow>, id: ReportId, statuses: seq<Status>)
    requires forall k :: k in evidence ==> k.report != id
    ensures var r := PutRows(evidence, id, StatusRows(statuses), |statuses|);
            StatusesAt(r, KeysOf(r, id)) == statuses
  {
    var r := PutRows(evidence, id, StatusRows(statuses), |statuses|);
    PutKeys(evidence, id, StatusRows(statuses));
    forall i | 0 <= i < |statuses|
      ensures Key(id, i) in r && r[Key(id, i)] == RowFor(statuses[i])
    {
      PutRowsAt(evidence, id, StatusRows(statuses), |statuses|, Key(id, i));
    }
    StatusesFollow(r, id, statuses, |statuses|);
    assert statuses[..|statuses|] == statuses;
  }

  lemma PutSnapshots(snapshots: map<Key, Snapshot>, id: ReportId, values: seq<Snapshot>)
    requires forall k :: k in snapshots ==> k.report != id
    ensures var r := PutRows(snapshots, id, values, |values|);
            SnapshotsAt(r, KeysOf(r, id)) == values
  {
    var r := PutRows(snapshots, id, values, |values|);
    PutKeys(snapshots, id, values);
    forall i | 0 <= i < |values|
      ensures Key(id, i) in r && r[Key(id, i)] == values[i]
    {
      PutRowsAt(snapshots, id, values, |values|, Key(id, i));
    }
    SnapshotsFollow(r, id, values, |values|);
    assert values[..|values|] == values;
  }

  /** One snapshot per rule named, in that order, with the text the rule has now. */
  ghost predicate TextsOf(rules: Rules, ids: seq<RuleId>, taken: seq<Snapshot>) {
    |taken| == |ids| && forall i :: 0 <= i < |ids| ==>
        ids[i] in rules && taken[i].rule == Some(ids[i]) && taken[i].text == rules[ids[i]].text
  }

  /**
   Creating a report and loading it gives back what was submitted: the accounts, the statuses in the
   order given, for each rule named, in that order, its text at that moment, and the category, the
   comment, the forwarding mark and the activity id; nobody is assigned and nobody has resolved it.
   */
  lemma CreateThenFind(t: Tables, id: ReportId, input: NewReport)
    requires References(t) && CreateReport(t, id, input).Ok?
    ensures var t' := CreateReport(t, id, input).value;
            && id in t'.reports && Consistent(t'.reports[id])
            && var found := Load(t'.evidence, t'.snapshots, id, t'.reports[id]);
            && found.id == id && found.source == input.source && found.target == input.target
            && found.statuses == input.statuses && TextsOf(t.rules, input.ruleIds, found.rules)
            && found.row.category == input.category && found.row.comment == input.comment
            && found.row.forwarded == input.forwarded && found.row.activity == input.activity
            && found.row.assignee == None && found.row.resolvedBy == None
  {
    AccountRoundTrip(input.source);
    AccountRoundTrip(input.target);
    PutStatuses(t.evidence, id, input.statuses);
    PutSnapshots(t.snapshots, id, Snapshots(t.rules, input.ruleIds).value);
  }

  /** Replacing the rules of a report changes its category and its rules; all else loads as before. */
  lemma UpdateThenFind(t: Tables, id: ReportId, category: Category, ruleIds: seq<RuleId>)
    requires id in t.reports && Consistent(t.reports[id]) && UpdateReport(t, id, category, ruleIds).Ok?
    ensures var t' := UpdateReport(t, id, category, ruleIds).value;
            && id in t'.reports && Consistent(t'.reports[id])
            && var before, found := Load(t.evidence, t.snapshots, id, t.reports[id]),
                   Load(t'.evidence, t'.snapshots, id, t'.reports[id]);
            && found.row.category == category && TextsOf(t.rules, ruleIds, found.rules)
            && found.id == id && found.source == before.source && found.target == before.target
            && found.statuses == before.statuses
            && found.row.comment == before.row.comment && found.row.forwarded == before.row.forwarded
            && found.row.activity == before.row.activity && found.row.assignee == before.row.assignee
            && found.row.resolvedBy == before.row.resolvedBy
  {
    PutSnapshots(RemoveRows(t.snapshots, id), id, Snapshots(t.rules, ruleIds).value);
  }

  // ---------------------------------------------------------------- the tables

  class ReportTable {
    var rules: Rules
    var reports: map<ReportId, ReportRow>
    var evidence: map<Key, StatusRow>
    var snapshots: map<Key, Snapshot>

    constructor (rules: Rules)
      ensures Contents() == Tables(rules, map[], map[], map[])
    {
      this.rules, reports, evidence, snapshots := rules, map[], map[], map[];
    }

    ghost function Contents(): Tables
      reads this
    {
      Tables(rules, reports, evidence, snapshots)
    }

    method TakeSnapshots(ids: seq<RuleId>) returns (r: Result<seq<Snapshot>, ReportError>)
      ensures r == Snapshots(rules, ids)
    {
      var taken := [];
      var n := 0;
      while n < |ids|
        invariant 0 <= n <= |ids| && |taken| == n
        invariant forall i :: 0 <= i < n ==>
            Active(rules, ids[i]) && taken[i] == Snapshot(Some(ids[i]), rules[ids[i]].text)
      {
        if !Active(rules, ids[n]) {
          return Err(UnknownRule);
        }
        taken := taken + [Snapshot(Some(ids[n]), rules[ids[n]].text)];
        n := n + 1;
      }
      assert taken == Snapshots(rules, ids).value;
      return Ok(taken);
    }

    method InsertEvidence(id: ReportId, statuses: seq<Status>) returns (ok: bool)
      requires forall k :: k in evidence ==> k.report != id
      modifies this`evidence
      ensures ok <==> Distinct(statuses)
      ensures ok ==> evidence == PutRows(old(evidence), id, StatusRows(statuses), |statuses|)
    {
      ghost var before, values := evidence, StatusRows(statuses);
      var n := 0;
      while n < |statuses|
        invariant 0 <= n <= |statuses| && Distinct(statuses[..n])
        invariant evidence == PutRows(before, id, values, n)
      {
        InsertedSoFar(before, id, values, n, RowFor(statuses[n]));
        DistinctNext(statuses, n);
        if exists k :: k in evidence && k.report == id && evidence[k] == RowFor(statuses[n]) {
          return false;
        }
        evidence := evidence[Key(id, n) := RowFor(statuses[n])];
        n := n + 1;
      }
      assert statuses[..n] == statuses;
      return true;
    }

    method InsertSnapshots(id: ReportId, values: seq<Snapshot>) returns (ok: bool)
      requires forall k :: k in snapshots ==> k.report != id
      requires forall i :: 0 <= i < |values| ==> values[i].rule.Some?
      modifies this`snapshots
      ensures ok <==> forall i, j :: 0 <= i < j < |values| ==> values[i].rule != values[j].rule
      ensures ok ==> snapshots == PutRows(old(snapshots), id, values, |values|)
    {
      ghost var before := snapshots;
      var n := 0;
      while n < |values|
        invariant 0 <= n <= |values|
        invariant forall i, j :: 0 <= i < j < n ==> values[i].rule != values[j].rule
        invariant snapshots == PutRows(before, id, values, n)
      {
        SnapshotsSoFar(before, id, values, n);
        if exists k :: k in snapshots && k.report == id && snapshots[k].rule == values[n].rule {
          return false;
        }
        snapshots := snapshots[Key(id, n) := values[n]];
        n := n + 1;
      }
      return true;
    }

    /** Insert a report with its evidence and rule snapshots, or leave everything as it was. */
    method Create(id: ReportId, input: NewReport) returns (r: Result<(), ReportError>)
      requires References(Contents())
      modifies this
      ensures r.Ok? ==> CreateReport(old(Contents()), id, input) == Ok(Contents())
      ensures r.Err? ==> CreateReport(old(Contents()), id, input) == Err(r.error) && Contents() == old(Contents())
    {
      if |input.comment| > MAX_COMMENT_CHARS {
        return Err(CommentTooLong);
      }
      var taken := TakeSnapshots(input.ruleIds);
      if taken.Err? {
        return Err(taken.error);
      }
      if input.category == Violation && taken.value == [] {
        return Err(NoRule);
      }
      if id in reports || ActivityTaken(reports, input.activity) {
        return Err(ReportError.Database);
      }
      var reports0, evidence0, snapshots0 := reports, evidence, snapshots;
      reports := reports[id := NewRow(input)];
      var inserted := InsertEvidence(id, input.statuses);
      if inserted {
        inserted := InsertSnapshots(id, taken.value);
      }
      SameDistinctness(input.ruleIds, taken.value);
      if !inserted {
        reports, evidence, snapshots := reports0, evidence0, snapshots0;
        return Err(ReportError.Database);
      }
      return Ok(());
    }

    /** Replace category and rule snapshots of a report, or leave everything as it was. */
    method Update(id: ReportId, category: Category, ruleIds: seq<RuleId>) returns (r: Result<(), ReportError>)
      modifies this
      ensures r.Ok? ==> UpdateReport(old(Contents()), id, category, ruleIds) == Ok(Contents())
      ensures r.Err? ==>
          UpdateReport(old(Contents()), id, category, ruleIds) == Err(r.error) && Contents() == old(Contents())
    {
      if id !in reports {
        return Ok(());
      }
      var taken := TakeSnapshots(ruleIds);
      if taken.Err? {
        return Err(taken.error);
      }
      if category == Violation && taken.value == [] {
        return Err(NoRule);
      }
      var reports0, snapshots0 := reports, snapshots;
      reports := reports[id := reports[id].(category := category)];
      snapshots := RemoveRows(snapshots, id);
      var inserted := InsertSnapshots(id, taken.value);
      SameDistinctness(ruleIds, taken.value);
      if !inserted {
        reports, snapshots := reports0, snapshots0;
        return Err(ReportError.Database);
      }
      return Ok(());
    }
  }

  lemma InsertedSoFar(before: map<Key, StatusRow>, id: ReportId, values: seq<StatusRow>, n: nat, row: StatusRow)
    requires n < |values| && forall k :: k in before ==> k.report != id
    ensures (exists k ::
        k in PutRows(before, id, values, n) && k.report == id && PutRows(before, id, values, n)[k] == row) <==>
            (exists i :: 0 <= i < n && values[i] == row)
  {
    var r := PutRows(before, id, values, n);
    if k :| k in r && k.report == id && r[k] == row {
      PutRowsAt(before, id, values, n, k);
      assert values[k.position] == row;
    }
    if i :| 0 <= i < n && values[i] == row {
      PutRowsAt(before, id, values, n, Key(id, i));
      assert Key(id, i) in r && Key(id, i).report == id && r[Key(id, i)] == row;
    }
  }

  lemma SnapshotsSoFar(before: map<Key, Snapshot>, id: ReportId, values: seq<Snapshot>, n: nat)
    requires n < |values| && forall k :: k in before ==> k.report != id
    ensures (exists k ::
        k in PutRows(before, id, values, n) && k.report == id
          && PutRows(before, id, values, n)[k].rule == values[n].rule) <==>
            (exists i :: 0 <= i < n && values[i].rule == values[n].rule)
  {
    var r := PutRows(before, id, values, n);
    if k :| k in r && k.report == id && r[k].rule == values[n].rule {
      PutRowsAt(before, id, values, n, k);
      assert values[k.position].rule == values[n].rule;
    }
    if i :| 0 <= i < n && values[i].rule == values[n].rule {
      PutRowsAt(before, id, values, n, Key(id, i));
      assert Key(id, i) in r && Key(id, i).report == id && r[Key(id, i)].rule == values[n].rule;
    }
  }

  /** The next status breaks distinctness exactly when its row is already there. */
  lemma DistinctNext(statuses: seq<Status>, n: nat)
    requires n < |statuses| && Distinct(statuses[..n])
    ensures (exists i :: 0 <= i < n && StatusRows(statuses)[i] == RowFor(statuses[n])) <==> !Distinct(statuses[..n + 1])
    ensures !Distinct(statuses[..n + 1]) ==> !Distinct(statuses)
  {
    var next := statuses[..n + 1];
    if i :| 0 <= i < n && StatusRows(statuses)[i] == RowFor(statuses[n]) {
      assert RowFor(statuses[i]).Content() == RowFor(statuses[n]).Content();
      assert next[i] == next[n];
    }
    forall i, j | 0 <= i < j < n
      ensures next[i] != next[j]
    {
      assert statuses[..n][i] != statuses[..n][j];
    }
    if !Distinct(next) {
      var i, j :| 0 <= i < j < |next| && next[i] == next[j];
      assert StatusRows(statuses)[i] == RowFor(statuses[n]);
      assert statuses[i] == statuses[j];
    }
  }

  lemma SameDistinctness(ids: seq<RuleId>, taken: seq<Snapshot>)
    requires |taken| == |ids| && forall i :: 0 <= i < |ids| ==> taken[i].rule == Some(ids[i])
    ensures Distinct(ids) <==> forall i, j :: 0 <= i < j < |taken| ==> taken[i].rule != taken[j].rule
  {
  }
}
