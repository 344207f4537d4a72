/**
 Moderation reports: their tables, and loading many of them at once.

 A report's evidence and rule snapshots are child rows ordered by position. Hydration fetches the
 child rows of all requested reports with one query per table, ordered by position only, so rows of
 different reports arrive interleaved in an order the query does not fix, and sorts them into maps.
 */
module Reports {
  import opened Prelude
  import opened Ordering
  import opened InstanceRules

  type ReportId = nat
  type AccountId = nat
  type StatusId = nat

  datatype Account = LocalAccount(id: AccountId) | RemoteActor(id: AccountId)

  datatype Status = LocalStatus(id: StatusId) | RemoteStatus(id: StatusId)

  datatype Category = Spam | Legal | Violation | Other

  /** Primary key of a child row. */
  datatype Key = Key(report: ReportId, position: int)

  datatype ReportRow = ReportRow(
    sourceLocal: Option<AccountId>,
    sourceRemote: Option<AccountId>,
    targetLocal: Option<AccountId>,
    targetRemote: Option<AccountId>,
    category: Category,
    comment: string,
    forwarded: bool,
    activity: Option<string>,
    assignee: Option<AccountId>,
    resolvedBy: Option<AccountId>)

  datatype StatusRow = StatusRow(local: Option<StatusId>, remote: Option<StatusId>) {
    function Content(): Option<Status> {
      match this
      case StatusRow(Some(id), _) => Some(LocalStatus(id))
      case StatusRow(None, Some(id)) => Some(RemoteStatus(id))
      case _ => None
    }
  }

  datatype Snapshot = Snapshot(rule: Option<RuleId>, text: string)

  datatype Report = Report(id: ReportId, source: Account, target: Account, row: ReportRow, statuses: seq<Status>,
      rules: seq<Snapshot>)

  datatype NewReport = NewReport(
    source: Account,
    target: Account,
    category: Category,
    comment: string,
    forwarded: bool,
    activity: Option<string>,
    statuses: seq<Status>,
    ruleIds: seq<RuleId>)

  datatype ReportError = CommentTooLong | UnknownRule | NoRule | InconsistentAccount | Database

  datatype Tables = Tables(
    rules: Rules,
    reports: map<ReportId, ReportRow>,
    evidence: map<Key, StatusRow>,
    snapshots: map<Key, Snapshot>)

  function AccountColumns(account: Account): (Option<AccountId>, Option<AccountId>) {
    match account
    case LocalAccount(id) => (Some(id), None)
    case RemoteActor(id) => (None, Some(id))
  }

  function AccountOf(local: Option<AccountId>, remote: Option<AccountId>): Option<Account> {
    match (local, remote)
    case (Some(id), None) => Some(LocalAccount(id))
    case (None, Some(id)) => Some(RemoteActor(id))
    case _ => None
  }

  lemma AccountRoundTrip(account: Account)
    ensures AccountOf(AccountColumns(account).0, AccountColumns(account).1) == Some(account)
  {
  }

  function RowFor(status: Status): (r: StatusRow)
    ensures r.Content() == Some(status)
  {
    match status
    case LocalStatus(id) => StatusRow(Some(id), None)
    case RemoteStatus(id) => StatusRow(None, Some(id))
  }

  // ---------------------------------------------------------------- what one report consists of

  ghost function PositionsOf<V>(rows: map<Key, V>, id: ReportId): set<int> {
    set k | k in rows && k.report == id :: k.position
  }

  /** The keys of one report's child rows, by position. */
  ghost function KeysOf<V>(rows: map<Key, V>, id: ReportId): (r: seq<Key>)
    ensures forall i :: 0 <= i < |r| ==> r[i] in rows && r[i].report == id
  {
    var positions := Ascending(PositionsOf(rows, id));
    assert forall i :: 0 <= i < |positions| ==> positions[i] in positions && Key(id, positions[i]) in rows by {
      forall i | 0 <= i < |positions|
        ensures positions[i] in positions && Key(id, positions[i]) in rows
      {
        assert positions[i] in positions && positions[i] in PositionsOf(rows, id);
        var k :| k in rows && k.report == id && k.position == positions[i];
        assert k == Key(id, positions[i]);
      }
    }
    seq(|positions|, i requires 0 <= i < |positions| => Key(id, positions[i]))
  }

  function StatusesAt(evidence: map<Key, StatusRow>, keys: seq<Key>): seq<Status> {
    if keys == [] then []
    else
      var front, last := StatusesAt(evidence, keys[..|keys| - 1]), keys[|keys| - 1];
      if last in evidence && evidence[last].Content().Some? then front + [evidence[last].Content().value] else front
  }

  function SnapshotsAt(snapshots: map<Key, Snapshot>, keys: seq<Key>): seq<Snapshot> {
    if keys == [] then []
    else
      var front, last := SnapshotsAt(snapshots, keys[..|keys| - 1]), keys[|keys| - 1];
      if last in snapshots then front + [snapshots[last]] else front
  }

  predicate Consistent(row: ReportRow) {
    AccountOf(row.sourceLocal, row.sourceRemote).Some? && AccountOf(row.targetLocal, row.targetRemote).Some?
  }

  /** The report on its own, said without any query order. */
  ghost function Load(evidence: map<Key, StatusRow>, snapshots: map<Key, Snapshot>, id: ReportId,
      row: ReportRow): Report
    requires Consistent(row)
  {
    Assemble(id, row, StatusesAt(evidence, KeysOf(evidence, id)), SnapshotsAt(snapshots, KeysOf(snapshots, id)))
  }

  function Assemble(id: ReportId, row: ReportRow, statuses: seq<Status>, rules: seq<Snapshot>): Report
    requires Consistent(row)
  {
    Report(id, AccountOf(row.sourceLocal, row.sourceRemote).value, AccountOf(row.targetLocal, row.targetRemote).value,
        row, statuses, rules)
  }

  // ---------------------------------------------------------------- query answers

  /** An answer to "child rows of these reports, ordered by position": ties come in any order. */
  ghost predicate Answers<V>(rows: map<Key, V>, ids: set<ReportId>, keys: seq<Key>) {
    && (forall k :: k in keys <==> k in rows && k.report in ids)
    && (forall i, j :: 0 <= i < j < |keys| ==> keys[i] != keys[j] && keys[i].position <= keys[j].position)
  }

  /** The part of an answer that belongs to one report. */
  function Of(keys: seq<Key>, id: ReportId): (r: seq<Key>)
    ensures forall k :: k in r <==> k in keys && k.report == id
  {
    if keys == [] then []
    else
      var front := Of(keys[..|keys| - 1], id);
      var last := keys[|keys| - 1];
      assert keys == keys[..|keys| - 1] + [last];
      if last.report == id then front + [last] else front
  }

  ghost predicate SortedKeys(keys: seq<Key>) {
    forall i, j :: 0 <= i < j < |keys| ==> keys[i] != keys[j] && keys[i].position <= keys[j].position
  }

  lemma {:induction false} PartIncreases(keys: seq<Key>, id: ReportId)
    requires SortedKeys(keys)
    ensures forall i, j :: 0 <= i < j < |Of(keys, id)| ==> Of(keys, id)[i].position < Of(keys, id)[j].position
    decreases |keys|
  {
    if keys != [] {
      var front, last := keys[..|keys| - 1], keys[|keys| - 1];
      PartIncreases(front, id);
      forall k | k in Of(front, id) && last.report == id
        ensures k.position < last.position
      {
        assert k in front;
        var i :| 0 <= i < |front| && front[i] == k;
        assert keys[i] != last && keys[i].position <= last.position;
        assert k == Key(id, k.position) && last == Key(id, last.position);
      }
      assert forall i :: 0 <= i < |Of(front, id)| ==> Of(front, id)[i] in Of(front, id);
    }
  }

  /** Whatever order the query chose among ties, each report's part is its own rows by position. */
  lemma PartIsOwnRows<V>(rows: map<Key, V>, ids: set<ReportId>, keys: seq<Key>, id: ReportId)
    requires Answers(rows, ids, keys) && id in ids
    ensures Of(keys, id) == KeysOf(rows, id)
  {
    var part := Of(keys, id);
    var positions := seq(|part|, i requires 0 <= i < |part| => part[i].position);
    PartIncreases(keys, id);
    PartPositions(rows, ids, keys, id, positions);
    OrderIsUnique(positions, Ascending(PositionsOf(rows, id)));
    assert forall i :: 0 <= i < |part| ==> part[i] in part;
    SameKeys(part, KeysOf(rows, id), id);
  }

  lemma SameKeys(a: seq<Key>, b: seq<Key>, id: ReportId)
    requires |a| == |b| && forall i :: 0 <= i < |a| ==>
        a[i].report == id && b[i].report == id && a[i].position == b[i].position
    ensures a == b
  {
  }

  lemma PartPositions<V>(rows: map<Key, V>, ids: set<ReportId>, keys: seq<Key>, id: ReportId, positions: seq<int>)
    requires Answers(rows, ids, keys) && id in ids && |positions| == |Of(keys, id)|
    requires forall i :: 0 <= i < |positions| ==> positions[i] == Of(keys, id)[i].position
    ensures forall p :: p in positions <==> p in Ascending(PositionsOf(rows, id))
  {
    var part := Of(keys, id);
    forall p
      ensures p in positions <==> p in PositionsOf(rows, id)
    {
      if p in positions {
        var i :| 0 <= i < |positions| && positions[i] == p;
        assert part[i] in part;
      }
      if p in PositionsOf(rows, id) {
        var k :| k in rows && k.report == id && k.position == p;
        assert k in keys && k in part;
        var i :| 0 <= i < |part| && part[i] == k;
        assert positions[i] == p;
      }
    }
  }

  // ---------------------------------------------------------------- hydration

  lemma OfNext(keys: seq<Key>, n: nat, id: ReportId)
    requires n < |keys|
    ensures Of(keys[..n + 1], id) == if keys[n].report == id then Of(keys[..n], id) + [keys[n]] else Of(keys[..n], id)
  {
    assert keys[..n + 1][..n] == keys[..n];
  }

  ghost predicate Collected<T>(collected: map<ReportId, seq<T>>, id: ReportId, expected: seq<T>) {
    if id in collected then collected[id] == expected else expected == []
  }

  method CollectStatuses(evidence: map<Key, StatusRow>, keys: seq<Key>) returns (statuses: map<ReportId, seq<Status>>)
    requires forall k :: k in keys ==> k in evidence
    ensures forall id :: Collected(statuses, id, StatusesAt(evidence, Of(keys, id)))
  {
    statuses := map[];
    var n := 0;
    while n < |keys|
      invariant 0 <= n <= |keys|
      invariant forall id :: Collected(statuses, id, StatusesAt(evidence, Of(keys[..n], id)))
    {
      var id := keys[n].report;
      ghost var before, upto := statuses, keys[..n + 1];
      var content := evidence[keys[n]].Content();
      if content.Some? {
        statuses := statuses[id := (if id in statuses then statuses[id] else []) + [content.value]];
      }
      forall x: ReportId
        ensures Collected(statuses, x, StatusesAt(evidence, Of(upto, x)))
      {
        OfNext(keys, n, x);
        var part := Of(keys[..n], x);
        assert Collected(before, x, StatusesAt(evidence, part));
        assert (part + [keys[n]])[..|part|] == part;
      }
      n := n + 1;
    }
    assert keys[..n] == keys;
  }

  method CollectSnapshots(rows: map<Key, Snapshot>, keys: seq<Key>) returns (rules: map<ReportId, seq<Snapshot>>)
    requires forall k :: k in keys ==> k in rows
    ensures forall id :: Collected(rules, id, SnapshotsAt(rows, Of(keys, id)))
  {
    rules := map[];
    var n := 0;
    while n < |keys|
      invariant 0 <= n <= |keys|
      invariant forall id :: Collected(rules, id, SnapshotsAt(rows, Of(keys[..n], id)))
    {
      var id := keys[n].report;
      ghost var before, upto := rules, keys[..n + 1];
      rules := rules[id := (if id in rules then rules[id] else []) + [rows[keys[n]]]];
      forall x: ReportId
        ensures Collected(rules, x, SnapshotsAt(rows, Of(upto, x)))
      {
        OfNext(keys, n, x);
        var part := Of(keys[..n], x);
        assert Collected(before, x, SnapshotsAt(rows, part));
        assert (part + [keys[n]])[..|part|] == part;
      }
      n := n + 1;
    }
    assert keys[..n] == keys;
  }

  ghost function Requested(models: seq<(ReportId, ReportRow)>): set<ReportId> {
    set i | 0 <= i < |models| :: models[i].0
  }

  ghost predicate DistinctReports(models: seq<(ReportId, ReportRow)>) {
    forall i, j :: 0 <= i < j < |models| ==> models[i].0 != models[j].0
  }

  /**
   Loading any set of reports together gives exactly what loading each of them alone gives, for every
   order in which the queries may deliver the child rows. One inconsistent row fails the whole load.
   */
  method Hydrate(
    models: seq<(ReportId, ReportRow)>,
    evidence: map<Key, StatusRow>, evidenceKeys: seq<Key>,
    snapshots: map<Key, Snapshot>, snapshotKeys: seq<Key>)
    returns (r: Result<seq<Report>, ReportError>)
    requires DistinctReports(models)
    requires Answers(evidence, Requested(models), evidenceKeys) && Answers(snapshots, Requested(models), snapshotKeys)
    ensures r.Ok? <==> forall i :: 0 <= i < |models| ==> Consistent(models[i].1)
    ensures r.Err? ==> r.error == InconsistentAccount
    ensures r.Ok? ==> |r.value| == |models|
    ensures r.Ok? ==>
        forall i :: 0 <= i < |models| ==> r.value[i] == Load(evidence, snapshots, models[i].0, models[i].1)
  {
    var statuses := CollectStatuses(evidence, evidenceKeys);
    var rules := CollectSnapshots(snapshots, snapshotKeys);
    r := AssembleAll(models, statuses, rules);
    forall i | 0 <= i < |models| && r.Ok?
      ensures r.value[i] == Load(evidence, snapshots, models[i].0, models[i].1)
    {
      CollectedIsOwn(Requested(models), evidence, evidenceKeys, statuses, snapshots, snapshotKeys, rules, models[i].0);
    }
  }

  /** Each report takes its entries out of the two maps. */
  method AssembleAll(models: seq<(ReportId, ReportRow)>, statuses: map<ReportId, seq<Status>>, rules: map<ReportId,
      seq<Snapshot>>)
    returns (r: Result<seq<Report>, ReportError>)
    requires DistinctReports(models)
    ensures r.Ok? <==> forall i :: 0 <= i < |models| ==> Consistent(models[i].1)
    ensures r.Err? ==> r.error == InconsistentAccount
    ensures r.Ok? ==> |r.value| == |models|
    ensures r.Ok? ==> forall i :: 0 <= i < |models| ==>
      r.value[i] == Assemble(models[i].0, models[i].1, Entry(statuses, models[i].0), Entry(rules, models[i].0))
  {
    var statusesLeft, rulesLeft := statuses, rules;
    var reports := [];
    var n := 0;
    while n < |models|
      invariant 0 <= n <= |models| && |reports| == n
      invariant forall i :: 0 <= i < n ==> Consistent(models[i].1)
      invariant forall i :: 0 <= i < n ==>
          reports[i] == Assemble(models[i].0, models[i].1, Entry(statuses, models[i].0), Entry(rules, models[i].0))
      invariant forall i :: n <= i < |models| ==> Entry(statusesLeft, models[i].0) == Entry(statuses, models[i].0)
      invariant forall i :: n <= i < |models| ==> Entry(rulesLeft, models[i].0) == Entry(rules, models[i].0)
    {
      var (id, row) := models[n];
      if !Consistent(row) {
        return Err(InconsistentAccount);
      }
      reports := reports + [Assemble(id, row, Entry(statusesLeft, id), Entry(rulesLeft, id))];
      statusesLeft, rulesLeft := statusesLeft - {id}, rulesLeft - {id};
      n := n + 1;
    }
    return Ok(reports);
  }

  function Entry<T>(collected: map<ReportId, seq<T>>, id: ReportId): seq<T> {
    if id in collected then collected[id] else []
  }

  lemma CollectedIsOwn(
    ids: set<ReportId>,
    evidence: map<Key, StatusRow>, evidenceKeys: seq<Key>, statuses: map<ReportId, seq<Status>>,
    snapshots: map<Key, Snapshot>, snapshotKeys: seq<Key>, rules: map<ReportId, seq<Snapshot>>,
    id: ReportId)
    requires Answers(evidence, ids, evidenceKeys) && Answers(snapshots, ids, snapshotKeys) && id in ids
    requires Collected(statuses, id, StatusesAt(evidence, Of(evidenceKeys, id)))
    requires Collected(rules, id, SnapshotsAt(snapshots, Of(snapshotKeys, id)))
    ensures Entry(statuses, id) == StatusesAt(evidence, KeysOf(evidence, id))
    ensures Entry(rules, id) == SnapshotsAt(snapshots, KeysOf(snapshots, id))
  {
    PartIsOwnRows(evidence, ids, evidenceKeys, id);
    PartIsOwnRows(snapshots, ids, snapshotKeys, id);
  }
}
