/**
 What each action of an administrator changes, field by field, and what the ledger says about reports.
 */
module AdminEffects {
  import opened Prelude
  import opened AdminModel
  import opened AdminRuns

  /** A local account, or a remote actor that was not deleted. */
  predicate Known(s: State, id: Id) {
    id in s.locals || (id in s.remotes && s.remotes[id].deleted == false)
  }

  /** Local accounts come first when an id is looked up. */
  predicate About(s: State, id: Id, target: Target) {
    target == if id in s.locals then LocalTarget(id) else RemoteTarget(id)
  }

  predicate UnderSuspension(s: State, id: Id) {
    if id in s.locals then s.locals[id].suspendedAt.Some? else id in s.remotes && s.remotes[id].suspendedAt.Some?
  }

  /** The row the id stands for was replaced; all other accounts and actors are as before. */
  ghost predicate OnlyAccount(s: State, s': State, id: Id) {
    && (forall other :: other in s'.locals <==> other in s.locals)
    && (forall other :: other in s'.remotes <==> other in s.remotes)
    && (forall other :: other in s.locals && other != id ==> s'.locals[other] == s.locals[other])
    && (forall other :: other in s.remotes && (other != id || id in s.locals) ==>
        s'.remotes[other] == s.remotes[other])
  }

  /** One entry was added to the ledger. */
  predicate Logged(s: State, s': State, actor: Option<Id>, action: Action, id: Id) {
    s'.audit == s.audit + [Entry(actor := actor, action := action,
        target := if id in s.locals then LocalTarget(id) else RemoteTarget(id))]
  }

  // ---------------------------------------------------------------- limits

  /** What limiting is answered with: the flag set as asked and logged, or no account of that id. */
  ghost predicate LimitAnswered(s: State, actor: Option<Id>, id: Id, limited: bool, r: Result<State, AdminError>) {
    if !Known(s, id) then r == Err(NoAccount)
    else
      && r.Ok? && var s' := r.value;
      && OnlyAccount(s, s', id)
      && (id in s.locals ==> s'.locals[id] == s.locals[id].(limited := limited))
      && (id !in s.locals ==> id in s.remotes && s'.remotes[id] == s.remotes[id].(limited := limited))
      && Logged(s, s', actor, if limited then Limit else Unlimit, id)
      && s' == s.(locals := s'.locals, remotes := s'.remotes, audit := s'.audit)
  }

  lemma LimitIsAnswered(s: State, actor: Option<Id>, id: Id, limited: bool)
    ensures LimitAnswered(s, actor, id, limited, SetLimited(s, actor, id, limited))
  {
  }

  // ---------------------------------------------------------------- suspensions

  ghost predicate ActiveAdmin(s: State, id: Id) {
    id in s.locals && s.locals[id].isAdmin && s.locals[id].suspendedAt == None
  }

  ghost predicate AtMostOneAdmin(s: State) {
    forall a: Id, b: Id :: ActiveAdmin(s, a) && ActiveAdmin(s, b) ==> a == b
  }

  lemma AtMostOneIff(s: State)
    ensures AtMostOneAdmin(s) <==> |ActiveAdmins(s)| <= 1
  {
    assert forall a: Id :: ActiveAdmin(s, a) <==> a in ActiveAdmins(s);
    if AtMostOneAdmin(s) && ActiveAdmins(s) != {} {
      var a := Pick(ActiveAdmins(s));
      assert ActiveAdmins(s) == {a};
    }
    if !AtMostOneAdmin(s) {
      var a: Id, b: Id :| ActiveAdmin(s, a) && ActiveAdmin(s, b) && a != b;
      SubsetSize({a, b}, ActiveAdmins(s));
    }
  }

  /** Why a suspension, or lifting one, is refused, in the order of the checks. */
  ghost function Refusal(s: State, actor: Id, id: Id, suspended: bool): Option<AdminError> {
    if suspended && actor == id then Some(OwnAccount)
    else if !Known(s, id) then Some(NoAccount)
    else if suspended && id in s.locals && s.locals[id].isAdmin && AtMostOneAdmin(s) then Some(FinalAdministrator)
    else if !suspended && id in s.locals && s.locals[id].purged then Some(AlreadyPurged)
    else None
  }

  predicate Queued(jobs: seq<PurgeJob>, id: Id) {
    exists j :: 0 <= j < |jobs| && jobs[j].account == id && jobs[j].completed == false
  }

  /** The cleanups after a suspension of this local account, or after lifting one. */
  ghost predicate Cleanups(s: State, s': State, id: Id, suspended: bool, now: Time)
    requires id in s.locals
  {
    if suspended && s.locals[id].suspendedAt == None && !Queued(s.jobs, id) then
      s'.jobs == s.jobs + [PurgeJob(account := id, requestedAt := now, completed := false)]
    else if suspended then
      s'.jobs == s.jobs
    else
      && |s'.jobs| == |s.jobs|
      && forall j :: 0 <= j < |s.jobs| ==>
          && s'.jobs[j].account == s.jobs[j].account && s'.jobs[j].requestedAt == s.jobs[j].requestedAt
          && s'.jobs[j].completed == (s.jobs[j].completed || s.jobs[j].account == id)
  }

  ghost predicate LocalSuspended(s: State, s': State, id: Id, suspended: bool, now: Time)
    requires id in s.locals
  {
    && id in s'.locals
    && s'.locals[id] == s.locals[id].(suspendedAt := if suspended then Some(now) else None)
    && Cleanups(s, s', id, suspended, now)
    && s'.deletes ==
        if suspended && s.locals[id].suspendedAt == None && s.federated then s.deletes + [id] else s.deletes
  }

  ghost predicate RemoteSuspended(s: State, s': State, id: Id, suspended: bool, now: Time)
    requires id in s.remotes
  {
    && id in s'.remotes
    && s'.remotes[id] == s.remotes[id].(suspendedAt := if suspended then Some(now) else None,
        purged := if suspended then true else s.remotes[id].purged)
    && s'.jobs == s.jobs && s'.deletes == s.deletes
  }

  ghost predicate SuspensionAnswered(s: State, actor: Id, id: Id, suspended: bool, now: Time,
      r: Result<State, AdminError>) {
    match Refusal(s, actor, id, suspended)
    case Some(e) => r == Err(e)
    case None =>
      && r.Ok? && var s' := r.value;
      && OnlyAccount(s, s', id)
      && (if id in s.locals then LocalSuspended(s, s', id, suspended, now)
          else id in s.remotes && RemoteSuspended(s, s', id, suspended, now))
      && Logged(s, s', Some(actor), if suspended then Suspend else Unsuspend, id)
      && s' == s.(locals := s'.locals, remotes := s'.remotes, audit := s'.audit, jobs := s'.jobs,
          deletes := s'.deletes)
  }

  lemma RefusalIff(s: State, actor: Id, id: Id, suspended: bool)
    ensures SuspensionRejection(s, actor, id, suspended) == Refusal(s, actor, id, suspended)
  {
    AtMostOneIff(s);
  }

  /** A suspension is refused for the first reason there is, or dated, announced, followed up and logged. */
  lemma SuspensionIsAnswered(s: State, actor: Id, id: Id, suspended: bool, now: Time)
    ensures SuspensionAnswered(s, actor, id, suspended, now, SetSuspended(s, actor, id, suspended, now))
  {
    RefusalIff(s, actor, id, suspended);
    if Refusal(s, actor, id, suspended).None? && id in s.locals {
      LocalIsSuspended(s, id, suspended, now);
    }
  }

  lemma LocalIsSuspended(s: State, id: Id, suspended: bool, now: Time)
    requires id in s.locals
    ensures Cleanups(s, SuspendLocal(s, id, suspended, now), id, suspended, now)
  {
    forall j | 0 <= j < |s.jobs|
      ensures s.jobs[j].account == id && s.jobs[j].completed == false <==>
          !s.jobs[j].completed && s.jobs[j].account == id
    {
    }
  }

  // ---------------------------------------------------------------- purges

  /** Deleting needs a suspension; a local account is purged then, and the purge is logged. */
  ghost predicate DeletionAnswered(s: State, actor: Id, id: Id, r: Result<State, AdminError>) {
    if !Known(s, id) then r == Err(NoAccount)
    else if !UnderSuspension(s, id) then r == Err(NotSuspended)
    else
      && r.Ok? && var s' := r.value;
      && OnlyAccount(s, s', id)
      && (id in s.locals ==> s'.locals[id] == s.locals[id].(purged := true))
      && (id !in s.locals ==> s'.remotes == s.remotes)
      && Logged(s, s', Some(actor), Purge, id)
      && s' == s.(locals := s'.locals, remotes := s'.remotes, audit := s'.audit)
  }

  lemma DeletionIsAnswered(s: State, actor: Id, id: Id)
    ensures DeletionAnswered(s, actor, id, DeleteSuspended(s, actor, id))
  {
  }

  // ---------------------------------------------------------------- reports

  /** The report is settled as given; its target and all other reports are as before. */
  ghost predicate OnlyReport(s: State, s': State, report: Id, resolvedBy: Option<Id>)
    requires report in s.reports
  {
    && (forall other :: other in s'.reports <==> other in s.reports)
    && (forall other :: other in s.reports && other != report ==> s'.reports[other] == s.reports[other])
    && report in s'.reports
    && s'.reports[report].target == s.reports[report].target
    && s'.reports[report].resolvedBy == resolvedBy
  }

  /** The answer of the action itself, which leaves the reports alone. */
  ghost predicate ActionAnswered(s: State, actor: Id, id: Id, action: ActionType, now: Time,
      r: Result<State, AdminError>) {
    match action
    case Silence => LimitAnswered(s, Some(actor), id, true, r)
    case SuspendAccount => SuspensionAnswered(s, actor, id, true, now, r)
    case NoAction => r == if Known(s, id) then Ok(s) else Err(NoAccount)
    case OtherAction => r == Err(UnsupportedAction)
  }

  ghost predicate ReportActionAnswered(s: State, actor: Id, id: Id, report: Id, action: ActionType, now: Time,
      r: Result<State, AdminError>) {
    if report !in s.reports then r == Err(NoReport)
    else if s.reports[report].target != id then r == Err(TargetMismatch)
    else exists acted :: ActionAnswered(s, actor, id, action, now, acted) && SettledAfter(s, actor, report, acted, r)
  }

  /** The action failed and nothing else was done, or the report is resolved and that is logged last. */
  ghost predicate SettledAfter(s: State, actor: Id, report: Id, acted: Result<State, AdminError>,
      r: Result<State, AdminError>)
    requires report in s.reports
  {
    if acted.Err? then r == acted
    else
      && r.Ok? && var s' := r.value;
      && OnlyReport(s, s', report, Some(actor))
      && s'.audit == acted.value.audit + [Entry(Some(actor), ResolveReport, ReportTarget(report))]
      && s' == acted.value.(reports := s'.reports, audit := s'.audit)
  }

  /** An action for a report is the action and, if it succeeds, the resolution; neither comes alone. */
  lemma ReportActionIsAnswered(s: State, actor: Id, id: Id, report: Id, action: ActionType, now: Time)
    ensures ReportActionAnswered(s, actor, id, report, action, now,
        ActionForReport(s, actor, id, report, action, now))
  {
    if report in s.reports && s.reports[report].target == id {
      var acted := Acted(s, actor, id, action, now);
      LimitIsAnswered(s, Some(actor), id, true);
      SuspensionIsAnswered(s, actor, id, true, now);
      assert ActionAnswered(s, actor, id, action, now, acted);
      ReportsKept(s, actor, id, action, now);
      assert SettledAfter(s, actor, report, acted, ActionForReport(s, actor, id, report, action, now));
    }
  }

  /** A report is resolved by the actor or reopened, and either is logged. */
  ghost predicate SettlementAnswered(s: State, actor: Id, report: Id, resolved: bool, r: Result<State, AdminError>) {
    if report !in s.reports then r == Err(NoReport)
    else
      && r.Ok? && var s' := r.value;
      && OnlyReport(s, s', report, if resolved then Some(actor) else None)
      && s'.audit == s.audit + [Entry(Some(actor), if resolved then ResolveReport else ReopenReport,
          ReportTarget(report))]
      && s' == s.(reports := s'.reports, audit := s'.audit)
  }

  lemma SettlementIsAnswered(s: State, actor: Id, report: Id, resolved: bool)
    ensures SettlementAnswered(s, actor, report, resolved, Settled(s, actor, report, resolved))
  {
  }

  // ---------------------------------------------------------------- events

  ghost predicate CommittedAs(s: State, r: Result<State, AdminError>, s': State) {
    match r
    case Ok(committed) => s' == committed
    case Err(_) => s' == s
  }

  /** Each action commits what it is answered with. */
  lemma LimitEvent(s: State, now: Time, operator: Option<Id>, id: Id, limited: bool)
    ensures exists r ::
        LimitAnswered(s, operator, id, limited, r)
          && CommittedAs(s, r, Apply(s, Event(now, ChangeLimit(operator, id, limited))))
  {
    LimitIsAnswered(s, operator, id, limited);
  }

  lemma SuspensionEvent(s: State, now: Time, admin: Id, id: Id, suspended: bool)
    ensures exists r ::
        SuspensionAnswered(s, admin, id, suspended, now, r)
          && CommittedAs(s, r, Apply(s, Event(now, ChangeSuspension(admin, id, suspended))))
  {
    SuspensionIsAnswered(s, admin, id, suspended, now);
  }

  lemma DeletionEvent(s: State, now: Time, admin: Id, id: Id)
    ensures exists r ::
        DeletionAnswered(s, admin, id, r) && CommittedAs(s, r, Apply(s, Event(now, DeleteAccount(admin, id))))
  {
    DeletionIsAnswered(s, admin, id);
  }

  lemma ReportActionEvent(s: State, now: Time, admin: Id, id: Id, report: Id, action: ActionType)
    ensures exists r ::
        ReportActionAnswered(s, admin, id, report, action, now, r)
          && CommittedAs(s, r, Apply(s, Event(now, ActOnReport(admin, id, report, action))))
  {
    ReportActionIsAnswered(s, admin, id, report, action, now);
  }

  lemma SettlementEvent(s: State, now: Time, admin: Id, report: Id, resolved: bool)
    ensures exists r ::
        SettlementAnswered(s, admin, report, resolved, r)
          && CommittedAs(s, r, Apply(s, Event(now, SettleReport(admin, report, resolved))))
  {
    SettlementIsAnswered(s, admin, report, resolved);
  }

  /** A cleanup can be claimed from thirty days after its request until it is completed. */
  lemma ClaimEvent(s: State, now: Time, j: nat)
    ensures Apply(s, Event(now, ClaimPurge(j))) ==
        if j < |s.jobs| && s.jobs[j].completed == false && s.jobs[j].requestedAt + 2_592_000_000_000 <= now
        then s.(claimed := s.claimed + {j}) else s
  {
  }

  /** The handler of a claimed cleanup purges its account if it is suspended at that moment. */
  lemma CleanupEvent(s: State, now: Time, j: nat)
    ensures var s' := Apply(s, Event(now, RunPurge(j)));
            if j in s.claimed && j < |s.jobs| then
              var id := s.jobs[j].account;
              && OnlyAccount(s, s', id)
              && (id in s.locals ==>
                  s'.locals[id] == s.locals[id].(purged := s.locals[id].purged || s.locals[id].suspendedAt.Some?))
              && s' == s.(locals := s'.locals, handled := s.handled + {j})
            else
              s' == s
  {
  }

  /** A handled cleanup is marked completed, and no other. */
  lemma CompletionEvent(s: State, now: Time, j: nat)
    ensures var s' := Apply(s, Event(now, FinishPurge(j)));
            if j in s.handled && j < |s.jobs| then
              && |s'.jobs| == |s.jobs| && s'.jobs[j] == s.jobs[j].(completed := true)
              && (forall k :: 0 <= k < |s.jobs| && k != j ==> s'.jobs[k] == s.jobs[k])
              && s' == s.(jobs := s'.jobs)
            else
              s' == s
  {
  }

  /** New accounts start without restrictions and new reports unresolved; taken ids change nothing. */
  lemma ArrivalEvents(s: State, now: Time, id: Id, isAdmin: bool, report: Id)
    ensures Apply(s, Event(now, Register(id, isAdmin))) ==
        if id in s.locals || id in s.remotes then s
        else s.(locals := s.locals[id := LocalAccount(isAdmin := isAdmin, limited := false, suspendedAt := None,
            purged := false)])
    ensures Apply(s, Event(now, FileReport(report, id))) ==
        if report in s.reports then s
        else s.(reports := s.reports[report := Report(target := id, resolvedBy := None)])
  {
  }

  // ---------------------------------------------------------------- the ledger on reports

  /** The entry settles this report. */
  predicate Settles(entry: Entry, report: Id) {
    entry.target == ReportTarget(report) && (entry.action == ResolveReport || entry.action == ReopenReport)
  }

  /** The last entry that settles the report, if there is one. */
  ghost predicate LastWord(audit: seq<Entry>, report: Id, k: nat) {
    && k < |audit| && Settles(audit[k], report)
    && forall later :: k < later < |audit| ==> !Settles(audit[later], report)
  }

  /** The ledger's last word on the report is that this administrator resolved it. */
  ghost predicate LastResolvedBy(audit: seq<Entry>, report: Id, admin: Id) {
    exists k: nat :: LastWord(audit, report, k) && audit[k] == Entry(Some(admin), ResolveReport, ReportTarget(report))
  }

  /** The report is as the ledger's last word on it. */
  ghost predicate AsLogged(s: State, report: Id)
    requires report in s.reports
  {
    forall admin: Id :: s.reports[report].resolvedBy == Some(admin) <==> LastResolvedBy(s.audit, report, admin)
  }

  /** Entries that settle reports name an administrator and a report there is. */
  ghost predicate EntriesSound(s: State) {
    forall k :: 0 <= k < |s.audit| && s.audit[k].target.ReportTarget? ==>
        s.audit[k].actor.Some? && s.audit[k].target.id in s.reports
  }

  ghost predicate ReportsAsLogged(s: State) {
    EntriesSound(s) && forall report :: report in s.reports ==> AsLogged(s, report)
  }

  lemma SameWord(audit: seq<Entry>, entry: Entry, report: Id, k: nat)
    requires !Settles(entry, report)
    ensures LastWord(audit + [entry], report, k) <==> LastWord(audit, report, k)
  {
    var longer := audit + [entry];
    if LastWord(longer, report, k) {
      forall later | k < later < |audit|
        ensures !Settles(audit[later], report)
      {
        assert longer[later] == audit[later];
      }
    }
  }

  /** An entry about something else leaves the last word as it was. */
  lemma OtherEntry(audit: seq<Entry>, entry: Entry, report: Id, admin: Id)
    requires !Settles(entry, report)
    ensures LastResolvedBy(audit + [entry], report, admin) <==> LastResolvedBy(audit, report, admin)
  {
    var longer := audit + [entry];
    forall k: nat
      ensures LastWord(longer, report, k) <==> LastWord(audit, report, k)
    {
      SameWord(audit, entry, report, k);
    }
    if k: nat :| LastWord(audit, report, k) && audit[k] == Entry(Some(admin), ResolveReport, ReportTarget(report)) {
      assert LastWord(longer, report, k) && longer[k] == audit[k];
    }
  }

  /** An entry that settles the report is the last word on it. */
  lemma SettlingEntry(audit: seq<Entry>, entry: Entry, report: Id, admin: Id)
    requires Settles(entry, report)
    ensures LastResolvedBy(audit + [entry], report, admin) <==>
        entry == Entry(Some(admin), ResolveReport, ReportTarget(report))
  {
    var longer := audit + [entry];
    assert longer[|audit|] == entry;
    assert LastWord(longer, report, |audit|);
    forall k: nat | LastWord(longer, report, k)
      ensures k == |audit|
    {
    }
  }

  lemma EntryKeepsSound(s: State, s': State, entry: Entry)
    requires EntriesSound(s) && s'.audit == s.audit + [entry] && s'.reports.Keys == s.reports.Keys
    requires entry.target.ReportTarget? ==> entry.actor.Some? && entry.target.id in s.reports
    ensures EntriesSound(s')
  {
  }

  lemma UnsettledReport(s: State, s': State, entry: Entry, report: Id)
    requires report in s.reports && AsLogged(s, report) && !Settles(entry, report)
    requires s'.audit == s.audit + [entry] && report in s'.reports && s'.reports[report] == s.reports[report]
    ensures AsLogged(s', report)
  {
    forall admin: Id
      ensures s'.reports[report].resolvedBy == Some(admin) <==> LastResolvedBy(s'.audit, report, admin)
    {
      OtherEntry(s.audit, entry, report, admin);
    }
  }

  /** An action on accounts adds an entry about an account. */
  lemma AccountEntryKeeps(s: State, s': State, entry: Entry)
    requires ReportsAsLogged(s) && s'.reports == s.reports
    requires s'.audit == s.audit + [entry] && !entry.target.ReportTarget?
    ensures ReportsAsLogged(s')
  {
    EntryKeepsSound(s, s', entry);
    forall report | report in s'.reports
      ensures AsLogged(s', report)
    {
      UnsettledReport(s, s', entry, report);
    }
  }

  lemma SettledReport(s': State, audit: seq<Entry>, entry: Entry, report: Id)
    requires report in s'.reports && s'.audit == audit + [entry] && Settles(entry, report)
    requires entry.actor.Some?
    requires s'.reports[report].resolvedBy == if entry.action == ResolveReport then entry.actor else None
    ensures AsLogged(s', report)
  {
    forall admin: Id
      ensures s'.reports[report].resolvedBy == Some(admin) <==> LastResolvedBy(s'.audit, report, admin)
    {
      SettlingEntry(audit, entry, report, admin);
    }
  }

  lemma SettlementKeeps(s: State, s': State, report: Id, actor: Id, resolved: bool)
    requires ReportsAsLogged(s) && report in s.reports
    requires OnlyReport(s, s', report, if resolved then Some(actor) else None)
    requires s'.audit == s.audit + [Entry(Some(actor), if resolved then ResolveReport else ReopenReport,
        ReportTarget(report))]
    ensures ReportsAsLogged(s')
  {
    var entry := Entry(Some(actor), if resolved then ResolveReport else ReopenReport, ReportTarget(report));
    assert s'.reports.Keys == s.reports.Keys;
    EntryKeepsSound(s, s', entry);
    SettledReport(s', s.audit, entry, report);
    forall other | other in s'.reports && other != report
      ensures AsLogged(s', other)
    {
      UnsettledReport(s, s', entry, other);
    }
  }

  lemma FilingKeeps(s: State, report: Id, target: Id)
    requires ReportsAsLogged(s) && report !in s.reports
    ensures ReportsAsLogged(s.(reports := s.reports[report := Report(target, None)]))
  {
    var s' := s.(reports := s.reports[report := Report(target, None)]);
    forall k | 0 <= k < |s.audit|
      ensures !Settles(s.audit[k], report)
    {
    }
    assert AsLogged(s', report);
    forall other | other in s.reports
      ensures AsLogged(s', other)
    {
      assert AsLogged(s, other);
    }
  }

  lemma LimitKeeps(s: State, actor: Option<Id>, id: Id, limited: bool, r: Result<State, AdminError>)
    requires ReportsAsLogged(s) && LimitAnswered(s, actor, id, limited, r) && r.Ok?
    ensures ReportsAsLogged(r.value)
  {
    AccountEntryKeeps(s, r.value, r.value.audit[|s.audit|]);
  }

  lemma SuspensionKeeps(s: State, actor: Id, id: Id, suspended: bool, now: Time, r: Result<State, AdminError>)
    requires ReportsAsLogged(s) && SuspensionAnswered(s, actor, id, suspended, now, r) && r.Ok?
    ensures ReportsAsLogged(r.value)
  {
    AccountEntryKeeps(s, r.value, r.value.audit[|s.audit|]);
  }

  lemma DeletionKeeps(s: State, actor: Id, id: Id, r: Result<State, AdminError>)
    requires ReportsAsLogged(s) && DeletionAnswered(s, actor, id, r) && r.Ok?
    ensures ReportsAsLogged(r.value)
  {
    AccountEntryKeeps(s, r.value, r.value.audit[|s.audit|]);
  }

  lemma ReportActionKeeps(s: State, actor: Id, id: Id, report: Id, action: ActionType, now: Time,
      r: Result<State, AdminError>)
    requires ReportsAsLogged(s) && ReportActionAnswered(s, actor, id, report, action, now, r) && r.Ok?
    ensures ReportsAsLogged(r.value)
  {
    var acted :| ActionAnswered(s, actor, id, action, now, acted) && SettledAfter(s, actor, report, acted, r);
    var s1 := acted.value;
    match action {
      case Silence => LimitKeeps(s, Some(actor), id, true, acted);
      case SuspendAccount => SuspensionKeeps(s, actor, id, true, now, acted);
      case _ =>
    }
    SettlementKeeps(s1, r.value, report, actor, true);
  }

  lemma StepKeepsReports(s: State, e: Event)
    requires ReportsAsLogged(s)
    ensures ReportsAsLogged(Apply(s, e))
  {
    match e.step
    case ChangeLimit(operator, id, limited) =>
      LimitIsAnswered(s, operator, id, limited);
      if SetLimited(s, operator, id, limited).Ok? {
        LimitKeeps(s, operator, id, limited, SetLimited(s, operator, id, limited));
      }
    case ChangeSuspension(admin, id, suspended) =>
      SuspensionIsAnswered(s, admin, id, suspended, e.at);
      if SetSuspended(s, admin, id, suspended, e.at).Ok? {
        SuspensionKeeps(s, admin, id, suspended, e.at, SetSuspended(s, admin, id, suspended, e.at));
      }
    case ActOnReport(admin, id, report, action) =>
      ReportActionIsAnswered(s, admin, id, report, action, e.at);
      if ActionForReport(s, admin, id, report, action, e.at).Ok? {
        ReportActionKeeps(s, admin, id, report, action, e.at, ActionForReport(s, admin, id, report, action, e.at));
      }
    case SettleReport(admin, report, resolved) =>
      if report in s.reports {
        SettlementIsAnswered(s, admin, report, resolved);
        SettlementKeeps(s, Apply(s, e), report, admin, resolved);
      }
    case DeleteAccount(admin, id) =>
      DeletionIsAnswered(s, admin, id);
      if DeleteSuspended(s, admin, id).Ok? {
        DeletionKeeps(s, admin, id, DeleteSuspended(s, admin, id));
      }
    case FileReport(report, target) =>
      if report !in s.reports {
        FilingKeeps(s, report, target);
      }
    case _ => SameReports(s, e);
  }

  lemma SameReports(s: State, e: Event)
    requires e.step.Register? || e.step.ClaimPurge? || e.step.RunPurge? || e.step.FinishPurge?
    ensures Apply(s, e).reports == s.reports && Apply(s, e).audit == s.audit
  {
  }

  /**
   In every run that starts so, each report is resolved by exactly the administrator whom the ledger's
   last word on it names, and open exactly when there is none or it was reopened.
   */
  lemma {:induction false} LedgerSettlesReports(s: State, events: seq<Event>)
    requires ReportsAsLogged(s)
    ensures ReportsAsLogged(Run(s, events))
    decreases |events|
  {
    if events != [] {
      StepKeepsReports(s, events[0]);
      LedgerSettlesReports(Apply(s, events[0]), events[1..]);
    }
  }

  ghost predicate NothingReopened(audit: seq<Entry>) {
    forall k :: 0 <= k < |audit| ==> audit[k].action != ReopenReport
  }

  /** While nothing was reopened, a report is resolved exactly when the ledger says so anywhere. */
  lemma ResolvedIffLogged(s: State, events: seq<Event>, report: Id)
    requires ReportsAsLogged(s) && report in Run(s, events).reports && NothingReopened(Run(s, events).audit)
    ensures var s' := Run(s, events);
            s'.reports[report].resolvedBy.Some? <==>
              exists k :: 0 <= k < |s'.audit| && IsResolution(s'.audit[k], report)
  {
    var s' := Run(s, events);
    LedgerSettlesReports(s, events);
    assert AsLogged(s', report);
    if s'.reports[report].resolvedBy.Some? {
      var admin := s'.reports[report].resolvedBy.value;
      assert LastResolvedBy(s'.audit, report, admin);
      var k: nat :| LastWord(s'.audit, report, k)
          && s'.audit[k] == Entry(Some(admin), ResolveReport, ReportTarget(report));
      assert IsResolution(s'.audit[k], report);
    }
    if k: nat :| k < |s'.audit| && IsResolution(s'.audit[k], report) {
      var last := LastSettlement(s'.audit, report, k);
      assert s'.audit[last].action == ResolveReport;
      assert LastResolvedBy(s'.audit, report, s'.audit[last].actor.value);
    }
  }

  predicate IsResolution(entry: Entry, report: Id) {
    entry.action == ResolveReport && entry.target == ReportTarget(report)
  }

  lemma {:induction false} LastSettlement(audit: seq<Entry>, report: Id, k: nat) returns (last: nat)
    requires k < |audit| && Settles(audit[k], report)
    ensures LastWord(audit, report, last)
    decreases |audit| - k
  {
    if later: nat :| k < later < |audit| && Settles(audit[later], report) {
      last := LastSettlement(audit, report, later);
    } else {
      last := k;
    }
  }
}
