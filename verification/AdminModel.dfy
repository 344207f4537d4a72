/**
 Administrator actions on accounts: limiting, suspending, purging, and the audit ledger.

 Every action is one transaction and is modelled as one step; steps run one after the other.
 `AdminConsole` performs the same transactions statement by statement.
 */
module AdminModel {
  import opened Prelude

  type Id = nat

  /** Microseconds. */
  type Time = int

  const PURGE_DELAY: int := 2_592_000_000_000

  datatype LocalAccount = LocalAccount(isAdmin: bool, limited: bool, suspendedAt: Option<Time>, purged: bool) {
    predicate Suspended() {
      suspendedAt.Some?
    }
  }

  datatype RemoteActor = RemoteActor(limited: bool, suspendedAt: Option<Time>, purged: bool, deleted: bool) {
    predicate Suspended() {
      suspendedAt.Some?
    }
  }

  /** What an audit entry is about. */
  datatype Target = LocalTarget(id: Id) | RemoteTarget(id: Id) | ReportTarget(id: Id)

  datatype Action = Limit | Unlimit | Suspend | Unsuspend | Purge | ResolveReport | ReopenReport

  datatype Entry = Entry(actor: Option<Id>, action: Action, target: Target)

  datatype Report = Report(target: Id, resolvedBy: Option<Id>)

  /** A queued cleanup, due thirty days after it was requested. */
  datatype PurgeJob = PurgeJob(account: Id, requestedAt: Time, completed: bool) {
    function DueAt(): Time {
      requestedAt + PURGE_DELAY
    }
  }

  datatype State = State(
    federated: bool,
    locals: map<Id, LocalAccount>,
    remotes: map<Id, RemoteActor>,
    reports: map<Id, Report>,
    audit: seq<Entry>,
    deletes: seq<Id>,
    jobs: seq<PurgeJob>,
    claimed: set<nat>,
    handled: set<nat>)

  datatype AdminError = OwnAccount | NoAccount | FinalAdministrator | AlreadyPurged | NotSuspended | NoReport
      | TargetMismatch | UnsupportedAction

  /** The administrator's view of an account: a local one, or a remote actor that was not deleted. */
  datatype View = View(target: Target, isAdmin: bool, suspended: bool, purged: bool)

  function Find(s: State, id: Id): Option<View> {
    if id in s.locals then
      Some(View(LocalTarget(id), s.locals[id].isAdmin, s.locals[id].Suspended(), s.locals[id].purged))
    else if id in s.remotes && !s.remotes[id].deleted then
      Some(View(RemoteTarget(id), false, s.remotes[id].Suspended(), s.remotes[id].purged))
    else
      None
  }

  ghost function ActiveAdmins(s: State): set<Id> {
    set id | id in s.locals && s.locals[id].isAdmin && !s.locals[id].Suspended()
  }

  function Log(s: State, actor: Option<Id>, action: Action, target: Target): State {
    s.(audit := s.audit + [Entry(actor, action, target)])
  }

  function SetLimited(s: State, actor: Option<Id>, id: Id, limited: bool): Result<State, AdminError> {
    var found := Find(s, id);
    if found.None? then
      Err(NoAccount)
    else
      var s1 := if found.value.target.RemoteTarget?
        then s.(remotes := s.remotes[id := s.remotes[id].(limited := limited)])
        else s.(locals := s.locals[id := s.locals[id].(limited := limited)]);
      Ok(Log(s1, actor, if limited then Limit else Unlimit, found.value.target))
  }

  /** Queue the cleanup of an account unless one is already queued. */
  function EnqueuePurge(jobs: seq<PurgeJob>, account: Id, now: Time): seq<PurgeJob> {
    if exists j :: 0 <= j < |jobs| && !jobs[j].completed && jobs[j].account == account
    then jobs
    else jobs + [PurgeJob(account, now, false)]
  }

  function CancelPurges(jobs: seq<PurgeJob>, account: Id): (r: seq<PurgeJob>)
    ensures |r| == |jobs|
  {
    seq(|jobs|, j requires 0 <= j < |jobs| => if jobs[j].account == account then jobs[j].(completed := true)
        else jobs[j])
  }

  /** Setting or clearing the suspension of a local account, with what follows from a change. */
  function SuspendLocal(s: State, id: Id, suspended: bool, now: Time): State
    requires id in s.locals
  {
    var account := s.locals[id];
    var jobs :=
      if suspended && !account.Suspended() then EnqueuePurge(s.jobs, id, now)
      else if !suspended then CancelPurges(s.jobs, id)
      else s.jobs;
    s.(locals := s.locals[id := account.(suspendedAt := if suspended then Some(now) else None)], jobs := jobs)
  }

  function SuspendRemote(s: State, id: Id, suspended: bool, now: Time): State
    requires id in s.remotes
  {
    var actor := s.remotes[id];
    s.(remotes := s.remotes[id := actor.(suspendedAt := if suspended then Some(now) else None,
        purged := suspended || actor.purged)])
  }

  /** The first check a suspension or its lifting fails. */
  ghost function SuspensionRejection(s: State, actor: Id, id: Id, suspended: bool): Option<AdminError> {
    var found := Find(s, id);
    if suspended && actor == id then
      Some(OwnAccount)
    else if found.None? then
      Some(NoAccount)
    else if suspended && found.value.isAdmin && |ActiveAdmins(s)| <= 1 then
      Some(FinalAdministrator)
    else if !suspended && found.value.target.LocalTarget? && found.value.purged then
      Some(AlreadyPurged)
    else
      None
  }

  /** Other servers are told to forget an account that goes from active to suspended. */
  function AnnounceDelete(s: State, id: Id): State {
    if s.federated then s.(deletes := s.deletes + [id]) else s
  }

  ghost function SetSuspended(s: State, actor: Id, id: Id, suspended: bool, now: Time): Result<State, AdminError> {
    var rejection := SuspensionRejection(s, actor, id, suspended);
    if rejection.Some? then
      Err(rejection.value)
    else
      var found := Find(s, id).value;
      var announced := if suspended && !found.suspended && found.target.LocalTarget? then AnnounceDelete(s, id) else s;
      var updated := if found.target.LocalTarget? then SuspendLocal(announced, id, suspended, now)
          else SuspendRemote(announced, id, suspended, now);
      Ok(Log(updated, Some(actor), if suspended then Suspend else Unsuspend, found.target))
  }

  datatype ActionType = NoAction | Silence | SuspendAccount | OtherAction

  ghost function Acted(s: State, actor: Id, id: Id, action: ActionType, now: Time): Result<State, AdminError> {
    match action
    case Silence => SetLimited(s, Some(actor), id, true)
    case SuspendAccount => SetSuspended(s, actor, id, true, now)
    case NoAction => if Find(s, id).Some? then Ok(s) else Err(NoAccount)
    case OtherAction => Err(UnsupportedAction)
  }

  /** An action that also settles a report; both happen or neither does. */
  ghost function ActionForReport(s: State, actor: Id, id: Id, report: Id, action: ActionType,
      now: Time): Result<State, AdminError> {
    if report !in s.reports then
      Err(NoReport)
    else if s.reports[report].target != id then
      Err(TargetMismatch)
    else
      var acted := Acted(s, actor, id, action, now);
      if acted.Err? then
        acted
      else
        var s1 := acted.value;
        Ok(Log(s1.(reports := s1.reports[report := s.reports[report].(resolvedBy := Some(actor))]), Some(actor),
            ResolveReport, ReportTarget(report)))
  }

  /** Resolving or reopening a report without an action on its target. */
  function Settled(s: State, actor: Id, report: Id, resolved: bool): Result<State, AdminError> {
    if report !in s.reports then
      Err(NoReport)
    else
      var row := s.reports[report].(resolvedBy := if resolved then Some(actor) else None);
      Ok(Log(s.(reports := s.reports[report := row]), Some(actor),
          if resolved then ResolveReport else ReopenReport, ReportTarget(report)))
  }

  /** Purge a local account if it is still suspended and was not purged before. */
  function PurgeLocal(s: State, id: Id): State {
    if id in s.locals && s.locals[id].Suspended() && !s.locals[id].purged
    then s.(locals := s.locals[id := s.locals[id].(purged := true)])
    else s
  }

  function DeleteSuspended(s: State, actor: Id, id: Id): Result<State, AdminError> {
    var found := Find(s, id);
    if found.None? then
      Err(NoAccount)
    else if !found.value.suspended then
      Err(NotSuspended)
    else
      Ok(Log(if found.value.target.LocalTarget? then PurgeLocal(s, id) else s, Some(actor), Purge, found.value.target))
  }

  // ---------------------------------------------------------------- statement by statement

  class AdminConsole {
    const federated: bool
    var locals: map<Id, LocalAccount>
    var remotes: map<Id, RemoteActor>
    var reports: map<Id, Report>
    var audit: seq<Entry>
    var deletes: seq<Id>
    var jobs: seq<PurgeJob>
    ghost var claimed: set<nat>
    ghost var handled: set<nat>

    constructor (federated: bool, locals: map<Id, LocalAccount>, remotes: map<Id, RemoteActor>)
      ensures Contents() == State(federated, locals, remotes, map[], [], [], [], {}, {})
    {
      this.federated, this.locals, this.remotes := federated, locals, remotes;
      reports, audit, deletes, jobs, claimed, handled := map[], [], [], [], {}, {};
    }

    ghost function Contents(): State
      reads this
    {
      State(federated, locals, remotes, reports, audit, deletes, jobs, claimed, handled)
    }

    method Lookup(id: Id) returns (r: Option<View>)
      ensures r == Find(Contents(), id)
    {
      if id in locals {
        return Some(View(LocalTarget(id), locals[id].isAdmin, locals[id].Suspended(), locals[id].purged));
      }
      if id in remotes && !remotes[id].deleted {
        return Some(View(RemoteTarget(id), false, remotes[id].Suspended(), remotes[id].purged));
      }
      return None;
    }

    method CountActiveAdmins() returns (n: nat)
      ensures n == |ActiveAdmins(Contents())|
    {
      var admins := set id | id in locals && locals[id].isAdmin && !locals[id].Suspended();
      assert admins == ActiveAdmins(Contents());
      n := |admins|;
    }

    method InsertEntry(actor: Option<Id>, action: Action, target: Target)
      modifies this`audit
      ensures audit == old(audit) + [Entry(actor, action, target)]
    {
      audit := audit + [Entry(actor, action, target)];
    }

    method Limit(actor: Option<Id>, id: Id, limited: bool) returns (r: Result<(), AdminError>)
      modifies this
      ensures r.Ok? ==> SetLimited(old(Contents()), actor, id, limited) == Ok(Contents())
      ensures r.Err? ==>
          SetLimited(old(Contents()), actor, id, limited) == Err(r.error) && Contents() == old(Contents())
    {
      var found := Lookup(id);
      if found.None? {
        return Err(NoAccount);
      }
      if found.value.target.RemoteTarget? {
        remotes := remotes[id := remotes[id].(limited := limited)];
      } else {
        locals := locals[id := locals[id].(limited := limited)];
      }
      InsertEntry(actor, if limited then Action.Limit else Unlimit, found.value.target);
      return Ok(());
    }

    /** Cancel the queued cleanups of an account, one row after the other. */
    method CancelQueued(id: Id)
      modifies this`jobs
      ensures jobs == CancelPurges(old(jobs), id)
    {
      var j := 0;
      ghost var before := jobs;
      while j < |jobs|
        invariant 0 <= j <= |jobs| == |before|
        invariant forall k :: 0 <= k < j ==> jobs[k] == CancelPurges(before, id)[k]
        invariant forall k :: j <= k < |jobs| ==> jobs[k] == before[k]
      {
        if jobs[j].account == id && !jobs[j].completed {
          jobs := jobs[j := jobs[j].(completed := true)];
        }
        j := j + 1;
      }
    }

    /** The row change of a suspension; false when neither table has the id. */
    method SetSuspendedById(id: Id, suspended: bool, now: Time) returns (found: bool)
      modifies this`locals, this`remotes, this`jobs
      ensures found <==> id in old(locals) || id in old(remotes)
      ensures Contents() ==
              if id in old(locals) then SuspendLocal(old(Contents()), id, suspended, now)
              else if id in old(remotes) then SuspendRemote(old(Contents()), id, suspended, now)
              else old(Contents())
    {
      if id in locals {
        var account := locals[id];
        locals := locals[id := account.(suspendedAt := if suspended then Some(now) else None)];
        if suspended && !account.Suspended() {
          if !exists j :: 0 <= j < |jobs| && !jobs[j].completed && jobs[j].account == id {
            jobs := jobs + [PurgeJob(id, now, false)];
          }
        } else if !suspended {
          CancelQueued(id);
        }
        return true;
      }
      if id in remotes {
        remotes := remotes[id := remotes[id].(suspendedAt := if suspended then Some(now) else None)];
        if suspended {
          remotes := remotes[id := remotes[id].(purged := true)];
        }
        return true;
      }
      return false;
    }

    method Suspend(actor: Id, id: Id, suspended: bool, now: Time) returns (r: Result<(), AdminError>)
      modifies this
      ensures r.Ok? ==> SetSuspended(old(Contents()), actor, id, suspended, now) == Ok(Contents())
      ensures r.Err? ==>
          SetSuspended(old(Contents()), actor, id, suspended, now) == Err(r.error) && Contents() == old(Contents())
    {
      if suspended && actor == id {
        return Err(OwnAccount);
      }
      var found := Lookup(id);
      if found.None? {
        return Err(NoAccount);
      }
      var admins := CountActiveAdmins();
      if suspended && found.value.isAdmin && admins <= 1 {
        return Err(FinalAdministrator);
      }
      if !suspended && found.value.target.LocalTarget? && found.value.purged {
        return Err(AlreadyPurged);
      }
      if suspended && !found.value.suspended && found.value.target.LocalTarget? && federated {
        deletes := deletes + [id];
      }
      var updated := SetSuspendedById(id, suspended, now);
      assert updated;
      InsertEntry(Some(actor), if suspended then Action.Suspend else Unsuspend, found.value.target);
      return Ok(());
    }

    method ActOnReport(actor: Id, id: Id, report: Id, action: ActionType, now: Time) returns (r: Result<(), AdminError>)
      modifies this
      ensures r.Ok? ==> ActionForReport(old(Contents()), actor, id, report, action, now) == Ok(Contents())
      ensures r.Err? ==>
          ActionForReport(old(Contents()), actor, id, report, action, now) == Err(r.error)
            && Contents() == old(Contents())
    {
      if report !in reports {
        return Err(NoReport);
      }
      if reports[report].target != id {
        return Err(TargetMismatch);
      }
      match action {
        case Silence =>
          r := Limit(Some(actor), id, true);
        case SuspendAccount =>
          r := Suspend(actor, id, true, now);
        case NoAction =>
          var found := Lookup(id);
          r := if found.Some? then Ok(()) else Err(NoAccount);
        case OtherAction =>
          r := Err(UnsupportedAction);
      }
      if r.Err? {
        return;
      }
      ReportsKept(old(Contents()), actor, id, action, now);
      reports := reports[report := reports[report].(resolvedBy := Some(actor))];
      InsertEntry(Some(actor), ResolveReport, ReportTarget(report));
    }

    method Settle(actor: Id, report: Id, resolved: bool) returns (r: Result<(), AdminError>)
      modifies this
      ensures r.Ok? ==> Settled(old(Contents()), actor, report, resolved) == Ok(Contents())
      ensures r.Err? ==>
          Settled(old(Contents()), actor, report, resolved) == Err(r.error) && Contents() == old(Contents())
    {
      if report !in reports {
        return Err(NoReport);
      }
      reports := reports[report := reports[report].(resolvedBy := if resolved then Some(actor) else None)];
      InsertEntry(Some(actor), if resolved then ResolveReport else ReopenReport, ReportTarget(report));
      return Ok(());
    }

    method Delete(actor: Id, id: Id) returns (r: Result<(), AdminError>)
      modifies this
      ensures r.Ok? ==> DeleteSuspended(old(Contents()), actor, id) == Ok(Contents())
      ensures r.Err? ==> DeleteSuspended(old(Contents()), actor, id) == Err(r.error) && Contents() == old(Contents())
    {
      var found := Lookup(id);
      if found.None? {
        return Err(NoAccount);
      }
      if !found.value.suspended {
        return Err(NotSuspended);
      }
      if found.value.target.LocalTarget? && !locals[id].purged {
        locals := locals[id := locals[id].(purged := true)];
      }
      InsertEntry(Some(actor), Purge, found.value.target);
      return Ok(());
    }
  }

  /** No action touches the reports themselves. */
  lemma ReportsKept(s: State, actor: Id, id: Id, action: ActionType, now: Time)
    ensures Acted(s, actor, id, action, now).Ok? ==> Acted(s, actor, id, action, now).value.reports == s.reports
  {
  }
}
