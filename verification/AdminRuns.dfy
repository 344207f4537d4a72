/**
 What administrators can and cannot bring about, over every serial run.

 Besides the administrators' own actions a run contains registrations, filed reports and the worker
 that cleans up suspended accounts: it claims a due job, runs the cleanup, and marks the job completed,
 as three steps that others may come between.
 */
module AdminRuns {
  import opened Prelude
  import opened AdminModel

  datatype Step =
    | ChangeLimit(operator: Option<Id>, id: Id, limited: bool)
    | ChangeSuspension(admin: Id, id: Id, suspended: bool)
    | ActOnReport(admin: Id, id: Id, report: Id, action: ActionType)
    | SettleReport(admin: Id, report: Id, resolved: bool)
    | DeleteAccount(admin: Id, id: Id)
    | Register(id: Id, isAdmin: bool)
    | FileReport(report: Id, target: Id)
    | ClaimPurge(job: nat)
    | RunPurge(job: nat)
    | FinishPurge(job: nat)

  datatype Event = Event(at: Time, step: Step)

  ghost function Committed(s: State, r: Result<State, AdminError>): State {
    if r.Ok? then r.value else s
  }

  ghost function Apply(s: State, e: Event): State {
    match e.step
    case ChangeLimit(admin, id, limited) => Committed(s, SetLimited(s, admin, id, limited))
    case ChangeSuspension(admin, id, suspended) => Committed(s, SetSuspended(s, admin, id, suspended, e.at))
    case ActOnReport(admin, id, report, action) => Committed(s, ActionForReport(s, admin, id, report, action, e.at))
    case SettleReport(admin, report, resolved) => Committed(s, Settled(s, admin, report, resolved))
    case DeleteAccount(admin, id) => Committed(s, DeleteSuspended(s, admin, id))
    case Register(id, isAdmin) =>
      if id in s.locals || id in s.remotes then s
          else s.(locals := s.locals[id := LocalAccount(isAdmin, false, None, false)])
    case FileReport(report, target) =>
      if report in s.reports then s else s.(reports := s.reports[report := Report(target, None)])
    case ClaimPurge(j) =>
      if j < |s.jobs| && !s.jobs[j].completed && s.jobs[j].DueAt() <= e.at then s.(claimed := s.claimed + {j}) else s
    case RunPurge(j) =>
      if j in s.claimed && j < |s.jobs| then PurgeLocal(s, s.jobs[j].account).(handled := s.handled + {j}) else s
    case FinishPurge(j) =>
      if j in s.handled && j < |s.jobs| then s.(jobs := s.jobs[j := s.jobs[j].(completed := true)]) else s
  }

  ghost function Run(s: State, events: seq<Event>): State
    decreases |events|
  {
    if events == [] then s else Run(Apply(s, events[0]), events[1..])
  }

  // ---------------------------------------------------------------- what an event amounts to

  /** What an event does to local accounts, if anything. */
  datatype Effect = Nothing | Limits(id: Id, limited: bool) | Suspends(id: Id, suspended: bool) | Purges(id: Id)
      | Adds(id: Id, isAdmin: bool) | Finishes(job: nat)

  ghost function SuspensionEffect(s: State, admin: Id, id: Id, suspended: bool): Effect {
    if id in s.locals && SuspensionRejection(s, admin, id, suspended).None? then Suspends(id, suspended) else Nothing
  }

  ghost function EffectOf(s: State, e: Event): Effect {
    match e.step
    case ChangeLimit(_, id, limited) => if id in s.locals then Limits(id, limited) else Nothing
    case ChangeSuspension(admin, id, suspended) => SuspensionEffect(s, admin, id, suspended)
    case ActOnReport(admin, id, report, action) =>
      if report in s.reports && s.reports[report].target == id && id in s.locals && action == Silence
          then Limits(id, true)
      else if report in s.reports && s.reports[report].target == id && action == SuspendAccount
          then SuspensionEffect(s, admin, id, true)
      else Nothing
    case DeleteAccount(_, id) => if id in s.locals && s.locals[id].Suspended() then Purges(id) else Nothing
    case Register(id, isAdmin) => if id in s.locals || id in s.remotes then Nothing else Adds(id, isAdmin)
    case RunPurge(j) => if j in s.claimed && j < |s.jobs| then Purges(s.jobs[j].account) else Nothing
    case FinishPurge(j) => if j in s.handled && j < |s.jobs| then Finishes(j) else Nothing
    case _ => Nothing
  }

  function LocalsAfter(locals: map<Id, LocalAccount>, effect: Effect, at: Time): map<Id, LocalAccount> {
    match effect
    case Nothing => locals
    case Limits(id, limited) => if id in locals then locals[id := locals[id].(limited := limited)] else locals
    case Suspends(id, suspended) =>
        if id in locals then locals[id := locals[id].(suspendedAt := if suspended then Some(at) else None)] else locals
    case Purges(id) =>
        if id in locals && locals[id].Suspended() then locals[id := locals[id].(purged := true)] else locals
    case Adds(id, isAdmin) => if id in locals then locals else locals[id := LocalAccount(isAdmin, false, None, false)]
    case Finishes(_) => locals
  }

  /** An active account is being suspended. */
  predicate Fells(s: State, effect: Effect) {
    effect.Suspends? && effect.suspended && effect.id in s.locals && !s.locals[effect.id].Suspended()
  }

  function JobsAfter(s: State, effect: Effect, at: Time): seq<PurgeJob> {
    if Fells(s, effect) then EnqueuePurge(s.jobs, effect.id, at)
    else if effect.Suspends? && !effect.suspended then CancelPurges(s.jobs, effect.id)
    else if effect.Finishes? && effect.job < |s.jobs| then s.jobs[effect.job := s.jobs[effect.job].(completed := true)]
    else s.jobs
  }

  function DeletesAfter(s: State, effect: Effect): seq<Id> {
    if Fells(s, effect) && s.federated then s.deletes + [effect.id] else s.deletes
  }

  ghost predicate Effected(s: State, s': State, effect: Effect, at: Time) {
    && s'.locals == LocalsAfter(s.locals, effect, at)
    && s'.jobs == JobsAfter(s, effect, at)
    && s'.deletes == DeletesAfter(s, effect)
    && s'.federated == s.federated
  }

  lemma LimitEffect(s: State, operator: Option<Id>, id: Id, limited: bool, now: Time)
    ensures Effected(s, Committed(s, SetLimited(s, operator, id, limited)),
        if id in s.locals then Limits(id, limited) else Nothing, now)
  {
  }

  lemma SuspendEffect(s: State, admin: Id, id: Id, suspended: bool, now: Time)
    ensures Effected(s, Committed(s, SetSuspended(s, admin, id, suspended, now)),
        SuspensionEffect(s, admin, id, suspended), now)
  {
  }

  lemma ReportEffect(s: State, e: Event)
    requires e.step.ActOnReport?
    ensures Effected(s, Apply(s, e), EffectOf(s, e), e.at)
  {
    match e.step.action
    case Silence => SilenceEffect(s, e);
    case SuspendAccount => SuspendForReportEffect(s, e);
    case _ =>
  }

  lemma SilenceEffect(s: State, e: Event)
    requires e.step.ActOnReport? && e.step.action == Silence
    ensures Effected(s, Apply(s, e), EffectOf(s, e), e.at)
  {
    LimitEffect(s, Some(e.step.admin), e.step.id, true, e.at);
  }

  lemma SuspendForReportEffect(s: State, e: Event)
    requires e.step.ActOnReport? && e.step.action == SuspendAccount
    ensures Effected(s, Apply(s, e), EffectOf(s, e), e.at)
  {
    SuspendEffect(s, e.step.admin, e.step.id, true, e.at);
  }

  lemma EventEffect(s: State, e: Event)
    ensures Effected(s, Apply(s, e), EffectOf(s, e), e.at)
  {
    match e.step
    case ChangeLimit(operator, id, limited) => LimitEffect(s, operator, id, limited, e.at);
    case ChangeSuspension(admin, id, suspended) => SuspendEffect(s, admin, id, suspended, e.at);
    case ActOnReport(_, _, _, _) => ReportEffect(s, e);
    case _ => OtherEffect(s, e);
  }

  lemma OtherEffect(s: State, e: Event)
    requires !e.step.ChangeLimit? && !e.step.ChangeSuspension? && !e.step.ActOnReport?
    ensures Effected(s, Apply(s, e), EffectOf(s, e), e.at)
  {
    match e.step
    case DeleteAccount(admin, id) => DeleteEffect(s, admin, id, e.at);
    case RunPurge(j) =>
      if j < |s.jobs| {
        PurgedRow(s, s.jobs[j].account);
      }
    case _ => PlainEffect(s, e);
  }

  lemma PlainEffect(s: State, e: Event)
    requires e.step.Register? || e.step.FileReport? || e.step.ClaimPurge? || e.step.FinishPurge?
        || e.step.SettleReport?
    ensures Effected(s, Apply(s, e), EffectOf(s, e), e.at)
  {
  }

  lemma DeleteEffect(s: State, admin: Id, id: Id, now: Time)
    ensures Effected(s, Committed(s, DeleteSuspended(s, admin, id)),
        if id in s.locals && s.locals[id].Suspended() then Purges(id) else Nothing, now)
  {
    PurgedRow(s, id);
  }

  lemma PurgedRow(s: State, id: Id)
    ensures PurgeLocal(s, id) == s.(locals := LocalsAfter(s.locals, Purges(id), 0))
  {
    assert id in s.locals ==> s.locals[id := s.locals[id]] == s.locals;
  }

  /** When a suspension, or lifting one, is accepted. */
  lemma SuspendAcceptedIff(s: State, admin: Id, id: Id, now: Time)
    ensures SetSuspended(s, admin, id, true, now).Ok? <==>
              && admin != id
              && (id in s.locals || (id in s.remotes && !s.remotes[id].deleted))
              && (id in s.locals && s.locals[id].isAdmin ==> |ActiveAdmins(s)| >= 2)
    ensures SetSuspended(s, admin, id, false, now).Ok? <==>
              if id in s.locals then !s.locals[id].purged else id in s.remotes && !s.remotes[id].deleted
  {
  }

  lemma SuspendsOnlyUnlessLast(s: State, e: Event, id: Id)
    requires EffectOf(s, e) == Suspends(id, true) && id in ActiveAdmins(s)
    ensures |ActiveAdmins(s)| >= 2
  {
  }

  lemma ReleasesOnlyUnpurged(s: State, e: Event, id: Id)
    requires EffectOf(s, e) == Suspends(id, false) && id in s.locals
    ensures !s.locals[id].purged
  {
  }

  // ---------------------------------------------------------------- an administrator remains

  lemma AdminStays(s: State, s': State, effect: Effect, at: Time, id: Id)
    requires Effected(s, s', effect, at) && id in ActiveAdmins(s) && effect != Suspends(id, true)
    ensures id in ActiveAdmins(s')
  {
  }

  lemma StepLeavesAdmin(s: State, e: Event)
    requires ActiveAdmins(s) != {}
    ensures ActiveAdmins(Apply(s, e)) != {}
  {
    EventEffect(s, e);
    var admins := ActiveAdmins(s);
    var id: nat :| id in admins;
    if EffectOf(s, e) == Suspends(id, true) {
      SuspendsOnlyUnlessLast(s, e, id);
      assert |admins - {id}| >= 1;
      var other: nat :| other in admins - {id};
      AdminStays(s, Apply(s, e), EffectOf(s, e), e.at, other);
    } else {
      AdminStays(s, Apply(s, e), EffectOf(s, e), e.at, id);
    }
  }

  /** Whatever administrators do to each other, one of them stays active. */
  lemma {:induction false} AnAdministratorRemains(s: State, events: seq<Event>)
    requires ActiveAdmins(s) != {}
    ensures ActiveAdmins(Run(s, events)) != {}
    decreases |events|
  {
    if events != [] {
      StepLeavesAdmin(s, events[0]);
      AnAdministratorRemains(Apply(s, events[0]), events[1..]);
    }
  }

  // ---------------------------------------------------------------- purged accounts

  ghost predicate PurgedSuspended(s: State) {
    forall id :: id in s.locals && s.locals[id].purged ==> s.locals[id].Suspended()
  }

  lemma EffectKeepsPurged(s: State, s': State, effect: Effect, at: Time)
    requires PurgedSuspended(s) && Effected(s, s', effect, at)
    requires effect.Suspends? && !effect.suspended && effect.id in s.locals ==> !s.locals[effect.id].purged
    ensures PurgedSuspended(s')
    ensures forall id :: id in s.locals && s.locals[id].purged ==> id in s'.locals && s'.locals[id].purged
  {
  }

  lemma StepKeepsPurged(s: State, e: Event)
    requires PurgedSuspended(s)
    ensures PurgedSuspended(Apply(s, e))
    ensures forall id :: id in s.locals && s.locals[id].purged ==>
        id in Apply(s, e).locals && Apply(s, e).locals[id].purged
  {
    EventEffect(s, e);
    var effect := EffectOf(s, e);
    if effect.Suspends? && !effect.suspended && effect.id in s.locals {
      ReleasesOnlyUnpurged(s, e, effect.id);
    }
    EffectKeepsPurged(s, Apply(s, e), effect, e.at);
  }

  /** Once purged, a local account is purged and suspended in every continuation. */
  lemma {:induction false} PurgedStaysSuspended(s: State, events: seq<Event>, id: Id)
    requires PurgedSuspended(s)
    ensures PurgedSuspended(Run(s, events))
    ensures id in s.locals && s.locals[id].purged ==>
              id in Run(s, events).locals && Run(s, events).locals[id].purged && Run(s, events).locals[id].Suspended()
    decreases |events|
  {
    if events != [] {
      StepKeepsPurged(s, events[0]);
      PurgedStaysSuspended(Apply(s, events[0]), events[1..], id);
    }
  }

  // ---------------------------------------------------------------- the ledger

  datatype Flags = Flags(limited: bool, suspended: bool)

  /** The flags of an account; an account that does not exist yet counts as unrestricted. */
  function FlagsOf(s: State, target: Target): Flags {
    match target
    case LocalTarget(id) =>
        if id in s.locals then Flags(s.locals[id].limited, s.locals[id].Suspended()) else Flags(false, false)
    case RemoteTarget(id) =>
        if id in s.remotes then Flags(s.remotes[id].limited, s.remotes[id].Suspended()) else Flags(false, false)
    case ReportTarget(_) => Flags(false, false)
  }

  function Replayed(flags: Flags, target: Target, entry: Entry): Flags {
    if entry.target != target then flags
    else match entry.action
      case Limit => flags.(limited := true)
      case Unlimit => flags.(limited := false)
      case Suspend => flags.(suspended := true)
      case Unsuspend => flags.(suspended := false)
      case Purge => flags
      case ResolveReport => flags
      case ReopenReport => flags
  }

  function Replay(flags: Flags, target: Target, entries: seq<Entry>): Flags {
    if entries == [] then flags else Replayed(Replay(flags, target, entries[..|entries| - 1]), target,
        entries[|entries| - 1])
  }

  lemma {:induction false} ReplayConcat(flags: Flags, target: Target, a: seq<Entry>, b: seq<Entry>)
    ensures Replay(flags, target, a + b) == Replay(Replay(flags, target, a), target, b)
    decreases |b|
  {
    if b == [] {
      assert a + b == a;
    } else {
      var front := b[..|b| - 1];
      ReplayConcat(flags, target, a, front);
      assert (a + b)[..|a + b| - 1] == a + front;
    }
  }

  lemma ReplayOne(flags: Flags, target: Target, entry: Entry)
    ensures Replay(flags, target, [entry]) == Replayed(flags, target, entry)
  {
    assert [entry][..0] == [];
    assert Replay(flags, target, []) == flags;
  }

  /** What a committed transaction adds to the ledger explains what it does to the flags. */
  ghost predicate Explained(s: State, s': State, target: Target) {
    && s.audit <= s'.audit
    && FlagsOf(s', target) == Replay(FlagsOf(s, target), target, s'.audit[|s.audit|..])
  }

  lemma NothingToExplain(s: State, s': State, target: Target)
    requires s'.audit == s.audit && FlagsOf(s', target) == FlagsOf(s, target)
    ensures Explained(s, s', target)
  {
    assert s'.audit[|s.audit|..] == [];
  }

  lemma ExplainedByOne(s: State, s': State, target: Target, entry: Entry)
    requires s'.audit == s.audit + [entry] && FlagsOf(s', target) == Replayed(FlagsOf(s, target), target, entry)
    ensures Explained(s, s', target)
  {
    assert s'.audit[|s.audit|..] == [entry];
    ReplayOne(FlagsOf(s, target), target, entry);
  }

  lemma ExplainedChain(s: State, s1: State, s2: State, target: Target)
    requires Explained(s, s1, target) && Explained(s1, s2, target)
    ensures Explained(s, s2, target)
  {
    var a, b := s1.audit[|s.audit|..], s2.audit[|s1.audit|..];
    assert s2.audit[|s.audit|..] == a + b;
    ReplayConcat(FlagsOf(s, target), target, a, b);
  }

  lemma LimitExplained(s: State, admin: Option<Id>, id: Id, limited: bool, target: Target)
    requires SetLimited(s, admin, id, limited).Ok?
    ensures Explained(s, SetLimited(s, admin, id, limited).value, target)
  {
    ExplainedByOne(s, SetLimited(s, admin, id, limited).value, target,
        Entry(admin, if limited then Limit else Unlimit, Find(s, id).value.target));
  }

  lemma SuspendExplained(s: State, admin: Id, id: Id, suspended: bool, now: Time, target: Target)
    requires SetSuspended(s, admin, id, suspended, now).Ok?
    ensures Explained(s, SetSuspended(s, admin, id, suspended, now).value, target)
  {
    ExplainedByOne(s, SetSuspended(s, admin, id, suspended, now).value, target,
        Entry(Some(admin), if suspended then Suspend else Unsuspend, Find(s, id).value.target));
  }

  lemma ReportExplained(s: State, admin: Id, id: Id, report: Id, action: ActionType, now: Time, target: Target)
    requires ActionForReport(s, admin, id, report, action, now).Ok?
    ensures Explained(s, ActionForReport(s, admin, id, report, action, now).value, target)
  {
    var s1 := Acted(s, admin, id, action, now).value;
    match action {
      case Silence => LimitExplained(s, Some(admin), id, true, target);
      case SuspendAccount => SuspendExplained(s, admin, id, true, now, target);
      case NoAction => NothingToExplain(s, s1, target);
      case OtherAction =>
    }
    var s2 := ActionForReport(s, admin, id, report, action, now).value;
    ExplainedByOne(s1, s2, target, Entry(Some(admin), ResolveReport, ReportTarget(report)));
    ExplainedChain(s, s1, s2, target);
  }

  lemma StepExplained(s: State, e: Event, target: Target)
    ensures Explained(s, Apply(s, e), target)
  {
    match e.step
    case ChangeLimit(admin, id, limited) =>
      if SetLimited(s, admin, id, limited).Ok? {
        LimitExplained(s, admin, id, limited, target);
      } else {
        NothingToExplain(s, s, target);
      }
    case ChangeSuspension(admin, id, suspended) =>
      if SetSuspended(s, admin, id, suspended, e.at).Ok? {
        SuspendExplained(s, admin, id, suspended, e.at, target);
      } else {
        NothingToExplain(s, s, target);
      }
    case ActOnReport(admin, id, report, action) =>
      if ActionForReport(s, admin, id, report, action, e.at).Ok? {
        ReportExplained(s, admin, id, report, action, e.at, target);
      } else {
        NothingToExplain(s, s, target);
      }
    case DeleteAccount(admin, id) =>
      if DeleteSuspended(s, admin, id).Ok? {
        DeleteExplained(s, admin, id, target);
      } else {
        NothingToExplain(s, s, target);
      }
    case SettleReport(admin, report, resolved) => SettleExplained(s, admin, report, resolved, e.at, target);
    case _ => UnloggedExplained(s, e, target);
  }

  lemma DeleteExplained(s: State, admin: Id, id: Id, target: Target)
    requires DeleteSuspended(s, admin, id).Ok?
    ensures Explained(s, DeleteSuspended(s, admin, id).value, target)
  {
    ExplainedByOne(s, DeleteSuspended(s, admin, id).value, target, Entry(Some(admin), Purge, Find(s, id).value.target));
  }

  lemma SettleExplained(s: State, admin: Id, report: Id, resolved: bool, now: Time, target: Target)
    ensures Explained(s, Apply(s, Event(now, SettleReport(admin, report, resolved))), target)
  {
    var s' := Apply(s, Event(now, SettleReport(admin, report, resolved)));
    if report in s.reports {
      ExplainedByOne(s, s', target,
          Entry(Some(admin), if resolved then ResolveReport else ReopenReport, ReportTarget(report)));
    } else {
      NothingToExplain(s, s', target);
    }
  }

  lemma UnloggedExplained(s: State, e: Event, target: Target)
    requires e.step.Register? || e.step.FileReport? || e.step.ClaimPurge? || e.step.RunPurge? || e.step.FinishPurge?
    ensures Explained(s, Apply(s, e), target)
  {
    NothingToExplain(s, Apply(s, e), target);
  }

  /**
   The ledger is append-only, and replaying what a run added to it turns every account's flags before
   the run into its flags after it.
   */
  lemma {:induction false} LedgerReplaysFlags(s: State, events: seq<Event>, target: Target)
    ensures Explained(s, Run(s, events), target)
    decreases |events|
  {
    if events == [] {
      NothingToExplain(s, s, target);
    } else {
      var s1 := Apply(s, events[0]);
      StepExplained(s, events[0], target);
      LedgerReplaysFlags(s1, events[1..], target);
      ExplainedChain(s, s1, Run(s1, events[1..]), target);
    }
  }

  // ---------------------------------------------------------------- telling other servers

  /** The account was active before and is suspended after. */
  ghost predicate Falls(s: State, s': State, id: Id) {
    id in s.locals && !s.locals[id].Suspended() && id in s'.locals && s'.locals[id].Suspended()
  }

  /** How often the account goes from active to suspended during the run. */
  ghost function Transitions(s: State, events: seq<Event>, id: Id): nat
    decreases |events|
  {
    if events == [] then 0
    else (if Falls(s, Apply(s, events[0]), id) then 1 else 0) + Transitions(Apply(s, events[0]), events[1..], id)
  }

  lemma StepAnnounces(s: State, s': State, effect: Effect, at: Time, id: Id)
    requires Effected(s, s', effect, at)
    ensures multiset(s'.deletes)[id] == multiset(s.deletes)[id] + if Falls(s, s', id) && s.federated then 1 else 0
  {
    if effect.Suspends? {
      assert multiset(s.deletes + [effect.id]) == multiset(s.deletes) + multiset{effect.id};
    }
  }

  /** Deletions announced for a local account are exactly its transitions from active to suspended. */
  lemma {:induction false} AnnouncedPerTransition(s: State, events: seq<Event>, id: Id)
    ensures multiset(Run(s, events).deletes)[id] == multiset(s.deletes)[id] + if s.federated
        then Transitions(s, events, id) else 0
    decreases |events|
  {
    if events != [] {
      EventEffect(s, events[0]);
      StepAnnounces(s, Apply(s, events[0]), EffectOf(s, events[0]), events[0].at, id);
      AnnouncedPerTransition(Apply(s, events[0]), events[1..], id);
    }
  }

  // ---------------------------------------------------------------- cleanups

  ghost predicate Queued(s: State, id: Id) {
    exists j :: 0 <= j < |s.jobs| && !s.jobs[j].completed && s.jobs[j].account == id
  }

  /**
   An uncompleted cleanup is for a suspended account, and once its handler has run the account is
   purged; a suspended account that is not purged yet has an uncompleted cleanup.
   */
  ghost predicate Cleanups(s: State) {
    && (forall j :: 0 <= j < |s.jobs| && !s.jobs[j].completed ==> JobJustified(s, j))
    && (forall id :: id in s.locals && s.locals[id].Suspended() && !s.locals[id].purged ==> Queued(s, id))
  }

  ghost predicate JobJustified(s: State, j: nat)
    requires j < |s.jobs|
  {
    var id := s.jobs[j].account;
    id in s.locals && s.locals[id].Suspended() && (j in s.handled ==> s.locals[id].purged)
  }

  /** The parts of the state the cleanup protocol depends on are as before. */
  ghost predicate SameForCleanups(s: State, s': State) {
    && s'.jobs == s.jobs && s'.handled == s.handled
    && (forall id :: id in s.locals ==>
        id in s'.locals && s'.locals[id].Suspended() == s.locals[id].Suspended()
          && (s.locals[id].purged ==> s'.locals[id].purged))
    && (forall id :: id in s'.locals && id !in s.locals ==> !s'.locals[id].Suspended())
  }

  lemma SameKeepsCleanups(s: State, s': State)
    requires Cleanups(s) && SameForCleanups(s, s')
    ensures Cleanups(s')
  {
    forall j | 0 <= j < |s'.jobs| && !s'.jobs[j].completed
      ensures JobJustified(s', j)
    {
      assert JobJustified(s, j);
    }
    forall id | id in s'.locals && s'.locals[id].Suspended() && !s'.locals[id].purged
      ensures Queued(s', id)
    {
      assert id in s.locals && Queued(s, id);
    }
  }

  lemma FallKeepsCleanups(s: State, s': State, effect: Effect, at: Time)
    requires Cleanups(s) && HandledKnown(s) && Effected(s, s', effect, at) && Fells(s, effect)
        && s'.handled == s.handled
    ensures Cleanups(s')
  {
    forall j | 0 <= j < |s'.jobs| && !s'.jobs[j].completed
      ensures JobJustified(s', j)
    {
      if j < |s.jobs| {
        assert JobJustified(s, j);
      }
    }
    forall x | x in s'.locals && s'.locals[x].Suspended() && !s'.locals[x].purged
      ensures Queued(s', x)
    {
      if x == effect.id {
        NowQueued(s.jobs, x, at);
      } else {
        assert Queued(s, x);
        var j :| 0 <= j < |s.jobs| && !s.jobs[j].completed && s.jobs[j].account == x;
        assert s'.jobs[j] == s.jobs[j];
      }
    }
  }

  lemma NowQueued(jobs: seq<PurgeJob>, id: Id, now: Time)
    ensures exists j ::
        0 <= j < |EnqueuePurge(jobs, id, now)| && !EnqueuePurge(jobs, id, now)[j].completed
          && EnqueuePurge(jobs, id, now)[j].account == id
  {
    var r := EnqueuePurge(jobs, id, now);
    if r != jobs {
      assert !r[|jobs|].completed && r[|jobs|].account == id;
    }
  }

  lemma ReleaseKeepsCleanups(s: State, s': State, effect: Effect, at: Time)
    requires Cleanups(s) && Effected(s, s', effect, at) && effect.Suspends? && !effect.suspended
        && effect.id in s.locals && s'.handled == s.handled
    ensures Cleanups(s')
  {
    forall j | 0 <= j < |s'.jobs| && !s'.jobs[j].completed
      ensures JobJustified(s', j)
    {
      assert s.jobs[j].account != effect.id && JobJustified(s, j);
    }
    forall x | x in s'.locals && s'.locals[x].Suspended() && !s'.locals[x].purged
      ensures Queued(s', x)
    {
      assert x != effect.id && Queued(s, x);
      var j :| 0 <= j < |s.jobs| && !s.jobs[j].completed && s.jobs[j].account == x;
      assert s'.jobs[j] == s.jobs[j];
    }
  }

  /** Every other effect on accounts leaves the protocol where it was. */
  lemma OthersKeepCleanups(s: State, s': State, effect: Effect, at: Time)
    requires Cleanups(s) && Effected(s, s', effect, at) && s'.handled == s.handled
    requires !Fells(s, effect) && !(effect.Suspends? && !effect.suspended) && !effect.Finishes?
    ensures Cleanups(s')
  {
    SameKeepsCleanups(s, s');
  }

  lemma PurgeKeepsCleanups(s: State, s': State, j: nat, at: Time)
    requires Cleanups(s) && j < |s.jobs| && Effected(s, s', Purges(s.jobs[j].account), at)
        && s'.handled == s.handled + {j}
    ensures Cleanups(s')
  {
    forall k | 0 <= k < |s'.jobs| && !s'.jobs[k].completed
      ensures JobJustified(s', k)
    {
      assert JobJustified(s, k);
    }
    forall id | id in s'.locals && s'.locals[id].Suspended() && !s'.locals[id].purged
      ensures Queued(s', id)
    {
      assert Queued(s, id);
    }
  }

  lemma FinishKeepsCleanups(s: State, s': State, j: nat, at: Time)
    requires Cleanups(s) && j < |s.jobs| && j in s.handled && Effected(s, s', Finishes(j), at)
        && s'.handled == s.handled
    ensures Cleanups(s')
  {
    forall k | 0 <= k < |s'.jobs| && !s'.jobs[k].completed
      ensures JobJustified(s', k)
    {
      assert JobJustified(s, k);
    }
    forall id | id in s'.locals && s'.locals[id].Suspended() && !s'.locals[id].purged
      ensures Queued(s', id)
    {
      assert Queued(s, id);
      var k :| 0 <= k < |s.jobs| && !s.jobs[k].completed && s.jobs[k].account == id;
      assert JobJustified(s, k);
      assert s'.jobs[k] == s.jobs[k];
    }
  }

  ghost predicate HandledKnown(s: State) {
    forall j :: j in s.handled ==> j < |s.jobs|
  }

  ghost predicate Worker(s: State) {
    Cleanups(s) && HandledKnown(s)
  }

  /** Only the worker's own steps change what is claimed and handled. */
  lemma OnlyWorkIsHandled(s: State, e: Event)
    requires !e.step.RunPurge?
    ensures Apply(s, e).handled == s.handled
    ensures !e.step.ClaimPurge? ==> Apply(s, e).claimed == s.claimed
  {
    if e.step.ActOnReport? {
      assert Acted(s, e.step.admin, e.step.id, e.step.action, e.at).Ok? ==>
        Acted(s, e.step.admin, e.step.id, e.step.action, e.at).value.handled == s.handled
        && Acted(s, e.step.admin, e.step.id, e.step.action, e.at).value.claimed == s.claimed;
    }
  }

  lemma StepKeepsCleanups(s: State, e: Event)
    requires Worker(s)
    ensures Worker(Apply(s, e))
  {
    var s', effect := Apply(s, e), EffectOf(s, e);
    EventEffect(s, e);
    if e.step.RunPurge? && effect.Purges? {
      PurgeKeepsCleanups(s, s', e.step.job, e.at);
    } else if !e.step.RunPurge? {
      OnlyWorkIsHandled(s, e);
      EffectKeepsCleanups(s, s', effect, e.at);
    }
  }

  lemma EffectKeepsCleanups(s: State, s': State, effect: Effect, at: Time)
    requires Worker(s) && Effected(s, s', effect, at) && s'.handled == s.handled
    requires effect.Finishes? ==> effect.job < |s.jobs| && effect.job in s.handled
    requires effect.Suspends? ==> effect.id in s.locals
    ensures Worker(s')
  {
    if Fells(s, effect) {
      FallKeepsCleanups(s, s', effect, at);
    } else if effect.Suspends? && !effect.suspended {
      ReleaseKeepsCleanups(s, s', effect, at);
    } else if effect.Finishes? {
      FinishKeepsCleanups(s, s', effect.job, at);
    } else {
      OthersKeepCleanups(s, s', effect, at);
    }
  }

  /** In every run, each suspended local account is purged or has a cleanup that is not completed. */
  lemma {:induction false} NoCleanupForgotten(s: State, events: seq<Event>)
    requires Worker(s)
    ensures Worker(Run(s, events))
    decreases |events|
  {
    if events != [] {
      StepKeepsCleanups(s, events[0]);
      NoCleanupForgotten(Apply(s, events[0]), events[1..]);
    }
  }

  // ---------------------------------------------------------------- thirty days

  /** When each account last went from active to suspended. */
  function FellAfter(fell: map<Id, Time>, s: State, effect: Effect, at: Time): map<Id, Time> {
    if Fells(s, effect) then fell[effect.id := at] else fell
  }

  ghost function FellDuring(s: State, fell: map<Id, Time>, events: seq<Event>): map<Id, Time>
    decreases |events|
  {
    if events == [] then fell
    else FellDuring(Apply(s, events[0]), FellAfter(fell, s, EffectOf(s, events[0]), events[0].at), events[1..])
  }

  ghost predicate Timely(clock: Time, events: seq<Event>)
    decreases |events|
  {
    events == [] || (clock <= events[0].at && Timely(events[0].at, events[1..]))
  }

  function Clock(clock: Time, events: seq<Event>): Time {
    if events == [] then clock else events[|events| - 1].at
  }

  /** An uncompleted cleanup dates from the suspension in force; a claimed one is due. */
  ghost predicate Dated(s: State, fell: map<Id, Time>, clock: Time) {
    && (forall j :: 0 <= j < |s.jobs| && !s.jobs[j].completed ==>
        s.jobs[j].account in fell && fell[s.jobs[j].account] == s.jobs[j].requestedAt)
    && (forall j :: j in s.claimed ==> j < |s.jobs| && s.jobs[j].DueAt() <= clock)
  }

  lemma EffectKeepsDates(s: State, s': State, fell: map<Id, Time>, effect: Effect, at: Time, clock: Time)
    requires Worker(s) && Dated(s, fell, clock) && clock <= at && Effected(s, s', effect, at) && s'.claimed == s.claimed
    ensures Dated(s', FellAfter(fell, s, effect, at), at)
  {
    if Fells(s, effect) {
      forall j | 0 <= j < |s.jobs| && !s.jobs[j].completed
        ensures s.jobs[j].account != effect.id
      {
        assert JobJustified(s, j);
      }
    }
  }

  lemma StepKeepsDates(s: State, e: Event, fell: map<Id, Time>, clock: Time)
    requires Worker(s) && Dated(s, fell, clock) && clock <= e.at
    ensures Dated(Apply(s, e), FellAfter(fell, s, EffectOf(s, e), e.at), e.at)
  {
    if !e.step.ClaimPurge? {
      EventEffect(s, e);
      if !e.step.RunPurge? {
        OnlyWorkIsHandled(s, e);
      }
      EffectKeepsDates(s, Apply(s, e), fell, EffectOf(s, e), e.at, clock);
    }
  }

  lemma {:induction false} RunKeepsDates(s: State, events: seq<Event>, fell: map<Id, Time>, clock: Time)
    requires Worker(s) && Dated(s, fell, clock) && Timely(clock, events)
    ensures Worker(Run(s, events)) && Dated(Run(s, events), FellDuring(s, fell, events), Clock(clock, events))
    decreases |events|
  {
    if events != [] {
      StepKeepsDates(s, events[0], fell, clock);
      StepKeepsCleanups(s, events[0]);
      RunKeepsDates(Apply(s, events[0]), events[1..], FellAfter(fell, s, EffectOf(s, events[0]), events[0].at),
          events[0].at);
    }
  }

  /**
   The worker leaves a suspended account thirty days, counted from when it went from active to
   suspended, as long as the job it has claimed was not cancelled in between.
   */
  lemma WorkerWaitsThirtyDays(s: State, events: seq<Event>, fell: map<Id, Time>, clock: Time, j: nat)
    requires Worker(s) && Dated(s, fell, clock) && Timely(clock, events)
    ensures var s' := Run(s, events);
            var fell' := FellDuring(s, fell, events);
            j in s'.claimed && j < |s'.jobs| && !s'.jobs[j].completed ==>
              s'.jobs[j].account in fell' && fell'[s'.jobs[j].account] + PURGE_DELAY <= Clock(clock, events)
  {
    RunKeepsDates(s, events, fell, clock);
  }

  /** Nobody is suspended or purged yet and the worker has nothing to do. */
  ghost predicate Untouched(s: State) {
    && s.jobs == [] && s.claimed == {} && s.handled == {}
    && forall id :: id in s.locals ==> !s.locals[id].Suspended() && !s.locals[id].purged
  }

  /**
   In every run from such a state, a suspended local account is purged or has a cleanup that is not
   completed, and a cleanup that is not completed is for a suspended account.
   */
  lemma NoCleanupForgottenFromStart(s: State, events: seq<Event>, id: Id)
    requires Untouched(s)
    ensures var s' := Run(s, events);
            && (id in s'.locals && s'.locals[id].Suspended() && !s'.locals[id].purged ==> Queued(s', id))
            && (Queued(s', id) ==> id in s'.locals && s'.locals[id].Suspended())
  {
    NoCleanupForgotten(s, events);
    var s' := Run(s, events);
    if Queued(s', id) {
      var j :| 0 <= j < |s'.jobs| && !s'.jobs[j].completed && s'.jobs[j].account == id;
      assert JobJustified(s', j);
    }
  }

  /** And a claimed cleanup that was not cancelled comes thirty days after its account was suspended. */
  lemma WorkerWaitsFromStart(s: State, events: seq<Event>, clock: Time, j: nat)
    requires Untouched(s) && Timely(clock, events)
    ensures var s' := Run(s, events);
            var fell := FellDuring(s, map[], events);
            j in s'.claimed && j < |s'.jobs| && !s'.jobs[j].completed ==>
              s'.jobs[j].account in fell && fell[s'.jobs[j].account] + PURGE_DELAY <= Clock(clock, events)
  {
    WorkerWaitsThirtyDays(s, events, map[], clock, j);
  }

  /**
   That condition is needed. A job claimed just before an account is released and suspended again is
   still run, and purges the account under a suspension one microsecond old.
   */
  lemma CancelledJobStillPurges(s: State, j: nat, admin: Id, at: Time)
    requires j < |s.jobs| && !s.jobs[j].completed && s.jobs[j].DueAt() <= at
    requires var id := s.jobs[j].account;
             id != admin && id in s.locals && !s.locals[id].isAdmin && s.locals[id].Suspended() && !s.locals[id].purged
    ensures var id := s.jobs[j].account;
            var events := [Event(at, ClaimPurge(j)), Event(at, ChangeSuspension(admin, id, false)),
                Event(at, ChangeSuspension(admin, id, true)), Event(at + 1, RunPurge(j))];
            var s' := Run(s, events);
            id in s'.locals && s'.locals[id].purged && s'.locals[id].suspendedAt == Some(at)
  {
    var id := s.jobs[j].account;
    var e1, e2, e3, e4 := Event(at, ClaimPurge(j)), Event(at, ChangeSuspension(admin, id, false)),
        Event(at, ChangeSuspension(admin, id, true)), Event(at + 1, RunPurge(j));
    var s1 := Apply(s, e1);
    var s2 := Apply(s1, e2);
    Released(s1, admin, id, at, j);
    var s3 := Apply(s2, e3);
    SuspendedAgain(s2, admin, id, at, j);
    var s4 := Apply(s3, e4);
    FourSteps(s, e1, e2, e3, e4);
  }

  lemma Released(s: State, admin: Id, id: Id, at: Time, j: nat)
    requires id in s.locals && !s.locals[id].purged && j < |s.jobs| && j in s.claimed && s.jobs[j].account == id
    ensures var s' := Apply(s, Event(at, ChangeSuspension(admin, id, false)));
            && id in s'.locals && s'.locals[id] == s.locals[id].(suspendedAt := None)
            && j < |s'.jobs| && j in s'.claimed && s'.jobs[j].account == id
  {
    SuspendAcceptedIff(s, admin, id, at);
  }

  lemma SuspendedAgain(s: State, admin: Id, id: Id, at: Time, j: nat)
    requires admin != id && id in s.locals && !s.locals[id].isAdmin && !s.locals[id].Suspended() && j < |s.jobs|
        && j in s.claimed && s.jobs[j].account == id
    ensures var s' := Apply(s, Event(at, ChangeSuspension(admin, id, true)));
            && id in s'.locals && s'.locals[id] == s.locals[id].(suspendedAt := Some(at))
            && j < |s'.jobs| && j in s'.claimed && s'.jobs[j].account == id
  {
    SuspendAcceptedIff(s, admin, id, at);
  }

  lemma OneStep(s: State, e: Event, rest: seq<Event>)
    ensures Run(s, [e] + rest) == Run(Apply(s, e), rest)
  {
    assert ([e] + rest)[1..] == rest;
  }

  lemma FourSteps(s: State, e1: Event, e2: Event, e3: Event, e4: Event)
    ensures Run(s, [e1, e2, e3, e4]) == Apply(Apply(Apply(Apply(s, e1), e2), e3), e4)
  {
    assert [e1, e2, e3, e4] == [e1] + [e2, e3, e4] && [e2, e3, e4] == [e2] + [e3, e4] && [e3, e4] == [e3] + [e4]
        && [e4] == [e4] + [];
    OneStep(s, e1, [e2, e3, e4]);
    OneStep(Apply(s, e1), e2, [e3, e4]);
    OneStep(Apply(Apply(s, e1), e2), e3, [e4]);
    OneStep(Apply(Apply(Apply(s, e1), e2), e3), e4, []);
  }
}
