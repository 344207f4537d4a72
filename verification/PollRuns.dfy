/**
 Runs of the poll subsystem: user requests, federation deliveries and job workers interleaved.

 Every request is one transaction under an exclusive lock on the poll row, so a run is a sequence of
 atomic steps with a clock that never goes back. A worker takes three separate steps for one job:
 it claims the job, runs the handler's transaction, and then records the outcome. Other steps may
 happen between them, and a lease may be taken over while its first holder is still at work.
 */
module PollRuns {
  import opened Prelude
  import opened PollModel

  datatype Progress = Claimed | Succeeded | Failed

  datatype Claim = Claim(job: nat, progress: Progress)

  datatype System = System(db: Db, claims: map<ClaimId, Claim>, clock: Time)

  datatype Step =
    | Create(id: PollId, status: StatusId, newPoll: NewPoll)
    | VoteLocally(poll: PollId, account: AccountId, choices: seq<U32>)
    | VoteRemotely(poll: PollId, actor: AccountId, choice: U32, activity: ActivityId)
    | Edit(freshId: PollId, status: StatusId, replacement: Option<NewPoll>)
    | Refresh(freshId: PollId, status: StatusId, question: RemotePoll)
    | ClaimJob(job: nat, claim: ClaimId)
    | RunHandler(claim: ClaimId, publishingFails: bool)
    | Finish(claim: ClaimId)
    | DeleteNotices(notices: set<Notice>)

  datatype Event = Event(at: Time, step: Step)

  /** Delay before the next attempt of a failed job: doubling, at most an hour. */
  function RetryDelay(attempts: nat): (r: int)
    ensures 1_000_000 <= r <= 3_600_000_000
  {
    var exponent := Min(attempts, 12);
    Min(PowerOfTwo(exponent), 3600) * 1_000_000
  }

  function PowerOfTwo(n: nat): (r: nat)
    ensures r >= 1
  {
    if n == 0 then 1 else 2 * PowerOfTwo(n - 1)
  }

  ghost function Committed<E>(db: Db, result: Result<Db, E>): Db {
    if result.Ok? then result.value else db
  }

  /** A visible tally changed: tell other servers, three minutes later, unless totals are hidden. */
  ghost function AnnounceVote(db: Db, p: PollId, now: Time): Db {
    if p in db.polls && db.polls[p].status.Local? && !db.polls[p].hideTotals
    then db.(jobs := EnqueueUpdate(db.jobs, p, now + UPDATE_DELAY))
    else db
  }

  ghost function VoteStep(db: Db, p: PollId, voter: Voter, choices: seq<U32>, activity: Option<ActivityId>,
      now: Time): Db {
    var result := CastVote(db, p, voter, choices, activity, now);
    if result.Ok? then AnnounceVote(result.value, p, now) else db
  }

  /** The expiration handler's transaction and whether it succeeded. */
  ghost function ExpireStep(env: Instance, db: Db, p: PollId, now: Time): (Db, bool) {
    var result := ExpirePoll(env, db, p, now);
    if result.Err? then
      (db, false)
    else if result.value.None? then
      (db, true)
    else
      var expiration := result.value.value;
      if expiration.newlyExpired && db.polls[p].status.Local?
      then (expiration.db.(jobs := EnqueueUpdate(expiration.db.jobs, p, now)), true)
      else (expiration.db, true)
  }

  ghost predicate Claimable(s: System, j: nat, c: ClaimId, now: Time) {
    j < |s.db.jobs| && !s.db.jobs[j].completed && s.db.jobs[j].runAfter <= now && c !in s.claims
  }

  ghost function ClaimStep(s: System, j: nat, c: ClaimId, now: Time): System {
    if Claimable(s, j, c, now)
    then s.(db := s.db.(jobs := s.db.jobs[j := s.db.jobs[j].(claim := Some(c))]),
        claims := s.claims[c := Claim(j, Claimed)])
    else s
  }

  /** Publishing happens after the transaction committed, so a failure there does not undo it. */
  ghost function HandlerStep(env: Instance, s: System, c: ClaimId, publishingFails: bool, now: Time): System {
    if c in s.claims && s.claims[c].progress.Claimed? && s.claims[c].job < |s.db.jobs| then
      var job := s.db.jobs[s.claims[c].job];
      if job.kind.PollExpiration? then
        var (db', ok) := ExpireStep(env, s.db, job.poll, now);
        var progress := if ok && !publishingFails then Succeeded else Failed;
        s.(db := db', claims := s.claims[c := s.claims[c].(progress := progress)])
      else
        s.(claims := s.claims[c := s.claims[c].(progress := if publishingFails then Failed else Succeeded)])
    else
      s
  }

  function Finished(job: Job, progress: Progress, now: Time): Job {
    match progress
    case Succeeded => job.(completed := true, claim := None)
    case Failed => job.(attempts := job.attempts + 1, runAfter := now + RetryDelay(job.attempts), claim := None)
    case Claimed => job
  }

  /** Record the outcome, unless the lease has passed to another worker meanwhile. */
  ghost function FinishStep(s: System, c: ClaimId, now: Time): System {
    if c in s.claims && s.claims[c].job < |s.db.jobs| && s.db.jobs[s.claims[c].job].claim == Some(c) then
      var j := s.claims[c].job;
      s.(db := s.db.(jobs := s.db.jobs[j := Finished(s.db.jobs[j], s.claims[c].progress, now)]))
    else
      s
  }

  /** Generated identifiers are UUIDs: no table mentions one before it is generated. */
  ghost predicate NeverUsed(db: Db, id: PollId) {
    id !in db.polls && forall j :: 0 <= j < |db.jobs| ==> db.jobs[j].poll != id
  }

  ghost function Apply(env: Instance, s: System, e: Event): System {
    var now := e.at;
    var after := match e.step
      case Create(id, status, input) =>
        if NeverUsed(s.db, id) then s.(db := Committed(s.db, CreateLocalPoll(env, s.db, id, status, input, now))) else s
      case VoteLocally(p, account, choices) => s.(db := VoteStep(s.db, p, LocalVoter(account), choices, None, now))
      case VoteRemotely(p, actor, choice, activity) =>
        if p in s.db.polls && s.db.polls[p].status.Local?
        then s.(db := VoteStep(s.db, p, RemoteVoter(actor), [choice], Some(activity), now))
        else s
      case Edit(freshId, status, input) =>
        if NeverUsed(s.db, freshId)
        then s.(db := Committed(s.db, EditLocalPoll(env, s.db, freshId, status, input, now)))
        else s
      case Refresh(freshId, status, input) =>
        if NeverUsed(s.db, freshId)
        then s.(db := Committed(s.db, RefreshRemotePoll(s.db, freshId, status, input, now)))
        else s
      case ClaimJob(j, c) => ClaimStep(s, j, c, now)
      case RunHandler(c, publishingFails) => HandlerStep(env, s, c, publishingFails, now)
      case Finish(c) => FinishStep(s, c, now)
      case DeleteNotices(notices) => s.(db := s.db.(notices := s.db.notices - notices));
    after.(clock := now)
  }

  ghost function Run(env: Instance, s: System, events: seq<Event>): System
    decreases |events|
  {
    if events == [] then s else Run(env, Apply(env, s, events[0]), events[1..])
  }

  /** The clock never goes back. */
  ghost predicate Timely(clock: Time, events: seq<Event>)
    decreases |events|
  {
    events == [] || (clock <= events[0].at && Timely(events[0].at, events[1..]))
  }

  ghost function Start(clock: Time): System {
    System(Db(map[], map[], map[], {}, []), map[], clock)
  }
}
