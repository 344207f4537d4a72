/**
 Tables of the poll subsystem and the effect of every transaction on them.

 Each transaction is given in closed form: what the tables are after it commits, or the error with
 which it is rolled back. `PollStore` performs the same transactions row by row.
 */
module PollModel {
  import opened Prelude
  import opened Text

  type PollId = nat
  type StatusId = nat
  type AccountId = nat
  type ActivityId = nat
  type ClaimId = nat

  /** Microseconds since an arbitrary origin, the resolution of the database's timestamps. */
  type Time = int

  type U32 = c: int | 0 <= c < 0x1_0000_0000

  const MIN_POLL_EXPIRATION_SECONDS: int := 300
  const MAX_POLL_EXPIRATION_SECONDS: int := 2_629_746
  const MAX_POLL_OPTIONS: nat := 4
  const MAX_POLL_OPTION_GRAPHEMES: nat := 50
  const MAX_REMOTE_OPTIONS: nat := 500
  const REMOTE_GRACE: int := 300_000_000
  const UPDATE_DELAY: int := 180_000_000
  const I64_LIMIT: int := 0x8000_0000_0000_0000

  /** Wrapping conversion of an unsigned 32-bit choice to the signed column type. */
  function AsI32(c: U32): (r: int)
    ensures -0x8000_0000 <= r < 0x8000_0000
  {
    if c < 0x8000_0000 then c else c - 0x1_0000_0000
  }

  datatype PollStatus = Local(id: StatusId) | Remote(id: StatusId)

  datatype Voter = LocalVoter(account: AccountId) | RemoteVoter(actor: AccountId)

  datatype Poll = Poll(
    status: PollStatus,
    multiple: bool,
    hideTotals: bool,
    expiresAt: Option<Time>,
    closedAt: Option<Time>,
    notifiedAt: Option<Time>,
    votersCount: Option<int>,
    updatedAt: Time)
  {
    /** When an expiration transaction considers the poll over. */
    function DueAt(): Option<Time> {
      closedAt.Or(expiresAt)
    }

    predicate Ended(now: Time) {
      closedAt.Some? || (expiresAt.Some? && expiresAt.value <= now)
    }
  }

  /** Primary key of an option row. */
  datatype Slot = Slot(poll: PollId, position: int)

  datatype Choice = Choice(title: string, votes: int)

  /** Key of a vote row: one poll, voter and choice occur together at most once. */
  datatype Ballot = Ballot(poll: PollId, voter: Voter, position: int) {
    function At(): Slot {
      Slot(poll, position)
    }
  }

  /** Key of a poll notification row: recipient, status and the status's author. */
  datatype Notice = Notice(account: AccountId, status: PollStatus, author: AccountId)

  datatype JobKind = PollExpiration | PollUpdate

  /**
   A durable job. Its deduplication key is the poll and, for an expiration, the deadline it was
   requested for; an update job has `key` zero.
   */
  datatype Job = Job(
    kind: JobKind,
    poll: PollId,
    key: Time,
    runAfter: Time,
    attempts: nat,
    completed: bool,
    claim: Option<ClaimId>)
  {
    predicate Holds(kind: JobKind, poll: PollId, key: Time) {
      !completed && this.kind == kind && this.poll == poll && this.key == key
    }
  }

  datatype Db = Db(
    polls: map<PollId, Poll>,
    options: map<Slot, Choice>,
    votes: map<Ballot, Option<ActivityId>>,
    notices: set<Notice>,
    jobs: seq<Job>)

  /** What the transactions read but never change: grapheme counting and who wrote each status. */
  datatype Instance = Instance(graphemes: string -> nat, author: PollStatus -> AccountId)

  datatype NewPoll = NewPoll(options: seq<string>, expiresIn: int, multiple: bool, hideTotals: bool)

  datatype RemotePoll = RemotePoll(
    options: seq<(string, nat)>,
    multiple: bool,
    expiresAt: Option<Time>,
    closedAt: Option<Time>,
    votersCount: Option<nat>)
  {
    function DueAt(): Option<Time> {
      closedAt.Or(expiresAt)
    }
  }

  datatype PollError = OptionCount | ExpirationRange | OptionLength | DuplicateOptions | Database

  datatype VoteError = NotFound | Expired | AlreadyVoted | InvalidChoice | MultipleChoices | VoteDatabase

  // ---------------------------------------------------------------- validation

  function Trimmed(titles: seq<string>): (r: seq<string>)
    ensures |r| == |titles|
  {
    seq(|titles|, i requires 0 <= i < |titles| => Trim(titles[i]))
  }

  predicate TitleAccepted(graphemes: string -> nat, title: string) {
    title != "" && graphemes(title) <= MAX_POLL_OPTION_GRAPHEMES
  }

  function Validate(graphemes: string -> nat, input: NewPoll): Result<(), PollError> {
    var normalized := Trimmed(input.options);
    if !(2 <= |input.options| <= MAX_POLL_OPTIONS) then
      Err(OptionCount)
    else if !(MIN_POLL_EXPIRATION_SECONDS <= input.expiresIn <= MAX_POLL_EXPIRATION_SECONDS) then
      Err(ExpirationRange)
    else if exists t | t in normalized :: !TitleAccepted(graphemes, t) then
      Err(OptionLength)
    else if !Distinct(normalized) then
      Err(DuplicateOptions)
    else
      Ok(())
  }

  /** `expires_in` is in seconds. */
  function Deadline(input: NewPoll, now: Time): Time {
    now + input.expiresIn * 1_000_000
  }

  // ---------------------------------------------------------------- rows of one poll

  ghost function SlotsOf(db: Db, p: PollId): set<Slot> {
    set s | s in db.options && s.poll == p
  }

  ghost function BallotsOf(db: Db, p: PollId): set<Ballot> {
    set b | b in db.votes && b.poll == p
  }

  ghost function BallotsAt(db: Db, p: PollId, position: int): set<Ballot> {
    set b | b in db.votes && b.poll == p && b.position == position
  }

  ghost function BallotsBy(db: Db, p: PollId, voter: Voter): set<Ballot> {
    set b | b in db.votes && b.poll == p && b.voter == voter
  }

  ghost function VotersOf(db: Db, p: PollId): set<Voter> {
    set b | b in db.votes && b.poll == p :: b.voter
  }

  ghost function LocalVotersOf(db: Db, p: PollId): set<AccountId> {
    set b | b in db.votes && b.poll == p && b.voter.LocalVoter? :: b.voter.account
  }

  /** The poll attached to a status; the schema allows at most one. */
  ghost function PollFor(db: Db, status: PollStatus): (r: Option<PollId>)
    ensures r.Some? ==> r.value in db.polls && db.polls[r.value].status == status
    ensures r.None? ==> forall p | p in db.polls :: db.polls[p].status != status
  {
    if exists p :: p in db.polls && db.polls[p].status == status then
      var p :| p in db.polls && db.polls[p].status == status;
      Some(p)
    else
      None
  }

  // ---------------------------------------------------------------- jobs

  /** Add a job unless an uncompleted one already holds its deduplication key. */
  function Enqueue(jobs: seq<Job>, kind: JobKind, poll: PollId, key: Time, runAfter: Time): (r: seq<Job>)
    ensures exists i :: 0 <= i < |r| && r[i].Holds(kind, poll, key)
    ensures jobs <= r
  {
    if exists i :: 0 <= i < |jobs| && jobs[i].Holds(kind, poll, key) then
      jobs
    else
      var r := jobs + [Job(kind, poll, key, runAfter, 0, false, None)];
      assert r[|jobs|].Holds(kind, poll, key);
      r
  }

  function EnqueueExpiration(jobs: seq<Job>, poll: PollId, deadline: Time): seq<Job> {
    Enqueue(jobs, PollExpiration, poll, deadline, deadline)
  }

  /** Request a tally update: reuse the pending one, moved forward when this request is earlier. */
  function EnqueueUpdate(jobs: seq<Job>, poll: PollId, runAfter: Time): (r: seq<Job>)
    ensures |jobs| <= |r|
    ensures exists i :: 0 <= i < |r| && r[i].Holds(PollUpdate, poll, 0) && r[i].runAfter <= runAfter
  {
    var queued := Enqueue(jobs, PollUpdate, poll, 0, runAfter);
    var r := seq(|queued|, i requires 0 <= i < |queued| =>
      if queued[i].Holds(PollUpdate, poll, 0)
      then queued[i].(runAfter := Min(queued[i].runAfter, runAfter))
      else queued[i]);
    assert exists i :: 0 <= i < |r| && r[i].Holds(PollUpdate, poll, 0) && r[i].runAfter <= runAfter by {
      var i :| 0 <= i < |queued| && queued[i].Holds(PollUpdate, poll, 0);
      assert r[i].Holds(PollUpdate, poll, 0) && r[i].runAfter <= runAfter;
    }
    r
  }

  // ---------------------------------------------------------------- transactions

  /** Deleting option rows takes every vote row that references one of them along. */
  ghost function DeleteSlots(db: Db, p: PollId): Db {
    db.(options := map s | s in db.options && s.poll != p :: db.options[s],
        votes := map b | b in db.votes && !(b.poll == p && b.At() in db.options) :: db.votes[b])
  }

  ghost function InsertSlots(db: Db, p: PollId, rows: seq<(string, nat)>): Db {
    db.(options := db.options + (map s: Slot | s in NewSlots(p, |rows|) ::
        Choice(Trim(rows[s.position].0), rows[s.position].1)))
  }

  ghost function NewSlots(p: PollId, n: nat): (r: set<Slot>)
    ensures forall s :: s in r <==> s.poll == p && 0 <= s.position < n
  {
    if n == 0 then {} else NewSlots(p, n - 1) + {Slot(p, n - 1)}
  }

  ghost function ReplaceOptions(db: Db, p: PollId, rows: seq<(string, nat)>): Db {
    InsertSlots(DeleteSlots(db, p), p, rows)
  }

  function ZeroRows(titles: seq<string>): (r: seq<(string, nat)>)
    ensures |r| == |titles|
  {
    seq(|titles|, i requires 0 <= i < |titles| => (titles[i], 0))
  }

  ghost function CreateLocalPoll(env: Instance, db: Db, id: PollId, status: StatusId, input: NewPoll,
      now: Time): Result<Db, PollError> {
    var valid := Validate(env.graphemes, input);
    if valid.Err? then
      Err(valid.error)
    else if id in db.polls || PollFor(db, Local(status)).Some? then
      Err(Database)
    else
      var expiresAt := Deadline(input, now);
      var poll := Poll(Local(status), input.multiple, input.hideTotals, Some(expiresAt), None, None, Some(0), now);
      var db' := ReplaceOptions(db.(polls := db.polls[id := poll]), id, ZeroRows(input.options));
      Ok(db'.(jobs := EnqueueExpiration(db.jobs, id, expiresAt)))
  }

  /** The titles stored for a poll, in position order. */
  ghost predicate TitlesAre(db: Db, p: PollId, titles: seq<string>) {
    && (forall s :: s in SlotsOf(db, p) ==> 0 <= s.position < |titles| && db.options[s].title == titles[s.position])
    && (forall i :: 0 <= i < |titles| ==> Slot(p, i) in db.options)
  }

  ghost predicate EditChanges(db: Db, p: PollId, input: NewPoll)
    requires p in db.polls
  {
    db.polls[p].multiple != input.multiple || !TitlesAre(db, p, Trimmed(input.options))
  }

  ghost function DeletePoll(db: Db, p: PollId): Db {
    db.(polls := db.polls - {p},
        options := map s | s in db.options && s.poll != p :: db.options[s],
        votes := map b | b in db.votes && b.poll != p :: db.votes[b])
  }

  ghost function DeleteVotes(db: Db, p: PollId): Db {
    db.(votes := map b | b in db.votes && b.poll != p :: db.votes[b])
  }

  ghost function EditExistingPoll(db: Db, p: PollId, input: NewPoll, now: Time): Db
    requires p in db.polls
  {
    var expiresAt := Deadline(input, now);
    var changed := EditChanges(db, p, input);
    var reset := if changed then ReplaceOptions(DeleteVotes(db, p), p, ZeroRows(input.options)) else db;
    var before := db.polls[p];
    var poll := before.(multiple := input.multiple, hideTotals := input.hideTotals,
                     expiresAt := Some(expiresAt), closedAt := None, notifiedAt := None,
                     votersCount := if changed then Some(0) else before.votersCount, updatedAt := now);
    reset.(polls := db.polls[p := poll], jobs := EnqueueExpiration(db.jobs, p, expiresAt))
  }

  ghost function EditLocalPoll(env: Instance, db: Db, freshId: PollId, status: StatusId, input: Option<NewPoll>,
      now: Time): Result<Db, PollError> {
    var existing := PollFor(db, Local(status));
    if input.None? then
      Ok(if existing.Some? then DeletePoll(db, existing.value) else db)
    else
      var valid := Validate(env.graphemes, input.value);
      if valid.Err? then
        Err(valid.error)
      else if existing.Some? then
        Ok(EditExistingPoll(db, existing.value, input.value, now))
      else
        CreateLocalPoll(env, db, freshId, status, input.value, now)
  }

  /** Counts that are not negative once cast to the signed column type. */
  predicate RowsFit(rows: seq<(string, nat)>) {
    forall i :: 0 <= i < |rows| ==> rows[i].1 < I64_LIMIT
  }

  predicate CountsFit(input: RemotePoll) {
    && RowsFit(input.options)
    && (input.votersCount.Some? ==> input.votersCount.value < I64_LIMIT)
  }

  function RemoteVoters(input: RemotePoll): Option<int> {
    if input.votersCount.Some? then Some(input.votersCount.value) else None
  }

  function EnqueueRemoteDeadline(jobs: seq<Job>, p: PollId, input: RemotePoll): seq<Job> {
    if input.DueAt().Some? then EnqueueExpiration(jobs, p, input.DueAt().value + REMOTE_GRACE) else jobs
  }

  ghost predicate RefreshChanges(db: Db, p: PollId, input: RemotePoll)
    requires p in db.polls
  {
    db.polls[p].multiple != input.multiple || !TitlesAre(db, p, RemoteTitles(input))
  }

  function RemoteTitles(input: RemotePoll): (r: seq<string>)
    ensures |r| == |input.options|
  {
    seq(|input.options|, i requires 0 <= i < |input.options| => input.options[i].0)
  }

  ghost function RefreshExistingPoll(db: Db, p: PollId, input: RemotePoll, now: Time): Db
    requires p in db.polls
  {
    var cleared := if RefreshChanges(db, p, input) then DeleteVotes(db, p) else db;
    var poll := db.polls[p].(multiple := input.multiple, expiresAt := input.expiresAt, closedAt := input.closedAt,
                             votersCount := RemoteVoters(input), updatedAt := now);
    ReplaceOptions(cleared, p, input.options).(polls := db.polls[p := poll],
        jobs := EnqueueRemoteDeadline(db.jobs, p, input))
  }

  ghost function InsertRemotePoll(db: Db, id: PollId, status: StatusId, input: RemotePoll, now: Time): Db {
    var poll := Poll(Remote(status), input.multiple, false, input.expiresAt, input.closedAt, None,
        RemoteVoters(input), now);
    var inserted := ReplaceOptions(db.(polls := db.polls[id := poll]), id, input.options);
    inserted.(jobs := EnqueueRemoteDeadline(db.jobs, id, input))
  }

  ghost function RefreshRemotePoll(db: Db, freshId: PollId, status: StatusId, input: RemotePoll,
      now: Time): Result<Db, PollError> {
    var existing := PollFor(db, Remote(status));
    if !(2 <= |input.options| <= MAX_REMOTE_OPTIONS) then
      Err(OptionCount)
    else if !CountsFit(input) || (existing.None? && freshId in db.polls) then
      Err(Database)
    else if existing.Some? then
      Ok(RefreshExistingPoll(db, existing.value, input, now))
    else
      Ok(InsertRemotePoll(db, freshId, status, input, now))
  }

  function Selected(choices: seq<U32>): set<U32> {
    set c | c in choices
  }

  function Positions(choices: seq<U32>): set<int> {
    set c | c in choices :: AsI32(c)
  }

  ghost predicate ActivityUsed(votes: map<Ballot, Option<ActivityId>>, activity: Option<ActivityId>) {
    activity.Some? && exists b :: b in votes && votes[b] == activity
  }

  ghost function NewBallots(p: PollId, voter: Voter, positions: set<int>): (r: set<Ballot>)
    ensures forall b :: b in r <==> b.poll == p && b.voter == voter && b.position in positions
  {
    set q | q in positions :: Ballot(p, voter, q)
  }

  /** One more vote on each of these options of the poll. */
  function Bump(options: map<Slot, Choice>, p: PollId, positions: set<int>): map<Slot, Choice> {
    map s | s in options ::
        if s.poll == p && s.position in positions then options[s].(votes := options[s].votes + 1) else options[s]
  }

  ghost function AddBallots(votes: map<Ballot, Option<ActivityId>>, p: PollId, voter: Voter, positions: set<int>,
      activity: Option<ActivityId>): map<Ballot, Option<ActivityId>> {
    votes + map b | b in NewBallots(p, voter, positions) :: activity
  }

  /** The poll row after a vote; `first` when the voter had no ballot in the poll. */
  function Joined(poll: Poll, first: bool, now: Time): Poll {
    var voters := if first && poll.votersCount.Some? then Some(poll.votersCount.value + 1) else poll.votersCount;
    poll.(votersCount := voters, updatedAt := now)
  }

  ghost function RecordVote(db: Db, p: PollId, voter: Voter, positions: set<int>, activity: Option<ActivityId>,
      now: Time): Db
    requires p in db.polls
  {
    db.(polls := db.polls[p := Joined(db.polls[p], BallotsBy(db, p, voter) == {}, now)],
        options := Bump(db.options, p, positions),
        votes := AddBallots(db.votes, p, voter, positions, activity))
  }

  /** The first check a vote fails, in the order the transaction makes them. */
  ghost function VoteCheck(db: Db, p: PollId, voter: Voter, choices: seq<U32>, now: Time): Option<VoteError> {
    if p !in db.polls then
      Some(NotFound)
    else if db.polls[p].Ended(now) then
      Some(Expired)
    else if choices == [] then
      Some(InvalidChoice)
    else if !db.polls[p].multiple && |Selected(choices)| != 1 then
      Some(MultipleChoices)
    else if BallotsBy(db, p, voter) != {} && (voter.LocalVoter? || !db.polls[p].multiple) then
      Some(AlreadyVoted)
    else if exists q | q in Positions(choices) :: Slot(p, q) !in db.options then
      Some(InvalidChoice)
    else if exists q | q in Positions(choices) :: Ballot(p, voter, q) in db.votes then
      Some(AlreadyVoted)
    else
      None
  }

  /** Why a vote is turned away: a failed check, or an activity id the vote table already has. */
  ghost function VoteRejection(db: Db, p: PollId, voter: Voter, choices: seq<U32>, activity: Option<ActivityId>,
      now: Time): Option<VoteError> {
    var failed := VoteCheck(db, p, voter, choices, now);
    if failed.Some? then
      failed
    else if ActivityUsed(db.votes, activity) || (activity.Some? && |Selected(choices)| != 1) then
      Some(VoteDatabase)
    else
      None
  }

  ghost function CastVote(db: Db, p: PollId, voter: Voter, choices: seq<U32>, activity: Option<ActivityId>,
      now: Time): Result<Db, VoteError> {
    var rejection := VoteRejection(db, p, voter, choices, activity, now);
    if rejection.Some? then Err(rejection.value) else Ok(RecordVote(db, p, voter, Positions(choices), activity, now))
  }

  datatype Expiration = Expiration(db: Db, notices: set<Notice>, newlyExpired: bool, nextAttemptAt: Option<Time>)

  ghost function Recipients(env: Instance, db: Db, p: PollId): set<AccountId>
    requires p in db.polls
  {
    LocalVotersOf(db, p) + (if db.polls[p].status.Local? then {env.author(db.polls[p].status)} else {})
  }

  ghost function NoticesFor(env: Instance, db: Db, p: PollId): set<Notice>
    requires p in db.polls
  {
    var status := db.polls[p].status;
    set a | a in Recipients(env, db, p) :: Notice(a, status, env.author(status))
  }

  /** Whether the expiration transaction gets as far as inserting notifications. */
  predicate Expires(poll: Poll, now: Time) {
    (poll.DueAt().None? || poll.DueAt().value <= now) && poll.notifiedAt.None?
  }

  function ClosedPoll(poll: Poll, now: Time): Poll {
    poll.(closedAt := poll.closedAt.Or(poll.DueAt()).Or(Some(now)), notifiedAt := Some(now), updatedAt := now)
  }

  ghost function ExpirePoll(env: Instance, db: Db, p: PollId, now: Time): Result<Option<Expiration>, PollError> {
    if p !in db.polls then
      Ok(None)
    else
      var poll := db.polls[p];
      if !Expires(poll, now) then
        var pending := poll.DueAt().Some? && poll.DueAt().value > now;
        Ok(Some(Expiration(db, {}, false, if pending then poll.DueAt() else None)))
      else
        var notices := NoticesFor(env, db, p);
        if notices * db.notices != {} then
          Err(Database)
        else
          Ok(Some(Expiration(
            db.(polls := db.polls[p := ClosedPoll(poll, now)], notices := db.notices + notices),
            notices, true, None)))
  }
}
