/**
 From a scheduled poll to a published one.

 A worker publishes a schedule in separate transactions. It reads the schedule, whether it is due, and
 its poll; then it creates the status and the poll and deletes the schedule; a status that is turned
 away has its schedule cancelled in a third. Users cancel and reschedule, accounts are suspended and
 other workers make attempts in between, and the write checks nothing of what was read again.
 */
module ScheduledPublication {
  import opened Prelude
  import opened PollModel
  import opened ScheduledPolls

  type AttemptId = nat

  /** A scheduled status: the id its publication will have, and when it is due. */
  datatype Schedule = Schedule(publication: StatusId, at: Time)

  /** What an attempt has read. */
  datatype Loaded = Loaded(id: ScheduledId, schedule: Schedule, poll: Option<NewPoll>)

  /** The transaction an attempt will make next. */
  datatype Attempt = ToWrite(loaded: Loaded) | ToCancel(id: ScheduledId) | Over

  /** `statuses` has a row for every status, with whether it was deleted; deleting keeps the row. */
  datatype Outbox = Outbox(
    schedules: map<ScheduledId, Schedule>,
    shelf: Shelf,
    statuses: map<StatusId, bool>,
    db: Db,
    attempts: map<AttemptId, Attempt>)

  datatype Step =
    | Submit(id: ScheduledId, schedule: Schedule, poll: Option<NewPoll>)
    | Read(attempt: AttemptId, id: ScheduledId)
    | Write(attempt: AttemptId, pollId: PollId, acceptable: bool)
    | CleanUp(attempt: AttemptId)
    | Cancel(id: ScheduledId)
    | Reschedule(id: ScheduledId, at: Time)
    | PostStatus(status: StatusId)
    | DeleteStatus(status: StatusId)
    | PurgeStatuses(purged: set<StatusId>)
    | Meanwhile(db: Db)

  datatype Event = Event(at: Time, step: Step)

  // ---------------------------------------------------------------- transactions

  /** Deleting a schedule takes its stored poll along; there may be nothing to delete. */
  function Remove(q: Outbox, id: ScheduledId): Outbox {
    q.(schedules := q.schedules - {id},
       shelf := Shelf(q.shelf.headers - {id}, map k | k in q.shelf.titles && k.scheduled != id :: q.shelf.titles[k]))
  }

  /** Whether the two unique columns of a schedule are free. */
  predicate Unused(q: Outbox, id: ScheduledId, publication: StatusId) {
    id !in q.schedules && forall other :: other in q.schedules ==> q.schedules[other].publication != publication
  }

  /** Store a schedule with its poll; an invalid poll or a used id stores nothing. */
  function SubmitSchedule(env: Instance, q: Outbox, id: ScheduledId, schedule: Schedule,
      poll: Option<NewPoll>): Outbox {
    if !Unused(q, id, schedule.publication) || id in q.shelf.headers
       || (poll.Some? && Validate(env.graphemes, poll.value).Err?)
    then q
    else
      q.(schedules := q.schedules[id := schedule],
         shelf := if poll.Some? then Shelve(q.shelf, id, poll.value) else q.shelf)
  }

  /** The status exists and was not deleted. */
  predicate Visible(q: Outbox, status: StatusId) {
    status in q.statuses && !q.statuses[status]
  }

  /** The first transaction, a snapshot: nothing, too early, already published, or something to write. */
  ghost function ReadSchedule(q: Outbox, id: ScheduledId, now: Time): Attempt {
    if id !in q.schedules || q.schedules[id].at > now then Over
    else if Visible(q, q.schedules[id].publication) then ToCancel(id)
    else ToWrite(Loaded(id, q.schedules[id], Load(q.shelf, id)))
  }

  /** What comes of the second transaction. */
  datatype Outcome = Published(q: Outbox) | TurnedAway | RolledBack

  predicate PollAccepted(env: Instance, poll: Option<NewPoll>) {
    poll.Some? ==> Validate(env.graphemes, poll.value).Ok?
  }

  /**
   The second transaction works with what was loaded. `acceptable` says whether the rest of the
   status passes its own checks. The status row is inserted under its primary key.
   */
  ghost function WritePublication(
    env: Instance, q: Outbox, loaded: Loaded, pollId: PollId, acceptable: bool, now: Time): Outcome {
    var publication := loaded.schedule.publication;
    if !acceptable || !PollAccepted(env, loaded.poll) then
      TurnedAway
    else if publication in q.statuses then
      RolledBack
    else if loaded.poll.None? then
      Published(Remove(q.(statuses := q.statuses[publication := false]), loaded.id))
    else
      var created := CreateLocalPoll(env, q.db, pollId, publication, loaded.poll.value, now);
      if created.Err? then RolledBack
      else Published(Remove(q.(statuses := q.statuses[publication := false], db := created.value), loaded.id))
  }

  function Proceed(q: Outbox, attempt: AttemptId, next: Attempt): Outbox {
    q.(attempts := q.attempts[attempt := next])
  }

  ghost function WriteStep(env: Instance, q: Outbox, attempt: AttemptId, pollId: PollId, acceptable: bool,
      now: Time): Outbox {
    if attempt in q.attempts && q.attempts[attempt].ToWrite? then
      var loaded := q.attempts[attempt].loaded;
      match WritePublication(env, q, loaded, pollId, acceptable, now)
      case Published(q') => Proceed(q', attempt, Over)
      case TurnedAway => Proceed(q, attempt, ToCancel(loaded.id))
      case RolledBack => Proceed(q, attempt, Over)
    else
      q
  }

  ghost function Apply(env: Instance, q: Outbox, e: Event): Outbox {
    match e.step
    case Submit(id, schedule, poll) => SubmitSchedule(env, q, id, schedule, poll)
    case Read(attempt, id) =>
      if attempt in q.attempts then q else Proceed(q, attempt, ReadSchedule(q, id, e.at))
    case Write(attempt, pollId, acceptable) => WriteStep(env, q, attempt, pollId, acceptable, e.at)
    case CleanUp(attempt) =>
      if attempt in q.attempts && q.attempts[attempt].ToCancel?
      then Proceed(Remove(q, q.attempts[attempt].id), attempt, Over)
      else q
    case Cancel(id) => Remove(q, id)
    case Reschedule(id, at) =>
      if id in q.schedules then q.(schedules := q.schedules[id := q.schedules[id].(at := at)]) else q
    case PostStatus(status) => if status in q.statuses then q else q.(statuses := q.statuses[status := false])
    case DeleteStatus(status) => if status in q.statuses then q.(statuses := q.statuses[status := true]) else q
    case PurgeStatuses(purged) => q.(statuses := q.statuses - purged)
    case Meanwhile(db) => q.(db := db)
  }

  ghost function Run(env: Instance, q: Outbox, events: seq<Event>): Outbox
    decreases |events|
  {
    if events == [] then q else Run(env, Apply(env, q, events[0]), events[1..])
  }

  // ---------------------------------------------------------------- when a write publishes

  /** The event is the write of an attempt that is about to write, and it commits. */
  ghost predicate Publishes(env: Instance, q: Outbox, e: Event) {
    && e.step.Write? && e.step.attempt in q.attempts && q.attempts[e.step.attempt].ToWrite?
    && WritePublication(env, q, q.attempts[e.step.attempt].loaded, e.step.pollId, e.step.acceptable, e.at).Published?
  }

  /** The loaded schedule alone decides, with the status and poll tables; the schedule table does not. */
  lemma PublishesIff(env: Instance, q: Outbox, e: Event)
    requires e.step.Write? && e.step.attempt in q.attempts && q.attempts[e.step.attempt].ToWrite?
    ensures var loaded := q.attempts[e.step.attempt].loaded;
            Publishes(env, q, e) <==>
              && e.step.acceptable && PollAccepted(env, loaded.poll)
              && loaded.schedule.publication !in q.statuses
              && (loaded.poll.Some? ==>
                  CreateLocalPoll(env, q.db, e.step.pollId, loaded.schedule.publication, loaded.poll.value, e.at).Ok?)
    ensures Publishes(env, q, e) <==> Publishes(env, Remove(q, q.attempts[e.step.attempt].loaded.id), e)
  {
  }

  // ---------------------------------------------------------------- the stored poll waits unchanged

  /** Stored polls belong to schedules. */
  ghost predicate Sound(q: Outbox) {
    TitlesReference(q.shelf) && forall id :: id in q.shelf.headers ==> id in q.schedules
  }

  /** As long as the schedule exists, its stored poll is the submitted one, trimmed. */
  ghost predicate Waits(q: Outbox, id: ScheduledId, input: NewPoll) {
    id in q.schedules ==> Load(q.shelf, id) == Some(TrimmedPoll(input))
  }

  lemma RemoveKeepsOthers(q: Outbox, id: ScheduledId, other: ScheduledId)
    requires other != id
    ensures Load(Remove(q, id).shelf, other) == Load(q.shelf, other)
  {
    var after := Remove(q, id).shelf;
    assert PositionsOf(after, other) == PositionsOf(q.shelf, other) by {
      forall p
        ensures p in PositionsOf(after, other) <==> p in PositionsOf(q.shelf, other)
      {
        PositionHasTitle(after, other, p);
        PositionHasTitle(q.shelf, other, p);
      }
    }
    assert TitlesInOrder(after, other) == TitlesInOrder(q.shelf, other);
  }

  lemma RemoveKeeps(q: Outbox, removed: ScheduledId, id: ScheduledId, input: NewPoll)
    requires Sound(q) && Waits(q, id, input)
    ensures Sound(Remove(q, removed)) && Waits(Remove(q, removed), id, input)
  {
    if removed != id {
      RemoveKeepsOthers(q, removed, id);
    }
  }

  lemma SubmitKeeps(env: Instance, q: Outbox, id: ScheduledId, schedule: Schedule, poll: Option<NewPoll>)
    requires Sound(q)
    ensures Sound(SubmitSchedule(env, q, id, schedule, poll))
    ensures forall other :: other != id ==>
        Load(SubmitSchedule(env, q, id, schedule, poll).shelf, other) == Load(q.shelf, other)
  {
    if poll.Some? && id !in q.shelf.headers {
      ShelvedIsStored(q.shelf, id, poll.value);
      ScheduledRoundTrip(q.shelf, Shelve(q.shelf, id, poll.value), id, poll.value);
    }
  }

  /** A step other than a submission leaves schedules and shelf alone, deletes one, or moves one in time. */
  ghost predicate ShelfEffect(q: Outbox, q': Outbox) {
    || (q'.schedules == q.schedules && q'.shelf == q.shelf)
    || (exists id :: q'.schedules == Remove(q, id).schedules && q'.shelf == Remove(q, id).shelf)
    || (q'.schedules.Keys == q.schedules.Keys && q'.shelf == q.shelf)
  }

  lemma StepShelf(env: Instance, q: Outbox, e: Event)
    requires !e.step.Submit?
    ensures ShelfEffect(q, Apply(env, q, e))
  {
    match e.step
    case Write(attempt, _, _) =>
      if attempt in q.attempts && q.attempts[attempt].ToWrite? {
        var id := q.attempts[attempt].loaded.id;
        assert Publishes(env, q, e) ==>
            Apply(env, q, e).schedules == Remove(q, id).schedules && Apply(env, q, e).shelf == Remove(q, id).shelf;
      }
    case CleanUp(attempt) =>
      if attempt in q.attempts && q.attempts[attempt].ToCancel? {
        var id := q.attempts[attempt].id;
        assert Apply(env, q, e).schedules == Remove(q, id).schedules && Apply(env, q, e).shelf == Remove(q, id).shelf;
      }
    case Cancel(id) =>
      assert Apply(env, q, e).schedules == Remove(q, id).schedules && Apply(env, q, e).shelf == Remove(q, id).shelf;
    case _ =>
  }

  lemma StepKeeps(env: Instance, q: Outbox, e: Event, id: ScheduledId, input: NewPoll)
    requires Sound(q) && Waits(q, id, input) && !(e.step.Submit? && e.step.id == id)
    ensures Sound(Apply(env, q, e)) && Waits(Apply(env, q, e), id, input)
  {
    if e.step.Submit? {
      SubmitKeeps(env, q, e.step.id, e.step.schedule, e.step.poll);
    } else {
      var q' := Apply(env, q, e);
      StepShelf(env, q, e);
      if removed :| q'.schedules == Remove(q, removed).schedules && q'.shelf == Remove(q, removed).shelf {
        RemoveKeeps(q, removed, id, input);
      }
    }
  }

  /** Ids are generated, so a run does not submit the same one again. */
  ghost predicate NotResubmitted(events: seq<Event>, id: ScheduledId) {
    forall i :: 0 <= i < |events| ==> !(events[i].step.Submit? && events[i].step.id == id)
  }

  lemma {:induction false} RunKeeps(env: Instance, q: Outbox, events: seq<Event>, id: ScheduledId, input: NewPoll)
    requires Sound(q) && Waits(q, id, input) && NotResubmitted(events, id)
    ensures Sound(Run(env, q, events)) && Waits(Run(env, q, events), id, input)
    decreases |events|
  {
    if events != [] {
      assert !(events[0].step.Submit? && events[0].step.id == id);
      StepKeeps(env, q, events[0], id, input);
      assert NotResubmitted(events[1..], id);
      RunKeeps(env, Apply(env, q, events[0]), events[1..], id, input);
    }
  }

  // ---------------------------------------------------------------- what an attempt has read stays read

  /** The attempt makes no step of its own. */
  ghost predicate Rests(events: seq<Event>, attempt: AttemptId) {
    forall i :: 0 <= i < |events| ==>
        && !(events[i].step.Write? && events[i].step.attempt == attempt)
        && !(events[i].step.CleanUp? && events[i].step.attempt == attempt)
  }

  lemma {:induction false} AttemptRests(env: Instance, q: Outbox, events: seq<Event>, attempt: AttemptId)
    requires attempt in q.attempts && Rests(events, attempt)
    ensures attempt in Run(env, q, events).attempts && Run(env, q, events).attempts[attempt] == q.attempts[attempt]
    decreases |events|
  {
    if events != [] {
      assert !(events[0].step.Write? && events[0].step.attempt == attempt)
          && !(events[0].step.CleanUp? && events[0].step.attempt == attempt);
      assert Rests(events[1..], attempt);
      AttemptRests(env, Apply(env, q, events[0]), events[1..], attempt);
    }
  }

  /** A read of a due schedule whose publication is not visible loads it with its poll. */
  lemma ReadLoads(env: Instance, q: Outbox, attempt: AttemptId, id: ScheduledId, at: Time)
    requires attempt !in q.attempts && id in q.schedules && q.schedules[id].at <= at
    requires !Visible(q, q.schedules[id].publication)
    ensures var q' := Apply(env, q, Event(at, Read(attempt, id)));
            q' == Proceed(q, attempt, ToWrite(Loaded(id, q.schedules[id], Load(q.shelf, id))))
  {
  }

  /**
   A poll submitted for a schedule, read after any run and written after any other, is created as the
   submitted input would be at the time of the write: the same tables, or the same failure and no
   change. It does not matter what happened to the schedule between the read and the write.
   */
  lemma PublishedAsSubmitted(
    env: Instance, q0: Outbox, id: ScheduledId, schedule: Schedule, input: NewPoll, before: seq<Event>,
    attempt: AttemptId, readAt: Time, between: seq<Event>, pollId: PollId, writeAt: Time)
    requires Sound(q0) && Unused(q0, id, schedule.publication) && Validate(env.graphemes, input).Ok?
    requires NotResubmitted(before, id) && Rests(between, attempt)
    ensures var q1 := Run(env, SubmitSchedule(env, q0, id, schedule, Some(input)), before);
            var q2 := Run(env, Apply(env, q1, Event(readAt, Read(attempt, id))), between);
            && attempt !in q1.attempts && id in q1.schedules && q1.schedules[id].at <= readAt
            && !Visible(q1, q1.schedules[id].publication)
            ==>
              var publication := q1.schedules[id].publication;
              var direct := CreateLocalPoll(env, q2.db, pollId, publication, input, writeAt);
              && attempt in q2.attempts
              && Apply(env, q2, Event(writeAt, Write(attempt, pollId, true))) ==
                   if publication !in q2.statuses && direct.Ok?
                   then Proceed(Remove(q2.(statuses := q2.statuses[publication := false], db := direct.value), id),
                       attempt, Over)
                   else Proceed(q2, attempt, Over)
  {
    var q := SubmitSchedule(env, q0, id, schedule, Some(input));
    SubmittedWaits(env, q0, id, schedule, input);
    RunKeeps(env, q, before, id, input);
    var q1 := Run(env, q, before);
    if attempt !in q1.attempts && id in q1.schedules && q1.schedules[id].at <= readAt
        && !Visible(q1, q1.schedules[id].publication) {
      ReadLoads(env, q1, attempt, id, readAt);
      var read := Apply(env, q1, Event(readAt, Read(attempt, id)));
      AttemptRests(env, read, between, attempt);
      StoredValidatesAlike(env.graphemes, input);
      PublishingStoredIsDirect(env, Run(env, read, between).db, pollId, q1.schedules[id].publication, input, writeAt);
    }
  }

  lemma SubmittedWaits(env: Instance, q: Outbox, id: ScheduledId, schedule: Schedule, input: NewPoll)
    requires Sound(q) && id !in q.schedules
    ensures Sound(SubmitSchedule(env, q, id, schedule, Some(input)))
    ensures Waits(SubmitSchedule(env, q, id, schedule, Some(input)), id, input)
  {
    SubmitKeeps(env, q, id, schedule, Some(input));
    ShelvedIsStored(q.shelf, id, input);
    ScheduledRoundTrip(q.shelf, Shelve(q.shelf, id, input), id, input);
  }

  // ---------------------------------------------------------------- at most once

  /** How often the status is published. */
  ghost function Publications(env: Instance, q: Outbox, events: seq<Event>, status: StatusId): nat
    decreases |events|
  {
    if events == [] then 0
    else
      var later := Publications(env, Apply(env, q, events[0]), events[1..], status);
      if Publishes(env, q, events[0]) && q.attempts[events[0].step.attempt].loaded.schedule.publication == status
      then 1 + later
      else later
  }

  /** How often its row is destroyed, which only purging an account does. */
  ghost function Purges(env: Instance, q: Outbox, events: seq<Event>, status: StatusId): nat
    decreases |events|
  {
    if events == [] then 0
    else
      var later := Purges(env, Apply(env, q, events[0]), events[1..], status);
      if events[0].step.PurgeStatuses? && status in events[0].step.purged && status in q.statuses then 1 + later
          else later
  }

  lemma StatusRowStays(env: Instance, q: Outbox, e: Event, status: StatusId)
    ensures status in q.statuses && !(e.step.PurgeStatuses? && status in e.step.purged) ==>
        status in Apply(env, q, e).statuses
    ensures Publishes(env, q, e) && q.attempts[e.step.attempt].loaded.schedule.publication == status ==>
        status !in q.statuses && status in Apply(env, q, e).statuses
  {
  }

  /**
   However many attempts are under way, the primary key lets one publication through for each time
   the status has no row.
   */
  lemma {:induction false} PublishedOncePerRow(env: Instance, q: Outbox, events: seq<Event>, status: StatusId)
    ensures Publications(env, q, events, status) <=
        (if status in q.statuses then 0 else 1) + Purges(env, q, events, status)
    decreases |events|
  {
    if events != [] {
      StatusRowStays(env, q, events[0], status);
      PublishedOncePerRow(env, Apply(env, q, events[0]), events[1..], status);
    }
  }

  /** So in a run that keeps status rows, as deleting a status does, it is published at most once. */
  lemma PublishedAtMostOnce(env: Instance, q: Outbox, events: seq<Event>, status: StatusId)
    requires forall i :: 0 <= i < |events| ==> !(events[i].step.PurgeStatuses? && status in events[i].step.purged)
    ensures Publications(env, q, events, status) <= if status in q.statuses then 0 else 1
  {
    NoPurges(env, q, events, status);
    PublishedOncePerRow(env, q, events, status);
  }

  lemma {:induction false} NoPurges(env: Instance, q: Outbox, events: seq<Event>, status: StatusId)
    requires forall i :: 0 <= i < |events| ==> !(events[i].step.PurgeStatuses? && status in events[i].step.purged)
    ensures Purges(env, q, events, status) == 0
    decreases |events|
  {
    if events != [] {
      assert !(events[0].step.PurgeStatuses? && status in events[0].step.purged);
      NoPurges(env, Apply(env, q, events[0]), events[1..], status);
    }
  }

  // ---------------------------------------------------------------- schedules that went meanwhile

  /** No attempt that has read this schedule is still to write. */
  ghost predicate NoneInFlight(q: Outbox, id: ScheduledId) {
    forall a :: a in q.attempts && q.attempts[a].ToWrite? ==> q.attempts[a].loaded.id != id
  }

  ghost predicate PublishesSchedule(env: Instance, q: Outbox, e: Event, id: ScheduledId) {
    Publishes(env, q, e) && q.attempts[e.step.attempt].loaded.id == id
  }

  ghost function SchedulePublications(env: Instance, q: Outbox, events: seq<Event>, id: ScheduledId): nat
    decreases |events|
  {
    if events == [] then 0
    else
      var later := SchedulePublications(env, Apply(env, q, events[0]), events[1..], id);
      if PublishesSchedule(env, q, events[0], id) then 1 + later else later
  }

  lemma GoneStaysGone(env: Instance, q: Outbox, e: Event, id: ScheduledId)
    requires id !in q.schedules && NoneInFlight(q, id) && !(e.step.Submit? && e.step.id == id)
    ensures id !in Apply(env, q, e).schedules && NoneInFlight(Apply(env, q, e), id)
    ensures !PublishesSchedule(env, q, e, id)
  {
  }

  /** A schedule that is gone is never published by an attempt that reads after it went. */
  lemma {:induction false} GoneIsNotPublished(env: Instance, q: Outbox, events: seq<Event>, id: ScheduledId)
    requires id !in q.schedules && NoneInFlight(q, id) && NotResubmitted(events, id)
    ensures SchedulePublications(env, q, events, id) == 0
    decreases |events|
  {
    if events != [] {
      assert !(events[0].step.Submit? && events[0].step.id == id);
      assert NotResubmitted(events[1..], id);
      GoneStaysGone(env, q, events[0], id);
      GoneIsNotPublished(env, Apply(env, q, events[0]), events[1..], id);
    }
  }

  /** Some event of the run deletes the schedule. */
  ghost predicate RemovedDuring(env: Instance, q: Outbox, events: seq<Event>, id: ScheduledId)
    decreases |events|
  {
    events != [] &&
    ((id in q.schedules && id !in Apply(env, q, events[0]).schedules)
        || RemovedDuring(env, Apply(env, q, events[0]), events[1..], id))
  }

  /** The time the run last moved the schedule to, if it did. */
  ghost function MovedTo(env: Instance, q: Outbox, events: seq<Event>, id: ScheduledId): Option<Time>
    decreases |events|
  {
    if events == [] then None
    else
      var later := MovedTo(env, Apply(env, q, events[0]), events[1..], id);
      if later.Some? then later
      else if events[0].step.Reschedule? && events[0].step.id == id && id in q.schedules then Some(events[0].step.at)
      else None
  }

  lemma OneStepSchedule(env: Instance, q: Outbox, e: Event, id: ScheduledId)
    requires !(e.step.Submit? && e.step.id == id)
    ensures id !in q.schedules ==> id !in Apply(env, q, e).schedules
    ensures id in q.schedules && id in Apply(env, q, e).schedules ==>
        Apply(env, q, e).schedules[id] ==
          if e.step.Reschedule? && e.step.id == id then q.schedules[id].(at := e.step.at) else q.schedules[id]
  {
  }

  lemma {:induction false} StaysGone(env: Instance, q: Outbox, events: seq<Event>, id: ScheduledId)
    requires id !in q.schedules && NotResubmitted(events, id)
    ensures id !in Run(env, q, events).schedules && MovedTo(env, q, events, id).None?
    decreases |events|
  {
    if events != [] {
      assert !(events[0].step.Submit? && events[0].step.id == id);
      assert NotResubmitted(events[1..], id);
      OneStepSchedule(env, q, events[0], id);
      StaysGone(env, Apply(env, q, events[0]), events[1..], id);
    }
  }

  /** What a run does to a schedule: it is gone exactly when removed, and else due when last moved to. */
  lemma {:induction false} ScheduleAfter(env: Instance, q: Outbox, events: seq<Event>, id: ScheduledId)
    requires id in q.schedules && NotResubmitted(events, id)
    ensures var q' := Run(env, q, events);
            && (id !in q'.schedules <==> RemovedDuring(env, q, events, id))
            && (id in q'.schedules ==>
                  var moved := MovedTo(env, q, events, id);
                  q'.schedules[id] == if moved.Some? then q.schedules[id].(at := moved.value) else q.schedules[id])
    decreases |events|
  {
    if events != [] {
      var q1 := Apply(env, q, events[0]);
      assert !(events[0].step.Submit? && events[0].step.id == id);
      assert NotResubmitted(events[1..], id);
      OneStepSchedule(env, q, events[0], id);
      if id in q1.schedules {
        ScheduleAfter(env, q1, events[1..], id);
      } else {
        StaysGone(env, q1, events[1..], id);
      }
    }
  }

  /** The clock never goes back. */
  ghost predicate Timely(clock: Time, events: seq<Event>)
    decreases |events|
  {
    events == [] || (clock <= events[0].at && Timely(events[0].at, events[1..]))
  }

  /** There is nothing to publish at this moment: the schedule is gone or not due. */
  ghost predicate Stale(q: Outbox, id: ScheduledId, now: Time) {
    id !in q.schedules || q.schedules[id].at > now
  }

  /**
   A write publishes a schedule that is gone or not due exactly when the schedule was removed, or
   last moved to a time still to come, between the attempt's read and its write. Whether the write
   publishes has nothing to do with it.
   */
  lemma StalePublicationIff(
    env: Instance, q: Outbox, attempt: AttemptId, id: ScheduledId, readAt: Time, between: seq<Event>, write: Event)
    requires attempt !in q.attempts && id in q.schedules && q.schedules[id].at <= readAt <= write.at
    requires !Visible(q, q.schedules[id].publication)
    requires NotResubmitted(between, id) && Rests(between, attempt)
    requires write.step.Write? && write.step.attempt == attempt
    ensures var read := Apply(env, q, Event(readAt, Read(attempt, id)));
            var q' := Run(env, read, between);
            && attempt in q'.attempts && q'.attempts[attempt] == ToWrite(Loaded(id, q.schedules[id], Load(q.shelf, id)))
            && (Publishes(env, q', write) && Stale(q', id, write.at) <==>
                  && Publishes(env, q', write)
                  && (RemovedDuring(env, read, between, id)
                      || (MovedTo(env, read, between, id).Some? && MovedTo(env, read, between, id).value > write.at)))
  {
    var read := Apply(env, q, Event(readAt, Read(attempt, id)));
    ReadLoads(env, q, attempt, id, readAt);
    AttemptRests(env, read, between, attempt);
    ScheduleAfter(env, read, between, id);
  }
}
