/** What every step of a scheduled publication does to the schedules, the statuses and the polls. */
module ScheduledEffects {
  import opened Prelude
  import opened Text
  import opened PollModel
  import PollFrames
  import opened PollEffects
  import opened ScheduledPolls
  import opened ScheduledPublication

  /** The schedule and the poll stored with it are gone; the other schedules and polls are as before. */
  ghost predicate ScheduleGone(q: Outbox, q': Outbox, id: ScheduledId) {
    && (forall k :: k in q'.schedules <==> k in q.schedules && k != id)
    && (forall k :: k in q'.schedules ==> q'.schedules[k] == q.schedules[k])
    && (forall k :: k in q'.shelf.headers <==> k in q.shelf.headers && k != id)
    && (forall k :: k in q'.shelf.headers ==> q'.shelf.headers[k] == q.shelf.headers[k])
    && (forall t :: t in q'.shelf.titles <==> t in q.shelf.titles && t.scheduled != id)
    && (forall t :: t in q'.shelf.titles ==> q'.shelf.titles[t] == q.shelf.titles[t])
  }

  lemma RemoveIsGone(q: Outbox, id: ScheduledId)
    ensures ScheduleGone(q, Remove(q, id), id)
    ensures Remove(q, id).statuses == q.statuses && Remove(q, id).db == q.db && Remove(q, id).attempts == q.attempts
  {
  }

  /** The attempt is at this point now, and no other attempt moved. */
  ghost predicate OnlyAttempt(q: Outbox, q': Outbox, attempt: AttemptId, next: Attempt) {
    && attempt in q'.attempts && q'.attempts[attempt] == next
    && (forall a :: a != attempt ==> (a in q'.attempts <==> a in q.attempts))
    && (forall a :: a != attempt && a in q.attempts ==> q'.attempts[a] == q.attempts[a])
  }

  ghost predicate Submittable(env: Instance, q: Outbox, id: ScheduledId, schedule: Schedule, poll: Option<NewPoll>) {
    && id !in q.schedules
    && (forall k :: k in q.schedules ==> q.schedules[k].publication != schedule.publication)
    && (poll.Some? ==> Fault(env.graphemes, poll.value) == None)
  }

  /** A schedule is stored, with its poll's titles trimmed, unless its ids are taken or its poll has a fault. */
  lemma SubmitEvent(env: Instance, q: Outbox, now: Time, id: ScheduledId, schedule: Schedule, poll: Option<NewPoll>)
    requires Sound(q)
    ensures var q' := Apply(env, q, Event(now, Submit(id, schedule, poll)));
            if !Submittable(env, q, id, schedule, poll) then q' == q
            else
              && q'.statuses == q.statuses && q'.db == q.db && q'.attempts == q.attempts
              && q'.schedules == q.schedules[id := schedule]
              && match poll
                 case None => q'.shelf == q.shelf
                 case Some(input) =>
                   && q'.shelf.headers == q.shelf.headers[id := Header(multiple := input.multiple,
                       hideTotals := input.hideTotals, expiresIn := input.expiresIn)]
                   && (forall t :: t in q'.shelf.titles <==>
                       t in q.shelf.titles || (t.scheduled == id && 0 <= t.position < |input.options|))
                   && (forall t :: t in q.shelf.titles ==> q'.shelf.titles[t] == q.shelf.titles[t])
                   && forall i :: 0 <= i < |input.options| ==>
                       TitleKey(id, i) in q'.shelf.titles && q'.shelf.titles[TitleKey(id, i)] == Trim(input.options[i])
  {
    if poll.Some? {
      ValidationFindsFault(env.graphemes, poll.value);
      if id !in q.shelf.headers {
        ShelvedIsStored(q.shelf, id, poll.value);
      }
    }
  }

  /**
   Reading sees nothing to do for a schedule that is gone or not due, has one whose status is there
   cancelled, and else takes the schedule and its poll along; it changes no table.
   */
  lemma ReadEvent(env: Instance, q: Outbox, now: Time, attempt: AttemptId, id: ScheduledId)
    ensures var q' := Apply(env, q, Event(now, Read(attempt, id)));
            && q'.schedules == q.schedules && q'.shelf == q.shelf && q'.statuses == q.statuses && q'.db == q.db
            && if attempt in q.attempts then q' == q
               else if id !in q.schedules || now < q.schedules[id].at then OnlyAttempt(q, q', attempt, Over)
               else
                 var status := q.schedules[id].publication;
                 OnlyAttempt(q, q', attempt,
                     if status in q.statuses && q.statuses[status] == false then ToCancel(id)
                     else ToWrite(Loaded(id, q.schedules[id], Load(q.shelf, id))))
  {
  }

  /** The statement about a write, for what comes of its transaction. */
  ghost predicate WriteAnswered(env: Instance, q: Outbox, loaded: Loaded, pollId: PollId, acceptable: bool, now: Time,
      outcome: Outcome) {
    var status := loaded.schedule.publication;
    if !acceptable || (loaded.poll.Some? && Fault(env.graphemes, loaded.poll.value).Some?) then
      outcome == TurnedAway
    else if status in q.statuses || (loaded.poll.Some? && PollTaken(q.db, pollId, status)) then
      outcome == RolledBack
    else
      && outcome.Published?
      && outcome.q.attempts == q.attempts
      && outcome.q.statuses == q.statuses[status := false]
      && ScheduleGone(q, outcome.q, loaded.id)
      && match loaded.poll
         case None => outcome.q.db == q.db
         case Some(input) => PollCreated(q.db, outcome.q.db, pollId, status, input, now)
  }

  ghost predicate PollTaken(db: Db, pollId: PollId, status: StatusId) {
    pollId in db.polls || exists p :: p in db.polls && db.polls[p].status == Local(status)
  }

  /**
   A write with a fault in its poll, or in the rest of its status, is turned away. One whose status row
   or poll id is taken is rolled back. Any other inserts the status, creates the poll and deletes the
   schedule.
   */
  lemma WriteIsAnswered(env: Instance, q: Outbox, loaded: Loaded, pollId: PollId, acceptable: bool, now: Time)
    requires PollFrames.ForeignKeys(q.db)
    ensures WriteAnswered(env, q, loaded, pollId, acceptable, now,
        WritePublication(env, q, loaded, pollId, acceptable, now))
  {
    match loaded.poll {
      case None => StatusIsWritten(env, q, loaded, pollId, acceptable, now);
      case Some(input) => PollIsWritten(env, q, loaded, input, pollId, acceptable, now);
    }
  }

  lemma StatusIsWritten(env: Instance, q: Outbox, loaded: Loaded, pollId: PollId, acceptable: bool, now: Time)
    requires loaded.poll == None
    ensures WriteAnswered(env, q, loaded, pollId, acceptable, now,
        WritePublication(env, q, loaded, pollId, acceptable, now))
  {
    RemoveIsGone(q.(statuses := q.statuses[loaded.schedule.publication := false]), loaded.id);
  }

  lemma PollIsWritten(env: Instance, q: Outbox, loaded: Loaded, input: NewPoll, pollId: PollId, acceptable: bool,
      now: Time)
    requires PollFrames.ForeignKeys(q.db) && loaded.poll == Some(input)
    ensures WriteAnswered(env, q, loaded, pollId, acceptable, now,
        WritePublication(env, q, loaded, pollId, acceptable, now))
  {
    var status := loaded.schedule.publication;
    ValidationFindsFault(env.graphemes, input);
    CreatedPollIsStored(env, q.db, pollId, status, input, now);
    var created := CreateLocalPoll(env, q.db, pollId, status, input, now);
    if created.Ok? {
      RemoveIsGone(q.(statuses := q.statuses[status := false], db := created.value), loaded.id);
    }
  }

  /** A write that is turned away has the schedule cancelled next; otherwise the attempt is over. */
  lemma WriteEvent(env: Instance, q: Outbox, now: Time, attempt: AttemptId, pollId: PollId, acceptable: bool)
    requires PollFrames.ForeignKeys(q.db)
    ensures var q' := Apply(env, q, Event(now, Write(attempt, pollId, acceptable)));
            if attempt in q.attempts && q.attempts[attempt].ToWrite? then
              exists outcome :: WriteAnswered(env, q, q.attempts[attempt].loaded, pollId, acceptable, now, outcome)
                && OnlyAttempt(q, q', attempt,
                    if outcome.TurnedAway? then ToCancel(q.attempts[attempt].loaded.id) else Over)
                && q' == (if outcome.Published? then outcome.q else q).(attempts := q'.attempts)
            else
              q' == q
  {
    if attempt in q.attempts && q.attempts[attempt].ToWrite? {
      var loaded := q.attempts[attempt].loaded;
      WriteIsAnswered(env, q, loaded, pollId, acceptable, now);
      var outcome := WritePublication(env, q, loaded, pollId, acceptable, now);
      assert WriteAnswered(env, q, loaded, pollId, acceptable, now, outcome);
    }
  }

  /** Cancelling deletes the schedule and publishes nothing, for a user and after a rejected write. */
  lemma CancelEvents(env: Instance, q: Outbox, now: Time, id: ScheduledId, attempt: AttemptId)
    ensures var q' := Apply(env, q, Event(now, Cancel(id)));
            ScheduleGone(q, q', id) && q'.statuses == q.statuses && q'.db == q.db && q'.attempts == q.attempts
    ensures var q' := Apply(env, q, Event(now, CleanUp(attempt)));
            if attempt in q.attempts && q.attempts[attempt].ToCancel? then
              && ScheduleGone(q, q', q.attempts[attempt].id) && OnlyAttempt(q, q', attempt, Over)
              && q'.statuses == q.statuses && q'.db == q.db
            else
              q' == q
  {
    RemoveIsGone(q, id);
  }

  /** Moving a schedule changes its time; statuses come, are marked deleted and are purged. */
  lemma OtherEvents(env: Instance, q: Outbox, now: Time, id: ScheduledId, at: Time, status: StatusId,
      purged: set<StatusId>)
    ensures var q' := Apply(env, q, Event(now, Reschedule(id, at)));
            && q' == q.(schedules := q'.schedules)
            && q'.schedules.Keys == q.schedules.Keys
            && (forall k :: k in q.schedules && k != id ==> q'.schedules[k] == q.schedules[k])
            && (id in q.schedules ==>
                q'.schedules[id].at == at && q'.schedules[id].publication == q.schedules[id].publication)
    ensures var q' := Apply(env, q, Event(now, PostStatus(status)));
            q' == if status in q.statuses then q else q.(statuses := q.statuses[status := false])
    ensures var q' := Apply(env, q, Event(now, DeleteStatus(status)));
            q' == if status in q.statuses then q.(statuses := q.statuses[status := true]) else q
    ensures var q' := Apply(env, q, Event(now, PurgeStatuses(purged)));
            && (forall k :: k in q'.statuses <==> k in q.statuses && k !in purged)
            && (forall k :: k in q'.statuses ==> q'.statuses[k] == q.statuses[k])
            && q' == q.(statuses := q'.statuses)
  {
  }
}
