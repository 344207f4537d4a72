/**
 Runs from an empty outbox in which a schedule is published that its author has taken back, or moved.

 `ScheduledPublication.StalePublicationIff` says when this happens; here is one run for each way.
 */
module ScheduledWitnesses {
  import opened Prelude
  import opened PollModel
  import opened ScheduledPolls
  import opened ScheduledPublication
  import PollWitnesses

  function Empty(): Outbox {
    Outbox(map[], Shelf(map[], map[]), map[], Db(map[], map[], map[], {}, []), map[])
  }

  const DUE: Time := 400_000_000
  const LATER: Time := 800_000_000

  /** Schedule 1 is due after almost seven minutes and will be status 7, with a poll of two answers. */
  function Submitted(): Event {
    Event(0, Submit(1, Schedule(7, DUE), Some(PollWitnesses.NewLocalPoll())))
  }

  function ReadAtDue(): Event {
    Event(DUE, Read(5, 1))
  }

  function WriteAtDue(): Event {
    Event(DUE, Write(5, 1, true))
  }

  lemma ThreeEvents(env: Instance, q: Outbox, a: Event, b: Event, c: Event)
    ensures Run(env, q, [a, b, c]) == Apply(env, Apply(env, Apply(env, q, a), b), c)
  {
    assert [a, b, c][1..] == [b, c] && [b, c][1..] == [c] && [c][1..] == [];
    assert Run(env, Apply(env, Apply(env, Apply(env, q, a), b), c), []) ==
        Apply(env, Apply(env, Apply(env, q, a), b), c);
    assert Run(env, Apply(env, Apply(env, q, a), b), [c]) ==
        Run(env, Apply(env, Apply(env, Apply(env, q, a), b), c), []);
    assert Run(env, Apply(env, q, a), [b, c]) == Run(env, Apply(env, Apply(env, q, a), b), [c]);
  }

  /** The attempt has loaded the submitted poll, trimmed, and nothing was published yet. */
  ghost predicate HasRead(q: Outbox) {
    && q.db == Empty().db && q.statuses == map[]
    && 5 in q.attempts
    && q.attempts[5] == ToWrite(Loaded(1, Schedule(7, DUE), Some(TrimmedPoll(PollWitnesses.NewLocalPoll()))))
  }

  lemma SubmittedAndRead()
    ensures var q := Apply(PollWitnesses.PlainInstance(), Apply(PollWitnesses.PlainInstance(), Empty(), Submitted()),
        ReadAtDue());
            HasRead(q) && q.schedules == map[1 := Schedule(7, DUE)]
  {
    var env := PollWitnesses.PlainInstance();
    PollWitnesses.LettersAreValid();
    SubmittedWaits(env, Empty(), 1, Schedule(7, DUE), PollWitnesses.NewLocalPoll());
    ReadLoads(env, Apply(env, Empty(), Submitted()), 5, 1, DUE);
  }

  /** Whatever has become of the schedule, the write goes through and the poll is there. */
  lemma WrittenAnyway(q: Outbox)
    requires HasRead(q)
    ensures Publishes(PollWitnesses.PlainInstance(), q, WriteAtDue())
    ensures var q' := Apply(PollWitnesses.PlainInstance(), q, WriteAtDue());
            Visible(q', 7) && 1 in q'.db.polls && q'.db.polls[1].status == Local(7)
  {
    PollWitnesses.LettersAreValid();
    StoredValidatesAlike(PollWitnesses.PlainInstance().graphemes, PollWitnesses.NewLocalPoll());
    assert PollFor(Empty().db, Local(7)).None?;
  }

  function CancelRun(): seq<Event> {
    [Submitted(), ReadAtDue(), Event(DUE, Cancel(1))]
  }

  /** The cancellation deletes the schedule and nothing of what was read. */
  lemma Cancelled(q: Outbox)
    requires HasRead(q)
    ensures var q' := Apply(PollWitnesses.PlainInstance(), q, Event(DUE, Cancel(1)));
            HasRead(q') && 1 !in q'.schedules
  {
  }

  lemma CancelledState()
    ensures var q := Run(PollWitnesses.PlainInstance(), Empty(), CancelRun());
            HasRead(q) && 1 !in q.schedules
  {
    var env := PollWitnesses.PlainInstance();
    SubmittedAndRead();
    Cancelled(Apply(env, Apply(env, Empty(), Submitted()), ReadAtDue()));
    ThreeEvents(env, Empty(), Submitted(), ReadAtDue(), Event(DUE, Cancel(1)));
  }

  lemma CancelRunIsTimely()
    ensures Timely(0, CancelRun() + [WriteAtDue()])
  {
    AscendingIsTimely(0, CancelRun() + [WriteAtDue()]);
  }

  /** A schedule cancelled between the read and the write is published. */
  lemma CancelledIsPublished()
    ensures Timely(0, CancelRun() + [WriteAtDue()])
    ensures var q := Run(PollWitnesses.PlainInstance(), Empty(), CancelRun());
            && 1 !in q.schedules && Publishes(PollWitnesses.PlainInstance(), q, WriteAtDue())
            && Visible(Apply(PollWitnesses.PlainInstance(), q, WriteAtDue()), 7)
  {
    CancelledState();
    WrittenAnyway(Run(PollWitnesses.PlainInstance(), Empty(), CancelRun()));
    CancelRunIsTimely();
  }

  function RescheduleRun(): seq<Event> {
    [Submitted(), ReadAtDue(), Event(DUE, Reschedule(1, LATER))]
  }

  /** The move changes when the schedule is due and nothing of what was read. */
  lemma Moved(q: Outbox)
    requires HasRead(q) && q.schedules == map[1 := Schedule(7, DUE)]
    ensures var q' := Apply(PollWitnesses.PlainInstance(), q, Event(DUE, Reschedule(1, LATER)));
            HasRead(q') && 1 in q'.schedules && q'.schedules[1].at == LATER
  {
  }

  lemma MovedState()
    ensures var q := Run(PollWitnesses.PlainInstance(), Empty(), RescheduleRun());
            HasRead(q) && 1 in q.schedules && q.schedules[1].at == LATER
  {
    var env := PollWitnesses.PlainInstance();
    SubmittedAndRead();
    Moved(Apply(env, Apply(env, Empty(), Submitted()), ReadAtDue()));
    ThreeEvents(env, Empty(), Submitted(), ReadAtDue(), Event(DUE, Reschedule(1, LATER)));
  }

  lemma RescheduleRunIsTimely()
    ensures Timely(0, RescheduleRun() + [WriteAtDue()])
  {
    AscendingIsTimely(0, RescheduleRun() + [WriteAtDue()]);
  }

  /** A schedule moved to a later time between the read and the write is published before that time. */
  lemma RescheduledIsPublishedEarly()
    ensures Timely(0, RescheduleRun() + [WriteAtDue()])
    ensures var q := Run(PollWitnesses.PlainInstance(), Empty(), RescheduleRun());
            && 1 in q.schedules && q.schedules[1].at > WriteAtDue().at
            && Publishes(PollWitnesses.PlainInstance(), q, WriteAtDue())
            && Visible(Apply(PollWitnesses.PlainInstance(), q, WriteAtDue()), 7)
  {
    MovedState();
    WrittenAnyway(Run(PollWitnesses.PlainInstance(), Empty(), RescheduleRun()));
    RescheduleRunIsTimely();
  }

  /** Events in ascending order of their times respect the clock. */
  lemma {:induction false} AscendingIsTimely(clock: Time, events: seq<Event>)
    requires forall i :: 0 <= i < |events| ==> clock <= events[i].at
    requires forall i, j :: 0 <= i < j < |events| ==> events[i].at <= events[j].at
    ensures Timely(clock, events)
    decreases |events|
  {
    if events != [] {
      AscendingIsTimely(events[0].at, events[1..]);
    }
  }
}
