/**
 * `_convert_assignment_to_event` of the REST API: one calendar event per
 * active day among the first seven day flags, with the time read in 5-minute
 * units and a colour flagging a room that is too small.
 */
module ApiEvents {
  import opened Util
  import opened Text
  import opened TimeSlots
  import opened Records

  const Green: string := "#28a745"
  const Yellow: string := "#ffc107"

  /** What the conversion reads from an assignment. */
  datatype Assignment = Assignment(id: int, classLimit: int, room: Option<Room>, slot: Option<TimeSlot>)

  /** An event; `day` is the Monday-first offset added to the week's base date, which is not modelled. */
  datatype Event = Event(id: string, assignmentId: int, day: nat, startTime: string, endTime: string,
                         background: string, border: string)

  /** `HH:MM:00`, the time part of the event's ISO timestamp. */
  function TimeOfDay(minutes: int): (r: string)
    ensures |r| >= 3 && r[..|r| - 3] == ClockOfMinutes(minutes)
  {
    Clock(minutes / 60, minutes % 60) + ":00"
  }

  function EventId(assignmentId: int, day: nat): string {
    IntToString(assignmentId) + "_" + NatToString(day)
  }

  /** Yellow when the room is known and smaller than the class limit, green otherwise. */
  function Colour(a: Assignment): string {
    if a.room.Some? && a.room.value.capacity < a.classLimit then Yellow else Green
  }

  /** One event per listed day, all with the same times and colour. */
  function DayEvents(assignmentId: int, active: seq<nat>, startTime: string, endTime: string, colour: string): (r: seq<Event>)
    ensures |r| == |active|
    ensures forall k :: 0 <= k < |r| ==>
      r[k] == Event(EventId(assignmentId, active[k]), assignmentId, active[k], startTime, endTime, colour, colour)
  {
    seq(|active|, k requires 0 <= k < |active| =>
      Event(EventId(assignmentId, active[k]), assignmentId, active[k], startTime, endTime, colour, colour))
  }

  /** `start_minutes = ts.start_time * 5`. */
  function StartMinutes(ts: TimeSlot): int {
    ts.start * 5
  }

  /** `end_minutes = start_minutes + ts.length * 5`. */
  function EndMinutes(ts: TimeSlot): int {
    StartMinutes(ts) + ts.length * 5
  }

  /** The active days among the first seven flags (`days[:7]`). */
  function ActiveDays(ts: TimeSlot): seq<nat> {
    ActiveIndices(ts.days[..Min(7, |ts.days|)])
  }

  /** The events of an assignment; `None` when it has no time slot. */
  function ConvertAssignment(a: Assignment): Option<seq<Event>> {
    match a.slot
    case None => None
    case Some(ts) =>
      Some(DayEvents(a.id, ActiveDays(ts), TimeOfDay(StartMinutes(ts)), TimeOfDay(EndMinutes(ts)), Colour(a)))
  }

  lemma EventIdInjective(a1: int, d1: nat, a2: int, d2: nat)
    requires EventId(a1, d1) == EventId(a2, d2)
    ensures a1 == a2 && d1 == d2
  {
    NatToStringHasNo(d1, '_');
    NatToStringHasNo(d2, '_');
    assert EventId(a1, d1) == IntToString(a1) + ['_'] + NatToString(d1);
    assert EventId(a2, d2) == IntToString(a2) + ['_'] + NatToString(d2);
    SplitAtLastSeparator(IntToString(a1), NatToString(d1), IntToString(a2), NatToString(d2), '_');
    IntToStringInjective(a1, a2);
    NatToStringInjective(d1, d2);
  }

  /**
   * One event per '1' among the first seven flags, in day order and none
   * for later flags; ids are distinct; the colour is yellow exactly for an
   * undersized room, and the border always repeats the background.
   */
  lemma ConvertAssignmentEvents(a: Assignment)
    requires a.slot.Some?
    ensures var evs := ConvertAssignment(a).value;
      var days := a.slot.value.days;
      (forall k :: 0 <= k < |evs| ==> evs[k].day < 7 && days[evs[k].day] == '1') &&
      (forall d :: 0 <= d < 7 && d < |days| && days[d] == '1' ==> exists k :: 0 <= k < |evs| && evs[k].day == d) &&
      (forall k, l :: 0 <= k < l < |evs| ==> evs[k].day < evs[l].day && evs[k].id != evs[l].id) &&
      (forall k :: 0 <= k < |evs| ==>
        (evs[k].border == evs[k].background &&
         (evs[k].background == Yellow <==> a.room.Some? && a.room.value.capacity < a.classLimit)))
  {
    var days := a.slot.value.days;
    var first := days[..Min(7, |days|)];
    var act := ActiveIndices(first);
    var ts := a.slot.value;
    DayEventsCover(a.id, first, TimeOfDay(StartMinutes(ts)), TimeOfDay(EndMinutes(ts)), Colour(a));
    DayEventsOrdered(a.id, act, TimeOfDay(StartMinutes(ts)), TimeOfDay(EndMinutes(ts)), Colour(a));
    assert forall d :: 0 <= d < |first| ==> first[d] == days[d];
  }

  /** The events for the active flags of a mask: one per '1', each on an active day. */
  lemma DayEventsCover(assignmentId: int, days: string, startTime: string, endTime: string, colour: string)
    ensures var evs := DayEvents(assignmentId, ActiveIndices(days), startTime, endTime, colour);
      (forall k :: 0 <= k < |evs| ==> evs[k].day < |days| && days[evs[k].day] == '1') &&
      (forall d :: 0 <= d < |days| && days[d] == '1' ==> exists k :: 0 <= k < |evs| && evs[k].day == d)
  {
    var act := ActiveIndices(days);
    var evs := DayEvents(assignmentId, act, startTime, endTime, colour);
    forall d | 0 <= d < |days| && days[d] == '1'
      ensures exists k :: 0 <= k < |evs| && evs[k].day == d
    {
      var k :| 0 <= k < |act| && act[k] == d;
      assert evs[k].day == d;
    }
  }

  /** Events for increasing days come in day order with distinct ids. */
  lemma DayEventsOrdered(assignmentId: int, active: seq<nat>, startTime: string, endTime: string, colour: string)
    requires forall k, l :: 0 <= k < l < |active| ==> active[k] < active[l]
    ensures var evs := DayEvents(assignmentId, active, startTime, endTime, colour);
      forall k, l :: 0 <= k < l < |evs| ==> evs[k].day < evs[l].day && evs[k].id != evs[l].id
  {
    var evs := DayEvents(assignmentId, active, startTime, endTime, colour);
    forall k, l | 0 <= k < l < |evs|
      ensures evs[k].day < evs[l].day && evs[k].id != evs[l].id
    {
      if evs[k].id == evs[l].id {
        EventIdInjective(assignmentId, evs[k].day, assignmentId, evs[l].day);
      }
    }
  }

  /** Events of different assignments never share an id. */
  lemma DistinctAcrossAssignments(a: Assignment, b: Assignment, e: Event, f: Event)
    requires a.id != b.id && a.slot.Some? && b.slot.Some?
    requires e in ConvertAssignment(a).value && f in ConvertAssignment(b).value
    ensures e.id != f.id
  {
    if e.id == f.id {
      EventIdInjective(a.id, e.day, b.id, f.day);
    }
  }

  /** Dropping the seconds gives back the clock, which reads back as the minute count. */
  lemma TimeOfDayRoundTrip(minutes: int)
    requires minutes >= 0
    ensures |TimeOfDay(minutes)| >= 3
    ensures ParseClock(TimeOfDay(minutes)[..|TimeOfDay(minutes)| - 3]) == Some(minutes)
  {
    ClockRoundTrip(minutes);
  }

  /** For a slot from midnight on, every event's start reads back as start·5 minutes. */
  lemma EventStartTime(a: Assignment, k: nat)
    requires a.slot.Some? && a.slot.value.start >= 0
    requires k < |ConvertAssignment(a).value|
    ensures ParseClock(ConvertAssignment(a).value[k].startTime[..|ConvertAssignment(a).value[k].startTime| - 3])
      == Some(a.slot.value.start * 5)
  {
    var ts := a.slot.value;
    assert ConvertAssignment(a).value[k].startTime == TimeOfDay(StartMinutes(ts));
    TimeOfDayRoundTrip(StartMinutes(ts));
  }

  /** For a slot from midnight on with a non-negative length, every event's end reads back as start·5 + length·5 minutes. */
  lemma EventEndTime(a: Assignment, k: nat)
    requires a.slot.Some? && a.slot.value.start >= 0 && a.slot.value.length >= 0
    requires k < |ConvertAssignment(a).value|
    ensures ParseClock(ConvertAssignment(a).value[k].endTime[..|ConvertAssignment(a).value[k].endTime| - 3])
      == Some(EndMinutes(a.slot.value))
  {
    var ts := a.slot.value;
    assert ConvertAssignment(a).value[k].endTime == TimeOfDay(EndMinutes(ts));
    TimeOfDayRoundTrip(EndMinutes(ts));
  }
}
