/**
 * The REST view sets: the FullCalendar feed of a schedule, schedule
 * activation and the instructor statistics.
 */
module Views {
  import opened Util
  import opened Text
  import opened TimeSlots

  /** FullCalendar numbers days from Sunday = 0; the masks start on Monday. */
  function FullCalendarDay(i: nat): nat {
    if i < 6 then i + 1 else 0
  }

  /** The inverse of `FullCalendarDay` on a week. */
  function MaskIndex(d: nat): nat {
    if d == 0 then 6 else d - 1
  }

  /**
   * On the seven positions of a stored mask the mapping is a bijection onto
   * 0..6: Monday..Saturday become 1..6 and Sunday becomes 0.  A position
   * beyond the seventh is also sent to 0.
   */
  lemma FullCalendarDayBijective()
    ensures forall i: nat :: i < 7 ==> FullCalendarDay(i) < 7 && MaskIndex(FullCalendarDay(i)) == i
    ensures forall d: nat :: d < 7 ==> MaskIndex(d) < 7 && FullCalendarDay(MaskIndex(d)) == d
    ensures forall i: nat, j: nat :: i < 7 && j < 7 && FullCalendarDay(i) == FullCalendarDay(j) ==> i == j
    ensures forall i: nat :: i >= 6 ==> FullCalendarDay(i) == 0
  {
  }

  /** What the feed reads from an assignment. */
  datatype Assignment = Assignment(id: int, slot: TimeSlot)

  /** A recurring FullCalendar event. */
  datatype CalendarEvent = CalendarEvent(id: string, daysOfWeek: seq<nat>, startTime: string, endTime: string)

  function CalendarEventId(assignmentId: int, i: nat): string {
    IntToString(assignmentId) + "_" + NatToString(i)
  }

  /** The events of one assignment: one per '1' anywhere in the mask. */
  function AssignmentEvents(a: Assignment): (r: seq<CalendarEvent>)
    ensures |r| == Occurrences(a.slot.days, '1')
  {
    var act := ActiveIndices(a.slot.days);
    seq(|act|, k requires 0 <= k < |act| =>
      CalendarEvent(CalendarEventId(a.id, act[k]), [FullCalendarDay(act[k])],
                    StartFormatted(a.slot), EndFormatted(a.slot)))
  }

  /** `calendar_view`: the events of every assignment, in order. */
  function CalendarView(assignments: seq<Assignment>): seq<CalendarEvent> {
    if |assignments| == 0 then [] else AssignmentEvents(assignments[0]) + CalendarView(assignments[1..])
  }

  function TotalActiveDays(assignments: seq<Assignment>): nat {
    if |assignments| == 0 then 0 else Occurrences(assignments[0].slot.days, '1') + TotalActiveDays(assignments[1..])
  }

  lemma CalendarEventIdInjective(a1: int, i1: nat, a2: int, i2: nat)
    requires CalendarEventId(a1, i1) == CalendarEventId(a2, i2)
    ensures a1 == a2 && i1 == i2
  {
    NatToStringHasNo(i1, '_');
    NatToStringHasNo(i2, '_');
    assert CalendarEventId(a1, i1) == IntToString(a1) + ['_'] + NatToString(i1);
    assert CalendarEventId(a2, i2) == IntToString(a2) + ['_'] + NatToString(i2);
    SplitAtLastSeparator(IntToString(a1), NatToString(i1), IntToString(a2), NatToString(i2), '_');
    IntToStringInjective(a1, a2);
    NatToStringInjective(i1, i2);
  }

  /**
   * Within one assignment the events carry distinct ids, all share the
   * slot's formatted start and end, and for a stored (at most seven
   * character) mask they fall on distinct FullCalendar days.
   */
  lemma AssignmentEventsFacts(a: Assignment)
    ensures var evs := AssignmentEvents(a);
      (forall k :: 0 <= k < |evs| ==> evs[k].startTime == StartFormatted(a.slot) && evs[k].endTime == EndFormatted(a.slot)) &&
      (forall k, l :: 0 <= k < l < |evs| ==> evs[k].id != evs[l].id) &&
      (|a.slot.days| <= 7 ==> forall k, l :: 0 <= k < l < |evs| ==> evs[k].daysOfWeek != evs[l].daysOfWeek)
  {
    var act := ActiveIndices(a.slot.days);
    var evs := AssignmentEvents(a);
    forall k, l | 0 <= k < l < |evs| ensures evs[k].id != evs[l].id {
      if evs[k].id == evs[l].id {
        CalendarEventIdInjective(a.id, act[k], a.id, act[l]);
      }
    }
    if |a.slot.days| <= 7 {
      FullCalendarDayBijective();
      forall k, l | 0 <= k < l < |evs| ensures evs[k].daysOfWeek != evs[l].daysOfWeek {
        assert evs[k].daysOfWeek == [FullCalendarDay(act[k])];
        assert evs[l].daysOfWeek == [FullCalendarDay(act[l])];
        assert act[k] < act[l] < 7;
      }
    }
  }

  /** The feed has exactly one event per '1' over all masks. */
  lemma {:induction false} CalendarViewCount(assignments: seq<Assignment>)
    ensures |CalendarView(assignments)| == TotalActiveDays(assignments)
  {
    if |assignments| > 0 {
      CalendarViewCount(assignments[1..]);
    }
  }

  /** Assignments with distinct ids never produce the same event id. */
  lemma DistinctAssignmentsDistinctIds(a: Assignment, b: Assignment, k: nat, l: nat)
    requires a.id != b.id && k < |AssignmentEvents(a)| && l < |AssignmentEvents(b)|
    ensures AssignmentEvents(a)[k].id != AssignmentEvents(b)[l].id
  {
    var i := ActiveIndices(a.slot.days)[k];
    var j := ActiveIndices(b.slot.days)[l];
    if AssignmentEvents(a)[k].id == AssignmentEvents(b)[l].id {
      CalendarEventIdInjective(a.id, i, b.id, j);
    }
  }

  /** `activate` fails with 404 for an unknown schedule. */
  datatype ActivateResult = NotFound | Activated(active: map<int, bool>)

  /** `activate`: every schedule is switched off, then the chosen one on. */
  function Activate(active: map<int, bool>, pk: int): (r: ActivateResult)
    ensures r.NotFound? <==> pk !in active
    ensures r.Activated? ==> r.active.Keys == active.Keys
    ensures r.Activated? ==> forall id :: id in r.active ==> (r.active[id] <==> id == pk)
  {
    if pk !in active then NotFound
    else Activated(map id | id in active :: id == pk)
  }

  /** Activation leaves a single active schedule and activating it again changes nothing. */
  lemma ActivateIdempotent(active: map<int, bool>, pk: int)
    requires pk in active
    ensures Activate(Activate(active, pk).active, pk) == Activate(active, pk)
    ensures var after := Activate(active, pk).active;
      forall x, y :: (x in after && y in after && after[x] && after[y]) ==> x == y
  {
    var once := Activate(active, pk).active;
    assert Activate(once, pk).active == once;
  }

  datatype InstructorStats = InstructorStats(total: nat, withClasses: nat, withoutClasses: int)

  /** The number of instructors whose class count satisfies the test. */
  function CountWhere(counts: seq<nat>, positive: bool): (n: nat)
    ensures n <= |counts|
  {
    if |counts| == 0 then 0
    else CountWhere(counts[..|counts| - 1], positive) + (if (counts[|counts| - 1] > 0) == positive then 1 else 0)
  }

  /** `InstructorViewSet.statistics` over each instructor's class count. */
  function Statistics(classCounts: seq<nat>): InstructorStats {
    var total := |classCounts|;
    var withClasses := CountWhere(classCounts, true);
    InstructorStats(total, withClasses, total - withClasses)
  }

  /** The instructors without classes are exactly those whose class count is zero, so the figure is never negative. */
  lemma {:induction false} StatisticsPartition(classCounts: seq<nat>)
    ensures Statistics(classCounts).withoutClasses == CountWhere(classCounts, false)
    ensures Statistics(classCounts).withoutClasses >= 0
  {
    if |classCounts| > 0 {
      StatisticsPartition(classCounts[..|classCounts| - 1]);
    }
  }
}
