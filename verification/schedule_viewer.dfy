/**
 * The React schedule viewer's client-side decoder (`ScheduleViewer`): it
 * reads an assignment's start as plain minutes since midnight and uses a
 * mask position directly as a FullCalendar weekday (0 = Sunday).
 */
module ScheduleViewer {
  import opened Util
  import opened Text
  import opened TimeSlots
  import Views

  const ConflictBackground: string := "#ef4444"
  const ConflictBorder: string := "#dc2626"
  const NormalBackground: string := "#3b82f6"
  const NormalBorder: string := "#2563eb"

  /** The fields of a `ClassAssignment` the decoder reads; times are whole minutes. */
  datatype ClassAssignment = ClassAssignment(id: int, days: string, startTime: int, length: int, hasConflict: bool)

  datatype ViewerEvent = ViewerEvent(id: string, daysOfWeek: seq<nat>, startTime: string, endTime: string,
                                     background: string, border: string)

  /** JavaScript's `%`: the remainder takes the sign of the dividend. */
  function JsRem(a: int, b: int): (r: int)
    requires b > 0
    ensures a >= 0 ==> r == a % b
    ensures -b < r < b && (r == 0 || (r < 0 <==> a < 0))
  {
    if a >= 0 then a % b else -((-a) % b)
  }

  /** `Math.floor(a / b)`, which is Dafny's division for a positive divisor. */
  function JsFloorDiv(a: int, b: int): int
    requires b > 0
  {
    a / b
  }

  /** `${h.toString().padStart(2, '0')}:${m.toString().padStart(2, '0')}` for integer minutes. */
  function JsClock(minutes: int): string {
    PadTwo(JsFloorDiv(minutes, 60)) + ":" + PadTwo(JsRem(minutes, 60))
  }

  function ViewerEventId(assignmentId: int, index: nat): string {
    IntToString(assignmentId) + "-" + NatToString(index)
  }

  /** One assignment's events: one per '1' of the whole mask, weekday = mask position. */
  function AssignmentEvents(a: ClassAssignment): (r: seq<ViewerEvent>)
    ensures |r| == Occurrences(a.days, '1')
  {
    var act := ActiveIndices(a.days);
    var background := if a.hasConflict then ConflictBackground else NormalBackground;
    var border := if a.hasConflict then ConflictBorder else NormalBorder;
    seq(|act|, k requires 0 <= k < |act| =>
      ViewerEvent(ViewerEventId(a.id, act[k]), [act[k]], JsClock(a.startTime), JsClock(a.startTime + a.length),
                  background, border))
  }

  /** `convertToCalendarEvents`: every assignment's events, conflicting ones included. */
  function ConvertToCalendarEvents(assignments: seq<ClassAssignment>): seq<ViewerEvent> {
    if |assignments| == 0 then [] else AssignmentEvents(assignments[0]) + ConvertToCalendarEvents(assignments[1..])
  }

  function ActiveDaysOf(assignments: seq<ClassAssignment>): nat {
    if |assignments| == 0 then 0 else Occurrences(assignments[0].days, '1') + ActiveDaysOf(assignments[1..])
  }

  /** `assignmentsData.filter(a => a.has_conflict).length`. */
  function ConflictCount(assignments: seq<ClassAssignment>): (n: nat)
    ensures n <= |assignments|
    ensures n == 0 <==> forall i :: 0 <= i < |assignments| ==> !assignments[i].hasConflict
  {
    if |assignments| == 0 then 0
    else
      assert forall i :: 1 <= i < |assignments| ==> assignments[i] == assignments[1..][i - 1];
      (if assignments[0].hasConflict then 1 else 0) + ConflictCount(assignments[1..])
  }

  /** Counting conflicts distributes over splitting the schedule. */
  lemma {:induction false} ConflictCountAppend(xs: seq<ClassAssignment>, ys: seq<ClassAssignment>)
    ensures ConflictCount(xs + ys) == ConflictCount(xs) + ConflictCount(ys)
  {
    if |xs| > 0 {
      assert (xs + ys)[1..] == xs[1..] + ys;
      ConflictCountAppend(xs[1..], ys);
    } else {
      assert xs + ys == ys;
    }
  }

  /**
   * Every '1' yields an event (no cut at seven), conflicting assignments
   * included; the colours are red exactly for a conflict and blue
   * otherwise; ids are distinct and the weekday is the raw mask position.
   */
  lemma AssignmentEventsFacts(a: ClassAssignment)
    ensures var evs := AssignmentEvents(a);
      var act := ActiveIndices(a.days);
      (forall k :: 0 <= k < |evs| ==> evs[k].daysOfWeek == [act[k]] && a.days[act[k]] == '1') &&
      (forall k :: 0 <= k < |evs| ==>
        ((evs[k].background == ConflictBackground && evs[k].border == ConflictBorder) <==> a.hasConflict) &&
        ((evs[k].background == NormalBackground && evs[k].border == NormalBorder) <==> !a.hasConflict)) &&
      (forall k, l :: 0 <= k < l < |evs| ==> evs[k].id != evs[l].id)
  {
    var act := ActiveIndices(a.days);
    var evs := AssignmentEvents(a);
    forall k, l | 0 <= k < l < |evs| ensures evs[k].id != evs[l].id {
      if evs[k].id == evs[l].id {
        ViewerEventIdInjective(a.id, act[k], a.id, act[l]);
      }
    }
  }

  lemma ViewerEventIdInjective(a1: int, i1: nat, a2: int, i2: nat)
    requires ViewerEventId(a1, i1) == ViewerEventId(a2, i2)
    ensures a1 == a2 && i1 == i2
  {
    NatToStringHasNo(i1, '-');
    NatToStringHasNo(i2, '-');
    assert ViewerEventId(a1, i1) == IntToString(a1) + ['-'] + NatToString(i1);
    assert ViewerEventId(a2, i2) == IntToString(a2) + ['-'] + NatToString(i2);
    SplitAtLastSeparator(IntToString(a1), NatToString(i1), IntToString(a2), NatToString(i2), '-');
    IntToStringInjective(a1, a2);
    NatToStringInjective(i1, i2);
  }

  /** The feed has one event per '1' of every mask. */
  lemma {:induction false} ConvertCount(assignments: seq<ClassAssignment>)
    ensures |ConvertToCalendarEvents(assignments)| == ActiveDaysOf(assignments)
  {
    if |assignments| > 0 {
      ConvertCount(assignments[1..]);
    }
  }

  /** For non-negative minutes the viewer's clock agrees with the backend's `HH:MM` rendering. */
  lemma JsClockNonNegative(minutes: int)
    requires minutes >= 0
    ensures JsClock(minutes) == ClockOfMinutes(minutes)
    ensures ParseClock(JsClock(minutes)) == Some(minutes)
  {
    ClockRoundTrip(minutes);
  }

  /** For a negative start the minute field keeps the sign, unlike Python's floor remainder. */
  lemma JsClockNegative()
    ensures JsClock(-5) == "-1:-5"
    ensures ClockOfMinutes(-5) == "-1:55"
  {
    assert JsRem(-5, 60) == -5;
    assert PadTwo(-5) == "-5";
    assert PadTwo(55) == "55" by {
      assert NatToString(55) == NatToString(5) + [DigitChar(5)];
    }
    assert PadTwo(-1) == "-1";
  }

  /**
   * The viewer and the backend calendar decode the same Monday-only mask
   * differently: the viewer puts it on Sunday (0), the backend feed on
   * Monday (1).
   */
  lemma WeekdayConventionsDiffer()
    ensures var evs := AssignmentEvents(ClassAssignment(1, "1000000", 0, 0, false));
      |evs| == 1 && evs[0].daysOfWeek == [0]
    ensures Views.FullCalendarDay(0) == 1
  {
    var a := ClassAssignment(1, "1000000", 0, 0, false);
    MondayOnly();
    assert Occurrences(a.days, '1') == |ActiveIndices(a.days)| == 1;
    AssignmentEventsFacts(a);
  }

  lemma MondayOnly()
    ensures ActiveIndices("1000000") == [0]
  {
    assert "1000000"[..6] == "100000";
    assert "100000"[..5] == "10000";
    assert "10000"[..4] == "1000";
    assert "1000"[..3] == "100";
    assert "100"[..2] == "10";
    assert "10"[..1] == "1";
    assert "1"[..0] == "";
  }

  /** `handlePrevRoom`. */
  function PrevRoom(index: int): int {
    if index > 0 then index - 1 else index
  }

  /** `handleNextRoom`. */
  function NextRoom(index: int, rooms: nat): int {
    if index < rooms - 1 then index + 1 else index
  }

  /** The index the viewer starts with (0) and every index reachable from it stay within [0, max(rooms − 1, 0)]. */
  predicate InRange(index: int, rooms: nat) {
    0 <= index <= Max(rooms - 1, 0)
  }

  lemma NavigationInRange(index: int, rooms: nat)
    requires InRange(index, rooms)
    ensures InRange(PrevRoom(index), rooms) && InRange(NextRoom(index, rooms), rooms)
    ensures rooms > 0 ==> 0 <= PrevRoom(index) < rooms && 0 <= NextRoom(index, rooms) < rooms
    ensures index > 0 ==> NextRoom(PrevRoom(index), rooms) == index
    ensures index < rooms - 1 ==> PrevRoom(NextRoom(index, rooms)) == index
  {
  }

  /** Any sequence of clicks, starting from index 0, keeps the index in range. */
  lemma {:induction false} ClicksStayInRange(clicks: seq<bool>, rooms: nat)
    ensures InRange(Navigate(0, clicks, rooms), rooms)
  {
    NavigateFrom(0, clicks, rooms);
  }

  /** Applies clicks in order: `true` is "next", `false` is "previous". */
  function Navigate(index: int, clicks: seq<bool>, rooms: nat): int
    decreases |clicks|
  {
    if |clicks| == 0 then index
    else Navigate(if clicks[0] then NextRoom(index, rooms) else PrevRoom(index), clicks[1..], rooms)
  }

  lemma {:induction false} NavigateFrom(index: int, clicks: seq<bool>, rooms: nat)
    requires InRange(index, rooms)
    ensures InRange(Navigate(index, clicks, rooms), rooms)
    decreases |clicks|
  {
    if |clicks| > 0 {
      NavigationInRange(index, rooms);
      NavigateFrom(if clicks[0] then NextRoom(index, rooms) else PrevRoom(index), clicks[1..], rooms);
    }
  }
}
