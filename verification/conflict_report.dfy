/**
 * The `verify_instructor_conflicts` command: every pair of an instructor's
 * assignments whose time slots overlap is reported, per instructor.
 */
module ConflictReport {
  import opened Util
  import opened Text
  import opened Grouping
  import opened TimeSlots
  import opened Overlap
  import opened Constraints

  /** A stored assignment of a class to a room and a time slot. */
  datatype Assignment = Assignment(id: int, classId: int, roomId: int, slot: TimeSlot)

  /** One reported clash: the earlier and the later assignment of the pair. */
  datatype Conflict = Conflict(first: Assignment, second: Assignment)

  /** The command's summary: instructors seen, clashes found, and clashes per instructor. */
  datatype Report = Report(instructors: nat, total: nat, byInstructor: seq<(int, seq<Conflict>)>)

  /** `_timeslots_overlap`, on the rows themselves. */
  predicate TimeslotsOverlap(ts1: TimeSlot, ts2: TimeSlot) {
    var end1 := ts1.start + ts1.length;
    var end2 := ts2.start + ts2.length;
    SharesDay(ts1.days, ts2.days) && !(end1 <= ts2.start || end2 <= ts1.start)
  }

  /**
   * The command's overlap test agrees with the validator's on the same
   * (days, start, length); it is symmetric and touching slots do not clash.
   */
  lemma TimeslotsOverlapAgrees(ts1: TimeSlot, ts2: TimeSlot)
    ensures TimeslotsOverlap(ts1, ts2) == Overlaps(EntryOf(ts1), EntryOf(ts2))
    ensures TimeslotsOverlap(ts1, ts2) == TimeslotsOverlap(ts2, ts1)
    ensures ts1.start + ts1.length == ts2.start ==> !TimeslotsOverlap(ts1, ts2)
  {
  }

  /** `_format_time`. */
  function FormatTime(startTime: int): string {
    var minutes := startTime * 5;
    Clock(minutes / 60, minutes % 60)
  }

  lemma FormatTimeAgrees(ts: TimeSlot)
    ensures FormatTime(ts.start) == StartFormatted(ts)
    ensures ts.start >= 0 ==> ParseClock(FormatTime(ts.start)) == Some(ts.start * 5)
  {
    if ts.start >= 0 {
      ClockRoundTrip(ts.start * 5);
    }
  }

  function SlotsOf(s: seq<Assignment>): (r: seq<Slot>)
    ensures |r| == |s| && forall i :: 0 <= i < |s| ==> r[i] == EntryOf(s[i].slot)
  {
    seq(|s|, i requires 0 <= i < |s| => EntryOf(s[i].slot))
  }

  /** The clashes of `x` with the later assignments `t`, in order. */
  function ClashesWith(x: Assignment, t: seq<Assignment>): seq<Conflict> {
    if |t| == 0 then []
    else (if TimeslotsOverlap(x.slot, t[0].slot) then [Conflict(x, t[0])] else []) + ClashesWith(x, t[1..])
  }

  /** The pair loop over one instructor's list. */
  function ClashList(s: seq<Assignment>): seq<Conflict> {
    if |s| == 0 then [] else ClashesWith(s[0], s[1..]) + ClashList(s[1..])
  }

  lemma {:induction false} ClashesWithCount(x: Assignment, t: seq<Assignment>)
    ensures |ClashesWith(x, t)| == CountWith(EntryOf(x.slot), SlotsOf(t))
    ensures forall c :: c in ClashesWith(x, t) ==> c.first == x && c.second in t && TimeslotsOverlap(c.first.slot, c.second.slot)
  {
    if |t| > 0 {
      ClashesWithCount(x, t[1..]);
      assert SlotsOf(t)[1..] == SlotsOf(t[1..]);
    }
  }

  /** Each reported clash really overlaps, and there are exactly as many as overlapping pairs i < j. */
  lemma {:induction false} ClashListCount(s: seq<Assignment>)
    ensures |ClashList(s)| == PairCount(SlotsOf(s))
    ensures forall c :: c in ClashList(s) ==> c.first in s && c.second in s && TimeslotsOverlap(c.first.slot, c.second.slot)
  {
    if |s| > 0 {
      ClashesWithCount(s[0], s[1..]);
      ClashListCount(s[1..]);
      assert SlotsOf(s)[1..] == SlotsOf(s[1..]);
    }
  }

  /** `instructor_schedules[ci.instructor].append(...)` for every assignment and each of its instructors. */
  function ScheduleEntries(assignments: seq<Assignment>, classInstructors: map<int, seq<int>>): seq<(int, Assignment)> {
    if |assignments| == 0 then []
    else Tag(IdsOf(classInstructors, assignments[0].classId), assignments[0]) + ScheduleEntries(assignments[1..], classInstructors)
  }

  /** The clashes of every group, keeping only instructors with at least one. */
  function ByInstructor(gs: seq<Group<int, Assignment>>): seq<(int, seq<Conflict>)> {
    if |gs| == 0 then []
    else
      var cs := ClashList(gs[0].members);
      (if |cs| > 0 then [(gs[0].key, cs)] else []) + ByInstructor(gs[1..])
  }

  function TotalClashes(gs: seq<Group<int, Assignment>>): nat {
    if |gs| == 0 then 0 else |ClashList(gs[0].members)| + TotalClashes(gs[1..])
  }

  /** The command's analysis of one schedule's assignments. */
  function Verify(assignments: seq<Assignment>, classInstructors: map<int, seq<int>>): Report {
    var gs := GroupBy(ScheduleEntries(assignments, classInstructors));
    Report(|gs|, TotalClashes(gs), ByInstructor(gs))
  }

  function PairTotal(gs: seq<Group<int, Assignment>>): nat {
    if |gs| == 0 then 0 else PairCount(SlotsOf(gs[0].members)) + PairTotal(gs[1..])
  }

  function ReportedKeys(r: seq<(int, seq<Conflict>)>): set<int> {
    set i | 0 <= i < |r| :: r[i].0
  }

  /** Summed over instructors, the clashes reported are the overlapping pairs. */
  lemma {:induction false} TotalMatchesPairs(gs: seq<Group<int, Assignment>>)
    ensures TotalClashes(gs) == PairTotal(gs)
  {
    if |gs| > 0 {
      TotalMatchesPairs(gs[1..]);
      ClashListCount(gs[0].members);
    }
  }

  lemma ReportedKeysCons(gs: seq<Group<int, Assignment>>)
    requires |gs| > 0
    ensures ReportedKeys(ByInstructor(gs)) ==
      (if |ClashList(gs[0].members)| > 0 then {gs[0].key} else {}) + ReportedKeys(ByInstructor(gs[1..]))
  {
    var head := if |ClashList(gs[0].members)| > 0 then [(gs[0].key, ClashList(gs[0].members))] else [];
    var rest := ByInstructor(gs[1..]);
    assert ByInstructor(gs) == head + rest;
    ReportedKeysAppend(head, rest);
    if |head| > 0 {
      assert head[0].0 == gs[0].key;
    }
  }

  lemma ReportedKeysAppend(a: seq<(int, seq<Conflict>)>, b: seq<(int, seq<Conflict>)>)
    ensures ReportedKeys(a + b) == ReportedKeys(a) + ReportedKeys(b)
  {
    forall k | k in ReportedKeys(b) ensures k in ReportedKeys(a + b) {
      var j :| 0 <= j < |b| && b[j].0 == k;
      assert (a + b)[|a| + j].0 == k;
    }
    forall k | k in ReportedKeys(a) ensures k in ReportedKeys(a + b) {
      var j :| 0 <= j < |a| && a[j].0 == k;
      assert (a + b)[j].0 == k;
    }
  }

  /** An instructor is reported exactly when their list holds an overlapping pair. */
  lemma {:induction false} ReportedKeysMeaning(gs: seq<Group<int, Assignment>>)
    ensures forall k :: k in ReportedKeys(ByInstructor(gs)) <==>
      exists i :: 0 <= i < |gs| && gs[i].key == k && PairCount(SlotsOf(gs[i].members)) > 0
  {
    if |gs| > 0 {
      ReportedKeysMeaning(gs[1..]);
      ReportedKeysCons(gs);
      ClashListCount(gs[0].members);
      forall k ensures k in ReportedKeys(ByInstructor(gs)) <==>
        exists i :: 0 <= i < |gs| && gs[i].key == k && PairCount(SlotsOf(gs[i].members)) > 0
      {
        if k in ReportedKeys(ByInstructor(gs[1..])) {
          var j :| 0 <= j < |gs[1..]| && gs[1..][j].key == k && PairCount(SlotsOf(gs[1..][j].members)) > 0;
          assert gs[j + 1] == gs[1..][j];
        }
        if exists i :: 0 <= i < |gs| && gs[i].key == k && PairCount(SlotsOf(gs[i].members)) > 0 {
          var i :| 0 <= i < |gs| && gs[i].key == k && PairCount(SlotsOf(gs[i].members)) > 0;
          if i > 0 {
            assert gs[1..][i - 1] == gs[i];
          }
        }
      }
    }
  }

  /** Every reported entry holds at least one clash, and no more than the total. */
  lemma {:induction false} ReportedBounds(gs: seq<Group<int, Assignment>>)
    ensures forall e :: e in ByInstructor(gs) ==> |e.1| > 0 && |e.1| <= TotalClashes(gs)
  {
    if |gs| > 0 {
      ReportedBounds(gs[1..]);
    }
  }

  /**
   * `total_conflicts` counts the overlapping pairs i < j within each
   * instructor's list, summed over instructors, and `conflicts_by_instructor`
   * holds exactly the instructors with at least one such pair.  Every
   * reported clash is a genuinely overlapping pair of that instructor.
   */
  lemma VerifyCorrect(assignments: seq<Assignment>, classInstructors: map<int, seq<int>>)
    ensures var gs := GroupBy(ScheduleEntries(assignments, classInstructors));
      var r := Verify(assignments, classInstructors);
      r.total == PairTotal(gs) &&
      (forall k :: k in ReportedKeys(r.byInstructor) <==> k in Keys(gs) && PairCount(SlotsOf(Lookup(gs, k))) > 0) &&
      (r.total == 0 <==> |r.byInstructor| == 0)
  {
    var gs := GroupBy(ScheduleEntries(assignments, classInstructors));
    GroupByCorrect(ScheduleEntries(assignments, classInstructors));
    TotalMatchesPairs(gs);
    ReportedKeysByLookup(gs);
    TotalZero(gs);
  }

  /** With one group per instructor, the reported instructors are those whose looked-up list has an overlapping pair. */
  lemma ReportedKeysByLookup(gs: seq<Group<int, Assignment>>)
    requires DistinctKeys(gs)
    ensures forall k :: k in ReportedKeys(ByInstructor(gs)) <==> k in Keys(gs) && PairCount(SlotsOf(Lookup(gs, k))) > 0
  {
    ReportedKeysMeaning(gs);
    forall k ensures k in ReportedKeys(ByInstructor(gs)) <==> k in Keys(gs) && PairCount(SlotsOf(Lookup(gs, k))) > 0 {
      KeysIndex(gs, k);
      if k in Keys(gs) {
        var i :| 0 <= i < |gs| && gs[i].key == k;
        LookupMember(gs, i);
      }
    }
  }

  lemma {:induction false} TotalZero(gs: seq<Group<int, Assignment>>)
    ensures TotalClashes(gs) == 0 <==> |ByInstructor(gs)| == 0
  {
    if |gs| > 0 {
      TotalZero(gs[1..]);
    }
  }
}
