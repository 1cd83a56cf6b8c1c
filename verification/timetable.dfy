/**
 * The timetable endpoint (`get_schedule_timetable`): pivots a schedule's
 * assignments into a grid day → time lbl → classes, collects the start
 * times seen, and derives the per-day and concurrency statistics.
 */
module Timetable {
  import opened Util
  import opened Text
  import opened Grouping
  import opened Sorting
  import opened TimeSlots

  const DayNames: seq<string> := ["Lunes", "Martes", "Miércoles", "Jueves", "Viernes", "Sábado", "Domingo"]

  /** Above this many classes in one cell the client is told to split the view. */
  const ManyViewsThreshold := 10

  datatype Assignment = Assignment(id: int, classId: int, slot: Option<TimeSlot>)

  /** The cell entry; the display-only fields (names, room, counts) are not modelled. */
  datatype ClassInfo = ClassInfo(classId: int, time: string, start: string, end: string, durationMin: int)

  type Column = seq<Group<string, ClassInfo>>

  datatype Stats = Stats(totalClasses: nat, classesByDay: seq<nat>, maxConcurrent: nat, needsMultipleViews: bool)

  datatype Response = Response(totalAssignments: nat, grid: seq<Column>, days: seq<string>, timeSlots: seq<string>,
                               stats: Stats)

  /** `days[:7]` when at least seven characters, else right-padded with '0' to seven. */
  function DaysBits(days: string): (r: string)
    ensures |r| == 7
    ensures forall i :: 0 <= i < 7 ==> r[i] == (if i < |days| then days[i] else '0')
  {
    if |days| >= 7 then days[..7] else days + seq(7 - |days|, _ => '0')
  }

  /** `HH:MM-HH:MM`. */
  function TimeLabel(ts: TimeSlot): string {
    StartFormatted(ts) + "-" + EndFormatted(ts)
  }

  function Info(classId: int, ts: TimeSlot): ClassInfo {
    ClassInfo(classId, TimeLabel(ts), StartFormatted(ts), EndFormatted(ts), ts.length * 5)
  }

  /** Whether assignment `a` lands on day column `d`. */
  predicate OnDay(a: Assignment, d: nat)
    requires d < 7
  {
    a.slot.Some? && DaysBits(a.slot.value.days)[d] == '1'
  }

  /** The cell entry of an assignment with a slot: its time label and class info. */
  function Entry(a: Assignment): (string, ClassInfo)
    requires a.slot.Some?
  {
    (TimeLabel(a.slot.value), Info(a.classId, a.slot.value))
  }

  /** The (lbl, info) pairs appended to day `d`, in assignment order. */
  function DayPairs(xs: seq<Assignment>, d: nat): (r: seq<(string, ClassInfo)>)
    requires d < 7
    ensures |r| <= |xs|
  {
    if |xs| == 0 then []
    else
      var a := xs[|xs| - 1];
      DayPairs(xs[..|xs| - 1], d) +
        (if OnDay(a, d) then [Entry(a)] else [])
  }

  /** The grid the endpoint returns: each day column is the lbl dictionary of its pairs. */
  function Grid(xs: seq<Assignment>): (g: seq<Column>)
    ensures |g| == 7
  {
    seq(7, d requires 0 <= d < 7 => GroupBy(DayPairs(xs, d)))
  }

  /** The pivot loop of the endpoint, filling the seven columns one assignment at a time. */
  method Pivot(xs: seq<Assignment>) returns (grid: seq<Column>, hours: set<string>)
    ensures grid == Grid(xs)
    ensures hours == HourSet(xs)
  {
    grid := seq(7, _ => []);
    hours := {};
    var i := 0;
    while i < |xs|
      invariant 0 <= i <= |xs| && |grid| == 7
      invariant forall e :: 0 <= e < 7 ==> grid[e] == GroupBy(DayPairs(xs[..i], e))
      invariant hours == HourSet(xs[..i])
    {
      var a := xs[i];
      var prefix := xs[..i + 1];
      assert prefix[..i] == xs[..i] && prefix[i] == a;
      if a.slot.Some? {
        hours := hours + {StartFormatted(a.slot.value)};
      }
      grid := AddAssignment(grid, a);
      forall e | 0 <= e < 7 ensures grid[e] == GroupBy(DayPairs(prefix, e)) {
        DayPairsStep(prefix, e);
      }
      i := i + 1;
    }
    assert xs[..|xs|] == xs;
  }

  /** One pass of the outer loop: the assignment's entry goes into every column of a day it lands on. */
  method AddAssignment(grid: seq<Column>, a: Assignment) returns (r: seq<Column>)
    requires |grid| == 7
    ensures |r| == 7
    ensures forall e :: 0 <= e < 7 ==> r[e] == if OnDay(a, e) then Append(grid[e], Entry(a).0, Entry(a).1) else grid[e]
  {
    if a.slot.Some? {
      r := AddToDays(grid, DaysBits(a.slot.value.days), Entry(a).0, Entry(a).1);
    } else {
      r := grid;
    }
  }

  /** The inner loop: appends the entry under its label on every active day. */
  method AddToDays(grid: seq<Column>, bits: string, lbl: string, info: ClassInfo) returns (r: seq<Column>)
    requires |grid| == 7 && |bits| == 7
    ensures |r| == 7
    ensures forall e :: 0 <= e < 7 ==> r[e] == if bits[e] == '1' then Append(grid[e], lbl, info) else grid[e]
  {
    r := grid;
    var d := 0;
    while d < 7
      invariant 0 <= d <= 7 && |r| == 7
      invariant forall e :: 0 <= e < d ==> r[e] == if bits[e] == '1' then Append(grid[e], lbl, info) else grid[e]
      invariant forall e :: d <= e < 7 ==> r[e] == grid[e]
    {
      if bits[d] == '1' {
        r := r[d := Append(r[d], lbl, info)];
      }
      d := d + 1;
    }
  }

  /** Adding one assignment to the prefix appends its entry to each day it lands on. */
  lemma DayPairsStep(xs: seq<Assignment>, d: nat)
    requires d < 7 && |xs| > 0
    ensures var a := xs[|xs| - 1];
      GroupBy(DayPairs(xs, d)) ==
        if OnDay(a, d) then Append(GroupBy(DayPairs(xs[..|xs| - 1], d)), Entry(a).0, Entry(a).1)
        else GroupBy(DayPairs(xs[..|xs| - 1], d))
  {
    var a := xs[|xs| - 1];
    var ps := DayPairs(xs[..|xs| - 1], d);
    if OnDay(a, d) {
      var q := Entry(a);
      assert DayPairs(xs, d) == ps + [q];
      GroupBySnoc(ps, q);
    } else {
      assert DayPairs(xs, d) == ps + [] == ps;
    }
  }

  /**
   * Each day column maps each time label once to the classes landing on
   * that day with that label, in assignment order, and holds no empty cell.
   */
  lemma GridMeaning(xs: seq<Assignment>, d: nat)
    requires d < 7
    ensures forall lbl :: Lookup(Grid(xs)[d], lbl) == MembersOf(DayPairs(xs, d), lbl)
    ensures DistinctKeys(Grid(xs)[d])
    ensures forall i :: 0 <= i < |Grid(xs)[d]| ==> |Grid(xs)[d][i].members| > 0
  {
    GroupByCorrect(DayPairs(xs, d));
  }

  /** `all_hours`: the start time of every assignment with a slot, active days or not. */
  function HourSet(xs: seq<Assignment>): set<string> {
    LabelSet(xs, StartFormatted)
  }

  /** The labels `lbl` gives the slots of the slotted assignments. */
  function LabelSet(xs: seq<Assignment>, lbl: TimeSlot -> string): set<string> {
    if |xs| == 0 then {}
    else
      var a := xs[|xs| - 1];
      LabelSet(xs[..|xs| - 1], lbl) + (if a.slot.Some? then {lbl(a.slot.value)} else {})
  }

  /** The start times in assignment order, repeats included. */
  function Starts(xs: seq<Assignment>): (r: seq<string>)
    ensures forall h :: h in r <==> h in HourSet(xs)
  {
    if |xs| == 0 then []
    else
      var a := xs[|xs| - 1];
      Starts(xs[..|xs| - 1]) + (if a.slot.Some? then [StartFormatted(a.slot.value)] else [])
  }

  /** Reference description of `all_hours`: exactly the start times of the slotted assignments. */
  lemma HourSetMembers(xs: seq<Assignment>, h: string)
    ensures h in HourSet(xs) <==> exists i :: 0 <= i < |xs| && xs[i].slot.Some? && StartFormatted(xs[i].slot.value) == h
  {
    LabelSetMembers(xs, StartFormatted, h);
  }

  lemma {:induction false} LabelSetMembers(xs: seq<Assignment>, lbl: TimeSlot -> string, h: string)
    ensures h in LabelSet(xs, lbl) <==> exists i :: 0 <= i < |xs| && xs[i].slot.Some? && lbl(xs[i].slot.value) == h
  {
    if |xs| > 0 {
      var p, a := xs[..|xs| - 1], xs[|xs| - 1];
      LabelSetMembers(p, lbl, h);
      if h in LabelSet(p, lbl) {
        var i :| 0 <= i < |p| && p[i].slot.Some? && lbl(p[i].slot.value) == h;
        assert xs[i] == p[i];
      } else if h in LabelSet(xs, lbl) {
        assert a.slot.Some? && lbl(a.slot.value) == h;
      }
      if exists i :: 0 <= i < |xs| && xs[i].slot.Some? && lbl(xs[i].slot.value) == h {
        var i :| 0 <= i < |xs| && xs[i].slot.Some? && lbl(xs[i].slot.value) == h;
        if i < |p| {
          assert p[i] == xs[i];
        }
      }
    }
  }

  /** First occurrences only. */
  function Dedup(xs: seq<string>): (r: seq<string>)
    ensures forall h :: h in r <==> h in xs
    ensures forall i, j :: 0 <= i < j < |r| ==> r[i] != r[j]
  {
    if |xs| == 0 then []
    else
      var p := Dedup(xs[..|xs| - 1]);
      assert forall h :: h in xs <==> h in xs[..|xs| - 1] || h == xs[|xs| - 1];
      if xs[|xs| - 1] in p then p else p + [xs[|xs| - 1]]
  }

  /** `sorted(list(all_hours))`. */
  function SortedHours(xs: seq<Assignment>): seq<string> {
    Sort(Dedup(Starts(xs)), StrLe)
  }

  predicate StrictlySorted(s: seq<string>) {
    forall i, j :: 0 <= i < j < |s| ==> StrLe(s[i], s[j]) && s[i] != s[j]
  }

  lemma StrLePreorder()
    ensures TotalPreorder(StrLe)
  {
    forall a, b ensures StrLe(a, b) || StrLe(b, a) {
      StrLeTotal(a, b);
    }
    forall a, b, c | StrLe(a, b) && StrLe(b, c) ensures StrLe(a, c) {
      StrLeTransitive(a, b, c);
    }
  }

  /** The `time_slots` list holds each start time seen exactly once, in increasing order. */
  lemma SortedHoursFacts(xs: seq<Assignment>)
    ensures StrictlySorted(SortedHours(xs))
    ensures forall h :: h in SortedHours(xs) <==> h in HourSet(xs)
  {
    var d := Dedup(Starts(xs));
    StrLePreorder();
    SortedDistinct(d);
  }

  /** Sorting a list without repeats gives a strictly increasing list with the same elements. */
  lemma SortedDistinct(d: seq<string>)
    requires TotalPreorder(StrLe)
    requires forall i, j :: 0 <= i < j < |d| ==> d[i] != d[j]
    ensures StrictlySorted(Sort(d, StrLe))
    ensures forall h :: h in Sort(d, StrLe) <==> h in d
  {
    var r := Sort(d, StrLe);
    SortCorrect(d, StrLe);
    SameElements(r, d);
    forall i, j | 0 <= i < j < |r| ensures r[i] != r[j] {
      DistinctMultiplicity(d, r[i]);
      if r[i] == r[j] {
        TwoCopies(r, i, j);
      }
    }
  }

  lemma SameElements(r: seq<string>, d: seq<string>)
    requires multiset(r) == multiset(d)
    ensures forall h :: h in r <==> h in d
  {
    forall h ensures h in r <==> h in d {
      assert h in r <==> h in multiset(r);
      assert h in d <==> h in multiset(d);
    }
  }

  lemma TwoCopies(r: seq<string>, i: nat, j: nat)
    requires i < j < |r| && r[i] == r[j]
    ensures multiset(r)[r[i]] >= 2
  {
    assert r == r[..j] + r[j..];
    assert r[i] in r[..j] && r[j] in r[j..];
  }

  lemma {:induction false} DistinctMultiplicity(s: seq<string>, x: string)
    requires forall i, j :: 0 <= i < j < |s| ==> s[i] != s[j]
    ensures multiset(s)[x] <= 1
  {
    if |s| > 0 {
      var p := s[..|s| - 1];
      assert s == p + [s[|s| - 1]];
      DistinctMultiplicity(p, x);
      if x == s[|s| - 1] {
        assert x !in p;
      }
    }
  }

  /** A strictly sorted list is determined by its elements, so the order `list(all_hours)` happens to have does not matter. */
  lemma {:induction false} StrictlySortedUnique(x: seq<string>, y: seq<string>)
    requires StrictlySorted(x) && StrictlySorted(y)
    requires forall h :: h in x <==> h in y
    ensures x == y
  {
    HeadIn(x);
    HeadIn(y);
    if |x| > 0 && |y| > 0 {
      assert StrLe(x[0], y[0]) by {
        var k :| 0 <= k < |x| && x[k] == y[0];
        if k > 0 {
          assert StrLe(x[0], x[k]);
        } else {
          StrLeTotal(x[0], x[0]);
        }
      }
      assert StrLe(y[0], x[0]) by {
        var k :| 0 <= k < |y| && y[k] == x[0];
        if k > 0 {
          assert StrLe(y[0], y[k]);
        } else {
          StrLeTotal(y[0], y[0]);
        }
      }
      StrLeAntisymmetric(x[0], y[0]);
      forall h ensures h in x[1..] <==> h in y[1..] {
        assert h in x[1..] <==> h in x && h != x[0];
        assert h in y[1..] <==> h in y && h != y[0];
      }
      StrictlySortedUnique(x[1..], y[1..]);
      assert x == [x[0]] + x[1..] && y == [y[0]] + y[1..];
    }
  }

  lemma HeadIn(s: seq<string>)
    ensures |s| > 0 ==> s[0] in s
  {
  }

  /** `sum(len(classes) for classes in timetable[day].values())`. */
  function ClassesOnDay(grid: seq<Column>, d: nat): nat
    requires d < |grid|
  {
    TotalSize(grid[d])
  }

  /** Reference count: the assignments that land on day `d`. */
  function CountOnDay(xs: seq<Assignment>, d: nat): nat
    requires d < 7
  {
    if |xs| == 0 then 0 else CountOnDay(xs[..|xs| - 1], d) + (if OnDay(xs[|xs| - 1], d) then 1 else 0)
  }

  lemma {:induction false} DayPairsCount(xs: seq<Assignment>, d: nat)
    requires d < 7
    ensures |DayPairs(xs, d)| == CountOnDay(xs, d)
  {
    if |xs| > 0 {
      DayPairsCount(xs[..|xs| - 1], d);
    }
  }

  /** Each day's total is the number of assignments with that day active within the first seven. */
  lemma ClassesOnDayCount(xs: seq<Assignment>, d: nat)
    requires d < 7
    ensures ClassesOnDay(Grid(xs), d) == CountOnDay(xs, d)
  {
    GroupByCorrect(DayPairs(xs, d));
    DayPairsCount(xs, d);
  }

  /** The largest group in a column, 0 for an empty column. */
  function ColumnMax(c: Column): (m: nat)
    ensures forall i :: 0 <= i < |c| ==> |c[i].members| <= m
    ensures m == 0 || exists i :: 0 <= i < |c| && |c[i].members| == m
  {
    if |c| == 0 then 0
    else
      var rest := ColumnMax(c[1..]);
      assert forall i :: 1 <= i < |c| ==> c[i] == c[1..][i - 1];
      if |c[0].members| >= rest then |c[0].members| else rest
  }

  /** `max(len(classes) ... , default=0)` over every cell of the grid. */
  function MaxConcurrent(grid: seq<Column>): (m: nat)
    ensures forall d, i :: 0 <= d < |grid| && 0 <= i < |grid[d]| ==> |grid[d][i].members| <= m
    ensures m == 0 || exists d, i :: 0 <= d < |grid| && 0 <= i < |grid[d]| && |grid[d][i].members| == m
  {
    if |grid| == 0 then 0
    else
      var rest := MaxConcurrent(grid[1..]);
      var here := ColumnMax(grid[0]);
      assert forall d :: 1 <= d < |grid| ==> grid[d] == grid[1..][d - 1];
      if here >= rest then here else rest
  }

  function Timetable(xs: seq<Assignment>): Response {
    var grid := Grid(xs);
    var mc := MaxConcurrent(grid);
    Response(|xs|, grid, DayNames, SortedHours(xs),
             Stats(|xs|, seq(7, d requires 0 <= d < 7 => ClassesOnDay(grid, d)), mc, mc > ManyViewsThreshold))
  }

  /**
   * `max_concurrent_classes` is the largest number of classes sharing one
   * exact time lbl on one day, and `needs_multiple_views` says it exceeds ten.
   */
  lemma MaxConcurrentMeaning(xs: seq<Assignment>)
    ensures var m := Timetable(xs).stats.maxConcurrent;
      (forall d, lbl :: 0 <= d < 7 ==> |MembersOf(DayPairs(xs, d), lbl)| <= m) &&
      (m == 0 || exists d, lbl :: 0 <= d < 7 && |MembersOf(DayPairs(xs, d), lbl)| == m)
    ensures Timetable(xs).stats.needsMultipleViews <==> Timetable(xs).stats.maxConcurrent > 10
  {
    var grid := Grid(xs);
    var m := MaxConcurrent(grid);
    forall d, lbl | 0 <= d < 7 ensures |MembersOf(DayPairs(xs, d), lbl)| <= m {
      GroupByCorrect(DayPairs(xs, d));
      LookupBound(grid[d], lbl);
    }
    if m != 0 {
      var d, i :| 0 <= d < 7 && 0 <= i < |grid[d]| && |grid[d][i].members| == m;
      GroupByCorrect(DayPairs(xs, d));
      LookupMember(grid[d], i);
      assert |MembersOf(DayPairs(xs, d), grid[d][i].key)| == m;
    }
  }

  /**
   * The grid is non-empty exactly when some assignment has a slot with an
   * active day among its first seven characters.
   */
  lemma MaxConcurrentPositive(xs: seq<Assignment>)
    ensures Timetable(xs).stats.maxConcurrent > 0 <==> exists i, d :: 0 <= i < |xs| && 0 <= d < 7 && OnDay(xs[i], d)
  {
    var m := Timetable(xs).stats.maxConcurrent;
    if exists i, d :: 0 <= i < |xs| && 0 <= d < 7 && OnDay(xs[i], d) {
      var i, d :| 0 <= i < |xs| && 0 <= d < 7 && OnDay(xs[i], d);
      var a := xs[i];
      var lbl := TimeLabel(a.slot.value);
      DayPairsHas(xs, d, i);
      MembersOfIndex(DayPairs(xs, d), lbl, Info(a.classId, a.slot.value));
      MaxConcurrentMeaning(xs);
    } else if m > 0 {
      MaxConcurrentMeaning(xs);
      var d, lbl :| 0 <= d < 7 && |MembersOf(DayPairs(xs, d), lbl)| == m;
      DayPairsCount(xs, d);
      NoneOnDay(xs, d);
    }
  }

  lemma {:induction false} DayPairsHas(xs: seq<Assignment>, d: nat, i: nat)
    requires d < 7 && i < |xs| && OnDay(xs[i], d)
    ensures Entry(xs[i]) in DayPairs(xs, d)
  {
    var p := xs[..|xs| - 1];
    if i < |xs| - 1 {
      assert p[i] == xs[i];
      DayPairsHas(p, d, i);
    }
  }

  lemma {:induction false} NoneOnDay(xs: seq<Assignment>, d: nat)
    requires d < 7
    requires forall i :: 0 <= i < |xs| ==> !OnDay(xs[i], d)
    ensures CountOnDay(xs, d) == 0
  {
    if |xs| > 0 {
      var p := xs[..|xs| - 1];
      assert forall i :: 0 <= i < |p| ==> p[i] == xs[i];
      NoneOnDay(p, d);
    }
  }

  /** Σ_{d < k} s[d]. */
  function SumFirst(s: seq<nat>, k: nat): nat
    requires k <= |s|
  {
    if k == 0 then 0 else SumFirst(s, k - 1) + s[k - 1]
  }

  /** The number of the first `k` week columns assignment `a` lands on. */
  function DaysOn(a: Assignment, k: nat): nat
    requires k <= 7
  {
    if k == 0 then 0 else DaysOn(a, k - 1) + (if OnDay(a, k - 1) then 1 else 0)
  }

  /** Σ_{d < k} of the reference per-day counts. */
  function DaysTotal(xs: seq<Assignment>, k: nat): nat
    requires k <= 7
  {
    if k == 0 then 0 else DaysTotal(xs, k - 1) + CountOnDay(xs, k - 1)
  }

  /** The grid cells an assignment fills: its '1's among the first seven characters of its mask. */
  function Placements(xs: seq<Assignment>): nat {
    if |xs| == 0 then 0
    else
      var a := xs[|xs| - 1];
      Placements(xs[..|xs| - 1]) + (if a.slot.Some? then Occurrences(DaysBits(a.slot.value.days), '1') else 0)
  }

  lemma {:induction false} DaysTotalStep(xs: seq<Assignment>, k: nat)
    requires |xs| > 0 && k <= 7
    ensures DaysTotal(xs, k) == DaysTotal(xs[..|xs| - 1], k) + DaysOn(xs[|xs| - 1], k)
  {
    if k > 0 {
      DaysTotalStep(xs, k - 1);
    }
  }

  lemma {:induction false} DaysOnOccurrences(a: Assignment, k: nat)
    requires a.slot.Some? && k <= 7
    ensures DaysOn(a, k) == Occurrences(DaysBits(a.slot.value.days)[..k], '1')
  {
    var b := DaysBits(a.slot.value.days);
    if k > 0 {
      DaysOnOccurrences(a, k - 1);
      assert b[..k][..k - 1] == b[..k - 1];
    }
  }

  lemma {:induction false} DaysOnNone(a: Assignment, k: nat)
    requires a.slot.None? && k <= 7
    ensures DaysOn(a, k) == 0
  {
    if k > 0 {
      DaysOnNone(a, k - 1);
    }
  }

  lemma {:induction false} DaysTotalPlacements(xs: seq<Assignment>)
    ensures DaysTotal(xs, 7) == Placements(xs)
  {
    if |xs| == 0 {
      ZeroTotal(xs, 7);
    } else {
      var a := xs[|xs| - 1];
      DaysTotalPlacements(xs[..|xs| - 1]);
      DaysTotalStep(xs, 7);
      if a.slot.Some? {
        DaysOnOccurrences(a, 7);
        assert DaysBits(a.slot.value.days)[..7] == DaysBits(a.slot.value.days);
      } else {
        DaysOnNone(a, 7);
      }
    }
  }

  lemma {:induction false} ZeroTotal(xs: seq<Assignment>, k: nat)
    requires |xs| == 0 && k <= 7
    ensures DaysTotal(xs, k) == 0
  {
    if k > 0 {
      ZeroTotal(xs, k - 1);
    }
  }

  lemma {:induction false} ClassesByDayPrefix(xs: seq<Assignment>, k: nat)
    requires k <= 7
    ensures SumFirst(Timetable(xs).stats.classesByDay, k) == DaysTotal(xs, k)
  {
    if k > 0 {
      ClassesByDayPrefix(xs, k - 1);
      ClassesOnDayCount(xs, k - 1);
    }
  }

  /**
   * `classes_by_day` counts, for each day, the assignments active on it, and
   * its seven entries add up to the number of grid cells filled: every '1'
   * among the first seven mask characters of every slotted assignment.
   */
  lemma ClassesByDayMeaning(xs: seq<Assignment>)
    ensures forall d :: 0 <= d < 7 ==> Timetable(xs).stats.classesByDay[d] == CountOnDay(xs, d)
    ensures SumFirst(Timetable(xs).stats.classesByDay, 7) == Placements(xs)
  {
    forall d | 0 <= d < 7 ensures Timetable(xs).stats.classesByDay[d] == CountOnDay(xs, d) {
      ClassesOnDayCount(xs, d);
    }
    ClassesByDayPrefix(xs, 7);
    DaysTotalPlacements(xs);
  }
}
