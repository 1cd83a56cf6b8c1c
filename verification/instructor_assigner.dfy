/**
 * The post-generation instructor assigner: a per-instructor busy table,
 * the availability test against it, the best-candidate choice by
 * preference minus half the current load, and the pass over a schedule's
 * assignments with its statistics.
 */
module InstructorAssigner {
  import opened Util
  import opened Sorting
  import opened TimeSlots
  import opened Overlap

  /** A busy-table key: (day index, start, end), in 5-minute units. */
  type BusyKey = (int, int, int)

  /** `instructor_availability`; every stored flag is `True`, so each table is the set of its keys. */
  type BusyTable = map<int, set<BusyKey>>

  /** `instructor_preferences`: instructor → timeslot → preference. */
  type PrefTable = map<int, map<int, real> >

  datatype Assignment = Assignment(classId: int, slot: TimeSlot)

  /**
   * The assigner's tables: busy keys, instructor → timeslot → preference,
   * class → chosen instructor, and the `ClassInstructor` links created.
   */
  datatype State = State(busy: BusyTable, prefs: PrefTable, chosen: map<int, int>, links: set<(int, int)>)

  datatype Candidate = Candidate(instructor: int, score: real, preference: real, load: nat)

  datatype AssignStats = AssignStats(assignedCount: nat, unassignedCount: nat, conflictsAvoided: nat, total: nat)

  function End(ts: TimeSlot): int {
    ts.start + ts.length
  }

  function SlotOf(ts: TimeSlot): Slot {
    Slot(ts.days, ts.start, End(ts))
  }

  /** `availability.get(instructor_id, {})`. */
  function BusyOf(busy: BusyTable, i: int): set<BusyKey> {
    if i in busy then busy[i] else {}
  }

  /** The keys a slot occupies: one per '1' of its whole mask. */
  function BusyKeys(ts: TimeSlot): set<BusyKey> {
    set d | 0 <= d < |ts.days| && ts.days[d] == '1' :: (d, ts.start, End(ts))
  }

  // ------------------------------------------------------- availability

  /** `_is_instructor_available` as written: busy only on an exact (day, start, end) match. */
  predicate AvailableAsWritten(busy: BusyTable, i: int, ts: TimeSlot) {
    forall d :: 0 <= d < |ts.days| && ts.days[d] == '1' ==> (d, ts.start, End(ts)) !in BusyOf(busy, i)
  }

  /** The loop of `_is_instructor_available`, returning at the first busy active day. */
  method IsInstructorAvailableAsWritten(busy: BusyTable, i: int, ts: TimeSlot) returns (r: bool)
    ensures r == AvailableAsWritten(busy, i, ts)
  {
    var table := BusyOf(busy, i);
    var d := 0;
    while d < |ts.days|
      invariant 0 <= d <= |ts.days|
      invariant forall e :: 0 <= e < d && ts.days[e] == '1' ==> (e, ts.start, End(ts)) !in table
    {
      if ts.days[d] == '1' && (d, ts.start, End(ts)) in table {
        return false;
      }
      d := d + 1;
    }
    return true;
  }

  /** A busy key clashes with a slot when its day is active in the slot and the intervals intersect. */
  predicate Clashes(k: BusyKey, ts: TimeSlot) {
    0 <= k.0 < |ts.days| && ts.days[k.0] == '1' && k.1 < End(ts) && ts.start < k.2
  }

  /** The availability the docstring describes: no busy entry on an active day overlaps the slot. */
  predicate Available(busy: BusyTable, i: int, ts: TimeSlot) {
    forall k :: k in BusyOf(busy, i) ==> !Clashes(k, ts)
  }

  /**
   * The availability test a pass uses: `ExactKey` is the code as written,
   * `AnyOverlap` the test its docstring describes.
   */
  datatype BusyTest = ExactKey | AnyOverlap

  /** The instructor is free for the slot under test `t`. */
  predicate Free(t: BusyTest, busy: BusyTable, i: int, ts: TimeSlot) {
    match t
    case ExactKey => AvailableAsWritten(busy, i, ts)
    case AnyOverlap => Available(busy, i, ts)
  }

  /** `_mark_instructor_busy`. */
  function MarkBusy(busy: BusyTable, i: int, ts: TimeSlot): BusyTable {
    busy[i := BusyOf(busy, i) + BusyKeys(ts)]
  }

  /**
   * Marking adds exactly the slot's keys to that instructor's table and
   * leaves every other table alone; afterwards the exact-key test reports
   * the instructor busy for that slot exactly when the slot has an active day.
   */
  lemma MarkBusyEffect(busy: BusyTable, i: int, ts: TimeSlot)
    ensures BusyOf(MarkBusy(busy, i, ts), i) == BusyOf(busy, i) + BusyKeys(ts)
    ensures forall j :: j != i ==> BusyOf(MarkBusy(busy, i, ts), j) == BusyOf(busy, j)
    ensures !AvailableAsWritten(MarkBusy(busy, i, ts), i, ts) <==> exists d :: 0 <= d < |ts.days| && ts.days[d] == '1'
  {
    if exists d :: 0 <= d < |ts.days| && ts.days[d] == '1' {
      var d :| 0 <= d < |ts.days| && ts.days[d] == '1';
      assert (d, ts.start, End(ts)) in BusyKeys(ts);
    }
  }

  /** An exact-key table lets an instructor take a Monday 08:30 class while busy on Monday 08:00–09:00. */
  lemma ExactKeyMissesOverlap()
    ensures var a := TimeSlot(1, "1000000", 96, 12, 0.0);
      var b := TimeSlot(2, "1000000", 102, 12, 0.0);
      Overlaps(SlotOf(a), SlotOf(b)) &&
      AvailableAsWritten(MarkBusy(map[], 7, a), 7, b) &&
      !Available(MarkBusy(map[], 7, a), 7, b)
  {
    var a := TimeSlot(1, "1000000", 96, 12, 0.0);
    var b := TimeSlot(2, "1000000", 102, 12, 0.0);
    assert a.days[0] == '1' && b.days[0] == '1';
    assert SharesDay(a.days, b.days);
    assert BusyKeys(a) == {(0, 96, 108)} by {
      forall k | k in BusyKeys(a) ensures k == (0, 96, 108) {
        var d :| 0 <= d < |a.days| && a.days[d] == '1' && k == (d, a.start, End(a));
        assert d == 0;
      }
      assert (0, 96, 108) in BusyKeys(a);
    }
    assert (0, 96, 108) in BusyOf(MarkBusy(map[], 7, a), 7);
  }

  /** A table holding all of slot `a`'s keys leaves the instructor unavailable for every slot overlapping `a`. */
  lemma BusyBlocksOverlap(busy: BusyTable, i: int, a: TimeSlot, b: TimeSlot)
    requires BusyKeys(a) <= BusyOf(busy, i)
    ensures Available(busy, i, b) ==> !Overlaps(SlotOf(a), SlotOf(b))
  {
    if Overlaps(SlotOf(a), SlotOf(b)) {
      var d :| 0 <= d < |a.days| && d < |b.days| && a.days[d] == '1' && b.days[d] == '1';
      var k := (d, a.start, End(a));
      assert k in BusyKeys(a);
      assert Clashes(k, b);
    }
  }

  /** Once marked for `a`, the instructor is unavailable for every slot overlapping `a`, `a` itself included when it is non-empty. */
  lemma MarkBusyBlocksOverlap(busy: BusyTable, i: int, a: TimeSlot, b: TimeSlot)
    ensures Overlaps(SlotOf(a), SlotOf(b)) ==> !Available(MarkBusy(busy, i, a), i, b)
  {
    MarkBusyEffect(busy, i, a);
    BusyBlocksOverlap(MarkBusy(busy, i, a), i, a, b);
  }

  // ---------------------------------------------------------- choice

  /** `instructor_preferences.get(i, {}).get(timeslot_id, 0.0)`. */
  function PrefOf(prefs: PrefTable, i: int, timeslotId: int): real {
    if i in prefs && timeslotId in prefs[i] then prefs[i][timeslotId] else 0.0
  }

  /** `current_load`: the classes already given to `i`. */
  function Load(chosen: map<int, int>, i: int): nat {
    |set c | c in chosen && chosen[c] == i|
  }

  function Score(st: State, i: int, ts: TimeSlot): real {
    PrefOf(st.prefs, i, ts.id) - Load(st.chosen, i) as real * 0.5
  }

  function CandidateOf(st: State, i: int, ts: TimeSlot): Candidate {
    Candidate(i, Score(st, i, ts), PrefOf(st.prefs, i, ts.id), Load(st.chosen, i))
  }

  /** The candidate list, in instructor order, of those available for the slot. */
  function Candidates(t: BusyTest, st: State, ins: seq<int>, ts: TimeSlot): (r: seq<Candidate>)
    ensures |r| <= |ins|
  {
    if |ins| == 0 then []
    else (if Free(t, st.busy, ins[0], ts) then [CandidateOf(st, ins[0], ts)] else []) + Candidates(t, st, ins[1..], ts)
  }

  function CandidateScore(c: Candidate): real {
    c.score
  }

  /** `_find_best_instructor`: the head of the candidates sorted by descending score. */
  function FindBest(t: BusyTest, st: State, ins: seq<int>, ts: TimeSlot): Option<int> {
    var cs := Candidates(t, st, ins, ts);
    if |cs| == 0 then None else Some(Sort(cs, ByRealKeyDesc(CandidateScore))[0].instructor)
  }

  lemma {:induction false} CandidatesEmpty(t: BusyTest, st: State, ins: seq<int>, ts: TimeSlot)
    ensures Candidates(t, st, ins, ts) == [] <==> forall q :: 0 <= q < |ins| ==> !Free(t, st.busy, ins[q], ts)
  {
    if |ins| > 0 {
      CandidatesEmpty(t, st, ins[1..], ts);
      assert forall q :: 1 <= q < |ins| ==> ins[q] == ins[1..][q - 1];
    }
  }

  /** Candidate `c` sits among the first `k` entries of `cs`. */
  predicate ListedBefore(cs: seq<Candidate>, k: nat, c: Candidate) {
    exists m :: 0 <= m < k && m < |cs| && cs[m] == c
  }

  /** Each candidate comes from an available instructor, and the available instructors before it come earlier in the list. */
  lemma {:induction false} CandidateOrigin(t: BusyTest, st: State, ins: seq<int>, ts: TimeSlot, k: nat) returns (p: nat)
    requires k < |Candidates(t, st, ins, ts)|
    ensures p < |ins| && Candidates(t, st, ins, ts)[k] == CandidateOf(st, ins[p], ts) && Free(t, st.busy, ins[p], ts)
    ensures forall q :: 0 <= q < p && Free(t, st.busy, ins[q], ts) ==>
              ListedBefore(Candidates(t, st, ins, ts), k, CandidateOf(st, ins[q], ts))
  {
    var cs := Candidates(t, st, ins, ts);
    var rest := Candidates(t, st, ins[1..], ts);
    var off := if Free(t, st.busy, ins[0], ts) then 1 else 0;
    var head := if off == 1 then [CandidateOf(st, ins[0], ts)] else [];
    assert cs == head + rest;
    if off == 1 && k == 0 {
      p := 0;
      assert cs[0] == CandidateOf(st, ins[0], ts);
    } else {
      var p' := CandidateOrigin(t, st, ins[1..], ts, k - off);
      p := p' + 1;
      assert cs[k] == rest[k - off];
      assert ins[p] == ins[1..][p'];
      forall q | 0 <= q < p && Free(t, st.busy, ins[q], ts)
        ensures ListedBefore(cs, k, CandidateOf(st, ins[q], ts))
      {
        if q == 0 {
          assert cs[0] == CandidateOf(st, ins[0], ts);
        } else {
          assert ins[q] == ins[1..][q - 1];
          ListedShift(head, rest, k - off, CandidateOf(st, ins[q], ts));
        }
      }
    }
  }

  lemma ListedShift(head: seq<Candidate>, rest: seq<Candidate>, k: nat, c: Candidate)
    requires ListedBefore(rest, k, c)
    ensures ListedBefore(head + rest, k + |head|, c)
  {
    var m :| 0 <= m < k && m < |rest| && rest[m] == c;
    assert (head + rest)[m + |head|] == rest[m];
  }

  lemma {:induction false} AvailableIsCandidate(t: BusyTest, st: State, ins: seq<int>, ts: TimeSlot, q: nat)
    requires q < |ins| && Free(t, st.busy, ins[q], ts)
    ensures CandidateOf(st, ins[q], ts) in Candidates(t, st, ins, ts)
  {
    if q > 0 {
      AvailableIsCandidate(t, st, ins[1..], ts, q - 1);
      assert ins[1..][q - 1] == ins[q];
    }
  }

  /** `p` holds an available instructor scoring highest, and every available instructor before it scores strictly lower. */
  predicate FirstBest(t: BusyTest, st: State, ins: seq<int>, ts: TimeSlot, p: nat)
    requires p < |ins|
  {
    Free(t, st.busy, ins[p], ts) &&
    (forall j :: 0 <= j < |ins| && Free(t, st.busy, ins[j], ts) ==> Score(st, ins[j], ts) <= Score(st, ins[p], ts)) &&
    (forall q :: 0 <= q < p && Free(t, st.busy, ins[q], ts) ==> Score(st, ins[q], ts) < Score(st, ins[p], ts))
  }

  lemma FindBestPick(t: BusyTest, st: State, ins: seq<int>, ts: TimeSlot) returns (p: nat)
    requires FindBest(t, st, ins, ts).Some?
    ensures p < |ins| && ins[p] == FindBest(t, st, ins, ts).value && FirstBest(t, st, ins, ts, p)
  {
    var cs := Candidates(t, st, ins, ts);
    var le := ByRealKeyDesc(CandidateScore);
    ByRealKeyDescPreorder(CandidateScore);
    SortHead(cs, le);
    var k :| 0 <= k < |cs| && Sort(cs, le)[0] == cs[k] &&
      (forall j :: 0 <= j < |cs| ==> le(cs[k], cs[j])) &&
      (forall q :: 0 <= q < k ==> !le(cs[q], cs[k]));
    p := CandidateOrigin(t, st, ins, ts, k);
    forall j | 0 <= j < |ins| && Free(t, st.busy, ins[j], ts) ensures Score(st, ins[j], ts) <= Score(st, ins[p], ts) {
      AvailableIsCandidate(t, st, ins, ts, j);
      var m :| 0 <= m < |cs| && cs[m] == CandidateOf(st, ins[j], ts);
      assert le(cs[k], cs[m]);
      assert le(cs[k], cs[m]) == (CandidateScore(cs[k]) >= CandidateScore(cs[m]));
    }
    forall q | 0 <= q < p && Free(t, st.busy, ins[q], ts) ensures Score(st, ins[q], ts) < Score(st, ins[p], ts) {
      assert ListedBefore(cs, k, CandidateOf(st, ins[q], ts));
      var m :| 0 <= m < k && m < |cs| && cs[m] == CandidateOf(st, ins[q], ts);
      assert !le(cs[m], cs[k]);
      assert le(cs[m], cs[k]) == (CandidateScore(cs[m]) >= CandidateScore(cs[k]));
    }
  }

  /**
   * No candidate means no instructor: `None` exactly when nobody is
   * available. Otherwise the choice is available, has the highest
   * preference − 0.5·load among the available instructors, and every
   * available instructor listed before it scores strictly lower (ties go to
   * the earliest).
   */
  lemma FindBestChoice(t: BusyTest, st: State, ins: seq<int>, ts: TimeSlot)
    ensures FindBest(t, st, ins, ts).None? <==> forall q :: 0 <= q < |ins| ==> !Free(t, st.busy, ins[q], ts)
    ensures FindBest(t, st, ins, ts).Some? ==>
              exists p :: 0 <= p < |ins| && ins[p] == FindBest(t, st, ins, ts).value && FirstBest(t, st, ins, ts, p)
  {
    CandidatesEmpty(t, st, ins, ts);
    if FindBest(t, st, ins, ts).Some? {
      var p := FindBestPick(t, st, ins, ts);
    }
  }

  // ------------------------------------------------------------- the pass

  /** `_count_available_instructors`. */
  function CountAvailable(t: BusyTest, st: State, ins: seq<int>, ts: TimeSlot): (n: nat)
    ensures n <= |ins|
  {
    if |ins| == 0 then 0 else (if Free(t, st.busy, ins[0], ts) then 1 else 0) + CountAvailable(t, st, ins[1..], ts)
  }

  /** The sort key of `assign_instructors`, evaluated against the tables at the start of the pass. */
  function AvailabilityKey(t: BusyTest, st: State, ins: seq<int>): Assignment -> int {
    (a: Assignment) => CountAvailable(t, st, ins, a.slot)
  }

  /** `load_instructor_data`: an empty busy table for every instructor. */
  function InitialState(ins: seq<int>, prefs: PrefTable): State {
    State(map i | i in ins :: {}, prefs, map[], {})
  }

  /** One iteration: choose, then link the class and mark the instructor busy, or leave it without one. */
  function Step(t: BusyTest, st: State, ins: seq<int>, a: Assignment): (State, Option<int>) {
    var best := FindBest(t, st, ins, a.slot);
    if best.Some? then
      (State(MarkBusy(st.busy, best.value, a.slot), st.prefs, st.chosen[a.classId := best.value],
             st.links + {(a.classId, best.value)}), best)
    else (st, None)
  }

  /** The loop over the (sorted) assignments: the final tables and each assignment's outcome. */
  function Run(t: BusyTest, st: State, ins: seq<int>, xs: seq<Assignment>): (r: (State, seq<Option<int>>))
    ensures |r.1| == |xs|
  {
    if |xs| == 0 then (st, [])
    else
      var prev := Run(t, st, ins, xs[..|xs| - 1]);
      var next := Step(t, prev.0, ins, xs[|xs| - 1]);
      (next.0, prev.1 + [next.1])
  }

  function CountSome(ds: seq<Option<int>>): nat {
    if |ds| == 0 then 0 else CountSome(ds[..|ds| - 1]) + (if ds[|ds| - 1].Some? then 1 else 0)
  }

  function CountNone(ds: seq<Option<int>>): nat {
    if |ds| == 0 then 0 else CountNone(ds[..|ds| - 1]) + (if ds[|ds| - 1].None? then 1 else 0)
  }

  /** `assign_instructors`: the final tables, each assignment's outcome in processing order, and the statistics. */
  function AssignInstructors(t: BusyTest, ins: seq<int>, prefs: PrefTable, assignments: seq<Assignment>)
    : (State, seq<Option<int>>, AssignStats)
  {
    var st0 := InitialState(ins, prefs);
    var order := Sort(assignments, ByKey(AvailabilityKey(t, st0, ins)));
    var r := Run(t, st0, ins, order);
    (r.0, r.1, AssignStats(CountSome(r.1), CountNone(r.1), 0, |assignments|))
  }

  lemma {:induction false} CountAvailableAll(t: BusyTest, st: State, ins: seq<int>, ts: TimeSlot)
    requires forall i :: BusyOf(st.busy, i) == {}
    ensures CountAvailable(t, st, ins, ts) == |ins|
  {
    if |ins| > 0 {
      CountAvailableAll(t, st, ins[1..], ts);
    }
  }

  /**
   * The "fewest options first" ordering has no effect: it is computed while
   * every table is empty, so every assignment has the same key and the
   * stable sort returns the schedule's own order.
   */
  lemma OrderIsScheduleOrder(t: BusyTest, ins: seq<int>, prefs: PrefTable, assignments: seq<Assignment>)
    ensures Sort(assignments, ByKey(AvailabilityKey(t, InitialState(ins, prefs), ins))) == assignments
  {
    var st0 := InitialState(ins, prefs);
    forall a: Assignment ensures AvailabilityKey(t, st0, ins)(a) == |ins| {
      CountAvailableAll(t, st0, ins, a.slot);
    }
    SortSortedIdentity(assignments, ByKey(AvailabilityKey(t, st0, ins)));
  }

  lemma {:induction false} CountSplit(ds: seq<Option<int>>)
    ensures CountSome(ds) + CountNone(ds) == |ds|
  {
    if |ds| > 0 {
      CountSplit(ds[..|ds| - 1]);
    }
  }

  /** Every assignment is counted once, as assigned or unassigned, and no conflict is ever counted as avoided. */
  lemma StatsTotal(t: BusyTest, ins: seq<int>, prefs: PrefTable, assignments: seq<Assignment>)
    ensures var s := AssignInstructors(t, ins, prefs, assignments).2;
      s.assignedCount + s.unassignedCount == s.total == |assignments| && s.conflictsAvoided == 0
  {
    var st0 := InitialState(ins, prefs);
    OrderIsScheduleOrder(t, ins, prefs, assignments);
    CountSplit(Run(t, st0, ins, assignments).1);
  }

  /** After the pass, each instructor's table covers every slot it was given. */
  predicate Covered(st: State, xs: seq<Assignment>, ds: seq<Option<int>>)
    requires |ds| == |xs|
  {
    forall p :: 0 <= p < |xs| && ds[p].Some? ==> BusyKeys(xs[p].slot) <= BusyOf(st.busy, ds[p].value)
  }

  /** Two assignments given to the same instructor never overlap. */
  predicate NoDoubleBooking(xs: seq<Assignment>, ds: seq<Option<int>>)
    requires |ds| == |xs|
  {
    forall p, q :: 0 <= p < q < |xs| && ds[p].Some? && ds[p] == ds[q] ==> !Overlaps(SlotOf(xs[p].slot), SlotOf(xs[q].slot))
  }

  /** Splitting off the last assignment of a pass. */
  lemma RunLast(t: BusyTest, st: State, ins: seq<int>, xs: seq<Assignment>)
    requires |xs| > 0
    ensures var prev := Run(t, st, ins, xs[..|xs| - 1]);
      var best := FindBest(t, prev.0, ins, xs[|xs| - 1].slot);
      Run(t, st, ins, xs).1 == prev.1 + [best] &&
      Run(t, st, ins, xs).0.chosen == (if best.Some? then prev.0.chosen[xs[|xs| - 1].classId := best.value] else prev.0.chosen) &&
      Run(t, st, ins, xs).0.busy == (if best.Some? then MarkBusy(prev.0.busy, best.value, xs[|xs| - 1].slot) else prev.0.busy) &&
      Run(t, st, ins, xs).0.links == (if best.Some? then prev.0.links + {(xs[|xs| - 1].classId, best.value)} else prev.0.links)
  {
  }

  /** Marking the last assignment's instructor, if any, keeps every earlier slot covered. */
  lemma CoveredStep(b0: BusyTable, b1: BusyTable, px: seq<Assignment>, a: Assignment, ds: seq<Option<int>>, b: Option<int>)
    requires |ds| == |px|
    requires forall p :: 0 <= p < |px| && ds[p].Some? ==> BusyKeys(px[p].slot) <= BusyOf(b0, ds[p].value)
    requires b1 == if b.Some? then MarkBusy(b0, b.value, a.slot) else b0
    ensures forall p :: 0 <= p < |px| + 1 && (ds + [b])[p].Some? ==> BusyKeys((px + [a])[p].slot) <= BusyOf(b1, (ds + [b])[p].value)
  {
    if b.Some? {
      MarkBusyEffect(b0, b.value, a.slot);
    }
    forall p | 0 <= p < |px| + 1 && (ds + [b])[p].Some? ensures BusyKeys((px + [a])[p].slot) <= BusyOf(b1, (ds + [b])[p].value) {
      if p < |px| {
        assert (px + [a])[p] == px[p] && (ds + [b])[p] == ds[p];
      }
    }
  }

  /** Each instructor's table covers every slot it was given. */
  lemma {:induction false} RunCovered(t: BusyTest, st: State, ins: seq<int>, xs: seq<Assignment>)
    ensures Covered(Run(t, st, ins, xs).0, xs, Run(t, st, ins, xs).1)
  {
    if |xs| > 0 {
      var px := xs[..|xs| - 1];
      var a := xs[|xs| - 1];
      var prev := Run(t, st, ins, px);
      RunCovered(t, st, ins, px);
      RunLast(t, st, ins, xs);
      assert xs == px + [a];
      CoveredStep(prev.0.busy, Run(t, st, ins, xs).0.busy, px, a, prev.1, FindBest(t, prev.0, ins, a.slot));
    }
  }

  /** Every assignment given an instructor has a `ClassInstructor` link to it. */
  predicate Linked(st: State, xs: seq<Assignment>, ds: seq<Option<int>>)
    requires |ds| == |xs|
  {
    forall p :: 0 <= p < |xs| && ds[p].Some? ==> (xs[p].classId, ds[p].value) in st.links
  }

  /** Adding the last assignment's link, if any, keeps every earlier link. */
  lemma LinkedStep(l0: set<(int, int)>, l1: set<(int, int)>, px: seq<Assignment>, a: Assignment, ds: seq<Option<int>>, b: Option<int>)
    requires |ds| == |px|
    requires forall p :: 0 <= p < |px| && ds[p].Some? ==> (px[p].classId, ds[p].value) in l0
    requires l1 == if b.Some? then l0 + {(a.classId, b.value)} else l0
    ensures forall p :: 0 <= p < |px| + 1 && (ds + [b])[p].Some? ==> ((px + [a])[p].classId, (ds + [b])[p].value) in l1
  {
    forall p | 0 <= p < |px| + 1 && (ds + [b])[p].Some? ensures ((px + [a])[p].classId, (ds + [b])[p].value) in l1 {
      if p < |px| {
        assert (px + [a])[p] == px[p] && (ds + [b])[p] == ds[p];
      }
    }
  }

  /** Every choice is recorded as a `ClassInstructor` link. */
  lemma {:induction false} RunLinks(t: BusyTest, st: State, ins: seq<int>, xs: seq<Assignment>)
    ensures Linked(Run(t, st, ins, xs).0, xs, Run(t, st, ins, xs).1)
  {
    if |xs| > 0 {
      var px := xs[..|xs| - 1];
      var a := xs[|xs| - 1];
      var prev := Run(t, st, ins, px);
      RunLinks(t, st, ins, px);
      RunLast(t, st, ins, xs);
      assert xs == px + [a];
      LinkedStep(prev.0.links, Run(t, st, ins, xs).0.links, px, a, prev.1, FindBest(t, prev.0, ins, a.slot));
    }
  }

  /** Under the overlap test, two assignments given to the same instructor never overlap. */
  lemma {:induction false} RunNoDoubleBooking(st: State, ins: seq<int>, xs: seq<Assignment>)
    ensures NoDoubleBooking(xs, Run(AnyOverlap, st, ins, xs).1)
  {
    if |xs| > 0 {
      var px := xs[..|xs| - 1];
      var a := xs[|xs| - 1];
      var prev := Run(AnyOverlap, st, ins, px);
      RunNoDoubleBooking(st, ins, px);
      RunCovered(AnyOverlap, st, ins, px);
      RunLast(AnyOverlap, st, ins, xs);
      var best := FindBest(AnyOverlap, prev.0, ins, a.slot);
      FindBestChoice(AnyOverlap, prev.0, ins, a.slot);
      assert xs == px + [a];
      NoDoubleBookingStep(prev.0, px, a, prev.1, best);
    }
  }

  /** An instructor free for `a` keeps a pass without double bookings free of them once given `a`. */
  lemma NoDoubleBookingStep(s: State, px: seq<Assignment>, a: Assignment, ds: seq<Option<int>>, b: Option<int>)
    requires |ds| == |px| && NoDoubleBooking(px, ds) && Covered(s, px, ds)
    requires b.Some? ==> Available(s.busy, b.value, a.slot)
    ensures NoDoubleBooking(px + [a], ds + [b])
  {
    var xs, es := px + [a], ds + [b];
    forall p, q | 0 <= p < q < |xs| && es[p].Some? && es[p] == es[q]
      ensures !Overlaps(SlotOf(xs[p].slot), SlotOf(xs[q].slot))
    {
      assert xs[p] == px[p] && es[p] == ds[p];
      if q == |px| {
        BusyBlocksOverlap(s.busy, b.value, px[p].slot, a.slot);
      } else {
        assert xs[q] == px[q] && es[q] == ds[q];
      }
    }
  }

  /** Two slots with the same start and end sharing an active day: the only clash the exact-key test sees. */
  predicate SameTime(a: TimeSlot, b: TimeSlot) {
    a.start == b.start && End(a) == End(b) && SharesDay(a.days, b.days)
  }

  /** No instructor is given two assignments at the same time on a common day. */
  predicate NoSameTimeTwice(xs: seq<Assignment>, ds: seq<Option<int>>)
    requires |ds| == |xs|
  {
    forall p, q :: 0 <= p < q < |xs| && ds[p].Some? && ds[p] == ds[q] ==> !SameTime(xs[p].slot, xs[q].slot)
  }

  /** Under the exact-key test, no instructor gets two assignments with the same start and end on a common day. */
  lemma {:induction false} RunNoSameTimeTwice(st: State, ins: seq<int>, xs: seq<Assignment>)
    ensures NoSameTimeTwice(xs, Run(ExactKey, st, ins, xs).1)
  {
    if |xs| > 0 {
      var px := xs[..|xs| - 1];
      var a := xs[|xs| - 1];
      var prev := Run(ExactKey, st, ins, px);
      RunNoSameTimeTwice(st, ins, px);
      RunCovered(ExactKey, st, ins, px);
      RunLast(ExactKey, st, ins, xs);
      var best := FindBest(ExactKey, prev.0, ins, a.slot);
      FindBestChoice(ExactKey, prev.0, ins, a.slot);
      assert xs == px + [a];
      NoSameTimeStep(prev.0, px, a, prev.1, best);
    }
  }

  /** An instructor free for `a` under the exact-key test keeps a pass free of same-time repeats once given `a`. */
  lemma NoSameTimeStep(s: State, px: seq<Assignment>, a: Assignment, ds: seq<Option<int>>, b: Option<int>)
    requires |ds| == |px| && NoSameTimeTwice(px, ds) && Covered(s, px, ds)
    requires b.Some? ==> AvailableAsWritten(s.busy, b.value, a.slot)
    ensures NoSameTimeTwice(px + [a], ds + [b])
  {
    var xs, es := px + [a], ds + [b];
    forall p, q | 0 <= p < q < |xs| && es[p].Some? && es[p] == es[q]
      ensures !SameTime(xs[p].slot, xs[q].slot)
    {
      assert xs[p] == px[p] && es[p] == ds[p];
      if q < |px| {
        assert xs[q] == px[q] && es[q] == ds[q];
      }
    }
  }

  /**
   * Under either test every choice is recorded as a `ClassInstructor`
   * link, one outcome per assignment.
   */
  lemma AssignmentLinks(t: BusyTest, ins: seq<int>, prefs: PrefTable, assignments: seq<Assignment>)
    ensures var r := AssignInstructors(t, ins, prefs, assignments);
      |r.1| == |assignments| &&
      forall p :: 0 <= p < |assignments| && r.1[p].Some? ==> (assignments[p].classId, r.1[p].value) in r.0.links
  {
    OrderIsScheduleOrder(t, ins, prefs, assignments);
    RunLinks(t, InitialState(ins, prefs), ins, assignments);
  }

  /** The pass with the overlap test never books an instructor into two overlapping assignments. */
  lemma AssignmentPass(ins: seq<int>, prefs: PrefTable, assignments: seq<Assignment>)
    ensures var r := AssignInstructors(AnyOverlap, ins, prefs, assignments);
      |r.1| == |assignments| && NoDoubleBooking(assignments, r.1)
  {
    OrderIsScheduleOrder(AnyOverlap, ins, prefs, assignments);
    RunNoDoubleBooking(InitialState(ins, prefs), ins, assignments);
  }

  /** The pass as written only keeps an instructor from being booked twice at the very same time on a common day. */
  lemma AssignmentPassAsWritten(ins: seq<int>, prefs: PrefTable, assignments: seq<Assignment>)
    ensures var r := AssignInstructors(ExactKey, ins, prefs, assignments);
      |r.1| == |assignments| && NoSameTimeTwice(assignments, r.1)
  {
    OrderIsScheduleOrder(ExactKey, ins, prefs, assignments);
    RunNoSameTimeTwice(InitialState(ins, prefs), ins, assignments);
  }

  /**
   * The pass as written double-books: with a single instructor, a Monday
   * 08:00–09:00 class and then a Monday 08:30–09:30 class both go to it,
   * while the overlap test leaves the second class without an instructor.
   */
  lemma AsWrittenDoubleBooks()
    ensures var a := TimeSlot(1, "1000000", 96, 12, 0.0);
      var b := TimeSlot(2, "1000000", 102, 12, 0.0);
      var xs := [Assignment(1, a), Assignment(2, b)];
      AssignInstructors(ExactKey, [7], map[], xs).1 == [Some(7), Some(7)] &&
      !NoDoubleBooking(xs, AssignInstructors(ExactKey, [7], map[], xs).1) &&
      AssignInstructors(AnyOverlap, [7], map[], xs).1 == [Some(7), None]
  {
    var a := TimeSlot(1, "1000000", 96, 12, 0.0);
    var b := TimeSlot(2, "1000000", 102, 12, 0.0);
    var xs := [Assignment(1, a), Assignment(2, b)];
    var st0 := InitialState([7], map[]);
    OrderIsScheduleOrder(ExactKey, [7], map[], xs);
    OrderIsScheduleOrder(AnyOverlap, [7], map[], xs);
    ExactKeyMissesOverlap();
    var busy1 := MarkBusy(st0.busy, 7, a);
    assert busy1 == MarkBusy(map[], 7, a);
    SecondOutcome(ExactKey, st0, a, b);
    SecondOutcome(AnyOverlap, st0, a, b);
    assert xs[..1] == [Assignment(1, a)];
  }

  /** With one instructor, free at the start, the two-class pass gives it the first class and decides the second on the marked table. */
  lemma SecondOutcome(t: BusyTest, st0: State, a: TimeSlot, b: TimeSlot)
    requires Free(t, st0.busy, 7, a)
    ensures var xs := [Assignment(1, a), Assignment(2, b)];
      var busy1 := MarkBusy(st0.busy, 7, a);
      Run(t, st0, [7], xs).1 == [Some(7), if Free(t, busy1, 7, b) then Some(7) else None]
  {
    var xs := [Assignment(1, a), Assignment(2, b)];
    FindBestChoice(t, st0, [7], a);
    var r1 := Run(t, st0, [7], xs[..1]);
    assert xs[..1][..0] == [];
    RunLast(t, st0, [7], xs[..1]);
    assert FindBest(t, st0, [7], a) == Some(7);
    assert r1.1 == [Some(7)] && r1.0.busy == MarkBusy(st0.busy, 7, a);
    FindBestChoice(t, r1.0, [7], b);
    RunLast(t, st0, [7], xs);
  }

  /** The outcomes that gave the class to instructor `i`. */
  function CountGiven(ds: seq<Option<int>>, i: int): nat {
    if |ds| == 0 then 0 else CountGiven(ds[..|ds| - 1], i) + (if ds[|ds| - 1] == Some(i) then 1 else 0)
  }

  predicate DistinctClasses(xs: seq<Assignment>) {
    forall p, q :: 0 <= p < q < |xs| ==> xs[p].classId != xs[q].classId
  }

  lemma LoadInsert(chosen: map<int, int>, c: int, v: int, i: int)
    requires c !in chosen
    ensures Load(chosen[c := v], i) == Load(chosen, i) + (if v == i then 1 else 0)
  {
    var before := set c' | c' in chosen && chosen[c'] == i;
    var m := chosen[c := v];
    var after := set c' | c' in m && m[c'] == i;
    if v == i {
      assert after == before + {c};
    } else {
      assert after == before;
    }
  }

  /** Only the classes of the pass are added to `class_instructors_assigned`. */
  lemma {:induction false} RunRecordsKeys(t: BusyTest, st: State, ins: seq<int>, xs: seq<Assignment>)
    ensures forall c :: c in Run(t, st, ins, xs).0.chosen ==> c in st.chosen || exists p :: 0 <= p < |xs| && xs[p].classId == c
  {
    if |xs| > 0 {
      var px := xs[..|xs| - 1];
      RunRecordsKeys(t, st, ins, px);
      RunLast(t, st, ins, xs);
      assert forall p :: 0 <= p < |px| ==> px[p] == xs[p];
    }
  }

  /** Each class given an instructor is mapped to it. */
  lemma {:induction false} RunRecordsValues(t: BusyTest, st: State, ins: seq<int>, xs: seq<Assignment>)
    requires DistinctClasses(xs)
    ensures forall p :: 0 <= p < |xs| && Run(t, st, ins, xs).1[p].Some? ==>
              xs[p].classId in Run(t, st, ins, xs).0.chosen && Run(t, st, ins, xs).0.chosen[xs[p].classId] == Run(t, st, ins, xs).1[p].value
  {
    if |xs| > 0 {
      var px := xs[..|xs| - 1];
      assert DistinctClasses(px);
      RunRecordsValues(t, st, ins, px);
      RunLast(t, st, ins, xs);
      var a := xs[|xs| - 1];
      var prev := Run(t, st, ins, px);
      var r := Run(t, st, ins, xs);
      forall p | 0 <= p < |xs| && r.1[p].Some? ensures xs[p].classId in r.0.chosen && r.0.chosen[xs[p].classId] == r.1[p].value {
        if p < |px| {
          assert px[p] == xs[p] && r.1[p] == prev.1[p];
          assert xs[p].classId != a.classId;
        }
      }
    }
  }

  /** The load of each instructor grows by one per class given to it. */
  lemma {:induction false} RunRecordsLoad(t: BusyTest, st: State, ins: seq<int>, xs: seq<Assignment>)
    requires DistinctClasses(xs)
    requires forall p :: 0 <= p < |xs| ==> xs[p].classId !in st.chosen
    ensures forall i :: Load(Run(t, st, ins, xs).0.chosen, i) == Load(st.chosen, i) + CountGiven(Run(t, st, ins, xs).1, i)
  {
    if |xs| > 0 {
      var px := xs[..|xs| - 1];
      var a := xs[|xs| - 1];
      var prev := Run(t, st, ins, px);
      assert DistinctClasses(px);
      RunRecordsLoad(t, st, ins, px);
      RunRecordsKeys(t, st, ins, px);
      RunLast(t, st, ins, xs);
      var ds := Run(t, st, ins, xs).1;
      assert ds[..|ds| - 1] == prev.1;
      var best := FindBest(t, prev.0, ins, a.slot);
      if best.Some? {
        assert a.classId !in prev.0.chosen;
        forall i ensures Load(prev.0.chosen[a.classId := best.value], i) == Load(prev.0.chosen, i) + (if best == Some(i) then 1 else 0) {
          LoadInsert(prev.0.chosen, a.classId, best.value, i);
        }
      }
    }
  }

  /**
   * With class ids unique in the schedule (one assignment per class),
   * `class_instructors_assigned` maps each class given an instructor to
   * that instructor, and the load used for scoring is the number of classes
   * given so far.
   */
  lemma ChoicesRecorded(t: BusyTest, ins: seq<int>, prefs: PrefTable, assignments: seq<Assignment>)
    requires DistinctClasses(assignments)
    ensures var r := AssignInstructors(t, ins, prefs, assignments);
      |r.1| == |assignments| &&
      (forall p :: 0 <= p < |assignments| && r.1[p].Some? ==>
         assignments[p].classId in r.0.chosen && r.0.chosen[assignments[p].classId] == r.1[p].value) &&
      (forall i :: Load(r.0.chosen, i) == CountGiven(r.1, i))
  {
    OrderIsScheduleOrder(t, ins, prefs, assignments);
    var st0 := InitialState(ins, prefs);
    RunRecordsValues(t, st0, ins, assignments);
    RunRecordsLoad(t, st0, ins, assignments);
  }

  // ------------------------------------------------------------- report

  /** `_print_report`'s two percentages as written: a schedule without assignments divides by zero. */
  function ReportAsWritten(s: AssignStats): Option<(real, real)> {
    if s.total == 0 then None
    else Some((s.assignedCount as real / s.total as real * 100.0, s.unassignedCount as real / s.total as real * 100.0))
  }

  /** On an empty schedule `assign_instructors` raises before returning its statistics. */
  lemma EmptyScheduleFails(t: BusyTest, ins: seq<int>, prefs: PrefTable)
    ensures ReportAsWritten(AssignInstructors(t, ins, prefs, []).2).None?
  {
  }

  /** The report guarded for an empty schedule: both shares are 0 there. */
  function Report(s: AssignStats): (real, real) {
    if s.total == 0 then (0.0, 0.0)
    else (s.assignedCount as real / s.total as real * 100.0, s.unassignedCount as real / s.total as real * 100.0)
  }

  /** The guarded report is defined for every schedule; its shares add up to 100% whenever there is an assignment. */
  lemma ReportShares(t: BusyTest, ins: seq<int>, prefs: PrefTable, assignments: seq<Assignment>)
    ensures var s := AssignInstructors(t, ins, prefs, assignments).2;
      var r := Report(s);
      (|assignments| > 0 ==> r.0 + r.1 == 100.0 && Some(r) == ReportAsWritten(s)) &&
      (|assignments| == 0 ==> r == (0.0, 0.0))
  {
    StatsTotal(t, ins, prefs, assignments);
    var s := AssignInstructors(t, ins, prefs, assignments).2;
    if s.total > 0 {
      SharesAddUp(s.assignedCount, s.unassignedCount, s.total);
    }
  }

  lemma SharesAddUp(a: nat, b: nat, t: nat)
    requires a + b == t > 0
    ensures a as real / t as real * 100.0 + b as real / t as real * 100.0 == 100.0
  {
    var x := t as real;
    var p, q := a as real / x, b as real / x;
    var u, v := p * x, q * x;
    assert u == a as real && v == b as real;
    assert a as real + b as real == (a + b) as real == x;
    assert (p + q) * x == u + v == x;
    assert p + q == 1.0;
    assert p * 100.0 + q * 100.0 == (p + q) * 100.0;
  }
}
