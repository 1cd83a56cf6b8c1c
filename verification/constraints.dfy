/**
 * `ConstraintValidator`: the fitness of a candidate timetable, from four hard
 * checks (instructor, room and student clashes, room capacity) and three
 * soft ones (room and time preferences, gaps in instructors' days).
 */
module Constraints {
  import opened Util
  import opened Grouping
  import opened Sorting
  import opened TimeSlots
  import opened Overlap

  /** The value of one gene: an optional room id and an optional time slot id. */
  datatype Gene = Gene(room: Option<int>, slot: Option<int>)

  /** An individual's genes, `{class_id: (room_id, timeslot_id)}` in insertion order. */
  type Genes = seq<(int, Gene)>

  const DefaultHardWeight: real := 1000.0
  const DefaultSoftWeight: real := 1.0
  const MaxScore: real := 100000.0
  /** The weights the schedule generator gives its validator. */
  const GeneratorHardWeight: real := 100.0
  const GeneratorSoftWeight: real := 1.0

  /** The data the validator caches from the database, keyed by database id. */
  datatype Validator = Validator(
    hardWeight: real,
    softWeight: real,
    classInstructors: map<int, seq<int>>,
    classStudents: map<int, seq<int>>,
    roomCapacities: map<int, int>,
    classLimits: map<int, int>,
    roomPreferences: map<int, map<int, real>>,
    timePreferences: map<int, map<int, real>>,
    timeslots: map<int, TimeSlot>)

  /** `d.get(k, [])` on a table of id lists. */
  function IdsOf(m: map<int, seq<int>>, k: int): seq<int> {
    if k in m then m[k] else []
  }

  /** `_get_timeslots_from_genes` for one gene: the slot row, if the id is truthy and exists. */
  function SlotOf(v: Validator, g: Gene): Option<TimeSlot> {
    if Truthy(g.slot) && g.slot.value in v.timeslots then Some(v.timeslots[g.slot.value]) else None
  }

  /** The clash checks' filter `days and start is not None and length`. */
  predicate Schedulable(ts: TimeSlot) {
    |ts.days| > 0 && ts.length != 0
  }

  function EntryOf(ts: TimeSlot): Slot {
    Slot(ts.days, ts.start, ts.start + ts.length)
  }

  /** Pairs every key with the same value. */
  function Tag<K, V>(keys: seq<K>, v: V): (r: seq<(K, V)>)
    ensures |r| == |keys| && forall i :: 0 <= i < |r| ==> r[i] == (keys[i], v)
  {
    seq(|keys|, i requires 0 <= i < |keys| => (keys[i], v))
  }

  /** What one gene appends to the instructor groups. */
  function InstructorEntriesOf(v: Validator, c: int, g: Gene): seq<(int, Slot)> {
    match SlotOf(v, g)
    case Some(ts) => if Schedulable(ts) then Tag(IdsOf(v.classInstructors, c), EntryOf(ts)) else []
    case None => []
  }

  /** What one gene appends to the room groups: nothing for a falsy room id. */
  function RoomEntriesOf(v: Validator, c: int, g: Gene): seq<(int, Slot)> {
    match SlotOf(v, g)
    case Some(ts) => if Truthy(g.room) && Schedulable(ts) then [(g.room.value, EntryOf(ts))] else []
    case None => []
  }

  /** What one gene appends to the student groups. */
  function StudentEntriesOf(v: Validator, c: int, g: Gene): seq<(int, Slot)> {
    match SlotOf(v, g)
    case Some(ts) => if Schedulable(ts) then Tag(IdsOf(v.classStudents, c), EntryOf(ts)) else []
    case None => []
  }

  /** The appends made by a loop over the genes, in order. */
  function Collect<K, V>(genes: Genes, f: (int, Gene) -> seq<(K, V)>): seq<(K, V)> {
    if |genes| == 0 then [] else f(genes[0].0, genes[0].1) + Collect(genes[1..], f)
  }

  lemma {:induction false} CollectAppend<K, V>(a: Genes, b: Genes, f: (int, Gene) -> seq<(K, V)>)
    ensures Collect(a + b, f) == Collect(a, f) + Collect(b, f)
  {
    if |a| > 0 {
      assert (a + b)[1..] == a[1..] + b;
      CollectAppend(a[1..], b, f);
    } else {
      assert a + b == b;
    }
  }

  function InstructorFn(v: Validator): (int, Gene) -> seq<(int, Slot)> {
    (c, g) => InstructorEntriesOf(v, c, g)
  }

  function RoomFn(v: Validator): (int, Gene) -> seq<(int, Slot)> {
    (c, g) => RoomEntriesOf(v, c, g)
  }

  function StudentFn(v: Validator): (int, Gene) -> seq<(int, Slot)> {
    (c, g) => StudentEntriesOf(v, c, g)
  }

  function InstructorEntries(v: Validator, genes: Genes): seq<(int, Slot)> {
    Collect(genes, InstructorFn(v))
  }

  function RoomEntries(v: Validator, genes: Genes): seq<(int, Slot)> {
    Collect(genes, RoomFn(v))
  }

  function StudentEntries(v: Validator, genes: Genes): seq<(int, Slot)> {
    Collect(genes, StudentFn(v))
  }

  lemma CollectSkip<K, V>(a: Genes, c: int, g: Gene, b: Genes, f: (int, Gene) -> seq<(K, V)>)
    requires f(c, g) == []
    ensures Collect(a + [(c, g)] + b, f) == Collect(a + b, f)
  {
    CollectAppend(a + [(c, g)], b, f);
    CollectAppend(a, [(c, g)], f);
    CollectAppend(a, b, f);
    assert Collect([(c, g)], f) == f(c, g) + Collect([], f);
  }

  /** `_check_instructor_conflicts`. */
  function InstructorConflicts(v: Validator, genes: Genes): nat {
    ConflictsIn(GroupBy(InstructorEntries(v, genes)))
  }

  /** `_check_room_conflicts`. */
  function RoomConflicts(v: Validator, genes: Genes): nat {
    ConflictsIn(GroupBy(RoomEntries(v, genes)))
  }

  /** `_check_student_conflicts`. */
  function StudentConflicts(v: Validator, genes: Genes): nat {
    ConflictsIn(GroupBy(StudentEntries(v, genes)))
  }

  /**
   * Each clash count is the number of overlapping pairs of entries that share
   * an instructor (room, student), and is zero exactly when no such pair exists.
   */
  lemma ClashCounts(v: Validator, genes: Genes)
    ensures InstructorConflicts(v, genes) == KeyedPairs(InstructorEntries(v, genes))
    ensures RoomConflicts(v, genes) == KeyedPairs(RoomEntries(v, genes))
    ensures StudentConflicts(v, genes) == KeyedPairs(StudentEntries(v, genes))
    ensures var ps := RoomEntries(v, genes);
      RoomConflicts(v, genes) == 0 <==>
        forall i, j :: 0 <= i < j < |ps| && ps[i].0 == ps[j].0 ==> !Overlaps(ps[i].1, ps[j].1)
    ensures var ps := InstructorEntries(v, genes);
      InstructorConflicts(v, genes) == 0 <==>
        forall i, j :: 0 <= i < j < |ps| && ps[i].0 == ps[j].0 ==> !Overlaps(ps[i].1, ps[j].1)
    ensures var ps := StudentEntries(v, genes);
      StudentConflicts(v, genes) == 0 <==>
        forall i, j :: 0 <= i < j < |ps| && ps[i].0 == ps[j].0 ==> !Overlaps(ps[i].1, ps[j].1)
  {
    GroupedConflicts(InstructorEntries(v, genes));
    GroupedConflicts(RoomEntries(v, genes));
    GroupedConflicts(StudentEntries(v, genes));
    KeyedPairsZeroIff(InstructorEntries(v, genes));
    KeyedPairsZeroIff(RoomEntries(v, genes));
    KeyedPairsZeroIff(StudentEntries(v, genes));
  }

  /** The clash counts are bounded by the pairs available in each group. */
  lemma ClashBounds(v: Validator, genes: Genes)
    ensures 2 * InstructorConflicts(v, genes) <= PairBudget(GroupBy(InstructorEntries(v, genes)))
    ensures 2 * RoomConflicts(v, genes) <= PairBudget(GroupBy(RoomEntries(v, genes)))
    ensures 2 * StudentConflicts(v, genes) <= PairBudget(GroupBy(StudentEntries(v, genes)))
  {
    ConflictsBound(GroupBy(InstructorEntries(v, genes)));
    ConflictsBound(GroupBy(RoomEntries(v, genes)));
    ConflictsBound(GroupBy(StudentEntries(v, genes)));
  }

  /**
   * A gene without a usable slot (missing, empty days or zero length) takes
   * part in no clash group: removing it changes none of the clash counts, and
   * a gene with a falsy room id is likewise invisible to the room check.
   */
  lemma UnusableGeneIgnored(v: Validator, a: Genes, c: int, g: Gene, b: Genes)
    requires SlotOf(v, g).None? || !Schedulable(SlotOf(v, g).value)
    ensures InstructorConflicts(v, a + [(c, g)] + b) == InstructorConflicts(v, a + b)
    ensures RoomConflicts(v, a + [(c, g)] + b) == RoomConflicts(v, a + b)
    ensures StudentConflicts(v, a + [(c, g)] + b) == StudentConflicts(v, a + b)
  {
    CollectSkip(a, c, g, b, InstructorFn(v));
    CollectSkip(a, c, g, b, RoomFn(v));
    CollectSkip(a, c, g, b, StudentFn(v));
  }

  lemma FalsyRoomIgnored(v: Validator, a: Genes, c: int, g: Gene, b: Genes)
    requires !Truthy(g.room)
    ensures RoomConflicts(v, a + [(c, g)] + b) == RoomConflicts(v, a + b)
  {
    CollectSkip(a, c, g, b, RoomFn(v));
  }

  /** `class_limits.get(class_id, 0)`. */
  function LimitOf(v: Validator, c: int): int {
    if c in v.classLimits then v.classLimits[c] else 0
  }

  /** A truthy room whose known capacity is below the class limit; an unknown room has infinite capacity. */
  predicate OverCapacity(v: Validator, c: int, g: Gene) {
    Truthy(g.room) && g.room.value in v.roomCapacities && v.roomCapacities[g.room.value] < LimitOf(v, c)
  }

  /** `_check_capacity_violations`: one violation per gene over capacity. */
  function CapacityViolations(v: Validator, genes: Genes): (n: nat)
    ensures n <= |genes|
    ensures n == 0 <==> forall i :: 0 <= i < |genes| ==> !OverCapacity(v, genes[i].0, genes[i].1)
    ensures n == |genes| <==> forall i :: 0 <= i < |genes| ==> OverCapacity(v, genes[i].0, genes[i].1)
  {
    if |genes| == 0 then 0
    else
      assert forall i :: 1 <= i < |genes| ==> genes[i] == genes[1..][i - 1];
      (if OverCapacity(v, genes[0].0, genes[0].1) then 1 else 0) + CapacityViolations(v, genes[1..])
  }

  /** `preferences.get(key, 0.0)` in a per-class preference table. */
  function PreferenceOf(m: map<int, map<int, real>>, c: int, key: int): real {
    if c in m && key in m[c] then m[c][key] else 0.0
  }

  /** `abs(p)` when `p < 0`, otherwise nothing. */
  function NegativePart(p: real): (r: real)
    ensures r >= 0.0 && (r == 0.0 <==> p >= 0.0)
  {
    if p < 0.0 then -p else 0.0
  }

  /** `_check_room_preferences`. */
  function RoomPreferencePenalty(v: Validator, genes: Genes): (r: real)
    ensures r >= 0.0
    ensures r == 0.0 <==> forall i :: 0 <= i < |genes| && Truthy(genes[i].1.room) ==>
      PreferenceOf(v.roomPreferences, genes[i].0, genes[i].1.room.value) >= 0.0
  {
    if |genes| == 0 then 0.0
    else
      assert forall i :: 1 <= i < |genes| ==> genes[i] == genes[1..][i - 1];
      var g := genes[0];
      (if Truthy(g.1.room) then NegativePart(PreferenceOf(v.roomPreferences, g.0, g.1.room.value)) else 0.0)
        + RoomPreferencePenalty(v, genes[1..])
  }

  /** `_check_time_preferences`. */
  function TimePreferencePenalty(v: Validator, genes: Genes): (r: real)
    ensures r >= 0.0
    ensures r == 0.0 <==> forall i :: 0 <= i < |genes| && Truthy(genes[i].1.slot) ==>
      PreferenceOf(v.timePreferences, genes[i].0, genes[i].1.slot.value) >= 0.0
  {
    if |genes| == 0 then 0.0
    else
      assert forall i :: 1 <= i < |genes| ==> genes[i] == genes[1..][i - 1];
      var g := genes[0];
      (if Truthy(g.1.slot) then NegativePart(PreferenceOf(v.timePreferences, g.0, g.1.slot.value)) else 0.0)
        + TimePreferencePenalty(v, genes[1..])
  }

  /** One instructor's entries for every active day of a slot: `((instructor, day), start)`. */
  function DayEntries(instructor: int, days: string, start: int): seq<((int, int), int)> {
    var act := ActiveIndices(days);
    seq(|act|, k requires 0 <= k < |act| => ((instructor, act[k] as int), start))
  }

  function InstructorDayEntries(ids: seq<int>, days: string, start: int): seq<((int, int), int)> {
    if |ids| == 0 then [] else DayEntries(ids[0], days, start) + InstructorDayEntries(ids[1..], days, start)
  }

  /** What one gene appends to the gap groups; the filter here has no length test. */
  function GapEntriesOf(v: Validator, c: int, g: Gene): seq<((int, int), int)> {
    match SlotOf(v, g)
    case Some(ts) => if |ts.days| > 0 then InstructorDayEntries(IdsOf(v.classInstructors, c), ts.days, ts.start) else []
    case None => []
  }

  /** The penalty for one gap between consecutive starts: a tenth per slot beyond 12 (one hour). */
  function GapCost(gap: int): (r: real)
    ensures r >= 0.0 && (r == 0.0 <==> gap <= 12)
  {
    if gap > 12 then (gap - 12) as real * 0.1 else 0.0
  }

  /** The costs of the gaps between consecutive elements. */
  function GapSum(t: seq<int>): (r: real)
    ensures r >= 0.0
  {
    if |t| < 2 then 0.0 else GapCost(t[1] - t[0]) + GapSum(t[1..])
  }

  const Ascending: (int, int) -> bool := ByKey((x: int) => x)

  /** One (instructor, day) group: sort its starts and cost the gaps, if it has more than one. */
  function GroupGaps(times: seq<int>): (r: real)
    ensures r >= 0.0
  {
    if |times| > 1 then GapSum(Sort(times, Ascending)) else 0.0
  }

  function GapFn(v: Validator): (int, Gene) -> seq<((int, int), int)> {
    (c, g) => GapEntriesOf(v, c, g)
  }

  function GapsIn(gs: seq<Group<(int, int), int>>): (r: real)
    ensures r >= 0.0
  {
    if |gs| == 0 then 0.0 else GroupGaps(gs[0].members) + GapsIn(gs[1..])
  }

  /** `_check_instructor_gaps`. */
  function InstructorGaps(v: Validator, genes: Genes): (r: real)
    ensures r >= 0.0
  {
    GapsIn(GroupBy(Collect(genes, GapFn(v))))
  }

  lemma {:induction false} GapSumZeroIff(t: seq<int>)
    ensures GapSum(t) == 0.0 <==> forall k :: 0 <= k < |t| - 1 ==> t[k + 1] - t[k] <= 12
  {
    if |t| >= 2 {
      GapSumZeroIff(t[1..]);
      assert forall k :: 1 <= k < |t| - 1 ==> t[k + 1] - t[k] == t[1..][k] - t[1..][k - 1];
    }
  }

  /**
   * A group costs nothing exactly when, in ascending order, no two
   * consecutive starts of that instructor on that day are more than an hour
   * apart; in particular a single class per day costs nothing.
   */
  lemma GroupGapsZeroIff(times: seq<int>)
    ensures var t := Sort(times, Ascending);
      GroupGaps(times) == 0.0 <==> forall k :: 0 <= k < |t| - 1 ==> t[k + 1] - t[k] <= 12
    ensures |times| <= 1 ==> GroupGaps(times) == 0.0
  {
    var t := Sort(times, Ascending);
    ByKeyPreorder((x: int) => x);
    SortCorrect(times, Ascending);
    GapSumZeroIff(t);
  }

  lemma {:induction false} SingletonGroupsNoGaps(gs: seq<Group<(int, int), int>>)
    requires forall i :: 0 <= i < |gs| ==> |gs[i].members| <= 1
    ensures GapsIn(gs) == 0.0
  {
    if |gs| > 0 {
      assert forall i :: 1 <= i < |gs| ==> gs[i] == gs[1..][i - 1];
      SingletonGroupsNoGaps(gs[1..]);
    }
  }

  /** `_evaluate_hard_constraints`: the sum of the four hard checks. */
  function HardViolations(v: Validator, genes: Genes): nat {
    InstructorConflicts(v, genes) + RoomConflicts(v, genes) + StudentConflicts(v, genes) + CapacityViolations(v, genes)
  }

  /** `_evaluate_soft_constraints`: the sum of the three soft penalties. */
  function SoftPenalty(v: Validator, genes: Genes): (r: real)
    ensures r >= 0.0
  {
    RoomPreferencePenalty(v, genes) + TimePreferencePenalty(v, genes) + InstructorGaps(v, genes)
  }

  /** The fitness formula. */
  function Score(hard: nat, soft: real, hardWeight: real, softWeight: real): real {
    MaxScore - (hard as real * hardWeight + soft * softWeight)
  }

  /** `evaluate`. */
  function Evaluate(v: Validator, genes: Genes): real {
    Score(HardViolations(v, genes), SoftPenalty(v, genes), v.hardWeight, v.softWeight)
  }

  /**
   * With positive weights the fitness never exceeds the maximum score and
   * reaches it exactly when there is no hard violation and no soft penalty.
   */
  lemma PerfectScore(v: Validator, genes: Genes)
    requires v.hardWeight > 0.0 && v.softWeight > 0.0
    ensures Evaluate(v, genes) <= MaxScore
    ensures Evaluate(v, genes) == MaxScore <==> HardViolations(v, genes) == 0 && SoftPenalty(v, genes) == 0.0
  {
    var h, p := HardViolations(v, genes), SoftPenalty(v, genes);
    ScoreAtMost(h, p, v.hardWeight, v.softWeight);
  }

  lemma ScoreAtMost(hard: nat, soft: real, hardWeight: real, softWeight: real)
    requires soft >= 0.0 && hardWeight > 0.0 && softWeight > 0.0
    ensures Score(hard, soft, hardWeight, softWeight) <= MaxScore
    ensures Score(hard, soft, hardWeight, softWeight) == MaxScore <==> hard == 0 && soft == 0.0
  {
    WeightedTerm(hard as real, hardWeight);
    WeightedTerm(soft, softWeight);
  }

  lemma WeightedTerm(x: real, w: real)
    requires x >= 0.0 && w > 0.0
    ensures x * w >= 0.0 && (x * w == 0.0 <==> x == 0.0)
  {
  }

  /** More hard violations at the same soft penalty strictly lower the fitness. */
  lemma ScoreDecreasesWithHard(h1: nat, h2: nat, soft: real, hardWeight: real, softWeight: real)
    requires h1 < h2 && hardWeight > 0.0
    ensures Score(h2, soft, hardWeight, softWeight) < Score(h1, soft, hardWeight, softWeight)
  {
    assert (h2 as real - h1 as real) * hardWeight > 0.0;
  }

  /**
   * With the default weights one hard violation outweighs any soft penalty
   * below 1000: a timetable with fewer hard violations then scores higher.
   */
  lemma DefaultWeightsPreferFewerHard(h1: nat, s1: real, h2: nat, s2: real)
    requires h1 < h2 && 0.0 <= s1 < 1000.0 && 0.0 <= s2
    ensures Score(h2, s2, DefaultHardWeight, DefaultSoftWeight) < Score(h1, s1, DefaultHardWeight, DefaultSoftWeight)
  {
  }

  /**
   * With the generator's weights one hard violation outweighs only a soft
   * penalty below 100: a timetable with fewer hard violations then scores higher.
   */
  lemma GeneratorWeightsPreferFewerHard(h1: nat, s1: real, h2: nat, s2: real)
    requires h1 < h2 && 0.0 <= s1 < 100.0 && 0.0 <= s2
    ensures Score(h2, s2, GeneratorHardWeight, GeneratorSoftWeight) < Score(h1, s1, GeneratorHardWeight, GeneratorSoftWeight)
  {
  }

  /** The bound is tight: under the generator's weights a soft penalty of 100 costs as much as one hard violation. */
  lemma GeneratorWeightsTie()
    ensures Score(1, 0.0, GeneratorHardWeight, GeneratorSoftWeight) == Score(0, 100.0, GeneratorHardWeight, GeneratorSoftWeight)
    ensures Score(1, 0.0, DefaultHardWeight, DefaultSoftWeight) < Score(0, 100.0, DefaultHardWeight, DefaultSoftWeight)
  {
  }
}
