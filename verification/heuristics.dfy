/**
 * The scheduling heuristics: instructor-free timeslot filtering, ordering
 * classes by how constrained they are, the greedy constructor with its
 * assignment-quality score, the room-conflict listing and the hill-climbing
 * local search over conflicted classes.
 */
module Heuristics {
  import opened Util
  import opened Sorting
  import opened Grouping
  import opened Records
  import opened TimeSlots
  import Dict
  import Constraints
  import opened Genetic

  /** `room_occupation`: (room id, timeslot id) ↦ the class holding it. */
  type RoomOccupation = map<(int, int), int>

  /** The keys of `instructor_occupation`: (instructor id, timeslot id) pairs already teaching; only membership is ever read. */
  type InstructorOccupation = set<(int, int)>

  /** The constructor's result `{class_id: (room_id, timeslot_id)}` in insertion order. */
  type Schedule = seq<(int, (int, int))>

  /** The instructors linked to class `c`. */
  function InstructorsOf(ci: map<int, seq<int>>, c: int): seq<int> {
    if c in ci then ci[c] else []
  }

  // ------------------------------------------------------------ valid timeslots

  /** None of the class's instructors is already teaching in timeslot `tsId`. */
  predicate Free(busy: InstructorOccupation, ids: seq<int>, tsId: int) {
    forall i :: 0 <= i < |ids| ==> (ids[i], tsId) !in busy
  }

  /** `get_valid_timeslots`: the timeslots in which no instructor of the class is busy. */
  function ValidTimeslots(busy: InstructorOccupation, ids: seq<int>, ts: seq<TimeSlot>): (r: seq<TimeSlot>)
    ensures forall t :: t in r <==> t in ts && Free(busy, ids, t.id)
  {
    if |ts| == 0 then []
    else (if Free(busy, ids, ts[0].id) then [ts[0]] else []) + ValidTimeslots(busy, ids, ts[1..])
  }

  /** The filter keeps the candidates' order. */
  lemma {:induction false} ValidTimeslotsOrder(busy: InstructorOccupation, ids: seq<int>, ts: seq<TimeSlot>)
    ensures Subsequence(ValidTimeslots(busy, ids, ts), ts)
  {
    if |ts| > 0 {
      var rest := ValidTimeslots(busy, ids, ts[1..]);
      ValidTimeslotsOrder(busy, ids, ts[1..]);
      var r := ValidTimeslots(busy, ids, ts);
      if Free(busy, ids, ts[0].id) {
        assert r == [ts[0]] + rest;
        assert r[0] == ts[0] && r[1..] == rest;
      } else {
        assert r == rest;
      }
    }
  }

  // ------------------------------------------------------------ prioritising

  /** `constraint_score`: slots × adequate rooms, less a hundredth of the class size; smaller is more constrained. */
  function ConstraintScore(ctx: Context): Class -> real {
    (c: Class) => (|SlotsOf(ctx, c.id)| * |Suitable(ctx.rooms, c.limit)|) as real - c.limit as real / 100.0
  }

  /** `prioritize_by_constraint`: `sorted(classes, key=constraint_score)`. */
  function Prioritize(ctx: Context, classes: seq<Class>): seq<Class> {
    Sort(classes, ByRealKey(ConstraintScore(ctx)))
  }

  /** The most constrained classes come first; the result is a permutation and classes with equal scores keep their order. */
  lemma PrioritizeFacts(ctx: Context, classes: seq<Class>)
    ensures multiset(Prioritize(ctx, classes)) == multiset(classes)
    ensures var r := Prioritize(ctx, classes);
      forall i, j :: 0 <= i < j < |r| ==> ConstraintScore(ctx)(r[i]) <= ConstraintScore(ctx)(r[j])
    ensures forall c :: Peers(Prioritize(ctx, classes), c, ByRealKey(ConstraintScore(ctx))) ==
                        Peers(classes, c, ByRealKey(ConstraintScore(ctx)))
  {
    var le := ByRealKey(ConstraintScore(ctx));
    ByRealKeyPreorder(ConstraintScore(ctx));
    SortCorrect(classes, le);
    var r := Prioritize(ctx, classes);
    forall i, j | 0 <= i < j < |r| ensures ConstraintScore(ctx)(r[i]) <= ConstraintScore(ctx)(r[j]) {
      assert le(r[i], r[j]);
    }
    forall c ensures Peers(r, c, le) == Peers(classes, c, le) {
      SortStable(classes, c, le);
    }
  }

  // ------------------------------------------------------------ assignment quality

  /** Factor 1 as written: −1000 for a room that is too small, else `(1 − waste/capacity)·100`; `None` where that division raises. */
  function CapacityTermAsWritten(capacity: int, limit: int): Option<real> {
    if capacity - limit < 0 then Some(-1000.0)
    else if capacity == 0 then None
    else Some((1.0 - (capacity - limit) as real / capacity as real) * 100.0)
  }

  /** Factor 1 with an empty room holding an empty class counted as wasting nothing. */
  function CapacityTerm(capacity: int, limit: int): real {
    if capacity - limit < 0 then -1000.0
    else if capacity == 0 then 100.0
    else (1.0 - (capacity - limit) as real / capacity as real) * 100.0
  }

  /** The division fails exactly for a zero-capacity room and a class of at most zero students, the import defaults; elsewhere both agree. */
  lemma CapacityTermDivides(capacity: int, limit: int)
    ensures CapacityTermAsWritten(capacity, limit).None? <==> capacity == 0 && limit <= 0
    ensures CapacityTermAsWritten(capacity, limit).Some? ==> CapacityTermAsWritten(capacity, limit).value == CapacityTerm(capacity, limit)
  {
  }

  /** A room and class both left at the import's default size of 0. */
  lemma EmptyRoomFails()
    ensures CapacityTermAsWritten(0, 0).None?
    ensures CapacityTerm(0, 0) == 100.0
  {
  }

  /** A fitting room scores the filled share of its seats, in percent; a too-small one −1000. */
  lemma CapacityTermMeaning(capacity: int, limit: int)
    ensures capacity < limit ==> CapacityTerm(capacity, limit) == -1000.0
    ensures 0 < capacity && limit <= capacity ==> CapacityTerm(capacity, limit) * capacity as real == 100.0 * limit as real
    ensures 0 <= limit <= capacity ==> 0.0 <= CapacityTerm(capacity, limit) <= 100.0
  {
    if 0 < capacity && limit <= capacity {
      var c, l := capacity as real, limit as real;
      var w := (c - l) / c;
      assert w * c == c - l;
      assert (1.0 - w) * c == l;
      if 0 <= limit {
        assert 0.0 <= w <= 1.0;
      }
    }
  }

  /** Of two rooms that fit, the tighter one scores at least as high; any fitting room beats a too-small one. */
  lemma TighterIsBetter(c1: int, c2: int, limit: int)
    requires 0 <= limit <= c1 <= c2 && 0 < c1
    ensures CapacityTerm(c1, limit) >= CapacityTerm(c2, limit)
    ensures CapacityTerm(c1, limit) > CapacityTerm(limit - 1, limit)
  {
    CapacityTermMeaning(c1, limit);
    CapacityTermMeaning(c2, limit);
    var t1, t2 := CapacityTerm(c1, limit), CapacityTerm(c2, limit);
    var a, b := c1 as real, c2 as real;
    assert t1 * a == t2 * b;
    assert (b - a) * t2 >= 0.0;
    assert (t1 - t2) * a >= 0.0;
    NonNegativeFactor(t1 - t2, a);
  }

  lemma NonNegativeFactor(x: real, a: real)
    requires a > 0.0 && x * a >= 0.0
    ensures x >= 0.0
  {
  }

  /** The listed instructors already teaching in timeslot `tsId`, each counted per listing. */
  function Clashes(busy: InstructorOccupation, ids: seq<int>, tsId: int): (n: nat)
    ensures n <= |ids|
  {
    if |ids| == 0 then 0 else (if (ids[0], tsId) in busy then 1 else 0) + Clashes(busy, ids[1..], tsId)
  }

  /** No clash is counted exactly when the timeslot is free for all the instructors. */
  lemma {:induction false} ClashesFree(busy: InstructorOccupation, ids: seq<int>, tsId: int)
    ensures Clashes(busy, ids, tsId) == 0 <==> Free(busy, ids, tsId)
  {
    if |ids| > 0 {
      ClashesFree(busy, ids[1..], tsId);
      assert forall i :: 1 <= i < |ids| ==> ids[i] == ids[1..][i - 1];
    }
  }

  /** The rooms already holding a class in timeslot `tsId`. */
  function SlotUsage(occ: RoomOccupation, tsId: int): nat {
    |set k | k in occ && k.1 == tsId|
  }

  /** `_evaluate_assignment_quality`, with the corrected capacity factor. */
  function Quality(occ: RoomOccupation, busy: InstructorOccupation, ids: seq<int>, limit: int, room: Room, ts: TimeSlot): real {
    CapacityTerm(room.capacity, limit) - 500.0 * Clashes(busy, ids, ts.id) as real - 2.0 * SlotUsage(occ, ts.id) as real
  }

  /** `_evaluate_assignment_quality` as written; `None` where it raises. */
  function QualityAsWritten(occ: RoomOccupation, busy: InstructorOccupation, ids: seq<int>, limit: int, room: Room, ts: TimeSlot): Option<real> {
    match CapacityTermAsWritten(room.capacity, limit)
    case None => None
    case Some(t) => Some(t - 500.0 * Clashes(busy, ids, ts.id) as real - 2.0 * SlotUsage(occ, ts.id) as real)
  }

  /** The score in words: capacity fit, minus 500 per busy instructor and 2 per room in use at that time; it agrees with the source wherever that one returns. */
  lemma QualityMeaning(occ: RoomOccupation, busy: InstructorOccupation, ids: seq<int>, limit: int, room: Room, ts: TimeSlot)
    ensures Free(busy, ids, ts.id) && SlotUsage(occ, ts.id) == 0 ==> Quality(occ, busy, ids, limit, room, ts) == CapacityTerm(room.capacity, limit)
    ensures Quality(occ, busy, ids, limit, room, ts) <= CapacityTerm(room.capacity, limit)
    ensures !Free(busy, ids, ts.id) ==> Quality(occ, busy, ids, limit, room, ts) <= CapacityTerm(room.capacity, limit) - 500.0
    ensures QualityAsWritten(occ, busy, ids, limit, room, ts).Some? ==>
              QualityAsWritten(occ, busy, ids, limit, room, ts).value == Quality(occ, busy, ids, limit, room, ts)
  {
    ClashesFree(busy, ids, ts.id);
    CapacityTermDivides(room.capacity, limit);
  }

  // ------------------------------------------------------------ greedy construction

  /** A candidate placement. */
  type Spot = (Room, TimeSlot)

  /** The (room, timeslot) pairs of `room` whose room is still empty at that time. */
  function FreeIn(occ: RoomOccupation, room: Room, ts: seq<TimeSlot>): (r: seq<Spot>)
    ensures forall p :: p in r <==> p.0 == room && p.1 in ts && (room.id, p.1.id) !in occ
  {
    if |ts| == 0 then []
    else (if (room.id, ts[0].id) in occ then [] else [(room, ts[0])]) + FreeIn(occ, room, ts[1..])
  }

  /** The double loop's candidates: rooms outside, timeslots inside, skipping occupied pairs. */
  function FreePairs(occ: RoomOccupation, rooms: seq<Room>, ts: seq<TimeSlot>): (r: seq<Spot>)
    ensures forall p :: p in r <==> p.0 in rooms && p.1 in ts && (p.0.id, p.1.id) !in occ
  {
    if |rooms| == 0 then [] else FreeIn(occ, rooms[0], ts) + FreePairs(occ, rooms[1..], ts)
  }

  /** The loop's pick: the first candidate with the highest score, replacing only on a strictly higher one. */
  function Choose(ps: seq<Spot>, score: Spot -> real): (r: Option<Spot>)
    ensures r.None? <==> |ps| == 0
    ensures r.Some? ==> r.value in ps && forall p :: p in ps ==> score(p) <= score(r.value)
  {
    if |ps| == 0 then None
    else
      var b := Choose(ps[..|ps| - 1], score);
      var last := ps[|ps| - 1];
      assert forall p :: p in ps ==> p in ps[..|ps| - 1] || p == last;
      if b.None? || score(last) > score(b.value) then Some(last) else b
  }

  /** Among equally good candidates the earliest wins. */
  lemma {:induction false} ChooseEarliest(ps: seq<Spot>, score: Spot -> real) returns (k: nat)
    requires |ps| > 0
    ensures k < |ps| && Choose(ps, score) == Some(ps[k])
    ensures forall q :: 0 <= q < k ==> score(ps[q]) < score(ps[k])
  {
    var p := ps[..|ps| - 1];
    var b := Choose(p, score);
    if b.None? || score(ps[|ps| - 1]) > score(b.value) {
      k := |ps| - 1;
      if b.Some? {
        forall q | 0 <= q < k ensures score(ps[q]) < score(ps[k]) {
          assert ps[q] in p;
        }
      }
    } else {
      k := ChooseEarliest(p, score);
    }
  }

  /** The constructor's state: the schedule so far and both occupation tables. */
  datatype Greedy = Greedy(schedule: Schedule, occ: RoomOccupation, busy: InstructorOccupation)

  /** The heuristic score of each candidate pair in state `g`. */
  function PairScore(g: Greedy, ids: seq<int>, limit: int): Spot -> real {
    (p: Spot) => Quality(g.occ, g.busy, ids, limit, p.0, p.1)
  }

  /** The timeslots tried for a class: the valid ones, or all of them when none is valid. */
  function TriedSlots(g: Greedy, ids: seq<int>, ts: seq<TimeSlot>): (r: seq<TimeSlot>)
    ensures forall t :: t in r ==> t in ts
    ensures (exists t :: t in ts && Free(g.busy, ids, t.id)) ==> forall t :: t in r ==> Free(g.busy, ids, t.id)
  {
    var valid := ValidTimeslots(g.busy, ids, ts);
    if |valid| == 0 then ts else valid
  }

  /** The free (room, timeslot) pairs tried for class `c` in state `g`, in loop order. */
  function CandidatesFor(ctx: Context, ci: map<int, seq<int>>, g: Greedy, c: Class): seq<Spot> {
    FreePairs(g.occ, SuitableOrAll(ctx.rooms, c.limit), TriedSlots(g, InstructorsOf(ci, c.id), SlotsOf(ctx, c.id)))
  }

  /** Records class `cid` at spot `p` in the schedule and in both occupation tables. */
  function Occupy(g: Greedy, cid: int, ids: seq<int>, p: Spot): Greedy {
    Greedy(Dict.Put(g.schedule, cid, (p.0.id, p.1.id)),
           g.occ[(p.0.id, p.1.id) := cid],
           g.busy + set i | i in ids :: (i, p.1.id))
  }

  /** One class of the main loop: skipped without timeslots or without a free pair, else placed at the best pair. */
  function Place(ctx: Context, ci: map<int, seq<int>>, g: Greedy, c: Class): Greedy {
    if |SlotsOf(ctx, c.id)| == 0 then g
    else
      var ids := InstructorsOf(ci, c.id);
      match Choose(CandidatesFor(ctx, ci, g, c), PairScore(g, ids, c.limit))
      case None => g
      case Some(p) => Occupy(g, c.id, ids, p)
  }

  /**
   * A class is skipped exactly when it has no timeslots or no free pair is
   * left; otherwise it takes the first free pair of highest quality, in a
   * room large enough whenever one exists and a timeslot free for all its
   * instructors whenever one exists.
   */
  lemma PlaceBest(ctx: Context, ci: map<int, seq<int>>, g: Greedy, c: Class) returns (p: Option<Spot>)
    ensures p.None? <==> |SlotsOf(ctx, c.id)| == 0 || CandidatesFor(ctx, ci, g, c) == []
    ensures p.None? ==> Place(ctx, ci, g, c) == g
    ensures p.Some? ==>
      var ids := InstructorsOf(ci, c.id);
      p.value in CandidatesFor(ctx, ci, g, c) && Place(ctx, ci, g, c) == Occupy(g, c.id, ids, p.value) &&
      (forall q :: q in CandidatesFor(ctx, ci, g, c) ==> PairScore(g, ids, c.limit)(q) <= PairScore(g, ids, c.limit)(p.value)) &&
      (p.value.0.id, p.value.1.id) !in g.occ && p.value.1 in SlotsOf(ctx, c.id) && p.value.0 in ctx.rooms &&
      ((exists r :: r in ctx.rooms && r.capacity >= c.limit) ==> p.value.0.capacity >= c.limit) &&
      ((exists t :: t in SlotsOf(ctx, c.id) && Free(g.busy, ids, t.id)) ==> Free(g.busy, ids, p.value.1.id))
  {
    if |SlotsOf(ctx, c.id)| == 0 {
      p := None;
    } else {
      p := Choose(CandidatesFor(ctx, ci, g, c), PairScore(g, InstructorsOf(ci, c.id), c.limit));
    }
  }

  /** The loop over the classes in the given order. */
  function GreedyFrom(ctx: Context, ci: map<int, seq<int>>, cs: seq<Class>): Greedy {
    if |cs| == 0 then Greedy([], map[], {})
    else Place(ctx, ci, GreedyFrom(ctx, ci, cs[..|cs| - 1]), cs[|cs| - 1])
  }

  /** `greedy_construction`: the classes in priority order; `ci` holds each class's instructors. */
  function GreedyConstruction(ctx: Context, ci: map<int, seq<int>>): Schedule {
    GreedyFrom(ctx, ci, Prioritize(ctx, ctx.classes)).schedule
  }

  /** Some pair tried for class `c` in state `g` makes the source's quality score divide by zero. */
  predicate Raises(ctx: Context, ci: map<int, seq<int>>, g: Greedy, c: Class) {
    |SlotsOf(ctx, c.id)| > 0 &&
    exists p :: p in CandidatesFor(ctx, ci, g, c) && QualityAsWritten(g.occ, g.busy, InstructorsOf(ci, c.id), c.limit, p.0, p.1).None?
  }

  /** The loop as written: `None` once some class's candidate scoring raises, which ends the whole construction. */
  function GreedyFromAsWritten(ctx: Context, ci: map<int, seq<int>>, cs: seq<Class>): Option<Greedy> {
    if |cs| == 0 then Some(Greedy([], map[], {}))
    else
      match GreedyFromAsWritten(ctx, ci, cs[..|cs| - 1])
      case None => None
      case Some(g) => if Raises(ctx, ci, g, cs[|cs| - 1]) then None else Some(Place(ctx, ci, g, cs[|cs| - 1]))
  }

  /** `greedy_construction` as written: `None` where it raises `ZeroDivisionError`. */
  function GreedyConstructionAsWritten(ctx: Context, ci: map<int, seq<int>>): Option<Schedule> {
    match GreedyFromAsWritten(ctx, ci, Prioritize(ctx, ctx.classes))
    case None => None
    case Some(g) => Some(g.schedule)
  }

  /** A class of at most zero students offered a pair in a room with no seats. */
  predicate ZeroPair(ctx: Context, ci: map<int, seq<int>>, g: Greedy, c: Class) {
    |SlotsOf(ctx, c.id)| > 0 && c.limit <= 0 && exists p :: p in CandidatesFor(ctx, ci, g, c) && p.0.capacity == 0
  }

  /** The scoring raises for a class exactly when a seatless room is among its candidates and the class has at most zero students. */
  lemma RaisesExactly(ctx: Context, ci: map<int, seq<int>>, g: Greedy, c: Class)
    ensures Raises(ctx, ci, g, c) <==> ZeroPair(ctx, ci, g, c)
  {
    var ids := InstructorsOf(ci, c.id);
    forall p | p in CandidatesFor(ctx, ci, g, c)
      ensures QualityAsWritten(g.occ, g.busy, ids, c.limit, p.0, p.1).None? <==> p.0.capacity == 0 && c.limit <= 0
    {
      CapacityTermDivides(p.0.capacity, c.limit);
    }
  }

  /**
   * Wherever the source's construction returns it returns the corrected
   * one's schedule, and it returns whenever no room is seatless or every
   * class has a positive size.
   */
  lemma {:induction false} GreedyAsWrittenAgrees(ctx: Context, ci: map<int, seq<int>>, cs: seq<Class>)
    ensures GreedyFromAsWritten(ctx, ci, cs).Some? ==> GreedyFromAsWritten(ctx, ci, cs).value == GreedyFrom(ctx, ci, cs)
    ensures (forall r :: r in ctx.rooms ==> r.capacity != 0) || (forall k :: 0 <= k < |cs| ==> cs[k].limit > 0) ==>
              GreedyFromAsWritten(ctx, ci, cs) == Some(GreedyFrom(ctx, ci, cs))
  {
    if |cs| > 0 {
      var px := cs[..|cs| - 1];
      var c := cs[|cs| - 1];
      GreedyAsWrittenAgrees(ctx, ci, px);
      assert forall k :: 0 <= k < |px| ==> px[k] == cs[k];
      var r := GreedyFromAsWritten(ctx, ci, px);
      if r.Some? {
        RaisesExactly(ctx, ci, r.value, c);
        if ZeroPair(ctx, ci, r.value, c) {
          var p :| p in CandidatesFor(ctx, ci, r.value, c) && p.0.capacity == 0;
          assert p.0 in ctx.rooms;
        }
      }
    }
  }

  /** The whole construction: the source's result, when it returns, is the corrected schedule. */
  lemma GreedyConstructionAgrees(ctx: Context, ci: map<int, seq<int>>)
    ensures GreedyConstructionAsWritten(ctx, ci).Some? ==> GreedyConstructionAsWritten(ctx, ci).value == GreedyConstruction(ctx, ci)
    ensures (forall r :: r in ctx.rooms ==> r.capacity != 0) || (forall c :: c in ctx.classes ==> c.limit > 0) ==>
              GreedyConstructionAsWritten(ctx, ci) == Some(GreedyConstruction(ctx, ci))
  {
    var order := Prioritize(ctx, ctx.classes);
    PrioritizeFacts(ctx, ctx.classes);
    assert forall k :: 0 <= k < |order| ==> order[k] in multiset(ctx.classes);
    GreedyAsWrittenAgrees(ctx, ci, order);
  }

  /** One class and one room, both at the import's default size of 0. */
  const EmptyRoomCtx := Context([Class(1, 1, 0, None)], [Room(1, 1, 0)], map[1 := [TimeSlot(1, "1000000", 96, 12, 0.0)]])

  /** On that input the source's construction raises, while the corrected one places the class. */
  lemma EmptyRoomStopsGreedy()
    ensures GreedyConstructionAsWritten(EmptyRoomCtx, map[]).None?
    ensures GreedyConstruction(EmptyRoomCtx, map[]) == [(1, (1, 1))]
  {
    var ctx := EmptyRoomCtx;
    var c := Class(1, 1, 0, None);
    var room := Room(1, 1, 0);
    var t := TimeSlot(1, "1000000", 96, 12, 0.0);
    var g0 := Greedy([], map[], {});
    assert Prioritize(ctx, ctx.classes) == [c];
    assert CandidatesFor(ctx, map[], g0, c) == [(room, t)];
    assert QualityAsWritten(g0.occ, g0.busy, [], 0, room, t).None?;
    assert Raises(ctx, map[], g0, c);
    assert [c][..0] == [];
    assert GreedyFrom(ctx, map[], [c]) == Place(ctx, map[], g0, c);
  }

  /** Every scheduled pair is recorded as occupied by its own class. */
  predicate Consistent(g: Greedy) {
    Dict.Distinct(g.schedule) &&
    forall i :: 0 <= i < |g.schedule| ==> g.schedule[i].1 in g.occ && g.occ[g.schedule[i].1] == g.schedule[i].0
  }

  /** Pair `p` is one of `c`'s own timeslots in one of the rooms tried for `c`. */
  predicate Placeable(ctx: Context, c: Class, p: (int, int)) {
    exists room, t :: room in SuitableOrAll(ctx.rooms, c.limit) && t in SlotsOf(ctx, c.id) && room.id == p.0 && t.id == p.1
  }

  /** Entry `e` places some class of `cs` at a pair that class may use. */
  predicate FromClass(ctx: Context, cs: seq<Class>, e: (int, (int, int))) {
    exists c :: c in cs && c.id == e.0 && Placeable(ctx, c, e.1)
  }

  /** Placing one class keeps the schedule consistent and adds only an allowed pair for that class. */
  lemma PlaceFacts(ctx: Context, ci: map<int, seq<int>>, g: Greedy, c: Class)
    requires Consistent(g)
    ensures Consistent(Place(ctx, ci, g, c))
    ensures forall e :: e in Place(ctx, ci, g, c).schedule ==> e in g.schedule || (e.0 == c.id && Placeable(ctx, c, e.1))
  {
    var ids := InstructorsOf(ci, c.id);
    if |SlotsOf(ctx, c.id)| > 0 {
      var ch := Choose(CandidatesFor(ctx, ci, g, c), PairScore(g, ids, c.limit));
      if ch.Some? {
        var p := ch.value;
        var q := (p.0.id, p.1.id);
        assert Place(ctx, ci, g, c) == Occupy(g, c.id, ids, p);
        assert q !in g.occ;
        OccupyConsistent(g, c.id, ids, p);
        assert Placeable(ctx, c, q);
      }
    }
  }

  /** Occupying a free pair keeps the tables consistent and adds only that class's entry. */
  lemma OccupyConsistent(g: Greedy, cid: int, ids: seq<int>, p: Spot)
    requires Consistent(g) && (p.0.id, p.1.id) !in g.occ
    ensures Consistent(Occupy(g, cid, ids, p))
    ensures forall e :: e in Occupy(g, cid, ids, p).schedule ==> e in g.schedule || e == (cid, (p.0.id, p.1.id))
  {
    var q := (p.0.id, p.1.id);
    var r := Occupy(g, cid, ids, p);
    Dict.PutDistinct(g.schedule, cid, q);
    Dict.PutEntries(g.schedule, cid, q);
    forall i | 0 <= i < |r.schedule| ensures r.schedule[i].1 in r.occ && r.occ[r.schedule[i].1] == r.schedule[i].0 {
      var e := r.schedule[i];
      assert e in r.schedule;
      if e != (cid, q) {
        var j :| 0 <= j < |g.schedule| && g.schedule[j] == e;
        assert e.1 != q;
      }
    }
  }

  /** The loop's invariant over any class order. */
  lemma {:induction false} GreedyFromFacts(ctx: Context, ci: map<int, seq<int>>, cs: seq<Class>)
    ensures Consistent(GreedyFrom(ctx, ci, cs))
    ensures forall e :: e in GreedyFrom(ctx, ci, cs).schedule ==> FromClass(ctx, cs, e)
  {
    if |cs| > 0 {
      var p := cs[..|cs| - 1];
      var g := GreedyFrom(ctx, ci, p);
      GreedyFromFacts(ctx, ci, p);
      PlaceFacts(ctx, ci, g, cs[|cs| - 1]);
      forall e | e in GreedyFrom(ctx, ci, cs).schedule ensures FromClass(ctx, cs, e) {
        if e in g.schedule {
          var c :| c in p && c.id == e.0 && Placeable(ctx, c, e.1);
          assert c in cs;
        } else {
          assert cs[|cs| - 1] in cs;
        }
      }
    }
  }

  /**
   * The constructed schedule never puts two classes in the same room at the
   * same timeslot; each class appears once, in one of its own timeslots and
   * in a room tried for it (an adequate one whenever one exists); classes
   * without timeslots are left out.
   */
  lemma GreedyConstructionFacts(ctx: Context, ci: map<int, seq<int>>)
    ensures Dict.Distinct(GreedyConstruction(ctx, ci))
    ensures var s := GreedyConstruction(ctx, ci);
      forall i, j :: 0 <= i < j < |s| ==> s[i].1 != s[j].1
    ensures forall e :: e in GreedyConstruction(ctx, ci) ==> FromClass(ctx, ctx.classes, e)
    ensures forall c :: c in ctx.classes && |SlotsOf(ctx, c.id)| == 0 ==> c.id !in Dict.Keys(GreedyConstruction(ctx, ci))
  {
    var order := Prioritize(ctx, ctx.classes);
    var g := GreedyFrom(ctx, ci, order);
    var s := g.schedule;
    GreedyFromFacts(ctx, ci, order);
    PrioritizeFacts(ctx, ctx.classes);
    forall i, j | 0 <= i < j < |s| ensures s[i].1 != s[j].1 {
      assert g.occ[s[i].1] == s[i].0 && g.occ[s[j].1] == s[j].0;
    }
    forall e | e in s ensures FromClass(ctx, ctx.classes, e) {
      var c :| c in order && c.id == e.0 && Placeable(ctx, c, e.1);
      assert c in multiset(order);
    }
    forall c | c in ctx.classes && c.id in Dict.Keys(s) ensures |SlotsOf(ctx, c.id)| > 0 {
      var i :| 0 <= i < |s| && Dict.Keys(s)[i] == c.id;
      assert s[i] in s;
      var c' :| c' in ctx.classes && c'.id == s[i].0 && Placeable(ctx, c', s[i].1);
      var room, t :| room in SuitableOrAll(ctx.rooms, c'.limit) && t in SlotsOf(ctx, c'.id) && room.id == s[i].1.0 && t.id == s[i].1.1;
    }
  }

  // ------------------------------------------------------------ violations

  /** A room conflict: the classes sharing one (room, timeslot) gene value. */
  datatype Violation = Violation(roomId: Option<int>, timeslotId: Option<int>, classIds: seq<int>)

  /** `room_slots[(room_id, timeslot_id)].append(class_id)`'s input, gene by gene. */
  function GenePairs(genes: Genes): (r: seq<((Option<int>, Option<int>), int)>)
    ensures |r| == |genes|
    ensures forall i :: 0 <= i < |genes| ==> r[i] == ((genes[i].1.room, genes[i].1.slot), genes[i].0)
  {
    if |genes| == 0 then [] else [((genes[0].1.room, genes[0].1.slot), genes[0].0)] + GenePairs(genes[1..])
  }

  function ToViolations(gs: seq<Group<(Option<int>, Option<int>), int>>): (r: seq<Violation>)
    ensures |r| == |gs|
    ensures forall i :: 0 <= i < |gs| ==> r[i] == Violation(gs[i].key.0, gs[i].key.1, gs[i].members)
  {
    if |gs| == 0 then [] else [Violation(gs[0].key.0, gs[0].key.1, gs[0].members)] + ToViolations(gs[1..])
  }

  /** `_get_violations_from_fitness`. */
  function Violations(genes: Genes): (r: seq<Violation>)
    ensures forall i :: 0 <= i < |r| ==> |r[i].classIds| >= 2
  {
    ToViolations(Crowded(GroupBy(GenePairs(genes))))
  }

  predicate Flagged(vs: seq<Violation>, room: Option<int>, slot: Option<int>) {
    exists i :: 0 <= i < |vs| && vs[i].roomId == room && vs[i].timeslotId == slot
  }

  /** Each violation lists, in gene order, exactly the classes holding its gene value, at least two of them. */
  lemma ViolationsMembers(genes: Genes)
    ensures var vs := Violations(genes);
      forall i :: 0 <= i < |vs| ==>
        |vs[i].classIds| >= 2 && vs[i].classIds == MembersOf(GenePairs(genes), (vs[i].roomId, vs[i].timeslotId))
  {
    var ps := GenePairs(genes);
    var c := Crowded(GroupBy(ps));
    var vs := Violations(genes);
    CrowdedCorrect(ps);
    forall i | 0 <= i < |vs| ensures vs[i].classIds == MembersOf(GenePairs(genes), (vs[i].roomId, vs[i].timeslotId)) {
      assert vs[i].classIds == c[i].members && (vs[i].roomId, vs[i].timeslotId) == c[i].key;
      assert c[i].members == MembersOf(ps, c[i].key);
    }
  }

  /** A gene value is flagged exactly when two or more classes hold it. */
  lemma ViolationsFlagged(genes: Genes, room: Option<int>, slot: Option<int>)
    ensures Flagged(Violations(genes), room, slot) <==> KeyCount(GenePairs(genes), (room, slot)) >= 2
  {
    var ps := GenePairs(genes);
    var c := Crowded(GroupBy(ps));
    var vs := Violations(genes);
    CrowdedKey(ps, (room, slot));
    KeysIndex(c, (room, slot));
    if Flagged(vs, room, slot) {
      var i :| 0 <= i < |vs| && vs[i].roomId == room && vs[i].timeslotId == slot;
      assert c[i].key == (room, slot);
    }
  }

  /** No gene value is reported twice. */
  lemma ViolationsDistinct(genes: Genes)
    ensures var vs := Violations(genes);
      forall i, j :: 0 <= i < j < |vs| ==> (vs[i].roomId, vs[i].timeslotId) != (vs[j].roomId, vs[j].timeslotId)
  {
    var c := Crowded(GroupBy(GenePairs(genes)));
    CrowdedDistinct(GenePairs(genes));
    assert forall i, j :: 0 <= i < j < |c| ==> c[i].key != c[j].key;
  }

  /** There are no violations exactly when no two classes share a gene value. */
  lemma ViolationsEmpty(genes: Genes)
    ensures Violations(genes) == [] <==> forall i, j :: 0 <= i < j < |genes| ==> genes[i].1 != genes[j].1
  {
    var ps := GenePairs(genes);
    CrowdedCorrect(ps);
    assert forall i, j :: 0 <= i < j < |genes| ==> (ps[i].0 == ps[j].0 <==> genes[i].1 == genes[j].1);
  }

  /** The crowded groups of a grouping carry pairwise different keys. */
  lemma CrowdedDistinct<K, V>(ps: seq<(K, V)>)
    ensures DistinctKeys(Crowded(GroupBy(ps)))
  {
    GroupByCorrect(ps);
    CrowdedKeepsDistinct(GroupBy(ps));
  }

  lemma {:induction false} CrowdedKeepsDistinct<K, V>(gs: seq<Group<K, V>>)
    requires DistinctKeys(gs)
    ensures DistinctKeys(Crowded(gs))
  {
    if |gs| > 0 {
      assert DistinctKeys(gs[1..]);
      CrowdedKeepsDistinct(gs[1..]);
      var rest := Crowded(gs[1..]);
      forall g | g in rest ensures g.key != gs[0].key {
        CrowdedIndex(gs[1..], g);
      }
    }
  }

  // ------------------------------------------------------------ local search

  /** The search's random choices for one iteration: which violation, then which of its classes. */
  datatype SearchDraw = SearchDraw(violationPick: nat, classPick: nat)

  /** `xs[:n]`. */
  function Take<T>(xs: seq<T>, n: nat): (r: seq<T>)
    ensures |r| == Min(n, |xs|) && forall i :: 0 <= i < |r| ==> r[i] == xs[i]
  {
    xs[..Min(n, |xs|)]
  }

  /** The probe limit on rooms and on timeslots. */
  const ProbeLimit: nat := 10

  function Row(room: Room, ts: seq<TimeSlot>): (r: seq<(int, int)>)
    ensures forall p :: p in r <==> exists t :: t in ts && p == (room.id, t.id)
  {
    if |ts| == 0 then [] else [(room.id, ts[0].id)] + Row(room, ts[1..])
  }

  /** Pair `p` names one of `rooms` and one of `ts`. */
  predicate Combines(rooms: seq<Room>, ts: seq<TimeSlot>, p: (int, int)) {
    exists room, t :: room in rooms && t in ts && p == (room.id, t.id)
  }

  /** Every (room, timeslot) pair, rooms outside. */
  function Pairs(rooms: seq<Room>, ts: seq<TimeSlot>): (r: seq<(int, int)>)
    ensures forall p :: p in r <==> Combines(rooms, ts, p)
  {
    if |rooms| == 0 then []
    else
      var r := Row(rooms[0], ts) + Pairs(rooms[1..], ts);
      assert forall p :: Combines(rooms, ts, p) ==> p in Row(rooms[0], ts) || Combines(rooms[1..], ts, p);
      r
  }

  /** The alternatives tried for a class: its first ten adequate rooms (no fallback) by its first ten timeslots. */
  function Alternatives(ctx: Context, c: Class): seq<(int, int)> {
    Pairs(Take(Suitable(ctx.rooms, c.limit), ProbeLimit), Take(SlotsOf(ctx, c.id), ProbeLimit))
  }

  function GeneAt(p: (int, int)): Gene {
    Constraints.Gene(Some(p.0), Some(p.1))
  }

  /**
   * The genes with class `cid` moved to pair `p`. The source writes every
   * probe into the same dictionary entry without restoring it in between;
   * since each write replaces the previous one in place (`Dict.PutPut`), the
   * probed genes are always this.
   */
  function Trial(genes: Genes, cid: int, p: (int, int)): Genes {
    Dict.Put(genes, cid, GeneAt(p))
  }

  /** The probe loop: the first alternative with the highest fitness, if strictly above `current`. */
  function BestAlternative(fit: Genes -> real, genes: Genes, cid: int, alts: seq<(int, int)>, current: real): (r: Option<((int, int), real)>)
    ensures r.Some? ==> r.value.0 in alts && r.value.1 == fit(Trial(genes, cid, r.value.0)) && r.value.1 > current
    ensures r.Some? ==> forall a :: a in alts ==> fit(Trial(genes, cid, a)) <= r.value.1
    ensures r.None? <==> forall a :: a in alts ==> fit(Trial(genes, cid, a)) <= current
  {
    if |alts| == 0 then None
    else
      var b := BestAlternative(fit, genes, cid, alts[..|alts| - 1], current);
      var last := alts[|alts| - 1];
      var f := fit(Trial(genes, cid, last));
      assert forall a :: a in alts ==> a in alts[..|alts| - 1] || a == last;
      if f > (if b.Some? then b.value.1 else current) then Some((last, f)) else b
  }

  /** One iteration on genes with at least one violation: the moved genes and the new current fitness. */
  function SearchStep(ctx: Context, fit: Genes -> real, genes: Genes, current: real, d: SearchDraw): (Genes, real)
    requires Violations(genes) != []
  {
    var vs := Violations(genes);
    var v := vs[d.violationPick % |vs|];
    var cid := v.classIds[d.classPick % |v.classIds|];
    match (Dict.Get(genes, cid), FindClass(ctx.classes, cid))
    case (Some(original), Some(c)) =>
      (match BestAlternative(fit, genes, cid, Alternatives(ctx, c), current)
       case Some((p, f)) => (Trial(genes, cid, p), f)
       case None => (Dict.Put(genes, cid, original), current))
    case _ => (genes, current)
  }

  /** The iterations left, stopping early once no violation remains. */
  function Search(ctx: Context, fit: Genes -> real, genes: Genes, current: real, draws: seq<SearchDraw>): (Genes, real)
    decreases |draws|
  {
    if |draws| == 0 || Violations(genes) == [] then (genes, current)
    else
      var next := SearchStep(ctx, fit, genes, current, draws[0]);
      Search(ctx, fit, next.0, next.1, draws[1..])
  }

  /** `local_search_conflicts` with `max_iterations == |draws|`. */
  function LocalSearch(ctx: Context, fit: Genes -> real, x: Individual, draws: seq<SearchDraw>): Individual {
    var r := Search(ctx, fit, x.genes, x.fitness, draws);
    Individual(r.0, r.1)
  }

  /** Restoring the original gene gives back the genes the iteration started from. */
  lemma RestoreIsIdentity(genes: Genes, cid: int, original: Gene, probes: seq<(int, int)>)
    requires Dict.Get(genes, cid) == Some(original)
    ensures Dict.Put(ProbeAll(genes, cid, probes), cid, original) == genes
  {
    ProbeAllPut(genes, cid, probes, original);
    Dict.PutSame(genes, cid, original);
  }

  /** The genes after writing every probe in turn into the entry of `cid`. */
  function ProbeAll(genes: Genes, cid: int, probes: seq<(int, int)>): Genes
    decreases |probes|
  {
    if |probes| == 0 then genes else ProbeAll(Trial(genes, cid, probes[0]), cid, probes[1..])
  }

  lemma {:induction false} ProbeAllPut(genes: Genes, cid: int, probes: seq<(int, int)>, v: Gene)
    ensures Dict.Put(ProbeAll(genes, cid, probes), cid, v) == Dict.Put(genes, cid, v)
    decreases |probes|
  {
    if |probes| > 0 {
      ProbeAllPut(Trial(genes, cid, probes[0]), cid, probes[1..], v);
      Dict.PutPut(genes, cid, GeneAt(probes[0]), v);
    }
  }

  /**
   * One iteration either changes nothing or moves a class to a strictly
   * better assignment whose fitness becomes current; the classes and their
   * order never change.
   */
  lemma SearchStepFacts(ctx: Context, fit: Genes -> real, genes: Genes, current: real, d: SearchDraw)
    requires Violations(genes) != []
    ensures var r := SearchStep(ctx, fit, genes, current, d);
      (r == (genes, current)) || (r.1 > current && r.1 == fit(r.0))
    ensures Dict.Keys(SearchStep(ctx, fit, genes, current, d).0) == Dict.Keys(genes)
  {
    var vs := Violations(genes);
    var v := vs[d.violationPick % |vs|];
    var cid := v.classIds[d.classPick % |v.classIds|];
    var o := Dict.Get(genes, cid);
    if o.Some? {
      Dict.PutFacts(genes, cid, o.value);
      var fc := FindClass(ctx.classes, cid);
      if fc.Some? {
        var b := BestAlternative(fit, genes, cid, Alternatives(ctx, fc.value), current);
        if b.Some? {
          Dict.PutFacts(genes, cid, GeneAt(b.value.0));
        } else {
          Dict.PutSame(genes, cid, o.value);
        }
      }
    }
  }

  lemma {:induction false} SearchFacts(ctx: Context, fit: Genes -> real, genes: Genes, current: real, draws: seq<SearchDraw>)
    ensures Search(ctx, fit, genes, current, draws).1 >= current
    ensures Dict.Keys(Search(ctx, fit, genes, current, draws).0) == Dict.Keys(genes)
    ensures current == fit(genes) ==> Search(ctx, fit, genes, current, draws).1 == fit(Search(ctx, fit, genes, current, draws).0)
    decreases |draws|
  {
    if |draws| > 0 && Violations(genes) != [] {
      var next := SearchStep(ctx, fit, genes, current, draws[0]);
      SearchStepFacts(ctx, fit, genes, current, draws[0]);
      SearchFacts(ctx, fit, next.0, next.1, draws[1..]);
    }
  }

  /**
   * The local search never lowers the fitness, keeps every class and its
   * position, and leaves a fitness that is the fitness of its genes whenever
   * the one it started from was.
   */
  lemma LocalSearchFacts(ctx: Context, fit: Genes -> real, x: Individual, draws: seq<SearchDraw>)
    ensures LocalSearch(ctx, fit, x, draws).fitness >= x.fitness
    ensures Dict.Keys(LocalSearch(ctx, fit, x, draws).genes) == Dict.Keys(x.genes)
    ensures x.fitness == fit(x.genes) ==> LocalSearch(ctx, fit, x, draws).fitness == fit(LocalSearch(ctx, fit, x, draws).genes)
  {
    SearchFacts(ctx, fit, x.genes, x.fitness, draws);
  }

  /** A schedule without room conflicts is returned as it is. */
  lemma NoViolationsNoChange(ctx: Context, fit: Genes -> real, x: Individual, draws: seq<SearchDraw>)
    requires forall i, j :: 0 <= i < j < |x.genes| ==> x.genes[i].1 != x.genes[j].1
    ensures LocalSearch(ctx, fit, x, draws) == x
  {
    ViolationsEmpty(x.genes);
  }
}
