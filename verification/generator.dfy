/**
 * The schedule generator's preparation and persistence rules: the default
 * weekly timeslot grid, the filtering of classes, instructors and rooms
 * before a run, the placeholder-instructor ids, and how the genes of the
 * best solution become stored assignments.
 */
module Generator {
  import opened Util
  import opened Records
  import opened TimeSlots
  import opened Overlap
  import Constraints

  // ------------------------------------------------------------ default timeslots

  /** Python's `range(lo, hi, step)` for a positive step. */
  function Range(lo: int, hi: int, step: int): seq<int>
    requires step > 0
    decreases hi - lo
  {
    if lo >= hi then [] else [lo] + Range(lo + step, hi, step)
  }

  /** The range holds `lo + step·i` for consecutive `i`, each below `hi`, up to the first one that reaches it. */
  lemma {:induction false} RangeFacts(lo: int, hi: int, step: int)
    requires step > 0
    ensures forall i :: 0 <= i < |Range(lo, hi, step)| ==> Range(lo, hi, step)[i] == lo + step * i < hi
    ensures lo + step * |Range(lo, hi, step)| >= hi
    decreases hi - lo
  {
    if lo < hi {
      var r := Range(lo + step, hi, step);
      RangeFacts(lo + step, hi, step);
      assert Range(lo, hi, step) == [lo] + r;
      forall i | 1 <= i < |r| + 1 ensures Range(lo, hi, step)[i] == lo + step * i {
        assert Range(lo, hi, step)[i] == r[i - 1];
        assert step * (i - 1) + step == step * i;
      }
      assert step * |r| + step == step * (|r| + 1);
    }
  }

  /** Monday to Friday, one day per pattern. */
  const DayPatterns: seq<string> := ["1000000", "0100000", "0010000", "0001000", "0000100"]

  /** 8:00, 18:00 and one hour, in 5-minute units. */
  const FirstStart := 96
  const DayEnd := 216
  const HourLength := 12

  /** A timeslot not yet written to the database has no id (Python's `None`, falsy like the 0 used here). */
  const Unsaved := 0

  /** `list(range(96, 216, 12))`. */
  function StartTimes(): seq<int> {
    Range(FirstStart, DayEnd, HourLength)
  }

  lemma StartTimesFacts()
    ensures |StartTimes()| == 10
    ensures forall i :: 0 <= i < 10 ==> StartTimes()[i] == FirstStart + HourLength * i
  {
    RangeFacts(FirstStart, DayEnd, HourLength);
  }

  /** The i-th default slot: pattern i / 10 at the (i mod 10)-th hour. */
  function GridSlot(i: nat): TimeSlot
    requires i < 50
  {
    TimeSlot(Unsaved, DayPatterns[i / 10], FirstStart + HourLength * (i % 10), HourLength, 0.0)
  }

  /** `_create_default_timeslots`: every day pattern with every start, days outside. */
  method CreateDefaultTimeslots() returns (r: seq<TimeSlot>)
    ensures |r| == 50
    ensures forall i :: 0 <= i < |r| ==> r[i] == GridSlot(i)
  {
    var starts := StartTimes();
    StartTimesFacts();
    r := [];
    var d := 0;
    while d < |DayPatterns|
      invariant 0 <= d <= |DayPatterns|
      invariant |r| == 10 * d
      invariant forall i :: 0 <= i < |r| ==> r[i] == GridSlot(i)
    {
      var k := 0;
      while k < |starts|
        invariant 0 <= k <= |starts|
        invariant |r| == 10 * d + k
        invariant forall i :: 0 <= i < |r| ==> r[i] == GridSlot(i)
      {
        assert (10 * d + k) / 10 == d && (10 * d + k) % 10 == k;
        r := r + [TimeSlot(Unsaved, DayPatterns[d], starts[k], HourLength, 0.0)];
        k := k + 1;
      }
      d := d + 1;
    }
  }

  /** Pattern `a` marks weekday `a` and no other. */
  lemma PatternShape(a: nat)
    requires a < |DayPatterns|
    ensures |DayPatterns[a]| == 7
    ensures forall k :: 0 <= k < 7 ==> (DayPatterns[a][k] == '1' <==> k == a)
  {
  }

  /** A slot as the overlap test sees it. */
  function AsSlot(t: TimeSlot): Slot {
    Slot(t.days, t.start, t.start + t.length)
  }

  /**
   * The default grid: each slot is one hour on exactly one weekday from
   * Monday to Friday, inside 8:00–18:00, unsaved and without preference,
   * and no two of them overlap.
   */
  lemma DefaultGridFacts()
    ensures forall i :: 0 <= i < 50 ==> forall k :: 0 <= k < |GridSlot(i).days| ==> (GridSlot(i).days[k] == '1' <==> k == i / 10)
    ensures forall i :: 0 <= i < 50 ==> FirstStart <= GridSlot(i).start && GridSlot(i).start + GridSlot(i).length <= DayEnd
    ensures forall i, j :: 0 <= i < j < 50 ==> !Overlaps(AsSlot(GridSlot(i)), AsSlot(GridSlot(j)))
  {
    forall i | 0 <= i < 50 ensures forall k :: 0 <= k < |GridSlot(i).days| ==> (GridSlot(i).days[k] == '1' <==> k == i / 10) {
      PatternShape(i / 10);
    }
    forall i, j | 0 <= i < j < 50 ensures !Overlaps(AsSlot(GridSlot(i)), AsSlot(GridSlot(j))) {
      var a, b := i / 10, j / 10;
      PatternShape(a);
      PatternShape(b);
      if a == b {
        assert i % 10 < j % 10;
      } else {
        assert !SharesDay(DayPatterns[a], DayPatterns[b]);
      }
    }
  }

  // ------------------------------------------------------------ loading

  /** An instructor row: database id and import id. */
  datatype Instructor = Instructor(id: int, xmlId: int)

  /** The import id of the shared placeholder instructor, which the filler never hands out. */
  const SharedInstructorXmlId := 999999

  /** The stored timeslots of class `c`. */
  function DbSlots(db: map<int, seq<TimeSlot>>, c: int): seq<TimeSlot> {
    if c in db then db[c] else []
  }

  /** Filter 1: the classes with at least one stored timeslot. */
  function WithSlots(all: seq<Class>, db: map<int, seq<TimeSlot>>): (r: seq<Class>)
    ensures forall c :: c in r <==> c in all && |DbSlots(db, c.id)| > 0
  {
    if |all| == 0 then []
    else (if |DbSlots(db, all[0].id)| > 0 then [all[0]] else []) + WithSlots(all[1..], db)
  }

  lemma {:induction false} WithSlotsOrder(all: seq<Class>, db: map<int, seq<TimeSlot>>)
    ensures Subsequence(WithSlots(all, db), all)
  {
    if |all| > 0 {
      var rest := WithSlots(all[1..], db);
      WithSlotsOrder(all[1..], db);
      var r := WithSlots(all, db);
      if |DbSlots(db, all[0].id)| > 0 {
        assert r == [all[0]] + rest;
        assert r[0] == all[0] && r[1..] == rest;
      } else {
        assert r == rest;
      }
    }
  }

  /** `time_slots_by_class` as filled by filter 1. */
  function SlotTable(classes: seq<Class>, db: map<int, seq<TimeSlot>>): map<int, seq<TimeSlot>> {
    map c | c in classes :: c.id := DbSlots(db, c.id)
  }

  /** The classes that already have an instructor link. */
  function Staffed(links: set<(int, int)>): set<int> {
    set p | p in links :: p.0
  }

  /** The kept classes without an instructor. */
  function Unstaffed(classes: seq<Class>, links: set<(int, int)>): (r: seq<Class>)
    ensures forall c :: c in r <==> c in classes && c.id !in Staffed(links)
  {
    if |classes| == 0 then []
    else (if classes[0].id !in Staffed(links) then [classes[0]] else []) + Unstaffed(classes[1..], links)
  }

  /** `Instructor.objects.exclude(xml_id=999999)`. */
  function RealInstructors(ins: seq<Instructor>): (r: seq<Instructor>)
    ensures forall x :: x in r <==> x in ins && x.xmlId != SharedInstructorXmlId
  {
    if |ins| == 0 then []
    else (if ins[0].xmlId != SharedInstructorXmlId then [ins[0]] else []) + RealInstructors(ins[1..])
  }

  /** The i-th class without an instructor gets instructor i mod n. */
  function RoundRobin(cs: seq<Class>, ins: seq<Instructor>): set<(int, int)>
    requires |ins| > 0
  {
    set i | 0 <= i < |cs| :: (cs[i].id, ins[i % |ins|].id)
  }

  /** `min((c.class_limit for c in classes), default=0)`. */
  function MinLimit(classes: seq<Class>): (m: int)
    ensures |classes| == 0 ==> m == 0
    ensures |classes| > 0 ==> (exists c :: c in classes && c.limit == m) && forall c :: c in classes ==> m <= c.limit
  {
    if |classes| == 0 then 0
    else if |classes| == 1 then classes[0].limit
    else
      var rest := MinLimit(classes[1..]);
      assert forall c :: c in classes ==> c == classes[0] || c in classes[1..];
      Min(classes[0].limit, rest)
  }

  /** What a successful load hands to the run. */
  datatype Prepared = Prepared(classes: seq<Class>, slots: map<int, seq<TimeSlot>>, links: set<(int, int)>, rooms: seq<Room>)

  /**
   * `load_data`'s outcome: the prepared data, the exit for want of
   * instructors, or one of its two errors, each carrying the instructor links
   * stored before it was raised.
   */
  datatype LoadResult = Ready(data: Prepared) | NoInstructors | NoClasses(saved: set<(int, int)>) | NoRooms(saved: set<(int, int)>)

  /** `load_data` over the stored classes, timeslots, instructor links, instructors and rooms. */
  function LoadData(all: seq<Class>, db: map<int, seq<TimeSlot>>, links: set<(int, int)>, ins: seq<Instructor>, rooms: seq<Room>): LoadResult {
    var classes := WithSlots(all, db);
    var missing := Unstaffed(classes, links);
    var staff := RealInstructors(ins);
    if |missing| > 0 && |staff| == 0 then NoInstructors
    else
      var filled := if |missing| == 0 then links else links + RoundRobin(missing, staff);
      var useful := Suitable(rooms, MinLimit(classes));
      if |classes| == 0 then NoClasses(filled)
      else if |useful| == 0 then NoRooms(filled)
      else Ready(Prepared(classes, SlotTable(classes, db), filled, useful))
  }

  /** Some stored class has a timeslot but no instructor. */
  predicate NeedsInstructor(all: seq<Class>, db: map<int, seq<TimeSlot>>, links: set<(int, int)>) {
    exists c :: c in all && |DbSlots(db, c.id)| > 0 && c.id !in Staffed(links)
  }

  lemma NonEmptyMember<T>(s: seq<T>)
    ensures |s| > 0 <==> exists x :: x in s
  {
    if |s| > 0 {
      assert s[0] in s;
    }
  }

  /**
   * The load stops for want of instructors exactly when a schedulable class
   * lacks one and every stored instructor is the shared placeholder; it then
   * fails when no class has a timeslot, and then when no room seats the
   * smallest schedulable class.
   */
  lemma LoadOutcomes(all: seq<Class>, db: map<int, seq<TimeSlot>>, links: set<(int, int)>, ins: seq<Instructor>, rooms: seq<Room>)
    ensures LoadData(all, db, links, ins, rooms).NoInstructors? <==>
              NeedsInstructor(all, db, links) && forall x :: x in ins ==> x.xmlId == SharedInstructorXmlId
    ensures LoadData(all, db, links, ins, rooms).NoClasses? <==>
              !LoadData(all, db, links, ins, rooms).NoInstructors? && forall c :: c in all ==> |DbSlots(db, c.id)| == 0
    ensures LoadData(all, db, links, ins, rooms).NoRooms? <==>
              !LoadData(all, db, links, ins, rooms).NoInstructors? && (exists c :: c in all && |DbSlots(db, c.id)| > 0) &&
              forall r :: r in rooms ==> r.capacity < MinLimit(WithSlots(all, db))
  {
    var classes := WithSlots(all, db);
    NonEmptyMember(classes);
    NonEmptyMember(Unstaffed(classes, links));
    NonEmptyMember(RealInstructors(ins));
    NonEmptyMember(Suitable(rooms, MinLimit(classes)));
  }

  /** A successful load keeps exactly the classes with timeslots, in order, each with its stored timeslots. */
  lemma LoadKeepsClasses(all: seq<Class>, db: map<int, seq<TimeSlot>>, links: set<(int, int)>, ins: seq<Instructor>, rooms: seq<Room>)
    requires LoadData(all, db, links, ins, rooms).Ready?
    ensures var p := LoadData(all, db, links, ins, rooms).data;
      (forall c :: c in p.classes <==> c in all && |DbSlots(db, c.id)| > 0) && Subsequence(p.classes, all) &&
      (forall c :: c in p.classes ==> c.id in p.slots && p.slots[c.id] == DbSlots(db, c.id)) &&
      (forall id :: id in p.slots ==> |p.slots[id]| > 0 && exists c :: c in p.classes && c.id == id)
  {
    WithSlotsOrder(all, db);
  }

  /** The links a successful load hands on: the stored ones, plus the round-robin ones when a kept class lacks an instructor. */
  lemma LoadLinks(all: seq<Class>, db: map<int, seq<TimeSlot>>, links: set<(int, int)>, ins: seq<Instructor>, rooms: seq<Room>)
    requires LoadData(all, db, links, ins, rooms).Ready?
    ensures var missing, staff := Unstaffed(WithSlots(all, db), links), RealInstructors(ins);
      (|missing| > 0 ==> |staff| > 0) &&
      LoadData(all, db, links, ins, rooms).data.classes == WithSlots(all, db) &&
      LoadData(all, db, links, ins, rooms).data.links == if |missing| == 0 then links else links + RoundRobin(missing, staff)
  {
  }

  /**
   * The round-robin links are stored before either error is raised: a failed
   * load leaves the stored links plus the round-robin ones behind, with every
   * schedulable class staffed; without schedulable classes nothing is added.
   */
  lemma LoadErrorKeepsLinks(all: seq<Class>, db: map<int, seq<TimeSlot>>, links: set<(int, int)>, ins: seq<Instructor>, rooms: seq<Room>)
    requires LoadData(all, db, links, ins, rooms).NoClasses? || LoadData(all, db, links, ins, rooms).NoRooms?
    ensures var missing, staff := Unstaffed(WithSlots(all, db), links), RealInstructors(ins);
      (|missing| > 0 ==> |staff| > 0) &&
      LoadData(all, db, links, ins, rooms).saved == (if |missing| == 0 then links else links + RoundRobin(missing, staff))
    ensures links <= LoadData(all, db, links, ins, rooms).saved
    ensures forall c :: c in WithSlots(all, db) ==> c.id in Staffed(LoadData(all, db, links, ins, rooms).saved)
    ensures LoadData(all, db, links, ins, rooms).NoClasses? ==> LoadData(all, db, links, ins, rooms).saved == links
  {
    var classes := WithSlots(all, db);
    var missing := Unstaffed(classes, links);
    FillStaffsAll(classes, links, missing, RealInstructors(ins), LoadData(all, db, links, ins, rooms).saved);
    if |classes| == 0 {
      NonEmptyMember(missing);
    }
  }

  /** Round robin links class i to instructor i mod n, and makes no other link. */
  lemma RoundRobinFacts(cs: seq<Class>, ins: seq<Instructor>)
    requires |ins| > 0
    ensures forall i :: 0 <= i < |cs| ==> (cs[i].id, ins[i % |ins|].id) in RoundRobin(cs, ins)
    ensures forall q :: q in RoundRobin(cs, ins) ==> exists i :: 0 <= i < |cs| && q == (cs[i].id, ins[i % |ins|].id)
  {
  }

  /** Filling the unstaffed classes keeps the stored links and leaves every class with an instructor. */
  lemma FillStaffsAll(classes: seq<Class>, links: set<(int, int)>, missing: seq<Class>, staff: seq<Instructor>, filled: set<(int, int)>)
    requires forall c :: c in missing <==> c in classes && c.id !in Staffed(links)
    requires |missing| > 0 ==> |staff| > 0
    requires filled == if |missing| == 0 then links else links + RoundRobin(missing, staff)
    ensures links <= filled && forall c :: c in classes ==> c.id in Staffed(filled)
  {
    forall c | c in classes ensures c.id in Staffed(filled) {
      if c.id !in Staffed(links) {
        var i :| 0 <= i < |missing| && missing[i] == c;
        RoundRobinFacts(missing, staff);
        assert (missing[i].id, staff[i % |staff|].id) in filled;
      } else {
        var q :| q in links && q.0 == c.id;
        assert q in filled;
      }
    }
  }

  /** A successful load keeps every stored link and leaves no kept class without an instructor. */
  lemma LoadStaffsAll(all: seq<Class>, db: map<int, seq<TimeSlot>>, links: set<(int, int)>, ins: seq<Instructor>, rooms: seq<Room>)
    requires LoadData(all, db, links, ins, rooms).Ready?
    ensures var p := LoadData(all, db, links, ins, rooms).data;
      links <= p.links && forall c :: c in p.classes ==> c.id in Staffed(p.links)
  {
    var classes := WithSlots(all, db);
    LoadLinks(all, db, links, ins, rooms);
    FillStaffsAll(classes, links, Unstaffed(classes, links), RealInstructors(ins), LoadData(all, db, links, ins, rooms).data.links);
  }

  /**
   * A successful load gives the i-th unstaffed class instructor i mod n of
   * the real ones and adds no other link.
   */
  lemma LoadStaffsRoundRobin(all: seq<Class>, db: map<int, seq<TimeSlot>>, links: set<(int, int)>, ins: seq<Instructor>, rooms: seq<Room>)
    requires LoadData(all, db, links, ins, rooms).Ready?
    ensures var p := LoadData(all, db, links, ins, rooms).data;
      var missing := Unstaffed(WithSlots(all, db), links);
      var staff := RealInstructors(ins);
      |missing| > 0 ==>
        (|staff| > 0 &&
         (forall i :: 0 <= i < |missing| ==> (missing[i].id, staff[i % |staff|].id) in p.links) &&
         (forall q :: q in p.links - links ==> exists i :: 0 <= i < |missing| && q == (missing[i].id, staff[i % |staff|].id)))
  {
    LoadLinks(all, db, links, ins, rooms);
    var missing := Unstaffed(WithSlots(all, db), links);
    if |missing| > 0 {
      RoundRobinFacts(missing, RealInstructors(ins));
    }
  }

  /** A successful load keeps exactly the rooms that seat the smallest kept class: each seats some class, a dropped one seats none. */
  lemma LoadKeepsRooms(all: seq<Class>, db: map<int, seq<TimeSlot>>, links: set<(int, int)>, ins: seq<Instructor>, rooms: seq<Room>)
    requires LoadData(all, db, links, ins, rooms).Ready?
    ensures var p := LoadData(all, db, links, ins, rooms).data;
      (forall r :: r in p.rooms <==> r in rooms && r.capacity >= MinLimit(p.classes)) &&
      (forall r :: r in p.rooms ==> exists c :: c in p.classes && r.capacity >= c.limit) &&
      (forall r :: r in rooms && r !in p.rooms ==> forall c :: c in p.classes ==> r.capacity < c.limit)
  {
  }

  // ------------------------------------------------------------ placeholder instructors

  /** The import id given to the placeholder instructor numbered `count`. */
  function SyntheticXmlId(count: nat): int {
    SyntheticBase + count
  }

  /**
   * `_create_synthetic_instructors`' ids for `courses` course groups: each
   * group asks for the id numbered by the count of placeholders created so
   * far, and only an actual creation advances that count.
   */
  function SyntheticIds(courses: nat, existing: set<int>, count: nat): (r: (seq<int>, nat))
    ensures |r.0| == courses && r.1 >= count
    ensures forall k :: 0 <= k < |r.0| ==> IsSynthetic(r.0[k])
  {
    if courses == 0 then ([], count)
    else
      var x := SyntheticXmlId(count);
      var rest := SyntheticIds(courses - 1, existing + {x}, if x in existing then count else count + 1);
      ([x] + rest.0, rest.1)
  }

  /** No stored import id reaches the one numbered `count`. */
  predicate FreshFrom(existing: set<int>, count: nat) {
    forall x :: x in existing ==> x < SyntheticXmlId(count)
  }

  /** With no placeholder from `count` on stored yet, the k-th group gets a new id numbered count + k, all distinct. */
  lemma {:induction false} SyntheticIdsFresh(courses: nat, existing: set<int>, count: nat)
    requires FreshFrom(existing, count)
    ensures var r := SyntheticIds(courses, existing, count);
      r.1 == count + courses &&
      (forall k :: 0 <= k < courses ==> r.0[k] == SyntheticXmlId(count + k) && r.0[k] !in existing) &&
      (forall k, l :: 0 <= k < l < courses ==> r.0[k] != r.0[l])
  {
    if courses > 0 {
      var x := SyntheticXmlId(count);
      assert x !in existing;
      assert FreshFrom(existing + {x}, count + 1);
      SyntheticIdsFresh(courses - 1, existing + {x}, count + 1);
      var r := SyntheticIds(courses, existing, count);
      var rest := SyntheticIds(courses - 1, existing + {x}, count + 1);
      assert r.0 == [x] + rest.0;
      forall k | 1 <= k < courses ensures r.0[k] == SyntheticXmlId(count + k) {
        assert r.0[k] == rest.0[k - 1];
      }
    }
  }

  /** When the id numbered `count` is already stored, every group reuses that one placeholder and nothing is created. */
  lemma {:induction false} SyntheticIdsReused(courses: nat, existing: set<int>, count: nat)
    requires SyntheticXmlId(count) in existing
    ensures var r := SyntheticIds(courses, existing, count);
      r.1 == count && forall k :: 0 <= k < courses ==> r.0[k] == SyntheticXmlId(count)
  {
    if courses > 0 {
      var x := SyntheticXmlId(count);
      SyntheticIdsReused(courses - 1, existing + {x}, count);
      var r := SyntheticIds(courses, existing, count);
      var rest := SyntheticIds(courses - 1, existing + {x}, count);
      assert r.0 == [x] + rest.0;
      forall k | 1 <= k < courses ensures r.0[k] == x {
        assert r.0[k] == rest.0[k - 1];
      }
    }
  }

  // ------------------------------------------------------------ saving the solution

  /** The timeslot an assignment points at: a stored row, or a fallback slot written just now. */
  datatype SlotRef = Stored(id: int) | SavedNow(slot: TimeSlot)

  datatype StoredAssignment = StoredAssignment(classId: int, roomId: int, slot: SlotRef)

  /** What saving one gene does: the assignment created, if any, and the timeslot written, if any. */
  datatype SaveStep = SaveStep(assignment: Option<StoredAssignment>, written: Option<TimeSlot>)

  /** The ids present in the database. */
  datatype DbIds = DbIds(classIds: set<int>, roomIds: set<int>, slotIds: set<int>)

  /** `next((ts for ts in temp_slots if ts.id == timeslot_id), None)`. */
  function FindSlot(temp: seq<TimeSlot>, id: int): (r: Option<TimeSlot>)
    ensures r.Some? ==> r.value in temp && r.value.id == id
    ensures r.None? <==> forall t :: t in temp ==> t.id != id
  {
    if |temp| == 0 then None else if temp[0].id == id then Some(temp[0]) else FindSlot(temp[1..], id)
  }

  /** The slot looked for when the gene's timeslot id is not stored: by id, else by position id mod n. */
  function Fallback(temp: seq<TimeSlot>, tsId: int): Option<TimeSlot> {
    match FindSlot(temp, tsId)
    case Some(t) => Some(t)
    case None => if |temp| > 0 then Some(temp[tsId % |temp|]) else None
  }

  /**
   * One gene of `_save_schedule`: an unknown class or room raises and is
   * skipped, a falsy timeslot id is skipped, a stored timeslot is used, a
   * fallback slot is written only when it is unsaved, and the assignment
   * is created only with a room.
   */
  function SaveGene(db: DbIds, temp: map<int, seq<TimeSlot>>, cid: int, g: Constraints.Gene): SaveStep {
    if cid !in db.classIds || (Truthy(g.room) && g.room.value !in db.roomIds) || !Truthy(g.slot) then SaveStep(None, None)
    else
      var tsId := g.slot.value;
      var slot: Option<SlotRef> :=
        if tsId in db.slotIds then Some(SlotRef.Stored(tsId))
        else match Fallback(if cid in temp then temp[cid] else [], tsId)
          case Some(t) => if t.id == Unsaved then Some(SavedNow(t)) else None
          case None => None;
      var written := if slot.Some? && slot.value.SavedNow? then Some(slot.value.slot) else None;
      if slot.Some? && Truthy(g.room) then SaveStep(Some(StoredAssignment(cid, g.room.value, slot.value)), written)
      else SaveStep(None, written)
  }

  /** The class's slots as the generator holds them. */
  function TempSlots(temp: map<int, seq<TimeSlot>>, cid: int): seq<TimeSlot> {
    if cid in temp then temp[cid] else []
  }

  /**
   * An assignment is stored only for a known class and a known, truthy room,
   * and points at the gene's own stored timeslot or at an unsaved slot of
   * the class that gets written; a gene whose class, room and timeslot are
   * all stored is saved as it is; and when all of the class's slots are
   * already stored, as after `load_data`, nothing is ever written and a
   * gene with an unknown timeslot is dropped.
   */
  lemma SaveGeneFacts(db: DbIds, temp: map<int, seq<TimeSlot>>, cid: int, g: Constraints.Gene)
    ensures var s := SaveGene(db, temp, cid, g);
      s.assignment.Some? ==>
        cid in db.classIds && Truthy(g.room) && g.room.value in db.roomIds && Truthy(g.slot) &&
        s.assignment.value.classId == cid && s.assignment.value.roomId == g.room.value &&
        match s.assignment.value.slot
        case Stored(id) => id == g.slot.value && id in db.slotIds
        case SavedNow(t) => t in TempSlots(temp, cid) && t.id == Unsaved && g.slot.value !in db.slotIds && s.written == Some(t)
    ensures SaveGene(db, temp, cid, g).written.Some? ==>
              SaveGene(db, temp, cid, g).written.value in TempSlots(temp, cid) && SaveGene(db, temp, cid, g).written.value.id == Unsaved
    ensures cid in db.classIds && Truthy(g.room) && g.room.value in db.roomIds && Truthy(g.slot) && g.slot.value in db.slotIds ==>
              SaveGene(db, temp, cid, g) == SaveStep(Some(StoredAssignment(cid, g.room.value, SlotRef.Stored(g.slot.value))), None)
    ensures (forall t :: t in TempSlots(temp, cid) ==> t.id != Unsaved) ==>
              SaveGene(db, temp, cid, g).written.None? &&
              (Truthy(g.slot) && g.slot.value !in db.slotIds ==> SaveGene(db, temp, cid, g).assignment.None?)
  {
    var ts := TempSlots(temp, cid);
    if Truthy(g.slot) && g.slot.value !in db.slotIds && |ts| > 0 && FindSlot(ts, g.slot.value).None? {
      assert ts[g.slot.value % |ts|] in ts;
    }
  }

  /** `_save_schedule`'s loop over the genes of the best solution. */
  function SaveSchedule(db: DbIds, temp: map<int, seq<TimeSlot>>, genes: Constraints.Genes): (r: seq<SaveStep>)
    ensures |r| == |genes|
    ensures forall i :: 0 <= i < |genes| ==> r[i] == SaveGene(db, temp, genes[i].0, genes[i].1)
  {
    if |genes| == 0 then [] else [SaveGene(db, temp, genes[0].0, genes[0].1)] + SaveSchedule(db, temp, genes[1..])
  }
}
