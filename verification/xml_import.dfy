/**
 * The XML import endpoint (`import_xml_view`): a parsed University
 * Timetabling document is loaded into the database in six passes — rooms,
 * instructors, courses, classes with their instructors, rooms and times,
 * class parents, students with their enrolments — using get-or-create by
 * import id, and answered with counters of what was created.
 *
 * The document is given already tokenised: each attribute is kept as the
 * file spells it (`Num`, `Decimal`, `Option<string>`), and the conversions
 * `int(...)` / `float(...)` that raise become `None`. The database keeps one
 * row per import id; link tables are keyed by import ids too, which is
 * faithful because every import id is unique in its table.
 */
module XmlImport {
  import opened Util

  // ---------------------------------------------------------------------------
  // Attributes as written in the file
  // ---------------------------------------------------------------------------

  /** A numeric attribute: missing, empty, a readable integer, or anything else. */
  datatype Num = Absent | Blank | Int(v: int) | Garbled

  /** A `float` attribute: missing, readable, or not (the empty string included). */
  datatype Decimal = NoValue | Value(x: real) | Unreadable

  /** `int(elem.get(k))`: a missing attribute raises as well as an unreadable one. */
  function Required(n: Num): (r: Option<int>)
    ensures r.Some? <==> n.Int?
  {
    if n.Int? then Some(n.v) else None
  }

  /** `int(elem.get(k, d))`. */
  function OrDefault(n: Num, d: int): (r: Option<int>)
    ensures r.Some? <==> (n.Absent? || n.Int?)
    ensures n.Absent? ==> r == Some(d)
  {
    match n
    case Absent => Some(d)
    case Int(v) => Some(v)
    case _ => None
  }

  /**
   * `int(elem.get(k)) if elem.get(k) else None`: `None` when the conversion
   * raises, `Some(None)` when the attribute is missing or empty.
   */
  function IfGiven(n: Num): (r: Option<Option<int>>)
    ensures r.None? <==> n.Garbled?
    ensures r == Some(None) <==> (n.Absent? || n.Blank?)
  {
    match n
    case Absent => Some(None)
    case Blank => Some(None)
    case Int(v) => Some(Some(v))
    case Garbled => None
  }

  /** `float(elem.get(k, d))`. */
  function RealOrDefault(n: Decimal, d: real): (r: Option<real>)
    ensures r.None? <==> n.Unreadable?
    ensures n.NoValue? ==> r == Some(d)
  {
    match n
    case NoValue => Some(d)
    case Value(x) => Some(x)
    case Unreadable => None
  }

  /** `elem.get(k, d)` for a text attribute. */
  function TextOr(s: Option<string>, d: string): string {
    if s.Some? then s.value else d
  }

  function LowerChar(c: char): (r: char)
    ensures 'A' <= c <= 'Z' ==> r as int == c as int + 32
    ensures !('A' <= c <= 'Z') ==> r == c
  {
    if 'A' <= c <= 'Z' then (c as int + 32) as char else c
  }

  /** `str.lower()` on the ASCII letters. */
  function Lower(s: string): (r: string)
    ensures |r| == |s|
    ensures forall i :: 0 <= i < |s| ==> r[i] == LowerChar(s[i])
  {
    seq(|s|, i requires 0 <= i < |s| => LowerChar(s[i]))
  }

  /** `elem.get(k, 'false').lower() == 'true'`. */
  predicate Flag(s: Option<string>) {
    Lower(TextOr(s, "false")) == "true"
  }

  /** One letter of "true" in either case. */
  predicate Spells(c: char, lower: char) {
    c == lower || c as int == lower as int - 32
  }

  /** A flag is set exactly when the attribute is present and reads "true" in any mix of cases. */
  lemma {:induction false} FlagMeaning(s: Option<string>)
    ensures Flag(s) <==>
              s.Some? && |s.value| == 4 &&
              Spells(s.value[0], 't') && Spells(s.value[1], 'r') &&
              Spells(s.value[2], 'u') && Spells(s.value[3], 'e')
  {
    var t := TextOr(s, "false");
    var l := Lower(t);
    if s.None? {
      assert l[0] == 'f';
    } else if |t| == 4 {
      if Spells(t[0], 't') && Spells(t[1], 'r') && Spells(t[2], 'u') && Spells(t[3], 'e') {
        assert l == "true";
      }
    }
  }

  // ---------------------------------------------------------------------------
  // The parsed document and the request
  // ---------------------------------------------------------------------------

  datatype RoomElem = RoomElem(id: Num, capacity: Num, location: Option<string>, constraint: Option<string>)

  /** A `<room>` inside a `<class>`: a room the class may use, with a preference. */
  datatype ClassRoomElem = ClassRoomElem(id: Num, pref: Decimal)

  datatype TimeElem = TimeElem(days: Option<string>, start: Num, length: Num, pref: Decimal)

  datatype ClassElem = ClassElem(
    id: Num, offering: Num, config: Num, subpart: Num, classLimit: Num,
    committed: Option<string>, scheduler: Num, dates: Option<string>, parent: Num,
    instructors: seq<Num>, rooms: seq<ClassRoomElem>, times: seq<TimeElem>)

  datatype StudentElem = StudentElem(id: Num, classes: seq<Num>)

  /** The `<rooms>`, `<classes>` and `<students>` sections; `None` when the section is missing. */
  datatype Document = Document(
    rooms: Option<seq<RoomElem>>, classes: Option<seq<ClassElem>>, students: Option<seq<StudentElem>>)

  /** An uploaded file: one the XML parser rejects, or a parsed document. */
  datatype Upload = Unparsable | Parsed(doc: Document)

  datatype Request = Request(httpMethod: string, file: Option<Upload>, clearExisting: Option<string>)

  /** The elements of a section, none when it is missing. */
  function Section<T>(s: Option<seq<T>>): seq<T> {
    if s.Some? then s.value else []
  }

  // ---------------------------------------------------------------------------
  // The database, keyed by import id
  // ---------------------------------------------------------------------------

  datatype RoomRow = RoomRow(capacity: int, location: string, isConstraint: bool)

  /** A class row; `offering` and `parent` hold import ids. */
  datatype ClassRow = ClassRow(
    offering: Option<int>, config: Option<int>, subpart: Option<int>, limit: int,
    committed: bool, scheduler: Option<int>, dates: string, parent: Option<int>)

  datatype SlotRow = SlotRow(classId: int, days: string, start: int, length: int, preference: real)

  /**
   * Instructors, courses and students are sets of import ids: the names the
   * import gives them are fixed by the id. `teaches` holds (class, instructor),
   * `allowed` the room preference of (class, room), `enrolled` (student, class).
   */
  datatype Db = Db(
    rooms: map<int, RoomRow>, instructors: set<int>, courses: set<int>,
    classes: map<int, ClassRow>, students: set<int>,
    teaches: set<(int, int)>, allowed: map<(int, int), real>,
    slots: seq<SlotRow>, enrolled: set<(int, int)>)

  /** Every table empty: what deleting rooms, instructors, courses, classes and students cascades to. */
  const EmptyDb := Db(map[], {}, {}, map[], {}, {}, map[], [], {})

  /** The counters the response reports. */
  datatype Stats = Stats(
    rooms: nat, instructors: nat, courses: nat, classes: nat,
    timeSlots: nat, students: nat, enrollments: nat)

  const NoStats := Stats(0, 0, 0, 0, 0, 0, 0)

  /** A pass either runs to its end, or raises and leaves its tables as they were at that moment. */
  datatype Run<S> = Ran(out: S) | Broke(at: S)

  // ---------------------------------------------------------------------------
  // Pass 1: rooms
  // ---------------------------------------------------------------------------

  /** The import id and the row a `<room>` creates, when its attributes convert. */
  function RoomArgs(e: RoomElem): Option<(int, RoomRow)> {
    match (Required(e.id), OrDefault(e.capacity, 0))
    case (Some(id), Some(cap)) => Some((id, RoomRow(cap, TextOr(e.location, ""), Flag(e.constraint))))
    case _ => None
  }

  /** The row a room gets: seats default to 0, a location to "", and the constraint flag reads "true". */
  lemma RoomArgsMeaning(e: RoomElem)
    ensures RoomArgs(e).Some? <==> e.id.Int? && (e.capacity.Absent? || e.capacity.Int?)
    ensures RoomArgs(e).Some? ==>
              var (id, row) := RoomArgs(e).value;
              id == e.id.v &&
              row.capacity == (if e.capacity.Absent? then 0 else e.capacity.v) &&
              row.location == TextOr(e.location, "") &&
              (row.isConstraint <==> e.constraint.Some? && Lower(e.constraint.value) == "true")
  {
    if e.constraint.None? {
      assert Lower("false")[0] == 'f';
    }
  }

  /** Rooms by import id, and how many the pass created. */
  type RoomTally = (map<int, RoomRow>, nat)

  /** `Room.objects.get_or_create(xml_id=...)` for each `<room>` in turn. */
  function RoomsPass(es: seq<RoomElem>, t: RoomTally): Run<RoomTally>
    decreases |es|
  {
    if |es| == 0 then Ran(t)
    else match RoomArgs(es[0])
      case None => Broke(t)
      case Some(a) => RoomsPass(es[1..], GetOrCreateRoom(t, a))
  }

  function GetOrCreateRoom(t: RoomTally, a: (int, RoomRow)): RoomTally {
    if a.0 in t.0 then t else (t.0[a.0 := a.1], t.1 + 1)
  }

  /** The import ids of the `<room>` elements whose id converts. */
  function RoomIds(es: seq<RoomElem>): set<int> {
    if |es| == 0 then {}
    else
      var rest := RoomIds(es[1..]);
      (if es[0].id.Int? then {es[0].id.v} else {}) + rest
  }

  /** The row the first `<room>` with import id `id` asks for. */
  function FirstRoomRow(es: seq<RoomElem>, id: int): Option<RoomRow> {
    if |es| == 0 then None
    else if RoomArgs(es[0]).Some? && RoomArgs(es[0]).value.0 == id then Some(RoomArgs(es[0]).value.1)
    else FirstRoomRow(es[1..], id)
  }

  /** |({x} + a) - b| splits on whether x was already in b. */
  lemma AddOne(x: int, a: set<int>, b: set<int>)
    ensures |({x} + a) - b| == (if x in b then 0 else 1) + |a - (b + {x})|
  {
    if x in b {
      assert ({x} + a) - b == a - (b + {x});
    } else {
      assert ({x} + a) - b == {x} + (a - (b + {x}));
    }
  }

  /** The rooms pass fails exactly when some element's id or capacity does not convert. */
  lemma {:induction false} RoomsPassSucceeds(es: seq<RoomElem>, t: RoomTally)
    ensures RoomsPass(es, t).Ran? <==> forall i :: 0 <= i < |es| ==> RoomArgs(es[i]).Some?
    decreases |es|
  {
    if |es| > 0 && RoomArgs(es[0]).Some? {
      RoomsPassSucceeds(es[1..], GetOrCreateRoom(t, RoomArgs(es[0]).value));
      assert forall i :: 1 <= i < |es| ==> es[i] == es[1..][i - 1];
    }
  }

  /** The rooms pass adds a row for each import id not yet stored and keeps the stored rows as they are. */
  lemma {:induction false} RoomsPassAdds(es: seq<RoomElem>, t: RoomTally)
    requires RoomsPass(es, t).Ran?
    ensures RoomsPass(es, t).out.0.Keys == t.0.Keys + RoomIds(es)
    ensures forall k :: k in t.0 ==> RoomsPass(es, t).out.0[k] == t.0[k]
    decreases |es|
  {
    if |es| > 0 {
      var a := RoomArgs(es[0]).value;
      var t' := GetOrCreateRoom(t, a);
      RoomsPassAdds(es[1..], t');
      assert es[0].id == Int(a.0);
      assert RoomIds(es) == {a.0} + RoomIds(es[1..]);
      assert t'.0.Keys == t.0.Keys + {a.0};
    }
  }

  /** The rooms counter grows by the number of import ids not stored before. */
  lemma {:induction false} RoomsPassCounts(es: seq<RoomElem>, t: RoomTally)
    requires RoomsPass(es, t).Ran?
    ensures RoomsPass(es, t).out.1 == t.1 + |RoomIds(es) - t.0.Keys|
    decreases |es|
  {
    if |es| > 0 {
      var a := RoomArgs(es[0]).value;
      var t' := GetOrCreateRoom(t, a);
      RoomsPassCounts(es[1..], t');
      assert es[0].id == Int(a.0);
      assert RoomIds(es) == {a.0} + RoomIds(es[1..]);
      GetOrCreateKeys(t, a);
      CountStep(a.0, RoomIds(es[1..]), t.0.Keys, t.1);
    }
  }

  lemma GetOrCreateKeys(t: RoomTally, a: (int, RoomRow))
    ensures GetOrCreateRoom(t, a).0.Keys == (if a.0 in t.0 then t.0.Keys else t.0.Keys + {a.0})
    ensures GetOrCreateRoom(t, a).1 == (if a.0 in t.0 then t.1 else t.1 + 1)
  {
  }

  /** Get-or-create of `x` followed by the rest creates as many ids as are new in `{x} + rest`. */
  lemma CountStep(x: int, rest: set<int>, keys: set<int>, n: nat)
    ensures (if x in keys then n else n + 1) + |rest - (if x in keys then keys else keys + {x})|
            == n + |({x} + rest) - keys|
  {
    AddOne(x, rest, keys);
    if x in keys {
      assert keys + {x} == keys;
    }
  }

  /** A room the pass creates takes its attributes from the first element with that import id. */
  lemma {:induction false} RoomsPassFirst(es: seq<RoomElem>, t: RoomTally, k: int)
    requires RoomsPass(es, t).Ran?
    requires k in RoomsPass(es, t).out.0 && k !in t.0
    ensures Some(RoomsPass(es, t).out.0[k]) == FirstRoomRow(es, k)
    decreases |es|
  {
    var a := RoomArgs(es[0]).value;
    var t' := GetOrCreateRoom(t, a);
    if a.0 == k {
      RoomsPassAdds(es[1..], t');
    } else {
      RoomsPassFirst(es[1..], t', k);
    }
  }

  // ---------------------------------------------------------------------------
  // Passes 2 and 3: instructors and courses, from distinct ids across all classes
  // ---------------------------------------------------------------------------

  /** `int(e.get('id'))` of each element, collected into a set; `None` when one raises. */
  function NumIds(ns: seq<Num>): (r: Option<set<int>>)
    ensures r.Some? <==> forall j :: 0 <= j < |ns| ==> ns[j].Int?
    ensures r.Some? ==> forall k :: k in r.value <==> Int(k) in ns
  {
    if |ns| == 0 then Some({})
    else
      var rest := NumIds(ns[1..]);
      assert forall j :: 1 <= j < |ns| ==> ns[j] == ns[1..][j - 1];
      assert ns == [ns[0]] + ns[1..];
      if ns[0].Int? && rest.Some? then Some({ns[0].v} + rest.value) else None
  }

  /** The instructor ids of every class (the `instructor_ids` set). */
  function InstructorIds(cs: seq<ClassElem>): (r: Option<set<int>>)
    ensures r.Some? <==> forall i :: 0 <= i < |cs| ==> NumIds(cs[i].instructors).Some?
    ensures r.Some? ==> forall k :: k in r.value <==> exists i :: 0 <= i < |cs| && Int(k) in cs[i].instructors
  {
    if |cs| == 0 then Some({})
    else
      var here, rest := NumIds(cs[0].instructors), InstructorIds(cs[1..]);
      assert forall i :: 1 <= i < |cs| ==> cs[i] == cs[1..][i - 1];
      if here.Some? && rest.Some? then Some(here.value + rest.value) else None
  }

  /** The course ids named by `offering` attributes (the `offering_ids` set); empty ones are skipped. */
  function OfferingIds(cs: seq<ClassElem>): (r: Option<set<int>>)
    ensures r.Some? <==> forall i :: 0 <= i < |cs| ==> !cs[i].offering.Garbled?
    ensures r.Some? ==> forall k :: k in r.value <==> exists i :: 0 <= i < |cs| && cs[i].offering == Int(k)
  {
    if |cs| == 0 then Some({})
    else
      var rest := OfferingIds(cs[1..]);
      assert forall i :: 1 <= i < |cs| ==> cs[i] == cs[1..][i - 1];
      match IfGiven(cs[0].offering)
      case None => None
      case Some(o) =>
        if rest.None? then None
        else Some((if o.Some? then {o.value} else {}) + rest.value)
  }

  // ---------------------------------------------------------------------------
  // Pass 4: classes, and for each class created now its instructors, rooms and times
  // ---------------------------------------------------------------------------

  /** The import id and the row a `<class>` asks for, when its attributes convert. */
  function ClassArgs(e: ClassElem): (r: Option<(int, ClassRow)>)
    ensures r.Some? <==>
              e.id.Int? && !e.offering.Garbled? && !e.config.Garbled? && !e.subpart.Garbled? &&
              (e.classLimit.Absent? || e.classLimit.Int?) && !e.scheduler.Garbled?
    ensures r.Some? ==>
              r.value.0 == e.id.v && r.value.1.parent == None &&
              r.value.1.limit == (if e.classLimit.Absent? then 0 else e.classLimit.v) &&
              (r.value.1.offering.Some? <==> e.offering.Int?)
  {
    var id, off, config, subpart := Required(e.id), IfGiven(e.offering), IfGiven(e.config), IfGiven(e.subpart);
    var limit, scheduler := OrDefault(e.classLimit, 0), IfGiven(e.scheduler);
    if id.Some? && off.Some? && config.Some? && subpart.Some? && limit.Some? && scheduler.Some? then
      Some((id.value, ClassRow(off.value, config.value, subpart.value, limit.value,
                               Flag(e.committed), scheduler.value, TextOr(e.dates, ""), None)))
    else None
  }

  /** The slot a `<time>` creates: days default to "0000000", start and length to 0, the preference to 0. */
  function TimeArgs(cid: int, e: TimeElem): Option<SlotRow> {
    var start, length, pref := OrDefault(e.start, 0), OrDefault(e.length, 0), RealOrDefault(e.pref, 0.0);
    if start.Some? && length.Some? && pref.Some? then
      Some(SlotRow(cid, TextOr(e.days, "0000000"), start.value, length.value, pref.value))
    else None
  }

  /** The tables the classes pass writes, with its two counters. */
  datatype ClassTables = ClassTables(
    classes: map<int, ClassRow>, teaches: set<(int, int)>, allowed: map<(int, int), real>,
    slots: seq<SlotRow>, made: nat, timed: nat)

  /** Links class `cid` to each listed instructor that exists. */
  function TeachersPass(cid: int, ns: seq<Num>, staff: set<int>, teaches: set<(int, int)>): Run<set<(int, int)>>
    decreases |ns|
  {
    if |ns| == 0 then Ran(teaches)
    else match Required(ns[0])
      case None => Broke(teaches)
      case Some(i) => TeachersPass(cid, ns[1..], staff, if i in staff then teaches + {(cid, i)} else teaches)
  }

  /** Records the preference of class `cid` for each listed room that exists, unless one is recorded. */
  function RoomPrefsPass(cid: int, rs: seq<ClassRoomElem>, roomIds: set<int>, allowed: map<(int, int), real>)
    : Run<map<(int, int), real>>
    decreases |rs|
  {
    if |rs| == 0 then Ran(allowed)
    else match Required(rs[0].id)
      case None => Broke(allowed)
      case Some(r) =>
        if r !in roomIds then RoomPrefsPass(cid, rs[1..], roomIds, allowed)
        else match RealOrDefault(rs[0].pref, 0.0)
          case None => Broke(allowed)
          case Some(p) =>
            RoomPrefsPass(cid, rs[1..], roomIds, if (cid, r) in allowed then allowed else allowed[(cid, r) := p])
  }

  /** Creates one slot per `<time>` of class `cid`, counting each. */
  function TimesPass(cid: int, ts: seq<TimeElem>, slots: seq<SlotRow>, timed: nat): Run<(seq<SlotRow>, nat)>
    decreases |ts|
  {
    if |ts| == 0 then Ran((slots, timed))
    else match TimeArgs(cid, ts[0])
      case None => Broke((slots, timed))
      case Some(row) => TimesPass(cid, ts[1..], slots + [row], timed + 1)
  }

  /** The instructors, rooms and times of a class created by this import. */
  function Children(cid: int, e: ClassElem, staff: set<int>, roomIds: set<int>, t: ClassTables): Run<ClassTables> {
    match TeachersPass(cid, e.instructors, staff, t.teaches)
    case Broke(x) => Broke(t.(teaches := x))
    case Ran(x) =>
      var t1 := t.(teaches := x);
      match RoomPrefsPass(cid, e.rooms, roomIds, t1.allowed)
      case Broke(y) => Broke(t1.(allowed := y))
      case Ran(y) =>
        var t2 := t1.(allowed := y);
        match TimesPass(cid, e.times, t2.slots, t2.timed)
        case Broke(z) => Broke(t2.(slots := z.0, timed := z.1))
        case Ran(z) => Ran(t2.(slots := z.0, timed := z.1))
  }

  /**
   * `Class.objects.get_or_create` for each `<class>`; a class that already
   * exists keeps its row and gets none of the file's instructors, rooms or times.
   */
  function ClassesPass(cs: seq<ClassElem>, staff: set<int>, roomIds: set<int>, t: ClassTables): Run<ClassTables>
    decreases |cs|
  {
    if |cs| == 0 then Ran(t)
    else match ClassArgs(cs[0])
      case None => Broke(t)
      case Some((id, row)) =>
        if id in t.classes then ClassesPass(cs[1..], staff, roomIds, t)
        else match Children(id, cs[0], staff, roomIds, t.(classes := t.classes[id := row], made := t.made + 1))
          case Broke(t') => Broke(t')
          case Ran(t') => ClassesPass(cs[1..], staff, roomIds, t')
  }

  /** The keys of `class_map` once the classes pass is through: every class id in the file. */
  function ClassIds(cs: seq<ClassElem>): set<int> {
    if |cs| == 0 then {}
    else (if cs[0].id.Int? then {cs[0].id.v} else {}) + ClassIds(cs[1..])
  }

  // ---------------------------------------------------------------------------
  // Pass 5: parents
  // ---------------------------------------------------------------------------

  /** Sets the parent of class `id` when the parent is also a class of the file. */
  function SetParent(classes: map<int, ClassRow>, id: int, p: Option<int>, known: set<int>): map<int, ClassRow> {
    if p.Some? && p.value in known && id in classes then classes[id := classes[id].(parent := p)] else classes
  }

  /** The second pass over the classes: `parent` is read only for classes of the file. */
  function ParentsPass(cs: seq<ClassElem>, known: set<int>, classes: map<int, ClassRow>): Run<map<int, ClassRow>>
    decreases |cs|
  {
    if |cs| == 0 then Ran(classes)
    else match Required(cs[0].id)
      case None => Broke(classes)
      case Some(id) =>
        if id !in known then ParentsPass(cs[1..], known, classes)
        else match IfGiven(cs[0].parent)
          case None => Broke(classes)
          case Some(p) => ParentsPass(cs[1..], known, SetParent(classes, id, p, known))
  }

  // ---------------------------------------------------------------------------
  // Pass 6: students and enrolments
  // ---------------------------------------------------------------------------

  /** The tables the students pass writes, with its two counters. */
  datatype StudentTables = StudentTables(students: set<int>, enrolled: set<(int, int)>, made: nat, enrolments: nat)

  /** Enrols student `sid` in each listed class of the file; every such listing is counted. */
  function EnrolPass(sid: int, ns: seq<Num>, known: set<int>, t: StudentTables): Run<StudentTables>
    decreases |ns|
  {
    if |ns| == 0 then Ran(t)
    else match Required(ns[0])
      case None => Broke(t)
      case Some(c) =>
        if c in known then EnrolPass(sid, ns[1..], known, t.(enrolled := t.enrolled + {(sid, c)}, enrolments := t.enrolments + 1))
        else EnrolPass(sid, ns[1..], known, t)
  }

  function StudentsPass(ss: seq<StudentElem>, known: set<int>, t: StudentTables): Run<StudentTables>
    decreases |ss|
  {
    if |ss| == 0 then Ran(t)
    else match Required(ss[0].id)
      case None => Broke(t)
      case Some(sid) =>
        var t1 := if sid in t.students then t else t.(students := t.students + {sid}, made := t.made + 1);
        match EnrolPass(sid, ss[0].classes, known, t1)
        case Broke(t') => Broke(t')
        case Ran(t') => StudentsPass(ss[1..], known, t')
  }

  // ---------------------------------------------------------------------------
  // The request
  // ---------------------------------------------------------------------------

  /** The database and the counters as the passes leave them. */
  datatype Progress = Progress(db: Db, stats: Stats)

  function StageRooms(es: seq<RoomElem>, p: Progress): (r: Run<Progress>)
    ensures r.Ran? ==> r.out.db == p.db.(rooms := r.out.db.rooms) && r.out.stats == p.stats.(rooms := r.out.stats.rooms)
  {
    match RoomsPass(es, (p.db.rooms, p.stats.rooms))
    case Broke(r) => Broke(Progress(p.db.(rooms := r.0), p.stats.(rooms := r.1)))
    case Ran(r) => Ran(Progress(p.db.(rooms := r.0), p.stats.(rooms := r.1)))
  }

  function StageInstructors(cs: seq<ClassElem>, p: Progress): (r: Run<Progress>)
    ensures r.Ran? ==>
              r.out.db == p.db.(instructors := r.out.db.instructors) &&
              r.out.stats == p.stats.(instructors := r.out.stats.instructors)
  {
    match InstructorIds(cs)
    case None => Broke(p)
    case Some(ids) =>
      Ran(Progress(p.db.(instructors := p.db.instructors + ids),
                   p.stats.(instructors := p.stats.instructors + |ids - p.db.instructors|)))
  }

  function StageCourses(cs: seq<ClassElem>, p: Progress): (r: Run<Progress>)
    ensures r.Ran? ==>
              r.out.db == p.db.(courses := r.out.db.courses) && r.out.stats == p.stats.(courses := r.out.stats.courses)
  {
    match OfferingIds(cs)
    case None => Broke(p)
    case Some(ids) =>
      Ran(Progress(p.db.(courses := p.db.courses + ids),
                   p.stats.(courses := p.stats.courses + |ids - p.db.courses|)))
  }

  function WithClassTables(p: Progress, t: ClassTables): Progress {
    Progress(p.db.(classes := t.classes, teaches := t.teaches, allowed := t.allowed, slots := t.slots),
             p.stats.(classes := t.made, timeSlots := t.timed))
  }

  function StageClasses(cs: seq<ClassElem>, p: Progress): (r: Run<Progress>)
    ensures r.Ran? ==>
              r.out.db == p.db.(classes := r.out.db.classes, teaches := r.out.db.teaches,
                                allowed := r.out.db.allowed, slots := r.out.db.slots) &&
              r.out.stats == p.stats.(classes := r.out.stats.classes, timeSlots := r.out.stats.timeSlots)
  {
    var t := ClassTables(p.db.classes, p.db.teaches, p.db.allowed, p.db.slots, p.stats.classes, p.stats.timeSlots);
    match ClassesPass(cs, p.db.instructors, p.db.rooms.Keys, t)
    case Broke(t') => Broke(WithClassTables(p, t'))
    case Ran(t') => Ran(WithClassTables(p, t'))
  }

  function StageParents(cs: seq<ClassElem>, p: Progress): (r: Run<Progress>)
    ensures r.Ran? ==> r.out == p.(db := p.db.(classes := r.out.db.classes))
  {
    match ParentsPass(cs, ClassIds(cs), p.db.classes)
    case Broke(m) => Broke(p.(db := p.db.(classes := m)))
    case Ran(m) => Ran(p.(db := p.db.(classes := m)))
  }

  function WithStudentTables(p: Progress, t: StudentTables): Progress {
    Progress(p.db.(students := t.students, enrolled := t.enrolled),
             p.stats.(students := t.made, enrollments := t.enrolments))
  }

  function StageStudents(ss: seq<StudentElem>, known: set<int>, p: Progress): (r: Run<Progress>)
    ensures r.Ran? ==>
              r.out.db == p.db.(students := r.out.db.students, enrolled := r.out.db.enrolled) &&
              r.out.stats == p.stats.(students := r.out.stats.students, enrollments := r.out.stats.enrollments)
  {
    match StudentsPass(ss, known, StudentTables(p.db.students, p.db.enrolled, p.stats.students, p.stats.enrollments))
    case Broke(t) => Broke(WithStudentTables(p, t))
    case Ran(t) => Ran(WithStudentTables(p, t))
  }

  /** The six passes in order; the first that raises ends the import. */
  function Passes(doc: Document, db: Db): Run<Progress> {
    var cs := Section(doc.classes);
    match StageRooms(Section(doc.rooms), Progress(db, NoStats))
    case Broke(p) => Broke(p)
    case Ran(p1) =>
      match StageInstructors(cs, p1)
      case Broke(p) => Broke(p)
      case Ran(p2) =>
        match StageCourses(cs, p2)
        case Broke(p) => Broke(p)
        case Ran(p3) =>
          match StageClasses(cs, p3)
          case Broke(p) => Broke(p)
          case Ran(p4) =>
            match StageParents(cs, p4)
            case Broke(p) => Broke(p)
            case Ran(p5) => StageStudents(Section(doc.students), ClassIds(cs), p5)
  }

  /** The HTTP answer: its status and, on success, the counters. */
  datatype Response = Response(status: int, stats: Option<Stats>)

  /** `clear_existing == 'true'` empties the tables before the passes. */
  function Start(req: Request, db: Db): Db {
    if req.clearExisting == Some("true") then EmptyDb else db
  }

  /**
   * `import_xml_view` as written: an exception is caught inside the view and
   * answered with 500, so the surrounding transaction commits whatever the
   * passes wrote before it.
   */
  function ImportAsWritten(req: Request, db: Db): (Response, Db) {
    if req.httpMethod != "POST" then (Response(405, None), db)
    else if req.file.None? then (Response(400, None), db)
    else match req.file.value
      case Unparsable => (Response(400, None), db)
      case Parsed(doc) =>
        match Passes(doc, Start(req, db))
        case Ran(p) => (Response(200, Some(p.stats)), p.db)
        case Broke(p) => (Response(500, None), p.db)
  }

  /** The import with the failed attempt rolled back: any answer but 200 leaves the database as it was. */
  function Import(req: Request, db: Db): (r: (Response, Db))
    ensures r.0 == ImportAsWritten(req, db).0
    ensures r.0.status != 200 ==> r.1 == db
    ensures r.0.status == 200 ==> r.1 == ImportAsWritten(req, db).1
  {
    var (resp, after) := ImportAsWritten(req, db);
    (resp, if resp.status == 200 then after else db)
  }

  // ---------------------------------------------------------------------------
  // Facts about the children of a new class
  // ---------------------------------------------------------------------------

  /** The instructor links are the listed instructors that exist; the pass fails on an unreadable id. */
  lemma {:induction false} TeachersPassFacts(cid: int, ns: seq<Num>, staff: set<int>, teaches: set<(int, int)>)
    ensures TeachersPass(cid, ns, staff, teaches).Ran? <==> forall j :: 0 <= j < |ns| ==> ns[j].Int?
    ensures TeachersPass(cid, ns, staff, teaches).Ran? ==>
              forall q :: q in TeachersPass(cid, ns, staff, teaches).out <==>
                            q in teaches || (q.0 == cid && q.1 in staff && Int(q.1) in ns)
    decreases |ns|
  {
    if |ns| > 0 {
      assert forall j :: 1 <= j < |ns| ==> ns[j] == ns[1..][j - 1];
      assert ns == [ns[0]] + ns[1..];
      if ns[0].Int? {
        var i := ns[0].v;
        TeachersPassFacts(cid, ns[1..], staff, if i in staff then teaches + {(cid, i)} else teaches);
      }
    }
  }

  /** Every room the file lists for the class has a readable id, and a readable preference when the room exists. */
  predicate ReadableRooms(rs: seq<ClassRoomElem>) {
    forall j :: 0 <= j < |rs| ==> rs[j].id.Int? && !rs[j].pref.Unreadable?
  }

  /**
   * Room preferences already recorded stay as they are; the new ones are for
   * class `cid` and an existing room, and a readable list always goes through.
   */
  lemma {:induction false} RoomPrefsPassFacts(cid: int, rs: seq<ClassRoomElem>, roomIds: set<int>, allowed: map<(int, int), real>)
    ensures ReadableRooms(rs) ==> RoomPrefsPass(cid, rs, roomIds, allowed).Ran?
    ensures RoomPrefsPass(cid, rs, roomIds, allowed).Ran? ==>
              var out := RoomPrefsPass(cid, rs, roomIds, allowed).out;
              (forall k :: k in allowed ==> k in out && out[k] == allowed[k]) &&
              (forall k :: k in out && k !in allowed ==> k.0 == cid && k.1 in roomIds)
    decreases |rs|
  {
    if |rs| > 0 {
      assert forall j :: 1 <= j < |rs| ==> rs[j] == rs[1..][j - 1];
      if rs[0].id.Int? {
        var r := rs[0].id.v;
        if r !in roomIds {
          RoomPrefsPassFacts(cid, rs[1..], roomIds, allowed);
        } else if !rs[0].pref.Unreadable? {
          var p := RealOrDefault(rs[0].pref, 0.0).value;
          RoomPrefsPassFacts(cid, rs[1..], roomIds, if (cid, r) in allowed then allowed else allowed[(cid, r) := p]);
        }
      }
    }
  }

  /** One slot per `<time>`, in order, each for class `cid`, and the counter moves with them. */
  lemma {:induction false} TimesPassFacts(cid: int, ts: seq<TimeElem>, slots: seq<SlotRow>, timed: nat)
    ensures TimesPass(cid, ts, slots, timed).Ran? <==> forall j :: 0 <= j < |ts| ==> TimeArgs(cid, ts[j]).Some?
    ensures TimesPass(cid, ts, slots, timed).Ran? ==>
              var (out, n) := TimesPass(cid, ts, slots, timed).out;
              |out| == |slots| + |ts| && out[..|slots|] == slots && n == timed + |ts| &&
              forall j :: 0 <= j < |ts| ==> Some(out[|slots| + j]) == TimeArgs(cid, ts[j])
    decreases |ts|
  {
    if |ts| > 0 {
      assert forall j :: 1 <= j < |ts| ==> ts[j] == ts[1..][j - 1];
      if TimeArgs(cid, ts[0]).Some? {
        var row := TimeArgs(cid, ts[0]).value;
        TimesPassFacts(cid, ts[1..], slots + [row], timed + 1);
        if TimesPass(cid, ts, slots, timed).Ran? {
          var (out, n) := TimesPass(cid, ts, slots, timed).out;
          assert out[..|slots| + 1] == slots + [row];
          assert out[..|slots|] == (slots + [row])[..|slots|];
          assert out[|slots|] == (slots + [row])[|slots|];
        }
      }
    }
  }

  /**
   * From `t` to `u` the link tables only grew, and only for classes in
   * `owners`, with instructors in `staff` and rooms in `roomIds`; stored room
   * preferences and slots are untouched and the slot counter follows the slots.
   */
  ghost predicate Grows(t: ClassTables, u: ClassTables, owners: set<int>, staff: set<int>, roomIds: set<int>) {
    t.teaches <= u.teaches &&
    (forall q :: q in u.teaches && q !in t.teaches ==> q.0 in owners && q.1 in staff) &&
    (forall k :: k in t.allowed ==> k in u.allowed && u.allowed[k] == t.allowed[k]) &&
    (forall k :: k in u.allowed && k !in t.allowed ==> k.0 in owners && k.1 in roomIds) &&
    |t.slots| <= |u.slots| && u.slots[..|t.slots|] == t.slots &&
    (forall i :: |t.slots| <= i < |u.slots| ==> u.slots[i].classId in owners) &&
    u.timed == t.timed + (|u.slots| - |t.slots|)
  }

  lemma GrowsTrans(a: ClassTables, b: ClassTables, c: ClassTables, f1: set<int>, f2: set<int>, f: set<int>,
                   staff: set<int>, roomIds: set<int>)
    requires Grows(a, b, f1, staff, roomIds) && Grows(b, c, f2, staff, roomIds)
    requires f1 <= f && f2 <= f
    ensures Grows(a, c, f, staff, roomIds)
  {
    assert c.slots[..|a.slots|] == c.slots[..|b.slots|][..|a.slots|];
    forall i | |a.slots| <= i < |c.slots|
      ensures c.slots[i].classId in f
    {
      if i < |b.slots| {
        assert c.slots[i] == c.slots[..|b.slots|][i];
      }
    }
  }

  /** Every `<instructor>`, `<room>` and `<time>` of a class converts. */
  predicate CleanChildren(e: ClassElem) {
    (forall j :: 0 <= j < |e.instructors| ==> e.instructors[j].Int?) &&
    ReadableRooms(e.rooms) &&
    (forall j :: 0 <= j < |e.times| ==> TimeArgs(0, e.times[j]).Some?)
  }

  lemma TimeArgsAnyClass(cid: int, e: TimeElem)
    ensures TimeArgs(cid, e).Some? <==> TimeArgs(0, e).Some?
  {
  }

  /** The children of a new class only add links and slots for that class. */
  lemma ChildrenFacts(cid: int, e: ClassElem, staff: set<int>, roomIds: set<int>, t: ClassTables)
    ensures CleanChildren(e) ==> Children(cid, e, staff, roomIds, t).Ran?
    ensures Children(cid, e, staff, roomIds, t).Ran? ==>
              var u := Children(cid, e, staff, roomIds, t).out;
              u.classes == t.classes && u.made == t.made && Grows(t, u, {cid}, staff, roomIds)
  {
    TeachersPassFacts(cid, e.instructors, staff, t.teaches);
    var x := TeachersPass(cid, e.instructors, staff, t.teaches);
    if x.Ran? {
      RoomPrefsPassFacts(cid, e.rooms, roomIds, t.allowed);
      var y := RoomPrefsPass(cid, e.rooms, roomIds, t.allowed);
      if y.Ran? {
        TimesPassFacts(cid, e.times, t.slots, t.timed);
        forall j | 0 <= j < |e.times| {
          TimeArgsAnyClass(cid, e.times[j]);
        }
        var z := TimesPass(cid, e.times, t.slots, t.timed);
        if z.Ran? {
          forall i | |t.slots| <= i < |z.out.0|
            ensures z.out.0[i].classId == cid
          {
            assert Some(z.out.0[|t.slots| + (i - |t.slots|)]) == TimeArgs(cid, e.times[i - |t.slots|]);
          }
        }
      }
    }
  }

  // ---------------------------------------------------------------------------
  // Facts about the classes pass
  // ---------------------------------------------------------------------------

  lemma {:induction false} ClassIdsCons(cs: seq<ClassElem>)
    requires |cs| > 0 && ClassArgs(cs[0]).Some?
    ensures ClassIds(cs) == {ClassArgs(cs[0]).value.0} + ClassIds(cs[1..])
  {
  }

  /** The step the classes pass takes for a `<class>` whose attributes convert. */
  lemma ClassesPassStep(cs: seq<ClassElem>, staff: set<int>, roomIds: set<int>, t: ClassTables)
    requires |cs| > 0 && ClassArgs(cs[0]).Some?
    ensures var (id, row) := ClassArgs(cs[0]).value;
            var c := Children(id, cs[0], staff, roomIds, t.(classes := t.classes[id := row], made := t.made + 1));
            ClassesPass(cs, staff, roomIds, t) ==
              if id in t.classes then ClassesPass(cs[1..], staff, roomIds, t)
              else if c.Broke? then c
              else ClassesPass(cs[1..], staff, roomIds, c.out)
  {
  }

  /** A classes pass that goes through met only `<class>` elements whose attributes convert. */
  lemma {:induction false} ClassesPassArgs(cs: seq<ClassElem>, staff: set<int>, roomIds: set<int>, t: ClassTables)
    requires ClassesPass(cs, staff, roomIds, t).Ran?
    ensures forall i :: 0 <= i < |cs| ==> ClassArgs(cs[i]).Some?
    decreases |cs|
  {
    if |cs| > 0 {
      var (id, row) := ClassArgs(cs[0]).value;
      ClassesPassStep(cs, staff, roomIds, t);
      assert forall i :: 1 <= i < |cs| ==> cs[i] == cs[1..][i - 1];
      if id in t.classes {
        ClassesPassArgs(cs[1..], staff, roomIds, t);
      } else {
        var t' := Children(id, cs[0], staff, roomIds, t.(classes := t.classes[id := row], made := t.made + 1)).out;
        ClassesPassArgs(cs[1..], staff, roomIds, t');
      }
    }
  }

  /** Every class of the file is stored afterwards, and a class stored before keeps its row. */
  lemma {:induction false} ClassesPassKeys(cs: seq<ClassElem>, staff: set<int>, roomIds: set<int>, t: ClassTables)
    requires ClassesPass(cs, staff, roomIds, t).Ran?
    ensures ClassesPass(cs, staff, roomIds, t).out.classes.Keys == t.classes.Keys + ClassIds(cs)
    ensures forall k :: k in t.classes ==> ClassesPass(cs, staff, roomIds, t).out.classes[k] == t.classes[k]
    decreases |cs|
  {
    if |cs| > 0 {
      var (id, row) := ClassArgs(cs[0]).value;
      ClassesPassStep(cs, staff, roomIds, t);
      ClassIdsCons(cs);
      if id in t.classes {
        ClassesPassKeys(cs[1..], staff, roomIds, t);
      } else {
        var t1 := t.(classes := t.classes[id := row], made := t.made + 1);
        ChildrenFacts(id, cs[0], staff, roomIds, t1);
        var t' := Children(id, cs[0], staff, roomIds, t1).out;
        ClassesPassKeys(cs[1..], staff, roomIds, t');
      }
    }
  }

  lemma ClassKeysStep(t: ClassTables, id: int, row: ClassRow)
    requires id !in t.classes
    ensures t.(classes := t.classes[id := row], made := t.made + 1).classes.Keys == t.classes.Keys + {id}
  {
  }

  /** The classes counter grows by the number of class ids not stored before. */
  lemma {:induction false} ClassesPassCounts(cs: seq<ClassElem>, staff: set<int>, roomIds: set<int>, t: ClassTables)
    requires ClassesPass(cs, staff, roomIds, t).Ran?
    ensures ClassesPass(cs, staff, roomIds, t).out.made == t.made + |ClassIds(cs) - t.classes.Keys|
    decreases |cs|
  {
    if |cs| > 0 {
      var (id, row) := ClassArgs(cs[0]).value;
      ClassesPassStep(cs, staff, roomIds, t);
      ClassIdsCons(cs);
      if id in t.classes {
        ClassesPassCounts(cs[1..], staff, roomIds, t);
        CountStep(id, ClassIds(cs[1..]), t.classes.Keys, t.made);
      } else {
        var t1 := t.(classes := t.classes[id := row], made := t.made + 1);
        ChildrenFacts(id, cs[0], staff, roomIds, t1);
        var t' := Children(id, cs[0], staff, roomIds, t1).out;
        ClassesPassCounts(cs[1..], staff, roomIds, t');
        ClassKeysStep(t, id, row);
        CountStep(id, ClassIds(cs[1..]), t.classes.Keys, t.made);
      }
    }
  }

  /**
   * Instructor links, room preferences and slots are added only for classes
   * this pass created; what was stored stays.
   */
  lemma {:induction false} ClassesPassOnlyNew(cs: seq<ClassElem>, staff: set<int>, roomIds: set<int>, t: ClassTables)
    requires ClassesPass(cs, staff, roomIds, t).Ran?
    ensures Grows(t, ClassesPass(cs, staff, roomIds, t).out, ClassIds(cs) - t.classes.Keys, staff, roomIds)
    decreases |cs|
  {
    var f := ClassIds(cs) - t.classes.Keys;
    if |cs| == 0 {
      assert t.slots[..|t.slots|] == t.slots;
    } else {
      var (id, row) := ClassArgs(cs[0]).value;
      ClassesPassStep(cs, staff, roomIds, t);
      ClassIdsCons(cs);
      var out := ClassesPass(cs, staff, roomIds, t).out;
      if id in t.classes {
        ClassesPassOnlyNew(cs[1..], staff, roomIds, t);
      } else {
        var t1 := t.(classes := t.classes[id := row], made := t.made + 1);
        ChildrenFacts(id, cs[0], staff, roomIds, t1);
        var t' := Children(id, cs[0], staff, roomIds, t1).out;
        ClassesPassOnlyNew(cs[1..], staff, roomIds, t');
        ClassKeysStep(t, id, row);
        GrowsTrans(t, t', out, {id}, ClassIds(cs[1..]) - t'.classes.Keys, f, staff, roomIds);
      }
    }
  }

  /** A file whose classes all convert goes through the classes pass. */
  lemma {:induction false} CleanClassesRun(cs: seq<ClassElem>, staff: set<int>, roomIds: set<int>, t: ClassTables)
    requires forall i :: 0 <= i < |cs| ==> ClassArgs(cs[i]).Some? && CleanChildren(cs[i])
    ensures ClassesPass(cs, staff, roomIds, t).Ran?
    decreases |cs|
  {
    if |cs| > 0 {
      var (id, row) := ClassArgs(cs[0]).value;
      ClassesPassStep(cs, staff, roomIds, t);
      assert forall i :: 1 <= i < |cs| ==> cs[i] == cs[1..][i - 1];
      if id in t.classes {
        CleanClassesRun(cs[1..], staff, roomIds, t);
      } else {
        var t1 := t.(classes := t.classes[id := row], made := t.made + 1);
        ChildrenFacts(id, cs[0], staff, roomIds, t1);
        CleanClassesRun(cs[1..], staff, roomIds, Children(id, cs[0], staff, roomIds, t1).out);
      }
    }
  }

  /** When every class of the file is already stored, the classes pass changes nothing and counts nothing. */
  lemma {:induction false} ClassesPassStored(cs: seq<ClassElem>, staff: set<int>, roomIds: set<int>, t: ClassTables)
    requires forall i :: 0 <= i < |cs| ==> ClassArgs(cs[i]).Some?
    requires ClassIds(cs) <= t.classes.Keys
    ensures ClassesPass(cs, staff, roomIds, t) == Ran(t)
    decreases |cs|
  {
    if |cs| > 0 {
      ClassesPassStep(cs, staff, roomIds, t);
      ClassIdsCons(cs);
      assert forall i :: 1 <= i < |cs| ==> cs[i] == cs[1..][i - 1];
      ClassesPassStored(cs[1..], staff, roomIds, t);
    }
  }

  // ---------------------------------------------------------------------------
  // Facts about the parents pass
  // ---------------------------------------------------------------------------

  /**
   * The parent the pass leaves on class `k`: the one named by the last
   * `<class>` with id `k` whose parent is also a class of the file.
   */
  function LastParent(cs: seq<ClassElem>, known: set<int>, k: int): (r: Option<int>)
    ensures r.Some? ==> r.value in known && k in known
  {
    if |cs| == 0 then None
    else
      var later := LastParent(cs[1..], known, k);
      if later.Some? then later
      else if cs[0].id == Int(k) && k in known && cs[0].parent.Int? && cs[0].parent.v in known then Some(cs[0].parent.v)
      else None
  }

  /** The parents pass fails exactly on an unreadable class id, or an unreadable parent of a class of the file. */
  lemma {:induction false} ParentsPassRuns(cs: seq<ClassElem>, known: set<int>, classes: map<int, ClassRow>)
    ensures ParentsPass(cs, known, classes).Ran? <==>
              forall i :: 0 <= i < |cs| ==> cs[i].id.Int? && (cs[i].id.v in known ==> !cs[i].parent.Garbled?)
    decreases |cs|
  {
    if |cs| > 0 {
      assert forall i :: 1 <= i < |cs| ==> cs[i] == cs[1..][i - 1];
      if cs[0].id.Int? {
        var id := cs[0].id.v;
        if id !in known {
          ParentsPassRuns(cs[1..], known, classes);
        } else if !cs[0].parent.Garbled? {
          ParentsPassRuns(cs[1..], known, SetParent(classes, id, IfGiven(cs[0].parent).value, known));
        }
      }
    }
  }

  /** The class rows with their parents replaced as `LastParent` says. */
  function WithParents(cs: seq<ClassElem>, known: set<int>, classes: map<int, ClassRow>): map<int, ClassRow> {
    map k | k in classes :: if LastParent(cs, known, k).Some? then classes[k].(parent := LastParent(cs, known, k)) else classes[k]
  }

  /** The pass only sets parents, and each class ends with the last parent the file gives it. */
  lemma {:induction false} ParentsPassMeaning(cs: seq<ClassElem>, known: set<int>, classes: map<int, ClassRow>)
    requires ParentsPass(cs, known, classes).Ran?
    ensures ParentsPass(cs, known, classes).out == WithParents(cs, known, classes)
    decreases |cs|
  {
    if |cs| == 0 {
      assert WithParents(cs, known, classes) == classes;
    } else {
      var id := cs[0].id.v;
      if id !in known {
        ParentsPassMeaning(cs[1..], known, classes);
        assert WithParents(cs, known, classes) == WithParents(cs[1..], known, classes);
      } else {
        var p := IfGiven(cs[0].parent).value;
        var m1 := SetParent(classes, id, p, known);
        ParentsPassMeaning(cs[1..], known, m1);
        assert m1.Keys == classes.Keys;
        forall k | k in classes
          ensures WithParents(cs[1..], known, m1)[k] == WithParents(cs, known, classes)[k]
        {
        }
      }
    }
  }

  /** Running the parents pass again over its own result changes nothing. */
  lemma ParentsPassIdempotent(cs: seq<ClassElem>, known: set<int>, classes: map<int, ClassRow>)
    requires ParentsPass(cs, known, classes).Ran?
    ensures var m := ParentsPass(cs, known, classes).out;
            ParentsPass(cs, known, m) == Ran(m)
  {
    var m := ParentsPass(cs, known, classes).out;
    ParentsPassRuns(cs, known, classes);
    ParentsPassRuns(cs, known, m);
    ParentsPassMeaning(cs, known, classes);
    ParentsPassMeaning(cs, known, m);
    assert WithParents(cs, known, m) == m;
  }

  // ---------------------------------------------------------------------------
  // Facts about the students pass
  // ---------------------------------------------------------------------------

  /** How many of the listed classes are classes of the file. */
  function KnownCount(ns: seq<Num>, known: set<int>): nat {
    if |ns| == 0 then 0
    else (if ns[0].Int? && ns[0].v in known then 1 else 0) + KnownCount(ns[1..], known)
  }

  /** The listings of classes of the file, over all students: what the enrolments counter counts. */
  function Listings(ss: seq<StudentElem>, known: set<int>): nat {
    if |ss| == 0 then 0 else KnownCount(ss[0].classes, known) + Listings(ss[1..], known)
  }

  function StudentIds(ss: seq<StudentElem>): set<int> {
    if |ss| == 0 then {}
    else (if ss[0].id.Int? then {ss[0].id.v} else {}) + StudentIds(ss[1..])
  }

  /** Student `q.0` lists class `q.1`, a class of the file. */
  ghost predicate Enrols(ss: seq<StudentElem>, known: set<int>, q: (int, int)) {
    exists i :: 0 <= i < |ss| && ss[i].id == Int(q.0) && Int(q.1) in ss[i].classes && q.1 in known
  }

  /** The enrolments of one student: each listed class of the file, counted once per listing. */
  lemma {:induction false} EnrolPassFacts(sid: int, ns: seq<Num>, known: set<int>, t: StudentTables)
    ensures EnrolPass(sid, ns, known, t).Ran? <==> forall j :: 0 <= j < |ns| ==> ns[j].Int?
    ensures EnrolPass(sid, ns, known, t).Ran? ==>
              var u := EnrolPass(sid, ns, known, t).out;
              u.students == t.students && u.made == t.made &&
              u.enrolments == t.enrolments + KnownCount(ns, known) &&
              forall q :: q in u.enrolled <==> q in t.enrolled || (q.0 == sid && Int(q.1) in ns && q.1 in known)
    decreases |ns|
  {
    if |ns| > 0 {
      assert forall j :: 1 <= j < |ns| ==> ns[j] == ns[1..][j - 1];
      assert ns == [ns[0]] + ns[1..];
      if ns[0].Int? {
        var c := ns[0].v;
        if c in known {
          EnrolPassFacts(sid, ns[1..], known, t.(enrolled := t.enrolled + {(sid, c)}, enrolments := t.enrolments + 1));
        } else {
          EnrolPassFacts(sid, ns[1..], known, t);
        }
      }
    }
  }

  /** The students pass fails exactly on an unreadable student id or class id. */
  lemma {:induction false} StudentsPassRuns(ss: seq<StudentElem>, known: set<int>, t: StudentTables)
    ensures StudentsPass(ss, known, t).Ran? <==>
              forall i :: 0 <= i < |ss| ==> ss[i].id.Int? && forall j :: 0 <= j < |ss[i].classes| ==> ss[i].classes[j].Int?
    decreases |ss|
  {
    if |ss| > 0 {
      assert forall i :: 1 <= i < |ss| ==> ss[i] == ss[1..][i - 1];
      if ss[0].id.Int? {
        var sid := ss[0].id.v;
        var t1 := if sid in t.students then t else t.(students := t.students + {sid}, made := t.made + 1);
        EnrolPassFacts(sid, ss[0].classes, known, t1);
        if EnrolPass(sid, ss[0].classes, known, t1).Ran? {
          StudentsPassRuns(ss[1..], known, EnrolPass(sid, ss[0].classes, known, t1).out);
        }
      }
    }
  }

  lemma StudentStep(t: StudentTables, sid: int)
    ensures var t1 := if sid in t.students then t else t.(students := t.students + {sid}, made := t.made + 1);
            t1.students == t.students + {sid} && t1.made == (if sid in t.students then t.made else t.made + 1) &&
            t1.enrolled == t.enrolled && t1.enrolments == t.enrolments
  {
  }

  /** Every student of the file is stored afterwards. */
  lemma {:induction false} StudentsPassStudents(ss: seq<StudentElem>, known: set<int>, t: StudentTables)
    requires StudentsPass(ss, known, t).Ran?
    ensures StudentsPass(ss, known, t).out.students == t.students + StudentIds(ss)
    decreases |ss|
  {
    if |ss| > 0 {
      var sid := ss[0].id.v;
      var t1 := if sid in t.students then t else t.(students := t.students + {sid}, made := t.made + 1);
      StudentStep(t, sid);
      EnrolPassFacts(sid, ss[0].classes, known, t1);
      StudentsPassStudents(ss[1..], known, EnrolPass(sid, ss[0].classes, known, t1).out);
    }
  }

  /** The students counter grows by the number of student ids not stored before. */
  lemma {:induction false} StudentsPassCounts(ss: seq<StudentElem>, known: set<int>, t: StudentTables)
    requires StudentsPass(ss, known, t).Ran?
    ensures StudentsPass(ss, known, t).out.made == t.made + |StudentIds(ss) - t.students|
    decreases |ss|
  {
    if |ss| > 0 {
      var sid := ss[0].id.v;
      var t1 := if sid in t.students then t else t.(students := t.students + {sid}, made := t.made + 1);
      StudentStep(t, sid);
      EnrolPassFacts(sid, ss[0].classes, known, t1);
      StudentsPassCounts(ss[1..], known, EnrolPass(sid, ss[0].classes, known, t1).out);
      CountStep(sid, StudentIds(ss[1..]), t.students, t.made);
      if sid in t.students {
        assert t.students + {sid} == t.students;
      }
    }
  }

  /** The enrolments are the listings of classes of the file, and the counter counts every listing. */
  lemma {:induction false} StudentsPassEnrols(ss: seq<StudentElem>, known: set<int>, t: StudentTables)
    requires StudentsPass(ss, known, t).Ran?
    ensures StudentsPass(ss, known, t).out.enrolments == t.enrolments + Listings(ss, known)
    ensures forall q :: q in StudentsPass(ss, known, t).out.enrolled <==> q in t.enrolled || Enrols(ss, known, q)
    decreases |ss|
  {
    if |ss| > 0 {
      var sid := ss[0].id.v;
      var t1 := if sid in t.students then t else t.(students := t.students + {sid}, made := t.made + 1);
      StudentStep(t, sid);
      EnrolPassFacts(sid, ss[0].classes, known, t1);
      var t2 := EnrolPass(sid, ss[0].classes, known, t1).out;
      StudentsPassEnrols(ss[1..], known, t2);
      var u := StudentsPass(ss, known, t).out;
      forall q
        ensures q in u.enrolled <==> q in t.enrolled || Enrols(ss, known, q)
      {
        if Enrols(ss[1..], known, q) {
          var i :| 0 <= i < |ss[1..]| && ss[1..][i].id == Int(q.0) && Int(q.1) in ss[1..][i].classes && q.1 in known;
          assert ss[i + 1] == ss[1..][i];
        }
        if Enrols(ss, known, q) {
          var i :| 0 <= i < |ss| && ss[i].id == Int(q.0) && Int(q.1) in ss[i].classes && q.1 in known;
          if i > 0 {
            assert ss[1..][i - 1] == ss[i];
          }
        }
      }
    } else {
      assert forall q :: !Enrols(ss, known, q);
    }
  }

  // ---------------------------------------------------------------------------
  // The import as a whole
  // ---------------------------------------------------------------------------

  /** The database and counters after each of the first five passes of a successful import. */
  lemma PassesTrace(doc: Document, db: Db) returns (p1: Progress, p2: Progress, p3: Progress, p4: Progress, p5: Progress)
    requires Passes(doc, db).Ran?
    ensures StageRooms(Section(doc.rooms), Progress(db, NoStats)) == Ran(p1)
    ensures StageInstructors(Section(doc.classes), p1) == Ran(p2)
    ensures StageCourses(Section(doc.classes), p2) == Ran(p3)
    ensures StageClasses(Section(doc.classes), p3) == Ran(p4)
    ensures StageParents(Section(doc.classes), p4) == Ran(p5)
    ensures Passes(doc, db) == StageStudents(Section(doc.students), ClassIds(Section(doc.classes)), p5)
  {
    var cs := Section(doc.classes);
    p1 := StageRooms(Section(doc.rooms), Progress(db, NoStats)).out;
    p2 := StageInstructors(cs, p1).out;
    p3 := StageCourses(cs, p2).out;
    p4 := StageClasses(cs, p3).out;
    p5 := StageParents(cs, p4).out;
  }

  predicate CleanRoom(e: RoomElem) {
    e.id.Int? && (e.capacity.Absent? || e.capacity.Int?)
  }

  predicate CleanClass(e: ClassElem) {
    e.id.Int? && !e.offering.Garbled? && !e.config.Garbled? && !e.subpart.Garbled? &&
    (e.classLimit.Absent? || e.classLimit.Int?) && !e.scheduler.Garbled? && !e.parent.Garbled? &&
    CleanChildren(e)
  }

  predicate CleanStudent(e: StudentElem) {
    e.id.Int? && forall j :: 0 <= j < |e.classes| ==> e.classes[j].Int?
  }

  /** Every attribute the import converts is readable, or missing where a default applies. */
  predicate Clean(doc: Document) {
    (forall i :: 0 <= i < |Section(doc.rooms)| ==> CleanRoom(Section(doc.rooms)[i])) &&
    (forall i :: 0 <= i < |Section(doc.classes)| ==> CleanClass(Section(doc.classes)[i])) &&
    (forall i :: 0 <= i < |Section(doc.students)| ==> CleanStudent(Section(doc.students)[i]))
  }

  /** A clean document always imports, whatever the database holds. */
  lemma CleanPassesRun(doc: Document, db: Db)
    requires Clean(doc)
    ensures Passes(doc, db).Ran?
  {
    var es, cs, ss := Section(doc.rooms), Section(doc.classes), Section(doc.students);
    forall i | 0 <= i < |es| ensures RoomArgs(es[i]).Some? {
      RoomArgsMeaning(es[i]);
    }
    RoomsPassSucceeds(es, (db.rooms, 0));
    var p1 := StageRooms(es, Progress(db, NoStats)).out;
    var p2 := StageInstructors(cs, p1).out;
    var p3 := StageCourses(cs, p2).out;
    var t := ClassTables(p3.db.classes, p3.db.teaches, p3.db.allowed, p3.db.slots, p3.stats.classes, p3.stats.timeSlots);
    CleanClassesRun(cs, p3.db.instructors, p3.db.rooms.Keys, t);
    var p4 := StageClasses(cs, p3).out;
    ParentsPassRuns(cs, ClassIds(cs), p4.db.classes);
    var p5 := StageParents(cs, p4).out;
    StudentsPassRuns(ss, ClassIds(cs), StudentTables(p5.db.students, p5.db.enrolled, p5.stats.students, p5.stats.enrollments));
  }

  /** A POST with a clean document is answered 200 with its counters. */
  lemma CleanImportSucceeds(req: Request, db: Db)
    requires req.httpMethod == "POST" && req.file.Some? && req.file.value.Parsed? && Clean(req.file.value.doc)
    ensures Import(req, db).0.status == 200 && Import(req, db).0.stats.Some?
  {
    CleanPassesRun(req.file.value.doc, Start(req, db));
  }

  /** A document with one room (import id 1) and one class whose id does not convert. */
  function PartialDoc(): Document {
    var bad := ClassElem(Garbled, Absent, Absent, Absent, Absent, None, Absent, None, Absent, [], [], []);
    Document(Some([RoomElem(Int(1), Absent, None, None)]), Some([bad]), None)
  }

  /** On `PartialDoc` the room pass stores room 1 and the class pass then breaks. */
  lemma PartialPasses()
    ensures Passes(PartialDoc(), EmptyDb).Broke? && 1 in Passes(PartialDoc(), EmptyDb).at.db.rooms
  {
    var doc := PartialDoc();
    var bad := doc.classes.value[0];
    var room := doc.rooms.value[0];
    assert RoomsPass([room], (map[], 0)) == Ran((map[1 := RoomRow(0, "", Flag(None))], 1));
    var p1 := Progress(EmptyDb.(rooms := map[1 := RoomRow(0, "", Flag(None))]), NoStats.(rooms := 1));
    assert StageRooms([room], Progress(EmptyDb, NoStats)) == Ran(p1);
    assert NumIds(bad.instructors).Some?;
    assert InstructorIds([bad]).Some? && OfferingIds([bad]).Some?;
    assert ClassArgs(bad).None?;
    assert StageClasses([bad], StageCourses([bad], StageInstructors([bad], p1).out).out).Broke?;
  }

  /**
   * For `PartialDoc` the view answers 500, yet the room it wrote before the
   * error stays stored, while the rolled-back import leaves the database
   * empty.
   */
  lemma PartialImportPersists()
    ensures var req := Request("POST", Some(Parsed(PartialDoc())), None);
            ImportAsWritten(req, EmptyDb).0.status == 500 &&
            1 in ImportAsWritten(req, EmptyDb).1.rooms &&
            Import(req, EmptyDb) == (Response(500, None), EmptyDb)
  {
    PartialPasses();
  }

  /** A 200 answer comes from a POST whose file parsed and whose passes all went through. */
  lemma Answered(req: Request, db: Db)
    requires ImportAsWritten(req, db).0.status == 200
    ensures req.httpMethod == "POST" && req.file.Some? && req.file.value.Parsed?
    ensures Passes(req.file.value.doc, Start(req, db)).Ran?
    ensures Import(req, db) == ImportAsWritten(req, db)
    ensures ImportAsWritten(req, db) ==
              (Response(200, Some(Passes(req.file.value.doc, Start(req, db)).out.stats)),
               Passes(req.file.value.doc, Start(req, db)).out.db)
  {
  }

  /**
   * The counters of a successful import: each counts the import ids of its
   * kind that were not stored when the passes began, the slot counter counts
   * the slots added, and the enrolment counter counts every listing of a
   * class of the file.
   */
  lemma ImportCounts(req: Request, db: Db)
    requires Import(req, db).0.status == 200
    ensures req.file.Some? && req.file.value.Parsed?
    ensures var doc, d0 := req.file.value.doc, Start(req, db);
            var cs, d, st := Section(doc.classes), Import(req, db).1, Import(req, db).0.stats;
            InstructorIds(cs).Some? && OfferingIds(cs).Some? && st.Some? &&
            st.value.rooms == |RoomIds(Section(doc.rooms)) - d0.rooms.Keys| &&
            st.value.instructors == |InstructorIds(cs).value - d0.instructors| &&
            st.value.courses == |OfferingIds(cs).value - d0.courses| &&
            st.value.classes == |ClassIds(cs) - d0.classes.Keys| &&
            st.value.timeSlots == |d.slots| - |d0.slots| &&
            st.value.students == |StudentIds(Section(doc.students)) - d0.students| &&
            st.value.enrollments == Listings(Section(doc.students), ClassIds(cs))
  {
    Answered(req, db);
    var doc, d0 := req.file.value.doc, Start(req, db);
    PassesTableCounts(doc, d0);
    PassesStudentCounts(doc, d0);
    PassesEnrolments(doc, d0);
  }

  /** The room, instructor, course, class and slot counters of a successful run. */
  lemma PassesTableCounts(doc: Document, d0: Db)
    requires Passes(doc, d0).Ran?
    ensures var cs, p := Section(doc.classes), Passes(doc, d0).out;
            InstructorIds(cs).Some? && OfferingIds(cs).Some? &&
            p.stats.rooms == |RoomIds(Section(doc.rooms)) - d0.rooms.Keys| &&
            p.stats.instructors == |InstructorIds(cs).value - d0.instructors| &&
            p.stats.courses == |OfferingIds(cs).value - d0.courses| &&
            p.stats.classes == |ClassIds(cs) - d0.classes.Keys| &&
            p.stats.timeSlots == |p.db.slots| - |d0.slots|
  {
    var cs := Section(doc.classes);
    var p1, p2, p3, p4, p5 := PassesTrace(doc, d0);
    RoomsPassCounts(Section(doc.rooms), (d0.rooms, 0));
    var t3 := ClassTables(p3.db.classes, p3.db.teaches, p3.db.allowed, p3.db.slots, p3.stats.classes, p3.stats.timeSlots);
    ClassesPassCounts(cs, p3.db.instructors, p3.db.rooms.Keys, t3);
    ClassesPassOnlyNew(cs, p3.db.instructors, p3.db.rooms.Keys, t3);
  }

  /** The student counter of a successful run counts the student ids not stored before. */
  lemma PassesStudentCounts(doc: Document, d0: Db)
    requires Passes(doc, d0).Ran?
    ensures Passes(doc, d0).out.stats.students == |StudentIds(Section(doc.students)) - d0.students|
  {
    var cs, ss := Section(doc.classes), Section(doc.students);
    var p1, p2, p3, p4, p5 := PassesTrace(doc, d0);
    var t5 := StudentTables(p5.db.students, p5.db.enrolled, p5.stats.students, p5.stats.enrollments);
    StudentsPassCounts(ss, ClassIds(cs), t5);
  }

  /**
   * Nothing stored is lost: rows stay as they were (a class may only change
   * its parent), link tables and id sets only grow, and the stored slots
   * stay at the front of the slot table.
   */
  ghost predicate Extends(a: Db, b: Db) {
    (forall k :: k in a.rooms ==> k in b.rooms && b.rooms[k] == a.rooms[k]) &&
    a.instructors <= b.instructors && a.courses <= b.courses &&
    (forall k :: k in a.classes ==> k in b.classes && b.classes[k].(parent := a.classes[k].parent) == a.classes[k]) &&
    a.teaches <= b.teaches &&
    (forall k :: k in a.allowed ==> k in b.allowed && b.allowed[k] == a.allowed[k]) &&
    |a.slots| <= |b.slots| && b.slots[..|a.slots|] == a.slots &&
    a.students <= b.students && a.enrolled <= b.enrolled
  }

  /** Without `clear_existing=true` a successful import only adds to the database. */
  lemma ImportKeeps(req: Request, db: Db)
    requires Import(req, db).0.status == 200
    ensures Extends(Start(req, db), Import(req, db).1)
    ensures req.clearExisting != Some("true") ==> Extends(db, Import(req, db).1)
  {
    Answered(req, db);
    var doc, d0 := req.file.value.doc, Start(req, db);
    var cs, ss := Section(doc.classes), Section(doc.students);
    var p1, p2, p3, p4, p5 := PassesTrace(doc, d0);
    RoomsPassAdds(Section(doc.rooms), (d0.rooms, 0));
    var t3 := ClassTables(p3.db.classes, p3.db.teaches, p3.db.allowed, p3.db.slots, p3.stats.classes, p3.stats.timeSlots);
    ClassesPassKeys(cs, p3.db.instructors, p3.db.rooms.Keys, t3);
    ClassesPassOnlyNew(cs, p3.db.instructors, p3.db.rooms.Keys, t3);
    ParentsPassMeaning(cs, ClassIds(cs), p4.db.classes);
    var t5 := StudentTables(p5.db.students, p5.db.enrolled, p5.stats.students, p5.stats.enrollments);
    StudentsPassStudents(ss, ClassIds(cs), t5);
    StudentsPassEnrols(ss, ClassIds(cs), t5);
  }

  /**
   * A class already stored gets no instructor link, room preference or slot
   * from the file: everything added belongs to a class of the file created
   * by this import.
   */
  lemma ImportChildrenOnlyNew(req: Request, db: Db)
    requires Import(req, db).0.status == 200
    ensures var d0, d := Start(req, db), Import(req, db).1;
            var ids := ClassIds(Section(req.file.value.doc.classes));
            (forall q :: q in d.teaches && q !in d0.teaches ==> q.0 in ids && q.0 !in d0.classes && q.1 in d.instructors) &&
            (forall k :: k in d.allowed && k !in d0.allowed ==> k.0 in ids && k.0 !in d0.classes && k.1 in d.rooms) &&
            (forall i :: |d0.slots| <= i < |d.slots| ==> d.slots[i].classId in ids && d.slots[i].classId !in d0.classes)
  {
    Answered(req, db);
    var doc, d0 := req.file.value.doc, Start(req, db);
    var cs := Section(doc.classes);
    var p1, p2, p3, p4, p5 := PassesTrace(doc, d0);
    var t3 := ClassTables(p3.db.classes, p3.db.teaches, p3.db.allowed, p3.db.slots, p3.stats.classes, p3.stats.timeSlots);
    ClassesPassOnlyNew(cs, p3.db.instructors, p3.db.rooms.Keys, t3);
  }

  /**
   * Parents after a successful import: a class the file gives a parent (a
   * class of the file) ends with the last such parent, and a stored class
   * the file gives none keeps its own.
   */
  lemma ImportParents(req: Request, db: Db)
    requires Import(req, db).0.status == 200
    ensures var d0, d := Start(req, db), Import(req, db).1;
            var cs := Section(req.file.value.doc.classes);
            forall k :: k in d.classes ==>
              if LastParent(cs, ClassIds(cs), k).Some? then d.classes[k].parent == LastParent(cs, ClassIds(cs), k)
              else k in d0.classes ==> d.classes[k].parent == d0.classes[k].parent
  {
    Answered(req, db);
    var doc, d0 := req.file.value.doc, Start(req, db);
    var cs := Section(doc.classes);
    var p1, p2, p3, p4, p5 := PassesTrace(doc, d0);
    var t3 := ClassTables(p3.db.classes, p3.db.teaches, p3.db.allowed, p3.db.slots, p3.stats.classes, p3.stats.timeSlots);
    ClassesPassKeys(cs, p3.db.instructors, p3.db.rooms.Keys, t3);
    ParentsPassMeaning(cs, ClassIds(cs), p4.db.classes);
  }

  // ---------------------------------------------------------------------------
  // Importing the same file again
  // ---------------------------------------------------------------------------

  /** When every room of the file is stored, the rooms pass changes nothing and counts nothing. */
  lemma {:induction false} RoomsPassStored(es: seq<RoomElem>, t: RoomTally)
    requires forall i :: 0 <= i < |es| ==> RoomArgs(es[i]).Some?
    requires RoomIds(es) <= t.0.Keys
    ensures RoomsPass(es, t) == Ran(t)
    decreases |es|
  {
    if |es| > 0 {
      var a := RoomArgs(es[0]).value;
      assert es[0].id == Int(a.0);
      assert forall i :: 1 <= i < |es| ==> es[i] == es[1..][i - 1];
      RoomsPassStored(es[1..], t);
    }
  }

  /** When every student and enrolment of the file is stored, the students pass only counts the listings. */
  lemma StudentsPassStored(ss: seq<StudentElem>, known: set<int>, t: StudentTables)
    requires StudentsPass(ss, known, t).Ran?
    requires StudentIds(ss) <= t.students
    requires forall q :: Enrols(ss, known, q) ==> q in t.enrolled
    ensures StudentsPass(ss, known, t) == Ran(t.(enrolments := t.enrolments + Listings(ss, known)))
  {
    StudentsPassStudents(ss, known, t);
    StudentsPassCounts(ss, known, t);
    StudentsPassEnrols(ss, known, t);
    var u := StudentsPass(ss, known, t).out;
    assert u.students == t.students;
    assert StudentIds(ss) - t.students == {};
    assert u.enrolled == t.enrolled;
  }

  /** Everything the document would create is already in `d`, and the document's conversions all go through. */
  ghost predicate Settled(doc: Document, d: Db) {
    var es, cs, ss := Section(doc.rooms), Section(doc.classes), Section(doc.students);
    (forall i :: 0 <= i < |es| ==> RoomArgs(es[i]).Some?) && RoomIds(es) <= d.rooms.Keys &&
    InstructorIds(cs).Some? && InstructorIds(cs).value <= d.instructors &&
    OfferingIds(cs).Some? && OfferingIds(cs).value <= d.courses &&
    (forall i :: 0 <= i < |cs| ==> ClassArgs(cs[i]).Some?) && ClassIds(cs) <= d.classes.Keys &&
    ParentsPass(cs, ClassIds(cs), d.classes) == Ran(d.classes) &&
    StudentsPass(ss, ClassIds(cs), StudentTables(d.students, d.enrolled, 0, 0)).Ran? &&
    StudentIds(ss) <= d.students &&
    (forall q :: Enrols(ss, ClassIds(cs), q) ==> q in d.enrolled)
  }

  /** A successful import leaves the database settled for its document. */
  lemma SuccessSettles(doc: Document, d0: Db)
    requires Passes(doc, d0).Ran?
    ensures Settled(doc, Passes(doc, d0).out.db)
  {
    var es, cs, ss := Section(doc.rooms), Section(doc.classes), Section(doc.students);
    var known := ClassIds(cs);
    var p1, p2, p3, p4, p5 := PassesTrace(doc, d0);
    var d1 := Passes(doc, d0).out.db;
    RoomsPassSucceeds(es, (d0.rooms, 0));
    RoomsPassAdds(es, (d0.rooms, 0));
    var t3 := ClassTables(p3.db.classes, p3.db.teaches, p3.db.allowed, p3.db.slots, p3.stats.classes, p3.stats.timeSlots);
    ClassesPassArgs(cs, p3.db.instructors, p3.db.rooms.Keys, t3);
    ClassesPassKeys(cs, p3.db.instructors, p3.db.rooms.Keys, t3);
    ParentsPassMeaning(cs, known, p4.db.classes);
    ParentsPassIdempotent(cs, known, p4.db.classes);
    var t5 := StudentTables(p5.db.students, p5.db.enrolled, p5.stats.students, p5.stats.enrollments);
    StudentsPassStudents(ss, known, t5);
    StudentsPassEnrols(ss, known, t5);
    StudentsPassRuns(ss, known, t5);
    StudentsPassRuns(ss, known, StudentTables(d1.students, d1.enrolled, 0, 0));
  }

  /** Over a settled database the passes change nothing and count only the enrolment listings. */
  lemma SettledPasses(doc: Document, d: Db)
    requires Settled(doc, d)
    ensures Passes(doc, d) ==
              Ran(Progress(d, NoStats.(enrollments := Listings(Section(doc.students), ClassIds(Section(doc.classes))))))
  {
    var es, cs, ss := Section(doc.rooms), Section(doc.classes), Section(doc.students);
    var known := ClassIds(cs);
    var ids, offers := InstructorIds(cs).value, OfferingIds(cs).value;
    assert d.instructors + ids == d.instructors && ids - d.instructors == {};
    assert d.courses + offers == d.courses && offers - d.courses == {};
    var q := Progress(d, NoStats);
    RoomsPassStored(es, (d.rooms, 0));
    assert StageRooms(es, q) == Ran(q);
    assert StageInstructors(cs, q) == Ran(q);
    assert StageCourses(cs, q) == Ran(q);
    ClassesPassStored(cs, d.instructors, d.rooms.Keys, ClassTables(d.classes, d.teaches, d.allowed, d.slots, 0, 0));
    assert StageClasses(cs, q) == Ran(q);
    assert StageParents(cs, q) == Ran(q);
    StudentsPassStored(ss, known, StudentTables(d.students, d.enrolled, 0, 0));
  }

  /** A successful run counts every listing of a class of the file as an enrolment. */
  lemma PassesEnrolments(doc: Document, d0: Db)
    requires Passes(doc, d0).Ran?
    ensures Passes(doc, d0).out.stats.enrollments == Listings(Section(doc.students), ClassIds(Section(doc.classes)))
  {
    var cs, ss := Section(doc.classes), Section(doc.students);
    var p1, p2, p3, p4, p5 := PassesTrace(doc, d0);
    var t5 := StudentTables(p5.db.students, p5.db.enrolled, p5.stats.students, p5.stats.enrollments);
    StudentsPassEnrols(ss, ClassIds(cs), t5);
  }

  /** Running the passes again over what a successful run left changes nothing and counts only the listings. */
  lemma PassesAgain(doc: Document, d0: Db)
    requires Passes(doc, d0).Ran?
    ensures var p := Passes(doc, d0).out;
            Passes(doc, p.db) == Ran(Progress(p.db, NoStats.(enrollments := p.stats.enrollments)))
  {
    SuccessSettles(doc, d0);
    SettledPasses(doc, Passes(doc, d0).out.db);
    PassesEnrolments(doc, d0);
  }

  /**
   * Importing the same file again without clearing, right after a
   * successful import, is answered 200, changes nothing, and reports no new
   * rows, only the enrolment listings counted again.
   */
  lemma ReimportChangesNothing(req: Request, db: Db)
    requires Import(req, db).0.status == 200
    ensures var (r1, d1) := Import(req, db);
            r1.stats.Some? &&
            Import(req.(clearExisting := None), d1) ==
              (Response(200, Some(NoStats.(enrollments := r1.stats.value.enrollments))), d1)
  {
    Answered(req, db);
    PassesAgain(req.file.value.doc, Start(req, db));
  }
}
