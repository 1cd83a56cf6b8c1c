/**
 * The workload, conflict and room-utilisation analysers: threshold rules
 * over instructor loads, the per-course staffing estimate, the
 * room/timeslot collision report and the room usage statuses.
 */
module Analysis {
  import opened Util
  import opened Grouping
  import opened Sorting
  import opened Records

  const OptimalLoad := 6
  const HighLoad := 8
  const Overload := 10

  // ---------------------------------------------------------------- load

  datatype LoadStatus = Optimal | High | Overloaded

  /** `_get_load_status`. */
  function GetLoadStatus(count: int): LoadStatus {
    if count >= Overload then Overloaded
    else if count >= HighLoad then High
    else Optimal
  }

  function Rank(s: LoadStatus): nat {
    match s
    case Optimal => 0
    case High => 1
    case Overloaded => 2
  }

  /** A heavier load never gets a lighter status, and each status covers one band of counts. */
  lemma LoadStatusBands(c1: int, c2: int)
    ensures c1 <= c2 ==> Rank(GetLoadStatus(c1)) <= Rank(GetLoadStatus(c2))
    ensures GetLoadStatus(c1) == Overloaded <==> c1 >= 10
    ensures GetLoadStatus(c1) == High <==> 8 <= c1 < 10
    ensures GetLoadStatus(c1) == Optimal <==> c1 < 8
  {
  }

  /** The advice of `_get_recommendation`, without its message text. */
  datatype Recommendation =
    | AssignRealInstructors(classes: int)
    | HireHelpers(helpers: int, redistribute: int)
    | ConsiderHelper(reduce: int)
    | CanTake(remaining: int)

  /** `_get_recommendation` as written: the optimal branch reports 6 − count even when that is negative. */
  function GetRecommendationAsWritten(count: int, xmlId: int): Recommendation {
    if IsSynthetic(xmlId) then AssignRealInstructors(count)
    else if count >= Overload then HireHelpers((count - OptimalLoad) / OptimalLoad + 1, count - OptimalLoad)
    else if count >= HighLoad then ConsiderHelper(count - OptimalLoad)
    else CanTake(OptimalLoad - count)
  }

  /** A count of seven is "optimal" yet told it can take −1 more classes. */
  lemma RemainingGoesNegative()
    ensures GetLoadStatus(7) == Optimal
    ensures GetRecommendationAsWritten(7, 1) == CanTake(-1)
  {
  }

  /** `_get_recommendation` with the optimal branch's spare capacity floored at zero. */
  function GetRecommendation(count: int, xmlId: int): Recommendation {
    if IsSynthetic(xmlId) then AssignRealInstructors(count)
    else if count >= Overload then HireHelpers((count - OptimalLoad) / OptimalLoad + 1, count - OptimalLoad)
    else if count >= HighLoad then ConsiderHelper(count - OptimalLoad)
    else CanTake(Max(OptimalLoad - count, 0))
  }

  /**
   * Synthetic instructors are handled first; otherwise the advice follows
   * the load status. An overloaded instructor is told to hire the fewest
   * helpers h ≥ 1 with 6·h above the excess over the optimal load; the
   * spare capacity reported for an optimal load is never negative and tops
   * the load up to six.
   */
  lemma RecommendationMeaning(count: int, xmlId: int)
    ensures var r := GetRecommendation(count, xmlId);
      (IsSynthetic(xmlId) <==> r == AssignRealInstructors(count)) &&
      (!IsSynthetic(xmlId) ==>
        (r.HireHelpers? <==> GetLoadStatus(count) == Overloaded) &&
        (r.ConsiderHelper? <==> GetLoadStatus(count) == High) &&
        (r.CanTake? <==> GetLoadStatus(count) == Optimal))
    ensures var r := GetRecommendation(count, xmlId);
      r.HireHelpers? ==> r.helpers >= 1 && 6 * (r.helpers - 1) <= count - 6 < 6 * r.helpers && r.redistribute >= 4
    ensures var r := GetRecommendation(count, xmlId);
      r.CanTake? ==> r.remaining >= 0 && (count <= 6 ==> count + r.remaining == 6)
    ensures !IsSynthetic(xmlId) && count < 7 ==> GetRecommendation(count, xmlId) == GetRecommendationAsWritten(count, xmlId)
  {
  }

  // ------------------------------------------------------------- buckets

  /** One row of the per-instructor query: the instructor and how many class links it has. */
  datatype InstructorRow = InstructorRow(instructorId: int, xmlId: int, classCount: nat)

  /** One `ClassInstructor` link, with the instructor's import id. */
  datatype Link = Link(classId: int, instructorId: int, instructorXmlId: int)

  function LinkPairs(links: seq<Link>): (r: seq<((int, int), int)>)
    ensures |r| == |links|
  {
    if |links| == 0 then []
    else
      var l := links[|links| - 1];
      LinkPairs(links[..|links| - 1]) + [((l.instructorId, l.instructorXmlId), l.classId)]
  }

  function RowOf(g: Group<(int, int), int>): InstructorRow {
    InstructorRow(g.key.0, g.key.1, |g.members|)
  }

  function RowsOf(gs: seq<Group<(int, int), int>>): (r: seq<InstructorRow>)
    ensures |r| == |gs|
    ensures forall i :: 0 <= i < |gs| ==> r[i] == RowOf(gs[i])
  {
    if |gs| == 0 then [] else [RowOf(gs[0])] + RowsOf(gs[1..])
  }

  function CountKey(r: InstructorRow): int {
    r.classCount
  }

  /** `values(instructor...).annotate(class_count=Count(...)).order_by('-class_count')`. */
  function InstructorRows(links: seq<Link>): seq<InstructorRow> {
    Sort(RowsOf(GroupBy(LinkPairs(links))), ByKeyDesc(CountKey))
  }

  function SumCounts(rows: seq<InstructorRow>): nat {
    if |rows| == 0 then 0 else SumCounts(rows[..|rows| - 1]) + rows[|rows| - 1].classCount
  }

  datatype Bucket = SyntheticBucket | OverloadedBucket | HighLoadBucket | OptimalBucket

  /** Which list a row joins; the synthetic test comes first. */
  function Classify(r: InstructorRow): Bucket {
    if IsSynthetic(r.xmlId) then SyntheticBucket
    else if r.classCount >= Overload then OverloadedBucket
    else if r.classCount >= HighLoad then HighLoadBucket
    else OptimalBucket
  }

  /** The rows of one bucket, in query order. */
  function Bucketed(rows: seq<InstructorRow>, b: Bucket): (r: seq<InstructorRow>)
    ensures forall i :: 0 <= i < |r| ==> Classify(r[i]) == b
  {
    if |rows| == 0 then []
    else Bucketed(rows[..|rows| - 1], b) + (if Classify(rows[|rows| - 1]) == b then [rows[|rows| - 1]] else [])
  }

  datatype Workload = Workload(optimal: seq<InstructorRow>, highLoad: seq<InstructorRow>,
                               overloaded: seq<InstructorRow>, synthetic: seq<InstructorRow>,
                               totalInstructors: nat, totalClasses: nat, linkedClasses: nat, avgLoad: real)

  /** `analyze_instructor_workload`, without the missing-instructor list; `classCount` is `Class.objects.count()`. */
  function AnalyzeWorkload(links: seq<Link>, classCount: nat): Workload {
    var rows := InstructorRows(links);
    var total := SumCounts(rows);
    Workload(Bucketed(rows, OptimalBucket), Bucketed(rows, HighLoadBucket),
             Bucketed(rows, OverloadedBucket), Bucketed(rows, SyntheticBucket),
             |rows|, classCount, total, if |rows| > 0 then total as real / |rows| as real else 0.0)
  }

  /** Every row lands in exactly one bucket: the four lists together are a permutation of the rows. */
  lemma BucketsPartition(rows: seq<InstructorRow>)
    ensures multiset(Bucketed(rows, OptimalBucket)) + multiset(Bucketed(rows, HighLoadBucket)) +
            multiset(Bucketed(rows, OverloadedBucket)) + multiset(Bucketed(rows, SyntheticBucket)) == multiset(rows)
  {
    var all := multiset(Bucketed(rows, OptimalBucket)) + multiset(Bucketed(rows, HighLoadBucket)) +
               multiset(Bucketed(rows, OverloadedBucket)) + multiset(Bucketed(rows, SyntheticBucket));
    forall x ensures all[x] == multiset(rows)[x] {
      BucketedCount(rows, OptimalBucket, x);
      BucketedCount(rows, HighLoadBucket, x);
      BucketedCount(rows, OverloadedBucket, x);
      BucketedCount(rows, SyntheticBucket, x);
    }
  }

  /** A bucket holds every copy of the rows classified into it and nothing else. */
  lemma {:induction false} BucketedCount(rows: seq<InstructorRow>, b: Bucket, x: InstructorRow)
    ensures multiset(Bucketed(rows, b))[x] == if Classify(x) == b then multiset(rows)[x] else 0
  {
    if |rows| > 0 {
      var p := rows[..|rows| - 1];
      BucketedCount(p, b, x);
      assert rows == p + [rows[|rows| - 1]];
    }
  }

  lemma {:induction false} BucketedSorted(rows: seq<InstructorRow>, b: Bucket)
    requires SortedBy(rows, ByKeyDesc(CountKey))
    ensures SortedBy(Bucketed(rows, b), ByKeyDesc(CountKey))
    ensures forall x :: x in Bucketed(rows, b) ==> x in rows
  {
    if |rows| > 0 {
      var p := rows[..|rows| - 1];
      assert SortedBy(p, ByKeyDesc(CountKey));
      BucketedSorted(p, b);
      forall x | x in Bucketed(p, b) ensures CountKey(x) >= CountKey(rows[|rows| - 1]) {
        var i :| 0 <= i < |p| && p[i] == x;
        assert rows[i] == x;
      }
    }
  }

  /** Each group of links contributes its size; the sizes add up to the number of links. */
  lemma {:induction false} RowsTotal(gs: seq<Group<(int, int), int>>)
    ensures SumCounts(RowsOf(gs)) == TotalSize(gs)
  {
    if |gs| > 0 {
      RowsTotal(gs[1..]);
      SumCountsCons(RowOf(gs[0]), RowsOf(gs[1..]));
      assert RowsOf(gs) == [RowOf(gs[0])] + RowsOf(gs[1..]);
    }
  }

  lemma {:induction false} SumCountsCons(x: InstructorRow, rows: seq<InstructorRow>)
    ensures SumCounts([x] + rows) == x.classCount + SumCounts(rows)
    decreases |rows|
  {
    if |rows| > 0 {
      var p := rows[..|rows| - 1];
      assert ([x] + rows)[..|rows|] == [x] + p;
      SumCountsCons(x, p);
    }
  }

  lemma {:induction false} SumCountsPermutation(a: seq<InstructorRow>, b: seq<InstructorRow>)
    requires multiset(a) == multiset(b)
    ensures SumCounts(a) == SumCounts(b)
    decreases |a|
  {
    if |a| > 0 {
      var x := a[|a| - 1];
      var p := a[..|a| - 1];
      assert x in multiset(b) by {
        assert a == p + [x];
      }
      var i :| 0 <= i < |b| && b[i] == x;
      var q := b[..i] + b[i + 1..];
      RemoveMatching(a, b, i);
      SumCountsPermutation(p, q);
      assert b == b[..i] + [x] + b[i + 1..];
      SumCountsSplit(b[..i], b[i + 1..], x);
    }
  }

  lemma {:induction false} SumCountsSplit(u: seq<InstructorRow>, v: seq<InstructorRow>, x: InstructorRow)
    ensures SumCounts(u + [x] + v) == SumCounts(u + v) + x.classCount
    decreases |v|
  {
    if |v| == 0 {
      assert u + [x] + v == u + [x];
      assert u + v == u;
      assert (u + [x])[..|u|] == u;
    } else {
      var w := v[..|v| - 1];
      assert (u + [x] + v)[..|u + [x] + v| - 1] == u + [x] + w;
      assert (u + v)[..|u + v| - 1] == u + w;
      SumCountsSplit(u, w, x);
    }
  }

  /** Every instructor row lands in exactly one of the four lists. */
  lemma WorkloadPartition(links: seq<Link>, classCount: nat)
    ensures var w := AnalyzeWorkload(links, classCount);
      multiset(w.optimal) + multiset(w.highLoad) + multiset(w.overloaded) + multiset(w.synthetic)
        == multiset(InstructorRows(links)) &&
      |w.optimal| + |w.highLoad| + |w.overloaded| + |w.synthetic| == w.totalInstructors
  {
    var rows := InstructorRows(links);
    BucketsPartition(rows);
    var w := AnalyzeWorkload(links, classCount);
    assert |multiset(rows)| == |rows|;
  }

  /** Synthetic rows go to their own list first; every other row goes where its load status says. */
  lemma WorkloadClassification(links: seq<Link>, classCount: nat)
    ensures var w := AnalyzeWorkload(links, classCount);
      (forall r :: r in w.synthetic ==> IsSynthetic(r.xmlId)) &&
      (forall r :: r in w.overloaded ==> !IsSynthetic(r.xmlId) && GetLoadStatus(r.classCount) == Overloaded) &&
      (forall r :: r in w.highLoad ==> !IsSynthetic(r.xmlId) && GetLoadStatus(r.classCount) == High) &&
      (forall r :: r in w.optimal ==> !IsSynthetic(r.xmlId) && GetLoadStatus(r.classCount) == Optimal)
  {
  }

  /** Each list keeps the query's descending order of class counts. */
  lemma WorkloadOrder(links: seq<Link>, classCount: nat)
    ensures var w := AnalyzeWorkload(links, classCount);
      SortedBy(w.optimal, ByKeyDesc(CountKey)) && SortedBy(w.highLoad, ByKeyDesc(CountKey)) &&
      SortedBy(w.overloaded, ByKeyDesc(CountKey)) && SortedBy(w.synthetic, ByKeyDesc(CountKey))
  {
    var rows := InstructorRows(links);
    ByKeyDescPreorder(CountKey);
    SortCorrect(RowsOf(GroupBy(LinkPairs(links))), ByKeyDesc(CountKey));
    BucketedSorted(rows, OptimalBucket);
    BucketedSorted(rows, HighLoadBucket);
    BucketedSorted(rows, OverloadedBucket);
    BucketedSorted(rows, SyntheticBucket);
  }

  /** The per-instructor class counts add up to the number of instructor links. */
  lemma WorkloadTotal(links: seq<Link>, classCount: nat)
    ensures AnalyzeWorkload(links, classCount).linkedClasses == |links|
  {
    var gs := GroupBy(LinkPairs(links));
    ByKeyDescPreorder(CountKey);
    SortCorrect(RowsOf(gs), ByKeyDesc(CountKey));
    RowsTotal(gs);
    GroupByCorrect(LinkPairs(links));
    SumCountsPermutation(InstructorRows(links), RowsOf(gs));
  }

  /** With at least one instructor, the average load times the number of instructors is the number of links. */
  lemma AverageLoad(links: seq<Link>, classCount: nat)
    requires |InstructorRows(links)| > 0
    ensures var w := AnalyzeWorkload(links, classCount);
      w.avgLoad * w.totalInstructors as real == w.linkedClasses as real
  {
  }

  // ---------------------------------------------------- missing instructors

  datatype ClassRow = ClassRow(id: int, offering: Option<int>)

  datatype MissingRow = MissingRow(offeringId: int, totalSections: nat, withoutInstructor: int,
                                   withSynthetic: nat, professorsNeeded: int)

  /** The course of the class with this id, or `None` when it has none (or is unknown). */
  function OfferingOf(classes: seq<ClassRow>, classId: int): Option<int> {
    if |classes| == 0 then None
    else if classes[0].id == classId then classes[0].offering
    else OfferingOf(classes[1..], classId)
  }

  function SectionPairs(classes: seq<ClassRow>): (r: seq<(Option<int>, int)>)
    ensures |r| == |classes|
    ensures forall i :: 0 <= i < |r| ==> r[i] == (classes[i].offering, classes[i].id)
  {
    if |classes| == 0 then []
    else SectionPairs(classes[..|classes| - 1]) + [(classes[|classes| - 1].offering, classes[|classes| - 1].id)]
  }

  function SectionKey(g: Group<Option<int>, int>): int {
    |g.members|
  }

  /** `Class.objects.values('offering_id', ...).annotate(section_count=...).order_by('-section_count')`. */
  function Courses(classes: seq<ClassRow>): seq<Group<Option<int>, int>> {
    Sort(GroupBy(SectionPairs(classes)), ByKeyDesc(SectionKey))
  }

  /** The instructor links whose class belongs to course `o`, counting every link (a co-taught class counts once per instructor). */
  function LinksOfCourse(classes: seq<ClassRow>, links: seq<Link>, o: int, syntheticOnly: bool): nat {
    if |links| == 0 then 0
    else
      var l := links[|links| - 1];
      LinksOfCourse(classes, links[..|links| - 1], o, syntheticOnly) +
        (if OfferingOf(classes, l.classId) == Some(o) && (!syntheticOnly || IsSynthetic(l.instructorXmlId)) then 1 else 0)
  }

  /** The estimate for one course, or nothing when it is not listed. */
  function CourseEstimate(classes: seq<ClassRow>, links: seq<Link>, o: int, sections: nat): Option<MissingRow> {
    var withInstructor := LinksOfCourse(classes, links, o, false);
    var withSynthetic := LinksOfCourse(classes, links, o, true);
    var without := sections - withInstructor;
    if without > 0 || withSynthetic > 0 then
      Some(MissingRow(o, sections, without, withSynthetic, Max((sections - withInstructor + withSynthetic) / OptimalLoad, 1)))
    else None
  }

  function Estimates(classes: seq<ClassRow>, links: seq<Link>, courses: seq<Group<Option<int>, int>>): seq<MissingRow> {
    if |courses| == 0 then []
    else
      var c := courses[0];
      var here := if Truthy(c.key) then CourseEstimate(classes, links, c.key.value, |c.members|) else None;
      (if here.Some? then [here.value] else []) + Estimates(classes, links, courses[1..])
  }

  /** `_analyze_missing_instructors`. */
  function MissingInstructors(classes: seq<ClassRow>, links: seq<Link>): seq<MissingRow> {
    Estimates(classes, links, Courses(classes))
  }

  /** Reference count: the classes of course `o`. */
  function SectionsOf(classes: seq<ClassRow>, o: int): nat {
    KeyCount(SectionPairs(classes), Some(o))
  }

  /** The listing rule: a course with a falsy id is skipped; otherwise it is listed exactly when its estimate exists. */
  predicate Listed(classes: seq<ClassRow>, links: seq<Link>, o: int) {
    o != 0 && SectionsOf(classes, o) > 0 &&
    (SectionsOf(classes, o) - LinksOfCourse(classes, links, o, false) > 0 || LinksOfCourse(classes, links, o, true) > 0)
  }

  lemma CourseEstimateFacts(classes: seq<ClassRow>, links: seq<Link>, o: int, sections: nat)
    ensures var e := CourseEstimate(classes, links, o, sections);
      e.Some? ==> (e.value.offeringId == o && e.value.totalSections == sections && e.value.professorsNeeded >= 1 &&
                   (e.value.withoutInstructor > 0 || e.value.withSynthetic > 0))
  {
  }

  /** Some estimate in `es` is for course `o`. */
  predicate HasEstimate(es: seq<MissingRow>, o: int) {
    exists i :: 0 <= i < |es| && es[i].offeringId == o
  }

  /** Some course group in `courses` has key `o`, a truthy id, and an estimate. */
  predicate EstimatedCourse(classes: seq<ClassRow>, links: seq<Link>, courses: seq<Group<Option<int>, int>>, o: int) {
    exists j :: 0 <= j < |courses| && courses[j].key == Some(o) && o != 0 &&
      CourseEstimate(classes, links, o, |courses[j].members|).Some?
  }

  lemma {:induction false} EstimatesRows(classes: seq<ClassRow>, links: seq<Link>, courses: seq<Group<Option<int>, int>>)
    ensures forall i :: 0 <= i < |Estimates(classes, links, courses)| ==>
      var m := Estimates(classes, links, courses)[i];
      m.professorsNeeded >= 1 && m.offeringId != 0 &&
      (m.withoutInstructor > 0 || m.withSynthetic > 0) &&
      (exists j :: 0 <= j < |courses| && courses[j].key == Some(m.offeringId) && |courses[j].members| == m.totalSections)
  {
    if |courses| > 0 {
      var rest := courses[1..];
      EstimatesRows(classes, links, rest);
      var c := courses[0];
      if Truthy(c.key) {
        CourseEstimateFacts(classes, links, c.key.value, |c.members|);
      }
      var here := if Truthy(c.key) then CourseEstimate(classes, links, c.key.value, |c.members|) else None;
      var es := Estimates(classes, links, courses);
      var er := Estimates(classes, links, rest);
      var off := if here.Some? then 1 else 0;
      assert es == (if here.Some? then [here.value] else []) + er;
      assert forall i :: off <= i < |es| ==> es[i] == er[i - off];
      assert forall j :: 1 <= j < |courses| ==> courses[j] == rest[j - 1];
    }
  }

  lemma {:induction false} EstimatesListed(classes: seq<ClassRow>, links: seq<Link>, courses: seq<Group<Option<int>, int>>, o: int)
    ensures HasEstimate(Estimates(classes, links, courses), o) <==> EstimatedCourse(classes, links, courses, o)
  {
    if |courses| > 0 {
      var rest := courses[1..];
      EstimatesListed(classes, links, rest, o);
      var c := courses[0];
      if Truthy(c.key) {
        CourseEstimateFacts(classes, links, c.key.value, |c.members|);
      }
      var here := if Truthy(c.key) then CourseEstimate(classes, links, c.key.value, |c.members|) else None;
      var head := if here.Some? then [here.value] else [];
      assert Estimates(classes, links, courses) == head + Estimates(classes, links, rest);
      HasEstimateAppend(head, Estimates(classes, links, rest), o);
      EstimatedCourseCons(classes, links, courses, o);
      assert HasEstimate(head, o) <==> here.Some? && here.value.offeringId == o;
    }
  }

  lemma HasEstimateAppend(a: seq<MissingRow>, b: seq<MissingRow>, o: int)
    ensures HasEstimate(a + b, o) <==> HasEstimate(a, o) || HasEstimate(b, o)
  {
    if HasEstimate(a + b, o) {
      var i :| 0 <= i < |a + b| && (a + b)[i].offeringId == o;
      if i >= |a| {
        assert b[i - |a|].offeringId == o;
      }
    }
    if HasEstimate(b, o) {
      var i :| 0 <= i < |b| && b[i].offeringId == o;
      assert (a + b)[i + |a|].offeringId == o;
    }
    if HasEstimate(a, o) {
      var i :| 0 <= i < |a| && a[i].offeringId == o;
      assert (a + b)[i].offeringId == o;
    }
  }

  /** A course list has an estimate for `o` when its first group does or the rest has one. */
  lemma EstimatedCourseCons(classes: seq<ClassRow>, links: seq<Link>, courses: seq<Group<Option<int>, int>>, o: int)
    requires |courses| > 0
    ensures EstimatedCourse(classes, links, courses, o) <==>
      (courses[0].key == Some(o) && o != 0 && CourseEstimate(classes, links, o, |courses[0].members|).Some?) ||
      EstimatedCourse(classes, links, courses[1..], o)
  {
    var rest := courses[1..];
    if EstimatedCourse(classes, links, courses, o) {
      var j :| 0 <= j < |courses| && courses[j].key == Some(o) && o != 0 &&
        CourseEstimate(classes, links, o, |courses[j].members|).Some?;
      if j > 0 {
        assert rest[j - 1] == courses[j];
      }
    }
    if EstimatedCourse(classes, links, rest, o) {
      var j :| 0 <= j < |rest| && rest[j].key == Some(o) && o != 0 &&
        CourseEstimate(classes, links, o, |rest[j].members|).Some?;
      assert courses[j + 1] == rest[j];
    }
  }

  /**
   * Every listed course has at least one class, reports its number of
   * classes as its total, is short of instructors or staffed synthetically,
   * and asks for at least one professor.
   */
  lemma MissingRowsMeaning(classes: seq<ClassRow>, links: seq<Link>)
    ensures forall i :: 0 <= i < |MissingInstructors(classes, links)| ==>
      var m := MissingInstructors(classes, links)[i];
      m.professorsNeeded >= 1 && m.totalSections == SectionsOf(classes, m.offeringId) && m.totalSections > 0 &&
      (m.withoutInstructor > 0 || m.withSynthetic > 0)
  {
    var cs := Courses(classes);
    EstimatesRows(classes, links, cs);
    var ms := MissingInstructors(classes, links);
    forall i | 0 <= i < |ms|
      ensures ms[i].totalSections == SectionsOf(classes, ms[i].offeringId) && ms[i].totalSections > 0
    {
      var j :| 0 <= j < |cs| && cs[j].key == Some(ms[i].offeringId) && |cs[j].members| == ms[i].totalSections;
      CourseSize(classes, cs, j);
    }
  }

  /**
   * A course appears in the missing-instructor list exactly when it has a
   * non-zero id, at least one class, and either more classes than
   * instructor links or a synthetic instructor.
   */
  lemma MissingListed(classes: seq<ClassRow>, links: seq<Link>, o: int)
    ensures HasEstimate(MissingInstructors(classes, links), o) <==> Listed(classes, links, o)
  {
    var cs := Courses(classes);
    EstimatesListed(classes, links, cs, o);
    if EstimatedCourse(classes, links, cs, o) {
      var j :| 0 <= j < |cs| && cs[j].key == Some(o) && o != 0 && CourseEstimate(classes, links, o, |cs[j].members|).Some?;
      CourseSize(classes, cs, j);
    }
    if Listed(classes, links, o) {
      var j := CourseOf(classes, o);
      CourseSize(classes, cs, j);
    }
  }

  /** A course with classes has its group among the courses. */
  lemma CourseOf(classes: seq<ClassRow>, o: int) returns (j: nat)
    requires SectionsOf(classes, o) > 0
    ensures j < |Courses(classes)| && Courses(classes)[j].key == Some(o)
  {
    var ps := SectionPairs(classes);
    var gs := GroupBy(ps);
    var cs := Courses(classes);
    ByKeyDescPreorder(SectionKey);
    SortCorrect(gs, ByKeyDesc(SectionKey));
    GroupByCorrect(ps);
    KeyCountOne(ps, Some(o));
    var i :| 0 <= i < |ps| && ps[i].0 == Some(o);
    assert Some(o) in KeysOf(ps);
    KeysIndex(gs, Some(o));
    var m :| 0 <= m < |gs| && gs[m].key == Some(o);
    assert gs[m] in multiset(cs);
    j :| 0 <= j < |cs| && cs[j] == gs[m];
  }

  /** Every course group holds the classes of its course. */
  lemma CourseSize(classes: seq<ClassRow>, cs: seq<Group<Option<int>, int>>, j: nat)
    requires cs == Courses(classes) && j < |cs|
    ensures cs[j].key.Some? ==> |cs[j].members| == SectionsOf(classes, cs[j].key.value)
    ensures |cs[j].members| > 0
  {
    var gs := GroupBy(SectionPairs(classes));
    ByKeyDescPreorder(SectionKey);
    SortCorrect(gs, ByKeyDesc(SectionKey));
    GroupByCorrect(SectionPairs(classes));
    assert cs[j] in multiset(gs);
    var k :| 0 <= k < |gs| && gs[k] == cs[j];
    LookupMember(gs, k);
    MembersOfCount(SectionPairs(classes), gs[k].key);
  }

  // ------------------------------------------------------------ conflicts

  /** An assignment as the conflict analyser reads it. */
  datatype Placed = Placed(classId: int, classLimit: int, room: Option<Room>, timeslotId: Option<int>)

  datatype RoomConflict = RoomConflict(roomId: int, timeslotId: int, classIds: seq<int>)

  datatype CapacityIssue = CapacityIssue(classId: int, classLimit: int, roomId: int, roomCapacity: int, overflow: int)

  datatype ConflictReport = ConflictReport(roomConflicts: seq<RoomConflict>, capacityIssues: seq<CapacityIssue>, total: nat)

  /** `room_schedule`'s input: ((room id, timeslot id), class id) for assignments with both. */
  function RoomSlotPairs(xs: seq<Placed>): seq<((int, int), int)> {
    if |xs| == 0 then []
    else
      var a := xs[|xs| - 1];
      RoomSlotPairs(xs[..|xs| - 1]) +
        (if a.room.Some? && a.timeslotId.Some? then [((a.room.value.id, a.timeslotId.value), a.classId)] else [])
  }

  function ToRoomConflicts(gs: seq<Group<(int, int), int>>): (r: seq<RoomConflict>)
    ensures |r| == |gs|
    ensures forall i :: 0 <= i < |gs| ==> r[i] == RoomConflict(gs[i].key.0, gs[i].key.1, gs[i].members)
  {
    if |gs| == 0 then [] else [RoomConflict(gs[0].key.0, gs[0].key.1, gs[0].members)] + ToRoomConflicts(gs[1..])
  }

  function CapacityIssues(xs: seq<Placed>): seq<CapacityIssue> {
    if |xs| == 0 then []
    else
      var a := xs[|xs| - 1];
      CapacityIssues(xs[..|xs| - 1]) +
        (if a.room.Some? && a.room.value.capacity < a.classLimit
         then [CapacityIssue(a.classId, a.classLimit, a.room.value.id, a.room.value.capacity, a.classLimit - a.room.value.capacity)]
         else [])
  }

  /** `analyze_schedule_conflicts`. */
  function AnalyzeScheduleConflicts(xs: seq<Placed>): ConflictReport {
    var rc := ToRoomConflicts(Crowded(GroupBy(RoomSlotPairs(xs))));
    var ci := CapacityIssues(xs);
    ConflictReport(rc, ci, |rc| + |ci|)
  }

  /** Reference count of the over-full placements. */
  function OverCapacity(xs: seq<Placed>): nat {
    if |xs| == 0 then 0
    else
      var a := xs[|xs| - 1];
      OverCapacity(xs[..|xs| - 1]) + (if a.room.Some? && a.room.value.capacity < a.classLimit then 1 else 0)
  }

  lemma {:induction false} CapacityIssuesFacts(xs: seq<Placed>)
    ensures |CapacityIssues(xs)| == OverCapacity(xs)
    ensures forall i :: 0 <= i < |CapacityIssues(xs)| ==>
      var c := CapacityIssues(xs)[i];
      c.overflow > 0 && c.overflow == c.classLimit - c.roomCapacity &&
      exists j :: 0 <= j < |xs| && xs[j].classId == c.classId && xs[j].room.Some? &&
        xs[j].room.value.id == c.roomId && xs[j].room.value.capacity == c.roomCapacity && xs[j].classLimit == c.classLimit
  {
    if |xs| > 0 {
      var p := xs[..|xs| - 1];
      CapacityIssuesFacts(p);
      var cs := CapacityIssues(xs);
      assert forall i :: 0 <= i < |CapacityIssues(p)| ==> cs[i] == CapacityIssues(p)[i];
      assert forall j :: 0 <= j < |p| ==> p[j] == xs[j];
    }
  }

  /** Some reported room conflict is for this room and timeslot. */
  predicate Reported(rc: seq<RoomConflict>, room: int, slot: int) {
    exists i :: 0 <= i < |rc| && rc[i].roomId == room && rc[i].timeslotId == slot
  }

  /** Each room conflict lists, in order, all classes of a (room, timeslot) pair held by two or more assignments. */
  lemma RoomConflictsListed(xs: seq<Placed>)
    ensures var rc := AnalyzeScheduleConflicts(xs).roomConflicts;
      forall i :: 0 <= i < |rc| ==>
        |rc[i].classIds| >= 2 && rc[i].classIds == MembersOf(RoomSlotPairs(xs), (rc[i].roomId, rc[i].timeslotId))
  {
    CrowdedCorrect(RoomSlotPairs(xs));
  }

  /** A (room, timeslot) pair is reported exactly when two or more assignments hold it. */
  lemma RoomConflictsReported(xs: seq<Placed>)
    ensures forall room, slot :: Reported(AnalyzeScheduleConflicts(xs).roomConflicts, room, slot) <==>
      KeyCount(RoomSlotPairs(xs), (room, slot)) >= 2
  {
    var ps := RoomSlotPairs(xs);
    var c := Crowded(GroupBy(ps));
    var rc := AnalyzeScheduleConflicts(xs).roomConflicts;
    CrowdedCorrect(ps);
    forall room, slot ensures Reported(rc, room, slot) <==> KeyCount(ps, (room, slot)) >= 2 {
      KeysIndex(c, (room, slot));
      if Reported(rc, room, slot) {
        var i :| 0 <= i < |rc| && rc[i].roomId == room && rc[i].timeslotId == slot;
        assert c[i].key == (room, slot);
      }
    }
  }

  /** There is no room conflict exactly when no two assignments share a room and timeslot. */
  lemma RoomConflictsNone(xs: seq<Placed>)
    ensures AnalyzeScheduleConflicts(xs).roomConflicts == [] <==>
      forall i, j :: 0 <= i < j < |RoomSlotPairs(xs)| ==> RoomSlotPairs(xs)[i].0 != RoomSlotPairs(xs)[j].0
  {
    var ps := RoomSlotPairs(xs);
    var c := Crowded(GroupBy(ps));
    CrowdedCorrect(ps);
    assert AnalyzeScheduleConflicts(xs).roomConflicts == ToRoomConflicts(c);
    if c == [] {
      forall i, j | 0 <= i < j < |ps| ensures ps[i].0 != ps[j].0 {
      }
    } else {
      assert |ToRoomConflicts(c)| > 0;
      MembersOfCount(ps, c[0].key);
      KeyCountTwo(ps, c[0].key);
      var i, j :| 0 <= i < j < |ps| && ps[i].0 == c[0].key && ps[j].0 == c[0].key;
      assert AnalyzeScheduleConflicts(xs).roomConflicts != [];
      assert RoomSlotPairs(xs)[i].0 == RoomSlotPairs(xs)[j].0;
    }
  }

  /**
   * Capacity issues are the placements whose room seats fewer than the
   * class limit, each with a positive overflow, and the total adds the two
   * lists.
   */
  lemma CapacityMeaning(xs: seq<Placed>)
    ensures var r := AnalyzeScheduleConflicts(xs);
      |r.capacityIssues| == OverCapacity(xs) && r.total == |r.roomConflicts| + |r.capacityIssues| &&
      forall i :: 0 <= i < |r.capacityIssues| ==> r.capacityIssues[i].overflow > 0
  {
    CapacityIssuesFacts(xs);
  }

  // ------------------------------------------------------ room utilisation

  /** The week is taken to have fifty usable slots. */
  const SlotsPerWeek := 50

  datatype RoomStatus = Unused | Underused | WellUsed | Overused

  datatype RoomUsage = RoomUsage(roomId: int, capacity: int, assignments: nat, utilization: real, status: RoomStatus)

  datatype RoomReport = RoomReport(rooms: seq<RoomUsage>, totalRooms: nat, usedRooms: nat, unusedRooms: nat)

  /** `usage / 50 · 100`, or 0 without usage. */
  function Utilization(usage: nat): real {
    if usage > 0 then usage as real / SlotsPerWeek as real * 100.0 else 0.0
  }

  /** The status thresholds on the percentage. */
  function StatusOf(pct: real): RoomStatus {
    if pct >= 80.0 then Overused
    else if pct >= 50.0 then WellUsed
    else if pct > 0.0 then Underused
    else Unused
  }

  /** In whole assignments the thresholds are 40, 25 and 1, and the percentage is exactly twice the usage. */
  lemma StatusThresholds(usage: nat)
    ensures Utilization(usage) == 2.0 * usage as real
    ensures StatusOf(Utilization(usage)) ==
      if usage >= 40 then Overused else if usage >= 25 then WellUsed else if usage >= 1 then Underused else Unused
  {
  }

  /** `len(room_usage.get(room.id, []))`: assignments placed in this room. */
  function UsageOf(placedRooms: seq<Option<int>>, id: int): nat {
    if |placedRooms| == 0 then 0
    else UsageOf(placedRooms[..|placedRooms| - 1], id) + (if placedRooms[|placedRooms| - 1] == Some(id) then 1 else 0)
  }

  function UsageRow(r: Room, placedRooms: seq<Option<int>>): RoomUsage {
    var u := UsageOf(placedRooms, r.id);
    RoomUsage(r.id, r.capacity, u, Utilization(u), StatusOf(Utilization(u)))
  }

  function UsageRows(rooms: seq<Room>, placedRooms: seq<Option<int>>): (r: seq<RoomUsage>)
    ensures |r| == |rooms|
    ensures forall i :: 0 <= i < |rooms| ==> r[i] == UsageRow(rooms[i], placedRooms)
  {
    if |rooms| == 0 then [] else [UsageRow(rooms[0], placedRooms)] + UsageRows(rooms[1..], placedRooms)
  }

  function UtilizationKey(r: RoomUsage): real {
    r.utilization
  }

  function CountUsed(rows: seq<RoomUsage>, used: bool): nat {
    if |rows| == 0 then 0
    else CountUsed(rows[..|rows| - 1], used) + (if (rows[|rows| - 1].assignments > 0) == used then 1 else 0)
  }

  /** `analyze_room_utilization`; `placedRooms` holds each assignment's room id, if any. */
  function AnalyzeRoomUtilization(rooms: seq<Room>, placedRooms: seq<Option<int>>): RoomReport {
    var rows := Sort(UsageRows(rooms, placedRooms), ByRealKeyDesc(UtilizationKey));
    RoomReport(rows, |rooms|, CountUsed(rows, true), CountUsed(rows, false))
  }

  lemma {:induction false} CountUsedSplit(rows: seq<RoomUsage>)
    ensures CountUsed(rows, true) + CountUsed(rows, false) == |rows|
  {
    if |rows| > 0 {
      CountUsedSplit(rows[..|rows| - 1]);
    }
  }

  /**
   * Every room gets exactly one row carrying its usage and status; the rows
   * run from most to least utilised, rooms of equal utilisation keeping
   * the database order; and used plus unused rooms make up the total.
   */
  lemma RoomReportMeaning(rooms: seq<Room>, placedRooms: seq<Option<int>>)
    ensures var r := AnalyzeRoomUtilization(rooms, placedRooms);
      multiset(r.rooms) == multiset(UsageRows(rooms, placedRooms)) &&
      SortedBy(r.rooms, ByRealKeyDesc(UtilizationKey)) &&
      r.usedRooms + r.unusedRooms == r.totalRooms
    ensures var r := AnalyzeRoomUtilization(rooms, placedRooms);
      forall i :: 0 <= i < |r.rooms| ==> Describes(rooms, placedRooms, r.rooms[i])
    ensures forall y ::
      Peers(AnalyzeRoomUtilization(rooms, placedRooms).rooms, y, ByRealKeyDesc(UtilizationKey)) ==
      Peers(UsageRows(rooms, placedRooms), y, ByRealKeyDesc(UtilizationKey))
  {
    var rows := UsageRows(rooms, placedRooms);
    var r := AnalyzeRoomUtilization(rooms, placedRooms);
    ByRealKeyDescPreorder(UtilizationKey);
    SortCorrect(rows, ByRealKeyDesc(UtilizationKey));
    CountUsedSplit(r.rooms);
    RowsDescribe(rooms, placedRooms);
    PermutedRowsDescribe(rooms, placedRooms, r.rooms, rows);
    forall y ensures Peers(r.rooms, y, ByRealKeyDesc(UtilizationKey)) == Peers(rows, y, ByRealKeyDesc(UtilizationKey)) {
      SortStable(rows, y, ByRealKeyDesc(UtilizationKey));
    }
  }

  /** A report row for one of `rooms`: its status follows its usage, which is that room's count of placements. */
  predicate Describes(rooms: seq<Room>, placedRooms: seq<Option<int>>, row: RoomUsage) {
    row.status == StatusOf(Utilization(row.assignments)) &&
    exists j :: 0 <= j < |rooms| && rooms[j].id == row.roomId && row.assignments == UsageOf(placedRooms, rooms[j].id)
  }

  lemma RowsDescribe(rooms: seq<Room>, placedRooms: seq<Option<int>>)
    ensures forall i :: 0 <= i < |UsageRows(rooms, placedRooms)| ==> Describes(rooms, placedRooms, UsageRows(rooms, placedRooms)[i])
  {
    var rows := UsageRows(rooms, placedRooms);
    forall i | 0 <= i < |rows| ensures Describes(rooms, placedRooms, rows[i]) {
      assert rows[i] == UsageRow(rooms[i], placedRooms);
    }
  }

  lemma PermutedRowsDescribe(rooms: seq<Room>, placedRooms: seq<Option<int>>, a: seq<RoomUsage>, b: seq<RoomUsage>)
    requires multiset(a) == multiset(b)
    requires forall i :: 0 <= i < |b| ==> Describes(rooms, placedRooms, b[i])
    ensures forall i :: 0 <= i < |a| ==> Describes(rooms, placedRooms, a[i])
  {
    forall i | 0 <= i < |a| ensures Describes(rooms, placedRooms, a[i]) {
      assert a[i] in multiset(b);
      var j :| 0 <= j < |b| && b[j] == a[i];
    }
  }
}
