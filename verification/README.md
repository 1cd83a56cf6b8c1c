# Timetable generation engine: a Dafny model

This project models the core of Sistema-Generacion-Horarios, a university
timetabling system. The system imports a course-timetabling XML file into a
relational database and builds a schedule. Building a schedule means placing
every class in a room and a timeslot, then giving every class an instructor.
The schedule is then reported through a web API and a React client.

The model covers, one Dafny module each:

- **TimeSlots**: the time slot record. It holds a Monday-first day bitmask,
  a start and a length in 5-minute units, the day names and the `HH:MM`
  formatting (`models.py`).
- **Overlap**: the pairwise time-overlap test, and the counting of
  overlapping pairs inside a conflict group (`constraints.py`).
- **Constraints**: the hard and soft constraint checks and the fitness
  formula.
- **ConflictReport**: the instructor-conflict verification command.
- **ApiEvents** and **Timetable**: the API's calendar events, and the
  timetable grid pivot with its statistics (`api.py`).
- **Views**: the calendar view's day mapping, schedule activation and the
  instructor statistics (`views.py`).
- **ScheduleViewer**: the client-side event decoder, conflict count and room
  navigation (`ScheduleViewer.tsx`).
- **Analysis**: the workload, conflict and room-utilisation analysers.
- **InstructorAssigner**: the busy-table state machine that gives each
  placed class an instructor.
- **Heuristics**: the greedy constructor with its quality score, the
  conflict listing and the hill-climbing local search.
- **Genetic**: clone, one-point crossover, mutation, tournament selection,
  elitism and the evolution loop.
- **Generator**: the default slot grid, the load-time filters, the
  round-robin instructor fill, the placeholder-instructor ids and the save
  step.
- **XmlImport**: the import view. It gets or creates rows by import id,
  keeps the statistics counters, links parents in two passes and returns
  the error status codes.

Shared modules hold the pieces several components use:

- **Util**: `Option`, counting.
- **Text**: decimal rendering and reading, zero padding, the `HH:MM` clock.
- **Dict**: Python dictionaries, as insertion-ordered association lists.
- **Sorting**: Python's stable `sorted`/`list.sort` as an insertion sort.
- **Grouping**: `defaultdict(list)` built by appending.
- **Records**: the room and class rows.

The database is modelled as maps and sequences passed in. The parsed XML is
a datatype. Every random draw is a parameter. A Python exception is a
`None`/error result.

## Model

| member | source | states |
|---|---|---|
| Dict.PutFacts | backend/schedule_app/heuristics.py:180 | Assigning `d[k] = v` keeps the key order, appends `k` only when it is new, and changes only the value under `k`. |
| Dict.PutDistinct | backend/schedule_app/heuristics.py:180 | Assignment keeps the keys of a dictionary pairwise distinct. |
| Dict.PutPut | backend/schedule_app/heuristics.py:339-351 | A second write to the same key replaces the first one in place, without moving the key. |
| Dict.PutSame | backend/schedule_app/heuristics.py:354 | Writing back the value a key already holds leaves the dictionary unchanged. |
| Dict.PutEntries | backend/schedule_app/heuristics.py:180 | With distinct keys, every entry after an assignment is either the new one or an old entry under another key. |
| Grouping.GroupByCorrect | backend/schedule_app/constraints.py:165-179 | Grouping by `defaultdict(list).append` is faithful: each key's group holds exactly its values in input order; the keys are distinct and are exactly those that occur; no group is empty; the group sizes add up to the number of pairs. |
| Grouping.LookupMember | backend/schedule_app/constraints.py:182 | With distinct keys, looking up a group's key returns that group's members. |
| Grouping.CrowdedCorrect | backend/schedule_app/analysis.py:238-251 | The groups holding at least two values are exactly the keys carried by two or more pairs, each listing all its values; there are none exactly when no two pairs share a key. |
| Grouping.KeyCountTwo | backend/schedule_app/analysis.py:249 | A key is counted at least twice exactly when two distinct positions carry it. |
| Sorting.SortCorrect | backend/schedule_app/heuristics.py:72 | `sorted` returns a permutation of its input, ordered by the comparator. |
| Sorting.SortStable | backend/schedule_app/heuristics.py:72 | Elements that tie keep their input order (Python's sort is stable). |
| Sorting.SortSortedIdentity | backend/schedule_app/instructor_assigner.py:92-95 | Sorting an already ordered sequence leaves it unchanged. |
| Sorting.SortHead | backend/schedule_app/genetic_algorithm.py:214-215 | `sorted(s)[0]` is the earliest element of `s` that no other element ranks strictly before. |
| Sorting.SortHeadMin | backend/schedule_app/genetic_algorithm.py:214-215 | The head of the sort ranks no later than any element. |
| Sorting.SortHeadPeer | backend/schedule_app/genetic_algorithm.py:214-215 | By stability, the head of the sort is the first of its peers in the input. |
| Text.NatToStringRoundTrip | backend/schedule_app/api.py:142 | Reading back the decimal rendering of a natural number gives that number. |
| Text.IntToStringRoundTrip | backend/schedule_app/api.py:142 | Reading back `str(n)` of any integer, negative ones included, gives `n`. |
| Text.IntToStringInjective | backend/schedule_app/api.py:142 | Different integers render as different strings. |
| Text.PadTwoValue | backend/schedule_app/models.py:121 | `f"{n:02d}"` of a natural number is all digits and reads back as `n`. |
| Text.ClockRoundTrip | backend/schedule_app/models.py:116-121 | The `HH:MM` rendering of a non-negative minute count, by floor division and modulo 60, parses back as that count. |
| Text.ClockLength | backend/schedule_app/models.py:121 | Within the first hundred hours, the clock string is exactly five characters. |
| Text.SplitAtLastSeparator | backend/schedule_app/api.py:142 | `x + sep + y` determines `x` and `y` when `y` contains no `sep`: event ids `"{id}_{i}"` can be taken apart. |
| Text.StrLeTotal | backend/schedule_app/api.py:425 | Python's string order is total. |
| Text.StrLeTransitive | backend/schedule_app/api.py:425 | Python's string order is transitive. |
| Text.StrLeAntisymmetric | backend/schedule_app/api.py:425 | Python's string order is antisymmetric. |
| TimeSlots.ActiveIndices | backend/schedule_app/models.py:114 | The positions holding '1', each in range, all of them, strictly increasing, as many as there are '1's. |
| TimeSlots.GetDayNames | backend/schedule_app/models.py:111-114 | `get_day_names` fails (IndexError) exactly when a '1' sits at position 7 or later. Otherwise it returns one name per '1': the k-th name is the Monday-first name of the k-th active position. |
| TimeSlots.StoredDaysHaveNames | backend/schedule_app/models.py:100-114 | A mask within the column's seven characters always has day names. |
| TimeSlots.StartReadsBack | backend/schedule_app/models.py:116-121 | For a non-negative start, the formatted start parses back as `start·5` minutes. |
| TimeSlots.EndReadsBack | backend/schedule_app/models.py:123-128 | For a non-negative start and length, the formatted end parses back as `(start + length)·5` minutes. |
| TimeSlots.FormattedWidth | backend/schedule_app/models.py:116-128 | Within the first hundred hours, both strings are exactly `HH:MM`. |
| TimeSlots.StartFields | backend/schedule_app/models.py:118-121 | The start is `HH:MM` of some `h` and `0 ≤ m < 60` with `h·60 + m = start·5`, even for a negative start. |
| Overlap.TimesOverlap | backend/schedule_app/constraints.py:317-339 | The scan returns true exactly when the masks share a '1' below both lengths and the half-open intervals intersect; the result is symmetric in its arguments. |
| Overlap.OverlapsSymmetric | backend/schedule_app/constraints.py:326-339 | Overlap is symmetric. |
| Overlap.OverlapsIffCommonInstant | backend/schedule_app/constraints.py:335-339 | With a shared day and non-empty intervals, overlap holds exactly when some instant lies in both; back-to-back slots (one ends where the other starts) never overlap. |
| Overlap.CountPairs | backend/schedule_app/constraints.py:182-186 | The double loop `for i, for j > i` counts exactly the overlapping pairs of one group. |
| Overlap.PairCountAppend | backend/schedule_app/constraints.py:183-186 | One more entry adds exactly the pairs it forms with the earlier entries. |
| Overlap.PairCountZeroIff | backend/schedule_app/constraints.py:182-186 | A group adds no conflict exactly when none of its pairs overlap. |
| Overlap.PairCountBound | backend/schedule_app/constraints.py:183-186 | A group of n entries has at most n·(n−1)/2 conflicts, so a single entry has none. |
| Overlap.GroupedConflicts | backend/schedule_app/constraints.py:162-188 | Grouping by key and counting pairs per group counts exactly the overlapping pairs i < j of entries with equal keys. |
| Overlap.KeyedPairsZeroIff | backend/schedule_app/constraints.py:162-188 | There are no conflicts exactly when no two entries with the same key overlap. |
| Overlap.ConflictsBound | backend/schedule_app/constraints.py:182-186 | Grouped conflicts never exceed ΣC(n,2); groups of one entry contribute none. |
| Constraints.ClashCounts | backend/schedule_app/constraints.py:162-242 | Each of the instructor, room and student clash counts equals the number of overlapping pairs i < j of entries sharing that instructor, room or student, and is zero exactly when no such pair exists. |
| Constraints.ClashBounds | backend/schedule_app/constraints.py:162-242 | Each clash count is at most ΣC(n,2) over its groups. |
| Constraints.UnusableGeneIgnored | backend/schedule_app/constraints.py:172 | A gene with no slot row, empty days or zero length joins no clash group: removing it changes none of the three clash counts. |
| Constraints.FalsyRoomIgnored | backend/schedule_app/constraints.py:199 | A gene with a falsy room id is invisible to the room check. |
| Constraints.CapacityViolations | backend/schedule_app/constraints.py:244-256 | One violation per gene with a truthy room of known capacity below the class limit (unknown room: infinite capacity; unknown class: limit 0); zero exactly when no gene is over capacity, and all genes exactly when every gene is. |
| Constraints.NegativePart | backend/schedule_app/constraints.py:268-269 | The penalty of one preference is non-negative, and zero exactly when the preference is not negative. |
| Constraints.RoomPreferencePenalty | backend/schedule_app/constraints.py:258-271 | The room-preference penalty is non-negative, and zero exactly when no gene with a truthy room has a negative preference (missing preference: 0). |
| Constraints.TimePreferencePenalty | backend/schedule_app/constraints.py:273-284 | The time-preference penalty is non-negative, and zero exactly when no gene with a truthy slot has a negative preference. |
| Constraints.GapCost | backend/schedule_app/constraints.py:310-313 | A gap costs (gap − 12)·0.1: non-negative, and zero exactly when the gap is at most 12 slots. |
| Constraints.GroupGaps | backend/schedule_app/constraints.py:307-313 | The penalty of one (instructor, day) group is non-negative. |
| Constraints.InstructorGaps | backend/schedule_app/constraints.py:286-315 | The gap penalty is non-negative. |
| Constraints.GapSumZeroIff | backend/schedule_app/constraints.py:309-313 | The gaps of a sequence cost nothing exactly when no two consecutive elements are more than 12 apart. |
| Constraints.GroupGapsZeroIff | backend/schedule_app/constraints.py:306-313 | A group costs nothing exactly when, in ascending order, no two consecutive starts are more than an hour apart; a group of at most one class costs nothing. |
| Constraints.SingletonGroupsNoGaps | backend/schedule_app/constraints.py:306-307 | When every (instructor, day) group holds at most one start, the gap penalty is zero. |
| Constraints.SoftPenalty | backend/schedule_app/constraints.py:130-143 | The soft penalty, the sum of the three soft checks, is non-negative. |
| Constraints.PerfectScore | backend/schedule_app/constraints.py:91-107 | With positive weights, the fitness never exceeds 100000, and equals it exactly when there is no hard violation and no soft penalty. |
| Constraints.ScoreAtMost | backend/schedule_app/constraints.py:100-105 | `100000 − (hard·wh + soft·ws)` is at most 100000 for non-negative counts, and equal exactly when both are zero. |
| Constraints.ScoreDecreasesWithHard | backend/schedule_app/constraints.py:100-105 | At the same soft penalty, more hard violations strictly lower the fitness, for a positive hard weight. |
| Constraints.DefaultWeightsPreferFewerHard | backend/schedule_app/constraints.py:28-30 | With the default weights 1000 and 1, fewer hard violations score higher whenever the better timetable's soft penalty is below 1000. |
| Constraints.GeneratorWeightsPreferFewerHard | backend/schedule_app/schedule_generator.py:40-43 | With the generator's weights 100 and 1, fewer hard violations score higher whenever the better timetable's soft penalty is below 100. |
| Constraints.GeneratorWeightsTie | backend/schedule_app/schedule_generator.py:40-43 | Under the generator's weights a soft penalty of 100 ties with one hard violation, while the default weights still prefer the soft penalty. |
| ConflictReport.TimeslotsOverlapAgrees | backend/schedule_app/management/commands/verify_instructor_conflicts.py:138-154 | The command's `_timeslots_overlap` gives the validator's `_times_overlap` result for the same (days, start, length). It is symmetric, and a slot that ends where the other starts does not clash. |
| ConflictReport.FormatTimeAgrees | backend/schedule_app/management/commands/verify_instructor_conflicts.py:156-161 | `_format_time` renders exactly what `TimeSlot.get_start_time_formatted` renders, and for a non-negative start it reads back as `start·5` minutes. |
| ConflictReport.ClashListCount | backend/schedule_app/management/commands/verify_instructor_conflicts.py:72-90 | The pair loop over one instructor's list reports exactly as many clashes as there are overlapping pairs i < j, and each reported pair comes from the list and really overlaps. |
| ConflictReport.TotalMatchesPairs | backend/schedule_app/management/commands/verify_instructor_conflicts.py:65-90 | `total_conflicts` is the sum, over instructors, of the overlapping pairs in each list. |
| ConflictReport.ReportedKeysMeaning | backend/schedule_app/management/commands/verify_instructor_conflicts.py:92-93 | An instructor enters `conflicts_by_instructor` exactly when their list holds an overlapping pair. |
| ConflictReport.ReportedBounds | backend/schedule_app/management/commands/verify_instructor_conflicts.py:92-93 | Every reported instructor has at least one clash, and no more than the total. |
| ConflictReport.VerifyCorrect | backend/schedule_app/management/commands/verify_instructor_conflicts.py:48-93 | Over the grouped schedule, `total_conflicts` is the overlapping-pair total; `conflicts_by_instructor` holds exactly the instructors whose list has an overlapping pair; the total is zero exactly when nobody is reported. |
| ConflictReport.ReportedKeysByLookup | backend/schedule_app/management/commands/verify_instructor_conflicts.py:68-93 | With one group per instructor, the reported instructors are those whose list has an overlapping pair. |
| ConflictReport.TotalZero | backend/schedule_app/management/commands/verify_instructor_conflicts.py:101-104 | The total is zero exactly when no instructor is reported. |
| ApiEvents.TimeOfDay | backend/schedule_app/api.py:145-146 | The time part of an event timestamp is the `HH:MM` clock of the minute count followed by `:00`. |
| ApiEvents.DayEvents | backend/schedule_app/api.py:138-148 | One event per listed day, in order, each with id `"{assignment.id}_{day}"`, the shared start and end, and the border colour equal to the background. |
| ApiEvents.EventIdInjective | backend/schedule_app/api.py:142 | Two event ids are equal only for the same assignment id and day index. |
| ApiEvents.ConvertAssignmentEvents | backend/schedule_app/api.py:89-148 | For an assignment with a slot: one event per '1' among the first seven flags and none for later ones, in day order, with distinct ids; the colour is '#ffc107' exactly when the room is known and smaller than the class limit, else '#28a745'; the border equals the background. |
| ApiEvents.DayEventsCover | backend/schedule_app/api.py:100-102 | The events of a mask's active flags fall on active days, one for every '1'. |
| ApiEvents.DayEventsOrdered | backend/schedule_app/api.py:138-142 | Events for increasing days come in day order with distinct ids. |
| ApiEvents.DistinctAcrossAssignments | backend/schedule_app/api.py:142 | Events of two different assignments never share an id. |
| ApiEvents.TimeOfDayRoundTrip | backend/schedule_app/api.py:145-146 | Dropping the seconds from the time part gives the clock, which reads back as the minute count. |
| ApiEvents.EventStartTime | backend/schedule_app/api.py:106-110 | For a slot starting at or after midnight, every event's start reads back as `start_time·5` minutes. |
| ApiEvents.EventEndTime | backend/schedule_app/api.py:106-113 | With a non-negative length as well, every event's end reads back as `start_time·5 + length·5` minutes. |
| Timetable.DaysBits | backend/schedule_app/api.py:375 | The day bits are seven characters: the mask's own character where it has one, '0' beyond its end. |
| Timetable.Pivot | backend/schedule_app/api.py:363-422 | The pivot loop builds exactly the reference grid (each day's column groups that day's entries by time label, in assignment order) and collects exactly the start times of the slotted assignments. |
| Timetable.AddAssignment | backend/schedule_app/api.py:366-422 | One assignment adds its entry under its label to every column of a day it lands on, and changes no other column. |
| Timetable.AddToDays | backend/schedule_app/api.py:415-422 | The inner loop appends the entry under its label on every day whose bit is '1', and leaves the other days as they were. |
| Timetable.DayPairsStep | backend/schedule_app/api.py:415-422 | Adding one assignment appends its entry to each day it lands on and to no other. |
| Timetable.GridMeaning | backend/schedule_app/api.py:415-422 | Each day column maps each time label, once, to exactly the classes landing on that day with that label, in assignment order; no cell is empty. |
| Timetable.Grid | backend/schedule_app/api.py:363 | The grid always holds all seven day columns, even with no assignment. |
| Timetable.HourSetMembers | backend/schedule_app/api.py:391 | `all_hours` holds exactly the start times of the assignments that have a slot. |
| Timetable.Dedup | backend/schedule_app/api.py:425 | Dropping repeats keeps exactly the same elements, pairwise distinct. |
| Timetable.SortedHoursFacts | backend/schedule_app/api.py:425 | The returned `time_slots` list holds each start time seen exactly once, in strictly increasing string order. |
| Timetable.SortedDistinct | backend/schedule_app/api.py:425 | Sorting a list without repeats gives a strictly increasing list with the same elements. |
| Timetable.StrictlySortedUnique | backend/schedule_app/api.py:425 | A strictly sorted list is determined by its elements, so the iteration order of the set does not matter. |
| Timetable.DayPairsCount | backend/schedule_app/api.py:415-422 | Each day receives one entry per assignment landing on it. |
| Timetable.ClassesOnDayCount | backend/schedule_app/api.py:442-444 | Each day's count is the number of assignments whose first seven bits have that day set. |
| Timetable.ColumnMax | backend/schedule_app/api.py:436-439 | The largest cell size of a column bounds every cell and is reached by one, or is 0. |
| Timetable.MaxConcurrent | backend/schedule_app/api.py:436-439 | `max_concurrent` bounds every cell of the grid and is reached by one, or is 0 (the default). |
| Timetable.MaxConcurrentMeaning | backend/schedule_app/api.py:436-462 | `max_concurrent_classes` is the largest number of classes sharing one time label on one day, and `needs_multiple_views` holds exactly when it exceeds 10. |
| Timetable.MaxConcurrentPositive | backend/schedule_app/api.py:436-439 | `max_concurrent` is positive exactly when some slotted assignment has a '1' among its first seven bits. |
| Timetable.DaysTotalPlacements | backend/schedule_app/api.py:415-416 | Summed over the seven days, the per-day counts equal the number of '1's among the first seven bits of every slotted assignment. |
| Timetable.ClassesByDayMeaning | backend/schedule_app/api.py:435-444 | `classes_by_day` gives, for each day, the number of assignments active on it, and its seven entries add up to the total number of placements. |
| Views.FullCalendarDayBijective | backend/schedule_app/views.py:174 | `i + 1 if i < 6 else 0` is a bijection on 0..6, from Monday-first positions to FullCalendar's Sunday = 0, with an explicit inverse; every position from 6 on maps to 0. |
| Views.AssignmentEvents | backend/schedule_app/views.py:169-176 | One event per '1' anywhere in the mask, with no length cut. |
| Views.CalendarEventIdInjective | backend/schedule_app/views.py:172 | Two event ids `"{assignment.id}_{i}"` are equal only for the same assignment and position. |
| Views.AssignmentEventsFacts | backend/schedule_app/views.py:169-176 | Within one assignment, the events have distinct ids and all carry the slot's formatted start and end; for a stored mask of at most seven characters, they fall on distinct FullCalendar days. |
| Views.CalendarViewCount | backend/schedule_app/views.py:159-172 | The feed has exactly one event per '1' over all masks. |
| Views.DistinctAssignmentsDistinctIds | backend/schedule_app/views.py:172 | Events of assignments with different ids never share an id. |
| Views.Activate | backend/schedule_app/views.py:139-146 | `activate` fails (404) exactly for an unknown schedule. Otherwise it keeps the set of schedules, and exactly the chosen one is active afterwards. |
| Views.ActivateIdempotent | backend/schedule_app/views.py:139-146 | After activation at most one schedule is active, and activating it again changes nothing. |
| Views.CountWhere | backend/schedule_app/views.py:55-57 | The number of instructors counted with (or without) classes is at most the total. |
| Views.StatisticsPartition | backend/schedule_app/views.py:54-62 | `total − with_classes` is exactly the number of instructors with no class, so it is never negative. |
| ScheduleViewer.JsRem | frontend/src/components/ScheduleViewer.tsx:101 | JavaScript's `%` with a positive divisor: Euclidean for a non-negative dividend; otherwise strictly inside (−b, b) and carrying the dividend's sign. |
| ScheduleViewer.AssignmentEvents | frontend/src/components/ScheduleViewer.tsx:94-97 | One event per '1' of the whole mask, with no cut at seven. |
| ScheduleViewer.ConflictCount | frontend/src/components/ScheduleViewer.tsx:77-78 | `filter(a => a.has_conflict).length` is at most the number of assignments, and zero exactly when none has a conflict. |
| ScheduleViewer.ConflictCountAppend | frontend/src/components/ScheduleViewer.tsx:77 | Counting conflicts distributes over splitting the list of assignments. |
| ScheduleViewer.AssignmentEventsFacts | frontend/src/components/ScheduleViewer.tsx:94-113 | Every '1' yields an event, conflicting assignments included, with `daysOfWeek = [index]`. The colours are red (#ef4444/#dc2626) exactly for a conflict and blue (#3b82f6/#2563eb) otherwise. The ids are distinct. |
| ScheduleViewer.ViewerEventIdInjective | frontend/src/components/ScheduleViewer.tsx:107 | Two ids `${id}-${index}` are equal only for the same assignment and index. |
| ScheduleViewer.ConvertCount | frontend/src/components/ScheduleViewer.tsx:87-126 | `convertToCalendarEvents` emits one event per '1' of every mask. |
| ScheduleViewer.JsClockNonNegative | frontend/src/components/ScheduleViewer.tsx:100-111 | For non-negative minutes, the viewer's clock is the backend's `HH:MM` rendering and reads back as the minute count. |
| ScheduleViewer.JsClockNegative | frontend/src/components/ScheduleViewer.tsx:100-101 | For a start of −5 minutes the viewer writes "-1:-5", where the backend's floor division gives "-1:55". |
| ScheduleViewer.WeekdayConventionsDiffer | frontend/src/components/ScheduleViewer.tsx:97 | A Monday-only mask becomes FullCalendar day 0 (Sunday) in the viewer and day 1 (Monday) in the backend feed. |
| ScheduleViewer.NavigationInRange | frontend/src/components/ScheduleViewer.tsx:128-138 | Previous and next keep the room index within [0, max(rooms − 1, 0)], strictly below the room count when there are rooms; each undoes the other away from the ends. |
| ScheduleViewer.ClicksStayInRange | frontend/src/components/ScheduleViewer.tsx:128-138 | Any sequence of clicks, starting from index 0, keeps the index in range. |
| ScheduleViewer.NavigateFrom | frontend/src/components/ScheduleViewer.tsx:128-138 | Any sequence of clicks from an in-range index stays in range. |
| Analysis.LoadStatusBands | backend/schedule_app/analysis.py:203-210 | `_get_load_status` is monotone in the class count: "overloaded" from 10, "high" from 8 to 9, "optimal" below 8. |
| Analysis.RemainingGoesNegative | backend/schedule_app/analysis.py:99-103 | Seven classes count as optimal, yet the advice as written says the instructor can take −1 more classes. |
| Analysis.RecommendationMeaning | backend/schedule_app/analysis.py:91-103 | Synthetic instructors (import id ≥ 900000) are always told to get real instructors. Otherwise the advice follows the load status. An overloaded instructor is told to hire the fewest helpers h ≥ 1 with 6·h above the excess over six. The corrected spare capacity is never negative, fills the load up to six, and agrees with the code below seven classes. |
| Analysis.Bucketed | backend/schedule_app/analysis.py:72-81 | Every row of a bucket is classified into that bucket. |
| Analysis.BucketsPartition | backend/schedule_app/analysis.py:72-81 | The four lists, taken together, are a permutation of the instructor rows. |
| Analysis.BucketedCount | backend/schedule_app/analysis.py:72-81 | A bucket holds every copy of the rows classified into it, and nothing else. |
| Analysis.BucketedSorted | backend/schedule_app/analysis.py:44-81 | Each bucket keeps the query's descending order of class counts and only holds rows of the query. |
| Analysis.RowsTotal | backend/schedule_app/analysis.py:37-44 | The per-instructor counts of the grouped links add up to the number of links. |
| Analysis.SumCountsPermutation | backend/schedule_app/analysis.py:70 | Adding up class counts does not depend on the order of the rows. |
| Analysis.WorkloadPartition | backend/schedule_app/analysis.py:59-83 | Every instructor row joins exactly one of the four lists, and the list sizes add up to `total_instructors`. |
| Analysis.WorkloadClassification | backend/schedule_app/analysis.py:72-81 | The synthetic list holds only synthetic instructors. Each other list holds only real instructors whose load status names that list. |
| Analysis.WorkloadOrder | backend/schedule_app/analysis.py:44-81 | Each of the four lists is in descending order of class count. |
| Analysis.WorkloadTotal | backend/schedule_app/analysis.py:57-70 | The summed class counts equal the number of instructor links. |
| Analysis.AverageLoad | backend/schedule_app/analysis.py:83-84 | With at least one instructor, `avg_load` times the number of instructors is the summed class count. |
| Analysis.CourseEstimateFacts | backend/schedule_app/analysis.py:129-147 | A listed estimate is for its course, reports the course's section count, asks for at least one professor, and has classes without instructor or with a synthetic one. |
| Analysis.EstimatesRows | backend/schedule_app/analysis.py:114-147 | Every estimate comes from a course group with a non-zero id and the same section count, asks for at least one professor, and is short of staff or synthetically staffed. |
| Analysis.EstimatesListed | backend/schedule_app/analysis.py:114-147 | A course has an estimate exactly when some course group with a non-zero id yields one. |
| Analysis.HasEstimateAppend | backend/schedule_app/analysis.py:139 | Appending estimates keeps every course that either part lists. |
| Analysis.EstimatedCourseCons | backend/schedule_app/analysis.py:114-116 | A course list yields an estimate for a course when its first group or the rest does. |
| Analysis.MissingRowsMeaning | backend/schedule_app/analysis.py:105-149 | Every row of `_analyze_missing_instructors` reports the course's real number of classes, which is positive, and asks for at least one professor. The course is short of instructors or staffed synthetically. |
| Analysis.MissingListed | backend/schedule_app/analysis.py:105-149 | A course is listed exactly when its id is non-zero, it has classes, and it either has more classes than instructor links or a synthetic instructor. |
| Analysis.CourseOf | backend/schedule_app/analysis.py:108-110 | Every course with classes has its group in the section-count query. |
| Analysis.CourseSize | backend/schedule_app/analysis.py:108-110 | Every group of the query holds exactly the classes of its course. |
| Analysis.ToRoomConflicts | backend/schedule_app/analysis.py:244-251 | One room-conflict record per crowded (room, timeslot) group, carrying the group's key and classes. |
| Analysis.CapacityIssuesFacts | backend/schedule_app/analysis.py:253-264 | There is one issue per placement whose room seats fewer than the class limit. Each issue copies that placement's class, limit, room and capacity, and its overflow is the positive shortfall. |
| Analysis.RoomConflictsListed | backend/schedule_app/analysis.py:237-251 | Each room conflict lists, in assignment order, every class placed in its room at its timeslot, and at least two of them. |
| Analysis.RoomConflictsReported | backend/schedule_app/analysis.py:237-251 | A (room, timeslot) pair is reported exactly when two or more assignments that have both a room and a timeslot hold it. |
| Analysis.RoomConflictsNone | backend/schedule_app/analysis.py:237-251 | There are no room conflicts exactly when no two such assignments share a room and a timeslot. |
| Analysis.CapacityMeaning | backend/schedule_app/analysis.py:253-269 | The number of capacity issues is the number of over-full placements, every overflow is positive, and `total_conflicts` adds the two lists. |
| Analysis.StatusThresholds | backend/schedule_app/analysis.py:303-313 | With 50 slots a week the percentage is twice the usage. So "overused" starts at 40 assignments, "well_used" at 25 and "underused" at 1. |
| Analysis.UsageRows | backend/schedule_app/analysis.py:300-322 | One usage row per room, in database order, built from that room's placements. |
| Analysis.CountUsedSplit | backend/schedule_app/analysis.py:329-330 | Used rooms plus unused rooms make up all the rows. |
| Analysis.RoomReportMeaning | backend/schedule_app/analysis.py:279-332 | Every room gets exactly one row, with its own usage count and the matching status. The rows run from most to least utilised, and rooms of equal utilisation keep the database order. Used plus unused rooms is the room total. |
| Analysis.RowsDescribe | backend/schedule_app/analysis.py:300-322 | Every unsorted row describes its room truthfully. |
| Analysis.PermutedRowsDescribe | backend/schedule_app/analysis.py:324 | Reordering the rows keeps every row truthful. |
| InstructorAssigner.IsInstructorAvailableAsWritten | backend/schedule_app/instructor_assigner.py:206-232 | The loop returns False at the first active day whose exact (day, start, end) key is marked busy, and True otherwise. |
| InstructorAssigner.MarkBusyEffect | backend/schedule_app/instructor_assigner.py:234-253 | Marking adds exactly the slot's keys, one per active day, to that instructor's table. It leaves every other instructor alone. Afterwards the exact-key test reports the instructor busy for that slot exactly when the slot has an active day. |
| InstructorAssigner.ExactKeyMissesOverlap | backend/schedule_app/instructor_assigner.py:225-232 | An instructor busy on Monday 08:00–09:00 passes the exact-key test for Monday 08:30–09:30, although the intervals overlap. |
| InstructorAssigner.BusyBlocksOverlap | backend/schedule_app/instructor_assigner.py:211-216 | Under the overlap test the docstring describes, a table holding a slot's keys makes the instructor unavailable for every overlapping slot. |
| InstructorAssigner.MarkBusyBlocksOverlap | backend/schedule_app/instructor_assigner.py:234-253 | After marking a slot, the overlap test refuses every slot overlapping it. |
| InstructorAssigner.Candidates | backend/schedule_app/instructor_assigner.py:170-194 | There are at most as many candidates as instructors. |
| InstructorAssigner.CandidatesEmpty | backend/schedule_app/instructor_assigner.py:172-197 | The candidate list is empty exactly when no instructor is available. |
| InstructorAssigner.CandidateOrigin | backend/schedule_app/instructor_assigner.py:172-194 | Each candidate comes from an available instructor, carrying its score. The available instructors before it in the list are listed before it. |
| InstructorAssigner.AvailableIsCandidate | backend/schedule_app/instructor_assigner.py:172-194 | Every available instructor becomes a candidate. |
| InstructorAssigner.FindBestPick | backend/schedule_app/instructor_assigner.py:199-204 | The instructor returned is one of the list, available, and of maximal score. Every available instructor before it scores strictly less. |
| InstructorAssigner.FindBestChoice | backend/schedule_app/instructor_assigner.py:149-204 | `None` exactly when no instructor is available. Otherwise the choice is available and has the highest preference − 0.5·load, with preference defaulting to 0. Ties go to the earliest instructor, because the sort is stable. |
| InstructorAssigner.CountAvailable | backend/schedule_app/instructor_assigner.py:134-147 | The count is at most the number of instructors. |
| InstructorAssigner.Run | backend/schedule_app/instructor_assigner.py:97-121 | The loop yields one outcome per assignment. |
| InstructorAssigner.CountAvailableAll | backend/schedule_app/instructor_assigner.py:134-147 | With every table empty, every instructor counts as available. |
| InstructorAssigner.OrderIsScheduleOrder | backend/schedule_app/instructor_assigner.py:90-95 | The "fewest options first" sort is computed while every table is still empty. So every key is the number of instructors, and the stable sort keeps the schedule's order. |
| InstructorAssigner.StatsTotal | backend/schedule_app/instructor_assigner.py:80-128 | assigned + unassigned = total = the number of assignments, and `conflicts_avoided` is always 0. |
| InstructorAssigner.RunLast | backend/schedule_app/instructor_assigner.py:97-121 | A pass over a longer list is the pass over its prefix followed by one more step. |
| InstructorAssigner.RunCovered | backend/schedule_app/instructor_assigner.py:111-115 | After the pass, each instructor's busy table holds the keys of every slot it was given. |
| InstructorAssigner.RunLinks | backend/schedule_app/instructor_assigner.py:104-109 | Every assignment given an instructor has a `ClassInstructor` link to that instructor. |
| InstructorAssigner.RunNoDoubleBooking | backend/schedule_app/instructor_assigner.py:211-216 | With the overlap test, no instructor is given two overlapping assignments. |
| InstructorAssigner.NoDoubleBookingStep | backend/schedule_app/instructor_assigner.py:104-115 | Giving an assignment to an instructor free for it under the overlap test keeps the pass free of double bookings. |
| InstructorAssigner.RunNoSameTimeTwice | backend/schedule_app/instructor_assigner.py:217-232 | With the exact-key test, no instructor is given two assignments with the same start and end on a common day. |
| InstructorAssigner.NoSameTimeStep | backend/schedule_app/instructor_assigner.py:225-232 | Giving an assignment to an instructor free for it under the exact-key test keeps the pass free of same-time repeats. |
| InstructorAssigner.AssignmentLinks | backend/schedule_app/instructor_assigner.py:68-132 | Under either test, `assign_instructors` gives one outcome per assignment and records every choice as a `ClassInstructor` link. |
| InstructorAssigner.AssignmentPass | backend/schedule_app/instructor_assigner.py:211-216 | With the overlap test the docstring describes, `assign_instructors` never books an instructor into two overlapping assignments. |
| InstructorAssigner.AssignmentPassAsWritten | backend/schedule_app/instructor_assigner.py:217-232 | `assign_instructors` as written only rules out two bookings of one instructor at the very same time on a common day. |
| InstructorAssigner.AsWrittenDoubleBooks | backend/schedule_app/instructor_assigner.py:217-232 | With one instructor, a Monday 08:00–09:00 class and a Monday 08:30–09:30 class both go to it as written, which is a double booking. The overlap test leaves the second class without an instructor. |
| InstructorAssigner.SecondOutcome | backend/schedule_app/instructor_assigner.py:97-121 | With one instructor who is free for the first class, the two-class pass gives it the first class and decides the second against the marked table. |
| InstructorAssigner.LoadInsert | backend/schedule_app/instructor_assigner.py:184-187 | Recording a new class raises the load of its instructor by one and no other load. |
| InstructorAssigner.RunRecordsKeys | backend/schedule_app/instructor_assigner.py:118 | Only classes of the pass are added to `class_instructors_assigned`. |
| InstructorAssigner.RunRecordsValues | backend/schedule_app/instructor_assigner.py:118 | With distinct classes, every class given an instructor is mapped to that instructor. |
| InstructorAssigner.RunRecordsLoad | backend/schedule_app/instructor_assigner.py:184-187 | Each instructor's load grows by one per class given to it. |
| InstructorAssigner.ChoicesRecorded | backend/schedule_app/instructor_assigner.py:97-121 | With one assignment per class, `class_instructors_assigned` maps each class given an instructor to that instructor, and the load used for scoring is the number of classes given so far. |
| InstructorAssigner.EmptyScheduleFails | backend/schedule_app/instructor_assigner.py:262-264 | On a schedule with no assignments the report divides by zero, so `assign_instructors` raises before returning. |
| InstructorAssigner.ReportShares | backend/schedule_app/instructor_assigner.py:262-264 | The guarded report is defined for every schedule. With at least one assignment its two shares add up to 100% and equal the code's. |
| Heuristics.ValidTimeslots | backend/schedule_app/heuristics.py:74-105 | A timeslot is kept exactly when it is a candidate and none of the class's instructors is already marked in it. |
| Heuristics.ValidTimeslotsOrder | backend/schedule_app/heuristics.py:90-103 | The valid timeslots keep the candidates' order. |
| Heuristics.PrioritizeFacts | backend/schedule_app/heuristics.py:59-72 | `prioritize_by_constraint` returns a permutation of the classes in ascending constraint score. The score is timeslots × adequate rooms − limit/100, so the most constrained class comes first, and classes with equal scores keep their order. |
| Heuristics.CapacityTermDivides | backend/schedule_app/heuristics.py:205-212 | The capacity factor as written raises exactly for a room of 0 seats holding a class of at most 0 students. Everywhere else it agrees with the corrected factor. |
| Heuristics.EmptyRoomFails | backend/schedule_app/heuristics.py:211 | A room and a class both at the import default of 0 make the division raise. The corrected factor scores the pair 100. |
| Heuristics.CapacityTermMeaning | backend/schedule_app/heuristics.py:205-212 | A room that is too small scores −1000. A fitting room scores the class's share of its seats, in percent, between 0 and 100. |
| Heuristics.TighterIsBetter | backend/schedule_app/heuristics.py:210-212 | Of two fitting rooms the tighter one scores at least as high, and any fitting room beats one that is too small. |
| Heuristics.Clashes | backend/schedule_app/heuristics.py:214-218 | At most one clash is counted per listed instructor. |
| Heuristics.ClashesFree | backend/schedule_app/heuristics.py:214-218 | No conflict penalty is charged exactly when the timeslot is free for every instructor of the class. |
| Heuristics.QualityMeaning | backend/schedule_app/heuristics.py:203-224 | The score is the capacity factor, minus 500 per busy instructor and 2 per room already used at that timeslot. On a free, unused timeslot it is exactly the capacity factor. Wherever the code returns, it returns this score. |
| Heuristics.FreeIn | backend/schedule_app/heuristics.py:161-164 | The pairs of one room are its candidate timeslots whose (room, timeslot) is not occupied. |
| Heuristics.FreePairs | backend/schedule_app/heuristics.py:160-164 | The loop visits exactly the unoccupied pairs of an adequate room and a tried timeslot. |
| Heuristics.Choose | backend/schedule_app/heuristics.py:151-173 | No pair is chosen exactly when there is none. Otherwise the chosen pair is a candidate of the highest score. |
| Heuristics.ChooseEarliest | backend/schedule_app/heuristics.py:171-173 | Because only a strictly higher score replaces the best, the earliest of the equally good pairs wins. |
| Heuristics.TriedSlots | backend/schedule_app/heuristics.py:146-149 | The tried timeslots are the class's own. When any of them is free for all the class's instructors, only free ones are tried. |
| Heuristics.PlaceBest | backend/schedule_app/heuristics.py:135-184 | A class is skipped exactly when it has no timeslots or no free pair is left. Otherwise it takes the first free pair of highest quality, and only that pair changes the tables. The room is large enough whenever one exists, and the timeslot is free for its instructors whenever one is. |
| Heuristics.RaisesExactly | backend/schedule_app/heuristics.py:206-211 | The construction as written raises at a class exactly when a seatless room is among its candidate pairs and the class has at most 0 students. |
| Heuristics.GreedyAsWrittenAgrees | backend/schedule_app/heuristics.py:135-186 | Whenever the loop as written returns, it returns the corrected loop's tables. It does return when no room has 0 seats, or when every class has a positive limit. |
| Heuristics.GreedyConstructionAgrees | backend/schedule_app/heuristics.py:107-186 | `greedy_construction` as written, when it returns, returns the corrected schedule. It returns whenever no room is seatless or every class has a positive limit. |
| Heuristics.EmptyRoomStopsGreedy | backend/schedule_app/heuristics.py:211 | One class of limit 0 and one room of 0 seats: the code raises ZeroDivisionError, while the corrected construction places the class. |
| Heuristics.PlaceFacts | backend/schedule_app/heuristics.py:175-184 | Placing one class keeps the occupation table consistent with the schedule. It adds only a pair of that class's own timeslot in one of the rooms. |
| Heuristics.OccupyConsistent | backend/schedule_app/heuristics.py:176-184 | Occupying a free pair keeps the tables consistent and adds only that class's entry. |
| Heuristics.GreedyFromFacts | backend/schedule_app/heuristics.py:135-184 | Over any order of the classes, the loop keeps the tables consistent and places only classes of the list, at pairs they may use. |
| Heuristics.GreedyConstructionFacts | backend/schedule_app/heuristics.py:107-186 | The schedule never puts two classes in one room at one timeslot. Each class appears at most once, at one of its own timeslots and in one of the rooms. Classes without timeslots are left out. |
| Heuristics.GenePairs | backend/schedule_app/heuristics.py:282-284 | One (gene, class) entry per gene, in gene order. |
| Heuristics.Violations | backend/schedule_app/heuristics.py:273-295 | Every reported violation lists at least two classes. |
| Heuristics.ViolationsMembers | backend/schedule_app/heuristics.py:282-293 | Each violation lists, in gene order, exactly the classes holding its (room, timeslot), and at least two of them. |
| Heuristics.ViolationsFlagged | backend/schedule_app/heuristics.py:286-293 | A (room, timeslot) is reported exactly when two or more classes hold it. |
| Heuristics.ViolationsDistinct | backend/schedule_app/heuristics.py:286-293 | No (room, timeslot) is reported twice. |
| Heuristics.ViolationsEmpty | backend/schedule_app/heuristics.py:279-295 | There are no violations exactly when no two classes share a gene. |
| Heuristics.CrowdedDistinct | backend/schedule_app/heuristics.py:282-293 | The crowded groups of a `defaultdict(list)` grouping carry pairwise different keys. |
| Heuristics.Take | backend/schedule_app/heuristics.py:339-340 | `xs[:n]` keeps the first min(n, len) elements. |
| Heuristics.Row | backend/schedule_app/heuristics.py:340-342 | The pairs tried for one room are that room with each of the timeslots. |
| Heuristics.Pairs | backend/schedule_app/heuristics.py:339-342 | The probed pairs are exactly the combinations of a listed room and a listed timeslot. |
| Heuristics.BestAlternative | backend/schedule_app/heuristics.py:339-347 | The kept alternative is a probed pair whose fitness is the best of all probes and strictly above the current fitness. There is none exactly when no probe beats the current fitness. |
| Heuristics.RestoreIsIdentity | backend/schedule_app/heuristics.py:326-354 | Restoring the original gene after any number of probes gives back the genes the iteration started from. |
| Heuristics.ProbeAllPut | backend/schedule_app/heuristics.py:342 | Writing a gene after any probes has the same effect as writing it at once. |
| Heuristics.SearchStepFacts | backend/schedule_app/heuristics.py:313-354 | One iteration either changes nothing, or moves a class to an assignment of strictly higher fitness, which becomes current. The set of classes and their order never change. |
| Heuristics.SearchFacts | backend/schedule_app/heuristics.py:313-356 | Over any draws the fitness never falls and the classes are kept. Starting from the genes' own fitness, the result's fitness is the fitness of its genes. |
| Heuristics.LocalSearchFacts | backend/schedule_app/heuristics.py:297-357 | `local_search_conflicts` never lowers the fitness and keeps every class and its position. When the input's fitness was its genes' own, the returned fitness is that of the returned genes. |
| Heuristics.NoViolationsNoChange | backend/schedule_app/heuristics.py:314-316 | An individual without room conflicts is returned unchanged. |
| Genetic.FindClass | backend/schedule_app/genetic_algorithm.py:204 | `next(...)` returns a class with that id from the list, and `None` exactly when no class has it. |
| Genetic.SuitableOrAll | backend/schedule_app/genetic_algorithm.py:208-210 | The rooms tried are rooms of the list. When some room is large enough, only large enough rooms are tried. The list is empty only when there are no rooms at all. |
| Genetic.NearestFacts | backend/schedule_app/genetic_algorithm.py:213-215 | The room taken after the stable sort is the earliest of the rooms whose seat count is closest to the class limit. |
| Genetic.NearestIn | backend/schedule_app/genetic_algorithm.py:214-215 | The nearest room is one of the rooms. |
| Genetic.CrossFacts | backend/schedule_app/genetic_algorithm.py:186-189 | The swap succeeds exactly when both parents have every class from the point on. Each child then takes the other parent's genes on those classes and keeps its own elsewhere, over its own classes. |
| Genetic.CrossoverPoint | backend/schedule_app/genetic_algorithm.py:184 | The crossover point lies in [1, n − 1]. |
| Genetic.DistinctSuffix | backend/schedule_app/genetic_algorithm.py:186-187 | In a list of distinct class ids, a class lies in the suffix from the point exactly when its position is at or after the point. |
| Genetic.CrossoverDefined | backend/schedule_app/genetic_algorithm.py:170-191 | Above the rate the children are copies of the parents. For parents over the same classes crossover always succeeds; it raises only when parent 2 lacks a class of the suffix. |
| Genetic.CrossoverGenes | backend/schedule_app/genetic_algorithm.py:178-191 | For parents over the same classes, child 1 keeps parent 1's class order, with parent 1's genes before the point and parent 2's from the point on. Child 2 is the mirror image in parent 2's class order. |
| Genetic.SplitAtPoint | backend/schedule_app/genetic_algorithm.py:186-189 | Writing the other parent's genes on the suffix yields a one-point mix: each child's own genes before the point, the other's from it on. |
| Genetic.SuffixShared | backend/schedule_app/genetic_algorithm.py:182-188 | For parents over the same classes, every class from the point on belongs to both. |
| Genetic.MapGenesFacts | backend/schedule_app/genetic_algorithm.py:198-228 | Mutating gene by gene succeeds exactly when every gene does, and keeps each class, in order, with its mutated gene. |
| Genetic.RoomChoiceFacts | backend/schedule_app/genetic_algorithm.py:206-218 | A room is always picked when there are rooms. The room is the gene's own or one of the rooms. |
| Genetic.SlotChoiceFacts | backend/schedule_app/genetic_algorithm.py:220-226 | The timeslot is the gene's own or one of the class's timeslots. |
| Genetic.MutateGeneFacts | backend/schedule_app/genetic_algorithm.py:199-228 | A gene whose roll is not under the rate is left unchanged. Otherwise its new timeslot comes from the class's list and its new room from the room list. |
| Genetic.MutateFromFacts | backend/schedule_app/genetic_algorithm.py:198-228 | Every gene from a position on is mutated in this way, and the classes keep their order. |
| Genetic.MutateFacts | backend/schedule_app/genetic_algorithm.py:193-228 | `mutate` keeps the classes, their order and the fitness. Each gene changes only when its roll is under the rate, to a timeslot of its class and a room of the list. It raises only when there are no rooms. |
| Genetic.FirstMax | backend/schedule_app/genetic_algorithm.py:168 | `max(..., key=fitness)` returns an entrant of greatest fitness. |
| Genetic.FirstMaxEarliest | backend/schedule_app/genetic_algorithm.py:168 | `max` returns the earliest of the fittest entrants. |
| Genetic.Entrants | backend/schedule_app/genetic_algorithm.py:167 | There are exactly `tournament_size` entrants, each a member of the population at a sampled position. |
| Genetic.TournamentFacts | backend/schedule_app/genetic_algorithm.py:163-168 | The tournament fails exactly when its size is 0 (`max` of nothing) or above the population (`random.sample`). Otherwise the winner belongs to the population, is at least as fit as every entrant, and every entrant drawn before it is strictly worse. |
| Genetic.Rescore | backend/schedule_app/genetic_algorithm.py:148-149 | Every individual is rescored with the validator, and its genes are kept. |
| Genetic.RankedFresh | backend/schedule_app/genetic_algorithm.py:148-152 | After the sort every fitness is still its genes' own. |
| Genetic.TopIsMax | backend/schedule_app/genetic_algorithm.py:152 | The head of a population sorted by descending fitness is at least as fit as every member. |
| Genetic.EvaluateFacts | backend/schedule_app/genetic_algorithm.py:146-161 | Evaluation fails exactly on an empty population (`population[0]`). Otherwise it rescores everyone and ranks a permutation of them by descending fitness. It appends the top fitness and the mean to the histories. The best individual never gets worse and is at least as good as everyone now present. |
| Genetic.Elite | backend/schedule_app/genetic_algorithm.py:242 | `population[:elitism_size]` has min(elitism_size, len) members. |
| Genetic.FillFacts | backend/schedule_app/genetic_algorithm.py:246-260 | The breeding loop only appends. It ends at `population_size` members, or where it started when already that full. |
| Genetic.GenerationFacts | backend/schedule_app/genetic_algorithm.py:239-262 | A generation starts with the elite, unchanged, and fills up to `population_size`. A full population stays exactly that size. |
| Genetic.EliteKeepsTop | backend/schedule_app/genetic_algorithm.py:241-263 | With an elite of at least one, the next evaluation's top fitness is at least the current top, because the current best individual is carried over and rescored unchanged. |
| Genetic.RescoredTop | backend/schedule_app/genetic_algorithm.py:146-152 | A population led by an individual whose fitness is current evaluates to a top at least as fit. |
| Genetic.EvaluatedInitial | backend/schedule_app/genetic_algorithm.py:235-236 | The first evaluation records one entry in each history, and the best fitness bounds it. |
| Genetic.EvaluatedStep | backend/schedule_app/genetic_algorithm.py:238-263 | Each generation keeps the facts that hold after an evaluation. With an elite, the recorded tops never decrease. |
| Genetic.EvolveFacts | backend/schedule_app/genetic_algorithm.py:230-271 | After n generations each history holds n + 1 entries, every fitness is current, and the best individual is at least as good as every recorded top. With an elite of at least one, the recorded tops never decrease and the best fitness is the last of them. |
| Genetic.EvolveShape | backend/schedule_app/genetic_algorithm.py:235-263 | The run keeps its shape through every generation. |
| Genetic.InitialShape | backend/schedule_app/genetic_algorithm.py:235-236 | The run has that shape after its first evaluation. |
| Genetic.StepShape | backend/schedule_app/genetic_algorithm.py:238-263 | One more generation keeps the shape, with one more history entry. |
| Genetic.StatisticsFacts | backend/schedule_app/genetic_algorithm.py:273-283 | After a run, `generations` is `generations + 1` evaluations and the improvement is last top minus first. With an elite the improvement is never negative, and the best fitness is the last recorded top. |
| Generator.RangeFacts | backend/schedule_app/schedule_generator.py:232 | `range(lo, hi, step)` holds lo + step·i for consecutive i, each below hi, and stops at the first value that reaches hi. |
| Generator.StartTimesFacts | backend/schedule_app/schedule_generator.py:230-232 | `range(96, 216, 12)` is ten hourly starts, from 8:00 (96) to 17:00 (204). |
| Generator.CreateDefaultTimeslots | backend/schedule_app/schedule_generator.py:223-246 | The default grid has 50 slots: every day pattern, taken outermost, with every start time. |
| Generator.PatternShape | backend/schedule_app/schedule_generator.py:228 | Each of the five day patterns marks one weekday, its own, and no other. |
| Generator.DefaultGridFacts | backend/schedule_app/schedule_generator.py:223-246 | Each default slot is one hour on exactly one weekday from Monday to Friday, inside 8:00–18:00, and no two of them overlap. |
| Generator.WithSlots | backend/schedule_app/schedule_generator.py:62-68 | Filter 1 keeps exactly the classes that have at least one stored timeslot. |
| Generator.WithSlotsOrder | backend/schedule_app/schedule_generator.py:63-68 | Filter 1 keeps the database order of the classes. |
| Generator.Unstaffed | backend/schedule_app/schedule_generator.py:85-87 | The classes without an instructor are exactly the kept classes that have no `ClassInstructor` link. |
| Generator.RealInstructors | backend/schedule_app/schedule_generator.py:94 | `exclude(xml_id=999999)` keeps exactly the instructors other than the shared placeholder. |
| Generator.MinLimit | backend/schedule_app/schedule_generator.py:120 | `min(..., default=0)` is 0 for no classes, and otherwise the limit of some class and no more than any class's limit. |
| Generator.NonEmptyMember | backend/schedule_app/schedule_generator.py:96 | A list is truthy exactly when it has a member. |
| Generator.LoadOutcomes | backend/schedule_app/schedule_generator.py:49-139 | `load_data` exits for want of instructors exactly when a schedulable class lacks one and every stored instructor is the shared placeholder. Otherwise it raises when no class has a timeslot, and then when no room seats the smallest schedulable class. |
| Generator.LoadKeepsClasses | backend/schedule_app/schedule_generator.py:62-70 | A successful load keeps exactly the classes with timeslots, in order, each with its stored timeslots, and no other entry. |
| Generator.LoadLinks | backend/schedule_app/schedule_generator.py:80-109 | The links after a successful load are the stored ones, plus the round-robin ones when a kept class lacks an instructor. There are real instructors whenever a class lacks one. |
| Generator.LoadErrorKeepsLinks | backend/schedule_app/schedule_generator.py:103-139 | The round-robin links are saved before either ValueError is raised. A failed load leaves the stored links plus the round-robin ones, and every schedulable class has an instructor. When no class is schedulable, nothing was added. |
| Generator.RoundRobinFacts | backend/schedule_app/schedule_generator.py:104-109 | Round robin links the i-th class to instructor i mod n, and makes no other link. |
| Generator.FillStaffsAll | backend/schedule_app/schedule_generator.py:89-109 | Filling the classes without an instructor keeps the stored links and leaves every kept class with an instructor. |
| Generator.LoadStaffsAll | backend/schedule_app/schedule_generator.py:77-116 | A successful load keeps every stored link and leaves no kept class without an instructor. |
| Generator.LoadStaffsRoundRobin | backend/schedule_app/schedule_generator.py:103-109 | A successful load gives the i-th class without an instructor real instructor i mod n, and adds no other link. |
| Generator.LoadKeepsRooms | backend/schedule_app/schedule_generator.py:118-127 | A successful load keeps exactly the rooms that seat the smallest kept class. Each kept room seats some class, and a dropped room seats none. |
| Generator.SyntheticIds | backend/schedule_app/schedule_generator.py:187-216 | One placeholder import id per course group, each at least 900000, and the placeholder count never falls. |
| Generator.SyntheticIdsFresh | backend/schedule_app/schedule_generator.py:196-209 | With no placeholder from `count` on stored yet, the k-th group gets a new id 900000 + count + k, and all of them differ. |
| Generator.SyntheticIdsReused | backend/schedule_app/schedule_generator.py:198-209 | When the id numbered `count` is already stored, every group reuses that one placeholder and the count stays put. |
| Generator.FindSlot | backend/schedule_app/schedule_generator.py:314-315 | The slot found is one of the class's slots with that id, and there is none exactly when no slot has it. |
| Generator.SaveGeneFacts | backend/schedule_app/schedule_generator.py:302-340 | An assignment is stored only for a known class and a known, truthy room. It points at the gene's own stored timeslot, or at an unsaved slot of the class, which gets written. A gene whose class, room and timeslot are all stored is saved as it is. When every slot of the class is already stored, as after `load_data`, nothing is written and a gene with an unknown timeslot is dropped. |
| Generator.SaveSchedule | backend/schedule_app/schedule_generator.py:302-340 | One save step per gene of the best solution, in gene order. |
| XmlImport.Required | backend/schedule_app/xml_parser.py:54 | `int(elem.get(k))` yields a number exactly when the attribute is a readable integer; a missing one raises too. |
| XmlImport.OrDefault | backend/schedule_app/xml_parser.py:56 | `int(elem.get(k, d))` succeeds exactly on a missing or readable attribute, and a missing one gives the default. |
| XmlImport.IfGiven | backend/schedule_app/xml_parser.py:110 | The "convert if given" idiom raises only on an unreadable value and gives no value for a missing or empty attribute. |
| XmlImport.RealOrDefault | backend/schedule_app/xml_parser.py:141 | `float(elem.get(k, d))` fails only on an unreadable value, and a missing attribute gives the default. |
| XmlImport.LowerChar | backend/schedule_app/xml_parser.py:58 | ASCII lower-casing, the part of `str.lower()` that `== 'true'` depends on: exactly the ASCII capitals move down by 32, and every other character is kept. |
| XmlImport.Lower | backend/schedule_app/xml_parser.py:58 | ASCII lower-casing of a string keeps its length and lower-cases each ASCII capital in place. |
| XmlImport.FlagMeaning | backend/schedule_app/xml_parser.py:58 | A flag is set exactly when the attribute is present, has four letters, and spells "true" in any mix of cases. |
| XmlImport.RoomArgsMeaning | backend/schedule_app/xml_parser.py:52-60 | A `<room>` converts exactly when its id reads and its capacity reads or is missing; its row gets the capacity or 0, the location or "", and the flag. |
| XmlImport.AddOne | backend/schedule_app/xml_parser.py:61-62 | Counting the new ids of `{x} + a` splits on whether x was stored already. |
| XmlImport.RoomsPassSucceeds | backend/schedule_app/xml_parser.py:49-62 | The rooms pass raises exactly when some `<room>` fails to convert. |
| XmlImport.RoomsPassAdds | backend/schedule_app/xml_parser.py:49-62 | After the rooms pass the stored ids are the old ones plus the file's room ids, and a stored room keeps its row. |
| XmlImport.RoomsPassCounts | backend/schedule_app/xml_parser.py:61-62 | The rooms counter grows by the number of the file's room ids that were not stored before. |
| XmlImport.GetOrCreateKeys | backend/schedule_app/xml_parser.py:53-62 | One get-or-create adds the id and counts one exactly when the id was not stored. |
| XmlImport.CountStep | backend/schedule_app/xml_parser.py:61-62 | One get-or-create followed by the rest counts the ids of `{x} + rest` that were not stored. |
| XmlImport.RoomsPassFirst | backend/schedule_app/xml_parser.py:53-60 | A room the pass creates takes its attributes from the first `<room>` with that id; later duplicates do not change it. |
| XmlImport.NumIds | backend/schedule_app/xml_parser.py:68-70 | Collecting ids fails exactly when one does not convert; otherwise the set holds exactly the listed ids. |
| XmlImport.InstructorIds | backend/schedule_app/xml_parser.py:64-70 | The instructor id set is defined exactly when every `<instructor>` id converts, and it holds exactly the ids some class lists. |
| XmlImport.OfferingIds | backend/schedule_app/xml_parser.py:80-86 | The offering id set is defined exactly when no offering is unreadable, and it holds exactly the offerings some class names; empty ones are skipped. |
| XmlImport.ClassArgs | backend/schedule_app/xml_parser.py:103-116 | A `<class>` converts exactly when its id reads and its optional numbers are readable or absent; the row has no parent, the limit or 0, and an offering exactly when one is given. |
| XmlImport.StageRooms | backend/schedule_app/xml_parser.py:49-62 | The rooms pass touches only the room table and the rooms counter. |
| XmlImport.StageInstructors | backend/schedule_app/xml_parser.py:72-78 | The instructors pass touches only the instructor table and its counter. |
| XmlImport.StageCourses | backend/schedule_app/xml_parser.py:88-97 | The courses pass touches only the course table and its counter. |
| XmlImport.StageClasses | backend/schedule_app/xml_parser.py:99-153 | The classes pass touches only classes, instructor links, room preferences, slots and their two counters. |
| XmlImport.StageParents | backend/schedule_app/xml_parser.py:155-166 | The parents pass touches only the class rows and no counter. |
| XmlImport.StageStudents | backend/schedule_app/xml_parser.py:168-188 | The students pass touches only students, enrolments and their two counters. |
| XmlImport.Import | backend/schedule_app/xml_parser.py:13-203 | The rolled-back import gives the same answer as the view, leaves the database as it was on any answer but 200, and stores the same as the view on 200. |
| XmlImport.TeachersPassFacts | backend/schedule_app/xml_parser.py:124-131 | The instructor links of a new class raise exactly on an unreadable id; they add exactly the listed instructors that exist. |
| XmlImport.RoomPrefsPassFacts | backend/schedule_app/xml_parser.py:134-142 | A readable room list always goes through; stored preferences stay, and new ones are for this class and an existing room. |
| XmlImport.TimesPassFacts | backend/schedule_app/xml_parser.py:145-153 | The slot pass fails exactly when some `<time>` does not convert; otherwise it appends one slot per `<time>`, in order, and counts each. |
| XmlImport.GrowsTrans | backend/schedule_app/xml_parser.py:120-153 | Growth of the link tables for two sets of classes composes into growth for their union. |
| XmlImport.TimeArgsAnyClass | backend/schedule_app/xml_parser.py:146-152 | Whether a `<time>` converts does not depend on the class it belongs to. |
| XmlImport.ChildrenFacts | backend/schedule_app/xml_parser.py:120-153 | The children of a new class go through when they all convert, and they only add links and slots for that class. |
| XmlImport.ClassIdsCons | backend/schedule_app/xml_parser.py:102-103 | The file's class ids are the first class's id plus the ids of the rest. |
| XmlImport.ClassesPassStep | backend/schedule_app/xml_parser.py:102-153 | A stored class is skipped, and a new one is stored with its children before the rest is read. |
| XmlImport.ClassesPassArgs | backend/schedule_app/xml_parser.py:102-116 | A classes pass that goes through met only classes whose attributes convert. |
| XmlImport.ClassesPassKeys | backend/schedule_app/xml_parser.py:99-121 | After the classes pass every class of the file is stored, and a stored class keeps its row. |
| XmlImport.ClassKeysStep | backend/schedule_app/xml_parser.py:120-121 | Storing a new class adds its id to the keys. |
| XmlImport.ClassesPassCounts | backend/schedule_app/xml_parser.py:120-121 | The classes counter grows by the number of the file's class ids not stored before. |
| XmlImport.ClassesPassOnlyNew | backend/schedule_app/xml_parser.py:120-153 | Instructor links, room preferences and slots are added only for classes this pass created, and what was stored stays. |
| XmlImport.CleanClassesRun | backend/schedule_app/xml_parser.py:99-153 | A file whose classes and children all convert goes through the classes pass. |
| XmlImport.ClassesPassStored | backend/schedule_app/xml_parser.py:106-121 | When every class of the file is stored already, the classes pass changes nothing and counts nothing. |
| XmlImport.LastParent | backend/schedule_app/xml_parser.py:161-165 | A parent is found only for a class of the file, and only a class of the file is named as parent. |
| XmlImport.ParentsPassRuns | backend/schedule_app/xml_parser.py:155-166 | The parents pass fails exactly on an unreadable class id, or on an unreadable parent of a class of the file. |
| XmlImport.ParentsPassMeaning | backend/schedule_app/xml_parser.py:155-166 | The parents pass only sets parents, and each class ends with the last parent the file gives it. |
| XmlImport.ParentsPassIdempotent | backend/schedule_app/xml_parser.py:155-166 | Running the parents pass again over its own result changes nothing. |
| XmlImport.EnrolPassFacts | backend/schedule_app/xml_parser.py:181-188 | A student's enrolments fail exactly on an unreadable class id; they add the listed classes of the file and count each listing. |
| XmlImport.StudentsPassRuns | backend/schedule_app/xml_parser.py:168-188 | The students pass fails exactly on an unreadable student id or class id. |
| XmlImport.StudentStep | backend/schedule_app/xml_parser.py:172-178 | A get-or-create of a student adds the id and counts it only when it was new, and leaves enrolments alone. |
| XmlImport.StudentsPassStudents | backend/schedule_app/xml_parser.py:168-178 | Every student of the file is stored afterwards. |
| XmlImport.StudentsPassCounts | backend/schedule_app/xml_parser.py:177-178 | The students counter grows by the number of student ids not stored before. |
| XmlImport.StudentsPassEnrols | backend/schedule_app/xml_parser.py:181-188 | The enrolments afterwards are the old ones plus exactly the listings of classes of the file, and the counter counts every listing, repeats included. |
| XmlImport.PassesTrace | backend/schedule_app/xml_parser.py:49-188 | A successful import runs the six passes in order, each on what the previous one left. |
| XmlImport.CleanPassesRun | backend/schedule_app/xml_parser.py:49-188 | A document whose converted attributes are all readable imports, whatever the database holds. |
| XmlImport.CleanImportSucceeds | backend/schedule_app/xml_parser.py:18-194 | A POST with a clean parsed document is answered 200 with its counters. |
| XmlImport.PartialPasses | backend/schedule_app/xml_parser.py:49-103 | On a document with one room and a class whose id does not convert, the room pass stores room 1 and the classes pass then raises. |
| XmlImport.PartialImportPersists | backend/schedule_app/xml_parser.py:13-203 | On that document the view answers 500 yet room 1 stays stored, while the rolled-back import leaves the database empty. |
| XmlImport.Answered | backend/schedule_app/xml_parser.py:18-194 | A 200 answer comes from a POST whose file parsed and whose passes all went through, and it carries the counters. |
| XmlImport.ImportCounts | backend/schedule_app/xml_parser.py:31-194 | Each counter of a 200 answer counts the import ids of its kind not stored when the passes began; the slot counter counts the slots added and the enrolment counter every listing. |
| XmlImport.PassesTableCounts | backend/schedule_app/xml_parser.py:49-153 | The room, instructor, course, class and slot counters of a successful run count exactly the new rows. |
| XmlImport.PassesStudentCounts | backend/schedule_app/xml_parser.py:168-178 | The student counter of a successful run counts the student ids not stored before. |
| XmlImport.ImportKeeps | backend/schedule_app/xml_parser.py:42-188 | A successful import only adds: rows stay (a class may change only its parent), links only grow, stored slots stay in front; without `clear_existing` this holds against the database before. |
| XmlImport.ImportChildrenOnlyNew | backend/schedule_app/xml_parser.py:120-153 | Every link, room preference and slot a successful import adds belongs to a class of the file that this import created. |
| XmlImport.ImportParents | backend/schedule_app/xml_parser.py:155-166 | After a successful import a class the file gives a parent ends with the last such parent, and any other stored class keeps its own. |
| XmlImport.RoomsPassStored | backend/schedule_app/xml_parser.py:53-62 | When every room of the file is stored, the rooms pass changes nothing and counts nothing. |
| XmlImport.StudentsPassStored | backend/schedule_app/xml_parser.py:168-188 | When every student and enrolment of the file is stored, the students pass changes nothing and only counts the listings. |
| XmlImport.SuccessSettles | backend/schedule_app/xml_parser.py:49-188 | A successful run leaves the database holding everything the document would create. |
| XmlImport.SettledPasses | backend/schedule_app/xml_parser.py:49-188 | Over a settled database the passes change nothing and count only the enrolment listings. |
| XmlImport.PassesEnrolments | backend/schedule_app/xml_parser.py:181-188 | A successful run counts every listing of a class of the file as an enrolment. |
| XmlImport.PassesAgain | backend/schedule_app/xml_parser.py:49-188 | Running the passes again over what a successful run left changes nothing and counts only the listings. |
| XmlImport.ReimportChangesNothing | backend/schedule_app/xml_parser.py:42-194 | Importing the same file again right after a success, without clearing, is answered 200, changes nothing, and reports no new rows, only the enrolment listings. |

## Left out

- Floating point: fitness weights, preferences, utilisation percentages and averages are exact `real`s. `:.1f` and `toLocaleString` renderings are not modelled. Nor is `round(...)`, and the one place it feeds a decision is harmless: `round(utilization_percentage, 1)` is the sort key of the room report (analysis.py:319, :324). That percentage is usage/50·100 = 2·usage, a whole number, so rounding it to one decimal changes nothing, and the model sorts on 2·usage.
- JavaScript numbers in the client are unbounded `int`s. The client only adds and compares small slot counts and indices, so no precision loss arises there.
- Python sets: the import's instructor and offering id sets are Dafny sets. Each step over them creates an independent row, so their iteration order does not change the result. The validator's per-class instructor and student ids are `set(...)` in the source (constraints.py:56, :65), but sequences in the model (`classInstructors`, `classStudents`). They stand for those sets, so they hold no repeats. With a repeated id, the model would count a gene clashing with itself, which the source's set cannot produce. For instructors, `unique_together` on `ClassInstructor` (models.py:79) keeps the stored links free of repeats too. For students, the query runs over every class of the offering and can list a student twice; there it is the source's `set(...)` that removes the repeat.
- Randomness: every `random.choice`, `random.sample`, `random.random` and `randint` draw is a parameter. Probability distributions are not modelled, because the properties hold for every draw.
- The Django ORM and transactions are maps, sets and sequences passed in and returned. `@transaction.atomic` appears only through the import's two answers, as written and rolled back.
- `Count`/`Avg` aggregates are the sums and counts they compute. `dashboard_stats` in xml_parser.py is an aggregate query with no rule beyond counting.
- Printing, logging, `_print_report`'s text, CSV export and the CLI argument handling of the management commands are not modelled: they are output plumbing. The division in `_print_report` is kept, as a finding below.
- `sys.exit` in `load_data` is the `NoInstructors` outcome of `Generator.LoadData`; the process exit itself is not modelled.
- Wall-clock dates are not modelled: `datetime.now()`, the week base date of the API's events and the `timezone.now()` schedule names. Only the time-of-day strings are modelled.
- XML tokenising is not modelled, because ElementTree parsing is a library call. The parsed tree is a datatype, and a file that does not parse is the `Unparsable` upload answered 400.
- The React CRUD screens, Dashboard, ImportXML, Schedules, TimetableView, components.backup/, api.ts, serializers, urls, admin and migrations are not modelled. They are fetch-and-render UI or wiring.
- `RoomViewSet.statistics` is not modelled. It names `models`, which views.py never imports, so it raises a NameError before doing anything.
- `initialize_random`, `initialize_population`, `initialize_hybrid_population`, `conflict_directed_mutation` and `cluster_classes_by_department` are not modelled. They are random initialisation or random repair. `Genetic.Evolve` takes the initial population as an input.
- `get_schedule_summary`, `get_synthetic_instructors_report`, `get_unassigned_classes`, `get_instructor_schedule` and the `generate()` orchestration in schedule_generator.py are not modelled. They are ORM reports, or they chain the modelled steps with printing.
- The texts of the analysers' messages and recommendations, `_get_room_recommendation`, `load_percentage` and `avg_utilization` are not modelled. They are string formatting or float division over the modelled counts. The numeric part of `_get_recommendation` is modelled.
- `Individual.clone` is not a member. Individuals are immutable values, so a clone is the individual itself, and a later write to a clone cannot reach the original.
- The uniqueness constraints on `ScheduleAssignment (schedule, class)` and `ClassInstructor (class, instructor)` in models.py are not separate members. An individual's genes are a dictionary keyed by class: `Dict.Put` keeps its keys distinct, `Dict.PutDistinct`. The generator and the import keep links as sets of pairs. The validator's per-class lists are taken free of repeats, as the line on Python sets says.
- XmlImport.Lower: `.lower()` at xml_parser.py:58 and :113 is modelled on ASCII letters only (with `XmlImport.LowerChar`). Python's `str.lower()` also lowers non-ASCII capitals ('É' to 'é'), and it can lengthen a string ('İ' becomes two characters). Neither changes any result, because the lowered text is only compared with `'true'`. No non-ASCII character lower-cases to a string containing 't', 'r', 'u' or 'e'. So a value equals `'true'` after `str.lower()` exactly when it is four letters spelling "true" in any mix of ASCII cases, which is what `XmlImport.FlagMeaning` states.
- Genetic.RoomChoice: when no room is large enough, the source sorts the shared `individual.rooms` list in place (genetic_algorithm.py:208-215, with the list built at :41-47). The model picks the same room the sort puts first: the earliest room whose size is nearest the limit. The reordering of the shared list is not modelled. Later reads of the shared list see the new order: `random.choice(individual.rooms)`, the initial room pick at genetic_algorithm.py:58, the room scan at heuristics.py:264-266, and the first ten valid rooms of the local search. The draws are parameters here, so each of these reads is still some room of the list. Which room a given draw picks may differ.
- Genetic.Entrants: the sampled positions are a function parameter and may repeat, while `random.sample` draws distinct ones. The facts proved about `Genetic.Tournament` hold for every draw, so they cover the source's draws as well.

## Findings

| source | as written | input that shows it | evidently intended | confidence | as-written member | corrected member |
|---|---|---|---|---|---|---|
| backend/schedule_app/analysis.py:99-103 | An optimal load still reports `6 - count` more classes as room to grow. | A count of 7, which is below the "high" band, reports −1 classes remaining. | The remaining capacity is never negative. | not executed | Analysis.GetRecommendationAsWritten / Analysis.RemainingGoesNegative | Analysis.GetRecommendation / Analysis.RecommendationMeaning |
| backend/schedule_app/instructor_assigner.py:217-232 | Availability checks only the exact key (day, start, end), although the docstring promises an overlap check. | Instructor 7 only; Monday start 96 length 12, then Monday start 102 length 12: both classes get instructor 7. | An instructor is never given two overlapping classes. | not executed | InstructorAssigner.AvailableAsWritten / InstructorAssigner.AsWrittenDoubleBooks | InstructorAssigner.AssignmentPass |
| backend/schedule_app/instructor_assigner.py:262-264 | The report divides by the number of assignments. | An empty schedule: ZeroDivisionError after every statistic is computed. | An empty schedule reports 0% for both shares. | not executed | InstructorAssigner.ReportAsWritten / InstructorAssigner.EmptyScheduleFails | InstructorAssigner.Report / InstructorAssigner.ReportShares |
| backend/schedule_app/heuristics.py:211 | The capacity term divides the waste by the room's capacity. | One class of limit 0 and one room of capacity 0: ZeroDivisionError, and the greedy construction stops. | An empty room scores without raising, and the class is placed. | not executed | Heuristics.GreedyConstructionAsWritten / Heuristics.EmptyRoomStopsGreedy | Heuristics.GreedyConstruction / Heuristics.GreedyConstructionAgrees |
| backend/schedule_app/xml_parser.py:13-203 | The view catches every exception and answers 500 inside `@transaction.atomic`, so the transaction commits. | `XmlImport.PartialDoc`: room 1, then a class whose id does not convert. The answer is 500, yet room 1 stays stored. | A failed import leaves the database as it was. | not executed | XmlImport.ImportAsWritten / XmlImport.PartialImportPersists | XmlImport.Import |
