/** The integer aggregations behind `AnalyticsWindow`'s charts: exams per weekday,
    courses per department, a conflict score per course and the histogram of how
    many exams each student sits. Each takes the window's two optional data sources,
    the database manager and the timetable generator, either of which may be absent. */
module Analytics {
  import opened Wrappers
  import opened Text
  import opened Models
  import Tally
  import Database
  import Timetable

  /** The sample exam load the window shows when it has no data source. */
  const SampleExamLoad: map<string, int> :=
    map["Monday" := 5, "Tuesday" := 8, "Wednesday" := 4, "Thursday" := 6, "Friday" := 7, "Saturday" := 3]

  // ---------------------------------------------------------------------------
  // Exam load per day

  /** The day names searched for in a schedule line, in the order they are tried.
      Sunday is not among them. */
  const Weekdays: seq<string> := ["Monday", "Tuesday", "Wednesday", "Thursday", "Friday", "Saturday"]

  /** The days the exams are spread over when there is no schedule. */
  const WorkingDays: seq<string> := ["Monday", "Tuesday", "Wednesday", "Thursday", "Friday"]

  /** The position of the first of `Weekdays[k..]` that occurs in `line`. */
  function FirstDayFrom(line: string, k: nat): (r: Option<nat>)
    requires k <= |Weekdays|
    ensures r.Some? ==> k <= r.value < |Weekdays| && Contains(line, Weekdays[r.value])
    ensures forall i | k <= i < |Weekdays| && (r.None? || i < r.value) :: !Contains(line, Weekdays[i])
    decreases |Weekdays| - k
  {
    if k == |Weekdays| then None
    else if Contains(line, Weekdays[k]) then Some(k)
    else FirstDayFrom(line, k + 1)
  }

  /** The day a schedule line is counted under; `DayOfFirstWeekday` says which. */
  function DayOf(line: string): (r: Option<string>)
    ensures r.Some? ==> r.value in Weekdays
  {
    match FirstDayFrom(line, 0)
    case None => None
    case Some(i) => Some(Weekdays[i])
  }

  /** A line is counted under the first weekday name, in the order Monday to Saturday,
      that it contains, and under none when it names none of them. */
  lemma DayOfFirstWeekday(line: string)
    ensures DayOf(line).Some? ==> Contains(line, DayOf(line).value)
    ensures DayOf(line).Some? ==> forall i | 0 <= i < |Weekdays| && Weekdays[i] == DayOf(line).value ::
      forall j | 0 <= j < i :: !Contains(line, Weekdays[j])
    ensures DayOf(line).None? <==> forall i | 0 <= i < |Weekdays| :: !Contains(line, Weekdays[i])
  {
    match FirstDayFrom(line, 0)
    case None =>
    case Some(i) =>
      assert forall j | 0 <= j < |Weekdays| && Weekdays[j] == Weekdays[i] :: j == i;
  }

  /** The day of every line that has one, in line order. */
  function DaysOf(lines: seq<string>): (days: seq<string>)
    ensures |days| <= |lines|
    ensures forall d | d in days :: d in Weekdays
    decreases |lines|
  {
    if |lines| == 0 then []
    else
      var rest := DaysOf(lines[..|lines| - 1]);
      match DayOf(lines[|lines| - 1])
      case None => rest
      case Some(d) => rest + [d]
  }

  /** The `dayCount[day]++` loop over the schedule lines: only weekdays are keys, and
      the counts add up to at most the number of lines. */
  function ExamLoadOfLines(lines: seq<string>): (load: map<string, int>)
    ensures forall d | d in load :: d in Weekdays && load[d] >= 1
    ensures Tally.SumValues(load) <= |lines|
  {
    var days := DaysOf(lines);
    Tally.SumOfCountMap(days);
    Tally.CountMap(days)
  }

  /** A line naming no weekday, a Sunday line for one, leaves the counts as they are;
      any other line adds one under its first weekday. */
  lemma ExamLoadAppend(lines: seq<string>, line: string)
    ensures DayOf(line).None? ==> ExamLoadOfLines(lines + [line]) == ExamLoadOfLines(lines)
    ensures DayOf(line).Some? ==>
      ExamLoadOfLines(lines + [line]) == Tally.Inc(ExamLoadOfLines(lines), DayOf(line).value)
  {
    var all := lines + [line];
    assert all[..|all| - 1] == lines;
    if DayOf(line).Some? {
      var days := DaysOf(lines) + [DayOf(line).value];
      assert days[..|days| - 1] == DaysOf(lines);
    }
  }

  /** The last line adds one day exactly when it names a weekday. */
  lemma DaysOfStep(lines: seq<string>)
    requires |lines| > 0
    ensures |DaysOf(lines)| == |DaysOf(lines[..|lines| - 1])| + if DayOf(lines[|lines| - 1]).Some? then 1 else 0
  {
  }

  /** Every line is counted exactly when every line names a weekday. */
  lemma {:induction false} DaysOfEveryLine(lines: seq<string>)
    ensures |DaysOf(lines)| == |lines| <==> forall k | 0 <= k < |lines| :: DayOf(lines[k]).Some?
    decreases |lines|
  {
    if |lines| > 0 {
      var init := lines[..|lines| - 1];
      DaysOfEveryLine(init);
      DaysOfStep(lines);
      assert forall k | 0 <= k < |init| :: init[k] == lines[k];
      assert |DaysOf(init)| <= |init|;
    }
  }

  /** The counts add up to the number of lines exactly when every line names a weekday. */
  lemma ExamLoadCountsEveryLine(lines: seq<string>)
    ensures Tally.SumValues(ExamLoadOfLines(lines)) == |lines|
      <==> forall k | 0 <= k < |lines| :: DayOf(lines[k]).Some?
  {
    Tally.SumOfCountMap(DaysOf(lines));
    DaysOfEveryLine(lines);
  }

  /** `(courseCount + 5 - 1) / 5` for each of the five working days: the ceiling of an
      even share of the courses. */
  function EvenLoad(courseCount: nat): (load: map<string, int>)
    ensures forall d :: d in load <==> d in WorkingDays
    ensures forall d | d in load :: 5 * load[d] >= courseCount && 5 * (load[d] - 1) < courseCount
  {
    map d | d in WorkingDays :: (courseCount + |WorkingDays| - 1) / |WorkingDays|
  }

  /** `processExamLoadData()`: the lines of a generated schedule when there is one,
      else an even share of the fetched courses when there is a database, else the
      sample load. */
  function ExamLoad(gen: Option<Timetable.Generator>, db: Option<Database.Manager>): (load: map<string, int>)
    ensures gen.Some? && Timetable.IsGenerated(gen.value) ==>
      load == ExamLoadOfLines(Timetable.GetSchedule(gen.value))
    ensures !(gen.Some? && Timetable.IsGenerated(gen.value)) && db.Some? ==>
      load == EvenLoad(|Database.FetchCourses(db.value).nodes|)
    ensures !(gen.Some? && Timetable.IsGenerated(gen.value)) && db.None? ==> load == SampleExamLoad
    ensures gen.Some? && Timetable.IsGenerated(gen.value) ==>
      Tally.SumValues(load) <= |Timetable.GetSchedule(gen.value)|
    ensures forall d | d in load :: d in Weekdays
  {
    if gen.Some? && Timetable.IsGenerated(gen.value) then ExamLoadOfLines(Timetable.GetSchedule(gen.value))
    else if db.Some? then EvenLoad(|Database.FetchCourses(db.value).nodes|)
    else SampleExamLoad
  }

  /** With no generated schedule, a connected database spreads its ten courses two to a
      day, and a disconnected one gives every working day nothing. */
  lemma ExamLoadWithoutSchedule(m: Database.Manager)
    ensures m.connected ==> ExamLoad(None, Some(m)) == map d | d in WorkingDays :: 2
    ensures !m.connected ==> ExamLoad(None, Some(m)) == map d | d in WorkingDays :: 0
  {
  }

  // ---------------------------------------------------------------------------
  // Courses per department

  /** The department of every course that has one, in course order. */
  function Departments(courses: seq<Course>): (depts: seq<string>)
    ensures |depts| <= |courses|
    ensures forall d :: d in depts <==> d != "" && exists k | 0 <= k < |courses| :: courses[k].department == d
    decreases |courses|
  {
    if |courses| == 0 then []
    else
      var init := courses[..|courses| - 1];
      var rest := Departments(init);
      var last := courses[|courses| - 1];
      assert forall k | 0 <= k < |init| :: init[k] == courses[k];
      if last.department == "" then rest else rest + [last.department]
  }

  /** The fallbacks the window uses: three departments when the database gives none,
      five when there is no database. */
  const ThreeDepartments: map<string, int> :=
    map["Computer Science" := 15, "Information Technology" := 12, "Electronics" := 8]
  const FiveDepartments: map<string, int> :=
    ThreeDepartments["Mechanical" := 6]["Civil" := 4]

  /** `processDepartmentDistributionData()`: the number of fetched courses in each
      non-empty department, or a fallback. */
  function DepartmentDistribution(db: Option<Database.Manager>): (dist: map<string, int>)
    ensures "" !in dist
    ensures db.None? ==> dist == FiveDepartments
    ensures |dist| > 0
  {
    match db
    case None => FiveDepartments
    case Some(m) =>
      var counts := Tally.CountMap(Departments(Database.FetchCourses(m).nodes));
      if |counts| == 0 then ThreeDepartments else counts
  }

  /** Connected, each department's count is the number of fetched courses in it, and the
      counts add up to the number of courses with a department. */
  lemma DepartmentCounts(m: Database.Manager)
    requires m.connected
    ensures forall d | d in DepartmentDistribution(Some(m)) ::
      DepartmentDistribution(Some(m))[d] == multiset(Departments(Database.FetchCourses(m).nodes))[d]
    ensures Tally.SumValues(DepartmentDistribution(Some(m))) == |Departments(Database.FetchCourses(m).nodes)|
  {
    var courses := Database.FetchCourses(m).nodes;
    assert courses[0].courseId == "ML101";
    assert courses[0] == Database.MockCourses[0];
    assert Departments(courses) != [] by {
      assert courses[0].department == "Computer Science";
    }
    Tally.SumOfCountMap(Departments(courses));
  }

  /** When every course has a department, none is skipped and the order is kept. */
  lemma {:induction false} DepartmentsAllNamed(courses: seq<Course>)
    requires forall k | 0 <= k < |courses| :: courses[k].department != ""
    ensures Departments(courses) == seq(|courses|, k requires 0 <= k < |courses| => courses[k].department)
    decreases |courses|
  {
    if |courses| > 0 {
      var init := courses[..|courses| - 1];
      DepartmentsAllNamed(init);
    }
  }

  const MockDepartmentList: seq<string> :=
    ["Computer Science", "Computer Science", "Information Technology", "Computer Science",
     "Computer Science", "Information Technology", "Computer Science", "Information Technology",
     "Computer Science", "Information Technology"]

  /** The departments of the ten mock courses, in fetch order. */
  lemma MockDepartments()
    ensures Departments(Database.MockCourses) == MockDepartmentList
  {
    DepartmentsAllNamed(Database.MockCourses);
  }

  /** A count map over a sequence of two distinct values holds exactly those two. */
  lemma CountMapOfTwo(s: seq<string>, a: string, b: string)
    requires a != b
    requires forall x | x in s :: x == a || x == b
    requires a in s && b in s
    ensures Tally.CountMap(s) == map[a := multiset(s)[a], b := multiset(s)[b]]
  {
    var c := Tally.CountMap(s);
    assert c.Keys == {a, b};
  }

  /** Counting the mock departments: six Computer Science, four Information Technology. */
  lemma MockDepartmentCounts()
    ensures Tally.CountMap(MockDepartmentList) == map["Computer Science" := 6, "Information Technology" := 4]
  {
    var ds := MockDepartmentList;
    assert ds[0] == "Computer Science" && ds[2] == "Information Technology";
    assert multiset(ds)["Computer Science"] == 6 && multiset(ds)["Information Technology"] == 4;
    CountMapOfTwo(ds, "Computer Science", "Information Technology");
  }

  /** Connected, six courses belong to Computer Science and four to Information
      Technology. */
  lemma DepartmentDistributionConnected(m: Database.Manager)
    requires m.connected
    ensures DepartmentDistribution(Some(m)) == map["Computer Science" := 6, "Information Technology" := 4]
  {
    MockDepartments();
    MockDepartmentCounts();
    assert Database.FetchCourses(m).nodes == Database.MockCourses;
  }

  /** Disconnected, the fetch is empty and the three-department fallback is shown. */
  lemma DepartmentFallback(m: Database.Manager)
    requires !m.connected
    ensures DepartmentDistribution(Some(m)) == ThreeDepartments
  {
    assert Departments(Database.FetchCourses(m).nodes) == [];
  }

  // ---------------------------------------------------------------------------
  // Conflicts per course

  /** The simulated conflict count for a course of `students` enrollments. */
  function ConflictScore(students: int): (c: int)
    ensures c in {0, 1, 2, 3, 5}
    ensures c > 0 <==> students > 25
    ensures c == 5 <==> students > 100
  {
    if students > 100 then 5
    else if students > 75 then 3
    else if students > 50 then 2
    else if students > 25 then 1
    else 0
  }

  /** More students never lower the score. */
  lemma ConflictScoreMonotone(a: int, b: int)
    requires a <= b
    ensures ConflictScore(a) <= ConflictScore(b)
  {
  }

  /** `courseStudentCount[courseId]`: a course without enrollments reads as 0. */
  function StudentCount(sizes: map<string, int>, courseId: string): int {
    if courseId in sizes then sizes[courseId] else 0
  }

  /** The walk over the courses: a course is recorded, with its score, exactly when
      its score is positive. */
  function ConflictEntries(courses: seq<Course>, sizes: map<string, int>): (conflicts: map<string, int>)
    ensures forall c :: c in conflicts <==> c in Database.CourseCodesOf(courses) && ConflictScore(StudentCount(sizes, c)) > 0
    ensures forall c | c in conflicts :: conflicts[c] == ConflictScore(StudentCount(sizes, c))
    decreases |courses|
  {
    if |courses| == 0 then map[]
    else
      var init := courses[..|courses| - 1];
      var id := courses[|courses| - 1].courseId;
      var rest := ConflictEntries(init, sizes);
      assert Database.CourseCodesOf(courses) == Database.CourseCodesOf(init) + [id];
      var score := ConflictScore(StudentCount(sizes, id));
      if score > 0 then rest[id := score] else rest
  }

  const TwoConflicts: map<string, int> := map["ML101" := 2, "AI401" := 1]
  const FiveConflicts: map<string, int> :=
    map["ML101" := 2, "AI401" := 5, "DSA201" := 1, "DB301" := 3, "OS401" := 4]

  /** The conflict map for the fetched courses and enrollments: the enrollments per
      course are counted, each course gets its score, and the two-course sample
      replaces an empty result. */
  function Conflicts(courses: seq<Course>, es: seq<Enrollment>): (conflicts: map<string, int>)
    ensures |conflicts| > 0
    ensures forall c | c in conflicts :: 1 <= conflicts[c] <= 5
  {
    var entries := ConflictEntries(courses, Tally.CountMap(Database.CourseIds(es)));
    if |entries| == 0 then TwoConflicts else entries
  }

  /** `processConflictDetectionData()`: from the database when there is one, else the
      five-course sample. */
  function ConflictMap(db: Option<Database.Manager>): (conflicts: map<string, int>)
    ensures db.None? ==> conflicts == FiveConflicts
    ensures db.Some? ==> conflicts == Conflicts(Database.FetchCourses(db.value).nodes, Database.FetchEnrollments(db.value).nodes)
  {
    match db
    case None => FiveConflicts
    case Some(m) => Conflicts(Database.FetchCourses(m).nodes, Database.FetchEnrollments(m).nodes)
  }

  /** A course is listed, with its score, exactly when more than 25 enrollments name
      it; when no course has that many, the two-course sample is shown instead. */
  lemma ConflictsRecorded(courses: seq<Course>, es: seq<Enrollment>)
    ensures var sizes := Tally.CountMap(Database.CourseIds(es));
      (forall c | c in Database.CourseCodesOf(courses) :: StudentCount(sizes, c) <= 25) ==> Conflicts(courses, es) == TwoConflicts
    ensures var sizes := Tally.CountMap(Database.CourseIds(es));
      (exists c | c in Database.CourseCodesOf(courses) :: StudentCount(sizes, c) > 25) ==>
        forall c :: c in Conflicts(courses, es) <==> c in Database.CourseCodesOf(courses) && StudentCount(sizes, c) > 25
  {
    var ids := Database.CourseCodesOf(courses);
    var sizes := Tally.CountMap(Database.CourseIds(es));
    var entries := ConflictEntries(courses, sizes);
    if exists c | c in ids :: StudentCount(sizes, c) > 25 {
      var c :| c in ids && StudentCount(sizes, c) > 25;
      assert c in entries;
    } else {
      assert entries.Keys == {};
    }
  }

  /** Disconnected, nothing is fetched and the two-course sample is shown. */
  lemma ConflictFallback(m: Database.Manager)
    requires !m.connected
    ensures ConflictMap(Some(m)) == TwoConflicts
  {
    ConflictsRecorded([], []);
  }

  // ---------------------------------------------------------------------------
  // Exams per student

  function RollsOf(es: seq<Enrollment>): (rolls: seq<string>)
    ensures |rolls| == |es|
    ensures forall k | 0 <= k < |es| :: rolls[k] == es[k].rollNo
  {
    seq(|es|, k requires 0 <= k < |es| => es[k].rollNo)
  }

  const ThreeCountSample: map<int, int> := map[3 := 30, 4 := 25, 5 := 20]
  const SixCountSample: map<int, int> := map[1 := 15, 2 := 25, 3 := 30, 4 := 20, 5 := 8, 6 := 2]

  /** How many students sit each number of exams, over the fetched enrollments, or the
      three-count sample when there are none. */
  function ExamCounts(es: seq<Enrollment>): (dist: map<int, int>)
    ensures |dist| > 0
  {
    var h := Tally.Histogram(RollsOf(es));
    if |h| == 0 then ThreeCountSample else h
  }

  /** `processStudentExamDistributionData()`: from the database when there is one, else
      the six-count sample. */
  function ExamCountDistribution(db: Option<Database.Manager>): (dist: map<int, int>)
    ensures db.None? ==> dist == SixCountSample
    ensures db.Some? ==> dist == ExamCounts(Database.FetchEnrollments(db.value).nodes)
  {
    match db
    case None => SixCountSample
    case Some(m) => ExamCounts(Database.FetchEnrollments(m).nodes)
  }

  /** Over a non-empty enrollment list, entry `k` counts the students with exactly `k`
      enrollments, the entries add up to the number of distinct students, and weighting
      each by its `k` gives back the number of enrollments. An empty list shows the
      three-count sample. */
  lemma ExamCountsMeaning(es: seq<Enrollment>)
    ensures |es| == 0 ==> ExamCounts(es) == ThreeCountSample
    ensures |es| > 0 ==> forall k | k in ExamCounts(es) ::
      k >= 1 && ExamCounts(es)[k] == |Tally.WithCount(RollsOf(es), k)|
    ensures |es| > 0 ==> Tally.SumValues(ExamCounts(es)) == |set r | r in RollsOf(es)|
    ensures |es| > 0 ==> Tally.WeightedSum(ExamCounts(es)) == |es|
  {
    var rolls := RollsOf(es);
    Tally.HistogramEmpty(rolls);
    if |es| > 0 {
      assert |Tally.Histogram(rolls)| > 0 by {
        assert Tally.Histogram(rolls) != map[];
      }
      forall k | k in Tally.Histogram(rolls)
        ensures k >= 1 && Tally.Histogram(rolls)[k] == |Tally.WithCount(rolls, k)|
      {
        Tally.HistogramCounts(rolls, k);
      }
      Tally.HistogramTotal(rolls);
      Tally.HistogramWeightedTotal(rolls);
    }
  }

  /** Connected, the weighted entries add up to all 1400 enrollments; disconnected, the
      three-count sample is shown. */
  lemma ExamCountDistributionOfDatabase(m: Database.Manager)
    ensures m.connected ==> Tally.WeightedSum(ExamCountDistribution(Some(m))) == 1400
    ensures !m.connected ==> ExamCountDistribution(Some(m)) == ThreeCountSample
  {
    var es := Database.FetchEnrollments(m).nodes;
    ExamCountsMeaning(es);
  }

  // ---------------------------------------------------------------------------
  // Loading the window's data

  /** One exam as the window's schedule query would return it. */
  datatype ExamScheduleData = ExamScheduleData(
    courseId: string, courseName: string, department: string, room: string, date: string,
    timeSlot: string, duration: int, studentsCount: int, enrolledStudents: seq<string>)

  /** The integer-valued charts of the window's data: exams per weekday, exams per
      department, conflict score per course and students per exam count. */
  datatype AnalyticsData = AnalyticsData(
    examCountPerDay: map<string, int>,
    examCountPerDepartment: map<string, int>,
    conflictsPerCourse: map<string, int>,
    studentExamCountDistribution: map<int, int>)

  /** `createSampleAnalyticsData()`, restricted to those charts. */
  const SampleAnalyticsData: AnalyticsData :=
    AnalyticsData(SampleExamLoad, FiveDepartments, FiveConflicts, SixCountSample)

  /** `getExamScheduleFromDatabase()`: the query is not written, so whatever the
      provider, no exam comes back. */
  function ScheduleFromDatabase(db: Option<Database.Manager>): (schedule: seq<ExamScheduleData>)
    ensures |schedule| == 0
  {
    []
  }

  /** What the `process*Data()` functions put into the window's data. */
  function ProcessedData(gen: Option<Timetable.Generator>, db: Option<Database.Manager>): AnalyticsData {
    AnalyticsData(ExamLoad(gen, db), DepartmentDistribution(db), ConflictMap(db), ExamCountDistribution(db))
  }

  /** `loadAnalyticsData()`: the processed data only for a provider whose schedule
      query returns exams, the sample otherwise. The query never returns any, so the
      window always shows the sample. */
  function LoadAnalyticsData(gen: Option<Timetable.Generator>, db: Option<Database.Manager>): (data: AnalyticsData)
    ensures data == SampleAnalyticsData
  {
    if db.Some? && |ScheduleFromDatabase(db)| > 0 then ProcessedData(gen, db)
    else SampleAnalyticsData
  }

  /** Without a generated schedule, a provider's exam load gives Monday fewer than the
      sample's five exams. */
  lemma UnscheduledMondayLoad(gen: Option<Timetable.Generator>, m: Database.Manager)
    requires !(gen.Some? && Timetable.IsGenerated(gen.value))
    ensures "Monday" in ExamLoad(gen, Some(m)) && ExamLoad(gen, Some(m))["Monday"] < 5
  {
    ExamLoadWithoutSchedule(m);
    assert "Monday" in WorkingDays;
  }

  /** Without a generated schedule, the exam load the window computes for a provider
      never reaches the screen: it differs from the sample the window shows. */
  lemma ExamLoadNeverShown(gen: Option<Timetable.Generator>, m: Database.Manager)
    requires !(gen.Some? && Timetable.IsGenerated(gen.value))
    ensures LoadAnalyticsData(gen, Some(m)).examCountPerDay != ExamLoad(gen, Some(m))
  {
    UnscheduledMondayLoad(gen, m);
    assert SampleExamLoad["Monday"] == 5;
  }
}
