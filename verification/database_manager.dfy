/** The mock data provider `DatabaseManager`: a connection flag, three fetches that
    fill linked lists with fixed and generated records, and the views derived from them
    (course codes and names, the student list, each student's courses, course sizes). */
module Database {
  import opened Text
  import opened Models
  import LinkedList
  import Tally

  /** Only the connection flag matters; the ODBC handles are never used. */
  datatype Manager = Manager(connected: bool)

  /** A freshly constructed manager is not connected. */
  function NewManager(): (m: Manager)
    ensures !m.connected
  {
    Manager(false)
  }

  /** `connect(dsn, username, password)`: the arguments are ignored and the mock
      connection always succeeds. */
  function Connect(m: Manager, dsn: string, username: string, password: string): (r: (Manager, bool))
    ensures r.1 && r.0.connected
  {
    (m.(connected := true), true)
  }

  /** `disconnect()`: afterwards the manager is not connected, whatever it was. */
  function Disconnect(m: Manager): (r: Manager)
    ensures !r.connected
  {
    m.(connected := false)
  }

  // ---------------------------------------------------------------------------
  // Courses

  /** The ids of the ten mock courses, in fetch order; also the rotation table of the
      generated enrollments. */
  const AllCourses: seq<string> :=
    ["ML101", "OOP201", "DB301", "AI401", "DS501", "CN601", "SE701", "WD801", "CC901", "CY102"]

  const MockCourses: seq<Course> := [
    NewCourse("ML101", "Machine Learning", "Computer Science"),
    NewCourse("OOP201", "Object Oriented Programming", "Computer Science"),
    NewCourse("DB301", "Database Systems", "Information Technology"),
    NewCourse("AI401", "Artificial Intelligence", "Computer Science"),
    NewCourse("DS501", "Data Structures", "Computer Science"),
    NewCourse("CN601", "Computer Networks", "Information Technology"),
    NewCourse("SE701", "Software Engineering", "Computer Science"),
    NewCourse("WD801", "Web Development", "Information Technology"),
    NewCourse("CC901", "Cloud Computing", "Computer Science"),
    NewCourse("CY102", "Cybersecurity", "Information Technology")
  ]

  /** The ten course ids differ from one another. */
  lemma AllCoursesDistinct()
    ensures Tally.NoDuplicates(AllCourses)
  {
    forall i, j | 0 <= i < j < |AllCourses| ensures AllCourses[i] != AllCourses[j] {
      assert AllCourses[i][..2] != AllCourses[j][..2] || AllCourses[i][2..] != AllCourses[j][2..];
    }
  }

  /** `fetchCourses()`: the ten mock courses in order when connected, an empty list
      otherwise. */
  function FetchCourses(m: Manager): (l: LinkedList.List<Course>)
    ensures l.Valid()
    ensures m.connected ==> |l.nodes| == |AllCourses|
    ensures m.connected ==> l.nodes == MockCourses
    ensures !m.connected ==> |l.nodes| == 0
    ensures forall k | 0 <= k < |l.nodes| :: l.nodes[k].courseId == AllCourses[k]
  {
    LinkedList.FromSeq(if m.connected then MockCourses else [])
  }

  /** `getCourseCodes()`: the id of every fetched course, in list order. */
  function GetCourseCodes(m: Manager): (codes: seq<string>)
    ensures |codes| == |FetchCourses(m).nodes|
    ensures forall k | 0 <= k < |codes| :: codes[k] == FetchCourses(m).nodes[k].courseId
  {
    CourseCodesOf(FetchCourses(m).nodes)
  }

  /** The id of every course, in order. */
  function CourseCodesOf(courses: seq<Course>): (ids: seq<string>)
    ensures |ids| == |courses|
    ensures forall k | 0 <= k < |courses| :: ids[k] == courses[k].courseId
  {
    Tally.MapEach((c: Course) => c.courseId, courses)
  }

  /** `getCourseNames()`: the name of every fetched course, in list order. */
  function GetCourseNames(m: Manager): (names: seq<string>)
    ensures |names| == |FetchCourses(m).nodes|
    ensures forall k | 0 <= k < |names| :: names[k] == FetchCourses(m).nodes[k].courseName
  {
    var courses := FetchCourses(m).nodes;
    seq(|courses|, k requires 0 <= k < |courses| => courses[k].courseName)
  }

  /** Connected, the code list is the rotation table, with no repeated code; otherwise
      it is empty. */
  lemma CourseCodesOfConnection(m: Manager)
    ensures m.connected ==> GetCourseCodes(m) == AllCourses
    ensures !m.connected ==> GetCourseCodes(m) == []
    ensures Tally.NoDuplicates(GetCourseCodes(m))
  {
    AllCoursesDistinct();
  }

  // ---------------------------------------------------------------------------
  // Students

  /** `"CT-24" + string(3 - to_string(i).length(), '0') + to_string(i)`: the number is
      padded with zeros to three digits. A number of four or more digits would make
      the padding length negative, which the string constructor rejects; the provider
      only asks for 1 to 320. */
  function RollNo(i: nat): (r: string)
    requires i < 1000
    ensures |r| == 8 && r[..5] == "CT-24"
    ensures AllDigits(r[5..]) && DigitsValue(r[5..]) == i
  {
    var d := NatToString(i);
    NatToStringShort(i);
    var r := "CT-24" + Repeat('0', 3 - |d|) + d;
    assert r[5..] == Repeat('0', 3 - |d|) + d;
    DigitsValueZeros(3 - |d|, d);
    DigitsValueOfNatToString(i);
    r
  }

  /** Different numbers give different roll numbers. */
  lemma RollNoInjective(i: nat, j: nat)
    requires i < 1000 && j < 1000
    requires RollNo(i) == RollNo(j)
    ensures i == j
  {
    assert RollNo(i)[5..] == RollNo(j)[5..];
  }

  const FixedStudents: seq<Student> := [
    StudentWithSemester("CT-24001", "Ayan Anwer", 1),
    StudentWithSemester("CT-24002", "Maaz Ali", 1),
    StudentWithSemester("CT-24003", "Saad Rashid", 2),
    StudentWithSemester("CT-24004", "David Willey", 2),
    StudentWithSemester("CT-24005", "John Cena", 1),
    StudentWithSemester("CT-24006", "Undertaker", 2),
    StudentWithSemester("CT-24007", "Final Boss", 1),
    StudentWithSemester("CT-24008", "Roman Reigns", 2),
    StudentWithSemester("CT-24009", "Imran Khan", 1),
    StudentWithSemester("CT-24010", "Shareef Bhai", 2)
  ]

  /** The student the generating loop adds for number `i`. */
  function GeneratedStudent(i: nat): (s: Student)
    requires i < 1000
    ensures s.rollNo == RollNo(i)
    ensures s.name == "Student" + NatToString(i)
    ensures s.semester == i % 8 + 1 && 1 <= s.semester <= 8
    ensures s.batch == "" && s.program == ""
  {
    StudentWithSemester(RollNo(i), "Student" + NatToString(i), (i % 8) + 1)
  }

  /** The ten listed students followed by CT-24011 to CT-24320. */
  function MockStudents(): (s: seq<Student>)
    ensures |s| == 320
    ensures s[..10] == FixedStudents
  {
    FixedStudents + GeneratedStudents()
  }

  /** CT-24011 to CT-24320, as the generating loop adds them. */
  function GeneratedStudents(): (s: seq<Student>)
    ensures |s| == 310
    ensures forall k | 0 <= k < 310 :: s[k] == GeneratedStudent(k + 11)
  {
    seq(310, k requires 0 <= k < 310 => GeneratedStudent(k + 11))
  }

  /** A one-digit number is padded with two zeros. */
  lemma RollNoOneDigit(i: nat)
    requires 1 <= i < 10
    ensures RollNo(i) == "CT-2400" + [DigitChar(i)]
  {
    assert NatToString(i) == [DigitChar(i)];
    assert Repeat('0', 2) == "00";
  }

  lemma RollNoOne()
    ensures RollNo(1) == "CT-24001"
  {
    RollNoOneDigit(1);
  }

  lemma RollNoTen()
    ensures RollNo(10) == "CT-24010"
  {
    assert NatToString(10) == "10" by {
      assert NatToString(1) == "1";
    }
    assert Repeat('0', 1) == "0";
  }

  /** The listed students are numbered 1 to 10. */
  lemma FixedStudentRolls()
    ensures forall k | 0 <= k < 10 :: FixedStudents[k].rollNo == RollNo(k + 1)
  {
    forall k | 0 <= k < 9 ensures FixedStudents[k].rollNo == RollNo(k + 1) {
      RollNoOneDigit(k + 1);
    }
    RollNoTen();
  }

  /** Past the listed ten, the k-th student is generated from number k + 1. */
  lemma MockStudentsGenerated()
    ensures forall k | 10 <= k < 320 :: MockStudents()[k] == GeneratedStudent(k + 1)
  {
    var s := MockStudents();
    var g := GeneratedStudents();
    assert |FixedStudents| == 10;
    forall k | 10 <= k < 320 ensures s[k] == GeneratedStudent(k + 1) {
      assert s[k] == g[k - 10];
    }
  }

  /** The k-th student (from 0) has roll number k + 1, and every semester is 1 to 8. */
  lemma MockStudentRolls()
    ensures forall k | 0 <= k < 320 :: MockStudents()[k].rollNo == RollNo(k + 1)
    ensures forall k | 0 <= k < 320 :: 1 <= MockStudents()[k].semester <= 8
  {
    FixedStudentRolls();
    var s := MockStudents();
    MockStudentsGenerated();
    forall k | 0 <= k < 320
      ensures s[k].rollNo == RollNo(k + 1)
      ensures 1 <= s[k].semester <= 8
    {
      if k < 10 {
        assert s[k] == FixedStudents[k];
      }
    }
  }

  /** `fetchStudents()`: 320 students when connected, an empty list otherwise. */
  function FetchStudents(m: Manager): (l: LinkedList.List<Student>)
    ensures l.Valid()
    ensures m.connected ==> l.nodes == MockStudents()
    ensures m.connected ==> |l.nodes| == 320 && l.nodes[..10] == FixedStudents
    ensures !m.connected ==> |l.nodes| == 0
    ensures forall k | 10 <= k < |l.nodes| :: l.nodes[k] == GeneratedStudent(k + 1)
  {
    MockStudentsGenerated();
    LinkedList.FromSeq(if m.connected then MockStudents() else [])
  }

  /** `getStudentList()`: roll number and name of every fetched student, in order. */
  function GetStudentList(m: Manager): (info: seq<(string, string)>)
    ensures |info| == |FetchStudents(m).nodes|
    ensures forall k | 0 <= k < |info| ::
      info[k] == (FetchStudents(m).nodes[k].rollNo, FetchStudents(m).nodes[k].name)
  {
    var students := FetchStudents(m).nodes;
    seq(|students|, k requires 0 <= k < |students| => (students[k].rollNo, students[k].name))
  }

  /** Connected, the student list names CT-24001 to CT-24320 in order, each once. */
  lemma StudentListRolls(m: Manager)
    requires m.connected
    ensures |GetStudentList(m)| == 320
    ensures forall k | 0 <= k < 320 :: GetStudentList(m)[k].0 == RollNo(k + 1)
    ensures forall j, k | 0 <= j < k < 320 :: GetStudentList(m)[j].0 != GetStudentList(m)[k].0
  {
    MockStudentRolls();
    forall j, k | 0 <= j < k < 320 ensures GetStudentList(m)[j].0 != GetStudentList(m)[k].0 {
      assert RollNo(j + 1)[5..] != RollNo(k + 1)[5..];
    }
  }

  // ---------------------------------------------------------------------------
  // Enrollments

  /** The courses of generated student `i`: `4 + i % 2` consecutive entries of the
      rotation table, starting at `i % 6` and wrapping round. */
  function StudentCourses(i: nat): (cs: seq<string>)
    ensures |cs| == 4 + i % 2
  {
    seq(4 + i % 2, j requires 0 <= j < 4 + i % 2 => AllCourses[(i % 6 + j) % 10])
  }

  /** Every course a generated student takes is a mock course. */
  lemma StudentCoursesInTable(i: nat)
    ensures forall c | c in StudentCourses(i) :: c in AllCourses
  {
    var cs := StudentCourses(i);
    forall c | c in cs ensures c in AllCourses {
      var j :| 0 <= j < |cs| && cs[j] == c;
      assert c == AllCourses[(i % 6 + j) % 10];
    }
  }

  /** Two different positions of the rotation table hold different course ids. */
  lemma AllCoursesAt(x: nat, y: nat)
    requires x < 10 && y < 10 && x != y
    ensures AllCourses[x] != AllCourses[y]
  {
    AllCoursesDistinct();
    if x > y {
      assert AllCourses[y] != AllCourses[x];
    }
  }

  /** The rotation never wraps round: a start below 6 plus at most 4 stays below 10. */
  lemma StudentCourseAt(i: nat, j: nat)
    requires j < 4 + i % 2
    ensures i % 6 + j < 10 && StudentCourses(i)[j] == AllCourses[i % 6 + j]
  {
    assert (i % 6 + j) % 10 == i % 6 + j;
  }

  /** A generated student never takes a course twice. */
  lemma StudentCoursesDistinct(i: nat)
    ensures Tally.NoDuplicates(StudentCourses(i))
  {
    var cs := StudentCourses(i);
    forall a, b | 0 <= a < b < |cs| ensures cs[a] != cs[b] {
      StudentCourseAt(i, a);
      StudentCourseAt(i, b);
      AllCoursesAt(i % 6 + a, i % 6 + b);
    }
  }

  /** The enrollments of generated student `i`, in course order. */
  function StudentRecords(i: nat): (es: seq<Enrollment>)
    requires i < 1000
    ensures |es| == |StudentCourses(i)|
    ensures forall j | 0 <= j < |es| :: es[j] == NewEnrollment(RollNo(i), StudentCourses(i)[j])
  {
    var cs := StudentCourses(i);
    seq(|cs|, j requires 0 <= j < |cs| => NewEnrollment(RollNo(i), cs[j]))
  }

  /** The generating loop from student `i` up to student 320. */
  function EnrollmentsFrom(i: nat): (es: seq<Enrollment>)
    requires i <= 321
    ensures forall k | 0 <= k < |es| :: es[k].courseId in AllCourses
    decreases 321 - i
  {
    if i == 321 then []
    else
      StudentCoursesInTable(i);
      StudentRecords(i) + EnrollmentsFrom(i + 1)
  }

  /** The five listed enrollments of CT-24001. */
  const FixedEnrollments: seq<Enrollment> := [
    NewEnrollment("CT-24001", "ML101"),
    NewEnrollment("CT-24001", "OOP201"),
    NewEnrollment("CT-24001", "AI401"),
    NewEnrollment("CT-24001", "DS501"),
    NewEnrollment("CT-24001", "SE701")
  ]

  function MockEnrollments(): seq<Enrollment> {
    FixedEnrollments + EnrollmentsFrom(11)
  }

  /** Students `i` to 320 hold four enrollments each and one more for every odd number. */
  lemma {:induction false} EnrollmentsFromLength(i: nat)
    requires i <= 321
    ensures |EnrollmentsFrom(i)| == 4 * (321 - i) + (321 - i) / 2
    decreases 321 - i
  {
    if i < 321 {
      EnrollmentsFromLength(i + 1);
    }
  }

  /** The provider holds 1400 enrollments: 5 listed and 1395 generated. */
  lemma MockEnrollmentCount()
    ensures |MockEnrollments()| == 1400
  {
    EnrollmentsFromLength(11);
  }

  /** Every generated enrollment belongs to a student numbered `i` to 320 and names one
      of that student's courses. */
  lemma {:induction false} EnrollmentsFromMembers(i: nat)
    requires i <= 321
    ensures forall e | e in EnrollmentsFrom(i) ::
      exists n :: i <= n <= 320 && e.rollNo == RollNo(n) && e.courseId in StudentCourses(n)
    decreases 321 - i
  {
    if i < 321 {
      EnrollmentsFromMembers(i + 1);
      forall e | e in EnrollmentsFrom(i)
        ensures exists n :: i <= n <= 320 && e.rollNo == RollNo(n) && e.courseId in StudentCourses(n)
      {
        if e in StudentRecords(i) {
          var j :| 0 <= j < |StudentRecords(i)| && StudentRecords(i)[j] == e;
          assert e.courseId == StudentCourses(i)[j];
        } else {
          assert e in EnrollmentsFrom(i + 1);
        }
      }
    }
  }

  /** The listed enrollments belong to CT-24001 and name mock courses. */
  lemma FixedEnrollmentMembers()
    ensures forall e | e in FixedEnrollments :: e.rollNo == RollNo(1) && e.courseId in AllCourses
  {
    RollNoOne();
  }

  /** Every mock enrollment names a course of the rotation table and a student
      numbered 1 to 320. */
  lemma MockEnrollmentMembers()
    ensures forall e | e in MockEnrollments() :: e.courseId in AllCourses
    ensures forall e | e in MockEnrollments() :: exists n :: 1 <= n <= 320 && e.rollNo == RollNo(n)
  {
    EnrollmentsFromMembers(11);
    FixedEnrollmentMembers();
    forall e | e in MockEnrollments()
      ensures e.courseId in AllCourses
      ensures exists n :: 1 <= n <= 320 && e.rollNo == RollNo(n)
    {
      if e in FixedEnrollments {
        assert e.rollNo == RollNo(1);
      } else {
        assert e in EnrollmentsFrom(11);
        var n :| 11 <= n <= 320 && e.rollNo == RollNo(n) && e.courseId in StudentCourses(n);
        StudentCoursesInTable(n);
      }
    }
  }

  /** Referential integrity: every enrollment names a mock course and a mock student. */
  lemma MockEnrollmentsReferToMockData()
    ensures forall e | e in MockEnrollments() :: e.courseId in AllCourses
    ensures forall e | e in MockEnrollments() ::
      exists k :: 0 <= k < 320 && MockStudents()[k].rollNo == e.rollNo
  {
    MockEnrollmentMembers();
    MockStudentRolls();
    forall e | e in MockEnrollments()
      ensures exists k :: 0 <= k < 320 && MockStudents()[k].rollNo == e.rollNo
    {
      var n :| 1 <= n <= 320 && e.rollNo == RollNo(n);
      assert MockStudents()[n - 1].rollNo == e.rollNo;
    }
  }

  /** `fetchEnrollments()`: the 1400 mock enrollments when connected, an empty list
      otherwise. */
  function FetchEnrollments(m: Manager): (l: LinkedList.List<Enrollment>)
    ensures l.Valid()
    ensures !m.connected ==> |l.nodes| == 0
    ensures m.connected ==> |l.nodes| == 1400 && l.nodes == MockEnrollments()
  {
    MockEnrollmentCount();
    LinkedList.FromSeq(if m.connected then MockEnrollments() else [])
  }

  /** Every fetch is empty exactly when the manager is not connected: before `connect`,
      and again after `disconnect`. */
  lemma FetchesNeedConnection(m: Manager)
    ensures |FetchCourses(m).nodes| == 0 <==> !m.connected
    ensures |FetchStudents(m).nodes| == 0 <==> !m.connected
    ensures |FetchEnrollments(m).nodes| == 0 <==> !m.connected
    ensures |FetchCourses(NewManager()).nodes| == 0
    ensures |FetchCourses(Connect(m, "", "", "").0).nodes| == 10
    ensures |FetchEnrollments(Disconnect(m)).nodes| == 0
  {
  }

  // ---------------------------------------------------------------------------
  // Courses of one student

  /** The course ids of the enrollments of `roll`, in enrollment order. */
  function CoursesOf(roll: string, es: seq<Enrollment>): (cs: seq<string>)
    ensures |cs| <= |es|
    decreases |es|
  {
    if |es| == 0 then []
    else
      var init := es[..|es| - 1];
      var last := es[|es| - 1];
      CoursesOf(roll, init) + (if last.rollNo == roll then [last.courseId] else [])
  }

  /** A course is in the list of `roll` exactly when `roll` is enrolled in it. */
  lemma {:induction false} CoursesOfMembers(roll: string, es: seq<Enrollment>)
    ensures forall c | c in CoursesOf(roll, es) :: NewEnrollment(roll, c) in es
    ensures forall c | NewEnrollment(roll, c) in es :: c in CoursesOf(roll, es)
    decreases |es|
  {
    if |es| > 0 {
      var init := es[..|es| - 1];
      assert es == init + [es[|es| - 1]];
      CoursesOfMembers(roll, init);
    }
  }

  /** Filtering a concatenation filters each part. */
  lemma {:induction false} CoursesOfAppend(roll: string, a: seq<Enrollment>, b: seq<Enrollment>)
    ensures CoursesOf(roll, a + b) == CoursesOf(roll, a) + CoursesOf(roll, b)
    decreases |b|
  {
    if |b| == 0 {
      assert a + b == a;
    } else {
      assert (a + b)[..|a + b| - 1] == a + b[..|b| - 1];
      CoursesOfAppend(roll, a, b[..|b| - 1]);
    }
  }

  /** No enrollment of `roll` means no course. */
  lemma {:induction false} CoursesOfAbsent(roll: string, es: seq<Enrollment>)
    requires forall k | 0 <= k < |es| :: es[k].rollNo != roll
    ensures CoursesOf(roll, es) == []
    decreases |es|
  {
    if |es| > 0 {
      CoursesOfAbsent(roll, es[..|es| - 1]);
    }
  }

  /** All enrollments of `roll`: the course list is the courses in order. */
  lemma {:induction false} CoursesOfAll(roll: string, es: seq<Enrollment>)
    requires forall k | 0 <= k < |es| :: es[k].rollNo == roll
    ensures |CoursesOf(roll, es)| == |es|
    ensures forall k | 0 <= k < |es| :: CoursesOf(roll, es)[k] == es[k].courseId
    decreases |es|
  {
    if |es| > 0 {
      CoursesOfAll(roll, es[..|es| - 1]);
    }
  }

  /** The generated records of student `i` give that student exactly `StudentCourses(i)`. */
  lemma StudentRecordsCourses(i: nat, r: nat)
    requires i < 1000 && r < 1000
    ensures CoursesOf(RollNo(r), StudentRecords(i)) == if r == i then StudentCourses(i) else []
  {
    if r == i {
      CoursesOfAll(RollNo(i), StudentRecords(i));
    } else {
      forall k | 0 <= k < |StudentRecords(i)| ensures StudentRecords(i)[k].rollNo != RollNo(r) {
        if StudentRecords(i)[k].rollNo == RollNo(r) {
          RollNoInjective(i, r);
        }
      }
      CoursesOfAbsent(RollNo(r), StudentRecords(i));
    }
  }

  /** In the generated part, student `r` has exactly its own rotation of courses. */
  lemma {:induction false} EnrollmentsFromCourses(i: nat, r: nat)
    requires i <= 321 && r < 1000
    ensures CoursesOf(RollNo(r), EnrollmentsFrom(i)) == if i <= r <= 320 then StudentCourses(r) else []
    decreases 321 - i
  {
    if i < 321 {
      CoursesOfAppend(RollNo(r), StudentRecords(i), EnrollmentsFrom(i + 1));
      StudentRecordsCourses(i, r);
      EnrollmentsFromCourses(i + 1, r);
    }
  }

  /** The listed enrollments belong to CT-24001 alone: its five courses, */
  lemma FixedEnrollmentsOfFirst()
    ensures CoursesOf(RollNo(1), FixedEnrollments) == ["ML101", "OOP201", "AI401", "DS501", "SE701"]
  {
    CoursesOfAll(RollNo(1), FixedEnrollments);
  }

  /** and nothing for anyone else. */
  lemma FixedEnrollmentsOfOthers(r: nat)
    requires 2 <= r < 1000
    ensures CoursesOf(RollNo(r), FixedEnrollments) == []
  {
    RollNoOne();
    forall k | 0 <= k < |FixedEnrollments| ensures FixedEnrollments[k].rollNo != RollNo(r) {
      assert FixedEnrollments[k].rollNo == RollNo(1);
      assert RollNo(1)[5..] != RollNo(r)[5..];
    }
    CoursesOfAbsent(RollNo(r), FixedEnrollments);
  }

  /** The course list of every mock student: CT-24001 has its five listed courses,
      CT-24002 to CT-24010 have none, and each later student has its rotation. */
  lemma MockCoursesOf(r: nat)
    requires 1 <= r <= 320
    ensures r == 1 ==> CoursesOf(RollNo(r), MockEnrollments()) == ["ML101", "OOP201", "AI401", "DS501", "SE701"]
    ensures 2 <= r <= 10 ==> CoursesOf(RollNo(r), MockEnrollments()) == []
    ensures 11 <= r ==> CoursesOf(RollNo(r), MockEnrollments()) == StudentCourses(r)
  {
    if r == 1 {
      MockCoursesOfFirst();
    } else {
      MockCoursesOfLater(r);
    }
  }

  lemma MockCoursesOfFirst()
    ensures CoursesOf(RollNo(1), MockEnrollments()) == ["ML101", "OOP201", "AI401", "DS501", "SE701"]
  {
    MockCoursesSplit(RollNo(1));
    EnrollmentsFromCourses(11, 1);
    FixedEnrollmentsOfFirst();
    var listed := CoursesOf(RollNo(1), FixedEnrollments);
    assert listed + [] == listed;
  }

  lemma MockCoursesOfLater(r: nat)
    requires 2 <= r <= 320
    ensures CoursesOf(RollNo(r), MockEnrollments()) == if r <= 10 then [] else StudentCourses(r)
  {
    FixedEnrollmentsOfOthers(r);
    CoursesOfAfterNone(RollNo(r), FixedEnrollments, EnrollmentsFrom(11));
    EnrollmentsFromCourses(11, r);
  }

  /** Enrollments that hold none of a student's courses add nothing in front. */
  lemma CoursesOfAfterNone(roll: string, front: seq<Enrollment>, rest: seq<Enrollment>)
    requires CoursesOf(roll, front) == []
    ensures CoursesOf(roll, front + rest) == CoursesOf(roll, rest)
  {
    CoursesOfAppend(roll, front, rest);
    assert [] + CoursesOf(roll, rest) == CoursesOf(roll, rest);
  }

  /** A student's mock courses: the listed ones, then the generated ones. */
  lemma MockCoursesSplit(roll: string)
    ensures CoursesOf(roll, MockEnrollments()) == CoursesOf(roll, FixedEnrollments) + CoursesOf(roll, EnrollmentsFrom(11))
  {
    CoursesOfAppend(roll, FixedEnrollments, EnrollmentsFrom(11));
  }

  /** The nested walk of `getStudentEnrollments()`: for every student, in order, the
      course ids of that student's enrollments, in enrollment order. */
  method CourseListsOf(students: seq<Student>, all: seq<Enrollment>) returns (result: seq<(string, seq<string>)>)
    ensures |result| == |students|
    ensures forall k | 0 <= k < |result| :: result[k].0 == students[k].rollNo
    ensures forall k | 0 <= k < |result| :: result[k].1 == CoursesOf(students[k].rollNo, all)
  {
    result := [];
    var s := 0;
    while s < |students|
      invariant 0 <= s <= |students| && |result| == s
      invariant forall k | 0 <= k < s :: result[k].0 == students[k].rollNo
      invariant forall k | 0 <= k < s :: result[k].1 == CoursesOf(students[k].rollNo, all)
    {
      var roll := students[s].rollNo;
      var courses: seq<string> := [];
      var e := 0;
      while e < |all|
        invariant 0 <= e <= |all|
        invariant courses == CoursesOf(roll, all[..e])
      {
        assert all[..e + 1][..e] == all[..e];
        if all[e].rollNo == roll {
          courses := courses + [all[e].courseId];
        }
        e := e + 1;
      }
      assert all[..e] == all;
      result := result + [(roll, courses)];
      s := s + 1;
    }
  }

  /** `getStudentEnrollments()` on the fetched students and enrollments. */
  method GetStudentEnrollments(m: Manager) returns (result: seq<(string, seq<string>)>)
    ensures |result| == |FetchStudents(m).nodes|
    ensures forall k | 0 <= k < |result| :: result[k].0 == FetchStudents(m).nodes[k].rollNo
    ensures forall k | 0 <= k < |result| :: result[k].1 == CoursesOf(result[k].0, FetchEnrollments(m).nodes)
  {
    var students := FetchStudents(m).nodes;
    var all := FetchEnrollments(m).nodes;
    result := CourseListsOf(students, all);
  }

  // ---------------------------------------------------------------------------
  // Course sizes

  /** The course id of every enrollment, in order. */
  function CourseIds(es: seq<Enrollment>): (ids: seq<string>)
    ensures |ids| == |es|
    ensures forall k | 0 <= k < |es| :: ids[k] == es[k].courseId
  {
    Tally.MapEach((e: Enrollment) => e.courseId, es)
  }

  /** `getCourseSizes()`: for each course id that occurs among the enrollments, how
      many enrollments name it. The sizes add up to the number of enrollments. */
  method GetCourseSizes(m: Manager) returns (sizes: map<string, int>)
    ensures forall c :: c in sizes <==> c in CourseIds(FetchEnrollments(m).nodes)
    ensures forall c | c in sizes :: sizes[c] == multiset(CourseIds(FetchEnrollments(m).nodes))[c]
    ensures Tally.SumValues(sizes) == |FetchEnrollments(m).nodes|
  {
    var es := FetchEnrollments(m).nodes;
    sizes := CountCourses(es);
  }

  /** The `courseSizes[courseId]++` walk over a list of enrollments. */
  method CountCourses(es: seq<Enrollment>) returns (sizes: map<string, int>)
    ensures forall c :: c in sizes <==> c in CourseIds(es)
    ensures forall c | c in sizes :: sizes[c] == multiset(CourseIds(es))[c]
    ensures Tally.SumValues(sizes) == |es|
  {
    var ids := CourseIds(es);
    sizes := map[];
    var k := 0;
    while k < |ids|
      invariant 0 <= k <= |ids|
      invariant sizes == Tally.CountMap(ids[..k])
    {
      assert ids[..k + 1][..k] == ids[..k];
      sizes := Tally.Inc(sizes, ids[k]);
      k := k + 1;
    }
    assert ids[..k] == ids;
    Tally.SumOfCountMap(ids);
  }

  /** Connected, every course with a size is one of the ten mock courses. */
  lemma CourseSizeKeysAreCourses(m: Manager)
    ensures forall c | c in CourseIds(FetchEnrollments(m).nodes) :: c in AllCourses
  {
    MockEnrollmentsReferToMockData();
    var es := FetchEnrollments(m).nodes;
    forall c | c in CourseIds(es) ensures c in AllCourses {
      var k :| 0 <= k < |es| && CourseIds(es)[k] == c;
      assert es[k] in MockEnrollments();
    }
  }
}
