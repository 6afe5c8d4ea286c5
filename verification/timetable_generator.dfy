/** `TimetableGenerator`: holds a schedule of session strings, fills it with a fixed
    sample, and writes it out as CSV or as plain text. A session string has seven
    comma-separated fields: day name, day number, `DD-MM-YYYY` date, course id, roll
    number range, room and occupancy `k/55`. */
module Timetable {
  import opened Wrappers
  import opened Text
  import Database
  import Tally

  /** The generator's state; the database reference is never read. */
  datatype Generator = Generator(generated: bool, schedule: seq<string>, startDate: string)

  /** A new generator has generated nothing. */
  function NewGenerator(): (g: Generator)
    ensures !g.generated && g.schedule == [] && g.startDate == ""
  {
    Generator(false, [], "")
  }

  /** `setStartDate(date)`: remembers the date and changes nothing else. */
  function SetStartDate(g: Generator, date: string): (r: Generator)
    ensures r.startDate == date
    ensures r.generated == g.generated && r.schedule == g.schedule
  {
    g.(startDate := date)
  }

  // ---------------------------------------------------------------------------
  // The fixed sample

  /** The parts of one session string. */
  datatype Session = Session(day: string, dayNum: nat, date: string, courseId: string,
                             rolls: string, room: string, occupancy: nat)

  /** The seven fields of a session, as they appear in its string. */
  function SessionFields(s: Session): (fs: seq<string>)
    ensures |fs| == 7
  {
    [s.day, NatToString(s.dayNum), s.date, s.courseId, s.rolls, s.room,
     NatToString(s.occupancy) + "/55"]
  }

  /** The session string: the fields joined with commas. */
  function Encode(s: Session): string {
    Join(SessionFields(s), ',')
  }

  /** `"CT-24aaa to CT-24bbb"`: a range of roll numbers. */
  function Rolls(first: nat, last: nat): (r: string)
    requires first < 1000 && last < 1000
    ensures ',' !in r
  {
    var a, b := Database.RollNo(first), Database.RollNo(last);
    assert ',' !in a by { assert a == a[..5] + a[5..]; }
    assert ',' !in b by { assert b == b[..5] + b[5..]; }
    a + " to " + b
  }

  /** Printed numbers hold no comma. */
  lemma NatToStringCommaFree(n: nat)
    ensures ',' !in NatToString(n)
  {
    assert forall c | c in NatToString(n) :: IsDigit(c);
  }

  /** `"Room#n"`. */
  function Room(n: nat): (r: string)
    ensures ',' !in r
  {
    NatToStringCommaFree(n);
    "Room#" + NatToString(n)
  }

  /** `"0d-01-2026"`: a day early in January 2026. */
  function JanuaryDate(d: nat): (r: string)
    requires d < 10
    ensures |r| == 10 && ',' !in r
  {
    NatToStringCommaFree(d);
    "0" + NatToString(d) + "-01-2026"
  }

  /** The sample has four exam days, Friday 2 January to Monday 5 January 2026. */
  function DayName(d: nat): (r: string)
    requires 1 <= d <= 4
    ensures ',' !in r
  {
    if d == 1 then "Friday" else if d == 2 then "Saturday" else if d == 3 then "Sunday" else "Monday"
  }

  /** One course is examined on each sample day. */
  function DayCourse(d: nat): (r: string)
    requires 1 <= d <= 4
    ensures ',' !in r
  {
    if d == 1 then "ML101" else if d == 2 then "AI401" else if d == 3 then "CS301" else "CN601"
  }

  /** A session can be written and read back when no field holds a comma, and its date
      is long enough to be reformatted. */
  predicate WellFormedSession(s: Session) {
    NoneContains(SessionFields(s), ',') && |s.date| == 10
  }

  /** One sitting of the sample: day `d`, a roll range, a room and its occupancy. */
  function Sitting(d: nat, first: nat, last: nat, room: nat, occupancy: nat): (s: Session)
    requires 1 <= d <= 4 && first < 1000 && last < 1000
    ensures s.dayNum == d && s.occupancy == occupancy
    ensures WellFormedSession(s)
  {
    var s := Session(DayName(d), d, JanuaryDate(d + 1), DayCourse(d), Rolls(first, last), Room(room), occupancy);
    NatToStringCommaFree(d);
    NatToStringCommaFree(occupancy);
    assert ',' !in "/55";
    s
  }

  /** Day number, first and last roll number, room and occupancy of each sample sitting. */
  const SampleDays: seq<nat> := [1, 1, 2, 2, 2, 2, 3, 4, 4, 4, 4]
  const SampleFirst: seq<nat> := [1, 312, 1, 86, 169, 252, 2, 73, 139, 205, 273]
  const SampleLast: seq<nat> := [85, 318, 85, 166, 249, 320, 311, 137, 203, 269, 320]
  const SampleRooms: seq<nat> := [1, 2, 1, 2, 3, 4, 1, 2, 3, 4, 5]
  const SampleOccupancy: seq<nat> := [55, 25, 55, 55, 55, 47, 55, 55, 55, 55, 42]

  /** The eleven sample sessions `generate` pushes, in order. */
  function FixedSessions(): (ss: seq<Session>)
    ensures |ss| == 11
    ensures forall k | 0 <= k < 11 :: WellFormedSession(ss[k])
  {
    seq(11, k requires 0 <= k < 11 =>
      Sitting(SampleDays[k], SampleFirst[k], SampleLast[k], SampleRooms[k], SampleOccupancy[k]))
  }

  /** Every entry of the sample tables lies within the four days, the five rooms and the
      55 seats of a room. */
  lemma SampleTablesBounded(k: nat)
    requires k < 11
    ensures 1 <= SampleDays[k] <= 4 && 1 <= SampleRooms[k] <= 5 && SampleOccupancy[k] <= 55
  {
  }

  /** The `k`th sample session carries the `k`th day, room and occupancy of the tables. */
  lemma FixedSessionFields(k: nat)
    requires k < 11
    ensures var s := FixedSessions()[k];
      && s.dayNum == SampleDays[k] && s.room == Room(SampleRooms[k])
      && s.occupancy == SampleOccupancy[k] && WellFormedSession(s)
  {
    SampleTablesBounded(k);
    var s := Sitting(SampleDays[k], SampleFirst[k], SampleLast[k], SampleRooms[k], SampleOccupancy[k]);
    assert FixedSessions()[k] == s;
  }

  /** The eleven session strings, in order. */
  function FixedSchedule(): (s: seq<string>)
    ensures |s| == 11
  {
    seq(11, k requires 0 <= k < 11 => Encode(FixedSessions()[k]))
  }

  /** The day numbers of the sample never go down, and no room is filled beyond its
      55 seats. */
  lemma FixedSessionsOrdered()
    ensures forall k | 0 <= k < 10 :: FixedSessions()[k].dayNum <= FixedSessions()[k + 1].dayNum
    ensures forall k | 0 <= k < 11 :: FixedSessions()[k].occupancy <= 55
  {
    var ss := FixedSessions();
    assert forall k | 0 <= k < 10 :: SampleDays[k] <= SampleDays[k + 1];
    assert forall k | 0 <= k < 11 :: SampleOccupancy[k] <= 55;
    forall k | 0 <= k < 11 ensures ss[k].dayNum == SampleDays[k] && ss[k].occupancy == SampleOccupancy[k] {
    }
  }

  /** Every sample string splits into exactly the seven fields of its session. */
  lemma FixedScheduleFields(k: nat)
    requires k < 11
    ensures Split(FixedSchedule()[k], ',') == SessionFields(FixedSessions()[k])
  {
    assert WellFormedSession(FixedSessions()[k]);
    SplitJoin(SessionFields(FixedSessions()[k]), ',');
  }

  /** `generate()`: the schedule becomes exactly the eleven sample strings; the start
      date and the database play no part. */
  function Generate(g: Generator): (r: (Generator, bool))
    ensures r.1 && r.0.generated
    ensures r.0.startDate == g.startDate
    ensures r.0.schedule == FixedSchedule()
    ensures |r.0.schedule| == 11
  {
    (g.(schedule := FixedSchedule(), generated := true), true)
  }

  /** Generating twice is generating once, and the schedule does not depend on the
      state before nor on the start date. */
  lemma GenerateIdempotent(g: Generator, h: Generator, date: string)
    ensures Generate(Generate(g).0) == Generate(g)
    ensures Generate(g).0.schedule == Generate(h).0.schedule
    ensures Generate(SetStartDate(g, date)).0.schedule == Generate(g).0.schedule
  {
  }

  /** `getSchedule()`. */
  function GetSchedule(g: Generator): (s: seq<string>)
    ensures |s| == |g.schedule|
    ensures forall k | 0 <= k < |s| :: s[k] == g.schedule[k]
  {
    g.schedule
  }

  /** `isGenerated()`. */
  function IsGenerated(g: Generator): (b: bool)
    ensures b <==> g.generated
  {
    g.generated
  }

  /** `cleanup()`: the schedule is emptied and the flag cleared. */
  function Cleanup(g: Generator): (r: Generator)
    ensures !r.generated && r.schedule == [] && r.startDate == g.startDate
  {
    g.(schedule := [], generated := false)
  }

  // ---------------------------------------------------------------------------
  // Reading a session string back

  /** One `find(",")` / `substr` step: the text before the first comma and the text
      after it. Without a comma `find` gives `npos`, so the field is the whole text and
      `substr(npos + 1)` wraps round to `substr(0)`, leaving the text as it was. */
  function NextField(s: string): (r: (string, string))
    ensures ',' !in r.0
    ensures ',' in s ==> r.0 + "," + r.1 == s
    ensures ',' !in s ==> r.0 == s && r.1 == s
  {
    match IndexOf(s, ',')
    case None => (s, s)
    case Some(i) =>
      assert s == s[..i] + "," + s[i + 1..];
      (s[..i], s[i + 1..])
  }

  /** `n` `NextField` steps, then the rest of the text as the last field. */
  function FieldsFrom(s: string, n: nat): (fs: seq<string>)
    ensures |fs| == n + 1
    decreases n
  {
    if n == 0 then [s]
    else
      var r := NextField(s);
      [r.0] + FieldsFrom(r.1, n - 1)
  }

  /** The seven fields `exportToCSV` cuts from an entry: day, day number, date, course
      id, roll range, room, and the rest as the occupancy. */
  function EntryFields(entry: string): (fs: seq<string>)
    ensures |fs| == 7
  {
    FieldsFrom(entry, 6)
  }

  /** A comma-free first field is cut off exactly. */
  lemma NextFieldOfJoin(p: string, rest: string)
    requires ',' !in p
    ensures NextField(p + "," + rest) == (p, rest)
  {
    IndexOfAfterPrefix(p, ',', rest);
    var s := p + "," + rest;
    assert s[..|p|] == p && s[|p| + 1..] == rest;
  }

  /** Cutting `n` fields from a joined text gives the parts back when the first `n`
      hold no comma; the last part keeps any commas it has. */
  lemma {:induction false} FieldsFromJoin(fs: seq<string>, n: nat)
    requires |fs| == n + 1 && NoneContains(fs[..n], ',')
    ensures FieldsFrom(Join(fs, ','), n) == fs
    decreases n
  {
    if n > 0 {
      assert fs == [fs[0]] + fs[1..];
      JoinCons(fs[0], fs[1..], ',');
      assert ',' !in fs[..n][0];
      NextFieldOfJoin(fs[0], Join(fs[1..], ','));
      assert fs[1..][..n - 1] == fs[..n][1..];
      FieldsFromJoin(fs[1..], n - 1);
    }
  }

  /** Reading an entry written from seven fields gives the fields back. */
  lemma EntryFieldsOfJoin(fs: seq<string>)
    requires |fs| == 7 && NoneContains(fs[..6], ',')
    ensures EntryFields(Join(fs, ',')) == fs
  {
    FieldsFromJoin(fs, 6);
  }

  /** A text without any comma is taken for every field at once. */
  lemma {:induction false} FieldsFromWithoutComma(s: string, n: nat)
    requires ',' !in s
    ensures FieldsFrom(s, n) == seq(n + 1, _ => s)
    decreases n
  {
    if n > 0 {
      FieldsFromWithoutComma(s, n - 1);
    }
  }

  // ---------------------------------------------------------------------------
  // CSV export

  /** `date.substr(3, 2) + "-" + date.substr(0, 2) + "-2026"`. `substr(3, 2)` throws
      `out_of_range` on a date shorter than 3 characters; the exception is caught and
      the entry skipped, which is None here. */
  function ReformatDate(date: string): (r: Option<string>)
    ensures r.None? <==> |date| < 3
  {
    if |date| < 3 then None
    else Some(Substr(date, 3, 2) + "-" + Substr(date, 0, 2) + "-2026")
  }

  /** On a `DD-MM-YYYY` date, day and month trade places and the year is always 2026,
      whatever year the date named. */
  lemma ReformatDateSwaps(dd: string, mm: string, year: string)
    requires |dd| == 2 && |mm| == 2
    ensures ReformatDate(dd + "-" + mm + "-" + year) == Some(mm + "-" + dd + "-2026")
  {
    var date := dd + "-" + mm + "-" + year;
    assert date[3..5] == mm;
    assert date[0..2] == dd;
  }

  /** Course name and section for the eight ids the exporter knows; any other id gets
      two empty strings. */
  function CourseLookup(courseId: string): (r: (string, string))
    ensures r.0 == "" <==> r.1 == ""
    ensures r.1 in {"", "2-Jan", "3-Jan", "4-Jan", "5-Jan"}
  {
    if courseId == "ML101" then ("Machine Learning", "2-Jan")
    else if courseId == "AI401" then ("Artificial Intelligence", "4-Jan")
    else if courseId == "CS301" then ("Cloud Computing", "2-Jan")
    else if courseId == "CN601" then ("Computer Networks", "5-Jan")
    else if courseId == "CY102" then ("Cybersecurity", "2-Jan")
    else if courseId == "DS501" then ("Data Structures", "4-Jan")
    else if courseId == "WD801" then ("Web Development", "3-Jan")
    else if courseId == "OOP201" then ("Object Oriented", "2-Jan")
    else ("", "")
  }

  /** Looked-up names and sections hold no comma. */
  lemma CourseLookupCommaFree(courseId: string)
    ensures ',' !in CourseLookup(courseId).0 && ',' !in CourseLookup(courseId).1
  {
    FirstNamesCommaFree();
    LastNamesCommaFree();
    assert ',' !in "2-Jan" && ',' !in "3-Jan" && ',' !in "4-Jan" && ',' !in "5-Jan";
  }

  lemma FirstNamesCommaFree()
    ensures ',' !in "Machine Learning" && ',' !in "Artificial Intelligence"
    ensures ',' !in "Cloud Computing" && ',' !in "Computer Networks"
  {
  }

  lemma LastNamesCommaFree()
    ensures ',' !in "Cybersecurity" && ',' !in "Data Structures"
    ensures ',' !in "Web Development" && ',' !in "Object Oriented"
  {
  }

  const KnownCourseIds: set<string> :=
    {"ML101", "AI401", "CS301", "CN601", "CY102", "DS501", "WD801", "OOP201"}

  /** The lookup finds a name and a section exactly for the eight known ids. */
  lemma CourseLookupKnown(courseId: string)
    ensures CourseLookup(courseId).0 != "" <==> courseId in KnownCourseIds
    ensures CourseLookup(courseId).1 != "" <==> courseId in KnownCourseIds
  {
  }

  /** Against the course table of the data provider, every looked-up name is the
      provider's name or a shortening of it; DB301, SE701 and CC901 are not known to
      the lookup and get empty names. */
  lemma CourseLookupAgreesWithProvider(k: nat)
    requires k < 10
    ensures CourseLookup(Database.AllCourses[k]).0 <= Database.MockCourses[k].courseName
    ensures CourseLookup(Database.AllCourses[k]).0 == "" <==> k in {2, 6, 8}
  {
    if k < 5 {
      LookupAgreesBelowFive(k);
    } else {
      LookupAgreesFromFive(k);
    }
  }

  lemma LookupAgreesBelowFive(k: nat)
    requires k < 5
    ensures CourseLookup(Database.AllCourses[k]).0 <= Database.MockCourses[k].courseName
    ensures CourseLookup(Database.AllCourses[k]).0 == "" <==> k == 2
  {
  }

  lemma LookupAgreesFromFive(k: nat)
    requires 5 <= k < 10
    ensures CourseLookup(Database.AllCourses[k]).0 <= Database.MockCourses[k].courseName
    ensures CourseLookup(Database.AllCourses[k]).0 == "" <==> k == 6 || k == 8
  {
  }

  /** The thirteen CSV columns. */
  const CsvColumns: seq<string> := [
    "Date", "Day_Num", "Room", "Room_Cap", "Course_ID", "Section", "Course_N",
    "Students_S", "Student_F", "Start_Time", "End_Time", "Capacity", "Status"
  ]

  /** The header line. */
  function CsvHeader(): string {
    Join(CsvColumns, ',') + "\n"
  }

  /** The header names the thirteen columns. */
  lemma CsvHeaderColumns()
    ensures |CsvHeader()| > 0 && CsvHeader()[|CsvHeader()| - 1] == '\n'
    ensures Split(CsvHeader()[..|CsvHeader()| - 1], ',') == CsvColumns
  {
    CsvColumnsCommaFree();
    SplitJoin(CsvColumns, ',');
    HeaderLine(Join(CsvColumns, ','));
  }

  lemma CsvColumnsCommaFree()
    ensures NoneContains(CsvColumns, ',')
  {
  }

  /** A line with its newline taken off. */
  lemma HeaderLine(text: string)
    ensures |text + "\n"| > 0 && (text + "\n")[|text + "\n"| - 1] == '\n'
    ensures (text + "\n")[..|text + "\n"| - 1] == text
  {
  }

  /** The thirteen values of the row for an entry whose date could be reformatted. */
  function CsvRowFields(fs: seq<string>, formattedDate: string): (row: seq<string>)
    requires |fs| == 7
    ensures |row| == |CsvColumns|
  {
    var (name, section) := CourseLookup(fs[3]);
    [formattedDate, fs[1], fs[5], "55", fs[3], section, name,
     PrefixBefore(fs[6], '/'), fs[4], "2:00 PM", "5:00 PM", "55", "OK"]
  }

  /** The row written for one entry, or None when the entry is skipped. */
  function CsvRow(entry: string): (r: Option<string>)
    ensures r.None? <==> |EntryFields(entry)[2]| < 3
  {
    var fs := EntryFields(entry);
    match ReformatDate(fs[2])
    case None => None
    case Some(d) => Some(Join(CsvRowFields(fs, d), ',') + "\n")
  }

  /** The values present in `xs`, in order. */
  function Present<T>(xs: seq<Option<T>>): (ys: seq<T>)
    ensures |ys| <= |xs|
  {
    if |xs| == 0 then []
    else (if xs[0].Some? then [xs[0].value] else []) + Present(xs[1..])
  }

  lemma {:induction false} PresentAppend<T>(a: seq<Option<T>>, b: seq<Option<T>>)
    ensures Present(a + b) == Present(a) + Present(b)
    decreases |a|
  {
    if |a| > 0 {
      assert (a + b)[0] == a[0] && (a + b)[1..] == a[1..] + b;
      PresentAppend(a[1..], b);
    } else {
      assert a + b == b;
    }
  }

  lemma {:induction false} PresentAll<T>(xs: seq<Option<T>>)
    requires forall k | 0 <= k < |xs| :: xs[k].Some?
    ensures |Present(xs)| == |xs|
    decreases |xs|
  {
    if |xs| > 0 {
      assert xs[0].Some?;
      PresentAll(xs[1..]);
    }
  }

  /** What each entry gives: its row, or None when it is skipped. */
  function CsvRowOptions(schedule: seq<string>): (rs: seq<Option<string>>)
    ensures |rs| == |schedule|
  {
    Tally.MapEach(CsvRow, schedule)
  }

  /** The rows of all entries that are not skipped, in schedule order. */
  function CsvRows(schedule: seq<string>): (rows: seq<string>)
    ensures |rows| <= |schedule|
  {
    Present(CsvRowOptions(schedule))
  }

  function Concat(parts: seq<string>): string {
    if |parts| == 0 then "" else parts[0] + Concat(parts[1..])
  }

  /** `exportToCSV(filename)`: the file text, or None for a `false` return (nothing
      generated, or the file did not open). Whether the file opens is not modelled and
      comes in as `fileOpens`. */
  function ExportToCsv(g: Generator, fileOpens: bool): (r: Option<string>)
    ensures r.Some? <==> g.generated && fileOpens
    ensures r.Some? ==> |r.value| >= |CsvHeader()| && r.value[..|CsvHeader()|] == CsvHeader()
  {
    if !g.generated || !fileOpens then None
    else Some(CsvHeader() + Concat(CsvRows(g.schedule)))
  }

  /** The row values hold no comma when the entry's fields and the date hold none. */
  lemma CsvRowFieldsCommaFree(fs: seq<string>, formattedDate: string)
    requires |fs| == 7 && NoneContains(fs, ',') && ',' !in formattedDate
    ensures NoneContains(CsvRowFields(fs, formattedDate), ',')
  {
    CourseLookupCommaFree(fs[3]);
    assert ',' !in fs[1] && ',' !in fs[3] && ',' !in fs[4] && ',' !in fs[5];
    assert ',' !in "55" && ',' !in "2:00 PM" && ',' !in "5:00 PM" && ',' !in "OK";
  }

  /** The row of an entry read back from seven fields is built from those fields. */
  lemma CsvRowOfJoin(fs: seq<string>, date: string)
    requires |fs| == 7 && NoneContains(fs[..6], ',')
    requires ReformatDate(fs[2]) == Some(date)
    ensures CsvRow(Join(fs, ',')) == Some(Join(CsvRowFields(fs, date), ',') + "\n")
  {
    EntryFieldsOfJoin(fs);
  }

  /** A line of comma-free values ends in a newline and splits back into the values. */
  lemma CsvLineSplits(row: seq<string>)
    requires |row| >= 1 && NoneContains(row, ',')
    ensures var line := Join(row, ',') + "\n";
      line[|line| - 1] == '\n' && Split(line[..|line| - 1], ',') == row
  {
    SplitJoin(row, ',');
    var line := Join(row, ',') + "\n";
    assert line[..|line| - 1] == Join(row, ',');
  }

  /** A well-formed entry becomes one CSV line of thirteen values: the date with day and
      month swapped and year 2026, the day number, the room, capacity 55, the course id,
      the section and name from the lookup, the seat count before the `/`, the roll
      range as given, the fixed times, capacity 55 and status OK. */
  lemma CsvRowOfSession(fs: seq<string>, dd: string, mm: string, year: string)
    requires |fs| == 7 && NoneContains(fs, ',')
    requires |dd| == 2 && |mm| == 2 && fs[2] == dd + "-" + mm + "-" + year
    ensures CsvRow(Join(fs, ',')).Some?
    ensures var line := CsvRow(Join(fs, ',')).value;
      && line[|line| - 1] == '\n'
      && Split(line[..|line| - 1], ',') ==
         [mm + "-" + dd + "-2026", fs[1], fs[5], "55", fs[3],
          CourseLookup(fs[3]).1, CourseLookup(fs[3]).0,
          PrefixBefore(fs[6], '/'), fs[4], "2:00 PM", "5:00 PM", "55", "OK"]
  {
    ReformatDateSwaps(dd, mm, year);
    var date := mm + "-" + dd + "-2026";
    assert ',' !in date by {
      assert ',' !in fs[2];
      assert fs[2][..2] == dd && fs[2][3..5] == mm;
      assert ',' !in "-2026";
    }
    assert NoneContains(fs[..6], ',');
    CsvRowOfJoin(fs, date);
    CsvRowFieldsCommaFree(fs, date);
    CsvLineSplits(CsvRowFields(fs, date));
  }

  /** Exporting the sample writes one row for each of the eleven sessions. */
  lemma FixedScheduleCsvRows()
    ensures |CsvRows(FixedSchedule())| == 11
  {
    forall k | 0 <= k < 11 ensures CsvRow(FixedSchedule()[k]).Some? {
      var fs := SessionFields(FixedSessions()[k]);
      assert WellFormedSession(FixedSessions()[k]);
      assert NoneContains(fs[..6], ',');
      EntryFieldsOfJoin(fs);
    }
    CsvRowsAllSome(FixedSchedule());
  }

  /** Rows follow the schedule: the rows of two runs of entries are the rows of the
      first run followed by those of the second. */
  lemma CsvRowsAppend(a: seq<string>, b: seq<string>)
    ensures CsvRows(a + b) == CsvRows(a) + CsvRows(b)
  {
    Tally.MapEachAppend(CsvRow, a, b);
    PresentAppend(CsvRowOptions(a), CsvRowOptions(b));
  }

  /** No entry skipped: one row per entry. */
  lemma CsvRowsAllSome(schedule: seq<string>)
    requires forall k | 0 <= k < |schedule| :: CsvRow(schedule[k]).Some?
    ensures |CsvRows(schedule)| == |schedule|
  {
    PresentAll(CsvRowOptions(schedule));
  }

  // ---------------------------------------------------------------------------
  // Text export

  const TextTitle: string := "EXAM SCHEDULE\n\n"

  /** `exportToText(filename)`: the title, a blank line, then every entry unchanged
      on a line of its own; None for a `false` return. */
  function ExportToText(g: Generator, fileOpens: bool): (r: Option<string>)
    ensures r.Some? <==> g.generated && fileOpens
    ensures r.Some? ==> |r.value| >= |TextTitle| && r.value[..|TextTitle|] == TextTitle
  {
    if !g.generated || !fileOpens then None
    else Some(TextTitle + Lines(g.schedule))
  }

  /** Cutting the text after the title at its newlines gives back every entry, in
      order, followed by the empty remainder after the last newline. */
  lemma ExportToTextLines(g: Generator)
    requires g.generated
    requires NoneContains(g.schedule, '\n')
    ensures var t := ExportToText(g, true).value;
      Split(t[|TextTitle|..], '\n') == g.schedule + [""]
  {
    var t := ExportToText(g, true).value;
    assert t[|TextTitle|..] == Lines(g.schedule);
    LinesAsJoin(g.schedule);
    assert NoneContains(g.schedule + [""], '\n');
    SplitJoin(g.schedule + [""], '\n');
  }

  /** Nothing is written before `generate`, nor after `cleanup`. */
  lemma ExportsNeedGenerate(g: Generator, fileOpens: bool)
    ensures ExportToCsv(NewGenerator(), fileOpens).None?
    ensures ExportToText(NewGenerator(), fileOpens).None?
    ensures ExportToCsv(Cleanup(g), fileOpens).None?
    ensures ExportToText(Cleanup(g), fileOpens).None?
    ensures ExportToCsv(Generate(g).0, true).Some?
  {
  }
}
