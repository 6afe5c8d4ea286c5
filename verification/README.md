# Exam timetable manager — a Dafny model

The exam manager is a Qt desktop application. It reads courses, students and
enrollments from a data provider that stands in for an Oracle database. It builds an
exam timetable, exports it as CSV or plain text, and shows it in a day × room grid.
It also has an analytics window. Its chart computations work on the same data, but as
written it only uses them when a schedule query returns exams. That query is a stub
that returns none, so the window always shows built-in sample data.

This project models the logic behind those screens as pure functions over immutable
values and proves properties of them:

- `LinkedList`: the singly linked list the data provider returns, and its quicksort.
  The list is modelled as its sequence of values plus the head, tail and size fields.
- `Models`: the `Course`, `Student` and `Enrollment` records and their constructors.
- `Database`: the mock data provider.
  - `connect` always succeeds.
  - The ten courses and 320 students are fixed. The first ten students are listed by
    name; the rest are generated with semester `i % 8 + 1`.
  - The enrollments are CT-24001's five listed courses, then four or five rotating
    courses for every student from CT-24011 to CT-24320: 1400 in all.
  - The derived lists are modelled too: course codes, course names, the student list,
    each student's course list and the course sizes.
- `Timetable`: the timetable generator.
  - It pushes eleven fixed schedule entries of the form
    `day,dayNum,date,courseId,rolls,room,seats/55`.
  - It exports them field by field into a thirteen-column CSV, or line by line into a
    text file.
- `ScheduleTable`: the table model behind the timetable view.
  - It re-reads every entry with `getline` and `std::stoi` and writes it into a 15 × 16
    grid.
  - It also provides the header texts and the cell texts.
- `DateDialog`: the start-date dialog. It checks a `DD-MM-YYYY` pattern and then the
  calendar.
- `Analytics`: the data-processing half of the analytics window: exam load per
  weekday, department distribution, conflict scores and the distribution of exams per
  student. Also how the window loads its data: the schedule query returns nothing, so
  it always falls back to the sample data.

Shared helpers:

- `Text` models `std::string` and `std::stoi` behaviour: `find`, `substr`, splitting
  and joining on a separator, `getline` tokens, and 32-bit `stoi`.
- `Tally` models the `std::map<K, int>` counting loops (`m[k]++`) and the sums over
  them.
- `Wrappers` provides `Option`.

C++ details that are modelled explicitly:

- `find` returning `npos`, and `npos + 1` wrapping to 0.
- `substr` throwing when the start lies past the end.
- `getline` dropping a trailing empty token.
- `stoi` skipping leading white space, taking an optional sign and at least one digit,
  and throwing outside the `int` range.
- A thrown exception skips the current entry.

## Model

| member | source | states |
|---|---|---|
| LinkedList.Empty | include/LinkedList.h:65 | a new list has no head, no tail, size 0 and no nodes, and satisfies the list invariant |
| LinkedList.InsertAtEnd | include/LinkedList.h:76-85 | the value is appended after the old nodes, which are unchanged; the tail points at it; the size grows by one; the invariant (head null iff tail null iff size 0) is kept |
| LinkedList.HeadValue | include/LinkedList.h:87-89 | there is no head exactly when the list is empty; otherwise the head holds the first value |
| LinkedList.Size | include/LinkedList.h:91-93 | the size field equals the number of nodes |
| LinkedList.Swap | include/LinkedList.h:20-24 | the two values are exchanged and every other value stays; the multiset of values is unchanged |
| LinkedList.PartitionLoop | include/LinkedList.h:35-41 | the scan permutes the values; the final `j` lies between its start and `high`; nodes up to `j` and after `high` keep their values; the pivot at `high` stays |
| LinkedList.Partition | include/LinkedList.h:27-44 | the values are permuted; the returned node lies within `[low, high]` and holds the old value of `high`; nothing outside the range changes |
| LinkedList.QuickSortRec | include/LinkedList.h:47-61 | the recursive sort permutes the values and leaves everything outside `[low, high]` alone |
| LinkedList.QuickSort | include/LinkedList.h:96-105 | the same nodes, head, tail and size, holding a permutation of the values; a list of zero or one node is untouched |
| LinkedList.QuickSortCounterexample | include/LinkedList.h:31-43 | the sort as written turns `[3, 1, 2]` into `[3, 2, 1]`, which is not sorted |
| LinkedList.QuickSortUnsortsSortedInput | include/LinkedList.h:31-43 | the sort as written even turns the sorted `[1, 2, 3]` into `[1, 3, 2]` |
| LinkedList.FixedPartitionSplits | include/LinkedList.h:27-44 | a partition that also compares the value at `low` puts the pivot at the returned index, only smaller values before it and only values at least as large after it, permutes the segment and leaves the rest alone |
| LinkedList.FixedQuickSortCorrect | include/LinkedList.h:47-61 | the sort built on that partition returns a sorted permutation of its input |
| LinkedList.FixedQuickSort | include/LinkedList.h:96-105 | on a list: the same shape, and the values become a sorted permutation of the old ones |
| Models.DefaultCourse | include/Models.h:11 | the default course has empty id, name and department |
| Models.NewCourse | include/Models.h:12-13 | the course carries the given id, name and department |
| Models.DefaultStudent | include/Models.h:23 | the default student has empty strings and semester 0 |
| Models.StudentWithSemester | include/Models.h:24-25 | roll number, name and semester are set; batch and program stay empty |
| Models.StudentWithBatch | include/Models.h:27-28 | roll number, name, batch and program are set; the semester stays 0 |
| Models.NewEnrollment | include/Models.h:35-36 | the enrollment pairs the given roll number and course id |
| Models.StudentShapesAgree | include/Models.h:23-28 | the two student constructors build the same record exactly when the semester is 0 and batch and program are empty; with empty arguments both give the default student |
| Database.NewManager | src/DatabaseManager.cpp:12-13 | a new manager is not connected |
| Database.Connect | src/DatabaseManager.cpp:33-45 | connecting succeeds and leaves the manager connected, whatever the credentials |
| Database.Disconnect | src/DatabaseManager.cpp:47-52 | afterwards the manager is not connected |
| Database.FetchCourses | src/DatabaseManager.cpp:54-76 | connected, exactly the ten listed courses (id, name and department) in the listed order; not connected, an empty list; the list invariant holds |
| Database.AllCoursesDistinct | src/DatabaseManager.cpp:130-131 | the ten course ids are pairwise distinct |
| Database.GetCourseCodes | src/DatabaseManager.cpp:150-160 | one code per fetched course, in list order |
| Database.GetCourseNames | src/DatabaseManager.cpp:162-172 | one name per fetched course, in list order |
| Database.CourseCodesOfConnection | src/DatabaseManager.cpp:150-160 | the codes are the ten course ids when connected and empty otherwise; they never repeat |
| Database.RollNo | src/DatabaseManager.cpp:100 | the roll number is `CT-24` followed by three digits whose value is the student number |
| Database.RollNoInjective | src/DatabaseManager.cpp:100 | different student numbers give different roll numbers |
| Database.GeneratedStudent | src/DatabaseManager.cpp:99-104 | generated student `i` has its roll number, the name `Student` followed by `i`, semester `i % 8 + 1`, and empty batch and program |
| Database.MockStudents | src/DatabaseManager.cpp:85-104 | 320 students, the first ten being the listed ones in the listed order |
| Database.FixedStudentRolls | src/DatabaseManager.cpp:87-96 | the ten listed students are CT-24001 to CT-24010 in order |
| Database.MockStudentRolls | src/DatabaseManager.cpp:86-104 | the k-th of the 320 students has roll number k+1, and every semester lies between 1 and 8 |
| Database.FetchStudents | src/DatabaseManager.cpp:78-108 | connected, exactly the 320 mock students: the ten listed ones first, then from the eleventh on the generated ones; not connected, none |
| Database.GetStudentList | src/DatabaseManager.cpp:174-184 | one roll number and name pair per fetched student, in list order |
| Database.StudentListRolls | src/DatabaseManager.cpp:174-184 | connected, the list holds 320 entries with roll numbers CT-24001 to CT-24320, no two alike |
| Database.StudentCourses | src/DatabaseManager.cpp:137-138 | a generated student takes four courses, or five when its number is odd |
| Database.StudentCourseAt | src/DatabaseManager.cpp:137-142 | the j-th course is the course at index `i % 6 + j`; that index never reaches 10, so the wrap-around is never used |
| Database.StudentCoursesInTable | src/DatabaseManager.cpp:140-142 | every course a generated student takes is one of the ten |
| Database.StudentCoursesDistinct | src/DatabaseManager.cpp:140-142 | a generated student never takes the same course twice |
| Database.StudentRecords | src/DatabaseManager.cpp:140-143 | the student's enrollments pair its roll number with each of its courses, in order |
| Database.EnrollmentsFrom | src/DatabaseManager.cpp:133-144 | every generated enrollment names one of the ten course ids |
| Database.EnrollmentsFromLength | src/DatabaseManager.cpp:133-144 | students i to 320 hold four enrollments each and one more for every odd number |
| Database.MockEnrollmentCount | src/DatabaseManager.cpp:119-144 | the provider holds 1400 enrollments |
| Database.MockEnrollmentsReferToMockData | src/DatabaseManager.cpp:119-144 | every enrollment names one of the ten courses and one of the 320 students |
| Database.FetchEnrollments | src/DatabaseManager.cpp:110-148 | connected, the 1400 mock enrollments; not connected, none |
| Database.FetchesNeedConnection | src/DatabaseManager.cpp:57-59 | each fetch returns an empty list exactly when the manager is not connected, so a new or disconnected manager gets nothing and a connected one gets ten courses |
| Database.CoursesOfMembers | src/DatabaseManager.cpp:196-201 | a course is in a student's list exactly when an enrollment pairs that student with it |
| Database.MockCoursesOf | src/DatabaseManager.cpp:119-144 | CT-24001 takes ML101, OOP201, AI401, DS501 and SE701; CT-24002 to CT-24010 take nothing; every later student takes its rotation |
| Database.CourseListsOf | src/DatabaseManager.cpp:191-205 | the nested walk yields, for each student in order, its roll number and its courses in enrollment order |
| Database.GetStudentEnrollments | src/DatabaseManager.cpp:186-207 | one entry per fetched student, carrying that student's courses among the fetched enrollments |
| Database.CountCourses | src/DatabaseManager.cpp:214-217 | the keys are exactly the course ids that occur; each value is how often its id occurs; the values add up to the number of enrollments |
| Database.GetCourseSizes | src/DatabaseManager.cpp:209-219 | the same, over the fetched enrollments |
| Database.CourseSizeKeysAreCourses | src/DatabaseManager.cpp:130-131 | every course that has a size is one of the ten |
| Tally.CountMap | src/DatabaseManager.cpp:214-217 | the map `m[x]++` builds over a sequence has every element as a key and nothing else, each with its number of occurrences |
| Tally.SumOfCountMap | src/DatabaseManager.cpp:214-217 | the counts add up to the length of the sequence |
| Tally.Histogram | src/analyticswindow.cpp:888-903 | every entry of the exam-count distribution is at least 1 |
| Tally.HistogramCounts | src/analyticswindow.cpp:897-900 | a histogram entry v (v at least 1) counts the distinct elements that occur exactly v times |
| Tally.HistogramTotal | src/analyticswindow.cpp:897-900 | the histogram's entries add up to the number of distinct elements |
| Tally.HistogramWeightedTotal | src/analyticswindow.cpp:897-900 | weighting each entry by its count gives back the length of the sequence |
| Tally.HistogramEmpty | src/analyticswindow.cpp:897-900 | the histogram is empty exactly when the sequence is |
| Text.IndexOf | src/TimetableGenerator.cpp:65 | `find` gives no position exactly when the character is absent; otherwise it gives the first occurrence |
| Text.PrefixBefore | src/TimetableGenerator.cpp:136 | the text before the first occurrence of the character: a prefix without it, the whole string when it is absent |
| Text.SplitJoin | src/scheduletablemodel.cpp:89-91 | splitting the join of separator-free pieces gives the pieces back |
| Text.JoinSplit | src/scheduletablemodel.cpp:89-91 | joining the pieces of a split gives the string back |
| Text.GetlineTokens | src/scheduletablemodel.cpp:89-91 | no token holds the separator |
| Text.GetlineTokensOfJoin | src/scheduletablemodel.cpp:89-91 | the `getline` tokens of a join of separator-free pieces whose last piece is not empty are the pieces |
| Text.Stoi | src/scheduletablemodel.cpp:100 | `stoi` never yields a value outside the 32-bit range |
| Text.StoiOfIntToString | src/scheduletablemodel.cpp:100 | `stoi` reads back any printed 32-bit integer |
| Text.DigitsValueOfNatToString | src/DatabaseManager.cpp:100 | the digits of a printed number have that number as their value |
| Timetable.NewGenerator | src/TimetableGenerator.cpp:10-12 | a new generator has generated nothing |
| Timetable.SetStartDate | src/TimetableGenerator.cpp:18-20 | the date is stored and nothing else changes |
| Timetable.Generate | src/TimetableGenerator.cpp:22-40 | generating returns true, sets the flag, leaves the start date, and the schedule becomes exactly the eleven sample entries |
| Timetable.GenerateIdempotent | src/TimetableGenerator.cpp:23-36 | the schedule is cleared first, so generating twice equals generating once; the entries depend neither on the earlier state nor on the start date |
| Timetable.FixedSessionFields | src/TimetableGenerator.cpp:26-36 | the k-th entry's day number, room and seat count, and that each entry is well formed |
| Timetable.FixedSessionsOrdered | src/TimetableGenerator.cpp:26-36 | day numbers never decrease along the schedule and no room holds more than 55 |
| Timetable.FixedScheduleFields | src/TimetableGenerator.cpp:26-36 | every entry string splits at its commas into the seven fields it was built from |
| Timetable.GetSchedule | src/TimetableGenerator.cpp:314-316 | the entries, in order |
| Timetable.IsGenerated | src/TimetableGenerator.cpp:318-320 | true exactly when a schedule was generated |
| Timetable.Cleanup | src/TimetableGenerator.cpp:322-325 | the schedule is emptied and the flag cleared; the start date stays |
| Timetable.NextField | src/TimetableGenerator.cpp:65-67 | the field holds no comma; with a comma, field, comma and rest give back the string; without one (`npos`) both the field and the rest are the whole string, since `npos + 1` wraps to 0 |
| Timetable.FieldsFrom | src/TimetableGenerator.cpp:60-95 | `n` cuts give `n + 1` fields |
| Timetable.EntryFields | src/TimetableGenerator.cpp:60-95 | an entry is cut into exactly seven fields, the last one being the rest after the sixth comma |
| Timetable.FieldsFromJoin | src/TimetableGenerator.cpp:64-95 | the repeated find/substr steps take a comma-joined line apart into its fields |
| Timetable.EntryFieldsOfJoin | src/TimetableGenerator.cpp:60-95 | an entry joined from seven fields, the first six comma-free, splits back into them |
| Timetable.FieldsFromWithoutComma | src/TimetableGenerator.cpp:64-95 | an entry without commas gives the whole entry as every field |
| Timetable.ReformatDate | src/TimetableGenerator.cpp:98 | the date cannot be formatted (`substr(3, 2)` throws) exactly when it is shorter than three characters |
| Timetable.ReformatDateSwaps | src/TimetableGenerator.cpp:98 | `dd-mm-yyyy` becomes `mm-dd-2026`: day and month swap and the year is always 2026 |
| Timetable.CourseLookup | src/TimetableGenerator.cpp:101-126 | the name is empty exactly when the section is, and the section is one of `2-Jan` to `5-Jan` or empty |
| Timetable.CourseLookupKnown | src/TimetableGenerator.cpp:101-126 | name and section are non-empty exactly for the eight listed course ids |
| Timetable.CourseLookupCommaFree | src/TimetableGenerator.cpp:101-126 | no name or section contains a comma |
| Timetable.CourseLookupAgreesWithProvider | src/TimetableGenerator.cpp:101-126 | for each of the provider's ten courses the looked-up name is a prefix of the provider's name; it is empty exactly for DB301, SE701 and CC901 |
| Timetable.CsvHeaderColumns | src/TimetableGenerator.cpp:55 | the header is one line that splits into the thirteen column names |
| Timetable.CsvRow | src/TimetableGenerator.cpp:58-145 | an entry is skipped exactly when its date field is shorter than three characters |
| Timetable.CsvRowFields | src/TimetableGenerator.cpp:129-141 | a row has one value for each of the thirteen CSV columns |
| Timetable.CsvRowOfJoin | src/TimetableGenerator.cpp:60-141 | the row of an entry built from seven fields is the join of the row values computed from those fields |
| Timetable.CsvRowFieldsCommaFree | src/TimetableGenerator.cpp:129-141 | the row values hold no comma when the fields and the date hold none |
| Timetable.CsvRowOfSession | src/TimetableGenerator.cpp:129-141 | a well-formed entry becomes a line of thirteen values: the swapped date, day number, room, 55, course id, section, name, the seats before the `/`, the roll range, 2:00 PM, 5:00 PM, 55 and OK |
| Timetable.CsvRows | src/TimetableGenerator.cpp:58-146 | at most one row per entry, since a throwing entry is skipped |
| Timetable.CsvRowsAppend | src/TimetableGenerator.cpp:58-146 | rows are produced entry by entry: the rows of two schedules joined are the rows of each, joined |
| Timetable.CsvRowsAllSome | src/TimetableGenerator.cpp:142-145 | when no entry throws, there is one row per entry |
| Timetable.FixedScheduleCsvRows | src/TimetableGenerator.cpp:26-36 | none of the eleven generated entries is skipped |
| Timetable.ExportToCsv | src/TimetableGenerator.cpp:42-150 | the export succeeds exactly when a schedule was generated and the file opens, and the file then starts with the header |
| Timetable.ExportToText | src/TimetableGenerator.cpp:152-171 | the export succeeds exactly when a schedule was generated and the file opens, and the file then starts with the title |
| Timetable.ExportToTextLines | src/TimetableGenerator.cpp:164-167 | after the title, the file's lines are the entries unchanged, each ending in a newline |
| Timetable.ExportsNeedGenerate | src/TimetableGenerator.cpp:43-46 | a new or cleaned-up generator exports nothing; after generating, the CSV export succeeds |
| ScheduleTable.EmptyGrid | src/scheduletablemodel.cpp:5-15 | a 15 × 16 grid of empty slots |
| ScheduleTable.Clear | src/scheduletablemodel.cpp:143-153 | every slot of the 15 × 16 grid is empty again |
| ScheduleTable.RowCount | src/scheduletablemodel.cpp:17-22 | 0 under a valid parent, otherwise the number of day rows |
| ScheduleTable.ColumnCount | src/scheduletablemodel.cpp:24-29 | 0 under a valid parent, otherwise the number of room columns |
| ScheduleTable.HashRoom | src/scheduletablemodel.cpp:113 | the number after the first `#`, minus one; without a `#`, `npos + 1` wraps to 0 and the whole text is read. ParseRoom calls it only on text holding `Room#`, so that wrap-around is not reached from ParseRoom |
| ScheduleTable.LabRoom | src/scheduletablemodel.cpp:116 | the number from position 3 on, plus ten; text shorter than three characters makes `substr(3)` throw and the line is skipped. ParseRoom calls it only on text holding `Lab`, so that throw is not reached from ParseRoom |
| ScheduleTable.ParseRoom | src/scheduletablemodel.cpp:112-119 | a column is found only when the room text contains `Room#` or `Lab` |
| ScheduleTable.RoomTextParses | src/scheduletablemodel.cpp:112-113 | `Room#n` lands in column n-1 |
| ScheduleTable.LabTextParses | src/scheduletablemodel.cpp:114-116 | `Labn` lands in column n+10 |
| ScheduleTable.ParseTokens | src/scheduletablemodel.cpp:94-124 | a placement needs at least seven tokens and carries token 3 as the course and token 4 as the roll range |
| ScheduleTable.ParseLine | src/scheduletablemodel.cpp:79 | an empty line places nothing |
| ScheduleTable.ReadLines | src/scheduletablemodel.cpp:78-124 | one placement, or none, per schedule line |
| ScheduleTable.SessionTokens | src/scheduletablemodel.cpp:89-91 | the `getline` tokens of a generated entry are its seven fields |
| ScheduleTable.ParseLineOfSession | src/scheduletablemodel.cpp:83-131 | a well-formed generated entry is placed at day number - 1 and room number - 1, with its course, roll range and the seats before the `/` |
| ScheduleTable.FixedSessionsReadable | src/TimetableGenerator.cpp:26-36 | every generated entry meets those conditions and its cell lies inside the grid |
| ScheduleTable.Put | src/scheduletablemodel.cpp:126-132 | only the cell the placement targets inside the grid changes; every other cell keeps its slot |
| ScheduleTable.PutAll | src/scheduletablemodel.cpp:78-137 | writing every placement in order keeps the grid 15 × 16 |
| ScheduleTable.SkippedLineKeepsGrid | src/scheduletablemodel.cpp:126-132 | a line that places nothing, or places outside the grid on either side, leaves the grid as it was |
| ScheduleTable.LastWriterWins | src/scheduletablemodel.cpp:131 | of two placements in the same cell, only the later one is seen |
| ScheduleTable.SetSchedule | src/scheduletablemodel.cpp:66-141 | the grid keeps its shape, and stays empty when nothing was generated |
| ScheduleTable.LastAtSpec | src/scheduletablemodel.cpp:78-137 | the last placement aimed at a cell is absent exactly when no line targets it; otherwise it comes from a line that targets it with no later line doing so |
| ScheduleTable.PutAllCell | src/scheduletablemodel.cpp:78-137 | after all lines are placed, each cell holds the last placement aimed at it, or its old slot |
| ScheduleTable.SetScheduleCell | src/scheduletablemodel.cpp:66-141 | each cell holds the last generated entry placed there, and is empty when there is none or nothing was generated |
| ScheduleTable.HeaderData | src/scheduletablemodel.cpp:50-64 | a header text exists exactly for the display role |
| ScheduleTable.LabHeaderRoundTrip | src/scheduletablemodel.cpp:58-59 | a lab column's header `Labn` reads back to that column |
| ScheduleTable.RoomHeaderColumn | src/scheduletablemodel.cpp:56-57 | room column c is headed `Room #c+1` with a space; the parser would put `Room#c+1` in column c, but it does not accept the header text itself |
| ScheduleTable.DayHeaderRow | src/scheduletablemodel.cpp:61-62 | row r is headed `Day r+1`, the day number that lands in row r |
| ScheduleTable.Data | src/scheduletablemodel.cpp:31-48 | a cell text exists exactly for the display role inside the grid, and is `Empty` exactly when the slot has no course |
| ScheduleTable.DataLines | src/scheduletablemodel.cpp:39-42 | a filled cell shows three lines: course id, roll range and `Students: n` |
| ScheduleTable.AsWrittenGuardAdmitsZero | src/scheduletablemodel.cpp:126 | an entry with day number 0 or room number 0 is read as row or column -1, and it passes the guard as written |
| ScheduleTable.DayZeroSessionQualifies | src/scheduletablemodel.cpp:100 | such an entry exists: a well-formed session on day 0 in room 1 |
| DateDialog.DaysInMonth | src/generatetimetabledialog.cpp:53-54 | months have 28 to 31 days, and February has 29 exactly in Gregorian leap years |
| DateDialog.FromString | src/generatetimetabledialog.cpp:53 | a parsed date is always a valid calendar date |
| DateDialog.ValidateDate | src/generatetimetabledialog.cpp:46-55 | accepted exactly when the string is two digits, `-`, two digits, `-`, four digits and names a real date; an accepted string always matched the pattern |
| DateDialog.TrailingNewlineRejected | src/generatetimetabledialog.cpp:48-54 | a trailing newline gets past the pattern (`$` matches before it) but the date parser rejects it |
| DateDialog.FormatDate | src/generatetimetabledialog.cpp:31 | a printed date has the `dd-MM-yyyy` shape |
| DateDialog.FromStringOfFormat | src/generatetimetabledialog.cpp:31 | reading back a printed date gives the same date, and the string is accepted |
| DateDialog.GetStartDate | src/generatetimetabledialog.cpp:29-32 | the widget's date is returned in the `dd-MM-yyyy` shape |
| DateDialog.OnAccept | src/generatetimetabledialog.cpp:34-44 | the dialog is accepted exactly when the start date validates; otherwise the warning text is shown |
| DateDialog.WidgetDateAccepted | src/generatetimetabledialog.cpp:34-44 | every date the widget can hold is accepted, so the warning is never reached |
| DateDialog.ExampleAccepted | src/generatetimetabledialog.cpp:40-42 | the warning's example `15-01-2026` is accepted as 15 January 2026 |
| Analytics.FirstDayFrom | src/analyticswindow.cpp:632-637 | the if-chain finds a weekday the line contains, and no earlier weekday in the list occurs in the line |
| Analytics.DayOf | src/analyticswindow.cpp:629-637 | a line that is counted is counted under a weekday |
| Analytics.DaysOf | src/analyticswindow.cpp:629-638 | at most one weekday per schedule line, and nothing but weekdays |
| Analytics.DayOfFirstWeekday | src/analyticswindow.cpp:632-637 | a line is counted for the first of Monday to Saturday that it contains, and is not counted exactly when it contains none |
| Analytics.ExamLoadOfLines | src/analyticswindow.cpp:627-638 | only weekdays are keys, each with a count of at least one, and the counts add up to at most the number of lines |
| Analytics.ExamLoadAppend | src/analyticswindow.cpp:629-638 | one more line adds one to its weekday's count, or changes nothing when it names no weekday |
| Analytics.ExamLoadCountsEveryLine | src/analyticswindow.cpp:627-638 | the counts add up to the number of lines exactly when every line names a weekday |
| Analytics.EvenLoad | src/analyticswindow.cpp:648-660 | Monday to Friday each get the course count divided by five, rounded up |
| Analytics.ExamLoad | src/analyticswindow.cpp:617-666 | with a generated schedule, the weekday counts of its lines (adding up to at most its length); otherwise, with a database, its course count spread evenly; otherwise the sample load; every key is a weekday |
| Analytics.ExamLoadWithoutSchedule | src/analyticswindow.cpp:643-660 | with no schedule but a data provider, each working day gets 2 when the provider is connected (ten courses) and 0 otherwise |
| Analytics.Departments | src/analyticswindow.cpp:680-687 | exactly the non-empty departments of the courses are kept |
| Analytics.DepartmentDistribution | src/analyticswindow.cpp:668-706 | never empty and never keyed by an empty name; without a provider, the five sample departments |
| Analytics.DepartmentCounts | src/analyticswindow.cpp:680-690 | connected, each department's value is how many courses name it, and the values add up to the number of counted courses |
| Analytics.DepartmentsAllNamed | src/analyticswindow.cpp:680-687 | when every course has a department, none is dropped and the order is kept |
| Analytics.DepartmentDistributionConnected | src/analyticswindow.cpp:673-690 | connected: Computer Science 6 and Information Technology 4 |
| Analytics.DepartmentFallback | src/analyticswindow.cpp:693-697 | not connected, the fetch is empty and the three-department sample is used |
| Analytics.ConflictScore | src/analyticswindow.cpp:780-784 | the score is one of 0, 1, 2, 3 and 5; positive exactly above 25 students; 5 exactly above 100 |
| Analytics.ConflictScoreMonotone | src/analyticswindow.cpp:780-784 | more students never lower the score |
| Analytics.ConflictEntries | src/analyticswindow.cpp:774-791 | exactly the listed courses with a positive score are recorded, each with its score |
| Analytics.Conflicts | src/analyticswindow.cpp:759-797 | the result is never empty and every value lies between 1 and 5 |
| Analytics.ConflictsRecorded | src/analyticswindow.cpp:765-797 | with no course above 25 students the two-course sample is used; otherwise exactly the courses above 25 are recorded |
| Analytics.ConflictMap | src/analyticswindow.cpp:754-806 | without a provider, the five-course sample; with one, the conflicts of its courses and enrollments |
| Analytics.ConflictFallback | src/analyticswindow.cpp:794-797 | not connected, the two-course sample |
| Analytics.ExamCounts | src/analyticswindow.cpp:888-910 | the distribution is never empty |
| Analytics.ExamCountsMeaning | src/analyticswindow.cpp:888-910 | without enrollments, the three-entry sample; otherwise entry k counts the students with exactly k enrollments, the entries add up to the number of students enrolled, and weighted by k they add up to the number of enrollments |
| Analytics.ExamCountDistribution | src/analyticswindow.cpp:878-920 | without a provider, the six-entry sample; with one, the distribution of its enrollments |
| Analytics.ExamCountDistributionOfDatabase | src/analyticswindow.cpp:883-910 | connected, the weighted entries add up to 1400; not connected, the three-entry sample |
| Analytics.ScheduleFromDatabase | src/analyticswindow.cpp:922-932 | the schedule query returns no exam, whatever the provider |
| Analytics.LoadAnalyticsData | src/analyticswindow.cpp:133-160 | the window's loaded data is always the sample data, whatever the provider and the generator |
| Analytics.ExamLoadNeverShown | src/analyticswindow.cpp:133-173 | without a generated schedule, the exam load computed for a provider differs from the sample the window shows, so it never reaches the screen |

## Left out

- `exportToPDF` (src/TimetableGenerator.cpp:173-312): page layout, fonts and the PDF writer are not modelled. It also splits entries into six fields rather than seven.
- File and console I/O: whether a file opens is a `fileOpens` parameter, and the exports return the text that would be written. `qDebug`, `cout` and `cerr` messages are left out.
- ODBC handles, `checkSQLReturn` and `getSQLError`: the mock provider never uses them.
- The list destructor and copying: `LinkedList` has no copy constructor, so returning a list by value shares nodes between copies. The model uses values.
- `QString::arg` is modelled only for the texts the grid shows: decimal integers and plain strings.
- Timetable.ExportToCsv: states success and the header prefix. The rows are described separately by `CsvRows`, `CsvRowsAppend` and `CsvRowOfSession` rather than in this contract.
- ScheduleTable.SetSchedule: `stoi(...) - 1` and `stoi(...) + 10` are computed on unbounded integers. Near the 32-bit limits they would overflow in C++.
- ScheduleTable.AsWrittenGuardAdmitsZero: writing to row or column -1 is undefined in C++. The model skips such a line.
- ScheduleTable.Put: guards with both bounds (`0 <= row < maxDays`, `0 <= column < maxRooms`), not the upper-bound-only guard of src/scheduletablemodel.cpp:126, so a line with day or room number 0 is skipped rather than written out of bounds.
- ScheduleTable.SetSchedule: places lines through Put, so it uses the same corrected guard; the as-written guard lives only in ScheduleTable.AsWrittenGuardAdmitsZero.
- DateDialog.ValidateDate: `QDate::fromString` is assumed to reject text beyond the format, such as a trailing newline. Qt's exact parser is not modelled.
- DateDialog.WidgetDateAccepted: the widget range is taken to be the `QDateEdit` default, 14 September 1752 to 31 December 9999.
- The analytics window's charts, colours and layout; room utilisation percentages (floating point); exam timing and the room-load-over-days series. The sample data for these is left out as well.
- `generateSampleData`: the window always shows `createSampleAnalyticsData` (src/analyticswindow.cpp:158-216). `getExamScheduleFromDatabase` returns an empty schedule, so `loadAnalyticsData` never calls the `process*Data` functions. `Analytics.ExamLoad`, `DepartmentDistribution`, `ConflictMap` and `ExamCountDistribution` are therefore unreachable from `refreshAnalytics` as written. They model what those functions would compute, and `Analytics.LoadAnalyticsData` states that the sample is shown. Of the sample, only its integer charts are modelled. The room utilisation (floating point) and the random room load are not.
- LinkedList.QuickSort: the template `LinkedList<T>` sorts any `T` with `operator<`. The sort (`Swap`, `PartitionLoop`, `Partition`, `QuickSortRec`, `QuickSortValues`, `QuickSort` and the corrected versions) is modelled for integer values only. No caller in the program instantiates `quickSort`.
- Text encodings: all text is a sequence of characters. Byte-wise `std::string` and the UTF-8 decoding of `QString::fromStdString` (src/scheduletablemodel.cpp:128-129) are not distinguished, so non-ASCII text is not modelled.
- Analytics.Conflicts: with a connected provider, the concrete conflict scores are not worked out. The contract states what is recorded, not the resulting values.
- Analytics.ExamCountDistributionOfDatabase: the concrete connected histogram is not worked out, only its weighted total.
- The UI wiring: main window, connect dialog and signal/slot connections.
- The date dialog's default date (today): this needs a clock, so the widget date is a parameter.

## Findings

| source | as written | input that shows it | evidently intended | confidence | as-written member | corrected member |
|---|---|---|---|---|---|---|
| include/LinkedList.h:31-43 | `partition` starts `i` at `low->next` and `j` at `low`, so the value at `low` is never compared with the pivot, yet it stays left of the pivot | `[3, 1, 2]` sorts to `[3, 2, 1]`; `[1, 2, 3]` sorts to `[1, 3, 2]` | a Lomuto partition that scans from `low` and returns a sorted permutation | not executed | LinkedList.QuickSortCounterexample | LinkedList.FixedQuickSortCorrect |
| src/scheduletablemodel.cpp:126 | the grid guard checks only `dayNum < maxDays && roomNum < maxRooms`, with no lower bound | the line `Friday,0,02-01-2026,ML101,CT-24001 to CT-24085,Room#1,55/55` gives row -1 and passes the guard | also require `0 <= dayNum` and `0 <= roomNum`, so that such a line is skipped | not executed | ScheduleTable.AsWrittenGuardAdmitsZero | ScheduleTable.SkippedLineKeepsGrid |
