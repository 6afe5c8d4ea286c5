/** `ScheduleTableModel`: the table the main window shows, a fixed grid of 15 exam days
    by 16 rooms (eleven numbered rooms, then five labs). `setSchedule` fills it from the
    generator's session strings; `data` and `headerData` give the text of a cell and of
    a header. */
module ScheduleTable {
  import opened Wrappers
  import opened Text
  import Timetable

  const MaxDays: nat := 15
  const MaxRooms: nat := 16

  /** One cell. The roll range sits in the field the source calls `courseName`; `room`
      is never set and stays empty. */
  datatype Slot = Slot(courseId: string, rolls: string, room: string, students: int)

  /** A value-initialised `ExamSlot()`: empty strings and no students. */
  function EmptySlot(): (s: Slot)
    ensures s.courseId == "" && s.rolls == "" && s.room == "" && s.students == 0
  {
    Slot("", "", "", 0)
  }

  /** The grid, indexed `[day][room]`. */
  type Grid = seq<seq<Slot>>

  predicate Shaped(g: Grid) {
    |g| == MaxDays && forall d | 0 <= d < |g| :: |g[d]| == MaxRooms
  }

  predicate AllEmpty(g: Grid) {
    forall d, c | 0 <= d < |g| && 0 <= c < |g[d]| :: g[d][c] == EmptySlot()
  }

  /** The constructor's grid, and the grid `clear` leaves: every cell reset. */
  function EmptyGrid(): (g: Grid)
    ensures Shaped(g) && AllEmpty(g)
  {
    seq(MaxDays, _ => seq(MaxRooms, _ => EmptySlot()))
  }

  /** `clear()`: every cell is reset and the shape is kept. */
  function Clear(g: Grid): (r: Grid)
    ensures Shaped(r) && AllEmpty(r)
  {
    EmptyGrid()
  }

  /** `rowCount(parent)`: the day rows for the root, none for a child index. */
  function RowCount(g: Grid, parentValid: bool): (n: int)
    ensures Shaped(g) && !parentValid ==> n == |g|
    ensures parentValid ==> n == 0
  {
    if parentValid then 0 else MaxDays
  }

  /** `columnCount(parent)`: the room columns for the root, none for a child index. */
  function ColumnCount(g: Grid, parentValid: bool): (n: int)
    ensures Shaped(g) && !parentValid ==> forall d | 0 <= d < |g| :: n == |g[d]|
    ensures parentValid ==> n == 0
  {
    if parentValid then 0 else MaxRooms
  }

  // ---------------------------------------------------------------------------
  // Reading one session string

  /** `stoi(s.substr(s.find("#") + 1)) - 1`. Without a `#`, `find` gives `npos` and
      `npos + 1` wraps round to 0, so the whole text is read. */
  function HashRoom(roomStr: string): (r: Option<int>)
    ensures '#' !in roomStr ==> r == (if Stoi(roomStr).Some? then Some(Stoi(roomStr).value - 1) else None)
  {
    var rest := match IndexOf(roomStr, '#') case None => roomStr case Some(i) => roomStr[i + 1..];
    match Stoi(rest)
    case None => None
    case Some(n) => Some(n - 1)
  }

  /** `stoi(s.substr(3)) + 10`; `substr(3)` throws on a text shorter than 3. */
  function LabRoom(roomStr: string): (r: Option<int>)
    ensures |roomStr| < 3 ==> r.None?
  {
    if |roomStr| < 3 then None
    else
      match Stoi(roomStr[3..])
      case None => None
      case Some(n) => Some(n + 10)
  }

  /** `Room#N` (anywhere in the text) gives column N-1, read after the first `#`;
      otherwise `Lab` (anywhere) gives column N+10, read from position 3; any other room
      text is skipped. None also stands for a `stoi` that throws. */
  function ParseRoom(roomStr: string): (r: Option<int>)
    ensures r.Some? ==> Contains(roomStr, "Room#") || Contains(roomStr, "Lab")
  {
    if Contains(roomStr, "Room#") then HashRoom(roomStr)
    else if Contains(roomStr, "Lab") then LabRoom(roomStr)
    else None
  }

  /** Where a line goes and what it puts there. */
  datatype Placement = Placement(day: int, room: int, slot: Slot)

  /** A line read as going to (`day`, `room`) with `slot`. */
  predicate PlacedAt(p: Option<Placement>, day: int, room: int, slot: Slot) {
    p.Some? && p.value.day == day && p.value.room == room && p.value.slot == slot
  }

  /** What `setSchedule` reads from the tokens of one line, or None when the line is
      skipped: fewer than seven tokens, an unknown room format, or a day number, room
      number or student count `stoi` cannot read. The student count is read from the
      part of the seventh token before `/`. */
  function ParseTokens(tokens: seq<string>): (r: Option<Placement>)
    ensures r.Some? ==> |tokens| >= 7
    ensures r.Some? ==> r.value.slot.courseId == tokens[3] && r.value.slot.rolls == tokens[4]
  {
    if |tokens| < 7 then None
    else
      match Stoi(tokens[1])
      case None => None
      case Some(dayNum) =>
        match ParseRoom(tokens[5])
        case None => None
        case Some(room) =>
          match Stoi(PrefixBefore(tokens[6], '/'))
          case None => None
          case Some(n) => Some(Placement(dayNum - 1, room, Slot(tokens[3], tokens[4], "", n)))
  }

  /** What `setSchedule` reads from one line: nothing from an empty line, otherwise what
      its comma-separated tokens give. */
  function ParseLine(line: string): (r: Option<Placement>)
    ensures line == "" ==> r.None?
  {
    if line == "" then None else ParseTokens(GetlineTokens(line, ','))
  }

  // ---------------------------------------------------------------------------
  // Writing into the grid

  /** The guard as the source writes it: only the upper bounds are checked. */
  predicate AsWrittenGuard(day: int, room: int) {
    day < MaxDays && room < MaxRooms
  }

  /** The guard the grid needs: both indices inside it. */
  predicate InGrid(day: int, room: int) {
    0 <= day < MaxDays && 0 <= room < MaxRooms
  }

  /** Whether a read line is placed at cell (`d`, `c`). */
  predicate Targets(p: Option<Placement>, d: int, c: int) {
    p.Some? && p.value.day == d && p.value.room == c
  }

  /** One pass of the loop in `setSchedule` after the line is read, with both bounds
      checked: a placement inside the grid replaces its cell, and nothing else changes. */
  function Put(g: Grid, p: Option<Placement>): (r: Grid)
    requires Shaped(g)
    ensures Shaped(r)
    ensures forall d, c | InGrid(d, c) ::
      r[d][c] == if Targets(p, d, c) then p.value.slot else g[d][c]
  {
    match p
    case None => g
    case Some(q) =>
      if InGrid(q.day, q.room) then g[q.day := g[q.day][q.room := q.slot]] else g
  }

  /** What each schedule line gives, in order. */
  function ReadLines(lines: seq<string>): (ps: seq<Option<Placement>>)
    ensures |ps| == |lines|
  {
    seq(|lines|, k requires 0 <= k < |lines| => ParseLine(lines[k]))
  }

  /** All placements put in order. */
  function PutAll(g: Grid, ps: seq<Option<Placement>>): (r: Grid)
    requires Shaped(g)
    ensures Shaped(r)
    decreases |ps|
  {
    if |ps| == 0 then g
    else Put(PutAll(g, ps[..|ps| - 1]), ps[|ps| - 1])
  }

  /** `setSchedule(generator)`: every cell is reset, then, if the generator has a
      schedule, its lines are read and placed in order. The grid before the call plays
      no part. */
  function SetSchedule(gen: Timetable.Generator): (r: Grid)
    ensures Shaped(r)
    ensures !gen.generated ==> AllEmpty(r)
  {
    if gen.generated then PutAll(EmptyGrid(), ReadLines(Timetable.GetSchedule(gen))) else EmptyGrid()
  }

  /** The slot of the last placement aimed at cell (`d`, `c`), if any is. */
  function LastAt(ps: seq<Option<Placement>>, d: int, c: int): Option<Slot>
    decreases |ps|
  {
    if |ps| == 0 then None
    else if Targets(ps[|ps| - 1], d, c) then Some(ps[|ps| - 1].value.slot)
    else LastAt(ps[..|ps| - 1], d, c)
  }

  /** No slot is found exactly when no placement is aimed at the cell; a slot that is
      found is the one the last such placement carries. */
  lemma LastAtSpec(ps: seq<Option<Placement>>, d: int, c: int)
    ensures LastAt(ps, d, c).None? <==> forall k | 0 <= k < |ps| :: !Targets(ps[k], d, c)
    ensures LastAt(ps, d, c).Some? ==> exists k | 0 <= k < |ps| ::
      && Targets(ps[k], d, c)
      && LastAt(ps, d, c).value == ps[k].value.slot
      && forall j | k < j < |ps| :: !Targets(ps[j], d, c)
  {
    LastAtNone(ps, d, c);
    LastAtSome(ps, d, c);
  }

  lemma {:induction false} LastAtNone(ps: seq<Option<Placement>>, d: int, c: int)
    ensures LastAt(ps, d, c).None? <==> forall k | 0 <= k < |ps| :: !Targets(ps[k], d, c)
    decreases |ps|
  {
    if |ps| > 0 {
      var n := |ps| - 1;
      LastAtNone(ps[..n], d, c);
      assert forall k | 0 <= k < n :: ps[..n][k] == ps[k];
    }
  }

  lemma {:induction false} LastAtSome(ps: seq<Option<Placement>>, d: int, c: int)
    ensures LastAt(ps, d, c).Some? ==> exists k | 0 <= k < |ps| ::
      && Targets(ps[k], d, c)
      && LastAt(ps, d, c).value == ps[k].value.slot
      && forall j | k < j < |ps| :: !Targets(ps[j], d, c)
    decreases |ps|
  {
    if |ps| > 0 {
      var n := |ps| - 1;
      var before := ps[..n];
      if Targets(ps[n], d, c) {
        assert Targets(ps[n], d, c) && LastAt(ps, d, c).value == ps[n].value.slot;
      } else if LastAt(before, d, c).Some? {
        LastAtSome(before, d, c);
        var k :| 0 <= k < n && Targets(before[k], d, c)
          && LastAt(before, d, c).value == before[k].value.slot
          && forall j | k < j < n :: !Targets(before[j], d, c);
        assert before[k] == ps[k];
        assert forall j | k < j < n :: before[j] == ps[j];
        assert Targets(ps[k], d, c) && LastAt(ps, d, c).value == ps[k].value.slot;
      }
    }
  }

  /** After putting a list of placements, each cell holds the slot of the last one
      aimed at it, or what it held before when none was. */
  lemma {:induction false} PutAllCell(g: Grid, ps: seq<Option<Placement>>, d: int, c: int)
    requires Shaped(g) && InGrid(d, c)
    ensures PutAll(g, ps)[d][c] == match LastAt(ps, d, c)
      case None => g[d][c]
      case Some(s) => s
    decreases |ps|
  {
    if |ps| > 0 {
      PutAllCell(g, ps[..|ps| - 1], d, c);
    }
  }

  /** A cell after `setSchedule` holds the slot of the last schedule line aimed at it,
      and is empty when none is or when nothing was generated. */
  lemma SetScheduleCell(gen: Timetable.Generator, d: int, c: int)
    requires InGrid(d, c)
    ensures var last := LastAt(ReadLines(gen.schedule), d, c);
      SetSchedule(gen)[d][c] == if gen.generated && last.Some? then last.value else EmptySlot()
  {
    if gen.generated {
      PutAllCell(EmptyGrid(), ReadLines(gen.schedule), d, c);
    }
  }

  /** A later placement in the same cell overwrites an earlier one. */
  lemma LastWriterWins(g: Grid, first: Placement, second: Placement)
    requires Shaped(g)
    requires first.day == second.day && first.room == second.room
    ensures Put(Put(g, Some(first)), Some(second)) == Put(g, Some(second))
  {
    var a := Put(Put(g, Some(first)), Some(second));
    var b := Put(g, Some(second));
    forall d | 0 <= d < MaxDays ensures a[d] == b[d] {
      forall c | 0 <= c < MaxRooms ensures a[d][c] == b[d][c] {
        assert InGrid(d, c);
      }
    }
  }

  /** A skipped line, or one aimed outside the grid, leaves every cell as it was. */
  lemma SkippedLineKeepsGrid(g: Grid, p: Option<Placement>)
    requires Shaped(g)
    requires p.None? || !InGrid(p.value.day, p.value.room)
    ensures Put(g, p) == g
  {
    var r := Put(g, p);
    forall d | 0 <= d < MaxDays ensures r[d] == g[d] {
      forall c | 0 <= c < MaxRooms ensures r[d][c] == g[d][c] {
        assert InGrid(d, c);
      }
    }
  }

  // ---------------------------------------------------------------------------
  // Room texts and headers

  /** `std::stoi` reads back a printed number with nothing after it. */
  lemma StoiOfDigits(n: nat)
    requires n <= IntMax
    ensures Stoi(NatToString(n)) == Some(n)
  {
    StoiOfNatToString(n, "");
    assert NatToString(n) + "" == NatToString(n);
  }

  /** `Room#` followed by digits is recognised as a numbered room, with the digits after
      the `#`. */
  lemma RoomTextShape(d: string)
    requires AllDigits(d)
    ensures Contains("Room#" + d, "Room#")
    ensures IndexOf("Room#" + d, '#') == Some(4)
    ensures ("Room#" + d)[5..] == d
  {
    var s := "Room#" + d;
    assert StartsWith(s, "Room#");
    assert s == "Room" + ['#'] + d;
    IndexOfAfterPrefix("Room", '#', d);
  }

  /** `Room#N` is read as column N-1. */
  lemma RoomTextParses(n: nat)
    requires n <= IntMax
    ensures ParseRoom("Room#" + NatToString(n)) == Some(n - 1)
  {
    RoomTextShape(NatToString(n));
    StoiOfDigits(n);
  }

  /** `Lab` followed by digits has no `#`, so it is recognised as a lab, with the digits
      after `Lab`. */
  lemma LabTextShape(d: string)
    requires AllDigits(d)
    ensures !Contains("Lab" + d, "Room#")
    ensures Contains("Lab" + d, "Lab")
    ensures ("Lab" + d)[3..] == d
  {
    var s := "Lab" + d;
    assert '#' !in s by {
      assert forall i | 3 <= i < |s| :: s[i] == d[i - 3];
    }
    NotContainsMissingChar(s, "Room#", '#');
    assert StartsWith(s, "Lab");
  }

  /** `LabN` is read as column N+10. */
  lemma LabTextParses(n: nat)
    requires n <= IntMax
    ensures ParseRoom("Lab" + NatToString(n)) == Some(n + 10)
  {
    LabTextShape(NatToString(n));
    StoiOfDigits(n);
  }

  /** `headerData(section, orientation, role)`: None for any role but display; a
      horizontal header reads `Room #n` for the first eleven columns and `Labn` after;
      a vertical header reads `Day n`, both counting from 1. */
  function HeaderData(section: int, horizontal: bool, displayRole: bool): (r: Option<string>)
    ensures r.Some? <==> displayRole
  {
    if !displayRole then None
    else if horizontal then
      if section < 11 then Some("Room #" + IntToString(section + 1))
      else Some("Lab" + IntToString(section - 10))
    else Some("Day " + IntToString(section + 1))
  }

  /** A lab column's header, read as a room text, names that same column. */
  lemma LabHeaderRoundTrip(c: int)
    requires 11 <= c < MaxRooms
    ensures ParseRoom(HeaderData(c, true, true).value) == Some(c)
  {
    LabTextParses(c - 10);
  }

  /** A room column's header shows the number whose `Room#` text is read as that
      column; the header itself, with its space before `#`, is no room text at all. */
  lemma RoomHeaderColumn(c: int)
    requires 0 <= c < 11
    ensures HeaderData(c, true, true).value == "Room #" + NatToString(c + 1)
    ensures ParseRoom("Room#" + NatToString(c + 1)) == Some(c)
    ensures ParseRoom(HeaderData(c, true, true).value) == None
  {
    RoomTextParses(c + 1);
    RoomHeaderNotRoomText(NatToString(c + 1));
  }

  /** `Room #` followed by digits matches neither room format. */
  lemma RoomHeaderNotRoomText(digits: string)
    requires AllDigits(digits)
    ensures ParseRoom("Room #" + digits) == None
  {
    var s := "Room #" + digits;
    assert forall i | 6 <= i < |s| :: s[i] == digits[i - 6];
    assert 'L' !in s;
    NotContainsMissingChar(s, "Lab", 'L');
    assert s[6..] == digits;
    assert '#' !in digits;
    NotContainsMissingChar(digits, "Room#", '#');
    NotContainsStep(s[5..], "Room#");
    NotContainsStep(s[4..], "Room#");
    NotContainsStep(s[3..], "Room#");
    NotContainsStep(s[2..], "Room#");
    NotContainsStep(s[1..], "Room#");
    assert !StartsWith(s, "Room#") by {
      assert s[4] == ' ';
    }
  }

  /** A day row's header shows the day number that a line needs to land in that row. */
  lemma DayHeaderRow(r: int)
    requires 0 <= r < MaxDays
    ensures HeaderData(r, false, true).value == "Day " + NatToString(r + 1)
    ensures Stoi(NatToString(r + 1)) == Some(r + 1)
  {
    StoiOfNatToString(r + 1, "");
    assert NatToString(r + 1) + "" == NatToString(r + 1);
  }

  // ---------------------------------------------------------------------------
  // Cell text

  /** `data(index, role)` for the cell at `row`, `col`: None for an index outside the
      grid or a role other than display; `Empty` for a cell without a course; otherwise
      the course id, the roll range and `Students: n` on three lines. */
  function Data(g: Grid, row: int, col: int, displayRole: bool): (r: Option<string>)
    requires Shaped(g)
    ensures r.Some? <==> displayRole && InGrid(row, col)
    ensures r.Some? ==> (r.value == "Empty" <==> g[row][col].courseId == "")
  {
    if !displayRole || !InGrid(row, col) then None
    else
      var s := g[row][col];
      if s.courseId == "" then Some("Empty")
      else
        var t := s.courseId + "\n" + s.rolls + "\nStudents: " + IntToString(s.students);
        assert |t| != |"Empty"|;
        Some(t)
  }

  /** The student count line holds no newline. */
  lemma CountTextOneLine(students: int)
    ensures '\n' !in "Students: " + IntToString(students)
  {
    var count := "Students: " + IntToString(students);
    var n := IntToString(students);
    assert forall i | 10 <= i < |count| :: count[i] == n[i - 10];
    if students < 0 {
      assert forall i | 1 <= i < |n| :: n[i] == NatToString(-students)[i - 1];
    }
  }

  /** The text of a filled cell splits at its newlines into the course id, the roll
      range and the student count. */
  lemma DataLines(g: Grid, row: int, col: int)
    requires Shaped(g) && InGrid(row, col)
    requires g[row][col].courseId != ""
    requires '\n' !in g[row][col].courseId && '\n' !in g[row][col].rolls
    ensures Split(Data(g, row, col, true).value, '\n') ==
      [g[row][col].courseId, g[row][col].rolls, "Students: " + IntToString(g[row][col].students)]
  {
    var s := g[row][col];
    var count := "Students: " + IntToString(s.students);
    CountTextOneLine(s.students);
    var parts := [s.courseId, s.rolls, count];
    assert Join(parts, '\n') == Data(g, row, col, true).value by {
      JoinCons(s.courseId, [s.rolls, count], '\n');
      JoinCons(s.rolls, [count], '\n');
      assert [s.courseId] + [s.rolls, count] == parts;
    }
    assert NoneContains(parts, '\n');
    SplitJoin(parts, '\n');
  }

  // ---------------------------------------------------------------------------
  // The generator's sample in the grid

  /** Tokens whose day, room and count fields read as numbers give a placement. */
  lemma ParseTokensOf(fs: seq<string>, day: int, room: int, count: int)
    requires |fs| >= 7
    requires Stoi(fs[1]) == Some(day) && ParseRoom(fs[5]) == Some(room)
    requires Stoi(PrefixBefore(fs[6], '/')) == Some(count)
    ensures PlacedAt(ParseTokens(fs), day - 1, room, Slot(fs[3], fs[4], "", count))
  {
  }

  /** The count before `/55` reads back. */
  lemma OccupancyParses(occupancy: nat)
    requires occupancy <= IntMax
    ensures Stoi(PrefixBefore(NatToString(occupancy) + "/55", '/')) == Some(occupancy)
  {
    var occ := NatToString(occupancy);
    var t := occ + "/55";
    assert PrefixBefore(t, '/') == occ by {
      assert '/' !in occ by {
        assert forall i | 0 <= i < |occ| :: IsDigit(occ[i]);
      }
      assert t == occ + ['/'] + "55";
      IndexOfAfterPrefix(occ, '/', "55");
      assert t[..|occ|] == occ;
    }
    StoiOfDigits(occupancy);
  }

  /** A well-formed session string is not empty and its tokens are its seven fields. */
  lemma SessionTokens(s: Timetable.Session)
    requires Timetable.WellFormedSession(s)
    ensures Timetable.Encode(s) != ""
    ensures GetlineTokens(Timetable.Encode(s), ',') == Timetable.SessionFields(s)
  {
    var fs := Timetable.SessionFields(s);
    JoinCons(fs[0], fs[1..], ',');
    assert fs == [fs[0]] + fs[1..];
    GetlineTokensOfJoin(fs, ',');
  }

  lemma DayFieldParses(s: Timetable.Session)
    requires s.dayNum <= IntMax
    ensures Stoi(Timetable.SessionFields(s)[1]) == Some(s.dayNum)
  {
    assert Timetable.SessionFields(s)[1] == NatToString(s.dayNum);
    StoiOfDigits(s.dayNum);
  }

  lemma RoomFieldParses(s: Timetable.Session, n: nat)
    requires s.room == Timetable.Room(n) && n <= IntMax
    ensures ParseRoom(Timetable.SessionFields(s)[5]) == Some(n - 1)
  {
    assert Timetable.SessionFields(s)[5] == Timetable.Room(n);
    RoomTextParses(n);
  }

  lemma OccupancyFieldParses(s: Timetable.Session)
    requires s.occupancy <= IntMax
    ensures Stoi(PrefixBefore(Timetable.SessionFields(s)[6], '/')) == Some(s.occupancy)
  {
    assert Timetable.SessionFields(s)[6] == NatToString(s.occupancy) + "/55";
    OccupancyParses(s.occupancy);
  }

  /** The fields of a session with room `Room#n` read as day `dayNum`, column `n - 1`
      and its occupancy. */
  lemma SessionFieldsParse(s: Timetable.Session, n: nat)
    requires s.room == Timetable.Room(n)
    requires s.dayNum <= IntMax && n <= IntMax && s.occupancy <= IntMax
    ensures PlacedAt(ParseTokens(Timetable.SessionFields(s)), s.dayNum - 1, n - 1,
      Slot(s.courseId, s.rolls, "", s.occupancy))
  {
    DayFieldParses(s);
    RoomFieldParses(s, n);
    OccupancyFieldParses(s);
    ParseTokensOf(Timetable.SessionFields(s), s.dayNum, n - 1, s.occupancy);
  }

  /** A well-formed session string whose room is `Room#n` lands in row `dayNum - 1`,
      column `n - 1`, carrying its course id, roll range and occupancy. */
  lemma ParseLineOfSession(s: Timetable.Session, n: nat)
    requires Timetable.WellFormedSession(s)
    requires s.room == Timetable.Room(n)
    requires s.dayNum <= IntMax && n <= IntMax && s.occupancy <= IntMax
    ensures PlacedAt(ParseLine(Timetable.Encode(s)), s.dayNum - 1, n - 1,
      Slot(s.courseId, s.rolls, "", s.occupancy))
  {
    SessionTokens(s);
    SessionFieldsParse(s, n);
  }

  /** Every sample session of the generator meets the conditions under which a
      session string is read back: it is well formed, its room is `Room#n`, and its day
      and room numbers name a cell inside the grid. */
  lemma FixedSessionsReadable(k: nat)
    requires k < 11
    ensures var s := Timetable.FixedSessions()[k];
      && Timetable.WellFormedSession(s)
      && s.room == Timetable.Room(Timetable.SampleRooms[k])
      && s.dayNum <= IntMax && Timetable.SampleRooms[k] <= IntMax && s.occupancy <= IntMax
      && InGrid(s.dayNum as int - 1, Timetable.SampleRooms[k] as int - 1)
  {
    Timetable.SampleTablesBounded(k);
    Timetable.FixedSessionFields(k);
  }

  /** A session for day 0 or for `Room#0` is read with index -1. The upper-bound-only
      guard admits it although the grid has no row or column -1; the guard with both
      bounds skips the line and leaves the grid as it was. */
  lemma AsWrittenGuardAdmitsZero(g: Grid, s: Timetable.Session, n: nat)
    requires Shaped(g)
    requires Timetable.WellFormedSession(s) && s.room == Timetable.Room(n)
    requires s.dayNum <= MaxDays && n <= MaxRooms && s.occupancy <= IntMax
    requires s.dayNum == 0 || n == 0
    ensures var p := ParseLine(Timetable.Encode(s));
      && p.Some?
      && (p.value.day == -1 || p.value.room == -1)
      && AsWrittenGuard(p.value.day, p.value.room)
      && !InGrid(p.value.day, p.value.room)
    ensures Put(g, ParseLine(Timetable.Encode(s))) == g
  {
    ParseLineOfSession(s, n);
    SkippedLineKeepsGrid(g, ParseLine(Timetable.Encode(s)));
  }

  /** The first sample session moved to day 0. */
  const DayZeroSession: Timetable.Session :=
    Timetable.Session("Friday", 0, Timetable.JanuaryDate(2), "ML101", Timetable.Rolls(1, 85), Timetable.Room(1), 55)

  /** The session written `Friday,0,02-01-2026,ML101,CT-24001 to CT-24085,Room#1,55/55`
      meets the conditions of the lemma above, with day 0 and room 1. */
  lemma DayZeroSessionQualifies()
    ensures Timetable.WellFormedSession(DayZeroSession)
    ensures DayZeroSession.room == Timetable.Room(1) && DayZeroSession.dayNum == 0
  {
    var s := DayZeroSession;
    Timetable.NatToStringCommaFree(0);
    Timetable.NatToStringCommaFree(55);
    assert ',' !in "Friday" && ',' !in "ML101" && ',' !in "/55";
    assert Timetable.WellFormedSession(s);
  }
}
