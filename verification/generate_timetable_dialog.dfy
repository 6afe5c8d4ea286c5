/** `GenerateTimetableDialog`: asks for the first exam day as a `DD-MM-YYYY` string and
    accepts only a string of that shape naming a real Gregorian date. */
module DateDialog {
  import opened Wrappers
  import opened Text

  /** A calendar date; `Valid` says whether `QDate` would accept it. */
  datatype Date = Date(year: int, month: int, day: int)

  /** Gregorian leap years, which `QDate` applies to every year. */
  predicate IsLeap(year: int) {
    year % 4 == 0 && (year % 100 != 0 || year % 400 == 0)
  }

  function DaysInMonth(year: int, month: int): (n: int)
    requires 1 <= month <= 12
    ensures 28 <= n <= 31
    ensures month == 2 ==> (n == 29 <==> IsLeap(year))
  {
    if month == 2 then (if IsLeap(year) then 29 else 28)
    else if month == 4 || month == 6 || month == 9 || month == 11 then 30
    else 31
  }

  /** `QDate::isValid`: there is no year 0, the month is 1..12 and the day lies within
      the month. */
  predicate Valid(d: Date) {
    d.year != 0 && 1 <= d.month <= 12 && 1 <= d.day <= DaysInMonth(d.year, d.month)
  }

  // ---------------------------------------------------------------------------
  // The shape `^\d{2}-\d{2}-\d{4}$`

  /** Ten characters: two digits, `-`, two digits, `-`, four digits. `\d` is an ASCII
      digit here, as Unicode properties are not switched on. */
  predicate ExactShape(s: string) {
    |s| == 10 && s[2] == '-' && s[5] == '-'
    && AllDigits(s[0..2]) && AllDigits(s[3..5]) && AllDigits(s[6..10])
  }

  /** Whether the pattern finds a match: `$` matches at the very end and also before a
      final newline, so one trailing `\n` is let through. */
  predicate MatchesShape(s: string) {
    ExactShape(s) || (|s| == 11 && s[10] == '\n' && ExactShape(s[..10]))
  }

  /** `QDate::fromString(s, "dd-MM-yyyy")`: the date the three digit fields name, when
      it is valid. Text beyond the format, such as a trailing newline, makes the parse
      fail. */
  function FromString(s: string): (r: Option<Date>)
    ensures r.Some? ==> Valid(r.value)
  {
    if !ExactShape(s) then None
    else
      var d := Date(DigitsValue(s[6..10]), DigitsValue(s[3..5]), DigitsValue(s[0..2]));
      if Valid(d) then Some(d) else None
  }

  /** `validateDate(date)`: a string is accepted exactly when it has the exact
      ten-character shape and its day, month and year fields name a valid date. */
  function ValidateDate(s: string): (ok: bool)
    ensures ok ==> MatchesShape(s)
    ensures ok <==>
      ExactShape(s) && Valid(Date(DigitsValue(s[6..10]), DigitsValue(s[3..5]), DigitsValue(s[0..2])))
  {
    MatchesShape(s) && FromString(s).Some?
  }

  // ---------------------------------------------------------------------------
  // Printing a date

  /** `n` printed with zeros in front up to `width` digits. */
  function Pad(n: nat, width: nat): (s: string)
    requires |NatToString(n)| <= width
    ensures |s| == width && AllDigits(s) && DigitsValue(s) == n
  {
    var digits := NatToString(n);
    DigitsValueOfNatToString(n);
    DigitsValueZeros(width - |digits|, digits);
    Repeat('0', width - |digits|) + digits
  }

  /** Numbers below `10^k` print with at most `k` digits, for `k` of 2 and 4. */
  lemma NatToStringWidth(n: nat)
    ensures n < 100 ==> |NatToString(n)| <= 2
    ensures n < 10000 ==> |NatToString(n)| <= 4
  {
    if n >= 10 {
      NatToStringWidth(n / 10);
    }
  }

  /** Two digits, two digits and four digits joined with `-` have the exact shape, and
      the three fields sit where the parser looks for them. */
  lemma JoinedShape(dd: string, mm: string, yyyy: string)
    requires |dd| == 2 && |mm| == 2 && |yyyy| == 4
    requires AllDigits(dd) && AllDigits(mm) && AllDigits(yyyy)
    ensures ExactShape(dd + "-" + mm + "-" + yyyy)
    ensures var s := dd + "-" + mm + "-" + yyyy; s[0..2] == dd && s[3..5] == mm && s[6..10] == yyyy
  {
    var s := dd + "-" + mm + "-" + yyyy;
    assert s[0..2] == dd && s[3..5] == mm && s[6..10] == yyyy;
  }

  /** `date.toString("dd-MM-yyyy")` for a date the widget can hold. */
  function FormatDate(d: Date): (s: string)
    requires Valid(d) && 1 <= d.year <= 9999
    ensures ExactShape(s)
  {
    NatToStringWidth(d.day);
    NatToStringWidth(d.month);
    NatToStringWidth(d.year);
    JoinedShape(Pad(d.day, 2), Pad(d.month, 2), Pad(d.year, 4));
    Pad(d.day, 2) + "-" + Pad(d.month, 2) + "-" + Pad(d.year, 4)
  }

  /** Reading back a printed date gives the same date. */
  lemma FromStringOfFormat(d: Date)
    requires Valid(d) && 1 <= d.year <= 9999
    ensures FromString(FormatDate(d)) == Some(d)
    ensures ValidateDate(FormatDate(d))
  {
    NatToStringWidth(d.day);
    NatToStringWidth(d.month);
    NatToStringWidth(d.year);
    var dd, mm, yyyy := Pad(d.day, 2), Pad(d.month, 2), Pad(d.year, 4);
    JoinedShape(dd, mm, yyyy);
    assert FormatDate(d) == dd + "-" + mm + "-" + yyyy;
  }

  // ---------------------------------------------------------------------------
  // The dialog

  /** The earliest and latest dates a `QDateEdit` allows by default. */
  const MinWidgetDate: Date := Date(1752, 9, 14)
  const MaxWidgetDate: Date := Date(9999, 12, 31)

  /** The dates the date widget can hold: valid, and within its default range. */
  predicate WidgetDate(d: Date) {
    Valid(d) && MinWidgetDate.year <= d.year <= MaxWidgetDate.year
    && (d.year == MinWidgetDate.year ==>
          d.month > MinWidgetDate.month || (d.month == MinWidgetDate.month && d.day >= MinWidgetDate.day))
  }

  /** `getStartDate()`: the widget's date as `DD-MM-YYYY`. */
  function GetStartDate(widget: Date): (s: string)
    requires WidgetDate(widget)
    ensures ExactShape(s)
  {
    FormatDate(widget)
  }

  /** What pressing OK does: the dialog is accepted, or a warning is shown and the
      dialog stays open. */
  datatype Outcome = Accepted | Warned(message: string)

  const InvalidDateMessage: string := "Please enter a valid date in DD-MM-YYYY format\nExample: 15-01-2026"

  /** `onAccept()`: validates the string `getStartDate` returns. */
  function OnAccept(widget: Date): (o: Outcome)
    requires WidgetDate(widget)
    ensures o.Accepted? <==> ValidateDate(GetStartDate(widget))
    ensures o.Warned? ==> o.message == InvalidDateMessage
  {
    if ValidateDate(GetStartDate(widget)) then Accepted else Warned(InvalidDateMessage)
  }

  /** Any date the widget can hold is accepted: the warning cannot be reached. */
  lemma WidgetDateAccepted(widget: Date)
    requires WidgetDate(widget)
    ensures OnAccept(widget) == Accepted
  {
    FromStringOfFormat(widget);
  }

  // ---------------------------------------------------------------------------
  // Examples

  lemma ExampleDigits()
    ensures NatToString(1) == "1" && NatToString(15) == "15" && NatToString(2026) == "2026"
  {
    assert NatToString(15) == "15" by {
      assert NatToString(1) == "1";
    }
    assert NatToString(2026) == "2026" by {
      assert NatToString(2) == "2";
      assert NatToString(20) == "20";
      assert NatToString(202) == "202";
    }
  }

  lemma ExamplePads()
    ensures Pad(1, 2) == "01" && Pad(15, 2) == "15" && Pad(2026, 4) == "2026"
  {
    ExampleDigits();
    PadOfDigits(1, 2, "1");
    PadOfDigits(15, 2, "15");
    PadOfDigits(2026, 4, "2026");
    assert Repeat('0', 1) == "0";
  }

  /** `Pad` is the zeros followed by the printed number. */
  lemma PadOfDigits(n: nat, width: nat, digits: string)
    requires NatToString(n) == digits && |digits| <= width
    ensures Pad(n, width) == Repeat('0', width - |digits|) + digits
  {
  }

  /** 15 January 2026 prints as `15-01-2026`. */
  lemma ExampleFormat()
    ensures FormatDate(Date(2026, 1, 15)) == "15-01-2026"
  {
    ExamplePads();
  }

  /** The example the warning gives, 15 January 2026, is accepted. */
  lemma ExampleAccepted()
    ensures ValidateDate("15-01-2026")
    ensures FromString("15-01-2026") == Some(Date(2026, 1, 15))
  {
    ExampleFormat();
    FromStringOfFormat(Date(2026, 1, 15));
  }

  /** A trailing newline gets past the pattern but not past the date parser. */
  lemma TrailingNewlineRejected(s: string)
    requires ExactShape(s)
    ensures MatchesShape(s + "\n")
    ensures !ValidateDate(s + "\n")
  {
    assert (s + "\n")[..10] == s;
  }
}
