/** The string operations the exam-manager sources use, stated over `seq<char>`:
    `std::string::find` of one character, `substr`, splitting on a delimiter,
    `std::to_string` / `QString::arg` of an integer, and `std::stoi`. */
module Text {
  import opened Wrappers

  /** Range of the C++ `int` that `std::stoi` returns. */
  const IntMin: int := -0x8000_0000
  const IntMax: int := 0x7FFF_FFFF

  predicate IsDigit(c: char) {
    '0' <= c <= '9'
  }

  predicate AllDigits(s: string) {
    forall i :: 0 <= i < |s| ==> IsDigit(s[i])
  }

  /** The characters `isspace` accepts in the C locale (what `strtol` skips). */
  predicate IsSpace(c: char) {
    c == ' ' || c == '\t' || c == '\n' || c == '\U{0B}' || c == '\U{0C}' || c == '\r'
  }

  function DigitChar(d: nat): (c: char)
    requires d < 10
    ensures IsDigit(c)
  {
    (48 + d) as char
  }

  function DigitValue(c: char): (d: nat)
    requires IsDigit(c)
    ensures d < 10 && DigitChar(d) == c
  {
    (c as int) - 48
  }

  /** Decimal digits of `n`, most significant first, with no leading zero: what
      `std::to_string` and `QString::arg` print for a non-negative integer. */
  function NatToString(n: nat): (s: string)
    ensures 1 <= |s| && AllDigits(s)
    ensures |s| == 1 <==> n < 10
    ensures n >= 10 ==> s[0] != '0'
    decreases n
  {
    if n < 10 then [DigitChar(n)] else NatToString(n / 10) + [DigitChar(n % 10)]
  }

  /** Decimal text of any integer, with a leading '-' when it is negative. */
  function IntToString(i: int): (s: string)
    ensures 1 <= |s|
    ensures i < 0 <==> s[0] == '-'
  {
    if i < 0 then "-" + NatToString(-i) else NatToString(i)
  }

  /** The number a run of decimal digits denotes. */
  function DigitsValue(s: string): nat
    requires AllDigits(s)
  {
    if |s| == 0 then 0 else DigitsValue(s[..|s| - 1]) * 10 + DigitValue(s[|s| - 1])
  }

  /** Reading back what `NatToString` printed gives the number again. */
  lemma {:induction false} DigitsValueOfNatToString(n: nat)
    ensures DigitsValue(NatToString(n)) == n
    decreases n
  {
    if n >= 10 {
      var s := NatToString(n / 10);
      DigitsValueOfNatToString(n / 10);
      assert (s + [DigitChar(n % 10)])[..|s|] == s;
    }
  }

  /** `NatToString` never prints the same text for two numbers. */
  lemma NatToStringInjective(m: nat, n: nat)
    requires NatToString(m) == NatToString(n)
    ensures m == n
  {
    DigitsValueOfNatToString(m);
    DigitsValueOfNatToString(n);
  }

  /** Numbers below 1000 print with at most three digits. */
  lemma NatToStringShort(n: nat)
    requires n < 1000
    ensures |NatToString(n)| <= 3
  {
    if n >= 10 {
      assert |NatToString(n / 10)| <= 2 by {
        if n / 10 >= 10 {
          assert n / 100 < 10;
        }
      }
    }
  }

  /** `std::string(n, c)`: `n` copies of `c`. */
  function Repeat(c: char, n: nat): (s: string)
    ensures |s| == n
    ensures forall i | 0 <= i < n :: s[i] == c
    decreases n
  {
    if n == 0 then "" else [c] + Repeat(c, n - 1)
  }

  /** Leading zeros do not change the number a digit run denotes. */
  lemma {:induction false} DigitsValueLeadingZero(s: string)
    requires AllDigits(s)
    ensures AllDigits("0" + s) && DigitsValue("0" + s) == DigitsValue(s)
    decreases |s|
  {
    if |s| > 0 {
      var t := "0" + s;
      assert t[..|t| - 1] == "0" + s[..|s| - 1];
      DigitsValueLeadingZero(s[..|s| - 1]);
    }
  }

  lemma {:induction false} DigitsValueZeros(n: nat, s: string)
    requires AllDigits(s)
    ensures AllDigits(Repeat('0', n) + s) && DigitsValue(Repeat('0', n) + s) == DigitsValue(s)
    decreases n
  {
    if n > 0 {
      DigitsValueZeros(n - 1, s);
      assert Repeat('0', n) + s == "0" + (Repeat('0', n - 1) + s);
      DigitsValueLeadingZero(Repeat('0', n - 1) + s);
    } else {
      assert Repeat('0', n) + s == s;
    }
  }

  // ---------------------------------------------------------------------------
  // Searching and slicing

  /** `s.find(c)`: the first position of `c`, or None for `npos`. */
  function IndexOf(s: string, c: char): (r: Option<nat>)
    ensures r.None? <==> c !in s
    ensures r.Some? ==> r.value < |s| && s[r.value] == c && c !in s[..r.value]
  {
    if |s| == 0 then None
    else if s[0] == c then Some(0)
    else match IndexOf(s[1..], c)
      case None => None
      case Some(i) =>
        assert s[..i + 1] == [s[0]] + s[1..][..i];
        Some(i + 1)
  }

  /** The first occurrence of `c` in `a + [c] + b` is right after `a` when `a` has none. */
  lemma IndexOfAfterPrefix(a: string, c: char, b: string)
    requires c !in a
    ensures IndexOf(a + [c] + b, c) == Some(|a|)
  {
    var s := a + [c] + b;
    assert s[|a|] == c;
    assert s[..|a|] == a;
  }

  /** `s.substr(0, s.find(c))`: everything before the first `c`, or all of `s`. */
  function PrefixBefore(s: string, c: char): (r: string)
    ensures c !in r
    ensures r <= s
    ensures c !in s ==> r == s
  {
    match IndexOf(s, c)
    case None => s
    case Some(i) => s[..i]
  }

  /** `s.substr(pos, count)`, for a `pos` that does not make it throw. */
  function Substr(s: string, pos: nat, count: nat): (r: string)
    requires pos <= |s|
    ensures |r| <= count
    ensures r == s[pos..if pos + count <= |s| then pos + count else |s|]
  {
    if pos + count <= |s| then s[pos..pos + count] else s[pos..]
  }

  /** Whether `pat` occurs in `s` at position 0. */
  predicate StartsWith(s: string, pat: string) {
    |pat| <= |s| && s[..|pat|] == pat
  }

  /** `s.find(pat) != npos`. */
  predicate Contains(s: string, pat: string)
    decreases |s|
  {
    StartsWith(s, pat) || (|s| > 0 && Contains(s[1..], pat))
  }

  /** A string that has a character `pat` lacks at every position cannot contain `pat`
      when that character is missing from `s` too. */
  lemma {:induction false} NotContainsMissingChar(s: string, pat: string, c: char)
    requires c in pat && c !in s
    ensures !Contains(s, pat)
    decreases |s|
  {
    var k :| 0 <= k < |pat| && pat[k] == c;
    if |pat| <= |s| {
      assert s[..|pat|][k] == s[k] != c;
    }
    if |s| > 0 {
      assert c !in s[1..] by {
        forall k | 0 <= k < |s[1..]| ensures s[1..][k] != c {
          assert s[1..][k] == s[k + 1];
        }
      }
      NotContainsMissingChar(s[1..], pat, c);
    }
  }

  /** An occurrence of `pat` inside `b` is an occurrence inside `a + b`. */
  lemma {:induction false} ContainsInSuffix(a: string, b: string, pat: string)
    requires Contains(b, pat)
    ensures Contains(a + b, pat)
    decreases |a|
  {
    if |a| > 0 {
      ContainsInSuffix(a[1..], b, pat);
      assert (a + b)[1..] == a[1..] + b;
    } else {
      assert a + b == b;
    }
  }

  /** An occurrence of `pat` lies within `s`: `s` is at least as long and holds every
      character of `pat`. */
  lemma {:induction false} ContainsBounds(s: string, pat: string)
    requires Contains(s, pat)
    ensures |pat| <= |s|
    ensures forall c | c in pat :: c in s
    decreases |s|
  {
    if StartsWith(s, pat) {
      forall c | c in pat ensures c in s {
        var k :| 0 <= k < |pat| && pat[k] == c;
        assert s[..|pat|][k] == s[k];
      }
    } else {
      ContainsBounds(s[1..], pat);
      forall c | c in pat ensures c in s {
        var k :| 0 <= k < |s[1..]| && s[1..][k] == c;
        assert s[k + 1] == c;
      }
    }
  }

  /** `pat` does not occur in `s` when it does not start there nor anywhere later. */
  lemma NotContainsStep(s: string, pat: string)
    requires |s| > 0 && |pat| > 0 && s[0] != pat[0]
    requires !Contains(s[1..], pat)
    ensures !Contains(s, pat)
  {
  }

  /** A string that starts with `pat` contains it. */
  lemma ContainsPrefix(s: string, pat: string)
    requires StartsWith(s, pat)
    ensures Contains(s, pat)
  {
  }

  // ---------------------------------------------------------------------------
  // Splitting and joining on a delimiter

  /** `parts` glued together with `sep` between neighbours. */
  function Join(parts: seq<string>, sep: char): string {
    if |parts| == 0 then ""
    else if |parts| == 1 then parts[0]
    else parts[0] + [sep] + Join(parts[1..], sep)
  }

  /** The pieces of `s` between occurrences of `sep`; always at least one piece. */
  function Split(s: string, sep: char): (r: seq<string>)
    ensures |r| >= 1
    ensures forall k :: 0 <= k < |r| ==> sep !in r[k]
    decreases |s|
  {
    match IndexOf(s, sep)
    case None => [s]
    case Some(i) => [s[..i]] + Split(s[i + 1..], sep)
  }

  predicate NoneContains(parts: seq<string>, c: char) {
    forall k :: 0 <= k < |parts| ==> c !in parts[k]
  }

  /** Splitting a joined list gives the list back when no piece holds the delimiter. */
  lemma {:induction false} SplitJoin(parts: seq<string>, sep: char)
    requires |parts| >= 1 && NoneContains(parts, sep)
    ensures Split(Join(parts, sep), sep) == parts
    decreases |parts|
  {
    if |parts| > 1 {
      var rest := Join(parts[1..], sep);
      IndexOfAfterPrefix(parts[0], sep, rest);
      var s := parts[0] + [sep] + rest;
      assert s[..|parts[0]|] == parts[0];
      assert s[|parts[0]| + 1..] == rest;
      SplitJoin(parts[1..], sep);
    }
  }

  /** Joining the pieces of a split gives the text back. */
  lemma {:induction false} JoinSplit(s: string, sep: char)
    ensures Join(Split(s, sep), sep) == s
    decreases |s|
  {
    match IndexOf(s, sep)
    case None =>
    case Some(i) =>
      JoinSplit(s[i + 1..], sep);
      JoinCons(s[..i], Split(s[i + 1..], sep), sep);
      assert s == s[..i] + [sep] + s[i + 1..];
  }

  /** Join of a two-piece head and a tail, seen from the front. */
  lemma JoinCons(p: string, parts: seq<string>, sep: char)
    requires |parts| >= 1
    ensures Join([p] + parts, sep) == p + [sep] + Join(parts, sep)
  {
    assert ([p] + parts)[1..] == parts;
  }

  /** The tokens `while (std::getline(ss, token, sep))` collects: the split pieces,
      except that a trailing empty piece is never produced (so "" gives none). */
  function GetlineTokens(s: string, sep: char): (r: seq<string>)
    ensures forall k :: 0 <= k < |r| ==> sep !in r[k]
  {
    var parts := Split(s, sep);
    if parts[|parts| - 1] == "" then parts[..|parts| - 1] else parts
  }

  /** getline keeps every piece of a text that does not end with the delimiter. */
  lemma GetlineTokensOfJoin(parts: seq<string>, sep: char)
    requires |parts| >= 1 && NoneContains(parts, sep) && parts[|parts| - 1] != ""
    ensures GetlineTokens(Join(parts, sep), sep) == parts
  {
    SplitJoin(parts, sep);
    GetlineTokensOfSplit(Join(parts, sep), sep);
  }

  /** When the last piece of a split is not empty, getline keeps every piece. */
  lemma GetlineTokensOfSplit(s: string, sep: char)
    requires Split(s, sep)[|Split(s, sep)| - 1] != ""
    ensures GetlineTokens(s, sep) == Split(s, sep)
  {
  }

  // ---------------------------------------------------------------------------
  // std::stoi

  function TrimLeadingSpace(s: string): (t: string)
    ensures |t| <= |s| && t == s[|s| - |t|..]
    ensures |t| == 0 || !IsSpace(t[0])
  {
    if |s| > 0 && IsSpace(s[0]) then TrimLeadingSpace(s[1..]) else s
  }

  /** Length of the longest run of digits at the front of `s`. */
  function DigitPrefixLength(s: string): (n: nat)
    ensures n <= |s| && AllDigits(s[..n])
    ensures n == |s| || !IsDigit(s[n])
  {
    if |s| > 0 && IsDigit(s[0]) then
      var n := 1 + DigitPrefixLength(s[1..]);
      assert forall i :: 1 <= i < n ==> s[..n][i] == s[1..][..n - 1][i - 1];
      n
    else 0
  }

  /** The value of the digit run at the front of `s`; none when `s` does not start with
      a digit. */
  function LeadingNumber(s: string): (r: Option<nat>)
    ensures r.Some? <==> |s| > 0 && IsDigit(s[0])
  {
    var n := DigitPrefixLength(s);
    if n == 0 then None else Some(DigitsValue(s[..n]))
  }

  /** `std::stoi(s)` in base 10: leading white space, an optional sign, then at least
      one digit; anything after the digits is ignored. None stands for the exception
      it throws: `invalid_argument` when there is no digit, `out_of_range` when the
      value does not fit an `int`. */
  function Stoi(s: string): (r: Option<int>)
    ensures r.Some? ==> IntMin <= r.value <= IntMax
  {
    var t := TrimLeadingSpace(s);
    var negative := |t| > 0 && t[0] == '-';
    var body := if |t| > 0 && (t[0] == '-' || t[0] == '+') then t[1..] else t;
    match LeadingNumber(body)
    case None => None
    case Some(magnitude) =>
      var v: int := if negative then -(magnitude as int) else magnitude;
      if IntMin <= v <= IntMax then Some(v) else None
  }

  /** A digit run followed by a non-digit is measured exactly. */
  lemma {:induction false} DigitPrefixLengthOf(d: string, rest: string)
    requires AllDigits(d)
    requires |rest| == 0 || !IsDigit(rest[0])
    ensures DigitPrefixLength(d + rest) == |d|
    decreases |d|
  {
    if |d| > 0 {
      assert (d + rest)[1..] == d[1..] + rest;
      DigitPrefixLengthOf(d[1..], rest);
    } else {
      assert d + rest == rest;
    }
  }

  /** Text starting with a digit has no sign and no white space to skip, so `std::stoi`
      reads its leading digit run. */
  lemma StoiOfUnsigned(s: string)
    requires |s| > 0 && IsDigit(s[0])
    requires LeadingNumber(s).value <= IntMax
    ensures Stoi(s) == LeadingNumber(s)
  {
    TrimLeadingDigit(s);
  }

  /** Nothing is trimmed from text that starts with a digit. */
  lemma TrimLeadingDigit(s: string)
    requires |s| > 0 && IsDigit(s[0])
    ensures TrimLeadingSpace(s) == s
  {
  }

  /** `std::stoi` reads a run of digits at the front, whatever non-digit text follows. */
  lemma StoiOfDigits(d: string, rest: string)
    requires |d| > 0 && AllDigits(d) && DigitsValue(d) <= IntMax
    requires |rest| == 0 || !IsDigit(rest[0])
    ensures Stoi(d + rest) == Some(DigitsValue(d))
  {
    var s := d + rest;
    DigitPrefixLengthOf(d, rest);
    assert s[..|d|] == d;
    assert s[0] == d[0];
    assert LeadingNumber(s) == Some(DigitsValue(d));
    StoiOfUnsigned(s);
  }

  /** `std::stoi` reads back a printed non-negative int, whatever non-digit text follows. */
  lemma StoiOfNatToString(n: nat, rest: string)
    requires n <= IntMax
    requires |rest| == 0 || !IsDigit(rest[0])
    ensures Stoi(NatToString(n) + rest) == Some(n)
  {
    DigitsValueOfNatToString(n);
    StoiOfDigits(NatToString(n), rest);
  }

  /** `std::stoi` reads back any printed int. */
  lemma StoiOfIntToString(i: int)
    requires IntMin <= i <= IntMax
    ensures Stoi(IntToString(i)) == Some(i)
  {
    if i >= 0 {
      StoiOfNatToString(i, "");
      assert NatToString(i) + "" == NatToString(i);
    } else {
      var d := NatToString(-i);
      var s := "-" + d;
      assert TrimLeadingSpace(s) == s;
      assert s[1..] == d;
      DigitPrefixLengthOf(d, "");
      assert d + "" == d;
      assert d[..|d|] == d;
      DigitsValueOfNatToString(-i);
    }
  }

  // ---------------------------------------------------------------------------
  // Lines

  /** Every item followed by a newline, as a loop of `file << item << "\n"` writes them. */
  function Lines(items: seq<string>): string {
    if |items| == 0 then "" else items[0] + "\n" + Lines(items[1..])
  }

  /** Newline-terminated lines are the newline-join of the items and one empty tail. */
  lemma {:induction false} LinesAsJoin(items: seq<string>)
    ensures Lines(items) == Join(items + [""], '\n')
    decreases |items|
  {
    if |items| > 0 {
      LinesAsJoin(items[1..]);
      assert items + [""] == [items[0]] + (items[1..] + [""]);
      JoinCons(items[0], items[1..] + [""], '\n');
    }
  }
}
