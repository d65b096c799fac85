/**
 * Calendar dates as Python's `datetime.date` holds them (proleptic Gregorian,
 * years 1 to 9999), the day count behind `date - date`, and the two text
 * conversions the task tracker uses: `strptime(s, '%d/%m/%Y')` for the due date
 * typed into the form and `strftime('%d/%m/%Y')` for the bounds of the list filter.
 */
module Calendar {
  import opened Wrappers

  datatype Date = Date(year: int, month: int, day: int)

  /** A month of a year, as given by the `from_/to_/stat_` query parameters. */
  datatype MonthYear = MonthYear(month: int, year: int)

  predicate IsLeapYear(y: int) {
    y % 4 == 0 && (y % 100 != 0 || y % 400 == 0)
  }

  function DaysInMonth(y: int, m: int): (n: int)
    requires 1 <= m <= 12
    ensures 28 <= n <= 31
    ensures n == 29 <==> m == 2 && IsLeapYear(y)
  {
    if m == 2 then (if IsLeapYear(y) then 29 else 28)
    else if m == 4 || m == 6 || m == 9 || m == 11 then 30
    else 31
  }

  predicate IsValidDate(d: Date) {
    1 <= d.year <= 9999 && 1 <= d.month <= 12 && 1 <= d.day <= DaysInMonth(d.year, d.month)
  }

  /** The dates Python can represent; every stored date is one. */
  type CalendarDate = d: Date | IsValidDate(d) witness Date(1, 1, 1)

  /** Days in the years before year `y`. */
  function DaysBeforeYear(y: int): int {
    var p := y - 1;
    p * 365 + p / 4 - p / 100 + p / 400
  }

  /** Days in the months of year `y` before month `m`. */
  function DaysBeforeMonth(y: int, m: int): int
    requires 1 <= m <= 12
  {
    [0, 31, 59, 90, 120, 151, 181, 212, 243, 273, 304, 334][m - 1]
    + (if m > 2 && IsLeapYear(y) then 1 else 0)
  }

  /** The ordinal of a date: 0001-01-01 is day 1 (`date.toordinal`). */
  function DayNumber(d: CalendarDate): int {
    DaysBeforeYear(d.year) + DaysBeforeMonth(d.year, d.month) + d.day
  }

  /** Calendar order: earlier year, then earlier month, then earlier day. */
  predicate Precedes(a: Date, b: Date) {
    a.year < b.year
    || (a.year == b.year && a.month < b.month)
    || (a.year == b.year && a.month == b.month && a.day < b.day)
  }

  lemma MonthStep(y: int, m: int)
    requires 1 <= m < 12
    ensures DaysBeforeMonth(y, m + 1) == DaysBeforeMonth(y, m) + DaysInMonth(y, m)
  {
  }

  /** From `p` to `p + 1` one more multiple of `k` is passed exactly when `k` divides `p + 1`. */
  lemma DivStep(p: int, k: int)
    requires k == 4 || k == 100 || k == 400
    ensures (p + 1) / k - p / k == if (p + 1) % k == 0 then 1 else 0
  {
    if k == 4 {
      assert (p + 1) / 4 - p / 4 == if (p + 1) % 4 == 0 then 1 else 0;
    } else if k == 100 {
      assert (p + 1) / 100 - p / 100 == if (p + 1) % 100 == 0 then 1 else 0;
    } else {
      assert (p + 1) / 400 - p / 400 == if (p + 1) % 400 == 0 then 1 else 0;
    }
  }

  lemma YearStep(y: int)
    ensures DaysBeforeYear(y + 1)
            == DaysBeforeYear(y) + DaysBeforeMonth(y, 12) + DaysInMonth(y, 12)
  {
    DivStep(y - 1, 4);
    DivStep(y - 1, 100);
    DivStep(y - 1, 400);
  }

  lemma {:induction false} MonthsBefore(y: int, m: int, n: int)
    requires 1 <= m < n <= 12
    ensures DaysBeforeMonth(y, m) + DaysInMonth(y, m) <= DaysBeforeMonth(y, n)
    decreases n - m
  {
    MonthStep(y, m);
    if m + 1 < n {
      MonthsBefore(y, m + 1, n);
    }
  }

  lemma {:induction false} YearsBefore(y: int, z: int)
    requires y < z
    ensures DaysBeforeYear(y) + DaysBeforeMonth(y, 12) + DaysInMonth(y, 12) <= DaysBeforeYear(z)
    decreases z - y
  {
    YearStep(y);
    if y + 1 < z {
      YearsBefore(y + 1, z);
      YearStep(y + 1);
    }
  }

  /** Within a year, a date's ordinal stays before the next year's first day. */
  lemma WithinYear(d: CalendarDate)
    ensures DayNumber(d) <= DaysBeforeYear(d.year) + DaysBeforeMonth(d.year, 12) + DaysInMonth(d.year, 12)
  {
    if d.month < 12 {
      MonthsBefore(d.year, d.month, 12);
    }
  }

  /** The ordinal orders dates exactly as the calendar does. */
  lemma {:induction false} DayNumberOrder(a: CalendarDate, b: CalendarDate)
    ensures DayNumber(a) < DayNumber(b) <==> Precedes(a, b)
    ensures DayNumber(a) == DayNumber(b) <==> a == b
  {
    if a.year < b.year {
      WithinYear(a);
      YearsBefore(a.year, b.year);
    } else if b.year < a.year {
      WithinYear(b);
      YearsBefore(b.year, a.year);
    } else if a.month < b.month {
      MonthsBefore(a.year, a.month, b.month);
    } else if b.month < a.month {
      MonthsBefore(b.year, b.month, a.month);
    }
  }

  /**
   * The day before `d` (`d - timedelta(days=1)`); None where Python raises
   * OverflowError, before 0001-01-01.
   */
  function PreviousDay(d: CalendarDate): (r: Option<CalendarDate>)
    ensures r.None? <==> d == Date(1, 1, 1)
    ensures r.Some? ==> DayNumber(r.value) == DayNumber(d) - 1
  {
    if d.day > 1 then Some(Date(d.year, d.month, d.day - 1))
    else if d.month > 1 then
      MonthStep(d.year, d.month - 1);
      Some(Date(d.year, d.month - 1, DaysInMonth(d.year, d.month - 1)))
    else if d.year > 1 then
      YearStep(d.year - 1);
      Some(Date(d.year - 1, 12, 31))
    else None
  }

  /** The day before the first of month `m + 1` is the last day of month `m`. */
  lemma DayBeforeFirst(y: int, m: int)
    requires 1 <= y <= 9999 && 0 <= m <= 11
    ensures PreviousDay(Date(y, m + 1, 1))
            == if m >= 1 then Some(Date(y, m, DaysInMonth(y, m)))
               else if y > 1 then Some(Date(y - 1, 12, 31))
               else None
  {
  }

  // ---- text conversions ----------------------------------------------------

  predicate IsDigit(c: char) {
    '0' <= c <= '9'
  }

  function DigitValue(c: char): (v: int)
    requires IsDigit(c)
    ensures 0 <= v <= 9
  {
    c as int - '0' as int
  }

  function Digit(n: int): (c: char)
    requires 0 <= n <= 9
    ensures IsDigit(c) && DigitValue(c) == n
  {
    ('0' as int + n) as char
  }

  predicate AllDigits(f: string) {
    forall i :: 0 <= i < |f| ==> IsDigit(f[i])
  }

  /** The number a run of ASCII digits spells, most significant digit first. */
  function DigitsValue(f: string): nat
    requires AllDigits(f)
    decreases |f|
  {
    if f == [] then 0 else 10 * DigitsValue(f[..|f| - 1]) + DigitValue(f[|f| - 1])
  }

  /** The value of a field of one or two digits, and of the digit after a leading space. */
  lemma DigitsShort(f: string)
    ensures |f| == 1 && AllDigits(f) ==> DigitsValue(f) == DigitValue(f[0])
    ensures |f| == 2 && AllDigits(f) ==> DigitsValue(f) == 10 * DigitValue(f[0]) + DigitValue(f[1])
    ensures |f| == 2 && IsDigit(f[1]) ==> AllDigits(f[1..]) && DigitsValue(f[1..]) == DigitValue(f[1])
  {
    if |f| == 1 && AllDigits(f) {
      assert f[..0] == [];
    }
    if |f| == 2 && AllDigits(f) {
      assert f[..1][..0] == [];
    }
    if |f| == 2 && IsDigit(f[1]) {
      assert f[1..][..0] == [];
    }
  }

  lemma DigitsFour(f: string)
    requires |f| == 4 && AllDigits(f)
    ensures DigitsValue(f) == 1000 * DigitValue(f[0]) + 100 * DigitValue(f[1]) + 10 * DigitValue(f[2]) + DigitValue(f[3])
  {
    assert f[..3][..2] == f[..2];
    DigitsShort(f[..2]);
  }

  /** `n` written with exactly two digits, as `%d` and `%m` print it. */
  function Pad2(n: int): (s: string)
    requires 0 <= n <= 99
    ensures |s| == 2 && IsDigit(s[0]) && IsDigit(s[1])
    ensures 10 * DigitValue(s[0]) + DigitValue(s[1]) == n
  {
    [Digit(n / 10), Digit(n % 10)]
  }

  /** `n` written with exactly four digits, as `%Y` prints it. */
  function Pad4(n: int): (s: string)
    requires 0 <= n <= 9999
    ensures |s| == 4 && IsDigit(s[0]) && IsDigit(s[1]) && IsDigit(s[2]) && IsDigit(s[3])
    ensures 1000 * DigitValue(s[0]) + 100 * DigitValue(s[1]) + 10 * DigitValue(s[2]) + DigitValue(s[3]) == n
  {
    Pad2(n / 100) + Pad2(n % 100)
  }

  /** `date.strftime('%d/%m/%Y')`. */
  function FormatDate(d: CalendarDate): (s: string)
    ensures |s| == 10 && s[2] == '/' && s[5] == '/'
    ensures s[..2] == Pad2(d.day) && s[3..5] == Pad2(d.month) && s[6..] == Pad4(d.year)
  {
    Pad2(d.day) + "/" + Pad2(d.month) + "/" + Pad4(d.year)
  }

  /** The position of the first `c` in `s`, if any. */
  function IndexOf(s: string, c: char): (r: Option<nat>)
    ensures r.Some? ==> r.value < |s| && s[r.value] == c && c !in s[..r.value]
    ensures r.None? ==> c !in s
  {
    if s == [] then None
    else if s[0] == c then Some(0)
    else match IndexOf(s[1..], c)
      case None => None
      case Some(i) => Some(i + 1)
  }

  /**
   * The day field of `%d`: the regular expression `3[01]|[12]\d|0[1-9]|[1-9]| [1-9]`
   * matched against the whole field.
   */
  function DayField(f: string): (r: Option<int>)
    ensures r.Some? <==>
              || ((|f| == 1 || |f| == 2) && AllDigits(f) && 1 <= DigitsValue(f) <= 31)
              || (|f| == 2 && f[0] == ' ' && IsDigit(f[1]) && f[1] != '0')
    ensures r.Some? && f[0] != ' ' ==> AllDigits(f) && r.value == DigitsValue(f)
    ensures r.Some? && f[0] == ' ' ==> AllDigits(f[1..]) && r.value == DigitsValue(f[1..])
    ensures r.Some? ==> 1 <= r.value <= 31
  {
    DigitsShort(f);
    if |f| == 1 && IsDigit(f[0]) && f[0] != '0' then Some(DigitValue(f[0]))
    else if |f| == 2 && f[0] == ' ' && IsDigit(f[1]) && f[1] != '0' then Some(DigitValue(f[1]))
    else if |f| == 2 && IsDigit(f[0]) && IsDigit(f[1])
            && 1 <= 10 * DigitValue(f[0]) + DigitValue(f[1]) <= 31
    then Some(10 * DigitValue(f[0]) + DigitValue(f[1]))
    else None
  }

  /** The month field of `%m`: `1[0-2]|0[1-9]|[1-9]` matched against the whole field. */
  function MonthField(f: string): (r: Option<int>)
    ensures r.Some? <==> (|f| == 1 || |f| == 2) && AllDigits(f) && 1 <= DigitsValue(f) <= 12
    ensures r.Some? ==> r.value == DigitsValue(f)
    ensures r.Some? ==> 1 <= r.value <= 12
  {
    DigitsShort(f);
    if |f| == 1 && IsDigit(f[0]) && f[0] != '0' then Some(DigitValue(f[0]))
    else if |f| == 2 && IsDigit(f[0]) && IsDigit(f[1])
            && 1 <= 10 * DigitValue(f[0]) + DigitValue(f[1]) <= 12
    then Some(10 * DigitValue(f[0]) + DigitValue(f[1]))
    else None
  }

  /** The year field of `%Y`: exactly four digits, with nothing left over after them. */
  function YearField(f: string): (r: Option<int>)
    ensures r.Some? <==> |f| == 4 && AllDigits(f)
    ensures r.Some? ==> r.value == DigitsValue(f)
    ensures r.Some? ==> 0 <= r.value <= 9999
  {
    if |f| == 4 && IsDigit(f[0]) && IsDigit(f[1]) && IsDigit(f[2]) && IsDigit(f[3])
    then DigitsFour(f); Some(1000 * DigitValue(f[0]) + 100 * DigitValue(f[1]) + 10 * DigitValue(f[2]) + DigitValue(f[3]))
    else None
  }

  /**
   * `datetime.strptime(s, '%d/%m/%Y').date()`, None where it raises ValueError.
   * No field can hold a '/', so the first two slashes split the text; the fields
   * must then match, and the date must exist (year 0 and the 31st of April do not).
   */
  function ParseDate(s: string): (r: Option<CalendarDate>)
    ensures r.Some? ==> 8 <= |s| <= 10 && s[|s| - 5] == '/' && YearField(s[|s| - 4..]) == Some(r.value.year)
  {
    match IndexOf(s, '/')
    case None => None
    case Some(i) =>
      var rest := s[i + 1..];
      match IndexOf(rest, '/')
      case None => None
      case Some(j) =>
        match (DayField(s[..i]), MonthField(rest[..j]), YearField(rest[j + 1..]))
        case (Some(d), Some(m), Some(y)) =>
          if IsValidDate(Date(y, m, d)) then Some(Date(y, m, d)) else None
        case _ => None
  }

  /**
   * What the regular expression strptime builds from '%d/%m/%Y' accepts as `d`:
   * a day field, '/', a month field, '/', a year field, and nothing after it.
   */
  predicate Spells(s: string, d: Date) {
    exists i, j :: 0 <= i < j < |s| && s[i] == '/' && s[j] == '/'
      && DayField(s[..i]) == Some(d.day) && MonthField(s[i + 1..j]) == Some(d.month)
      && YearField(s[j + 1..]) == Some(d.year)
  }

  lemma IndexOfIs(s: string, c: char, i: int)
    requires 0 <= i < |s| && s[i] == c
    requires forall m :: 0 <= m < i ==> s[m] != c
    ensures IndexOf(s, c) == Some(i)
  {
  }

  /** No field reader accepts a '/'. */
  lemma FieldsHoldNoSlash(f: string)
    ensures DayField(f).Some? || MonthField(f).Some? || YearField(f).Some? ==> '/' !in f
  {
    if '/' in f {
      var k :| 0 <= k < |f| && f[k] == '/';
      assert !IsDigit(f[k]);
    }
  }

  lemma ParsedIsSpelled(s: string)
    requires ParseDate(s).Some?
    ensures Spells(s, ParseDate(s).value)
  {
    var i := IndexOf(s, '/').value;
    var rest := s[i + 1..];
    var j := IndexOf(rest, '/').value;
    var k := i + 1 + j;
    assert rest[..j] == s[i + 1..k];
    assert rest[j + 1..] == s[k + 1..];
    assert s[k] == rest[j];
    var d := ParseDate(s).value;
    assert DayField(s[..i]) == Some(d.day);
    assert MonthField(rest[..j]) == Some(d.month);
    assert YearField(rest[j + 1..]) == Some(d.year);
  }

  /** The first '/' is at `i` when none comes before it. */
  lemma FirstSlashAt(s: string, i: int)
    requires 0 <= i < |s| && s[i] == '/' && '/' !in s[..i]
    ensures IndexOf(s, '/') == Some(i)
  {
    assert forall m :: 0 <= m < i ==> s[m] != '/' by {
      forall m | 0 <= m < i
        ensures s[m] != '/'
      {
        assert s[m] == s[..i][m];
      }
    }
    IndexOfIs(s, '/', i);
  }

  /** After the slash at `i`, the next '/' is at `j` when none comes between them. */
  lemma NextSlashAt(s: string, i: int, j: int)
    requires 0 <= i < j < |s| && s[j] == '/' && '/' !in s[i + 1..j]
    ensures IndexOf(s[i + 1..], '/') == Some(j - i - 1)
  {
    var rest, k := s[i + 1..], j - i - 1;
    assert forall m :: 0 <= m < k ==> rest[m] != '/' by {
      forall m | 0 <= m < k
        ensures rest[m] != '/'
      {
        assert rest[m] == s[i + 1..j][m];
      }
    }
    IndexOfIs(rest, '/', k);
  }

  lemma SpelledIsParsed(s: string, d: Date)
    requires IsValidDate(d) && Spells(s, d)
    ensures ParseDate(s) == Some(d)
  {
    var i, j :| 0 <= i < j < |s| && s[i] == '/' && s[j] == '/'
      && DayField(s[..i]) == Some(d.day) && MonthField(s[i + 1..j]) == Some(d.month)
      && YearField(s[j + 1..]) == Some(d.year);
    FieldsHoldNoSlash(s[..i]);
    FieldsHoldNoSlash(s[i + 1..j]);
    FirstSlashAt(s, i);
    NextSlashAt(s, i, j);
    ParseAtSlashes(s, i, j, d.day, d.month, d.year);
    assert d == Date(d.year, d.month, d.day);
  }

  /** With the two slashes found, the parse is the date the three fields spell, if it exists. */
  lemma ParseAtSlashes(s: string, i: int, j: int, day: int, month: int, year: int)
    requires 0 <= i < j < |s|
    requires IndexOf(s, '/') == Some(i) && IndexOf(s[i + 1..], '/') == Some(j - i - 1)
    requires DayField(s[..i]) == Some(day) && MonthField(s[i + 1..j]) == Some(month)
    requires YearField(s[j + 1..]) == Some(year)
    ensures ParseDate(s) == if IsValidDate(Date(year, month, day)) then Some(Date(year, month, day)) else None
  {
    var rest := s[i + 1..];
    assert rest[..j - i - 1] == s[i + 1..j];
    assert rest[j - i..] == s[j + 1..];
  }

  /**
   * Splitting at the first two slashes is the regular expression's match: the
   * parse returns `d` exactly when `s` spells `d` and `d` is a real date.
   */
  lemma ParseDateIsMatch(s: string, d: Date)
    ensures ParseDate(s).Some? && ParseDate(s).value == d <==> IsValidDate(d) && Spells(s, d)
  {
    if ParseDate(s).Some? {
      ParsedIsSpelled(s);
    }
    if IsValidDate(d) && Spells(s, d) {
      SpelledIsParsed(s, d);
    }
  }

  lemma PadTwoDigits(f: string)
    requires |f| == 2 && AllDigits(f)
    ensures DigitsValue(f) <= 99 && Pad2(DigitsValue(f)) == f
  {
    DigitsShort(f);
    var n := DigitsValue(f);
    assert n / 10 == DigitValue(f[0]) && n % 10 == DigitValue(f[1]);
  }

  lemma PadFourDigits(f: string)
    requires |f| == 4 && AllDigits(f)
    ensures DigitsValue(f) <= 9999 && Pad4(DigitsValue(f)) == f
  {
    DigitsFour(f);
    PadTwoDigits(f[..2]);
    PadTwoDigits(f[2..]);
    DigitsShort(f[..2]);
    DigitsShort(f[2..]);
    var n := DigitsValue(f);
    assert n / 100 == DigitsValue(f[..2]) && n % 100 == DigitsValue(f[2..]);
    assert f == f[..2] + f[2..];
  }

  /** Fields of lengths 2, 2 and 4, the day not starting with a space, are strftime's own. */
  lemma PrintedFields(s: string, d: CalendarDate)
    requires |s| == 10 && s[0] != ' ' && s[2] == '/' && s[5] == '/'
    requires DayField(s[..2]) == Some(d.day) && MonthField(s[3..5]) == Some(d.month)
    requires YearField(s[6..]) == Some(d.year)
    ensures FormatDate(d) == s
  {
    assert s[..2][0] == s[0];
    PadTwoDigits(s[..2]);
    PadTwoDigits(s[3..5]);
    PadFourDigits(s[6..]);
    assert s == s[..2] + "/" + s[3..5] + "/" + s[6..];
  }

  /**
   * The other round trip: a ten-character text strptime accepts, not starting
   * with a space, is exactly how strftime prints the date it reads.
   */
  lemma FormatParse(s: string, d: CalendarDate)
    requires ParseDate(s) == Some(d) && |s| == 10 && s[0] != ' '
    ensures FormatDate(d) == s
  {
    ParsedIsSpelled(s);
    var i, j :| 0 <= i < j < |s| && s[i] == '/' && s[j] == '/'
      && DayField(s[..i]) == Some(d.day) && MonthField(s[i + 1..j]) == Some(d.month)
      && YearField(s[j + 1..]) == Some(d.year);
    assert |s[..i]| <= 2 && |s[i + 1..j]| <= 2 && |s[j + 1..]| == 4;
    PrintedFields(s, d);
  }

  lemma FirstSlashAtTwo(s: string)
    requires |s| >= 3 && s[0] != '/' && s[1] != '/' && s[2] == '/'
    ensures IndexOf(s, '/') == Some(2)
  {
    assert s[2] in s;
  }

  /** Reading back a formatted date gives the date. */
  lemma ParseFormat(d: CalendarDate)
    ensures ParseDate(FormatDate(d)) == Some(d)
  {
    var s := FormatDate(d);
    FirstSlashAtTwo(s);
    var rest := s[3..];
    FirstSlashAtTwo(rest);
    assert s[..2] == Pad2(d.day);
    assert rest[..2] == Pad2(d.month);
    assert rest[3..] == Pad4(d.year);
  }

  /** strptime reads the form's example due date as 25 December 2025. */
  lemma ParseExample()
    ensures ParseDate("25/12/2025") == Some(Date(2025, 12, 25))
  {
    assert FormatDate(Date(2025, 12, 25)) == "25/12/2025";
    ParseFormat(Date(2025, 12, 25));
  }

  /** strptime also takes a day and a month written with one digit. */
  lemma ParseUnpadded()
    ensures ParseDate("1/2/2025") == Some(Date(2025, 2, 1))
  {
    var s := "1/2/2025";
    assert s[1] == '/' && s[3] == '/';
    assert s[..1] == "1" && s[2..3] == "2" && s[4..] == "2025";
    assert DayField("1") == Some(1) && MonthField("2") == Some(2) && YearField("2025") == Some(2025);
    SpelledIsParsed(s, Date(2025, 2, 1));
  }

  /** ... and a day written as a space and a digit. */
  lemma ParseSpacePadded()
    ensures ParseDate(" 1/02/2025") == Some(Date(2025, 2, 1))
  {
    var s := " 1/02/2025";
    assert s[2] == '/' && s[5] == '/';
    assert s[..2] == " 1" && s[3..5] == "02" && s[6..] == "2025";
    assert DayField(" 1") == Some(1) && MonthField("02") == Some(2) && YearField("2025") == Some(2025);
    SpelledIsParsed(s, Date(2025, 2, 1));
  }

  /** Day 32 and month 13 are refused. */
  lemma ParseRejectsOutOfRange()
    ensures ParseDate("32/13/2025") == None
  {
    var s := "32/13/2025";
    FirstSlashAtTwo(s);
    assert s[..2] == "32";
    assert DayField("32") == None;
  }

  /** A day the month does not have is refused. */
  lemma ParseRejectsMissingDay()
    ensures ParseDate("31/04/2025") == None
  {
    var s := "31/04/2025";
    FirstSlashAtTwo(s);
    assert s[..2] == "31" && s[3..] == "04/2025";
    FirstSlashAtTwo(s[3..]);
    assert s[3..][..2] == "04" && s[3..][3..] == "2025";
    assert DayField("31") == Some(31);
    assert MonthField("04") == Some(4);
    assert YearField("2025") == Some(2025);
    assert !IsValidDate(Date(2025, 4, 31));
  }
}
