/**
 * The list query of the GET handler: an optional search over three text columns,
 * an optional window on the stored document date, newest id first.
 *
 * The window compares the stored `ngay_van_ban` TEXT with bounds printed as
 * dd/mm/yyyy, as SQLite compares text (code point by code point), so the
 * comparison orders day first, then month, then year.
 */
module ListFilter {
  import opened Wrappers
  import opened Calendar
  import opened Tasks
  import opened Search

  /** SQLite's text comparison `a <= b` under the default BINARY collation. */
  predicate LexLe(a: string, b: string)
    decreases |a|
  {
    if a == [] then true
    else if b == [] then false
    else if a[0] != b[0] then a[0] < b[0]
    else LexLe(a[1..], b[1..])
  }

  /** The `search`, `from_month/from_year` and `to_month/to_year` query parameters. */
  datatype Query = Query(search: string, from: Option<MonthYear>, to: Option<MonthYear>)

  /** The text bounds the window compares against; None means no bound on that side. */
  datatype Window = Window(lo: Option<string>, hi: Option<string>)

  /** `datetime(from_year, from_month, 1).strftime('%d/%m/%Y')`; None where datetime raises. */
  function FirstDayBound(my: MonthYear): (r: Option<string>)
    ensures r.Some? <==> 1 <= my.year <= 9999 && 1 <= my.month <= 12
    ensures r.Some? ==> r.value == FormatDate(Date(my.year, my.month, 1))
  {
    if 1 <= my.year <= 9999 && 1 <= my.month <= 12 then Some(FormatDate(Date(my.year, my.month, 1)))
    else None
  }

  /**
   * `datetime(to_year, to_month + 1, 1) - timedelta(days=1)`; None where datetime
   * raises (month 12 asks for month 13) or the subtraction overflows (month 0 of year 1).
   */
  function EndOfMonth(my: MonthYear): (r: Option<CalendarDate>)
    ensures r.Some? <==> 1 <= my.year <= 9999 && 0 <= my.month <= 11 && !(my.month == 0 && my.year == 1)
    ensures r.Some? && my.month >= 1 ==> r.value == Date(my.year, my.month, DaysInMonth(my.year, my.month))
    ensures r.Some? && my.month == 0 ==> r.value == Date(my.year - 1, 12, 31)
  {
    if 1 <= my.year <= 9999 && 1 <= my.month + 1 <= 12 then
      DayBeforeFirst(my.year, my.month);
      PreviousDay(Date(my.year, my.month + 1, 1))
    else None
  }

  /** The upper bound: that day printed with `strftime('%d/%m/%Y')`. */
  function LastDayBound(my: MonthYear): (r: Option<string>)
    ensures r.Some? <==> 1 <= my.year <= 9999 && 0 <= my.month <= 11 && !(my.month == 0 && my.year == 1)
    ensures r.Some? && my.month >= 1 ==>
              r.value == FormatDate(Date(my.year, my.month, DaysInMonth(my.year, my.month)))
    ensures r.Some? && my.month == 0 ==> r.value == FormatDate(Date(my.year - 1, 12, 31))
  {
    match EndOfMonth(my)
    case None => None
    case Some(d) => Some(FormatDate(d))
  }

  /** The window a query asks for; None when building a bound raises. */
  function WindowOf(q: Query): (r: Option<Window>)
    ensures r.None? <==> (q.from.Some? && FirstDayBound(q.from.value).None?)
                         || (q.to.Some? && LastDayBound(q.to.value).None?)
    ensures r.Some? ==> (r.value.lo.Some? <==> q.from.Some?) && (r.value.hi.Some? <==> q.to.Some?)
    ensures r.Some? && q.from.Some? ==> r.value.lo == FirstDayBound(q.from.value)
    ensures r.Some? && q.to.Some? ==> r.value.hi == LastDayBound(q.to.value)
  {
    var lo := if q.from.Some? then FirstDayBound(q.from.value) else None;
    var hi := if q.to.Some? then LastDayBound(q.to.value) else None;
    if (q.from.Some? && lo.None?) || (q.to.Some? && hi.None?) then None
    else Some(Window(lo, hi))
  }

  /** The search: an empty term keeps everything, otherwise one of three columns must match. */
  predicate SearchMatches(t: Task, term: string) {
    term == [] || ILikeContains(t.summary, term) || ILikeContains(t.note, term) || ILikeContains(t.hashtag, term)
  }

  predicate InWindow(documentDate: string, w: Window) {
    (w.lo.Some? ==> LexLe(w.lo.value, documentDate)) && (w.hi.Some? ==> LexLe(documentDate, w.hi.value))
  }

  predicate Keep(t: Task, term: string, w: Window) {
    SearchMatches(t, term) && InWindow(t.documentDate, w)
  }

  /** Ids fall strictly along the sequence: the `order_by(Task.id.desc())` order. */
  predicate DescendingIds(rows: seq<Task>) {
    forall i, j :: 0 <= i < j < |rows| ==> rows[i].id > rows[j].id
  }

  /** The rows of `rows` that the query keeps, in their order. */
  function Filter(rows: seq<Task>, term: string, w: Window): (r: seq<Task>)
    ensures |r| <= |rows|
    decreases |rows|
  {
    if rows == [] then []
    else (if Keep(rows[0], term, w) then [rows[0]] else []) + Filter(rows[1..], term, w)
  }

  /** Every row in the result comes from `rows` and passes the query. */
  lemma {:induction false} FilterSound(rows: seq<Task>, term: string, w: Window)
    ensures forall t :: t in Filter(rows, term, w) ==> t in rows && Keep(t, term, w)
    decreases |rows|
  {
    if rows != [] {
      FilterSound(rows[1..], term, w);
    }
  }

  /** The query's answer over `rows`; None when the request fails building a bound. */
  function Listing(rows: seq<Task>, q: Query): Option<seq<Task>> {
    match WindowOf(q)
    case None => None
    case Some(w) => Some(Filter(rows, q.search, w))
  }

  lemma {:induction false} FilterConcat(a: seq<Task>, b: seq<Task>, term: string, w: Window)
    ensures Filter(a + b, term, w) == Filter(a, term, w) + Filter(b, term, w)
    decreases |a|
  {
    if a == [] {
      assert a + b == b;
    } else {
      assert (a + b)[1..] == a[1..] + b;
      FilterConcat(a[1..], b, term, w);
    }
  }

  /** Every row the query keeps is in the result. */
  lemma {:induction false} FilterComplete(rows: seq<Task>, term: string, w: Window, t: Task)
    requires t in rows && Keep(t, term, w)
    ensures t in Filter(rows, term, w)
    decreases |rows|
  {
    if rows[0] != t {
      FilterComplete(rows[1..], term, w, t);
    }
  }

  /** Filtering keeps the newest-first order. */
  lemma {:induction false} FilterDescending(rows: seq<Task>, term: string, w: Window)
    requires DescendingIds(rows)
    ensures DescendingIds(Filter(rows, term, w))
    decreases |rows|
  {
    if rows != [] {
      var rest := Filter(rows[1..], term, w);
      FilterDescending(rows[1..], term, w);
      FilterSound(rows[1..], term, w);
      forall t | t in rest
        ensures t.id < rows[0].id
      {
        var j :| 0 <= j < |rows[1..]| && rows[1..][j] == t;
        assert rows[j + 1] == t;
      }
    }
  }

  /** Without a search term and without bounds, the listing is every row. */
  lemma {:induction false} FilterKeepsAll(rows: seq<Task>)
    ensures Filter(rows, "", Window(None, None)) == rows
    decreases |rows|
  {
    if rows != [] {
      FilterKeepsAll(rows[1..]);
    }
  }

  // ---- what the text window means -------------------------------------------

  lemma {:induction false} LexLeConcat(x1: string, x2: string, y1: string, y2: string)
    requires |x1| == |x2|
    ensures LexLe(x1 + y1, x2 + y2) <==> if x1 == x2 then LexLe(y1, y2) else LexLe(x1, x2)
    decreases |x1|
  {
    if x1 != [] {
      assert (x1 + y1)[1..] == x1[1..] + y1;
      assert (x2 + y2)[1..] == x2[1..] + y2;
      if x1[0] == x2[0] {
        LexLeConcat(x1[1..], x2[1..], y1, y2);
        assert x1 == x2 <==> x1[1..] == x2[1..] by {
          if x1[1..] == x2[1..] {
            assert x1 == [x1[0]] + x1[1..] && x2 == [x2[0]] + x2[1..];
          }
        }
      }
    } else {
      assert x1 + y1 == y1 && x2 + y2 == y2;
    }
  }

  lemma Pad2Order(a: int, b: int)
    requires 0 <= a <= 99 && 0 <= b <= 99
    ensures Pad2(a) == Pad2(b) <==> a == b
    ensures LexLe(Pad2(a), Pad2(b)) <==> a <= b
  {
    var s, t := Pad2(a), Pad2(b);
    assert s[1..][1..] == [] && t[1..][1..] == [];
    assert LexLe(s[1..], t[1..]) <==> s[1] <= t[1];
    assert LexLe(s, t) <==> s[0] < t[0] || (s[0] == t[0] && s[1] <= t[1]);
    assert s[0] < t[0] <==> DigitValue(s[0]) < DigitValue(t[0]);
    assert s[1] <= t[1] <==> DigitValue(s[1]) <= DigitValue(t[1]);
    if s == t {
      assert s[0] == t[0] && s[1] == t[1];
    }
  }

  lemma Pad4Order(a: int, b: int)
    requires 0 <= a <= 9999 && 0 <= b <= 9999
    ensures Pad4(a) == Pad4(b) <==> a == b
    ensures LexLe(Pad4(a), Pad4(b)) <==> a <= b
  {
    Pad2Order(a / 100, b / 100);
    Pad2Order(a % 100, b % 100);
    LexLeConcat(Pad2(a / 100), Pad2(b / 100), Pad2(a % 100), Pad2(b % 100));
    if Pad4(a) == Pad4(b) {
      assert Pad4(a)[..2] == Pad2(a / 100) && Pad4(b)[..2] == Pad2(b / 100);
      assert Pad4(a)[2..] == Pad2(a % 100) && Pad4(b)[2..] == Pad2(b % 100);
    }
  }

  /** Day, then month, then year: the order of dd/mm/yyyy text. */
  predicate DayFirstLe(a: Date, b: Date) {
    a.day < b.day
    || (a.day == b.day && a.month < b.month)
    || (a.day == b.day && a.month == b.month && a.year <= b.year)
  }

  /** Comparing two printed dates as text compares them day first. */
  lemma FormattedOrderIsDayFirst(a: CalendarDate, b: CalendarDate)
    ensures LexLe(FormatDate(a), FormatDate(b)) <==> DayFirstLe(a, b)
  {
    var ya, yb := Pad4(a.year), Pad4(b.year);
    var ma, mb := "/" + Pad2(a.month) + "/", "/" + Pad2(b.month) + "/";
    assert FormatDate(a) == Pad2(a.day) + (ma + ya);
    assert FormatDate(b) == Pad2(b.day) + (mb + yb);
    Pad2Order(a.day, b.day);
    Pad2Order(a.month, b.month);
    Pad4Order(a.year, b.year);
    LexLeConcat(Pad2(a.day), Pad2(b.day), ma + ya, mb + yb);
    LexLeConcat(ma, mb, ya, yb);
    LexLeConcat("/", "/", Pad2(a.month) + "/", Pad2(b.month) + "/");
    LexLeConcat(Pad2(a.month), Pad2(b.month), "/", "/");
    assert ma == "/" + (Pad2(a.month) + "/") && mb == "/" + (Pad2(b.month) + "/");
    assert ma == mb <==> a.month == b.month;
  }

  /**
   * The window April to November 2025 is the text range "01/04/2025" to
   * "30/11/2025", and "20/12/2025" lies inside it although December is after November.
   */
  lemma WindowIsNotChronological()
    ensures WindowOf(Query("", Some(MonthYear(4, 2025)), Some(MonthYear(11, 2025))))
            == Some(Window(Some("01/04/2025"), Some("30/11/2025")))
    ensures InWindow("20/12/2025", Window(Some("01/04/2025"), Some("30/11/2025")))
    ensures Precedes(Date(2025, 11, 30), Date(2025, 12, 20))
  {
    assert FormatDate(Date(2025, 4, 1)) == "01/04/2025";
    assert FormatDate(Date(2025, 11, 30)) == "30/11/2025";
  }

  /**
   * Documents dated 01/03/2025, 15/06/2025 and 20/12/2025 under the window
   * April to November 2025 (the text range of WindowIsNotChronological): the
   * March one is dropped, the June one kept, and the December one kept as well.
   */
  lemma ThreeDocumentWindow(t: Task)
    ensures var w := Window(Some("01/04/2025"), Some("30/11/2025"));
            var march := t.(id := 1, documentDate := "01/03/2025");
            var june := t.(id := 2, documentDate := "15/06/2025");
            var december := t.(id := 3, documentDate := "20/12/2025");
            Filter([december, june, march], "", w) == [december, june]
  {
    var w := Window(Some("01/04/2025"), Some("30/11/2025"));
    var march := t.(id := 1, documentDate := "01/03/2025");
    var june := t.(id := 2, documentDate := "15/06/2025");
    var december := t.(id := 3, documentDate := "20/12/2025");
    var lo := "01/04/2025";
    assert lo[1..] == "1/04/2025" && lo[1..][1..] == "/04/2025" && lo[1..][1..][1..] == "04/2025";
    var m := march.documentDate;
    assert m[1..] == "1/03/2025" && m[1..][1..] == "/03/2025" && m[1..][1..][1..] == "03/2025";
    assert lo[1..][1..][1..][1..] == "4/2025" && m[1..][1..][1..][1..] == "3/2025";
    assert !LexLe("4/2025", "3/2025");
    assert LexLe("04/2025", "03/2025") == LexLe("4/2025", "3/2025");
    assert LexLe("/04/2025", "/03/2025") == LexLe("04/2025", "03/2025");
    assert LexLe("1/04/2025", "1/03/2025") == LexLe("/04/2025", "/03/2025");
    assert LexLe(lo, m) == LexLe("1/04/2025", "1/03/2025");
    assert !Keep(march, "", w);
    assert Keep(june, "", w);
    assert Keep(december, "", w);
    assert [march][1..] == [];
    assert Filter([march], "", w) == [];
    assert [june, march][1..] == [march];
    assert Filter([june, march], "", w) == [june];
    assert [december, june, march][1..] == [june, march];
    assert Filter([december, june, march], "", w) == [december] + [june];
  }
}
