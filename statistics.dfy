/**
 * The report block of the GET handler: total, completed and overdue counts over
 * every task, and the same three counts for a month given by `stat_month` and
 * `stat_year`.
 *
 * The month scope is not uniform: the scoped total selects a task by
 * `coalesce(ngay_hoan_thanh, han_xu_ly)`, while the scoped completed and overdue
 * counts select it by `ngay_hoan_thanh` alone.
 */
module Statistics {
  import opened Wrappers
  import opened Calendar
  import opened Tasks
  import opened Status

  datatype Stats = Stats(
    totalAll: nat,
    completedAll: nat,
    overdueAll: nat,
    totalStat: nat,
    completedStat: nat,
    overdueStat: nat)

  /** How many rows satisfy `p`. */
  function Count(rows: seq<Task>, p: Task -> bool): (n: nat)
    ensures n <= |rows|
    decreases |rows|
  {
    if rows == [] then 0 else (if p(rows[0]) then 1 else 0) + Count(rows[1..], p)
  }

  /** The overdue test of both list comprehensions. */
  predicate IsOverdue(t: Task, today: CalendarDate) {
    !t.completed && t.due.Some? && DaysLeft(t.due.value, today) < 0
  }

  /** `extract('month', d) == month and extract('year', d) == year`; false for NULL. */
  predicate InMonth(d: Option<CalendarDate>, scope: MonthYear) {
    d.Some? && d.value.month == scope.month && d.value.year == scope.year
  }

  /** `coalesce(ngay_hoan_thanh, han_xu_ly)`. */
  function EffectiveDate(t: Task): (r: Option<CalendarDate>)
    ensures r.None? <==> t.completedOn.None? && t.due.None?
    ensures t.completedOn.Some? ==> r == t.completedOn
    ensures t.completedOn.None? ==> r == t.due
  {
    if t.completedOn.Some? then t.completedOn else t.due
  }

  /** The six report counts over every stored task. */
  function Compute(rows: seq<Task>, today: CalendarDate, scope: Option<MonthYear>): (s: Stats)
    ensures s.totalAll == |rows|
    ensures scope.None? ==>
              s.totalStat == s.totalAll && s.completedStat == s.completedAll && s.overdueStat == s.overdueAll
  {
    var completedAll := Count(rows, (t: Task) => t.completed);
    var overdueAll := Count(rows, (t: Task) => IsOverdue(t, today));
    match scope
    case None => Stats(|rows|, completedAll, overdueAll, |rows|, completedAll, overdueAll)
    case Some(m) =>
      Stats(|rows|, completedAll, overdueAll,
            Count(rows, (t: Task) => InMonth(EffectiveDate(t), m)),
            Count(rows, (t: Task) => InMonth(t.completedOn, m) && t.completed),
            Count(rows, (t: Task) => InMonth(t.completedOn, m) && IsOverdue(t, today)))
  }

  // ---- counting ---------------------------------------------------------------

  lemma {:induction false} CountDisjoint(rows: seq<Task>, p: Task -> bool, q: Task -> bool)
    requires forall t :: t in rows ==> !(p(t) && q(t))
    ensures Count(rows, p) + Count(rows, q) <= |rows|
    decreases |rows|
  {
    if rows != [] {
      CountDisjoint(rows[1..], p, q);
    }
  }

  lemma {:induction false} CountMonotone(rows: seq<Task>, p: Task -> bool, q: Task -> bool)
    requires forall t :: t in rows && p(t) ==> q(t)
    ensures Count(rows, p) <= Count(rows, q)
    decreases |rows|
  {
    if rows != [] {
      CountMonotone(rows[1..], p, q);
    }
  }

  lemma {:induction false} CountSame(rows: seq<Task>, p: Task -> bool, q: Task -> bool)
    requires forall t :: t in rows ==> p(t) == q(t)
    ensures Count(rows, p) == Count(rows, q)
    decreases |rows|
  {
    if rows != [] {
      CountSame(rows[1..], p, q);
    }
  }

  lemma {:induction false} CountNone(rows: seq<Task>, p: Task -> bool)
    requires forall t :: t in rows ==> !p(t)
    ensures Count(rows, p) == 0
    decreases |rows|
  {
    if rows != [] {
      CountNone(rows[1..], p);
    }
  }

  // ---- what the report promises ---------------------------------------------

  /** No task is both completed and overdue, so the two all-scope counts fit in the total. */
  lemma CompletedAndOverdueFit(rows: seq<Task>, today: CalendarDate, scope: Option<MonthYear>)
    ensures Compute(rows, today, scope).completedAll + Compute(rows, today, scope).overdueAll
            <= Compute(rows, today, scope).totalAll
  {
    CountDisjoint(rows, (t: Task) => t.completed, (t: Task) => IsOverdue(t, today));
  }

  /** The overdue count is the number of listed tasks the status pass marks Overdue. */
  lemma OverdueCountMatchesStatus(rows: seq<Task>, today: CalendarDate, scope: Option<MonthYear>)
    ensures Compute(rows, today, scope).overdueAll == Count(rows, (t: Task) => Classify(t, today) == Overdue)
  {
    CountSame(rows, (t: Task) => IsOverdue(t, today), (t: Task) => Classify(t, today) == Overdue);
  }

  /** The month's completed count never exceeds the month's total nor the overall completed count. */
  lemma ScopedCountsBounded(rows: seq<Task>, today: CalendarDate, m: MonthYear)
    ensures Compute(rows, today, Some(m)).completedStat <= Compute(rows, today, Some(m)).totalStat
    ensures Compute(rows, today, Some(m)).completedStat <= Compute(rows, today, Some(m)).completedAll
    ensures Compute(rows, today, Some(m)).overdueStat <= Compute(rows, today, Some(m)).overdueAll
  {
    CountMonotone(rows, (t: Task) => InMonth(t.completedOn, m) && t.completed, (t: Task) => InMonth(EffectiveDate(t), m));
    CountMonotone(rows, (t: Task) => InMonth(t.completedOn, m) && t.completed, (t: Task) => t.completed);
    CountMonotone(rows, (t: Task) => InMonth(t.completedOn, m) && IsOverdue(t, today), (t: Task) => IsOverdue(t, today));
  }

  /**
   * With completion dates kept consistent, the month scope holds only completed
   * tasks: its overdue count is always 0 and its completed count is every task
   * completed in that month.
   */
  lemma ScopedOverdueIsZero(rows: seq<Task>, today: CalendarDate, m: MonthYear)
    requires forall t :: t in rows ==> CompletionConsistent(t)
    ensures Compute(rows, today, Some(m)).overdueStat == 0
    ensures Compute(rows, today, Some(m)).completedStat == Count(rows, (t: Task) => InMonth(t.completedOn, m))
  {
    CountNone(rows, (t: Task) => InMonth(t.completedOn, m) && IsOverdue(t, today));
    CountSame(rows, (t: Task) => InMonth(t.completedOn, m) && t.completed, (t: Task) => InMonth(t.completedOn, m));
  }

  /**
   * On 13 November 2025: A is due the next day, B was due three days before, C
   * is completed. A is due soon with 1 day left, B overdue, C completed, and the
   * report counts 3 tasks, 1 completed, 1 overdue.
   */
  lemma ThreeTaskScenario()
    ensures var today := Date(2025, 11, 13);
            var blank := Task(0, "", "", "", "", None, "", "", false, None);
            var a := blank.(id := 1, due := Some(Date(2025, 11, 14)));
            var b := blank.(id := 2, due := Some(Date(2025, 11, 10)));
            var c := blank.(id := 3, completed := true, completedOn := Some(Date(2025, 11, 12)));
            && Classify(a, today) == DueSoon(1)
            && Classify(b, today) == Overdue
            && Classify(c, today) == Completed
            && var s := Compute([c, b, a], today, None);
               s.totalAll == 3 && s.completedAll == 1 && s.overdueAll == 1
  {
    var today := Date(2025, 11, 13);
    var blank := Task(0, "", "", "", "", None, "", "", false, None);
    var a := blank.(id := 1, due := Some(Date(2025, 11, 14)));
    var b := blank.(id := 2, due := Some(Date(2025, 11, 10)));
    var c := blank.(id := 3, completed := true, completedOn := Some(Date(2025, 11, 12)));
    var rows := [c, b, a];
    assert rows[1..] == [b, a] && rows[1..][1..] == [a] && rows[1..][1..][1..] == [];
    assert DaysLeft(Date(2025, 11, 14), today) == 1;
    assert DaysLeft(Date(2025, 11, 10), today) == -3;
    var done := (t: Task) => t.completed;
    var late := (t: Task) => IsOverdue(t, today);
    assert Count([a], done) == 0 && Count([b, a], done) == 0 && Count(rows, done) == 1;
    assert Count([a], late) == 0 && Count([b, a], late) == 1 && Count(rows, late) == 1;
  }
}
