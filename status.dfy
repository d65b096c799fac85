/**
 * The status pass of the list view: every listed task is classified against
 * "today" (the colour, label and icon the handler writes onto each record are
 * display-only; the model keeps the category and the day count).
 */
module Status {
  import opened Wrappers
  import opened Calendar
  import opened Tasks

  datatype Status =
    | Completed
    | NoDeadline
    | Overdue
    | DueSoon(days: int)
    | Upcoming(days: int)

  /** Days from `today` to the due date: `(han_xu_ly - today).days`. */
  function DaysLeft(due: CalendarDate, today: CalendarDate): int {
    DayNumber(due) - DayNumber(today)
  }

  /** The ordered case split: completed, then no deadline, then by days left. */
  function Classify(t: Task, today: CalendarDate): (s: Status)
    ensures s == Completed <==> t.completed
    ensures s == NoDeadline <==> !t.completed && t.due.None?
    ensures s == Overdue <==> !t.completed && t.due.Some? && DaysLeft(t.due.value, today) < 0
    ensures s.DueSoon? <==> !t.completed && t.due.Some? && 0 <= DaysLeft(t.due.value, today) <= 2
    ensures s.Upcoming? <==> !t.completed && t.due.Some? && DaysLeft(t.due.value, today) > 2
    ensures (s.DueSoon? || s.Upcoming?) ==> s.days == DaysLeft(t.due.value, today)
  {
    if t.completed then Completed
    else if t.due.None? then NoDeadline
    else
      var days := DaysLeft(t.due.value, today);
      if days < 0 then Overdue
      else if days <= 2 then DueSoon(days)
      else Upcoming(days)
  }

  /** A completed task is shown as completed whatever its due date and whatever the day. */
  lemma CompletedIgnoresDeadline(t: Task, due: Option<CalendarDate>, today: CalendarDate, other: CalendarDate)
    requires t.completed
    ensures Classify(t.(due := due), today) == Classify(t, other) == Completed
  {
  }

  /** Overdue means the due date lies strictly before today on the calendar. */
  lemma OverdueIsBeforeToday(t: Task, today: CalendarDate)
    requires !t.completed && t.due.Some?
    ensures Classify(t, today) == Overdue <==> Precedes(t.due.value, today)
  {
    DayNumberOrder(t.due.value, today);
  }

  /** A task due today is due soon with 0 days left. */
  lemma DueTodayIsDueSoon(t: Task, today: CalendarDate)
    requires !t.completed && t.due == Some(today)
    ensures Classify(t, today) == DueSoon(0)
  {
  }

  /** How far along the deadline a status is; completed and undated tasks rank 0. */
  function Urgency(s: Status): nat {
    match s
    case Upcoming(_) => 1
    case DueSoon(_) => 2
    case Overdue => 3
    case _ => 0
  }

  /** As the days pass, an open task only moves towards Overdue, never back. */
  lemma UrgencyGrowsWithTime(t: Task, earlier: CalendarDate, later: CalendarDate)
    requires !Precedes(later, earlier)
    ensures Urgency(Classify(t, earlier)) <= Urgency(Classify(t, later))
  {
    DayNumberOrder(later, earlier);
  }

  /**
   * The `for t in tasks` loop: each listed task gets its status, in list order.
   */
  method Annotate(rows: seq<Task>, today: CalendarDate) returns (statuses: seq<Status>)
    ensures |statuses| == |rows|
    ensures forall i :: 0 <= i < |rows| ==> statuses[i] == Classify(rows[i], today)
  {
    statuses := [];
    var i := 0;
    while i < |rows|
      invariant 0 <= i <= |rows|
      invariant |statuses| == i
      invariant forall k :: 0 <= k < i ==> statuses[k] == Classify(rows[k], today)
    {
      var t := rows[i];
      var s: Status;
      if t.completed {
        s := Completed;
      } else if t.due.None? {
        s := NoDeadline;
      } else {
        var days := DayNumber(t.due.value) - DayNumber(today);
        if days < 0 {
          s := Overdue;
        } else if days <= 2 {
          s := DueSoon(days);
        } else {
          s := Upcoming(days);
        }
      }
      statuses := statuses + [s];
      i := i + 1;
    }
  }
}
