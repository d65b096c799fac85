/**
 * The task table and the request handler's use of it: the five POST actions
 * that change it, and the GET path that lists, classifies and counts.
 *
 * Ids follow SQLite's rule for an INTEGER PRIMARY KEY without AUTOINCREMENT: a
 * new row gets one more than the largest id in the table (1 when it is empty),
 * so the id of the newest task is handed out again once that task is deleted.
 */
module TaskStore {
  import opened Wrappers
  import opened Calendar
  import opened Tasks
  import opened Status
  import opened ListFilter
  import opened Statistics

  /** The stored rows with ids n, n - 1, ..., 1, newest first. */
  function RowsBelow(tasks: map<int, Task>, n: int): seq<Task>
    decreases n
  {
    if n <= 0 then [] else (if n in tasks then [tasks[n]] else []) + RowsBelow(tasks, n - 1)
  }

  /**
   * The table's invariant: ids are positive and below `nextId`, each row knows
   * its id, `nextId - 1` is the largest id, and every row's completion date is
   * set exactly when it is completed.
   */
  predicate TableInvariant(tasks: map<int, Task>, nextId: int) {
    && nextId >= 1
    && (forall id :: id in tasks ==> 1 <= id < nextId && tasks[id].id == id)
    && (forall id :: id in tasks ==> CompletionConsistent(tasks[id]))
    && (nextId > 1 ==> nextId - 1 in tasks)
  }

  lemma {:induction false} RowsBelowMembers(tasks: map<int, Task>, n: int)
    ensures forall t :: t in RowsBelow(tasks, n) <==> exists k :: 1 <= k <= n && k in tasks && tasks[k] == t
    decreases n
  {
    if n > 0 {
      RowsBelowMembers(tasks, n - 1);
    }
  }

  lemma {:induction false} RowsBelowDescending(tasks: map<int, Task>, n: int)
    requires forall id :: id in tasks ==> tasks[id].id == id
    ensures DescendingIds(RowsBelow(tasks, n))
    ensures forall t :: t in RowsBelow(tasks, n) ==> t.id <= n
    decreases n
  {
    if n > 0 {
      RowsBelowDescending(tasks, n - 1);
      RowsBelowMembers(tasks, n - 1);
    }
  }

  lemma {:induction false} RowsBelowIgnoresAbove(tasks: map<int, Task>, n: int, id: int)
    requires n < id
    ensures RowsBelow(tasks - {id}, n) == RowsBelow(tasks, n)
    decreases n
  {
    if n > 0 {
      RowsBelowIgnoresAbove(tasks, n - 1, id);
    }
  }

  lemma {:induction false} RowsBelowLength(tasks: map<int, Task>, n: int)
    requires forall id :: id in tasks ==> 1 <= id <= n
    ensures |RowsBelow(tasks, n)| == |tasks|
    decreases n
  {
    if n <= 0 {
      assert tasks == map[] by {
        forall id | id in tasks ensures false { }
      }
    } else if n in tasks {
      var rest := tasks - {n};
      RowsBelowIgnoresAbove(tasks, n - 1, n);
      RowsBelowLength(rest, n - 1);
      assert |rest.Keys| == |tasks.Keys| - 1 by {
        assert rest.Keys == tasks.Keys - {n};
      }
    } else {
      RowsBelowLength(tasks, n - 1);
    }
  }

  /** Filtering the rows up to `k` is filtering row `k`, then the rows below it. */
  lemma FilterRowsStep(tasks: map<int, Task>, k: int, term: string, w: Window)
    requires k > 0
    ensures Filter(RowsBelow(tasks, k), term, w)
            == (if k in tasks && Keep(tasks[k], term, w) then [tasks[k]] else [])
               + Filter(RowsBelow(tasks, k - 1), term, w)
  {
    var here := if k in tasks then [tasks[k]] else [];
    FilterConcat(here, RowsBelow(tasks, k - 1), term, w);
    if k in tasks {
      assert here[1..] == [];
    }
  }

  /** One step of the query loop: deciding row `k` extends what was kept before it. */
  lemma CollectStep(kept: seq<Task>, tasks: map<int, Task>, k: int, term: string, w: Window)
    requires k > 0
    ensures kept + Filter(RowsBelow(tasks, k), term, w)
            == (kept + (if k in tasks && Keep(tasks[k], term, w) then [tasks[k]] else []))
               + Filter(RowsBelow(tasks, k - 1), term, w)
  {
    FilterRowsStep(tasks, k, term, w);
  }

  /** The listing order covers the whole table: every row once, newest first. */
  lemma RowsAreTheTable(tasks: map<int, Task>, nextId: int)
    requires TableInvariant(tasks, nextId)
    ensures |RowsBelow(tasks, nextId - 1)| == |tasks|
    ensures DescendingIds(RowsBelow(tasks, nextId - 1))
    ensures forall t :: t in RowsBelow(tasks, nextId - 1) <==> t in tasks.Values
    ensures forall t :: t in RowsBelow(tasks, nextId - 1) ==> CompletionConsistent(t)
  {
    RowsBelowLength(tasks, nextId - 1);
    RowsBelowDescending(tasks, nextId - 1);
    RowsBelowMembers(tasks, nextId - 1);
  }

  /**
   * The list view is a newest-first selection of the table: every listed task
   * is stored and passes the search and the text window, every stored task that
   * passes them is listed, and a task passes the search only with an empty term
   * or a match in the summary, the note or the hashtag.
   */
  lemma ListingIsOrderedSelection(tasks: map<int, Task>, nextId: int, q: Query, w: Window)
    requires TableInvariant(tasks, nextId)
    requires WindowOf(q) == Some(w)
    ensures Listing(RowsBelow(tasks, nextId - 1), q).Some?
    ensures var listed := Listing(RowsBelow(tasks, nextId - 1), q).value;
            && DescendingIds(listed)
            && (forall t :: t in listed ==> t in tasks.Values && Keep(t, q.search, w))
            && (forall t :: t in tasks.Values && Keep(t, q.search, w) ==> t in listed)
  {
    var rows := RowsBelow(tasks, nextId - 1);
    RowsAreTheTable(tasks, nextId);
    FilterDescending(rows, q.search, w);
    FilterSound(rows, q.search, w);
    forall t | t in tasks.Values && Keep(t, q.search, w)
      ensures t in Filter(rows, q.search, w)
    {
      FilterComplete(rows, q.search, w, t);
    }
  }

  /** For a consistent table the month-scoped overdue count is always 0. */
  lemma TableScopedOverdueIsZero(tasks: map<int, Task>, nextId: int, today: CalendarDate, m: MonthYear)
    requires TableInvariant(tasks, nextId)
    ensures Compute(RowsBelow(tasks, nextId - 1), today, Some(m)).overdueStat == 0
  {
    RowsAreTheTable(tasks, nextId);
    ScopedOverdueIsZero(RowsBelow(tasks, nextId - 1), today, m);
  }

  /** The message the handler flashes after a POST. */
  datatype Flash = Success | DateFormatError | Silent

  /** The `action` form field with the fields it reads. */
  datatype Action =
    | AddTask(fields: DocumentFields, dueText: string, note: string, hashtag: string)
    | EditTask(id: int, fields: DocumentFields, dueText: string, note: string, hashtag: string)
    | CompleteTask(id: int)
    | UndoCompleteTask(id: int)
    | DeleteTask(id: int)
    | OtherAction

  /** What the GET handler renders: the listed tasks, their statuses and the report. */
  datatype Page = Page(rows: seq<Task>, statuses: seq<Status>, stats: Stats)

  class Store {
    var tasks: map<int, Task>
    var nextId: int

    ghost predicate Valid()
      reads this
    {
      TableInvariant(tasks, nextId)
    }

    /** Every stored task, newest first. */
    function Rows(): seq<Task>
      reads this
    {
      RowsBelow(tasks, nextId - 1)
    }

    constructor ()
      ensures Valid() && tasks == map[] && nextId == 1
    {
      tasks := map[];
      nextId := 1;
    }

    /**
     * `add`: a malformed due date is refused before anything is stored;
     * otherwise a new open task gets the next id.
     */
    method Add(fields: DocumentFields, dueText: string, note: string, hashtag: string) returns (flash: Flash)
      requires Valid()
      modifies this
      ensures Valid()
      ensures flash == (if ReadDue(dueText).Malformed? then DateFormatError else Success)
      ensures flash == DateFormatError ==> tasks == old(tasks) && nextId == old(nextId)
      ensures flash == Success ==>
                && (forall id :: id in old(tasks) ==> id < old(nextId))
                && tasks == old(tasks)[old(nextId) := NewTask(old(nextId), fields, DueOf(ReadDue(dueText)), note, hashtag)]
                && nextId == old(nextId) + 1
    {
      var due := ReadDue(dueText);
      if due.Malformed? {
        return DateFormatError;
      }
      tasks := tasks[nextId := NewTask(nextId, fields, DueOf(due), note, hashtag)];
      nextId := nextId + 1;
      flash := Success;
    }

    /**
     * `edit`: a missing id is ignored without a message; a malformed due date is
     * refused before anything changes; otherwise the editable fields are rewritten.
     */
    method Edit(id: int, fields: DocumentFields, dueText: string, note: string, hashtag: string) returns (flash: Flash)
      requires Valid()
      modifies this
      ensures Valid() && nextId == old(nextId)
      ensures flash == (if id !in old(tasks) then Silent
                        else if ReadDue(dueText).Malformed? then DateFormatError
                        else Success)
      ensures flash != Success ==> tasks == old(tasks)
      ensures flash == Success ==>
                tasks == old(tasks)[id := Edited(old(tasks)[id], fields, DueOf(ReadDue(dueText)), note, hashtag)]
    {
      if id !in tasks {
        return Silent;
      }
      var due := ReadDue(dueText);
      if due.Malformed? {
        return DateFormatError;
      }
      tasks := tasks[id := Edited(tasks[id], fields, DueOf(due), note, hashtag)];
      flash := Success;
    }

    /** `complete`: the task is completed and dated `now`; a missing id is ignored. */
    method Complete(id: int, now: CalendarDate) returns (flash: Flash)
      requires Valid()
      modifies this
      ensures Valid() && nextId == old(nextId)
      ensures flash == (if id in old(tasks) then Success else Silent)
      ensures tasks == if id in old(tasks) then old(tasks)[id := MarkCompleted(old(tasks)[id], now)] else old(tasks)
    {
      flash := Silent;
      if id in tasks {
        tasks := tasks[id := MarkCompleted(tasks[id], now)];
        flash := Success;
      }
    }

    /** `undo_complete`: the task is open again with no completion date; a missing id is ignored. */
    method UndoComplete(id: int) returns (flash: Flash)
      requires Valid()
      modifies this
      ensures Valid() && nextId == old(nextId)
      ensures flash == (if id in old(tasks) then Success else Silent)
      ensures tasks == if id in old(tasks) then old(tasks)[id := Reopened(old(tasks)[id])] else old(tasks)
    {
      flash := Silent;
      if id in tasks {
        tasks := tasks[id := Reopened(tasks[id])];
        flash := Success;
      }
    }

    /**
     * `delete`: the row is removed; a missing id is ignored. Removing the newest
     * row lowers the next id to one past the largest id left.
     */
    method Delete(id: int) returns (flash: Flash)
      requires Valid()
      modifies this
      ensures Valid()
      ensures flash == (if id in old(tasks) then Success else Silent)
      ensures tasks == old(tasks) - {id}
      ensures nextId <= old(nextId)
      ensures id != old(nextId) - 1 ==> nextId == old(nextId)
    {
      flash := Silent;
      if id in tasks {
        tasks := tasks - {id};
        if id == nextId - 1 {
          var top := id - 1;
          while top > 0 && top !in tasks
            invariant 0 <= top < id
            invariant forall k :: k in tasks ==> k <= top
            decreases top
          {
            top := top - 1;
          }
          nextId := top + 1;
        }
        flash := Success;
      }
    }

    /**
     * The POST branch: one action, then a redirect. Only an action that reports
     * success changes the table.
     */
    method Handle(action: Action, now: CalendarDate) returns (flash: Flash)
      requires Valid()
      modifies this
      ensures Valid()
      ensures flash != Success ==> tasks == old(tasks) && nextId == old(nextId)
      ensures action.AddTask? ==>
                && flash == (if ReadDue(action.dueText).Malformed? then DateFormatError else Success)
                && (flash == Success ==>
                      && tasks == old(tasks)[old(nextId) := NewTask(old(nextId), action.fields, DueOf(ReadDue(action.dueText)), action.note, action.hashtag)]
                      && nextId == old(nextId) + 1)
      ensures action.EditTask? ==>
                && nextId == old(nextId)
                && flash == (if action.id !in old(tasks) then Silent
                             else if ReadDue(action.dueText).Malformed? then DateFormatError
                             else Success)
                && (flash == Success ==>
                      tasks == old(tasks)[action.id := Edited(old(tasks)[action.id], action.fields, DueOf(ReadDue(action.dueText)), action.note, action.hashtag)])
      ensures action.CompleteTask? ==>
                && nextId == old(nextId)
                && flash == (if action.id in old(tasks) then Success else Silent)
                && tasks == (if action.id in old(tasks) then old(tasks)[action.id := MarkCompleted(old(tasks)[action.id], now)] else old(tasks))
      ensures action.UndoCompleteTask? ==>
                && nextId == old(nextId)
                && flash == (if action.id in old(tasks) then Success else Silent)
                && tasks == (if action.id in old(tasks) then old(tasks)[action.id := Reopened(old(tasks)[action.id])] else old(tasks))
      ensures action.DeleteTask? ==>
                && flash == (if action.id in old(tasks) then Success else Silent)
                && tasks == old(tasks) - {action.id}
                && (action.id != old(nextId) - 1 ==> nextId == old(nextId))
      ensures action.OtherAction? ==> flash == Silent
    {
      match action
      case AddTask(fields, dueText, note, hashtag) =>
        flash := Add(fields, dueText, note, hashtag);
      case EditTask(id, fields, dueText, note, hashtag) =>
        flash := Edit(id, fields, dueText, note, hashtag);
      case CompleteTask(id) =>
        flash := Complete(id, now);
      case UndoCompleteTask(id) =>
        flash := UndoComplete(id);
      case DeleteTask(id) =>
        flash := Delete(id);
      case OtherAction =>
        flash := Silent;
    }

    /**
     * The list query: the bounds are built first (None where that raises), then
     * the rows are visited from the largest id down and the kept ones collected.
     */
    method Select(q: Query) returns (r: Option<seq<Task>>)
      requires Valid()
      ensures r == Listing(Rows(), q)
    {
      var window := WindowOf(q);
      if window.None? {
        return None;
      }
      var w := window.value;
      var kept := [];
      var k := nextId - 1;
      while k > 0
        invariant 0 <= k <= nextId - 1
        invariant Filter(Rows(), q.search, w) == kept + Filter(RowsBelow(tasks, k), q.search, w)
        decreases k
      {
        CollectStep(kept, tasks, k, q.search, w);
        var here := if k in tasks && Keep(tasks[k], q.search, w) then [tasks[k]] else [];
        kept := kept + here;
        k := k - 1;
      }
      assert RowsBelow(tasks, k) == [];
      assert Filter([], q.search, w) == [];
      assert kept + [] == kept;
      r := Some(kept);
    }

    /** The GET branch: list, classify each listed task, and count. */
    method Index(q: Query, today: CalendarDate, scope: Option<MonthYear>) returns (page: Option<Page>)
      requires Valid()
      ensures page.None? <==> WindowOf(q).None?
      ensures page.Some? ==>
                && Listing(Rows(), q) == Some(page.value.rows)
                && |page.value.statuses| == |page.value.rows|
                && (forall i :: 0 <= i < |page.value.rows| ==>
                      page.value.statuses[i] == Classify(page.value.rows[i], today))
                && page.value.stats == Compute(Rows(), today, scope)
                && page.value.stats.totalAll == |tasks|
    {
      var listed := Select(q);
      if listed.None? {
        return None;
      }
      var statuses := Annotate(listed.value, today);
      RowsAreTheTable(tasks, nextId);
      page := Some(Page(listed.value, statuses, Compute(Rows(), today, scope)));
    }
  }
}
