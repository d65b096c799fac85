/**
 * The `Task` record of the tracker and the per-record transitions that the
 * POST branches of the request handler apply to it.
 */
module Tasks {
  import opened Wrappers
  import opened Calendar

  /**
   * One tracked document. Columns: `ngay_van_ban` (documentDate), `so_ky_hieu`
   * (referenceNumber), `cq_ban_hanh` (issuingAuthority), `trich_yeu` (summary),
   * `han_xu_ly` (due), `ghi_chu` (note), `hashtag`, `hoan_thanh` (completed),
   * `ngay_hoan_thanh` (completedOn).
   */
  datatype Task = Task(
    id: int,
    documentDate: string,
    referenceNumber: string,
    issuingAuthority: string,
    summary: string,
    due: Option<CalendarDate>,
    note: string,
    hashtag: string,
    completed: bool,
    completedOn: Option<CalendarDate>)

  /** The four fields that `extract_data` reads out of a pasted document. */
  datatype DocumentFields = DocumentFields(
    documentDate: string,
    referenceNumber: string,
    issuingAuthority: string,
    summary: string)

  /** A completion date is recorded exactly when the task is completed. */
  predicate CompletionConsistent(t: Task) {
    t.completedOn.Some? <==> t.completed
  }

  /** What the `han_xu_ly` form field says. */
  datatype DueInput = Blank | Deadline(date: CalendarDate) | Malformed

  /** An empty field means no deadline; anything else must parse as dd/mm/yyyy. */
  function ReadDue(text: string): (r: DueInput)
    ensures r.Blank? <==> text == []
    ensures r.Malformed? <==> text != [] && ParseDate(text).None?
    ensures r.Deadline? ==> ParseDate(text) == Some(r.date)
  {
    if text == [] then Blank
    else match ParseDate(text)
      case None => Malformed
      case Some(d) => Deadline(d)
  }

  /** The due date a well-formed field stores. */
  function DueOf(input: DueInput): Option<CalendarDate>
    requires !input.Malformed?
  {
    if input.Deadline? then Some(input.date) else None
  }

  /** A freshly added task: open, with no completion date. */
  function NewTask(id: int, fields: DocumentFields, due: Option<CalendarDate>, note: string, hashtag: string): (t: Task)
    ensures t.id == id && t.due == due
    ensures !t.completed && CompletionConsistent(t)
  {
    Task(id, fields.documentDate, fields.referenceNumber, fields.issuingAuthority, fields.summary,
         due, note, hashtag, false, None)
  }

  /** The edit form rewrites every editable field and neither completion field. */
  function Edited(t: Task, fields: DocumentFields, due: Option<CalendarDate>, note: string, hashtag: string): (r: Task)
    ensures r.id == t.id && r.completed == t.completed && r.completedOn == t.completedOn
    ensures CompletionConsistent(t) ==> CompletionConsistent(r)
  {
    t.(documentDate := fields.documentDate, referenceNumber := fields.referenceNumber,
       issuingAuthority := fields.issuingAuthority, summary := fields.summary,
       due := due, note := note, hashtag := hashtag)
  }

  /** `complete`: completed, dated `on`; nothing else changes. */
  function MarkCompleted(t: Task, on: CalendarDate): (r: Task)
    ensures r.completed && r.completedOn == Some(on) && CompletionConsistent(r)
    ensures r.(completed := t.completed, completedOn := t.completedOn) == t
  {
    t.(completed := true, completedOn := Some(on))
  }

  /** `undo_complete`: open again, completion date cleared; nothing else changes. */
  function Reopened(t: Task): (r: Task)
    ensures !r.completed && r.completedOn.None? && CompletionConsistent(r)
    ensures r.(completed := t.completed, completedOn := t.completedOn) == t
  {
    t.(completed := false, completedOn := None)
  }

  /** Completing again re-dates the task: only the last completion date is kept. */
  lemma CompleteTwice(t: Task, first: CalendarDate, second: CalendarDate)
    ensures MarkCompleted(MarkCompleted(t, first), second) == MarkCompleted(t, second)
    ensures MarkCompleted(MarkCompleted(t, first), first) == MarkCompleted(t, first)
  {
  }

  /** Undoing a completion restores an open task whatever the completion date was. */
  lemma UndoAfterComplete(t: Task, on: CalendarDate)
    requires !t.completed && CompletionConsistent(t)
    ensures Reopened(MarkCompleted(t, on)) == t
  {
  }
}
