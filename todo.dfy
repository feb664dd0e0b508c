/** The to-do list's value entities and the validation done when a task is added. */
module ToDo {
  import opened Wrappers
  import opened JavaText
  import opened IsoDate

  datatype Priority = LOW | MEDIUM | HIGH

  /**
   * One to-do item. Only `completed` changes after creation; the store
   * replaces the whole value when it does.
   */
  datatype Task = Task(title: string, completed: bool, dueDate: Date, priority: Priority)

  /** Why an add request was refused: a blank field, or a date that does not parse. */
  datatype AddError = MissingField | InvalidDate

  /** The `Task` constructor: a new task is never completed. */
  function Created(title: string, dueDate: Date, priority: Priority): (t: Task)
    ensures !t.completed
    ensures t.title == title && t.dueDate == dueDate && t.priority == priority
  {
    Task(title, false, dueDate, priority)
  }

  /**
   * The validation of `addTask`: trim both fields, refuse either one blank,
   * then refuse a date text `LocalDate.parse` rejects; otherwise build the task.
   */
  function NewTask(titleText: string, dateText: string, priority: Priority): (r: Result<Task, AddError>)
    ensures r == Err(MissingField) <==> Trim(titleText) == [] || Trim(dateText) == []
    ensures r == Err(InvalidDate) <==>
      Trim(titleText) != [] && Trim(dateText) != [] && ParseDate(Trim(dateText)) == None
    ensures r.Ok? ==>
      r.value.title == Trim(titleText) && r.value.title != [] && Trim(r.value.title) == r.value.title &&
      !r.value.completed && r.value.priority == priority &&
      IsFullDate(r.value.dueDate) && FormatDate(r.value.dueDate) == Trim(dateText)
  {
    var title, dateText := Trim(titleText), Trim(dateText);
    if title == [] || dateText == [] then Err(MissingField)
    else match ParseDate(dateText)
      case None => Err(InvalidDate)
      case Some(date) =>
        ParseDateIff(dateText, date);
        TrimIdempotent(titleText);
        Ok(Created(title, date, priority))
  }

  /** A blank title is refused however the rest of the input looks. */
  lemma BlankTitleRefused(titleText: string, dateText: string, priority: Priority)
    requires AllTrimmable(titleText)
    ensures NewTask(titleText, dateText, priority) == Err(MissingField)
  {
    TrimEmptyIff(titleText);
  }

  /**
   * A non-blank title with the ISO text of a real date, surrounded by any
   * blanks, is always accepted and yields exactly that date.
   */
  lemma ValidInputAccepted(titleText: string, lead: string, date: Date, trail: string, priority: Priority)
    requires Trim(titleText) != [] && IsFullDate(date)
    requires AllTrimmable(lead) && AllTrimmable(trail)
    ensures NewTask(titleText, lead + FormatDate(date) + trail, priority) == Ok(Created(Trim(titleText), date, priority))
  {
    var text := FormatDate(date);
    assert IsTrimmed(text) by {
      assert IsDigit(text[0]) && IsDigit(text[9]);
    }
    TrimUnique(lead, text, trail);
    ParseDateIff(text, date);
  }
}
