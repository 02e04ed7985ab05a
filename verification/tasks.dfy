/** checkDate: the date normalisation applied to a task before it is stored. */
module Tasks {
  import opened Results
  import opened Decimal
  import opened Calendar
  import opened DateText
  import opened Rules
  import opened Recurrence

  /** A stored task; every field is text, the date in the layout YYYYMMDD. */
  datatype Task = Task(id: string, date: string, title: string, comment: string, repeat: string)

  /** The two errors checkDate reports. */
  datatype CheckError =
    | InvalidDateFormat  // "invalid date format"
    | InvalidRepeatRule  // "invalid repeat rule"

  /** checkDate(task) with the clock read as `today` (midnight dropped):
      an empty date becomes today; a date before today becomes today when the
      task does not repeat and the rule's next date when it does; any other
      date is kept. Only the date field can change. */
  function CheckDate(today: Date, task: Task): (r: Result<Task, CheckError>)
    requires Valid(today)
    ensures r.Ok? ==> r.value == task.(date := r.value.date)
    ensures r.Ok? ==> r.value.date != ""
    ensures r == Err(InvalidDateFormat) <==> task.date != "" && ParseDate(task.date).None?
    ensures r == Err(InvalidRepeatRule) <==>
      && task.date != "" && ParseDate(task.date).Some?
      && Before(ParseDate(task.date).value, today)
      && task.repeat != ""
      && (NextDate(today, task.date, task.repeat).Err? || NextDate(today, task.date, task.repeat) == Ok(""))
    ensures task.date != "" && ParseDate(task.date).Some? && !Before(ParseDate(task.date).value, today) ==>
      r == Ok(task)
    ensures task.date == "" ==> r == Ok(task.(date := FormatDate(today)))
    ensures task.date != "" && ParseDate(task.date).Some? && Before(ParseDate(task.date).value, today) && task.repeat == "" ==>
      r == Ok(task.(date := FormatDate(today)))
    ensures r.Ok? && r.value.date != task.date && task.date != "" && task.repeat != "" ==>
      NextDate(today, task.date, task.repeat) == Ok(r.value.date)
  {
    if task.date == "" then
      Ok(task.(date := FormatDate(today)))
    else
      match ParseDate(task.date)
      case None => Err(InvalidDateFormat)
      case Some(d) =>
        if !Before(d, today) then
          Ok(task)
        else if task.repeat == "" then
          Ok(task.(date := FormatDate(today)))
        else
          match NextDate(today, task.date, task.repeat)
          case Err(_) => Err(InvalidRepeatRule)
          case Ok(next) => if next == "" then Err(InvalidRepeatRule) else Ok(task.(date := next))
  }

  /** A checked date is never before today. When an overdue repeating task is
      moved, it moves strictly after today. */
  lemma CheckDateNotBeforeToday(today: Date, task: Task) returns (d: Date)
    requires Valid(today) && CheckDate(today, task).Ok?
    ensures Valid(d) && FormatDate(d) == CheckDate(today, task).value.date
    ensures !Before(d, today)
    ensures task.date != "" && task.repeat != "" && CheckDate(today, task).value.date != task.date ==>
      After(d, today)
  {
    if task.date == "" {
      d := today;
    } else {
      var parsed := ParseDate(task.date).value;
      if !Before(parsed, today) {
        d := parsed;
      } else if task.repeat == "" {
        d := today;
      } else {
        d := NextDateAfter(today, task.date, task.repeat);
      }
    }
  }

  /** Checking a checked task again changes nothing, provided its date still
      fits the four-digit-year layout. */
  lemma CheckDateIdempotent(today: Date, task: Task)
    requires Valid(today) && CheckDate(today, task).Ok?
    requires ParseDate(CheckDate(today, task).value.date).Some?
    ensures CheckDate(today, CheckDate(today, task).value) == CheckDate(today, task)
  {
    var checked := CheckDate(today, task).value;
    var d := CheckDateNotBeforeToday(today, task);
    if d.year > 9999 {
      FormatBeyondLayout(d);
      assert false;
    }
    ParseFormat(d);
  }
}
