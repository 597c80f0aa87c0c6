/** The Task entity: one trackable work item, its construction-time
    validation and its one-or-two-line display form. */
module Models {
  import opened Wrappers
  import opened Strings

  /** A task as the registry stores it. Python mutates title, description
      and completed in place; here a change builds a new value. */
  datatype Task = Task(id: int, title: string, description: string, completed: bool)

  /** The one validation failure: the title is empty or whitespace only
      (Python raises ValueError). */
  datatype ValidationError = EmptyTitle

  /** What every constructed task satisfies: a non-empty title and a
      description, both with no whitespace at either end. */
  predicate WellFormed(t: Task) {
    t.title != [] && Trimmed(t.title) && Trimmed(t.description)
  }

  /** Task(task_id, title, description, completed). Python's defaults are
      description = "" and completed = False; callers pass them here. */
  function NewTask(id: int, title: string, description: string, completed: bool): (r: Result<Task, ValidationError>)
    ensures r.Err? <==> AllSpace(title)
    ensures r.Ok? ==> r.value.id == id && r.value.completed == completed
    ensures r.Ok? ==> r.value.title == Trim(title) && r.value.description == Trim(description)
    ensures r.Ok? ==> WellFormed(r.value)
  {
    if title == [] || Trim(title) == [] then
      Err(EmptyTitle)
    else
      assert description == [] ==> AllSpace(description);
      Ok(Task(id, Trim(title), if description != [] then Trim(description) else [], completed))
  }

  /** The two status glyphs: a check mark for done, a circle for pending. */
  const DoneMark: char := '\U{2713}'
  const PendingMark: char := '\U{25CB}'

  function StatusMark(completed: bool): char {
    if completed then DoneMark else PendingMark
  }

  /** The first display line: "[<mark>] ID: <id> - <title>". */
  function Summary(t: Task): string {
    "[" + [StatusMark(t.completed)] + "] ID: " + IntToString(t.id) + " - " + t.title
  }

  const DescriptionPrefix: string := "\n    Description: "

  /** Task.__str__: the summary line, followed by an indented description
      line only when the description is not empty. */
  function Display(t: Task): (s: string)
    ensures |Summary(t)| <= |s| && s[..|Summary(t)|] == Summary(t)
    ensures s == Summary(t) <==> t.description == []
    ensures t.description != [] ==> s[|Summary(t)|..] == DescriptionPrefix + t.description
    ensures s[1] == (if t.completed then DoneMark else PendingMark)
  {
    Summary(t) + if t.description != [] then DescriptionPrefix + t.description else []
  }

  /** The status marker depends on the completed flag and nothing else. */
  lemma DisplayMarkerIsStatus(t1: Task, t2: Task)
    ensures Display(t1)[1] == Display(t2)[1] <==> t1.completed == t2.completed
  {
  }

  /** The id printed after "ID: " reads back as the task's id. */
  lemma DisplayShowsId(t: Task)
    ensures 8 + |IntToString(t.id)| <= |Display(t)|
    ensures ParseInt(Display(t)[8..8 + |IntToString(t.id)|]) == t.id
  {
    var n := IntToString(t.id);
    var head := "[" + [StatusMark(t.completed)] + "] ID: ";
    assert |head| == 8;
    assert Summary(t) == head + n + " - " + t.title;
    assert Display(t)[8..8 + |n|] == Summary(t)[8..8 + |n|] == n;
    IntToStringRoundTrip(t.id);
  }
}
