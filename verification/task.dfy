/** The task record of src/models/task.py: constructor validation and
    normalisation, the one-line display form, and the dictionary round trip. */
module TaskModel {
  import opened Results
  import opened Text

  /** One unit of work. Tasks are values: the store replaces a task rather
      than mutating a shared object. */
  datatype Task = Task(id: int, title: string, description: string, completed: bool)

  /** Why the constructor or `from_dict` refused its input. */
  datatype TaskError =
    | EmptyTitle            // `not title`
    | NonPositiveId         // `task_id <= 0`
    | MissingKey(key: string) // `data[key]` on a dictionary without that key

  /** What every task the constructor builds satisfies: a positive id and a
      title with no whitespace at either end. */
  predicate WellFormed(t: Task) {
    t.id > 0 && IsStripped(t.title)
  }

  /** The constructor `Task(task_id, title, description, completed)`.
      `description` is `None` for Python's `None`. The title is checked for
      emptiness BEFORE it is stripped, so an all-whitespace title passes and
      is stored as "". */
  function NewTask(taskId: int, title: string, description: Option<string>, completed: bool): (r: Result<Task, TaskError>)
    ensures r == Failure(EmptyTitle) <==> title == []
    ensures r == Failure(NonPositiveId) <==> title != [] && taskId <= 0
    ensures r.Success? <==> title != [] && taskId > 0
    ensures r.Success? ==> WellFormed(r.value)
    ensures r.Success? ==> r.value.id == taskId && r.value.completed == completed
    ensures r.Success? ==> r.value.title == Strip(title)
    ensures r.Success? ==> (r.value.title == [] <==> AllWhitespace(title))
    ensures r.Success? && description.Some? ==> r.value.description == description.value
    ensures r.Success? && description.None? ==> r.value.description == ""
  {
    if title == [] then Failure(EmptyTitle)
    else if taskId <= 0 then Failure(NonPositiveId)
    else Success(Task(taskId, Strip(title), description.GetOr(""), completed))
  }

  /** The constructor accepts a whitespace-only title and stores it empty;
      only the service's own check keeps such a task out of the store. */
  lemma WhitespaceTitleAccepted(taskId: int, title: string)
    requires taskId > 0 && title != [] && AllWhitespace(title)
    ensures NewTask(taskId, title, None, false) == Success(Task(taskId, "", "", false))
  {
  }

  /** The status mark that opens a task's display line. */
  function StatusMark(completed: bool): string {
    if completed then "[x]" else "[ ]"
  }

  /** `str(task)`: `[x] <id>: <title> — <description>`, or `[ ]` when not completed. */
  function Display(t: Task): (line: string)
    ensures |line| == |IntToString(t.id)| + |t.title| + |t.description| + 9
  {
    StatusMark(t.completed) + " " + IntToString(t.id) + ": " + t.title + " \U{2014} " + t.description
  }

  /** The first four characters of the display line are the mark and a space. */
  lemma DisplayOpening(t: Task)
    ensures |Display(t)| >= 4 && Display(t)[..4] == StatusMark(t.completed) + " "
  {
    var p1 := StatusMark(t.completed) + " ";
    var rest := IntToString(t.id) + ": " + t.title + " \U{2014} " + t.description;
    assert Display(t) == p1 + rest;
    SliceOfPrefix(p1, rest, 0, 4);
  }

  /** The display line starts with `[x]` exactly when the task is completed
      and with `[ ]` exactly when it is not, followed by a space. */
  lemma DisplayStatus(t: Task)
    ensures Display(t)[..3] == "[x]" <==> t.completed
    ensures Display(t)[..3] == "[ ]" <==> !t.completed
    ensures Display(t)[3] == ' '
  {
    DisplayOpening(t);
    var line := Display(t);
    assert line[..3] == line[..4][..3];
    assert line[..3] == StatusMark(t.completed);
    assert "[ ]"[1] != "[x]"[1];
  }

  /** After the status mark and a space, the display line carries the id as
      `str` renders it (a minus sign exactly for a negative id; for any other
      id, digits that read back as the id), then ": " and the title, then the
      separator and the description, which end the line. */
  lemma DisplayFields(t: Task)
    ensures var d := IntToString(t.id);
      var line := Display(t);
      && |line| >= 6 + |d| + |t.title|
      && line[4..4 + |d|] == d
      && (d[0] == '-' <==> t.id < 0)
      && (t.id >= 0 ==> DecimalValue(d) == t.id)
      && line[4 + |d|..6 + |d|] == ": "
      && line[6 + |d|..6 + |d| + |t.title|] == t.title
      && line[6 + |d| + |t.title|..] == " \U{2014} " + t.description
  {
    DisplayLayout(t);
  }

  /** Where each field of the display line sits. */
  lemma DisplayLayout(t: Task)
    ensures var d := IntToString(t.id);
      var line := Display(t);
      && |line| >= 6 + |d| + |t.title|
      && line[4..4 + |d|] == d
      && line[4 + |d|..6 + |d|] == ": "
      && line[6 + |d|..6 + |d| + |t.title|] == t.title
      && line[6 + |d| + |t.title|..] == " \U{2014} " + t.description
  {
    LineLayout(StatusMark(t.completed), IntToString(t.id), t.title, t.description);
  }

  /** The layout of a line built like a display line, over plain strings. */
  lemma LineLayout(mark: string, d: string, title: string, desc: string)
    requires |mark| == 3
    ensures var line := mark + " " + d + ": " + title + " \U{2014} " + desc;
      && |line| >= 6 + |d| + |title|
      && line[4..4 + |d|] == d
      && line[4 + |d|..6 + |d|] == ": "
      && line[6 + |d|..6 + |d| + |title|] == title
      && line[6 + |d| + |title|..] == " \U{2014} " + desc
  {
    var p1 := mark + " ";
    var fields := d + ": " + title;
    var rest := " \U{2014} " + desc;
    assert mark + " " + d + ": " + title + " \U{2014} " + desc == p1 + fields + rest;
    FieldsAt(p1, d, title, rest);
    TailAt(p1 + fields, rest);
  }

  lemma TailAt(p: string, rest: string)
    ensures (p + rest)[|p|..] == rest
  {
  }

  lemma FieldsAt(p: string, d: string, title: string, rest: string)
    ensures var line := p + (d + ": " + title) + rest;
      && |line| >= |p| + 2 + |d| + |title|
      && line[|p|..|p| + |d|] == d
      && line[|p| + |d|..|p| + |d| + 2] == ": "
      && line[|p| + |d| + 2..|p| + |d| + 2 + |title|] == title
  {
    var f := d + ": " + title;
    var line := p + f + rest;
    SliceOfPrefix(p + f, rest, |p|, |p| + |f|);
    assert (p + f)[|p|..|p| + |f|] == f;
    assert line[|p|..|p| + |f|] == f;
    assert f[..|d|] == d && f[|d|..|d| + 2] == ": " && f[|d| + 2..] == title;
    assert line[|p|..|p| + |d|] == f[..|d|];
    assert line[|p| + |d|..|p| + |d| + 2] == f[|d|..|d| + 2];
    assert line[|p| + |d| + 2..|p| + |f|] == f[|d| + 2..];
  }

  lemma SliceOfPrefix(p: string, q: string, i: int, j: int)
    requires 0 <= i <= j <= |p|
    ensures (p + q)[i..j] == p[i..j]
  {
  }

  /** The dictionary form of a task; `None` stands for a key that is absent. */
  datatype TaskDict = TaskDict(
    id: Option<int>,
    title: Option<string>,
    description: Option<string>,
    completed: Option<bool>)

  /** `to_dict()`: all four keys present, each holding the task's field. */
  function ToDict(t: Task): (d: TaskDict)
    ensures d.id.Some? && d.title.Some? && d.description.Some? && d.completed.Some?
    ensures d.id.value == t.id && d.title.value == t.title
    ensures d.description.value == t.description && d.completed.value == t.completed
  {
    TaskDict(Some(t.id), Some(t.title), Some(t.description), Some(t.completed))
  }

  /** `Task.from_dict(data)`: `id` and `title` are required keys (read in that
      order); a missing description defaults to "" and a missing completion
      flag to false; then the constructor validates. */
  function FromDict(d: TaskDict): (r: Result<Task, TaskError>)
    ensures d.id.None? ==> r == Failure(MissingKey("id"))
    ensures d.id.Some? && d.title.None? ==> r == Failure(MissingKey("title"))
    ensures r.Success? <==> d.id.Some? && d.title.Some? && d.title.value != [] && d.id.value > 0
    ensures r.Success? ==> WellFormed(r.value)
    ensures r.Success? ==> r.value.id == d.id.value && r.value.title == Strip(d.title.value)
    ensures r.Success? && d.description.None? ==> r.value.description == ""
    ensures r.Success? && d.description.Some? ==> r.value.description == d.description.value
    ensures r.Success? && d.completed.None? ==> !r.value.completed
    ensures r.Success? && d.completed.Some? ==> r.value.completed == d.completed.value
  {
    match d.id
    case None => Failure(MissingKey("id"))
    case Some(id) =>
      match d.title
      case None => Failure(MissingKey("title"))
      case Some(title) => NewTask(id, title, Some(d.description.GetOr("")), d.completed.GetOr(false))
  }

  /** Serialising a well-formed task with a non-empty title and reading it
      back reproduces the task exactly; this rests on `strip()` being
      idempotent. */
  lemma {:induction false} DictRoundTrip(t: Task)
    requires WellFormed(t) && t.title != []
    ensures FromDict(ToDict(t)) == Success(t)
  {
    StrippedIsFixpoint(t.title);
  }

  /** Every task the constructor builds with a non-blank title survives the
      dictionary round trip. */
  lemma ConstructedRoundTrip(taskId: int, title: string, description: Option<string>, completed: bool)
    requires NewTask(taskId, title, description, completed).Success?
    requires !AllWhitespace(title)
    ensures var t := NewTask(taskId, title, description, completed).value;
      FromDict(ToDict(t)) == Success(t)
  {
    DictRoundTrip(NewTask(taskId, title, description, completed).value);
  }

  /** The round trip fails for the one kind of task the constructor accepts
      with an empty stored title: one built from a whitespace-only title. */
  lemma BlankTitleBreaksRoundTrip(taskId: int, title: string)
    requires taskId > 0 && title != [] && AllWhitespace(title)
    ensures var t := NewTask(taskId, title, None, false).value;
      FromDict(ToDict(t)) == Failure(EmptyTitle)
  {
  }
}
