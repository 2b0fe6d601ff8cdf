/**
 The task list and the three operations that change it: adding a task from
 the four form fields, marking the task at a position complete, and deleting
 the task at a position. A task's position in the list is its only identity.
 */
module Tasks {
  import opened Maybe
  import opened Text
  import opened Clock

  /** One stored record. The store is a hand-editable JSON file read with
      `dict.get`, so any key may be missing from a record read back. */
  datatype Task = Task(
    title: Option<string>,
    category: Option<string>,
    dueDate: Option<string>,
    priority: Option<string>,
    completed: Option<bool>,
    createdAt: Option<string>)

  /** The four text inputs of the add form, as typed. */
  datatype TaskInput = TaskInput(title: string, category: string, due: string, priority: string)

  /** The two validation errors the task operations report. */
  datatype Error = EmptyTitle | InvalidIndex {
    function Message(): string {
      match this
      case EmptyTitle => "Title cannot be empty."
      case InvalidIndex => "Invalid task index."
    }
  }

  const DefaultCategory := "General"
  const DefaultPriority := "Low"
  /** What a deletion notice names when the removed record has no title. */
  const DefaultTitle := "Task"

  /** What a record created from `input` at `now` holds, field by field:
      every field present, the texts trimmed, blank category and priority
      replaced by their defaults, priority capitalised, not yet completed. */
  ghost predicate CreatedFrom(t: Task, input: TaskInput, now: Stamp) {
    && t.title == Some(Strip(input.title))
    && t.category == Some(if IsBlank(input.category) then DefaultCategory else Strip(input.category))
    && t.dueDate == Some(Strip(input.due))
    && t.priority == Some(if IsBlank(input.priority) then DefaultPriority else Capitalize(Strip(input.priority)))
    && t.completed == Some(false)
    && t.createdAt == Some(CreatedAtText(now))
  }

  /** The shape of every record the application itself writes: all keys
      present, a non-empty trimmed title, a non-empty trimmed category, a
      non-empty trimmed capitalised priority, a trimmed due date and a
      creation time in the `created_at` format. */
  ghost predicate WellFormed(t: Task) {
    && t.title.Some? && t.title.value != [] && IsTrimmed(t.title.value)
    && t.category.Some? && t.category.value != [] && IsTrimmed(t.category.value)
    && t.dueDate.Some? && IsTrimmed(t.dueDate.value)
    && t.priority.Some? && t.priority.value != [] && IsTrimmed(t.priority.value)
    && Capitalize(t.priority.value) == t.priority.value
    && t.completed.Some?
    && t.createdAt.Some? && ParseCreatedAt(t.createdAt.value).Some?
  }

  ghost predicate AllWellFormed(tasks: seq<Task>) {
    forall k :: 0 <= k < |tasks| ==> WellFormed(tasks[k])
  }

  /** The record the add form makes from its inputs, or `EmptyTitle` when
      the title is blank. */
  function NewTask(input: TaskInput, now: Stamp): (r: Checked<Task, Error>)
    ensures r.Refused? <==> IsBlank(input.title)
    ensures r.Refused? ==> r.error == EmptyTitle
    ensures r.Accepted? ==> CreatedFrom(r.value, input, now)
  {
    var title := Strip(input.title);
    var category := OrElse(Strip(input.category), DefaultCategory);
    var due := Strip(input.due);
    var priority := OrElse(Capitalize(Strip(input.priority)), DefaultPriority);
    if title == [] then Refused(EmptyTitle)
    else Accepted(Task(Some(title), Some(category), Some(due), Some(priority), Some(false), Some(CreatedAtText(now))))
  }

  /** The default texts are themselves what the form would store. */
  lemma DefaultsWellFormed()
    ensures DefaultCategory != [] && IsTrimmed(DefaultCategory)
    ensures DefaultPriority != [] && IsTrimmed(DefaultPriority)
    ensures Capitalize(DefaultPriority) == DefaultPriority
  {
    var c := Capitalize(DefaultPriority);
    assert c[0] == 'L' && c[1] == 'o' && c[2] == 'w';
  }

  /** Every record the add form makes is well formed. */
  lemma NewTaskWellFormed(input: TaskInput, now: Stamp)
    requires !IsBlank(input.title)
    ensures WellFormed(NewTask(input, now).value)
  {
    var t := NewTask(input, now).value;
    ParseCreatedAtText(now);
    var p := Strip(input.priority);
    if IsBlank(input.priority) {
      DefaultsWellFormed();
    } else {
      CapitalizeKeepsTrimmed(p);
      CapitalizeIdempotent(p);
    }
    if IsBlank(input.category) {
      DefaultsWellFormed();
    }
  }

  /** Adding appends the new record after every existing one; a blank title
      is refused and the list is left as it was. */
  function Add(tasks: seq<Task>, input: TaskInput, now: Stamp): (r: Checked<seq<Task>, Error>)
    ensures r.Refused? <==> IsBlank(input.title)
    ensures r.Refused? ==> r.error == EmptyTitle
    ensures r.Accepted? ==> |r.value| == |tasks| + 1
    ensures r.Accepted? ==> r.value[..|tasks|] == tasks
    ensures r.Accepted? ==> CreatedFrom(r.value[|tasks|], input, now)
  {
    match NewTask(input, now)
    case Refused(e) => Refused(e)
    case Accepted(t) => Accepted(tasks + [t])
  }

  /** Sets the `completed` key of the record at `index`; an index outside the
      list is refused with `InvalidIndex`. */
  function MarkComplete(tasks: seq<Task>, index: int): (r: Checked<seq<Task>, Error>)
    ensures r.Refused? <==> !(0 <= index < |tasks|)
    ensures r.Refused? ==> r.error == InvalidIndex
    ensures r.Accepted? ==> |r.value| == |tasks|
    ensures r.Accepted? ==> r.value[index] == tasks[index].(completed := Some(true))
    ensures r.Accepted? ==> forall k :: 0 <= k < |tasks| && k != index ==> r.value[k] == tasks[k]
  {
    if 0 <= index < |tasks| then Accepted(tasks[index := tasks[index].(completed := Some(true))])
    else Refused(InvalidIndex)
  }

  /** What a successful deletion leaves and what its notice names. */
  datatype Removal = Removal(remaining: seq<Task>, removedTitle: string)

  /** Removes the record at `index`, keeping the others in order, and names
      the removed record's title (`DefaultTitle` when it has none); an index
      outside the list is refused with `InvalidIndex`. */
  function Delete(tasks: seq<Task>, index: int): (r: Checked<Removal, Error>)
    ensures r.Refused? <==> !(0 <= index < |tasks|)
    ensures r.Refused? ==> r.error == InvalidIndex
    ensures r.Accepted? ==> |r.value.remaining| == |tasks| - 1
    ensures r.Accepted? ==> forall k :: 0 <= k < index ==> r.value.remaining[k] == tasks[k]
    ensures r.Accepted? ==> forall k :: index <= k < |tasks| - 1 ==> r.value.remaining[k] == tasks[k + 1]
    ensures r.Accepted? ==> r.value.removedTitle == tasks[index].title.Or(DefaultTitle)
  {
    if 0 <= index < |tasks| then
      Accepted(Removal(tasks[..index] + tasks[index + 1..], tasks[index].title.Or(DefaultTitle)))
    else Refused(InvalidIndex)
  }

  /** Marking a record complete a second time changes nothing more. */
  lemma MarkCompleteIdempotent(tasks: seq<Task>, index: int)
    requires MarkComplete(tasks, index).Accepted?
    ensures MarkComplete(MarkComplete(tasks, index).value, index) == MarkComplete(tasks, index)
  {
    var once := MarkComplete(tasks, index).value;
    var twice := MarkComplete(once, index).value;
    assert |twice| == |once|;
    assert forall k :: 0 <= k < |tasks| ==> twice[k] == once[k];
    assert twice == once;
  }

  /** Completion is one-way: no record that was complete becomes incomplete,
      and no record's creation time changes. */
  lemma MarkCompleteMonotone(tasks: seq<Task>, index: int)
    requires MarkComplete(tasks, index).Accepted?
    ensures forall k :: 0 <= k < |tasks| && tasks[k].completed == Some(true) ==>
      MarkComplete(tasks, index).value[k].completed == Some(true)
    ensures forall k :: 0 <= k < |tasks| ==>
      MarkComplete(tasks, index).value[k].createdAt == tasks[k].createdAt
  {
  }

  /** Deleting removes exactly one occurrence of the record at `index` and
      nothing else. */
  lemma DeleteRemovesOne(tasks: seq<Task>, index: int)
    requires Delete(tasks, index).Accepted?
    ensures multiset(Delete(tasks, index).value.remaining) + multiset{tasks[index]} == multiset(tasks)
  {
    assert tasks == tasks[..index] + [tasks[index]] + tasks[index + 1..];
  }

  /** Deleting the last record of a list gives back the list before it. */
  lemma DeleteLast(tasks: seq<Task>, t: Task)
    ensures Delete(tasks + [t], |tasks|) == Accepted(Removal(tasks, t.title.Or(DefaultTitle)))
  {
    var all := tasks + [t];
    assert all[..|tasks|] + all[|tasks| + 1..] == tasks;
  }

  /** Deleting the record just added gives back the list from before the
      add, and names the trimmed title that was typed. */
  lemma DeleteUndoesAdd(tasks: seq<Task>, input: TaskInput, now: Stamp)
    requires !IsBlank(input.title)
    ensures Delete(Add(tasks, input, now).value, |tasks|) == Accepted(Removal(tasks, Strip(input.title)))
  {
    var added := Add(tasks, input, now).value;
    var t := added[|tasks|];
    assert added == tasks + [t];
    DeleteLast(tasks, t);
  }

  /** The three operations keep every record of a list well formed. */
  lemma AddKeepsWellFormed(tasks: seq<Task>, input: TaskInput, now: Stamp)
    requires AllWellFormed(tasks) && !IsBlank(input.title)
    ensures AllWellFormed(Add(tasks, input, now).value)
  {
    var t := NewTask(input, now).value;
    NewTaskWellFormed(input, now);
    assert Add(tasks, input, now).value == tasks + [t];
    AppendKeepsWellFormed(tasks, t);
  }

  /** Appending a well-formed record to a well-formed list. */
  lemma AppendKeepsWellFormed(tasks: seq<Task>, t: Task)
    requires AllWellFormed(tasks) && WellFormed(t)
    ensures AllWellFormed(tasks + [t])
  {
    var all := tasks + [t];
    forall k | 0 <= k < |all| ensures WellFormed(all[k]) {
      if k < |tasks| { assert all[k] == tasks[k]; } else { assert all[k] == t; }
    }
  }

  lemma MarkCompleteKeepsWellFormed(tasks: seq<Task>, index: int)
    requires AllWellFormed(tasks) && MarkComplete(tasks, index).Accepted?
    ensures AllWellFormed(MarkComplete(tasks, index).value)
  {
    var marked := MarkComplete(tasks, index).value;
    assert WellFormed(tasks[index]);
  }

  lemma DeleteKeepsWellFormed(tasks: seq<Task>, index: int)
    requires AllWellFormed(tasks) && Delete(tasks, index).Accepted?
    ensures AllWellFormed(Delete(tasks, index).value.remaining)
  {
    var rest := Delete(tasks, index).value.remaining;
    forall k | 0 <= k < |rest| ensures WellFormed(rest[k]) {
      if k < index { assert rest[k] == tasks[k]; } else { assert rest[k] == tasks[k + 1]; }
    }
  }

  /** A one-record list: completing its record and then deleting it leaves
      the empty list. */
  lemma CompleteThenDeleteSingle(t: Task)
    ensures MarkComplete([t], 0) == Accepted([t.(completed := Some(true))])
    ensures Delete([t.(completed := Some(true))], 0) == Accepted(Removal([], t.title.Or(DefaultTitle)))
  {
    var done := t.(completed := Some(true));
    assert [t][0 := done] == [done];
    assert [done][..0] + [done][1..] == [];
  }

  /** The example session on the list: adding "Buy milk" with every other
      field blank, completing it, and deleting it again. */
  lemma BuyMilkSession(now: Stamp)
    ensures var t := Task(Some("Buy milk"), Some("General"), Some(""), Some("Low"), Some(false), Some(CreatedAtText(now)));
      && Add([], TaskInput("Buy milk", "", "", ""), now) == Accepted([t])
      && MarkComplete([t], 0) == Accepted([t.(completed := Some(true))])
      && Delete([t.(completed := Some(true))], 0) == Accepted(Removal([], "Buy milk"))
  {
    var t := Task(Some("Buy milk"), Some("General"), Some(""), Some("Low"), Some(false), Some(CreatedAtText(now)));
    CompleteThenDeleteSingle(t);
    assert t.title.Or(DefaultTitle) == "Buy milk";
    assert !IsBlank("Buy milk") by { assert !IsSpace("Buy milk"[0]); }
    StripTrimmed("Buy milk");
  }

  /** Typed priority "high" is stored as "High". */
  lemma PriorityCapitalised(input: TaskInput, now: Stamp)
    requires !IsBlank(input.title) && input.priority == "high"
    ensures NewTask(input, now).value.priority == Some("High")
  {
    CapitalizeHigh();
    StripTrimmed("high");
    assert !IsBlank("high") by { assert !IsSpace("high"[0]); }
  }

  /** Python's `"high".capitalize()`. */
  lemma CapitalizeHigh()
    ensures Capitalize("high") == "High"
  {
    var c := Capitalize("high");
    assert c[0] == 'H' && c[1] == 'i' && c[2] == 'g' && c[3] == 'h';
  }
}
