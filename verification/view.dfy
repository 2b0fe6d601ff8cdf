/**
 The task list as the screen shows it: one row per record, numbered from 1,
 each with a status marker, its fields, and Complete and Delete controls bound
 to the record's position at render time; or a single placeholder row when
 the list is empty. Widget construction and layout are not modelled.
 */
module View {
  import opened Maybe
  import opened Decimal
  import opened Tasks

  datatype Row =
    | Placeholder(text: string)
    | TaskRow(number: nat, status: string, title: string, category: string, due: string,
              priority: string, completeIndex: int, deleteIndex: int)

  const NoTasksText := "No tasks yet."
  const CheckedMark := "[✓]"
  const UncheckedMark := "[ ]"
  const NoDueDate := "N/A"

  /** How a looked-up value prints inside an f-string: a missing key prints
      as "None". */
  function Shown(v: Option<string>): (s: string)
    ensures v.Some? ==> s == v.value
    ensures v.None? ==> s == "None"
  {
    match v
    case Some(s) => s
    case None => "None"
  }

  /** What a row shows for one record: the marker is checked only when the
      record's `completed` key holds true, and the due date reads "N/A" when
      it is missing or empty. */
  ghost predicate Describes(row: Row, t: Task) {
    && row.TaskRow?
    && row.status == (if t.completed == Some(true) then CheckedMark else UncheckedMark)
    && row.title == Shown(t.title)
    && row.category == Shown(t.category)
    && row.due == (if t.dueDate == None || t.dueDate == Some("") then NoDueDate else t.dueDate.value)
    && row.priority == Shown(t.priority)
  }

  /** The row for record `t` shown with display number `number`; both of its
      controls act on position `number - 1`. */
  function RenderRow(number: nat, t: Task): (row: Row)
    ensures Describes(row, t)
    ensures row.number == number && row.completeIndex == number - 1 && row.deleteIndex == number - 1
  {
    var status := if t.completed.Or(false) then CheckedMark else UncheckedMark;
    var due := if t.dueDate.Or("") == "" then NoDueDate else t.dueDate.value;
    TaskRow(number, status, Shown(t.title), Shown(t.category), due, Shown(t.priority), number - 1, number - 1)
  }

  /** The rows for `tasks`, numbered consecutively from `first`. */
  function RenderFrom(tasks: seq<Task>, first: nat): (rows: seq<Row>)
    ensures |rows| == |tasks|
    ensures forall k :: 0 <= k < |tasks| ==>
      && Describes(rows[k], tasks[k])
      && rows[k].number == first + k
      && rows[k].completeIndex == first + k - 1
      && rows[k].deleteIndex == first + k - 1
  {
    if tasks == [] then [] else [RenderRow(first, tasks[0])] + RenderFrom(tasks[1..], first + 1)
  }

  /** The whole list as shown: the placeholder alone for an empty list,
      otherwise row k (0-based) describes record k, shows number k + 1 and
      acts on position k. */
  function Render(tasks: seq<Task>): (rows: seq<Row>)
    ensures tasks == [] <==> rows == [Placeholder(NoTasksText)]
    ensures tasks != [] ==> |rows| == |tasks|
    ensures tasks != [] ==> forall k :: 0 <= k < |tasks| ==>
      && Describes(rows[k], tasks[k])
      && rows[k].number == k + 1
      && rows[k].completeIndex == k
      && rows[k].deleteIndex == k
  {
    if tasks == [] then [Placeholder(NoTasksText)] else RenderFrom(tasks, 1)
  }

  /** The label text of a row, as the screen prints it: the display number,
      then the marker and fields on one line and the due date and priority on
      the next. */
  function Label(row: Row): (s: string)
    ensures row.Placeholder? ==> s == row.text
    ensures row.TaskRow? ==> |Show(row.number)| + 2 <= |s| && s[..|Show(row.number)| + 2] == Show(row.number) + ". "
  {
    match row
    case Placeholder(text) => text
    case TaskRow(number, _, _, _, _, _, _, _) => Show(number) + ". " + Details(row)
  }

  /** The part of a task row's label after its number. */
  function Details(row: Row): string
    requires row.TaskRow?
  {
    row.status + " " + row.title + " (" + row.category + ")\nDue: " + row.due + "  •  " + row.priority
  }

  /** Every control of a freshly rendered list acts on a valid position, and
      on the record its own row describes: Complete marks that record and
      Delete removes it. */
  lemma RenderedControlsValid(tasks: seq<Task>)
    ensures forall k :: 0 <= k < |Render(tasks)| && Render(tasks)[k].TaskRow? ==>
      && 0 <= Render(tasks)[k].completeIndex < |tasks|
      && 0 <= Render(tasks)[k].deleteIndex < |tasks|
      && MarkComplete(tasks, Render(tasks)[k].completeIndex).Accepted?
      && MarkComplete(tasks, Render(tasks)[k].completeIndex).value[k] == tasks[k].(completed := Some(true))
      && Delete(tasks, Render(tasks)[k].deleteIndex).Accepted?
      && Delete(tasks, Render(tasks)[k].deleteIndex).value.removedTitle == tasks[k].title.Or(DefaultTitle)
  {
  }

  /** Positions shift after a deletion: the last row of a list rendered
      before the deletion names a position that no longer exists, and the
      range check refuses it. */
  lemma StaleLastRowRefused(tasks: seq<Task>, index: int)
    requires Delete(tasks, index).Accepted?
    ensures Render(tasks)[|tasks| - 1].TaskRow?
    ensures MarkComplete(Delete(tasks, index).value.remaining, Render(tasks)[|tasks| - 1].completeIndex)
      == Refused(InvalidIndex)
    ensures Delete(Delete(tasks, index).value.remaining, Render(tasks)[|tasks| - 1].deleteIndex)
      == Refused(InvalidIndex)
  {
  }

  /** Index of the first character of `s` that is not a decimal digit. */
  function DigitRun(s: string): (n: nat)
    ensures n <= |s|
  {
    if s == [] || !IsDigit(s[0]) then 0 else 1 + DigitRun(s[1..])
  }

  lemma {:induction false} DigitRunOfNumber(digits: string, rest: string)
    requires AllDigits(digits) && rest != [] && !IsDigit(rest[0])
    ensures DigitRun(digits + rest) == |digits|
  {
    if digits != [] {
      assert (digits + rest)[1..] == digits[1..] + rest;
      DigitRunOfNumber(digits[1..], rest);
    }
  }

  /** The digit run at the head of a label is exactly its number. */
  lemma NumberIsDigitRun(n: nat, rest: string)
    requires rest != [] && !IsDigit(rest[0])
    ensures (Show(n) + rest)[..DigitRun(Show(n) + rest)] == Show(n)
  {
    DigitRunOfNumber(Show(n), rest);
    assert (Show(n) + rest)[..|Show(n)|] == Show(n);
  }

  /** Two labels can only be equal when their display numbers are. */
  lemma SameLabelSameNumber(a: nat, b: nat, x: string, y: string)
    requires Show(a) + ". " + x == Show(b) + ". " + y
    ensures a == b
  {
    assert Show(a) + ". " + x == Show(a) + (". " + x);
    assert Show(b) + ". " + y == Show(b) + (". " + y);
    NumberIsDigitRun(a, ". " + x);
    NumberIsDigitRun(b, ". " + y);
    ShowInjective(a, b);
  }

  /** Task rows with equal labels show equal numbers. */
  lemma SameRowLabelSameNumber(r1: Row, r2: Row)
    requires r1.TaskRow? && r2.TaskRow? && Label(r1) == Label(r2)
    ensures r1.number == r2.number
  {
    SameLabelSameNumber(r1.number, r2.number, Details(r1), Details(r2));
  }

  /** The rows of a rendered list have pairwise distinct labels, because each
      label starts with its row's number. */
  lemma LabelsDistinct(tasks: seq<Task>, i: nat, j: nat)
    requires i < |tasks| && j < |tasks| && i != j
    ensures Label(Render(tasks)[i]) != Label(Render(tasks)[j])
  {
    var rows := Render(tasks);
    assert rows[i].TaskRow? && rows[i].number == i + 1;
    assert rows[j].TaskRow? && rows[j].number == j + 1;
    if Label(rows[i]) == Label(rows[j]) {
      SameRowLabelSameNumber(rows[i], rows[j]);
    }
  }

  /** The label of a row that describes record `t`, spelled out from `t`. */
  lemma LabelOfDescribed(row: Row, t: Task)
    requires Describes(row, t)
    ensures Label(row) ==
      Show(row.number) + ". "
      + ((if t.completed == Some(true) then "[✓]" else "[ ]") + " " + Shown(t.title) + " (" + Shown(t.category)
         + ")\nDue: " + (if t.dueDate == None || t.dueDate == Some("") then "N/A" else t.dueDate.value)
         + "  •  " + Shown(t.priority))
  {
    assert Label(row) == Show(row.number) + ". " + Details(row);
  }

  /** The label of row k of a rendered list, spelled out from record k alone:
      the f-string of the row's label with the record's fields filled in. */
  lemma LabelOfTask(tasks: seq<Task>, k: nat)
    requires k < |tasks|
    ensures var t := tasks[k];
      Label(Render(tasks)[k]) ==
        Show(k + 1) + ". "
        + ((if t.completed == Some(true) then "[✓]" else "[ ]") + " " + Shown(t.title) + " (" + Shown(t.category)
           + ")\nDue: " + (if t.dueDate == None || t.dueDate == Some("") then "N/A" else t.dueDate.value)
           + "  •  " + Shown(t.priority))
  {
    LabelOfDescribed(Render(tasks)[k], tasks[k]);
  }
}
