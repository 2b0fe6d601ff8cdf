/**
 The content of a CSV export: the file name built from the export instant,
 a header row with the fixed field order, and one row per record in list
 order. Writing the file and CSV quoting are not modelled; cells are the
 texts the CSV writer is given.
 */
module Export {
  import opened Maybe
  import opened Clock
  import opened Tasks

  const Fields: seq<string> := ["title", "category", "due_date", "priority", "completed", "created_at"]
  const NothingToExport := "No tasks to export."

  /** A value of the dictionary handed to the CSV writer for one record: a
      string, a boolean, or Python's `None` for a key the record lacks. */
  datatype Entry = Str(s: string) | Flag(b: bool) | Null

  /** A looked-up text value as the dictionary holds it. */
  function TextEntry(v: Option<string>): Entry {
    if v.Some? then Str(v.value) else Null
  }

  /** The dictionary built for record `t`, looked up by column name: every key
      is read with `get`, and `created_at` falls back to "" when missing. */
  function RowDict(t: Task, name: string): Entry {
    if name == "title" then TextEntry(t.title)
    else if name == "category" then TextEntry(t.category)
    else if name == "due_date" then TextEntry(t.dueDate)
    else if name == "priority" then TextEntry(t.priority)
    else if name == "completed" then (if t.completed.Some? then Flag(t.completed.value) else Null)
    else if name == "created_at" then Str(t.createdAt.Or(""))
    else Null
  }

  /** The text the CSV writer writes for a value: `None` as the empty string,
      a boolean as Python prints it, a string as itself. */
  function Written(e: Entry): string {
    match e
    case Str(s) => s
    case Flag(b) => if b then "True" else "False"
    case Null => ""
  }

  /** The data row of one record, one cell per header field. */
  function CsvRow(t: Task): (cells: seq<string>)
    ensures |cells| == |Fields|
  {
    var completed := match t.completed
      case Some(true) => "True"
      case Some(false) => "False"
      case None => "";
    [t.title.Or(""), t.category.Or(""), t.dueDate.Or(""), t.priority.Or(""), completed, t.createdAt.Or("")]
  }

  /** The cell under each header field is the written form of the value the
      record's dictionary holds under that field's name: so a missing key gives
      an empty cell, `completed` gives "True" or "False", and a missing
      `created_at` gives "". */
  lemma CsvRowByName(t: Task)
    ensures forall i :: 0 <= i < |Fields| ==> CsvRow(t)[i] == Written(RowDict(t, Fields[i]))
  {
    var cells := CsvRow(t);
    assert cells[0] == Written(RowDict(t, "title"));
    assert cells[1] == Written(RowDict(t, "category"));
    assert cells[2] == Written(RowDict(t, "due_date"));
    assert cells[3] == Written(RowDict(t, "priority"));
    assert cells[4] == Written(RowDict(t, "completed"));
    assert cells[5] == Written(RowDict(t, "created_at"));
  }

  /** A written export: its file name and its rows, header first. */
  datatype ExportFile = ExportFile(name: string, table: seq<seq<string>>)

  /** The export file's name: a fixed prefix, the export instant's stamp and
      the `.csv` extension. */
  function FileName(now: Stamp): (name: string)
    ensures |name| == 32
    ensures name[..13] == "tasks_export_" && name[28..] == ".csv"
    ensures name[13..28] == ExportStampText(now)
  {
    "tasks_export_" + ExportStampText(now) + ".csv"
  }

  /** Exports made at different instants go to different files. */
  lemma FileNamesDistinct(a: Stamp, b: Stamp)
    requires a != b
    ensures FileName(a) != FileName(b)
  {
    if FileName(a) == FileName(b) {
      assert ExportStampText(a) == FileName(a)[13..28];
      ExportStampInjective(a, b);
    }
  }

  /** The export of `tasks` made at `now`; nothing at all when the list is
      empty. */
  function ExportCsv(tasks: seq<Task>, now: Stamp): (r: Option<ExportFile>)
    ensures r.None? <==> tasks == []
    ensures r.Some? ==> r.value.name == FileName(now)
    ensures r.Some? ==> |r.value.table| == |tasks| + 1 && r.value.table[0] == Fields
    ensures r.Some? ==> forall k :: 0 <= k < |tasks| ==> r.value.table[k + 1] == CsvRow(tasks[k])
    ensures r.Some? ==> forall k :: 0 <= k < |r.value.table| ==> |r.value.table[k]| == |Fields|
  {
    if tasks == [] then None
    else Some(ExportFile(FileName(now), [Fields] + seq(|tasks|, k requires 0 <= k < |tasks| => CsvRow(tasks[k]))))
  }

  /** Reads a data row back into a record, taking every text cell as present
      and the `completed` cell as a boolean when it is one. */
  function ReadRow(cells: seq<string>): Task
    requires |cells| == |Fields|
  {
    var completed := if cells[4] == "True" then Some(true) else if cells[4] == "False" then Some(false) else None;
    Task(Some(cells[0]), Some(cells[1]), Some(cells[2]), Some(cells[3]), completed, Some(cells[5]))
  }

  /** Any record, whatever keys it lacks, comes back from its export row with
      every missing text key read as the empty string and its `completed`
      key as it was. */
  lemma ReadRowOfAnyCsvRow(t: Task)
    ensures ReadRow(CsvRow(t)) == t.(title := Some(t.title.Or("")), category := Some(t.category.Or("")),
      dueDate := Some(t.dueDate.Or("")), priority := Some(t.priority.Or("")), createdAt := Some(t.createdAt.Or("")))
  {
  }

  /** Every key of the record is present, as in every record the add form makes. */
  predicate AllPresent(t: Task) {
    t.title.Some? && t.category.Some? && t.dueDate.Some? && t.priority.Some? && t.completed.Some? && t.createdAt.Some?
  }

  /** A record with every key present survives a row of the export unchanged. */
  lemma ReadRowOfCsvRow(t: Task)
    requires AllPresent(t)
    ensures ReadRow(CsvRow(t)) == t
  {
  }

  /** Reading back the data rows of an export gives the exported list again,
      in order, when every record has all its keys (so in particular for every
      list the application itself builds). */
  lemma ExportRoundTrip(tasks: seq<Task>, now: Stamp)
    requires tasks != [] && forall k :: 0 <= k < |tasks| ==> AllPresent(tasks[k])
    ensures var table := ExportCsv(tasks, now).value.table;
      seq(|tasks|, k requires 0 <= k < |tasks| => ReadRow(table[k + 1])) == tasks
  {
    var table := ExportCsv(tasks, now).value.table;
    var back := seq(|tasks|, k requires 0 <= k < |tasks| => ReadRow(table[k + 1]));
    forall k | 0 <= k < |tasks| ensures back[k] == tasks[k] {
      assert table[k + 1] == CsvRow(tasks[k]);
      ReadRowOfCsvRow(tasks[k]);
    }
    assert back == tasks;
  }
}
