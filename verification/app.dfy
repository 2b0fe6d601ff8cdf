/**
 The application as a state machine over the stored task list. Every user
 action loads the store, computes on the loaded list, writes the whole list
 back when it changed something, and re-renders; a refused action shows an
 error notice and writes nothing.
 */
module App {
  import opened Maybe
  import opened Text
  import opened Clock
  import opened Tasks
  import opened View
  import opened Export

  /** The content of the store file: a list of records, or `None` when the
      file is missing or cannot be read as one. */
  type Store = Option<seq<Task>>

  /** Loading never fails: an unreadable store reads as the empty list. */
  function Load(store: Store): (tasks: seq<Task>)
    ensures store.None? ==> tasks == []
    ensures store.Some? ==> tasks == store.value
  {
    store.Or([])
  }

  /** The heading a modal notice is shown under. */
  datatype Heading = ErrorHeading | DeletedHeading | ExportHeading {
    function Text(): string {
      match this
      case ErrorHeading => "Error"
      case DeletedHeading => "Deleted"
      case ExportHeading => "Export"
    }
  }

  /** A modal notice: its heading and its message. */
  datatype Notice = Notice(heading: Heading, message: string)

  /** The user's actions; the clock reading each one needs is passed in. */
  datatype Action =
    | AddTask(input: TaskInput, now: Stamp)
    | Complete(index: int)
    | Remove(index: int)
    | ExportTasks(now: Stamp)
    | Refresh

  /** What one action leaves behind: the store, the list on screen when it
      was re-rendered, the notice shown, and the export file written. */
  datatype Outcome = Outcome(store: Store, view: Option<seq<Row>>, notice: Option<Notice>, file: Option<ExportFile>)

  function ErrorNotice(e: Error): Notice {
    Notice(ErrorHeading, e.Message())
  }

  predicate IsError(o: Outcome) {
    o.notice.Some? && o.notice.value.heading == ErrorHeading
  }

  /** The add button: the title is checked before the store is loaded, and a
      blank one is refused; otherwise the record is appended, the whole list
      written back and re-rendered. */
  function AddAction(store: Store, input: TaskInput, now: Stamp): (o: Outcome)
    ensures o.view == (if IsError(o) then None else Some(Render(Load(o.store))))
    ensures IsError(o) <==> IsBlank(input.title)
    ensures IsError(o) ==> o == Outcome(store, None, Some(ErrorNotice(EmptyTitle)), None)
    ensures !IsError(o) ==> o.store.Some? && |o.store.value| == |Load(store)| + 1 && o.notice.None?
    ensures o.file.None?
  {
    if IsBlank(input.title) then Outcome(store, None, Some(ErrorNotice(EmptyTitle)), None)
    else
      var tasks := Add(Load(store), input, now).value;
      Outcome(Some(tasks), Some(Render(tasks)), None, None)
  }

  /** A row's Complete control: refused on a position outside the freshly
      loaded list, otherwise the record is marked, written back and re-rendered. */
  function CompleteAction(store: Store, index: int): (o: Outcome)
    ensures o.view == (if IsError(o) then None else Some(Render(Load(o.store))))
    ensures IsError(o) <==> !(0 <= index < |Load(store)|)
    ensures IsError(o) ==> o == Outcome(store, None, Some(ErrorNotice(InvalidIndex)), None)
    ensures !IsError(o) ==> o.store.Some? && |o.store.value| == |Load(store)| && o.notice.None?
    ensures o.file.None?
  {
    match MarkComplete(Load(store), index)
    case Refused(e) => Outcome(store, None, Some(ErrorNotice(e)), None)
    case Accepted(tasks) => Outcome(Some(tasks), Some(Render(tasks)), None, None)
  }

  /** A row's Delete control: refused on a position outside the freshly
      loaded list, otherwise the record is removed, the rest written back and
      re-rendered, and the removal is confirmed by title. */
  function RemoveAction(store: Store, index: int): (o: Outcome)
    ensures o.view == (if IsError(o) then None else Some(Render(Load(o.store))))
    ensures IsError(o) <==> !(0 <= index < |Load(store)|)
    ensures IsError(o) ==> o == Outcome(store, None, Some(ErrorNotice(InvalidIndex)), None)
    ensures !IsError(o) ==> o.store.Some? && |o.store.value| == |Load(store)| - 1
    ensures !IsError(o) ==> o.notice.Some? && o.notice.value.heading == DeletedHeading
    ensures o.file.None?
  {
    match Delete(Load(store), index)
    case Refused(e) => Outcome(store, None, Some(ErrorNotice(e)), None)
    case Accepted(removal) =>
      Outcome(Some(removal.remaining), Some(Render(removal.remaining)),
              Some(Notice(DeletedHeading, "Removed: " + removal.removedTitle)), None)
  }

  /** The export button: never changes the store; writes a file exactly when
      the list is non-empty, and says which. */
  function ExportAction(store: Store, now: Stamp): (o: Outcome)
    ensures o.store == store && o.view.None? && !IsError(o)
    ensures o.file.Some? <==> Load(store) != []
    ensures o.file.None? ==> o.notice == Some(Notice(ExportHeading, NothingToExport))
    ensures o.file.Some? ==> o.notice == Some(Notice(ExportHeading, "Exported to " + FileName(now)))
    ensures o.file == ExportCsv(Load(store), now)
  {
    match ExportCsv(Load(store), now)
    case None => Outcome(store, None, Some(Notice(ExportHeading, NothingToExport)), None)
    case Some(file) => Outcome(store, None, Some(Notice(ExportHeading, "Exported to " + file.name)), Some(file))
  }

  /** One user action on the store. */
  function Step(store: Store, action: Action): (o: Outcome)
    ensures o.view.Some? ==> o.view.value == Render(Load(o.store))
    ensures IsError(o) ==> o.store == store && o.view.None? && o.file.None?
    ensures !IsError(o) && !action.ExportTasks? ==> o.view == Some(Render(Load(o.store)))
    ensures action.ExportTasks? ==> o.file == ExportCsv(Load(store), action.now)
    ensures o.store != store ==> o.store.Some?
    ensures action.ExportTasks? || action.Refresh? ==> o.store == store
    ensures o.file.Some? <==> action.ExportTasks? && Load(store) != []
    ensures action.AddTask? ==> (IsError(o) <==> IsBlank(action.input.title))
    ensures action.AddTask? && !IsError(o) ==> |Load(o.store)| == |Load(store)| + 1
    ensures action.Complete? ==> (IsError(o) <==> !(0 <= action.index < |Load(store)|))
    ensures action.Complete? ==> |Load(o.store)| == |Load(store)|
    ensures action.Remove? ==> (IsError(o) <==> !(0 <= action.index < |Load(store)|))
    ensures action.Remove? && !IsError(o) ==> |Load(o.store)| == |Load(store)| - 1
  {
    match action
    case AddTask(input, now) => AddAction(store, input, now)
    case Complete(index) => CompleteAction(store, index)
    case Remove(index) => RemoveAction(store, index)
    case ExportTasks(now) => ExportAction(store, now)
    case Refresh => Outcome(store, Some(Render(Load(store))), None, None)
  }

  /** The store after a sequence of actions, applied in order. A session
      only ever replaces the store by a whole list, and a session of exports
      and refreshes leaves it as it was. */
  function Run(store: Store, actions: seq<Action>): (r: Store)
    ensures r != store ==> r.Some?
    ensures (forall i :: 0 <= i < |actions| ==> actions[i].ExportTasks? || actions[i].Refresh?) ==> r == store
    decreases |actions|
  {
    if actions == [] then store else Run(Step(store, actions[0]).store, actions[1..])
  }

  /** Running two sessions one after the other is running them as one. */
  lemma {:induction false} RunAppend(store: Store, first: seq<Action>, second: seq<Action>)
    ensures Run(store, first + second) == Run(Run(store, first), second)
    decreases |first|
  {
    if first == [] {
      assert first + second == second;
    } else {
      assert (first + second)[0] == first[0];
      assert (first + second)[1..] == first[1..] + second;
      RunAppend(Step(store, first[0]).store, first[1..], second);
    }
  }

  /** After an add, the store holds exactly the loaded list with the new
      record appended, or is untouched when the title was blank. */
  lemma AddStepStore(store: Store, input: TaskInput, now: Stamp)
    ensures Add(Load(store), input, now).Accepted? ==>
      Step(store, AddTask(input, now)).store == Some(Load(store) + [NewTask(input, now).value])
    ensures Add(Load(store), input, now).Refused? ==>
      Step(store, AddTask(input, now)) == Outcome(store, None, Some(Notice(ErrorHeading, "Title cannot be empty.")), None)
  {
    assert ErrorNotice(EmptyTitle) == Notice(ErrorHeading, "Title cannot be empty.");
  }

  /** After a completion, the store holds exactly the loaded list with the one
      record marked, or is untouched when the index was out of range. */
  lemma CompleteStepStore(store: Store, index: int)
    ensures 0 <= index < |Load(store)| ==>
      Step(store, Complete(index)).store == Some(Load(store)[index := Load(store)[index].(completed := Some(true))])
    ensures !(0 <= index < |Load(store)|) ==>
      Step(store, Complete(index)) == Outcome(store, None, Some(Notice(ErrorHeading, "Invalid task index.")), None)
  {
    assert ErrorNotice(InvalidIndex) == Notice(ErrorHeading, "Invalid task index.");
  }

  /** After a deletion, the store holds exactly the loaded list without the
      one record and the notice names its title, or the store is untouched
      when the index was out of range. */
  lemma RemoveStepStore(store: Store, index: int)
    ensures 0 <= index < |Load(store)| ==>
      && Step(store, Remove(index)).store == Some(Load(store)[..index] + Load(store)[index + 1..])
      && Step(store, Remove(index)).notice == Some(Notice(DeletedHeading, "Removed: " + Load(store)[index].title.Or("Task")))
    ensures !(0 <= index < |Load(store)|) ==>
      Step(store, Remove(index)) == Outcome(store, None, Some(Notice(ErrorHeading, "Invalid task index.")), None)
  {
    assert ErrorNotice(InvalidIndex) == Notice(ErrorHeading, "Invalid task index.");
  }

  /** One action keeps every stored record well formed. */
  lemma StepKeepsWellFormed(store: Store, action: Action)
    requires AllWellFormed(Load(store))
    ensures AllWellFormed(Load(Step(store, action).store))
  {
    var tasks := Load(store);
    match action
    case AddTask(input, now) =>
      if Add(tasks, input, now).Accepted? { AddKeepsWellFormed(tasks, input, now); }
    case Complete(index) =>
      if MarkComplete(tasks, index).Accepted? { MarkCompleteKeepsWellFormed(tasks, index); }
    case Remove(index) =>
      if Delete(tasks, index).Accepted? { DeleteKeepsWellFormed(tasks, index); }
    case ExportTasks(_) =>
    case Refresh =>
  }

  /** Any sequence of actions started on a store of well-formed records (an
      empty or unreadable one included) leaves only well-formed records. */
  lemma {:induction false} RunKeepsWellFormed(store: Store, actions: seq<Action>)
    requires AllWellFormed(Load(store))
    ensures AllWellFormed(Load(Run(store, actions)))
    decreases |actions|
  {
    if actions != [] {
      StepKeepsWellFormed(store, actions[0]);
      RunKeepsWellFormed(Step(store, actions[0]).store, actions[1..]);
    }
  }

  /** A successful add on an unreadable store replaces it with a list that
      holds only the new record; completing or deleting on it is refused
      and leaves it unreadable. */
  lemma UnreadableStore(input: TaskInput, now: Stamp, index: int)
    requires !IsBlank(input.title)
    ensures Step(None, AddTask(input, now)).store == Some([NewTask(input, now).value])
    ensures Step(None, Complete(index)) == Outcome(None, None, Some(Notice(ErrorHeading, "Invalid task index.")), None)
    ensures Step(None, Remove(index)) == Outcome(None, None, Some(Notice(ErrorHeading, "Invalid task index.")), None)
  {
    AddStepStore(None, input, now);
    CompleteStepStore(None, index);
    RemoveStepStore(None, index);
    assert [] + [NewTask(input, now).value] == [NewTask(input, now).value];
  }

  /** Exporting an empty store writes no file and says so. */
  lemma ExportEmpty(store: Store, now: Stamp)
    requires Load(store) == []
    ensures Step(store, ExportTasks(now)) == Outcome(store, None, Some(Notice(ExportHeading, "No tasks to export.")), None)
  {
  }
}
