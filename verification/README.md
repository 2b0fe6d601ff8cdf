# Task list core of the Kivy to-do app

This project models the logic inside `RootWidget` of `todo_app_kivy.py`, a
single-user task-list app whose store is a JSON array of task records. The
Kivy widgets and the file calls are taken away. What is left is a small
sequential state machine over a list of `Task` records:

- **Add**: the four form fields are trimmed. A blank title is refused. A blank
  category becomes "General". The priority is capitalised, and a blank one
  becomes "Low". The record is appended with `completed` false and
  `created_at` set to the creation instant.
- **Complete** and **Delete** act on a position in the list. They re-check the
  range against the freshly loaded list and refuse a position outside it with
  "Invalid task index.".
- **Render**: the list on screen is a view-model. An empty list shows one
  placeholder row. Otherwise there is one numbered row per record, with a
  status marker, "N/A" for a missing due date, and Complete/Delete controls
  bound to the row's position.
- **Export**: an empty list gives no file and the message "No tasks to export.".
  Otherwise the export is a header with a fixed field order and one row per
  record, in list order.
- **Load**: a missing or unreadable store reads as the empty list.

Modules, one per concern, each in its own file:
`Maybe` (missing values and refusals), `Text` (Python's `strip`/`capitalize`), `Decimal`
(decimal digits of numbers), `Clock` (the two `strftime` formats),
`Tasks` (the record and the three list operations), `View` (rendering),
`Export` (CSV content), `App` (the store and one step per user action).

Stored records keep every field as an `Option`. The store is a JSON file
that can be edited by hand, and the source reads records with `dict.get`, so a
key can be missing. That is what gives meaning to the "Task" default in the
deletion notice, the empty `created_at` default in the export, and the "None"
a missing field prints as on screen. Every record the app writes itself is
`Tasks.WellFormed`, and every action keeps that invariant (`App.RunKeepsWellFormed`).

The clock (`datetime.now()`) is a parameter. Each action that needs it takes a
`Clock.Stamp`, which is an instant with every field in `datetime`'s range.

The due date is trimmed like the other fields (todo_app_kivy.py:128), and so
it is in `Tasks.NewTask`.

## Model

| member | source | states |
|---|---|---|
| Text.IsSpace | todo_app_kivy.py:126-129 | the whitespace `strip` removes is exactly the ten ASCII characters `str.isspace` accepts: tab, line feed, vertical tab, form feed, carriage return, the four information separators 0x1C-0x1F, and space |
| Text.SkipSpaces | todo_app_kivy.py:126 | the forward scan stops at the first non-whitespace character at or after its start, or at the end, with only whitespace passed over |
| Text.SkipSpacesBack | todo_app_kivy.py:126 | the backward scan stops just after the last non-whitespace character before its end, never going below its lower bound, with only whitespace passed over |
| Text.Strip | todo_app_kivy.py:126-129 | `str.strip()`: the result neither starts nor ends with whitespace, and it is empty exactly when the input is all whitespace (the blank-title test of the add form) |
| Text.StripIsSlice | todo_app_kivy.py:126-129 | what `strip` keeps is a contiguous slice of the input with only whitespace before and after it |
| Text.StripUnique | todo_app_kivy.py:126-129 | any whitespace padding around a trimmed core strips to exactly that core, which characterises `strip` completely |
| Text.StripTrimmed | todo_app_kivy.py:126-129 | text that is already trimmed strips to itself |
| Text.StripIdempotent | todo_app_kivy.py:126-129 | stripping twice is the same as stripping once |
| Text.ToUpper | todo_app_kivy.py:129 | upper-casing never yields a lower-case letter, lower-cases back to what the input lower-cases to, leaves every character outside a-z unchanged, and keeps whitespace as whitespace |
| Text.ToLower | todo_app_kivy.py:129 | lower-casing never yields an upper-case letter, leaves every character outside A-Z unchanged, and keeps whitespace as whitespace |
| Text.CaseRoundTrip | todo_app_kivy.py:129 | lower-casing then upper-casing is upper-casing, and both maps change every letter of their range, so they pair a-z with A-Z one to one |
| Text.LowerFrom | todo_app_kivy.py:129 | the tail that `capitalize` lower-cases keeps its length and lower-cases each character in place |
| Text.Capitalize | todo_app_kivy.py:129 | `str.capitalize()`: same length, first character upper-cased, every later character lower-cased |
| Text.CapitalizeIdempotent | todo_app_kivy.py:129 | capitalising an already capitalised priority changes nothing |
| Text.CapitalizeKeepsTrimmed | todo_app_kivy.py:129 | capitalising trimmed text keeps it trimmed, and keeps it non-blank, so `strip().capitalize()` is empty only for a blank input |
| Text.OrElse | todo_app_kivy.py:127-129 | `x or default` on strings: a non-empty text is kept, an empty one is replaced by the default, and the result is empty only when both are |
| Decimal.Show | todo_app_kivy.py:168 | the row number prints as at least one decimal digit with no leading zero |
| Decimal.ValueShow | todo_app_kivy.py:168 | reading the printed row number back gives the number |
| Decimal.ShowInjective | todo_app_kivy.py:168 | different row numbers print differently |
| Decimal.Fixed | todo_app_kivy.py:142 | a `strftime` field is exactly its width in digits |
| Decimal.ValueFixed | todo_app_kivy.py:142 | reading a zero-padded field back gives its value |
| Decimal.FixedValue | todo_app_kivy.py:142 | re-padding the value of a digit string at its own width gives the string back |
| Clock.CreatedAtText | todo_app_kivy.py:142 | `"%Y-%m-%d %H:%M:%S"` is 19 characters with its separators at fixed places |
| Clock.ParseCreatedAtText | todo_app_kivy.py:142 | every creation time reads back as the instant it was made from |
| Clock.CreatedAtTextOfParse | todo_app_kivy.py:142 | every text that reads as an instant is that instant's creation-time text, so the format is a bijection |
| Clock.CreatedAtTextInjective | todo_app_kivy.py:142 | distinct instants give distinct creation times |
| Clock.ExportStampText | todo_app_kivy.py:208 | `"%Y%m%d_%H%M%S"` is 15 characters: 8 digits, an underscore, 6 digits |
| Clock.ExportStampFields | todo_app_kivy.py:208 | the export stamp holds the instant's year, month, day, hour, minute and second as zero-padded fields at positions 0-3, 4-5, 6-7, 9-10, 11-12 and 13-14, and each reads back as that field |
| Clock.ExportStampOfCreatedAt | todo_app_kivy.py:208 | the export stamp of an instant is its `created_at` text with the separators dropped and an underscore between date and time |
| Clock.ExportStampInjective | todo_app_kivy.py:208 | distinct instants give distinct export stamps |
| Tasks.NewTask | todo_app_kivy.py:125-143 | refuses with the empty-title error exactly when the title is blank; otherwise the record has the trimmed title, the trimmed category or "General", the trimmed due date, the capitalised trimmed priority or "Low", `completed` false and the given creation time |
| Tasks.DefaultsWellFormed | todo_app_kivy.py:127-129 | the defaults "General" and "Low" are non-empty and trimmed, and "Low" is already capitalised |
| Tasks.NewTaskWellFormed | todo_app_kivy.py:125-143 | every record the add form makes has all keys, a non-empty trimmed title, category and priority, a capitalised priority and a readable creation time |
| Tasks.PriorityCapitalised | todo_app_kivy.py:129 | a typed priority "high" is stored as "High" |
| Tasks.CapitalizeHigh | todo_app_kivy.py:129 | `"high".capitalize()` is "High" |
| Tasks.Add | todo_app_kivy.py:125-144 | a blank title is refused with the empty-title error and nothing is appended; otherwise the list grows by exactly one, every earlier record is unchanged, and the new last record is the one the inputs describe |
| Tasks.MarkComplete | todo_app_kivy.py:183-190 | an index outside the list is refused with the invalid-index error; otherwise the length is kept, the record at the index gets `completed` true with every other field kept, and every other record is unchanged |
| Tasks.Delete | todo_app_kivy.py:192-201 | an index outside the list is refused with the invalid-index error; otherwise one record fewer, the records before the index unchanged, the ones after it shifted down by one, and the notice names the removed title or "Task" when it has none |
| Tasks.MarkCompleteIdempotent | todo_app_kivy.py:185-187 | completing the same position twice equals completing it once |
| Tasks.MarkCompleteMonotone | todo_app_kivy.py:185-187 | completion is one-way: no completed record becomes incomplete, and no record's creation time changes |
| Tasks.DeleteRemovesOne | todo_app_kivy.py:194-196 | deletion removes exactly one occurrence of the indexed record: the multiset of records loses that record and nothing else |
| Tasks.DeleteLast | todo_app_kivy.py:194-196 | popping the last position of a list gives back the list before it, and names that record's title |
| Tasks.DeleteUndoesAdd | todo_app_kivy.py:194-199 | deleting the record just appended restores the earlier list and names the trimmed title that was typed |
| Tasks.AddKeepsWellFormed | todo_app_kivy.py:135-144 | adding to a list of well-formed records keeps every record well formed |
| Tasks.MarkCompleteKeepsWellFormed | todo_app_kivy.py:185-187 | completing a record keeps every record well formed |
| Tasks.DeleteKeepsWellFormed | todo_app_kivy.py:194-197 | deleting a record keeps every remaining record well formed |
| Tasks.CompleteThenDeleteSingle | todo_app_kivy.py:183-199 | on a one-record list, completing position 0 marks it, and deleting position 0 then leaves the empty list |
| Tasks.BuyMilkSession | todo_app_kivy.py:125-199 | adding "Buy milk" with blank fields to an empty list gives the single record with category "General", priority "Low", empty due date and `completed` false; completing and deleting position 0 empties the list again, naming "Buy milk" |
| View.Shown | todo_app_kivy.py:168 | a present value prints as itself inside the f-string, and a missing key prints as "None" |
| View.RenderRow | todo_app_kivy.py:167-178 | the row for a record describes it (checked marker exactly when `completed` is true, "N/A" for a missing or empty due date, each other field as printed) and binds both controls to its number minus one |
| View.RenderFrom | todo_app_kivy.py:164-181 | `enumerate(tasks, start)`: one row per record, numbered consecutively from the start, each describing its record, with both controls bound to its number minus one |
| View.Render | todo_app_kivy.py:160-181 | the empty list renders exactly one "No tasks yet." placeholder; any other list renders one row per record, where row k describes record k (checked marker only when `completed` is true, "N/A" for a missing or empty due date), shows number k + 1 and binds both controls to position k |
| View.RenderedControlsValid | todo_app_kivy.py:174-178 | every control of a freshly rendered list names a position inside the list, and acts on the record its own row shows: Complete marks it, and Delete removes it and names its title |
| View.StaleLastRowRefused | todo_app_kivy.py:185-190 | after a deletion, the position bound to the last row rendered before it no longer exists, and both Complete and Delete refuse it with the invalid-index error |
| View.Label | todo_app_kivy.py:160-168 | the placeholder's label is its text, and every task row's label starts with its number followed by ". " |
| View.LabelOfDescribed | todo_app_kivy.py:166-168 | the label of a row describing a record is the f-string of line 168 filled from that record: number, ". ", marker, title, category in parentheses, then "\nDue: ", the due date or "N/A", "  •  " and the priority |
| View.LabelOfTask | todo_app_kivy.py:164-168 | the label of row k of a rendered list is that f-string filled from record k with number k + 1 |
| View.SameLabelSameNumber | todo_app_kivy.py:168 | two labels that start "number. " can only be equal when the numbers are equal |
| View.LabelsDistinct | todo_app_kivy.py:164-168 | the rows of a rendered list have pairwise distinct label texts |
| Export.CsvRow | todo_app_kivy.py:214-222 | each data row has one cell per header field |
| Export.CsvRowByName | todo_app_kivy.py:211-222 | the cell under each header field is what the CSV writer writes for the value the record's dictionary holds under that name: text as itself, a missing key as "", `completed` as "True" or "False", and a missing `created_at` as its "" default |
| Export.FileName | todo_app_kivy.py:208 | the export file is named "tasks_export_", then the export instant's 15-character stamp at positions 13-27, then ".csv" |
| Export.FileNamesDistinct | todo_app_kivy.py:208 | exports made at different instants are written to different files |
| Export.ExportCsv | todo_app_kivy.py:203-222 | gives no file exactly when the list is empty; otherwise the file is named from the export instant, its table has the header `title,category,due_date,priority,completed,created_at` followed by exactly one row per record in list order, and every row has one cell per field |
| Export.ReadRowOfCsvRow | todo_app_kivy.py:215-222 | a record with every key present is recovered unchanged from its export row |
| Export.ReadRowOfAnyCsvRow | todo_app_kivy.py:215-222 | any record, whatever keys it lacks, comes back from its export row with each missing text key as the empty string and its `completed` key unchanged |
| Export.ExportRoundTrip | todo_app_kivy.py:211-222 | reading back the data rows of an export of fully keyed records gives the exported list again, in order |
| App.Load | todo_app_kivy.py:103-108 | a missing or unreadable store loads as the empty list, a readable one as its content |
| App.AddAction | todo_app_kivy.py:125-153 | the add button shows the empty-title error and changes nothing exactly when the title is blank; otherwise it stores a list one record longer, shows no notice and always re-renders what is now stored, while a refusal re-renders nothing |
| App.CompleteAction | todo_app_kivy.py:183-190 | a position outside the freshly loaded list shows the invalid-index error and changes nothing; otherwise a list of the same length is stored, no notice is shown and what is now stored is always re-rendered, while a refusal re-renders nothing |
| App.RemoveAction | todo_app_kivy.py:192-201 | a position outside the freshly loaded list shows the invalid-index error and changes nothing; otherwise a list one record shorter is stored, always re-rendered, and confirmed under the "Deleted" heading, while a refusal re-renders nothing |
| App.ExportAction | todo_app_kivy.py:203-223 | exporting never changes the store or re-renders; the file it writes is exactly `ExportCsv` of the loaded list at that instant (none for an empty list), and it says "Exported to" with the file name, or "No tasks to export." |
| App.Step | todo_app_kivy.py:125-225 | one user action: every action but an export that is not refused re-renders, Refresh included, and a re-rendered list always shows what is now stored; an export writes exactly `ExportCsv` of the loaded list; an error notice leaves the store untouched with no re-render and no file; the store only ever changes to a whole list; export and refresh never change it; a file is written exactly for an export of a non-empty list; add fails exactly on a blank title and otherwise adds one record; complete and delete fail exactly on an out-of-range index, complete keeps the length, and a successful delete removes one record |
| App.Run | todo_app_kivy.py:125-223 | a session of actions only ever replaces the store by a whole list, and a session of only exports and refreshes leaves the store as it was |
| App.RunAppend | todo_app_kivy.py:125-223 | running two sessions one after the other is the same as running them as one |
| App.AddStepStore | todo_app_kivy.py:131-144 | after an add, the store holds the loaded list with the new record appended; a blank title instead shows "Title cannot be empty." and changes nothing |
| App.CompleteStepStore | todo_app_kivy.py:183-190 | after a completion, the store holds the loaded list with that one record marked; an out-of-range index instead shows "Invalid task index." and changes nothing |
| App.RemoveStepStore | todo_app_kivy.py:192-201 | after a deletion, the store holds the loaded list without that record and the notice is "Removed: " with its title or "Task"; an out-of-range index instead shows "Invalid task index." and changes nothing |
| App.StepKeepsWellFormed | todo_app_kivy.py:125-201 | no single action puts a malformed record into a store of well-formed records |
| App.RunKeepsWellFormed | todo_app_kivy.py:125-225 | any sequence of actions that starts on a store of well-formed records (an empty or unreadable one included) leaves only well-formed records |
| App.UnreadableStore | todo_app_kivy.py:103-108 | on an unreadable store, a valid add replaces the store's content with a list of just the new record; complete and delete are refused and leave it unreadable |
| App.ExportEmpty | todo_app_kivy.py:203-207 | exporting an empty store writes no file and shows "No tasks to export." |

## Left out

- The Kivy layer is not modelled: the layout string, `Builder`, popups, labels and buttons, widget ids, and clearing the input fields after an add. A notice is modelled as a heading and a message. A row is modelled as the data its label and controls show.
- JSON reading and writing are not modelled. The store is the list value itself, or `None` when the file is missing or unreadable. A save replaces that value with the whole new list.
- `__init__` creates the store file when it is missing. This is not modelled as an operation: a missing file and an unreadable one both load as the empty list, which is all the actions observe.
- JSON keys other than the six fields are not modelled. The source keeps such keys when it writes a record back after a completion or a deletion (todo_app_kivy.py:184-187, 193-197). They never reach the screen or the export, so only the stored file differs.
- JSON values of other types are not modelled: a non-string title, a non-boolean `completed`, an element that is not an object, a top-level value that is not an array. An explicit JSON `null` is not modelled either; a missing key is.
- `datetime.now()` is not modelled. Each action receives the instant as a parameter.
- Opening and writing the CSV file, CSV quoting, and the export-failure notice for a write error are not modelled. The export is modelled as its file name and its table of cell texts.
- Write failures on the add, complete and delete paths are not modelled. The source does not handle them.
- Text.Strip: whitespace is Python's `str.isspace` restricted to ASCII. Non-ASCII whitespace such as U+00A0 or U+3000 is kept by the model, where Python strips it.
- Text.Capitalize: only the ASCII case map is modelled. Python's `capitalize` also maps non-ASCII letters, and it title-cases the first character (for example 'ǆ' becomes 'ǅ').
- Clock.CreatedAtText: years are always padded to four digits. For years below 1000, what Python's `%Y` writes depends on the platform.
