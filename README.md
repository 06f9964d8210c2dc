# Tegbar to-do lists, modelled in Dafny

This project models the record-keeping core of the Tegbar to-do applications. Each app keeps its tasks behind its widgets.

- **101tegbar.py**: the full application. It keeps a date-keyed collection of task records. The collection is normalised on load and written back as JSON. Records are added and edited through a popup or a quick-entry row, and deleted or toggled from a list that a search box filters. Because the list is filtered, a shown position is resolved back to the stored record by its `created` stamp before anything changes. Completed records are cleared in bulk, and the history page counts done and undone records. An assistant page reads `add task: Title | time | priority | notes` commands and answers summary and help requests.
- **prototype.py**: the earlier variant. Each day holds `(text, time, done)` triples addressed by position.
- **post_final_prj.py**: a one-window list editor whose state is a Tk Listbox. Lines can be added, deleted, crossed off and uncrossed by colour, searched against a seeded plan, cleared and edited.

Modules:

- `Common`: `Option`, and order-preserving filtering (Python's `[x for x in xs if p(x)]`) with the positions it keeps. Also first-match search (`next((i for i, x in enumerate(xs) if p(x)), None)`).
- `TextOps`: the Python string operations the apps use, on ASCII. These are `strip`, `lower`, `capitalize`, `in`, `startswith`, and `split`/`join` on one character.
- `TaskStore`: the collection of 101tegbar.py as values. Every operation is a function from the old store to the new one, and the promised properties are lemmas.
- `TaskFile`: `load_tasks`' normalisation of a parsed document, the document `save_tasks` writes, and the team-file structure check.
- `Assistant`: command routing, add-task parsing and reply texts of `ai_generate_reply`.
- `TegbarApp`: the `TodoApp` class of 101tegbar.py with its fields. Its methods change the store in place, with loops where the source loops. Each method is proved to produce the `TaskStore` function of the old state.
- `Prototype`: prototype.py, as functions with lemmas and a class whose methods are proved against them.
- `ListEditor`: post_final_prj.py. The listbox is a sequence of `(text, colour, selected)` lines, and the entry field is a string. Search and delete-crossed are loops proved against filter functions. `ListWindow.Select` and `ListWindow.SetEntry` stand for the user clicking a line of the listbox and typing in the entry field; they model user input, not a function of the program.

Three behaviours of the programs shape the model:

- **Deleting the last record of a day.** 101tegbar.py drops a day left without records (`delete_task`), while prototype.py keeps the empty list. Both are modelled as written.
- **Uniqueness of `created` stamps.** Nothing in the code makes two records of a day carry different stamps: each stamp is a clock reading, two readings can coincide, and a loaded file may hold any stamps. The lemmas about resolving a shown position take uniqueness as a hypothesis (`UniqueCreated`). Lemmas show that every operation on the store keeps it, given a fresh stamp for each new record. `TaskStore.SharedStampHitsFirst` shows what happens without it.
- **Delete confirmation.** `delete_task` asks for confirmation before it removes a record. The answer is a boolean parameter.

## Model

| member | source | states |
|---|---|---|
| Common.Filter | 101tegbar.py:228-229 | every kept element passes the test, and the result is never longer than the list |
| Common.FilterMembers | 101tegbar.py:228-229 | every kept element comes from the list, and every element that passes the test is kept |
| Common.FilterIndices | 101tegbar.py:228-229 | the kept elements sit at strictly increasing positions of the list, so the filtered list is an in-order subsequence |
| Common.FilterSameLength | 101tegbar.py:405-409 | the filtered list has the original length exactly when every element passes, which is what the length comparison of clear_completed detects |
| Common.FirstWhere | 101tegbar.py:285 | the result is the first position whose element passes and no earlier element passes; None exactly when no element passes |
| TextOps.Strip | 101tegbar.py:340-346 | the result has no whitespace at either end, is no longer than the input, and is empty exactly when the input is all whitespace (the blank-title test) |
| TextOps.StripPadded | 101tegbar.py:340 | stripping whitespace-padded text gives back the text |
| TextOps.StripDecompose | 101tegbar.py:340 | every string is its stripped form between two runs of whitespace |
| TextOps.StripIdempotent | 101tegbar.py:340 | strip applied twice equals strip applied once |
| TextOps.Lower | 101tegbar.py:691 | same length; no upper-case letter is left, every character that was not one is kept, and each character keeps its letter, so an upper-case letter becomes its own lower-case letter |
| TextOps.Capitalize | 101tegbar.py:697 | only the case changes (the result lowers to the same text as the input), the first character is not a lower-case letter, and no later character is an upper-case letter |
| TextOps.CapitalizeIdempotent | 101tegbar.py:697 | capitalising twice equals capitalising once |
| TextOps.ContainsEmpty | post_final_prj.py:84 | the empty query is contained in every string |
| TextOps.Split | 101tegbar.py:694 | splitting gives at least one part and no part holds the separator |
| TextOps.JoinSplit | 101tegbar.py:694 | joining the parts of a split with the separator gives back the string |
| TextOps.SplitJoin | 101tegbar.py:694 | splitting a join of separator-free parts gives back the parts |
| TextOps.SplitAppend | 101tegbar.py:694 | splitting a, a separator and b gives the parts of a followed by the parts of b |
| TaskStore.BlankTitleChangesNothing | 101tegbar.py:340-346 | a title that is blank after stripping leaves the store unchanged on the add path, the edit path and quick add |
| TaskStore.SaveAppendsOne | 101tegbar.py:348-358 | a non-blank title appends exactly one not-done record with the stripped fields at the end of the day's list, creating the day if needed; other days are untouched |
| TaskStore.QuickAddAppendsOne | 101tegbar.py:382-396 | a non-blank quick add appends exactly one record at the end of the day's list: stripped text and time, the chosen priority, not done, empty notes and the clock's stamp, creating the day if needed; other days are untouched |
| TaskStore.SaveEditKeepsIdentity | 101tegbar.py:359-366 | an edit overwrites text, time, priority and notes of the chosen record only; its done flag and created stamp, the other records and the other days are unchanged |
| TaskStore.EditUndo | 101tegbar.py:359-366 | editing a record and editing it back to its old fields restores the store |
| TaskStore.DeleteRemovesExactlyOne | 101tegbar.py:371-380 | a confirmed delete at a valid position removes exactly that record; the day survives exactly when it had other records; other days are untouched |
| TaskStore.DeleteUndoesAdd | 101tegbar.py:348-380 | deleting the record just appended restores the store, when the day did not already hold an empty list (such a day is dropped by the delete) |
| TaskStore.VisibleBlankQuery | 101tegbar.py:225-229 | with a blank search the shown list is the day's list in order |
| TaskStore.VisibleIsSubsequence | 101tegbar.py:225-229 | shown position j is the day's record at a strictly increasing sequence of positions |
| TaskStore.VisibleExactlyMatches | 101tegbar.py:225-229 | with a non-blank search a record is shown exactly when its lowered text or notes contains the lowered stripped query |
| TaskStore.SearchIgnoresCase | 101tegbar.py:227-229 | the search "MILK" shows the record "Buy milk" |
| TaskStore.LookupByCreated | 101tegbar.py:272-285 | with unique stamps, lookup by stamp and lookup by text and stamp both find the record itself |
| TaskStore.ShownPositionResolves | 101tegbar.py:269-296 | with unique stamps and any search, the record resolved for shown position j is the day's record displayed there |
| TaskStore.DeleteByListRemovesShown | 101tegbar.py:290-296 | deleting shown position j is deleting the day's record at the matching position |
| TaskStore.DeleteSecondOfThree | 101tegbar.py:290-296 | for records A, B and BC with the search "b", the first shown record is B, and deleting it leaves A and BC |
| TaskStore.SharedStampHitsFirst | 101tegbar.py:285-296 | when two records share a stamp, deleting the second through the list removes the first |
| TaskStore.DeleteShownMiddle | 101tegbar.py:290-296 | when a search shows the middle one of three records first, deleting shown position 0 removes exactly that record |
| TaskStore.ToggleFlipsOne | 101tegbar.py:269-279 | toggling flips done on the first matching record only; no match changes nothing |
| TaskStore.ToggleTwice | 101tegbar.py:269-279 | toggling the same record twice restores the store |
| TaskStore.LookupBySameRecord | 101tegbar.py:269-276 | when no two records agree on text and stamp, the scan of toggle_done_by_list finds the record itself |
| TaskStore.ToggleByListHitsShown | 101tegbar.py:269-279 | when no two records agree on text and stamp, toggling shown position j flips the record displayed there |
| TaskStore.ClearedShape | 101tegbar.py:403-411 | after clearing, no record is done, no day is empty, each day holds its undone records at increasing old positions, and a day is dropped only when all its records were done |
| TaskStore.ClearChangesIffSomeDone | 101tegbar.py:403-411 | the changed flag is raised exactly when some record was done |
| TaskStore.ClearTwice | 101tegbar.py:403-417 | clearing twice equals clearing once, and the second run reports nothing to clear |
| TaskStore.StoreCountSplit | 101tegbar.py:579-585 | the store-wide count may be taken day by day in any order |
| TaskStore.CountStatusSplit | 101tegbar.py:579-586 | every record of a list is counted as exactly one of done or undone |
| TaskStore.UndoneCounts | 101tegbar.py:579-585 | a day's undone records count the same number of undone records as the day, and no done records |
| TaskStore.ClearKeepsUndoneCount | 101tegbar.py:403-411 | after clearing, the history counts no done records and the same number of undone records |
| TaskStore.AppendKeepsStampsUnique | 101tegbar.py:348-358 | appending a record whose stamp is new to its day keeps every day's stamps unique |
| TaskStore.EditKeepsStampsUnique | 101tegbar.py:359-366 | editing a record keeps every day's stamps unique |
| TaskStore.SaveKeepsStampsUnique | 101tegbar.py:339-369 | saving from the popup keeps every day's stamps unique when the new stamp is new to the day |
| TaskStore.QuickAddKeepsStampsUnique | 101tegbar.py:382-401 | quick add keeps every day's stamps unique when the new stamp is new to the day |
| TaskStore.ToggleKeepsStampsUnique | 101tegbar.py:269-279 | toggling keeps every day's stamps unique |
| TaskStore.DeleteKeepsStampsUnique | 101tegbar.py:371-380 | deleting keeps every day's stamps unique |
| TaskStore.DeleteByListKeepsStampsUnique | 101tegbar.py:290-296 | deleting through the list keeps every day's stamps unique |
| TaskStore.ClearKeepsStampsUnique | 101tegbar.py:403-411 | clearing completed records keeps every day's stamps unique |
| TaskFile.NormalizeItems | 101tegbar.py:72-84 | a day normalises exactly when each of its records does, and then gives one record per stored record, in order |
| TaskFile.NormalizeDocument | 101tegbar.py:66-85 | the normalisation loop computes every day's records, or fails as a whole |
| TaskFile.NormalizeDay | 101tegbar.py:72-84 | the per-day loop computes that day's normalised records |
| TaskFile.LoadKeepsShape | 101tegbar.py:71-85 | a successful load keeps every day and each day's length and order; missing text, time and notes become "", a missing priority "Normal", a missing created the clock reading, and done is the truth value of the stored flag (false when absent) |
| TaskFile.LoadFailsWhole | 101tegbar.py:86-87 | one day that cannot be normalised empties the whole store |
| TaskFile.RecordRoundTrip | 101tegbar.py:74-91 | a saved record loads back unchanged |
| TaskFile.DayRoundTrip | 101tegbar.py:72-91 | a saved day loads back unchanged |
| TaskFile.SaveLoadRoundTrip | 101tegbar.py:66-93 | loading what save_tasks wrote gives back the same store, whatever the clock |
| TaskFile.TeamRoundTrip | 101tegbar.py:95-114 | loading what save_team_messages wrote gives back every conversation |
| TaskFile.TeamStructureCheck | 101tegbar.py:97-100 | the structure check keeps every contact, keeps list values and turns every other value into an empty conversation |
| Assistant.StrippedParts | 101tegbar.py:694 | one field for each pipe-separated part; no field has whitespace at either end or holds a pipe |
| Assistant.StrippedPartsRoundTrip | 101tegbar.py:694 | fields without padding or pipes, joined by pipes, are read back as written |
| Assistant.ParseAddTaskFields | 101tegbar.py:693-698 | for every remainder: the title is the first stripped part or "Untitled task" when it is blank; the time is the second part or ""; the priority is the third part capitalised, or "Normal" when it is missing or blank; the notes are the fourth part or "" |
| Assistant.ParseIgnoresExtraFields | 101tegbar.py:694-698 | parts after the fourth do not change the command |
| Assistant.RouteIgnoresCase | 101tegbar.py:690-726 | two messages with the same lower-case form take the same branch |
| Assistant.AddPrefixAnyCase | 101tegbar.py:690-694 | the "add task:" prefix in any case routes to an add-task command parsed from the stripped remainder |
| Assistant.ParseAddTaskRoundTrip | 101tegbar.py:694-698 | pipe-joined, pipe-free, stripped fields parse back to themselves, with the priority capitalised |
| Assistant.ParseTitleOnly | 101tegbar.py:695-698 | a title alone gets time "", priority "Normal" and notes "" |
| Assistant.ParseEmptyTitle | 101tegbar.py:695 | a blank first field gives the title "Untitled task", whatever the other fields hold |
| Assistant.NatToString | 101tegbar.py:720-723 | a line number is written as decimal digits that read back as the number, with no leading zero, as `str(i)` writes it |
| Assistant.BuildSummaryLines | 101tegbar.py:719-723 | the numbering loop returns exactly one summary line per task, in order, numbered from 1 |
| Assistant.SummaryLineSingle | 101tegbar.py:721-723 | a task without line breaks yields a summary line without line breaks |
| Assistant.SummaryListsEveryTask | 101tegbar.py:714-724 | the summary starts with "Tasks:" and splits into exactly one line per task of the day, in order |
| Assistant.ReplyAddsAtMostOne | 101tegbar.py:692-712 | an add-task message appends exactly one not-done record to the selected day and leaves other days alone; any other message leaves the store unchanged |
| Assistant.ReplyKeepsStampsUnique | 101tegbar.py:699-702 | a reply keeps every day's stamps unique when the new stamp is new to the day |
| TegbarApp.TodoApp.constructor | 101tegbar.py:25-35 | start-up selects today, a zero week offset and no edited record, and loads both files |
| TegbarApp.TodoApp.LoadTasks | 101tegbar.py:66-87 | the store becomes the loaded store of the file |
| TegbarApp.TodoApp.LoadTeamMessages | 101tegbar.py:95-108 | the conversations become the checked content of the team file, or the seed contacts when there is none |
| TegbarApp.TodoApp.PrevWeek | 101tegbar.py:201-203 | the week offset moves back seven days |
| TegbarApp.TodoApp.NextWeek | 101tegbar.py:205-207 | the week offset moves forward seven days |
| TegbarApp.TodoApp.SelectDate | 101tegbar.py:209-212 | the selected day becomes the given one |
| TegbarApp.TodoApp.ToggleDoneByList | 101tegbar.py:269-279 | the scan with break leaves the store equal to TaskStore.Toggled of the old store |
| TegbarApp.TodoApp.OpenAddTask | 101tegbar.py:299-337 | the edited record is remembered, and the form is blank with priority "Normal", or filled from that record |
| TegbarApp.TodoApp.EditTaskByList | 101tegbar.py:281-288 | the popup opens on the first record with the shown record's stamp; without one nothing changes |
| TegbarApp.TodoApp.SaveTask | 101tegbar.py:339-369 | the store becomes TaskStore.Saved of the old store |
| TegbarApp.TodoApp.DeleteTask | 101tegbar.py:371-380 | the store becomes TaskStore.Deleted of the old store |
| TegbarApp.TodoApp.DeleteTaskByList | 101tegbar.py:290-296 | the store becomes TaskStore.DeletedByList of the old store |
| TegbarApp.TodoApp.QuickAdd | 101tegbar.py:382-401 | the store becomes TaskStore.QuickAdded of the old store |
| TegbarApp.TodoApp.ClearCompleted | 101tegbar.py:403-417 | the loop over days leaves TaskStore.Cleared of the old store and returns exactly whether some day's length changed |
| TegbarApp.TodoApp.HistoryCounts | 101tegbar.py:577-587 | the nested loops count the done and the undone records of the whole store |
| TegbarApp.TodoApp.GenerateReply | 101tegbar.py:689-729 | the reply is the routed command's reply text for the selected day; only an add-task command changes the store |
| Prototype.ToggleChangesOnlyDone | prototype.py:154-157 | toggling keeps the entry's text and time, negates done, and changes nothing else |
| Prototype.ToggleTwiceRestores | prototype.py:154-157 | toggling the same entry twice restores the store |
| Prototype.BlankEntryIgnored | prototype.py:183-186 | a title that is blank after stripping changes nothing on either path |
| Prototype.AddAppendsEntry | prototype.py:188-191 | adding appends (stripped text, clock reading, not done) at the end of the day, creating it if absent; other days are untouched |
| Prototype.EditResetsDone | prototype.py:192-197 | editing replaces the text, keeps the time and resets done; other entries and days are untouched |
| Prototype.DeleteKeepsDay | prototype.py:205-207 | deleting removes exactly the indexed entry and keeps the day, even when it becomes empty |
| Prototype.DeleteUndoesAddKeepingDay | prototype.py:188-207 | deleting the entry just added restores the day's list, and the day stays in the store |
| Prototype.TodoApp.constructor | prototype.py:17-19 | start-up selects today with an empty store; no entry is being edited (the source creates `edit_index` only in `open_add_task`, and nothing reads it before that) |
| Prototype.TodoApp.SelectDate | prototype.py:105-108 | the selected day becomes the given one |
| Prototype.TodoApp.ShownEntries | prototype.py:122 | the shown entries are the selected day's list, or none when the day has no list |
| Prototype.TodoApp.ToggleDone | prototype.py:154-157 | the store becomes Prototype.EntryToggled of the old store |
| Prototype.TodoApp.OpenAddTask | prototype.py:160-181 | the edited entry is remembered and the popup starts with its text, or empty |
| Prototype.TodoApp.EditTask | prototype.py:202-203 | the popup opens on the entry at that position |
| Prototype.TodoApp.SaveTask | prototype.py:183-200 | the store becomes Prototype.EntrySaved of the old store |
| Prototype.TodoApp.DeleteTask | prototype.py:205-207 | the store becomes Prototype.EntryDeleted of the old store |
| ListEditor.EmptySearchShowsPlan | post_final_prj.py:80-85 | an empty query shows the whole plan |
| ListEditor.SearchShowsExactlyMatches | post_final_prj.py:80-85 | a text is shown exactly when it is a plan item whose lower-case form contains the lower-cased query |
| ListEditor.AddAppendsStripped | post_final_prj.py:88-92 | a blank entry changes nothing; otherwise the stripped entry is appended as a plain line and the entry is cleared |
| ListEditor.RecolourOnlySelected | post_final_prj.py:98-108 | cross-off and uncross change only the selected line's colour and leave nothing selected |
| ListEditor.RecolourNeedsReselect | post_final_prj.py:98-108 | a second cross-off or uncross without a new selection changes nothing |
| ListEditor.WithoutCrossedShape | post_final_prj.py:110-116 | after deleting crossed lines none is left, every other line is kept, a second run changes nothing, and a list without crossed lines is unchanged |
| ListEditor.DeleteCrossedStep | post_final_prj.py:110-116 | each loop step deletes a crossed line or advances past a kept one, keeping the list equal to the filtered visited part followed by the unvisited rest |
| ListEditor.CrossOffThenDelete | post_final_prj.py:104-116 | crossing off the selected line and then deleting crossed lines removes exactly that line |
| ListEditor.EditThenAddMovesToEnd | post_final_prj.py:146-154 | editing a line and adding its text back moves the line to the end, uncoloured |
| ListEditor.EditLeavesNoSelection | post_final_prj.py:146-154 | with a single selection, edit removes the one selected line and no line stays selected |
| ListEditor.FreshItems | post_final_prj.py:68-70 | inserted lines read back as the inserted texts, and none is coloured or selected |
| ListEditor.Unselected | post_final_prj.py:102 | after `selection_clear` nothing is selected, and every line keeps its text and colour |
| ListEditor.ListWindow.constructor | post_final_prj.py:68-70 | the listbox starts with the plan and the entry empty |
| ListEditor.ListWindow.Search | post_final_prj.py:80-85 | the loop over the plan leaves exactly ListEditor.SearchResult of the query, whatever the list held before |
| ListEditor.ListWindow.Add | post_final_prj.py:88-92 | lines and entry become ListEditor.Added of the old ones |
| ListEditor.ListWindow.Delete | post_final_prj.py:95-96 | the line at the anchor is removed; with no line there nothing changes |
| ListEditor.ListWindow.CrossOff | post_final_prj.py:104-108 | the selected line takes the crossed colour "#dedede" and the selection is cleared |
| ListEditor.ListWindow.Uncross | post_final_prj.py:98-102 | the selected line takes the colour "#464646" and the selection is cleared |
| ListEditor.ListWindow.Recolour | post_final_prj.py:98-108 | the lines become ListEditor.Recoloured of the old lines, with at most one selected |
| ListEditor.ListWindow.DeleteCrossed | post_final_prj.py:110-116 | the loop whose counter advances only past kept lines leaves exactly the lines not drawn in "#dedede", in order |
| ListEditor.ListWindow.ClearList | post_final_prj.py:143-144 | the list is empty |
| ListEditor.ListWindow.Edit | post_final_prj.py:146-154 | the selected line leaves the list and its text fills the entry, and no line stays selected; with nothing selected nothing changes |

## Left out

- tegbar-list.py is not part of this model. Its task operations are SQL statements run by sqlite3, its login hashes with SHA-256, and its notifications are timed animations.
- Widgets are not modelled: construction, layout, theming, highlighting, badges, colours and page switching. This covers `draw_days`, `highlight_selected_day`, the rendering parts of `draw_tasks` and `draw_history`, the team and AI pages, and settings.
- File access and JSON text are not modelled: reading, writing, encoding and indentation. `load_tasks` is modelled on the parsed document, and `save_tasks` and `save_team_messages` on the document they write. `export_json` and post_final_prj.py's `save_list` and `open_list` are left out, along with the `save_tasks` calls after each change.
- Clock readings are parameters: `created` stamps, prototype.py's add time, and the load-time default stamp.
- The delete confirmation dialog is a boolean parameter, and Tk's selection anchor in `delete_` is a position parameter. How Tk maintains the anchor is not modelled.
- The assistant's typing delay, its worker threads and its message log (`handle_ai_message`, `render_ai_messages`) are left out. The reply is a plain function of the message and the store.
- Team chat sending and conversation rendering are left out. Only the load, save and structure check of the team file are modelled.
- The history page's percentage, its progress bar (float division) and its list of the 100 most recent records are left out.
- Loading is not shown to give unique stamps. A stored file may hold any stamps, and missing ones are filled from the clock.
- post_final_prj.py's `delete_crossed_` ends with a local `from tkinter import filedialog`, which changes no state.
- TextOps.Lower: handles ASCII letters only. Python's `lower`, `strip` and `capitalize` also act on non-ASCII characters, which pass through unchanged here.
- TaskFile.NormalizeRecord: a stored `text`, `time`, `priority`, `notes` or `created` that is not a JSON string makes the whole load fail, which gives an empty store. Python keeps such a value in the record. JSON numbers are integers only, so a float `done` flag is not represented.
- TaskStore.SameRecordAs: toggle's test `t is task_to_toggle` is represented by its second half, equal text and created. With values, the same record always satisfies it.
- TegbarApp.TodoApp.SaveTask: requires a valid edit position. `open_add_task` is the only source of one, and the popup is modal.
- Prototype.TodoApp.ToggleDone: requires a valid position. So do DeleteTask and SaveTask's edit path. The program raises KeyError or IndexError otherwise, and its buttons only offer shown positions.
- TegbarApp.TodoApp.PrevWeek: PrevWeek and NextWeek change only the week offset. The day strip they redraw is not modelled.
