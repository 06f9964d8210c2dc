/** The application object of 101tegbar.py (TodoApp): the store of records, the
    selected day, the week offset of the day strip, the record the editing popup
    edits and the team conversations, with the operations behind its buttons
    performed in place. Each operation is proved to leave the store as the
    matching function of TaskStore prescribes. */
module TegbarApp {
  import opened Common
  import opened TextOps
  import opened TaskStore
  import opened TaskFile
  import opened Assistant

  /** What the editing popup shows when it opens. */
  datatype Form = Form(title: string, time: string, priority: string, notes: string)

  class TodoApp {
    var tasksByDate: Store
    /** The selected day as its ISO key. */
    var selectedDate: string
    var weekOffset: int
    /** The record the popup edits, or None for a new record. */
    var editIndex: Option<nat>
    var teamMessages: map<string, seq<Json>>

    /** Start-up: today selected, the week strip at this week, and both
        files loaded. */
    constructor (today: string, tasksFile: StoredFile, teamFile: StoredFile, clock: (string, nat) -> string)
      ensures selectedDate == today && weekOffset == 0 && editIndex == None
      ensures tasksByDate == LoadedStore(tasksFile, clock)
      ensures teamMessages == TeamLoaded(teamFile)
    {
      weekOffset := 0;
      selectedDate := today;
      tasksByDate := map[];
      editIndex := None;
      teamMessages := map[];
      new;
      LoadTasks(tasksFile, clock);
      LoadTeamMessages(teamFile);
    }

    /** load_tasks. */
    method LoadTasks(file: StoredFile, clock: (string, nat) -> string)
      modifies this`tasksByDate
      ensures tasksByDate == LoadedStore(file, clock)
    {
      match file {
        case Parsed(JObj(m)) =>
          var r := NormalizeDocument(m, clock);
          tasksByDate := if r.Some? then r.value else map[];
        case _ =>
          tasksByDate := map[];
      }
    }

    /** load_team_messages. */
    method LoadTeamMessages(file: StoredFile)
      modifies this`teamMessages
      ensures teamMessages == TeamLoaded(file)
    {
      match file {
        case Missing =>
          teamMessages := SeedContacts();
        case Parsed(JObj(m)) =>
          teamMessages := map k | k in m :: if m[k].JArr? then m[k].items else [];
        case _ =>
          teamMessages := map[];
      }
    }

    method PrevWeek()
      modifies this`weekOffset
      ensures weekOffset == old(weekOffset) - 7
    {
      weekOffset := weekOffset - 7;
    }

    method NextWeek()
      modifies this`weekOffset
      ensures weekOffset == old(weekOffset) + 7
    {
      weekOffset := weekOffset + 7;
    }

    method SelectDate(date: string)
      modifies this`selectedDate
      ensures selectedDate == date
    {
      selectedDate := date;
    }

    /** toggle_done_by_list: scan the day's records for the shown one and
        flip the first match. */
    method ToggleDoneByList(listIndex: nat, visible: seq<Task>)
      requires listIndex < |visible|
      modifies this`tasksByDate
      ensures tasksByDate == Toggled(old(tasksByDate), selectedDate, visible[listIndex])
    {
      var key := selectedDate;
      var actual := TasksOn(tasksByDate, key);
      var target := visible[listIndex];
      var idx := 0;
      while idx < |actual|
        invariant 0 <= idx <= |actual|
        invariant forall j :: 0 <= j < idx ==> !SameRecordAs(target)(actual[j])
        invariant tasksByDate == old(tasksByDate)
      {
        var t := actual[idx];
        if t.text == target.text && t.created == target.created {
          assert FirstWhere(actual, SameRecordAs(target)) == Some(idx);
          tasksByDate := tasksByDate[key := actual[idx := t.(done := !t.done)]];
          break;
        }
        idx := idx + 1;
      }
    }

    /** open_add_task: remember what the popup edits and fill the form. */
    method OpenAddTask(edit: Option<nat>) returns (form: Form)
      requires edit.Some? ==> edit.value < |TasksOn(tasksByDate, selectedDate)|
      modifies this`editIndex
      ensures editIndex == edit
      ensures edit.None? ==> form == Form("", "", "Normal", "")
      ensures edit.Some? ==>
        var t := TasksOn(tasksByDate, selectedDate)[edit.value];
        form == Form(t.text, t.time, t.priority, t.notes)
    {
      editIndex := edit;
      match edit {
        case None =>
          form := Form("", "", "Normal", "");
        case Some(i) =>
          var t := TasksOn(tasksByDate, selectedDate)[i];
          form := Form(t.text, t.time, t.priority, t.notes);
      }
    }

    /** edit_task_by_list: open the popup on the first record of the day with
        the shown record's created stamp; none found, nothing happens. */
    method EditTaskByList(listIndex: nat, visible: seq<Task>) returns (form: Option<Form>)
      requires listIndex < |visible|
      modifies this`editIndex
      ensures match FirstWhere(TasksOn(tasksByDate, selectedDate), HasCreated(visible[listIndex].created))
        case None => editIndex == old(editIndex) && form == None
        case Some(i) =>
          var t := TasksOn(tasksByDate, selectedDate)[i];
          && editIndex == Some(i) && form == Some(Form(t.text, t.time, t.priority, t.notes))
    {
      var idx := FirstWhere(TasksOn(tasksByDate, selectedDate), HasCreated(visible[listIndex].created));
      form := None;
      if idx.Some? {
        var f := OpenAddTask(idx);
        form := Some(f);
      }
    }

    /** save_task with the popup's field contents. */
    method SaveTask(title: string, time: string, priority: string, notes: string, created: string)
      requires editIndex.Some? ==> selectedDate in tasksByDate && editIndex.value < |tasksByDate[selectedDate]|
      modifies this`tasksByDate
      ensures tasksByDate == Saved(old(tasksByDate), selectedDate, editIndex, title, time, priority, notes, created)
    {
      var text, timeText, notesText := Strip(title), Strip(time), Strip(notes);
      if text == "" {
        return;
      }
      var key := selectedDate;
      if key !in tasksByDate {
        tasksByDate := tasksByDate[key := []];
      }
      match editIndex {
        case None =>
          tasksByDate := tasksByDate[key := tasksByDate[key] + [Task(text, timeText, priority, false, notesText, created)]];
        case Some(i) =>
          var t := tasksByDate[key][i];
          tasksByDate := tasksByDate[key := tasksByDate[key][i := t.(text := text, time := timeText, priority := priority, notes := notesText)]];
      }
    }

    /** delete_task at a position of the selected day, after the
        confirmation dialog answered `confirmed`. */
    method DeleteTask(index: int, confirmed: bool)
      modifies this`tasksByDate
      ensures tasksByDate == Deleted(old(tasksByDate), selectedDate, index, confirmed)
    {
      var key := selectedDate;
      if !(key in tasksByDate && 0 <= index < |tasksByDate[key]|) {
        return;
      }
      if confirmed {
        var list := tasksByDate[key];
        tasksByDate := tasksByDate[key := list[..index] + list[index + 1..]];
        if tasksByDate[key] == [] {
          tasksByDate := tasksByDate - {key};
        }
      }
    }

    /** delete_task_by_list: resolve the shown record by created stamp, then
        delete_task. */
    method DeleteTaskByList(listIndex: nat, visible: seq<Task>, confirmed: bool)
      requires listIndex < |visible|
      modifies this`tasksByDate
      ensures tasksByDate == DeletedByList(old(tasksByDate), selectedDate, visible, listIndex, confirmed)
    {
      var idx := FirstWhere(TasksOn(tasksByDate, selectedDate), HasCreated(visible[listIndex].created));
      if idx.Some? {
        DeleteTask(idx.value, confirmed);
      }
    }

    /** quick_add with the quick-entry fields. */
    method QuickAdd(title: string, time: string, priority: string, created: string)
      modifies this`tasksByDate
      ensures tasksByDate == QuickAdded(old(tasksByDate), selectedDate, title, time, priority, created)
    {
      var text := Strip(title);
      if text == "" {
        return;
      }
      var key := selectedDate;
      tasksByDate := tasksByDate[key := TasksOn(tasksByDate, key) + [Task(text, Strip(time), priority, false, "", created)]];
    }

    /** clear_completed: each day in turn keeps its undone records and is
        dropped when none remain; the flag records whether any day's length
        changed. */
    method ClearCompleted() returns (changed: bool)
      modifies this`tasksByDate
      ensures tasksByDate == Cleared(old(tasksByDate))
      ensures changed == ClearChanges(old(tasksByDate))
    {
      ghost var s := tasksByDate;
      ClearedAllDays(s);
      ChangedAmongAll(s);
      changed := false;
      var pending := tasksByDate.Keys;
      while pending != {}
        invariant pending <= s.Keys
        invariant tasksByDate == ClearedDays(s, s.Keys - pending)
        invariant changed <==> ChangedAmong(s, s.Keys - pending)
        decreases pending
      {
        var k :| k in pending;
        ClearedDaysStep(s, s.Keys - pending, k);
        ChangedAmongStep(s, s.Keys - pending, k);
        assert s.Keys - (pending - {k}) == (s.Keys - pending) + {k};
        var before := |tasksByDate[k]|;
        ghost var processed := tasksByDate;
        tasksByDate := tasksByDate[k := Undone(tasksByDate[k])];
        if tasksByDate[k] == [] {
          MapUpdateRemove(processed, k, Undone(s[k]));
          tasksByDate := tasksByDate - {k};
        }
        assert |TasksOn(tasksByDate, k)| == |Undone(s[k])|;
        if |TasksOn(tasksByDate, k)| != before {
          changed := true;
        }
        pending := pending - {k};
      }
    }

    /** draw_history's counts: done and undone records over all days. */
    method HistoryCounts() returns (done: nat, undone: nat)
      ensures done == StoreCount(tasksByDate, true)
      ensures undone == StoreCount(tasksByDate, false)
    {
      done, undone := 0, 0;
      var rest := tasksByDate;
      while rest != map[]
        invariant done + StoreCount(rest, true) == StoreCount(tasksByDate, true)
        invariant undone + StoreCount(rest, false) == StoreCount(tasksByDate, false)
        decreases |rest|
      {
        var k :| k in rest;
        var list := rest[k];
        StoreCountSplit(rest, k, true);
        StoreCountSplit(rest, k, false);
        ghost var done0, undone0 := done, undone;
        var i := 0;
        while i < |list|
          invariant 0 <= i <= |list|
          invariant done == done0 + CountStatus(list[..i], true)
          invariant undone == undone0 + CountStatus(list[..i], false)
        {
          CountStatusStep(list, i, true);
          CountStatusStep(list, i, false);
          if list[i].done {
            done := done + 1;
          } else {
            undone := undone + 1;
          }
          i := i + 1;
        }
        assert list[..i] == list;
        rest := rest - {k};
      }
    }

    /** ai_generate_reply: route the message, apply an add-task command to
        the selected day, and build the reply (the summary line by line). */
    method GenerateReply(text: string, created: string) returns (reply: string)
      modifies this`tasksByDate
      ensures reply == ReplyText(Route(text), selectedDate, TasksOn(old(tasksByDate), selectedDate))
      ensures tasksByDate == AfterReply(old(tasksByDate), selectedDate, Route(text), created)
    {
      var key := selectedDate;
      var c := Route(text);
      var tasks := TasksOn(tasksByDate, key);
      match c {
        case AddTaskCmd(title, time, priority, notes) =>
          tasksByDate := tasksByDate[key := tasks + [Task(title, time, priority, false, notes, created)]];
          reply := "Added task '" + title + "' for " + key + " (priority: " + priority + ").";
        case Summarize =>
          if tasks == [] {
            reply := "No tasks for " + key + ".";
          } else {
            var lines := BuildSummaryLines(tasks);
            reply := SummaryHeader + Join(lines, '\n');
          }
        case Help =>
          reply := HelpText;
        case Fallback =>
          reply := FallbackText;
      }
    }
  }
}
