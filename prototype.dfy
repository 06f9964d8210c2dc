/** prototype.py, the earlier variant of the to-do application: each day's
    list holds `(text, time, done)` triples, records are addressed by their
    position on the unfiltered list, editing resets `done`, and deleting the
    last record of a day keeps the day's (now empty) list. The functions
    state each operation on the store; the class performs them in place. */
module Prototype {
  import opened Common
  import opened TextOps

  /** `(text, time, done)`. */
  datatype Entry = Entry(text: string, time: string, done: bool)

  /** Day key to that day's entries. */
  type Entries = map<string, seq<Entry>>

  /** draw_tasks' lookup: `tasks_by_date.get(selected_date, [])`. */
  function EntriesOn(s: Entries, key: string): seq<Entry> {
    if key in s then s[key] else []
  }

  /** toggle_done: the entry keeps its text and time, done is negated. */
  function EntryToggled(s: Entries, key: string, i: nat): Entries
    requires key in s && i < |s[key]|
  {
    var e := s[key][i];
    s[key := s[key][i := Entry(e.text, e.time, !e.done)]]
  }

  /** save_task: a blank title changes nothing; a new entry gets the clock
      reading `now` as its time and is not done; an edited entry takes the
      new text, keeps its time and is no longer done. */
  function EntrySaved(s: Entries, key: string, editIndex: Option<nat>, title: string, now: string): Entries
    requires editIndex.Some? ==> key in s && editIndex.value < |s[key]|
  {
    var text := Strip(title);
    if text == "" then s
    else match editIndex
      case None => s[key := EntriesOn(s, key) + [Entry(text, now, false)]]
      case Some(i) => s[key := s[key][i := Entry(text, s[key][i].time, false)]]
  }

  /** delete_task: `del tasks_by_date[selected_date][index]`. */
  function EntryDeleted(s: Entries, key: string, i: nat): Entries
    requires key in s && i < |s[key]|
  {
    s[key := s[key][..i] + s[key][i + 1..]]
  }

  /** Toggling changes only the done flag of the one entry. */
  lemma ToggleChangesOnlyDone(s: Entries, key: string, i: nat)
    requires key in s && i < |s[key]|
    ensures var r := EntryToggled(s, key, i);
      && key in r && |r[key]| == |s[key]|
      && r[key][i].text == s[key][i].text && r[key][i].time == s[key][i].time
      && r[key][i].done == !s[key][i].done
      && (forall j :: 0 <= j < |s[key]| && j != i ==> r[key][j] == s[key][j])
      && r - {key} == s - {key}
  {
  }

  /** Toggling the same entry twice restores the store. */
  lemma ToggleTwiceRestores(s: Entries, key: string, i: nat)
    requires key in s && i < |s[key]|
    ensures EntryToggled(EntryToggled(s, key, i), key, i) == s
  {
    var r := EntryToggled(s, key, i);
    var list: seq<Entry> := r[key];
    var e := list[i];
    assert list[i := Entry(e.text, e.time, !e.done)] == s[key];
  }

  /** A blank title is ignored on both paths. */
  lemma BlankEntryIgnored(s: Entries, key: string, editIndex: Option<nat>, title: string, now: string)
    requires editIndex.Some? ==> key in s && editIndex.value < |s[key]|
    requires AllSpace(title)
    ensures EntrySaved(s, key, editIndex, title, now) == s
  {
  }

  /** Adding appends `(text, now, False)` at the end of the day, creating the
      day when absent, and leaves the other days alone. */
  lemma AddAppendsEntry(s: Entries, key: string, title: string, now: string)
    requires Strip(title) != ""
    ensures var r := EntrySaved(s, key, None, title, now);
      && key in r
      && r[key] == EntriesOn(s, key) + [Entry(Strip(title), now, false)]
      && r - {key} == s - {key}
  {
  }

  /** Editing replaces the text, keeps the time and resets done; the other
      entries and days are untouched. */
  lemma EditResetsDone(s: Entries, key: string, i: nat, title: string, now: string)
    requires key in s && i < |s[key]|
    requires Strip(title) != ""
    ensures var r := EntrySaved(s, key, Some(i), title, now);
      && key in r && |r[key]| == |s[key]|
      && r[key][i] == Entry(Strip(title), s[key][i].time, false)
      && (forall j :: 0 <= j < |s[key]| && j != i ==> r[key][j] == s[key][j])
      && r - {key} == s - {key}
  {
  }

  /** Deleting removes exactly the indexed entry and keeps the day, even
      when it becomes empty. */
  lemma DeleteKeepsDay(s: Entries, key: string, i: nat)
    requires key in s && i < |s[key]|
    ensures var r := EntryDeleted(s, key, i);
      && key in r
      && |r[key]| == |s[key]| - 1
      && (forall j :: 0 <= j < i ==> r[key][j] == s[key][j])
      && (forall j :: i <= j < |r[key]| ==> r[key][j] == s[key][j + 1])
      && r - {key} == s - {key}
  {
  }

  /** Deleting the entry just added gives back the day's list, but the day
      stays in the store even if it was absent before. */
  lemma DeleteUndoesAddKeepingDay(s: Entries, key: string, title: string, now: string)
    requires Strip(title) != ""
    ensures var a := EntrySaved(s, key, None, title, now);
      && key in a && |EntriesOn(s, key)| < |a[key]|
      && EntryDeleted(a, key, |EntriesOn(s, key)|) == s[key := EntriesOn(s, key)]
  {
    var n := |EntriesOn(s, key)|;
    var list := EntriesOn(s, key) + [Entry(Strip(title), now, false)];
    var a := EntrySaved(s, key, None, title, now);
    assert a == s[key := list];
    assert list[..n] + list[n + 1..] == EntriesOn(s, key);
    assert EntryDeleted(a, key, n) == a[key := list[..n] + list[n + 1..]];
  }

  class TodoApp {
    var tasksByDate: Entries
    var selectedDate: string
    var editIndex: Option<nat>

    constructor (today: string)
      ensures tasksByDate == map[] && selectedDate == today && editIndex == None
    {
      tasksByDate := map[];
      selectedDate := today;
      editIndex := None;
    }

    method SelectDate(date: string)
      modifies this`selectedDate
      ensures selectedDate == date
    {
      selectedDate := date;
    }

    /** draw_tasks: the entries of the selected day, none when the day has
        no list. */
    method ShownEntries() returns (shown: seq<Entry>)
      ensures selectedDate in tasksByDate ==> shown == tasksByDate[selectedDate]
      ensures selectedDate !in tasksByDate ==> shown == []
    {
      shown := [];
      if selectedDate in tasksByDate {
        shown := tasksByDate[selectedDate];
      }
    }

    method ToggleDone(index: nat)
      requires selectedDate in tasksByDate && index < |tasksByDate[selectedDate]|
      modifies this`tasksByDate
      ensures tasksByDate == EntryToggled(old(tasksByDate), selectedDate, index)
    {
      var e := tasksByDate[selectedDate][index];
      tasksByDate := tasksByDate[selectedDate := tasksByDate[selectedDate][index := Entry(e.text, e.time, !e.done)]];
    }

    /** open_add_task: remember the entry edited and return the text the
        popup's entry starts with. */
    method OpenAddTask(edit: Option<nat>) returns (prefill: string)
      requires edit.Some? ==> selectedDate in tasksByDate && edit.value < |tasksByDate[selectedDate]|
      modifies this`editIndex
      ensures editIndex == edit
      ensures prefill == if edit.Some? then tasksByDate[selectedDate][edit.value].text else ""
    {
      editIndex := edit;
      prefill := "";
      if edit.Some? {
        prefill := tasksByDate[selectedDate][edit.value].text;
      }
    }

    method EditTask(index: nat) returns (prefill: string)
      requires selectedDate in tasksByDate && index < |tasksByDate[selectedDate]|
      modifies this`editIndex
      ensures editIndex == Some(index)
      ensures prefill == tasksByDate[selectedDate][index].text
    {
      prefill := OpenAddTask(Some(index));
    }

    /** save_task with the popup's text; `now` is the clock reading. */
    method SaveTask(title: string, now: string)
      requires editIndex.Some? ==> selectedDate in tasksByDate && editIndex.value < |tasksByDate[selectedDate]|
      modifies this`tasksByDate
      ensures tasksByDate == EntrySaved(old(tasksByDate), selectedDate, editIndex, title, now)
    {
      var text := Strip(title);
      if text == "" {
        return;
      }
      var key := selectedDate;
      match editIndex {
        case None =>
          var list := if key in tasksByDate then tasksByDate[key] else [];
          tasksByDate := tasksByDate[key := list + [Entry(text, now, false)]];
        case Some(i) =>
          tasksByDate := tasksByDate[key := tasksByDate[key][i := Entry(text, tasksByDate[key][i].time, false)]];
      }
    }

    method DeleteTask(index: nat)
      requires selectedDate in tasksByDate && index < |tasksByDate[selectedDate]|
      modifies this`tasksByDate
      ensures tasksByDate == EntryDeleted(old(tasksByDate), selectedDate, index)
    {
      var list := tasksByDate[selectedDate];
      tasksByDate := tasksByDate[selectedDate := list[..index] + list[index + 1..]];
    }
  }
}
