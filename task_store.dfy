/** The date-keyed task collection of 101tegbar.py, as values: every
    operation on `tasks_by_date` as a function from the old store to the new
    one, with the properties the application relies on proved as lemmas.
    The class in TegbarApp performs these operations in place. */
module TaskStore {
  import opened Common
  import opened TextOps

  /** One task record: `{text, time, priority, done, notes, created}`.
      `created` is the ISO timestamp taken when the record was made; it is the
      only handle the application has on a record once the list is filtered. */
  datatype Task = Task(text: string, time: string, priority: string, done: bool, notes: string, created: string)

  /** `tasks_by_date`: ISO date key to that day's records in insertion order. */
  type Store = map<string, seq<Task>>

  /** `tasks_by_date.get(key, [])`. */
  function TasksOn(s: Store, key: string): seq<Task> {
    if key in s then s[key] else []
  }

  // ---------------------------------------------------------------- adding

  /** `tasks_by_date.setdefault(key, []).append(t)`. */
  function Appended(s: Store, key: string, t: Task): Store {
    s[key := TasksOn(s, key) + [t]]
  }

  /** What the Save button of the editing popup does to the store (save_task):
      title, time and notes are stripped; a blank title changes nothing;
      otherwise a new record is appended, or, when the popup was opened for
      editing, the four editable fields of that record are overwritten. */
  function Saved(s: Store, key: string, editIndex: Option<nat>, title: string, time: string,
                 priority: string, notes: string, created: string): Store
    requires editIndex.Some? ==> key in s && editIndex.value < |s[key]|
  {
    var text := Strip(title);
    if text == "" then s
    else if editIndex.None? then Appended(s, key, Task(text, Strip(time), priority, false, Strip(notes), created))
    else Edited(s, key, editIndex.value, text, Strip(time), priority, Strip(notes))
  }

  /** `t.update({text, time, priority, notes})` on record i of the day. */
  function Edited(s: Store, key: string, i: nat, text: string, time: string, priority: string, notes: string): Store
    requires key in s && i < |s[key]|
  {
    s[key := s[key][i := s[key][i].(text := text, time := time, priority := priority, notes := notes)]]
  }

  /** quick_add: like Save without notes and without an edit path. */
  function QuickAdded(s: Store, key: string, title: string, time: string, priority: string, created: string): Store {
    var text := Strip(title);
    if text == "" then s else Appended(s, key, Task(text, Strip(time), priority, false, "", created))
  }

  /** A blank title is rejected whatever the popup was opened for; quick add
      ignores it too. */
  lemma BlankTitleChangesNothing(s: Store, key: string, editIndex: Option<nat>, title: string, time: string,
                                 priority: string, notes: string, created: string)
    requires editIndex.Some? ==> key in s && editIndex.value < |s[key]|
    requires AllSpace(title)
    ensures Saved(s, key, editIndex, title, time, priority, notes, created) == s
    ensures QuickAdded(s, key, title, time, priority, created) == s
  {
  }

  /** Adding a task with a non-blank title appends exactly one not-done
      record, carrying the stripped fields, at the end of the day's list, and
      leaves every other day alone. */
  lemma SaveAppendsOne(s: Store, key: string, title: string, time: string, priority: string, notes: string, created: string)
    requires Strip(title) != ""
    ensures var r := Saved(s, key, None, title, time, priority, notes, created);
      && key in r
      && |r[key]| == |TasksOn(s, key)| + 1
      && r[key][..|TasksOn(s, key)|] == TasksOn(s, key)
      && r[key][|TasksOn(s, key)|] == Task(Strip(title), Strip(time), priority, false, Strip(notes), created)
      && r - {key} == s - {key}
  {
    var t := Task(Strip(title), Strip(time), priority, false, Strip(notes), created);
    var list := TasksOn(s, key) + [t];
    assert Saved(s, key, None, title, time, priority, notes, created) == s[key := list];
    assert list[..|TasksOn(s, key)|] == TasksOn(s, key);
  }

  /** A quick add with a non-blank title appends exactly one record to the
      day: stripped text and time, the chosen priority, not done, no notes,
      and the clock's stamp; every other day is unchanged. */
  lemma QuickAddAppendsOne(s: Store, key: string, title: string, time: string, priority: string, created: string)
    requires Strip(title) != ""
    ensures var r := QuickAdded(s, key, title, time, priority, created);
      && key in r
      && |r[key]| == |TasksOn(s, key)| + 1
      && r[key][..|TasksOn(s, key)|] == TasksOn(s, key)
      && r[key][|TasksOn(s, key)|] == Task(Strip(title), Strip(time), priority, false, "", created)
      && r - {key} == s - {key}
  {
    var t := Task(Strip(title), Strip(time), priority, false, "", created);
    var list := TasksOn(s, key) + [t];
    assert QuickAdded(s, key, title, time, priority, created) == s[key := list];
    assert list[..|TasksOn(s, key)|] == TasksOn(s, key);
  }

  /** Editing overwrites only text, time, priority and notes of the chosen
      record: its done flag and created stamp, every other record and every
      other day are unchanged. */
  lemma SaveEditKeepsIdentity(s: Store, key: string, i: nat, title: string, time: string, priority: string, notes: string, created: string)
    requires key in s && i < |s[key]|
    requires Strip(title) != ""
    ensures var r := Saved(s, key, Some(i), title, time, priority, notes, created);
      && r.Keys == s.Keys
      && |r[key]| == |s[key]|
      && r[key][i] == Task(Strip(title), Strip(time), priority, s[key][i].done, Strip(notes), s[key][i].created)
      && (forall j :: 0 <= j < |s[key]| && j != i ==> r[key][j] == s[key][j])
      && r - {key} == s - {key}
  {
  }

  /** Editing a record and then editing it back to its old fields restores
      the store. */
  lemma EditUndo(s: Store, key: string, i: nat, text: string, time: string, priority: string, notes: string)
    requires key in s && i < |s[key]|
    ensures var old_ := s[key][i];
      Edited(Edited(s, key, i, text, time, priority, notes), key, i, old_.text, old_.time, old_.priority, old_.notes) == s
  {
    var t := s[key][i];
    var e := Edited(s, key, i, text, time, priority, notes);
    var back := Edited(e, key, i, t.text, t.time, t.priority, t.notes);
    assert back[key] == s[key];
  }

  // -------------------------------------------------------------- deleting

  /** delete_task: out-of-range index, unknown day or a declined confirmation
      change nothing; otherwise the record is removed, and a day left without
      records is dropped from the store. */
  function Deleted(s: Store, key: string, index: int, confirmed: bool): Store {
    if !(key in s && 0 <= index < |s[key]|) || !confirmed then s
    else
      var rest := s[key][..index] + s[key][index + 1..];
      if rest == [] then s - {key} else s[key := rest]
  }

  /** Deleting removes exactly the chosen record and nothing else; the day
      survives exactly when it had other records. */
  lemma DeleteRemovesExactlyOne(s: Store, key: string, index: int)
    requires key in s && 0 <= index < |s[key]|
    ensures var r := Deleted(s, key, index, true);
      && TasksOn(r, key) == s[key][..index] + s[key][index + 1..]
      && (key in r <==> |s[key]| > 1)
      && r - {key} == s - {key}
      && (key in r ==> r[key] != [])
  {
  }

  /** Deleting the record just added gives back the store, provided the day
      held no empty list beforehand (an emptied day is dropped). */
  lemma DeleteUndoesAdd(s: Store, key: string, t: Task)
    requires key in s ==> s[key] != []
    ensures Deleted(Appended(s, key, t), key, |TasksOn(s, key)|, true) == s
  {
    var a := Appended(s, key, t);
    var n := |TasksOn(s, key)|;
    assert a[key][..n] + a[key][n + 1..] == TasksOn(s, key);
    if key !in s {
      assert a - {key} == s;
    } else {
      assert a[key := TasksOn(s, key)] == s;
    }
  }

  // ------------------------------------------------------ filtered view

  /** `query in t["text"].lower() or query in t.get("notes", "").lower()`. */
  function MatchesQuery(q: string): Task -> bool {
    (t: Task) => Contains(Lower(t.text), q) || Contains(Lower(t.notes), q)
  }

  /** The records draw_tasks shows for a day and a search box content. */
  function Visible(tasks: seq<Task>, rawQuery: string): seq<Task> {
    var q := Lower(Strip(rawQuery));
    if q == "" then tasks else Filter(MatchesQuery(q), tasks)
  }

  /** Where each shown record sits in the day's list. */
  function VisibleIndices(tasks: seq<Task>, rawQuery: string): seq<nat> {
    var q := Lower(Strip(rawQuery));
    if q == "" then seq(|tasks|, i requires 0 <= i < |tasks| => i) else FilterIndices(MatchesQuery(q), tasks)
  }

  /** With a blank search box every record of the day is shown, in order. */
  lemma VisibleBlankQuery(tasks: seq<Task>, rawQuery: string)
    requires AllSpace(rawQuery)
    ensures Visible(tasks, rawQuery) == tasks
  {
  }

  /** The shown list is an in-order subsequence of the day's list: shown
      position j is the day's record at VisibleIndices[j], and those
      positions strictly increase. */
  lemma VisibleIsSubsequence(tasks: seq<Task>, rawQuery: string)
    ensures |VisibleIndices(tasks, rawQuery)| == |Visible(tasks, rawQuery)|
    ensures forall j :: 0 <= j < |Visible(tasks, rawQuery)| ==>
      VisibleIndices(tasks, rawQuery)[j] < |tasks| && tasks[VisibleIndices(tasks, rawQuery)[j]] == Visible(tasks, rawQuery)[j]
    ensures forall j, k :: 0 <= j < k < |VisibleIndices(tasks, rawQuery)| ==>
      VisibleIndices(tasks, rawQuery)[j] < VisibleIndices(tasks, rawQuery)[k]
  {
  }

  /** With a non-blank query, a record is shown exactly when its lowered text
      or notes contains the lowered, stripped query. */
  lemma VisibleExactlyMatches(tasks: seq<Task>, rawQuery: string, i: nat)
    requires Strip(rawQuery) != "" && i < |tasks|
    ensures var q := Lower(Strip(rawQuery));
      i in VisibleIndices(tasks, rawQuery) <==> Contains(Lower(tasks[i].text), q) || Contains(Lower(tasks[i].notes), q)
  {
    FilterIndicesComplete(MatchesQuery(Lower(Strip(rawQuery))), tasks, i);
  }

  /** Searching is case-insensitive: "MILK" finds "Buy milk". */
  lemma SearchIgnoresCase(created: string)
    ensures var t := Task("Buy milk", "", "Normal", false, "", created);
      Visible([t], "MILK") == [t]
  {
    var t := Task("Buy milk", "", "Normal", false, "", created);
    StripStripped("MILK");
    assert Lower("MILK") == "milk";
    assert Lower("Buy milk")[4..][..4] == "milk";
    assert StartsWith(Lower("Buy milk")[4..], "milk");
    assert MatchesQuery("milk")(t);
    assert [t][..0] == [];
  }

  // ------------------------------------------- resolving a shown position

  /** toggle_done_by_list's test: the same object, or equal text and
      created. In a value model the same object always has equal text and
      created, so the test is the second half. */
  function SameRecordAs(target: Task): Task -> bool {
    (t: Task) => t.text == target.text && t.created == target.created
  }

  /** edit_task_by_list's and delete_task_by_list's test: equal created. */
  function HasCreated(created: string): Task -> bool {
    (t: Task) => t.created == created
  }

  /** No two records of a day share a created stamp. */
  predicate UniqueCreated(tasks: seq<Task>) {
    forall i, j :: 0 <= i < j < |tasks| ==> tasks[i].created != tasks[j].created
  }

  /** No two records of a day agree on both text and created stamp: all that
      toggle_done_by_list needs to find the record it was shown. */
  predicate UniqueRecords(tasks: seq<Task>) {
    forall i, j :: 0 <= i < j < |tasks| ==> !SameRecordAs(tasks[i])(tasks[j])
  }

  /** When no two records agree on text and stamp, looking a record up by
      both finds that very record. */
  lemma LookupBySameRecord(tasks: seq<Task>, i: nat)
    requires UniqueRecords(tasks) && i < |tasks|
    ensures FirstWhere(tasks, SameRecordAs(tasks[i])) == Some(i)
  {
    var q := FirstWhere(tasks, SameRecordAs(tasks[i]));
    assert SameRecordAs(tasks[i])(tasks[i]);
  }

  /** When created stamps are unique, looking a record up by its stamp finds
      that very record. */
  lemma LookupByCreated(tasks: seq<Task>, i: nat)
    requires UniqueCreated(tasks) && i < |tasks|
    ensures FirstWhere(tasks, HasCreated(tasks[i].created)) == Some(i)
    ensures FirstWhere(tasks, SameRecordAs(tasks[i])) == Some(i)
  {
    var r := FirstWhere(tasks, HasCreated(tasks[i].created));
    assert HasCreated(tasks[i].created)(tasks[i]);
    var q := FirstWhere(tasks, SameRecordAs(tasks[i]));
    assert SameRecordAs(tasks[i])(tasks[i]);
  }

  /** The central property of the filtered view: whatever the search, the
      record found for shown position j, by created stamp or by text and
      stamp, is the day's record displayed at that position, provided stamps
      are unique. */
  lemma ShownPositionResolves(tasks: seq<Task>, rawQuery: string, j: nat)
    requires UniqueCreated(tasks)
    requires j < |Visible(tasks, rawQuery)|
    ensures var shown := Visible(tasks, rawQuery)[j];
      && FirstWhere(tasks, HasCreated(shown.created)) == Some(VisibleIndices(tasks, rawQuery)[j])
      && FirstWhere(tasks, SameRecordAs(shown)) == Some(VisibleIndices(tasks, rawQuery)[j])
  {
    VisibleIsSubsequence(tasks, rawQuery);
    LookupByCreated(tasks, VisibleIndices(tasks, rawQuery)[j]);
  }

  /** delete_task_by_list: resolve the shown record by its created stamp,
      then delete_task at the position found. */
  function DeletedByList(s: Store, key: string, visible: seq<Task>, listIndex: nat, confirmed: bool): Store
    requires listIndex < |visible|
  {
    match FirstWhere(TasksOn(s, key), HasCreated(visible[listIndex].created))
    case None => s
    case Some(i) => Deleted(s, key, i, confirmed)
  }

  /** Deleting shown position j removes the record shown there, even when the
      search hides records before it. */
  lemma DeleteByListRemovesShown(s: Store, key: string, rawQuery: string, j: nat, confirmed: bool)
    requires UniqueCreated(TasksOn(s, key))
    requires j < |Visible(TasksOn(s, key), rawQuery)|
    ensures DeletedByList(s, key, Visible(TasksOn(s, key), rawQuery), j, confirmed)
         == Deleted(s, key, VisibleIndices(TasksOn(s, key), rawQuery)[j], confirmed)
  {
    ShownPositionResolves(TasksOn(s, key), rawQuery, j);
  }

  /** Why the stamps must be unique: when two records share one, deleting
      the second through the list removes the first. */
  lemma SharedStampHitsFirst(a: Task, b: Task, key: string)
    requires a.created == b.created && a != b
    ensures DeletedByList(map[key := [a, b]], key, [a, b], 1, true) == map[key := [b]]
  {
    assert HasCreated(b.created)(a);
    assert [a, b][..0] + [a, b][1..] == [b];
  }

  /** A filter that rejects the first of three and keeps the second shows
      the second first. */
  lemma FilterSecondFirst(p: Task -> bool, tasks: seq<Task>)
    requires |tasks| == 3 && !p(tasks[0]) && p(tasks[1])
    ensures |Filter(p, tasks)| >= 1 && Filter(p, tasks)[0] == tasks[1]
  {
    assert Filter(p, tasks[..1]) == [] by { assert tasks[..1][..0] == []; }
    assert tasks[..2][..1] == tasks[..1];
    assert Filter(p, tasks[..2]) == [tasks[1]];
    assert tasks[..3][..2] == tasks[..2];
    assert tasks[..3] == tasks;
  }

  /** The query "b" is used as typed. */
  lemma QueryB()
    ensures Lower(Strip("b")) == "b"
  {
    StripStripped("b");
    assert Lower("b") == "b";
  }

  lemma MatchesB(a: Task, b: Task)
    requires a.text == "A" && b.text == "B" && a.notes == ""
    ensures !MatchesQuery("b")(a) && MatchesQuery("b")(b)
  {
    assert Lower(a.text) == "a";
    assert Lower(a.notes) == "";
    forall i | 0 <= i <= 1 ensures !StartsWith("a"[i..], "b") {
      assert "a"[0] != 'b';
    }
    assert !Contains("a", "b");
    assert !Contains("", "b");
    assert Lower(b.text) == "b";
    assert StartsWith(Lower(b.text)[0..], "b");
  }

  /** The search "b" over A, B, BC shows B first. */
  lemma SearchBShowsBFirst(a: Task, b: Task, c: Task)
    requires a.text == "A" && b.text == "B" && a.notes == ""
    ensures |Visible([a, b, c], "b")| >= 1 && Visible([a, b, c], "b")[0] == b
  {
    QueryB();
    MatchesB(a, b);
    FilterSecondFirst(MatchesQuery("b"), [a, b, c]);
  }

  /** Deleting the middle one of three records keeps the other two. */
  lemma DeleteMiddleOfThree(a: Task, b: Task, c: Task, key: string)
    ensures Deleted(map[key := [a, b, c]], key, 1, true) == map[key := [a, c]]
  {
    var tasks := [a, b, c];
    assert tasks[..1] + tasks[2..] == [a, c];
  }

  /** Three records with different stamps. */
  lemma ThreeUnique(a: Task, b: Task, c: Task)
    requires a.created != b.created && b.created != c.created && a.created != c.created
    ensures UniqueCreated([a, b, c])
  {
  }

  /** A search that shows the middle one of three records first: deleting
      shown position 0 removes that middle record. */
  lemma DeleteShownMiddle(a: Task, b: Task, c: Task, key: string, q: string)
    requires a.created != b.created && b.created != c.created && a.created != c.created
    requires |Visible([a, b, c], q)| >= 1 && Visible([a, b, c], q)[0] == b
    ensures DeletedByList(map[key := [a, b, c]], key, Visible([a, b, c], q), 0, true) == map[key := [a, c]]
  {
    var tasks := [a, b, c];
    var s := map[key := tasks];
    assert TasksOn(s, key) == tasks;
    ThreeUnique(a, b, c);
    DeleteByListRemovesShown(s, key, q, 0, true);
    VisibleIsSubsequence(tasks, q);
    var i := VisibleIndices(tasks, q)[0];
    assert i < 3 && tasks[i] == b;
    assert i == 1 by {
      assert a != b && c != b;
    }
    DeleteMiddleOfThree(a, b, c, key);
  }

  /** The three-record case: A, B, C with the search showing B and C;
      deleting shown position 0 removes B and keeps A and C. */
  lemma DeleteSecondOfThree(a: Task, b: Task, c: Task, key: string)
    requires a.created != b.created && b.created != c.created && a.created != c.created
    requires a.text == "A" && b.text == "B" && c.text == "BC" && a.notes == "" && b.notes == "" && c.notes == ""
    ensures var shown := Visible([a, b, c], "b");
      && |shown| >= 1 && shown[0] == b
      && DeletedByList(map[key := [a, b, c]], key, shown, 0, true) == map[key := [a, c]]
  {
    SearchBShowsBFirst(a, b, c);
    DeleteShownMiddle(a, b, c, key, "b");
  }

  // ------------------------------------------------------------ toggling

  /** toggle_done_by_list: flip `done` on the first record of the day that
      is the shown record; no match, or no such day, changes nothing. */
  function Toggled(s: Store, key: string, target: Task): Store {
    var tasks := TasksOn(s, key);
    match FirstWhere(tasks, SameRecordAs(target))
    case None => s
    case Some(i) => s[key := tasks[i := tasks[i].(done := !tasks[i].done)]]
  }

  /** Toggling flips done on exactly one record and changes nothing else. */
  lemma ToggleFlipsOne(s: Store, key: string, target: Task)
    ensures var r := Toggled(s, key, target);
      match FirstWhere(TasksOn(s, key), SameRecordAs(target))
      case None => r == s
      case Some(i) =>
        && key in s && key in r && |r[key]| == |s[key]|
        && r[key][i] == s[key][i].(done := !s[key][i].done)
        && (forall j :: 0 <= j < |s[key]| && j != i ==> r[key][j] == s[key][j])
        && r - {key} == s - {key}
  {
  }

  /** Toggling the same record twice restores the store. */
  lemma ToggleTwice(s: Store, key: string, target: Task)
    ensures Toggled(Toggled(s, key, target), key, target) == s
  {
    var tasks := TasksOn(s, key);
    match FirstWhere(tasks, SameRecordAs(target))
    case None =>
    case Some(i) =>
      var t1 := tasks[i := tasks[i].(done := !tasks[i].done)];
      var p := SameRecordAs(target);
      assert forall j :: 0 <= j < |t1| ==> (p(t1[j]) <==> p(tasks[j]));
      var k := FirstWhere(t1, p);
      assert k == Some(i);
      assert t1[i := t1[i].(done := !t1[i].done)] == tasks;
  }

  /** Through the filtered view, toggling shown position j flips the record
      displayed there. */
  lemma ToggleByListHitsShown(s: Store, key: string, rawQuery: string, j: nat)
    requires UniqueRecords(TasksOn(s, key))
    requires j < |Visible(TasksOn(s, key), rawQuery)|
    ensures var i := VisibleIndices(TasksOn(s, key), rawQuery)[j];
      && i < |TasksOn(s, key)|
      && Toggled(s, key, Visible(TasksOn(s, key), rawQuery)[j])
         == s[key := s[key][i := s[key][i].(done := !s[key][i].done)]]
  {
    VisibleIsSubsequence(TasksOn(s, key), rawQuery);
    LookupBySameRecord(TasksOn(s, key), VisibleIndices(TasksOn(s, key), rawQuery)[j]);
  }

  // ---------------------------------------------------- clearing completed

  function WithStatus(done: bool): Task -> bool {
    (t: Task) => t.done == done
  }

  /** `[t for t in tasks if not t.get("done")]`. */
  function Undone(tasks: seq<Task>): seq<Task> {
    Filter(WithStatus(false), tasks)
  }

  /** clear_completed: each day keeps its undone records in order; a day
      left with none is dropped. */
  function Cleared(s: Store): Store {
    map k | k in s && Undone(s[k]) != [] :: Undone(s[k])
  }

  /** The store part-way through clear_completed, once the days in `days`
      have been processed. */
  function ClearedDays(s: Store, days: set<string>): Store {
    map k | k in s && (k !in days || Undone(s[k]) != []) :: if k in days then Undone(s[k]) else s[k]
  }

  /** Processing one more day replaces its list by the undone records, or
      drops the day when none remain. */
  lemma ClearedDaysStep(s: Store, days: set<string>, k: string)
    requires k in s && k !in days
    ensures var before := ClearedDays(s, days);
      && k in before && before[k] == s[k]
      && ClearedDays(s, days + {k}) == (if Undone(s[k]) == [] then before - {k} else before[k := Undone(s[k])])
  {
  }

  /** Processing every day is clearing the store. */
  lemma ClearedAllDays(s: Store)
    ensures ClearedDays(s, {}) == s
    ensures ClearedDays(s, s.Keys) == Cleared(s)
  {
  }

  /** clear_completed's `changed` flag: some day's list length changed. */
  predicate ClearChanges(s: Store) {
    exists k :: k in s && |Undone(s[k])| != |s[k]|
  }

  /** The flag part-way through, once the days in `days` have been processed. */
  predicate ChangedAmong(s: Store, days: set<string>) {
    exists k :: k in s && k in days && |Undone(s[k])| != |s[k]|
  }

  /** Processing one more day raises the flag exactly when that day shrinks. */
  lemma ChangedAmongStep(s: Store, days: set<string>, k: string)
    requires k in s
    ensures ChangedAmong(s, days + {k}) <==> ChangedAmong(s, days) || |Undone(s[k])| != |s[k]|
  {
  }

  /** Before any day the flag is down; after every day it is ClearChanges. */
  lemma ChangedAmongAll(s: Store)
    ensures !ChangedAmong(s, {})
    ensures ChangedAmong(s, s.Keys) <==> ClearChanges(s)
  {
  }

  /** After clearing, no record is done, no day is empty, and each day's
      records are the undone ones at increasing positions of the old list. */
  lemma ClearedShape(s: Store)
    ensures Cleared(s).Keys <= s.Keys
    ensures forall k :: k in Cleared(s) ==> Cleared(s)[k] != []
    ensures forall k, i :: k in Cleared(s) && 0 <= i < |Cleared(s)[k]| ==> !Cleared(s)[k][i].done
    ensures forall k :: k in s && k !in Cleared(s) ==> forall i :: 0 <= i < |s[k]| ==> s[k][i].done
    ensures forall k :: k in Cleared(s) ==>
      var ix := FilterIndices(WithStatus(false), s[k]);
      && |ix| == |Cleared(s)[k]|
      && (forall j :: 0 <= j < |ix| ==> ix[j] < |s[k]| && Cleared(s)[k][j] == s[k][ix[j]])
      && (forall j, m :: 0 <= j < m < |ix| ==> ix[j] < ix[m])
  {
    forall k, i | k in Cleared(s) && 0 <= i < |Cleared(s)[k]| ensures !Cleared(s)[k][i].done {
      assert WithStatus(false)(Cleared(s)[k][i]);
    }
    forall k | k in s && k !in Cleared(s) ensures forall i :: 0 <= i < |s[k]| ==> s[k][i].done {
      FilterMembers(WithStatus(false), s[k]);
    }
  }

  /** The flag is raised exactly when some record was done. */
  lemma ClearChangesIffSomeDone(s: Store)
    ensures ClearChanges(s) <==> exists k, i :: k in s && 0 <= i < |s[k]| && s[k][i].done
  {
    if ClearChanges(s) {
      var k :| k in s && |Undone(s[k])| != |s[k]|;
      FilterSameLength(WithStatus(false), s[k]);
      var i :| 0 <= i < |s[k]| && !WithStatus(false)(s[k][i]);
      assert s[k][i].done;
    }
    if exists k, i :: k in s && 0 <= i < |s[k]| && s[k][i].done {
      var k, i :| k in s && 0 <= i < |s[k]| && s[k][i].done;
      FilterSameLength(WithStatus(false), s[k]);
      assert !WithStatus(false)(s[k][i]);
    }
  }

  /** Clearing twice is clearing once, and the second run reports that there
      was nothing to clear. */
  lemma ClearTwice(s: Store)
    ensures Cleared(Cleared(s)) == Cleared(s)
    ensures !ClearChanges(Cleared(s))
  {
    var c := Cleared(s);
    forall k | k in c ensures Undone(c[k]) == c[k] {
      FilterIdempotent(WithStatus(false), s[k]);
    }
  }

  // -------------------------------------------------------- history counts

  /** Number of records of a list whose done flag is `done`. */
  function CountStatus(tasks: seq<Task>, done: bool): nat {
    |Filter(WithStatus(done), tasks)|
  }

  ghost function PickKey(s: Store): string
    requires s != map[]
  {
    var k :| k in s; k
  }

  /** Records in the whole store whose done flag is `done` (draw_history). */
  ghost function StoreCount(s: Store, done: bool): nat
    decreases |s|
  {
    if s == map[] then 0
    else
      var k := PickKey(s);
      CountStatus(s[k], done) + StoreCount(s - {k}, done)
  }

  /** The store count may be taken day by day in any order. */
  lemma {:induction false} StoreCountSplit(s: Store, k: string, done: bool)
    requires k in s
    ensures StoreCount(s, done) == CountStatus(s[k], done) + StoreCount(s - {k}, done)
    decreases |s|
  {
    var p := PickKey(s);
    if p != k {
      calc {
        StoreCount(s, done);
        CountStatus(s[p], done) + StoreCount(s - {p}, done);
        { StoreCountSplit(s - {p}, k, done); assert s - {p} - {k} == s - {k} - {p}; }
        CountStatus(s[p], done) + CountStatus(s[k], done) + StoreCount(s - {k} - {p}, done);
        { StoreCountSplit(s - {k}, p, done); }
        CountStatus(s[k], done) + StoreCount(s - {k}, done);
      }
    }
  }

  /** Counting a list's records with the opposite flag: every record is
      counted exactly once. */
  lemma {:induction false} CountStatusSplit(tasks: seq<Task>)
    ensures CountStatus(tasks, true) + CountStatus(tasks, false) == |tasks|
    decreases |tasks|
  {
    if tasks != [] {
      var n := |tasks| - 1;
      CountStatusSplit(tasks[..n]);
    }
  }

  /** Counting one more record of a list adds one exactly when its flag
      matches. */
  lemma CountStatusStep(tasks: seq<Task>, i: nat, done: bool)
    requires i < |tasks|
    ensures CountStatus(tasks[..i + 1], done) == CountStatus(tasks[..i], done) + (if tasks[i].done == done then 1 else 0)
  {
    assert tasks[..i + 1][..i] == tasks[..i];
  }

  /** A day's undone records count as many undone as the day, and no done. */
  lemma UndoneCounts(tasks: seq<Task>)
    ensures CountStatus(Undone(tasks), false) == CountStatus(tasks, false)
    ensures CountStatus(Undone(tasks), true) == 0
  {
    var u := Undone(tasks);
    FilterIdempotent(WithStatus(false), tasks);
    forall i | 0 <= i < |u| ensures !WithStatus(true)(u[i]) {
      assert WithStatus(false)(u[i]);
    }
    FilterKeepsNone(WithStatus(true), u);
  }

  lemma ClearedWithout(s: Store, k: string)
    ensures Cleared(s - {k}) == Cleared(s) - {k}
  {
  }

  /** Clearing completed records leaves the history page with no done
      records and the same number of undone ones. */
  lemma {:induction false} ClearKeepsUndoneCount(s: Store)
    ensures StoreCount(Cleared(s), true) == 0
    ensures StoreCount(Cleared(s), false) == StoreCount(s, false)
    decreases |s|
  {
    var c := Cleared(s);
    if s == map[] {
      assert c == map[];
    } else {
      var k := PickKey(s);
      var rest := s - {k};
      ClearKeepsUndoneCount(rest);
      ClearedWithout(s, k);
      UndoneCounts(s[k]);
      if k in c {
        StoreCountSplit(c, k, true);
        StoreCountSplit(c, k, false);
      } else {
        assert c - {k} == c;
        assert CountStatus(s[k], false) == 0;
      }
    }
  }
  // ------------------------------------------------ keeping stamps unique

  /** Every day of the store has unique created stamps. */
  predicate StampsUnique(s: Store) {
    forall k :: k in s ==> UniqueCreated(s[k])
  }

  /** No record of the day already carries the stamp. */
  predicate FreshStamp(s: Store, key: string, created: string) {
    forall i :: 0 <= i < |TasksOn(s, key)| ==> TasksOn(s, key)[i].created != created
  }

  /** Appending a record whose stamp is new to its day keeps stamps unique. */
  lemma AppendKeepsStampsUnique(s: Store, key: string, t: Task)
    requires StampsUnique(s) && FreshStamp(s, key, t.created)
    ensures StampsUnique(Appended(s, key, t))
  {
    var old_ := TasksOn(s, key);
    var list := old_ + [t];
    assert UniqueCreated(old_);
    forall i, j | 0 <= i < j < |list| ensures list[i].created != list[j].created {
      if j < |old_| {
        assert list[i] == old_[i] && list[j] == old_[j];
      } else {
        assert list[i] == old_[i] && list[j] == t;
      }
    }
  }

  /** Editing keeps every record's stamp, so stamps stay unique. */
  lemma EditKeepsStampsUnique(s: Store, key: string, i: nat, text: string, time: string, priority: string, notes: string)
    requires key in s && i < |s[key]| && StampsUnique(s)
    ensures StampsUnique(Edited(s, key, i, text, time, priority, notes))
  {
    var r: Store := Edited(s, key, i, text, time, priority, notes);
    assert forall j :: 0 <= j < |s[key]| ==> r[key][j].created == s[key][j].created;
  }

  /** Saving from the popup keeps stamps unique when a new record's stamp is
      new to its day. */
  lemma SaveKeepsStampsUnique(s: Store, key: string, editIndex: Option<nat>, title: string, time: string,
                              priority: string, notes: string, created: string)
    requires editIndex.Some? ==> key in s && editIndex.value < |s[key]|
    requires StampsUnique(s) && FreshStamp(s, key, created)
    ensures StampsUnique(Saved(s, key, editIndex, title, time, priority, notes, created))
  {
    var text := Strip(title);
    if text != "" {
      if editIndex.None? {
        AppendKeepsStampsUnique(s, key, Task(text, Strip(time), priority, false, Strip(notes), created));
      } else {
        EditKeepsStampsUnique(s, key, editIndex.value, text, Strip(time), priority, Strip(notes));
      }
    }
  }

  /** Quick add keeps stamps unique when the stamp is new to its day. */
  lemma QuickAddKeepsStampsUnique(s: Store, key: string, title: string, time: string, priority: string, created: string)
    requires StampsUnique(s) && FreshStamp(s, key, created)
    ensures StampsUnique(QuickAdded(s, key, title, time, priority, created))
  {
    var text := Strip(title);
    if text != "" {
      AppendKeepsStampsUnique(s, key, Task(text, Strip(time), priority, false, "", created));
    }
  }

  /** Toggling keeps every record's stamp, so stamps stay unique. */
  lemma ToggleKeepsStampsUnique(s: Store, key: string, target: Task)
    requires StampsUnique(s)
    ensures StampsUnique(Toggled(s, key, target))
  {
    var tasks := TasksOn(s, key);
    var r: Store := Toggled(s, key, target);
    match FirstWhere(tasks, SameRecordAs(target))
    case None =>
    case Some(i) =>
      assert forall j :: 0 <= j < |tasks| ==> r[key][j].created == tasks[j].created;
  }

  /** Removing a record keeps the remaining stamps unique. */
  lemma DeleteKeepsStampsUnique(s: Store, key: string, index: int, confirmed: bool)
    requires StampsUnique(s)
    ensures StampsUnique(Deleted(s, key, index, confirmed))
  {
    if key in s && 0 <= index < |s[key]| && confirmed {
      var l := s[key];
      var rest := l[..index] + l[index + 1..];
      forall a, b | 0 <= a < b < |rest| ensures rest[a].created != rest[b].created {
        var a', b' := if a < index then a else a + 1, if b < index then b else b + 1;
        assert rest[a] == l[a'] && rest[b] == l[b'];
      }
    }
  }

  /** Deleting through the list keeps stamps unique. */
  lemma DeleteByListKeepsStampsUnique(s: Store, key: string, visible: seq<Task>, listIndex: nat, confirmed: bool)
    requires listIndex < |visible| && StampsUnique(s)
    ensures StampsUnique(DeletedByList(s, key, visible, listIndex, confirmed))
  {
    match FirstWhere(TasksOn(s, key), HasCreated(visible[listIndex].created))
    case None =>
    case Some(i) => DeleteKeepsStampsUnique(s, key, i, confirmed);
  }

  /** Clearing keeps a subsequence of each day, so stamps stay unique. */
  lemma ClearKeepsStampsUnique(s: Store)
    requires StampsUnique(s)
    ensures StampsUnique(Cleared(s))
  {
    ClearedShape(s);
    forall k | k in Cleared(s) ensures UniqueCreated(Cleared(s)[k]) {
      var c := Cleared(s)[k];
      var ix := FilterIndices(WithStatus(false), s[k]);
      forall a, b | 0 <= a < b < |c| ensures c[a].created != c[b].created {
        assert c[a] == s[k][ix[a]] && c[b] == s[k][ix[b]] && ix[a] < ix[b];
      }
    }
  }
}
