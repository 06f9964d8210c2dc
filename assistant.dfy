/** The reply logic of the Tegbar AI page (ai_generate_reply in 101tegbar.py):
    a message is routed to the first matching command, in the order add task,
    summarize, help, fallback; an add-task command carries the fields parsed
    from its pipe-separated text, and every command has a fixed-shape reply. */
module Assistant {
  import opened Common
  import opened TextOps
  import opened TaskStore

  datatype Command =
    | AddTaskCmd(title: string, time: string, priority: string, notes: string)
    | Summarize
    | Help
    | Fallback

  const AddPrefix: string := "add task:"
  const DefaultTitle: string := "Untitled task"

  /** The part of list `parts` at position i, or "" when there are fewer parts. */
  function PartOr(parts: seq<string>, i: nat): string {
    if i < |parts| then parts[i] else ""
  }

  /** Stripping parts free of c leaves them free of c. */
  lemma StripAllKeepsOut(raw: seq<string>, c: char)
    requires forall j :: 0 <= j < |raw| ==> c !in raw[j]
    ensures forall j :: 0 <= j < |raw| ==> c !in Strip(raw[j])
  {
    forall j | 0 <= j < |raw| ensures c !in Strip(raw[j]) {
      StripKeepsOut(raw[j], c);
    }
  }

  /** `[p.strip() for p in rest.split("|")]`: one field per pipe-separated
      part, none padded with whitespace and none holding a pipe. */
  function StrippedParts(rest: string): (parts: seq<string>)
    ensures |parts| == |Split(rest, '|')|
    ensures forall j :: 0 <= j < |parts| ==> IsStripped(parts[j]) && '|' !in parts[j]
  {
    var raw := Split(rest, '|');
    StripAllKeepsOut(raw, '|');
    seq(|raw|, j requires 0 <= j < |raw| => Strip(raw[j]))
  }

  /** Fields without padding or pipes, joined by pipes, are read back as
      they were written. */
  lemma StrippedPartsRoundTrip(fields: seq<string>)
    requires |fields| >= 1
    requires forall j :: 0 <= j < |fields| ==> IsStripped(fields[j]) && '|' !in fields[j]
    ensures StrippedParts(Join(fields, '|')) == fields
  {
    SplitJoin(fields, '|');
    forall j | 0 <= j < |fields| ensures Strip(fields[j]) == fields[j] {
      StripStripped(fields[j]);
    }
  }

  /** The fields of an add-task message after the prefix: the first field is
      the title ("Untitled task" when empty), then time, priority
      (capitalised, "Normal" when absent or empty) and notes ("" when absent). */
  function ParseAddTask(rest: string): (c: Command)
    ensures c.AddTaskCmd?
    ensures c.title != ""
    ensures c.priority != ""
  {
    var parts := StrippedParts(rest);
    var title := if parts[0] != "" then parts[0] else DefaultTitle;
    var priority := if |parts| >= 3 && parts[2] != "" then Capitalize(parts[2]) else "Normal";
    AddTaskCmd(title, PartOr(parts, 1), priority, PartOr(parts, 3))
  }

  /** The branch a lower-cased message takes, first match wins: 0 for the
      add-task prefix, 1 for summarize, 2 for help, 3 for the fallback. */
  function Branch(lt: string): nat {
    if StartsWith(lt, AddPrefix) then 0
    else if Contains(lt, "summarize") || (Contains(lt, "today") && Contains(lt, "task")) || Contains(lt, "summary") then 1
    else if Contains(lt, "help") || Contains(lt, "how") || Contains(lt, "tips") then 2
    else 3
  }

  /** The command a message asks for. The prefix and the keywords are matched
      on the stripped, lower-cased message; the fields keep their case. */
  function Route(text: string): Command {
    var t := Strip(text);
    var b := Branch(Lower(t));
    if b == 0 then ParseAddTask(Strip(t[|AddPrefix|..]))
    else if b == 1 then Summarize
    else if b == 2 then Help
    else Fallback
  }

  /** Which branch a command comes from, ignoring the add-task fields. */
  function Kind(c: Command): nat {
    match c
    case AddTaskCmd(_, _, _, _) => 0
    case Summarize => 1
    case Help => 2
    case Fallback => 3
  }

  /** Route takes the branch Branch picks on the stripped, lower-cased message. */
  lemma RouteFollowsBranch(text: string)
    ensures Kind(Route(text)) == Branch(Lower(Strip(text)))
  {
  }

  /** The branch taken depends only on the lower-cased message: the prefix
      and every keyword are matched without regard to case. */
  lemma RouteIgnoresCase(a: string, b: string)
    requires Lower(a) == Lower(b)
    ensures Kind(Route(a)) == Kind(Route(b))
  {
    LowerStripCommute(a);
    LowerStripCommute(b);
    RouteFollowsBranch(a);
    RouteFollowsBranch(b);
  }

  /** The add-task prefix is recognised in any mix of case, and the fields
      are read from whatever follows it, with the surrounding whitespace
      dropped. */
  lemma AddPrefixAnyCase(p: string, rest: string)
    requires Lower(p) == AddPrefix
    ensures Route(p + rest) == ParseAddTask(Strip(rest))
  {
    var s := p + rest;
    assert LowerChar(p[0]) == 'a' && LowerChar(p[8]) == ':';
    assert !IsSpace(s[0]) && !IsSpace(s[8]);
    var lead, t, trail := StripDecompose(s);
    assert lead == [];
    assert |t| > 8;
    CutAfterPrefix(p, rest, t, trail);
    LowerPrefix(t, |p|);
    StripTrailing(t[|p|..], trail);
  }

  /** Fields written without padding or pipes are read back as written. */
  lemma ParseAddTaskRoundTrip(title: string, time: string, priority: string, notes: string)
    requires title != "" && priority != ""
    requires IsStripped(title) && IsStripped(time) && IsStripped(priority) && IsStripped(notes)
    requires '|' !in title && '|' !in time && '|' !in priority && '|' !in notes
    ensures ParseAddTask(Join([title, time, priority, notes], '|')) == AddTaskCmd(title, time, Capitalize(priority), notes)
  {
    var fields := [title, time, priority, notes];
    SplitJoin(fields, '|');
    StripStripped(title);
    StripStripped(time);
    StripStripped(priority);
    StripStripped(notes);
  }

  /** A message with only a title gets the default time, priority and notes. */
  lemma ParseTitleOnly(title: string)
    requires title != "" && IsStripped(title) && '|' !in title
    ensures ParseAddTask(title) == AddTaskCmd(title, "", "Normal", "")
  {
    assert Split(title, '|') == [title];
    StripStripped(title);
  }

  /** An add-task message whose first field is blank adds "Untitled task",
      whatever the other fields hold. */
  lemma ParseEmptyTitle(rest: string)
    requires Strip(Split(rest, '|')[0]) == ""
    ensures ParseAddTask(rest).title == DefaultTitle
  {
  }

  /** Every field of an add-task message, for any remainder: the stripped
      first part or "Untitled task" when it is blank; the stripped second
      part or ""; the capitalised third part, or "Normal" when it is missing
      or blank; the stripped fourth part or "". */
  lemma ParseAddTaskFields(rest: string)
    ensures var raw := Split(rest, '|');
      var c := ParseAddTask(rest);
      && c.title == (if Strip(raw[0]) != "" then Strip(raw[0]) else DefaultTitle)
      && c.time == (if |raw| >= 2 then Strip(raw[1]) else "")
      && c.priority == (if |raw| >= 3 && Strip(raw[2]) != "" then Capitalize(Strip(raw[2])) else "Normal")
      && c.notes == (if |raw| >= 4 then Strip(raw[3]) else "")
  {
  }

  /** Two remainders whose first four parts agree give the same command. */
  lemma ParseSameFirstFour(r1: string, r2: string)
    requires |Split(r1, '|')| >= 4 && |Split(r2, '|')| >= 4
    requires forall j :: 0 <= j < 4 ==> Split(r1, '|')[j] == Split(r2, '|')[j]
    ensures ParseAddTask(r1) == ParseAddTask(r2)
  {
    ParseAddTaskFields(r1);
    ParseAddTaskFields(r2);
  }

  /** Parts after the fourth are ignored. */
  lemma ParseIgnoresExtraFields(rest: string, extra: string)
    requires |Split(rest, '|')| >= 4
    ensures ParseAddTask(rest + ['|'] + extra) == ParseAddTask(rest)
  {
    var rest2 := rest + ['|'] + extra;
    SplitAppend(rest, '|', extra);
    ParseSameFirstFour(rest2, rest);
  }

  // ----------------------------------------------------------------- replies

  function Digit(d: nat): char
    requires d < 10
  {
    ('0' as int + d) as char
  }

  /** The number a string of decimal digits spells, as `int(s)` reads it. */
  function DigitsValue(s: string): nat
    requires forall i :: 0 <= i < |s| ==> '0' <= s[i] <= '9'
  {
    if s == [] then 0 else 10 * DigitsValue(s[..|s| - 1]) + (s[|s| - 1] as int - '0' as int)
  }

  /** `str(n)` for a natural number: decimal digits that spell n, with no
      leading zero. */
  function NatToString(n: nat): (s: string)
    ensures s != []
    ensures forall i :: 0 <= i < |s| ==> '0' <= s[i] <= '9'
    ensures DigitsValue(s) == n
    ensures |s| > 1 ==> s[0] != '0'
  {
    if n < 10 then [Digit(n)]
    else
      var p := NatToString(n / 10);
      var s := p + [Digit(n % 10)];
      assert s[..|s| - 1] == p;
      s
  }

  function Mark(done: bool): string {
    if done then "✓" else "○"
  }

  /** One line of the summary: the 1-based number, the mark, the text, the
      time when there is one, and the priority. */
  function SummaryLine(n: nat, t: Task): string {
    NatToString(n) + ". " + Mark(t.done) + " " + t.text
      + (if t.time != "" then " @ " + t.time else "") + " [" + t.priority + "]"
  }

  /** The numbered lines of the summary, one per task, in order. */
  function SummaryLines(tasks: seq<Task>): seq<string> {
    seq(|tasks|, i requires 0 <= i < |tasks| => SummaryLine(i + 1, tasks[i]))
  }

  /** Numbering one more task adds its line at the end. */
  lemma SummaryLinesStep(tasks: seq<Task>, i: nat)
    requires i < |tasks|
    ensures SummaryLines(tasks[..i + 1]) == SummaryLines(tasks[..i]) + [SummaryLine(i + 1, tasks[i])]
  {
    var a, b := SummaryLines(tasks[..i + 1]), SummaryLines(tasks[..i]) + [SummaryLine(i + 1, tasks[i])];
    assert forall j :: 0 <= j < i ==> a[j] == b[j];
  }

  /** The loop of ai_generate_reply that numbers the day's tasks. */
  method BuildSummaryLines(tasks: seq<Task>) returns (lines: seq<string>)
    ensures lines == SummaryLines(tasks)
  {
    lines := [];
    var i := 0;
    while i < |tasks|
      invariant 0 <= i <= |tasks|
      invariant lines == SummaryLines(tasks[..i])
    {
      SummaryLinesStep(tasks, i);
      lines := lines + [SummaryLine(i + 1, tasks[i])];
      i := i + 1;
    }
    assert tasks[..i] == tasks;
  }

  const SummaryHeader: string := "Tasks:\n"

  const HelpText: string := "I can add tasks with: add task: Title | 02:30 PM | High | notes\nOr summarize today's tasks with: summarize today's tasks"

  const FallbackText: string := "I can help with tasks. Try: 'add task: Buy milk | 05:00 PM | Normal | from store' or 'summarize today's tasks'."

  /** The reply to a command, given the selected date and its tasks (for an
      add, the tasks before the new one). */
  function ReplyText(c: Command, date: string, tasks: seq<Task>): string {
    match c
    case AddTaskCmd(title, _, priority, _) =>
      "Added task '" + title + "' for " + date + " (priority: " + priority + ")."
    case Summarize =>
      if tasks == [] then "No tasks for " + date + "."
      else SummaryHeader + Join(SummaryLines(tasks), '\n')
    case Help => HelpText
    case Fallback => FallbackText
  }

  /** A task whose fields hold no line break yields one summary line. */
  predicate SingleLine(t: Task) {
    '\n' !in t.text && '\n' !in t.time && '\n' !in t.priority
  }

  lemma SummaryLineSingle(n: nat, t: Task)
    requires SingleLine(t)
    ensures '\n' !in SummaryLine(n, t)
  {
    var digits := NatToString(n);
    assert '\n' !in digits;
  }

  /** The summary has one line per task of the day, in order, numbered from 1. */
  lemma SummaryListsEveryTask(date: string, tasks: seq<Task>)
    requires tasks != []
    requires forall i :: 0 <= i < |tasks| ==> SingleLine(tasks[i])
    ensures var r := ReplyText(Summarize, date, tasks);
      && |r| >= |SummaryHeader| && r[..|SummaryHeader|] == SummaryHeader
      && var lines := Split(r[|SummaryHeader|..], '\n');
         && |lines| == |tasks|
         && forall i :: 0 <= i < |tasks| ==> lines[i] == SummaryLine(i + 1, tasks[i])
  {
    var lines := SummaryLines(tasks);
    forall j | 0 <= j < |lines| ensures '\n' !in lines[j] {
      SummaryLineSingle(j + 1, tasks[j]);
    }
    SplitJoin(lines, '\n');
    var r := ReplyText(Summarize, date, tasks);
    assert r == SummaryHeader + Join(lines, '\n');
    assert r[|SummaryHeader|..] == Join(lines, '\n');
  }

  /** The store after a reply: only an add-task command changes it, by
      appending one not-done record stamped `created` to the selected date. */
  function AfterReply(s: Store, key: string, c: Command, created: string): Store {
    match c
    case AddTaskCmd(title, time, priority, notes) => Appended(s, key, Task(title, time, priority, false, notes, created))
    case _ => s
  }

  /** A reply keeps created stamps unique when its stamp is new to the day. */
  lemma ReplyKeepsStampsUnique(s: Store, key: string, text: string, created: string)
    requires StampsUnique(s) && FreshStamp(s, key, created)
    ensures StampsUnique(AfterReply(s, key, Route(text), created))
  {
    var c := Route(text);
    if c.AddTaskCmd? {
      AppendKeepsStampsUnique(s, key, Task(c.title, c.time, c.priority, false, c.notes, created));
    }
  }

  /** An add-task message appends exactly one record, not done, to the
      selected date and leaves every other date alone; any other message
      leaves the store unchanged. */
  lemma ReplyAddsAtMostOne(s: Store, key: string, text: string, created: string)
    ensures var c := Route(text);
      var s' := AfterReply(s, key, c, created);
      && (c.AddTaskCmd? ==>
            && key in s'
            && TasksOn(s', key) == TasksOn(s, key) + [Task(c.title, c.time, c.priority, false, c.notes, created)]
            && forall k :: k != key ==> TasksOn(s', k) == TasksOn(s, k) && (k in s' <==> k in s))
      && (!c.AddTaskCmd? ==> s' == s)
  {
  }
}
