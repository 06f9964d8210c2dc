/** Reading and writing the JSON files of 101tegbar.py at the level of the
    parsed document: the normalisation load_tasks applies to every record,
    the shape save_tasks writes, and the structure check of
    load_team_messages. Text encoding and pretty-printing are outside. */
module TaskFile {
  import opened Common
  import opened TaskStore

  /** A parsed JSON value (numbers are integers here). */
  datatype Json = JNull | JBool(b: bool) | JNum(n: int) | JStr(str: string) | JArr(items: seq<Json>) | JObj(fields: map<string, Json>)

  /** What reading a storage file gives: no file, a file that cannot be read
      or parsed, or the parsed document. */
  datatype StoredFile = Missing | Unreadable | Parsed(doc: Json)

  /** Python's `bool(v)` on a JSON value. */
  predicate Truthy(v: Json) {
    match v
    case JNull => false
    case JBool(b) => b
    case JNum(n) => n != 0
    case JStr(s) => s != ""
    case JArr(a) => a != []
    case JObj(m) => m != map[]
  }

  /** `t.get(name, default)` for a field the record holds as text; a value
      of another JSON type is not representable in a Task. */
  function TextField(m: map<string, Json>, name: string, default: string): Option<string> {
    if name !in m then Some(default)
    else match m[name]
      case JStr(s) => Some(s)
      case _ => None
  }

  /** The record load_tasks builds from one stored object; `now` is the clock
      reading used when `created` is missing. */
  function NormalizeRecord(t: Json, now: string): Option<Task> {
    match t
    case JObj(m) =>
      var text, time, priority := TextField(m, "text", ""), TextField(m, "time", ""), TextField(m, "priority", "Normal");
      var notes, created := TextField(m, "notes", ""), TextField(m, "created", now);
      if text.Some? && time.Some? && priority.Some? && notes.Some? && created.Some? then
        Some(Task(text.value, time.value, priority.value, "done" in m && Truthy(m["done"]), notes.value, created.value))
      else None
    case _ => None
  }

  /** The records of one day, in order, or None when one of them cannot be
      normalised (the exception that empties the whole store). The clock is
      read once per record, at the day key and position. */
  function NormalizeItems(items: seq<Json>, key: string, clock: (string, nat) -> string): (r: Option<seq<Task>>)
    ensures r.Some? <==> forall i :: 0 <= i < |items| ==> NormalizeRecord(items[i], clock(key, i)).Some?
    ensures r.Some? ==> |r.value| == |items|
    ensures r.Some? ==> forall i :: 0 <= i < |items| ==> r.value[i] == NormalizeRecord(items[i], clock(key, i)).value
  {
    if items == [] then Some([])
    else
      var n := |items| - 1;
      assert forall i :: 0 <= i < n ==> items[..n][i] == items[i];
      match NormalizeItems(items[..n], key, clock)
      case None => None
      case Some(front) =>
        match NormalizeRecord(items[n], clock(key, n))
        case None => None
        case Some(t) => Some(front + [t])
  }

  /** One day's value: a list is normalised record by record; an empty
      string or empty object iterates over nothing; any other value makes the
      iteration fail. */
  function NormalizeList(v: Json, key: string, clock: (string, nat) -> string): Option<seq<Task>> {
    match v
    case JArr(items) => NormalizeItems(items, key, clock)
    case JStr(s) => if s == "" then Some([]) else None
    case JObj(f) => if f == map[] then Some([]) else None
    case _ => None
  }

  /** Every day normalised, or None if any day fails. */
  function NormalizeDates(m: map<string, Json>, clock: (string, nat) -> string): Option<Store> {
    if forall k :: k in m ==> NormalizeList(m[k], k, clock).Some? then
      Some(map k | k in m :: NormalizeList(m[k], k, clock).value)
    else None
  }

  /** load_tasks: a missing, unreadable or malformed file gives the empty
      store; it never fails. */
  function LoadedStore(file: StoredFile, clock: (string, nat) -> string): Store {
    match file
    case Parsed(JObj(m)) =>
      (match NormalizeDates(m, clock)
       case Some(s) => s
       case None => map[])
    case _ => map[]
  }

  /** The normalisation loop of load_tasks, proved to compute NormalizeDates. */
  method NormalizeDocument(m: map<string, Json>, clock: (string, nat) -> string) returns (r: Option<Store>)
    ensures r == NormalizeDates(m, clock)
  {
    var result: Store := map[];
    var pending := m.Keys;
    while pending != {}
      invariant pending <= m.Keys
      invariant result.Keys == m.Keys - pending
      invariant forall k :: k in result ==> NormalizeList(m[k], k, clock) == Some(result[k])
      decreases pending
    {
      var k :| k in pending;
      var normalized := NormalizeDay(m[k], k, clock);
      if normalized.None? {
        return None;
      }
      result := result[k := normalized.value];
      pending := pending - {k};
    }
    assert forall k :: k in m ==> NormalizeList(m[k], k, clock).Some?;
    assert result == map k | k in m :: NormalizeList(m[k], k, clock).value;
    r := Some(result);
  }

  /** The inner loop of load_tasks for one day. */
  method NormalizeDay(v: Json, key: string, clock: (string, nat) -> string) returns (r: Option<seq<Task>>)
    ensures r == NormalizeList(v, key, clock)
  {
    match v {
      case JArr(items) =>
        var normalized: seq<Task> := [];
        var i := 0;
        while i < |items|
          invariant 0 <= i <= |items|
          invariant NormalizeItems(items[..i], key, clock) == Some(normalized)
        {
          var t := NormalizeRecord(items[i], clock(key, i));
          if t.None? {
            return None;
          }
          assert items[..i + 1][..i] == items[..i];
          normalized := normalized + [t.value];
          i := i + 1;
        }
        assert items[..i] == items;
        r := Some(normalized);
      case JStr(s) =>
        r := if s == "" then Some([]) else None;
      case JObj(f) =>
        r := if f == map[] then Some([]) else None;
      case _ =>
        r := None;
    }
  }

  /** A successful load keeps every day, each day's number of records and
      their order; a missing text, time or notes becomes "", a missing
      priority "Normal", a missing created the clock reading, and done is the
      truth value of the stored flag, false when absent. */
  lemma LoadKeepsShape(m: map<string, Json>, clock: (string, nat) -> string, k: string, i: nat)
    requires NormalizeDates(m, clock).Some?
    requires k in m && m[k].JArr? && i < |m[k].items|
    ensures var s := LoadedStore(Parsed(JObj(m)), clock);
      && s.Keys == m.Keys
      && |s[k]| == |m[k].items|
      && m[k].items[i].JObj?
      && var f := m[k].items[i].fields;
         var t := s[k][i];
         && (if "text" in f then f["text"] == JStr(t.text) else t.text == "")
         && (if "time" in f then f["time"] == JStr(t.time) else t.time == "")
         && (if "priority" in f then f["priority"] == JStr(t.priority) else t.priority == "Normal")
         && (if "notes" in f then f["notes"] == JStr(t.notes) else t.notes == "")
         && (if "created" in f then f["created"] == JStr(t.created) else t.created == clock(k, i))
         && t.done == ("done" in f && Truthy(f["done"]))
  {
    assert NormalizeList(m[k], k, clock).Some?;
    assert NormalizeRecord(m[k].items[i], clock(k, i)).Some?;
  }

  /** One value of the wrong kind anywhere in the document empties the store. */
  lemma LoadFailsWhole(m: map<string, Json>, clock: (string, nat) -> string, k: string)
    requires k in m && NormalizeList(m[k], k, clock).None?
    ensures LoadedStore(Parsed(JObj(m)), clock) == map[]
  {
  }

  // ------------------------------------------------------------- saving

  /** The object save_tasks writes for one record. */
  function TaskJson(t: Task): Json {
    JObj(map["text" := JStr(t.text), "time" := JStr(t.time), "priority" := JStr(t.priority),
             "done" := JBool(t.done), "notes" := JStr(t.notes), "created" := JStr(t.created)])
  }

  /** The list save_tasks writes for one day. */
  function DayJson(ts: seq<Task>): seq<Json> {
    seq(|ts|, i requires 0 <= i < |ts| => TaskJson(ts[i]))
  }

  /** The document save_tasks writes for the whole store. */
  function StoreJson(s: Store): Json {
    JObj(map k | k in s :: JArr(DayJson(s[k])))
  }

  lemma RecordRoundTrip(t: Task, now: string)
    ensures NormalizeRecord(TaskJson(t), now) == Some(t)
  {
  }

  /** The records of one saved day load back unchanged. */
  lemma DayRoundTrip(ts: seq<Task>, key: string, clock: (string, nat) -> string)
    ensures NormalizeList(JArr(DayJson(ts)), key, clock) == Some(ts)
  {
    var items := DayJson(ts);
    forall i | 0 <= i < |items| ensures NormalizeRecord(items[i], clock(key, i)) == Some(ts[i]) {
      RecordRoundTrip(ts[i], clock(key, i));
    }
    var r := NormalizeItems(items, key, clock);
    assert r.value == ts;
  }

  /** A document every day of which normalises to the matching day of t
      normalises to t. */
  lemma NormalizeDatesAll(m: map<string, Json>, clock: (string, nat) -> string, t: Store)
    requires m.Keys == t.Keys
    requires forall k :: k in m ==> NormalizeList(m[k], k, clock) == Some(t[k])
    ensures NormalizeDates(m, clock) == Some(t)
  {
    assert forall k :: k in m ==> NormalizeList(m[k], k, clock).Some?;
    var r := map k | k in m :: NormalizeList(m[k], k, clock).value;
    assert r.Keys == t.Keys;
    assert forall k :: k in r ==> r[k] == t[k];
    assert r == t;
  }

  /** Saving and loading back gives the same store, whatever the clock. */
  lemma SaveLoadRoundTrip(s: Store, clock: (string, nat) -> string)
    ensures LoadedStore(Parsed(StoreJson(s)), clock) == s
  {
    var m := StoreJson(s).fields;
    assert m.Keys == s.Keys;
    forall k | k in m ensures NormalizeList(m[k], k, clock) == Some(s[k]) {
      assert m[k] == JArr(DayJson(s[k]));
      DayRoundTrip(s[k], k, clock);
    }
    NormalizeDatesAll(m, clock, s);
  }

  // -------------------------------------------------------- team messages

  /** The contacts the application starts with when there is no team file. */
  function SeedContacts(): map<string, seq<Json>> {
    map["Jonas" := [JObj(map["sender" := JStr("Jonas"), "text" := JStr("Hello team!"), "time" := JStr("09:12")])],
        "Neo" := [], "Abraham" := [], "Jessica" := []]
  }

  /** load_team_messages: every contact of the stored object keeps its
      message list, a non-list value becomes an empty conversation; a missing
      file gives the seed contacts, and anything unreadable or not an object
      gives no contacts. */
  function TeamLoaded(file: StoredFile): map<string, seq<Json>> {
    match file
    case Missing => SeedContacts()
    case Parsed(JObj(m)) => map k | k in m :: if m[k].JArr? then m[k].items else []
    case _ => map[]
  }

  /** The document save_team_messages writes. */
  function TeamJson(team: map<string, seq<Json>>): Json {
    JObj(map k | k in team :: JArr(team[k]))
  }

  /** Loading what was saved gives back every conversation unchanged. */
  lemma TeamRoundTrip(team: map<string, seq<Json>>)
    ensures TeamLoaded(Parsed(TeamJson(team))) == team
  {
  }

  /** The structure check keeps every contact, and keeps exactly the values
      that are lists. */
  lemma TeamStructureCheck(m: map<string, Json>, k: string)
    requires k in m
    ensures var t := TeamLoaded(Parsed(JObj(m)));
      && t.Keys == m.Keys
      && (m[k].JArr? ==> t[k] == m[k].items)
      && (!m[k].JArr? ==> t[k] == [])
  {
  }
}
