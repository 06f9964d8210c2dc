/** post_final_prj.py, a single-window to-do list kept in a Tk Listbox. The
    listbox is a sequence of items, each with its text, its foreground
    colour (crossed-off items are drawn in light grey) and whether it is
    selected; the listbox selects at most one item at a time. The entry
    field's text is a second piece of state. */
module ListEditor {
  import opened Common
  import opened TextOps

  /** One listbox line. `fg` is "" until itemconfig gives it a colour. */
  datatype Item = Item(text: string, fg: string, selected: bool)

  /** The list the window starts with, and the only list search looks at. */
  const Plan: seq<string> := ["wake up", "wash", "brush", "school", "task", "sleep"]

  const Crossed: string := "#dedede"
  const Uncrossed: string := "#464646"

  /** A line as `listbox.insert(END, text)` creates it. */
  function Fresh(text: string): Item {
    Item(text, "", false)
  }

  /** Lines inserted for the texts: they read back as the texts, and none is
      coloured or selected. */
  function FreshItems(texts: seq<string>): (r: seq<Item>)
    ensures Texts(r) == texts
    ensures forall i :: 0 <= i < |r| ==> r[i].fg == "" && !r[i].selected
  {
    seq(|texts|, i requires 0 <= i < |texts| => Fresh(texts[i]))
  }

  lemma FreshItemsAppend(texts: seq<string>, t: string)
    ensures FreshItems(texts + [t]) == FreshItems(texts) + [Fresh(t)]
  {
  }

  /** Keeping some of the lines keeps the selection single. */
  lemma FilterKeepsSingleSelection(p: Item -> bool, items: seq<Item>)
    requires SingleSelection(items)
    ensures SingleSelection(Filter(p, items))
  {
    var r, ix := Filter(p, items), FilterIndices(p, items);
    forall a, b | 0 <= a < b < |r| ensures !(r[a].selected && r[b].selected) {
      assert r[a] == items[ix[a]] && r[b] == items[ix[b]] && ix[a] < ix[b];
    }
  }

  /** Removing a line keeps the selection single. */
  lemma SingleSelectionRemove(items: seq<Item>, k: nat)
    requires SingleSelection(items) && k < |items|
    ensures SingleSelection(items[..k] + items[k + 1..])
  {
    var r := items[..k] + items[k + 1..];
    forall a, b | 0 <= a < b < |r| ensures !(r[a].selected && r[b].selected) {
      var a', b' := if a < k then a else a + 1, if b < k then b else b + 1;
      assert r[a] == items[a'] && r[b] == items[b'];
    }
  }

  /** `listbox.get(0, END)`. */
  function Texts(items: seq<Item>): seq<string> {
    seq(|items|, i requires 0 <= i < |items| => items[i].text)
  }

  /** Browse-mode selection: at most one item is selected. */
  predicate SingleSelection(items: seq<Item>) {
    forall i, j :: 0 <= i < j < |items| ==> !(items[i].selected && items[j].selected)
  }

  function IsSelected(): Item -> bool {
    (it: Item) => it.selected
  }

  /** `listbox.curselection()`, as the position of the selected item. */
  function Selection(items: seq<Item>): Option<nat> {
    FirstWhere(items, IsSelected())
  }

  // ------------------------------------------------------------------ search

  /** `query in item.lower()` with the query already lower-cased. */
  function PlanMatches(query: string): string -> bool {
    (item: string) => Contains(Lower(item), query)
  }

  /** What search shows: the plan items whose lower-case form contains the
      lower-cased query (not stripped), in plan order, as fresh lines. */
  function SearchResult(query: string): seq<Item> {
    FreshItems(Filter(PlanMatches(Lower(query)), Plan))
  }

  /** An empty search box shows the whole plan. */
  lemma EmptySearchShowsPlan()
    ensures SearchResult("") == FreshItems(Plan)
  {
    forall i | 0 <= i < |Plan| ensures PlanMatches(Lower(""))(Plan[i]) {
      ContainsEmpty(Lower(Plan[i]));
    }
    FilterKeepsAll(PlanMatches(Lower("")), Plan);
  }

  /** A text is shown by search exactly when it is a plan item that matches
      the query; items added to the list later are never searched. */
  lemma SearchShowsExactlyMatches(query: string, text: string)
    ensures text in Texts(SearchResult(query)) <==> text in Plan && PlanMatches(Lower(query))(text)
  {
    var kept := Filter(PlanMatches(Lower(query)), Plan);
    FilterMembers(PlanMatches(Lower(query)), Plan);
    var shown := Texts(SearchResult(query));
    assert shown == kept;
    if text in Plan && PlanMatches(Lower(query))(text) {
      var i :| 0 <= i < |Plan| && Plan[i] == text;
      assert Plan[i] in kept;
    }
  }

  // ----------------------------------------------------------------- adding

  /** add_: the stripped entry text is appended when it is not empty, and the
      entry is then cleared; otherwise nothing changes. */
  function Added(items: seq<Item>, entry: string): (seq<Item>, string) {
    var text := Strip(entry);
    if text != "" then (items + [Fresh(text)], "") else (items, entry)
  }

  lemma AddAppendsStripped(items: seq<Item>, entry: string)
    ensures var (r, e) := Added(items, entry);
      && (AllSpace(entry) ==> r == items && e == entry)
      && (!AllSpace(entry) ==> r == items + [Item(Strip(entry), "", false)] && e == "" && Strip(entry) != "")
  {
  }

  // --------------------------------------------------------------- deleting

  /** delete_: remove the line at the selection anchor, if there is one. */
  function DeletedAt(items: seq<Item>, anchor: nat): seq<Item> {
    if anchor < |items| then items[..anchor] + items[anchor + 1..] else items
  }

  // ------------------------------------------------------ crossing off

  /** cross_off_ and uncross_: give the selected line the colour and clear
      the selection; with nothing selected, itemconfig fails first and
      nothing changes. */
  function Recoloured(items: seq<Item>, colour: string): seq<Item> {
    match Selection(items)
    case None => items
    case Some(i) => Unselected(items[i := items[i].(fg := colour)])
  }

  /** `listbox.selection_clear(0, END)`. */
  function Unselected(items: seq<Item>): (r: seq<Item>)
    ensures Selection(r).None?
    ensures Texts(r) == Texts(items)
    ensures |r| == |items| && forall i :: 0 <= i < |r| ==> r[i].fg == items[i].fg
  {
    seq(|items|, i requires 0 <= i < |items| => items[i].(selected := false))
  }

  /** Crossing off or uncrossing changes the colour of the selected line
      only, and leaves nothing selected. */
  lemma RecolourOnlySelected(items: seq<Item>, colour: string)
    requires Selection(items).Some?
    ensures var i := Selection(items).value;
      var r := Recoloured(items, colour);
      && |r| == |items| && i < |items|
      && r[i] == Item(items[i].text, colour, false)
      && (forall j :: 0 <= j < |items| && j != i ==> r[j] == items[j].(selected := false))
      && Selection(r).None?
  {
    var r := Recoloured(items, colour);
    forall j | 0 <= j < |r| ensures !IsSelected()(r[j]) {
    }
  }

  /** A second cross-off or uncross without a new selection does nothing. */
  lemma RecolourNeedsReselect(items: seq<Item>, a: string, b: string)
    ensures Recoloured(Recoloured(items, a), b) == Recoloured(items, a)
  {
    var r := Recoloured(items, a);
    if Selection(items).Some? {
      RecolourOnlySelected(items, a);
    }
  }

  // --------------------------------------------------- deleting crossed lines

  function NotCrossed(): Item -> bool {
    (it: Item) => it.fg != Crossed
  }

  /** delete_crossed_: the lines not drawn in the crossed-off colour, in
      their order. */
  function WithoutCrossed(items: seq<Item>): seq<Item> {
    Filter(NotCrossed(), items)
  }

  /** After deleting crossed lines none is left, every other line is kept in
      order, and a second run changes nothing. */
  lemma WithoutCrossedShape(items: seq<Item>)
    ensures forall i :: 0 <= i < |WithoutCrossed(items)| ==> WithoutCrossed(items)[i].fg != Crossed
    ensures forall i :: 0 <= i < |items| && items[i].fg != Crossed ==> items[i] in WithoutCrossed(items)
    ensures WithoutCrossed(WithoutCrossed(items)) == WithoutCrossed(items)
    ensures (forall i :: 0 <= i < |items| ==> items[i].fg != Crossed) ==> WithoutCrossed(items) == items
  {
    var r := WithoutCrossed(items);
    forall i | 0 <= i < |r| ensures r[i].fg != Crossed {
      assert NotCrossed()(r[i]);
    }
    FilterMembers(NotCrossed(), items);
    FilterIdempotent(NotCrossed(), items);
    if forall i :: 0 <= i < |items| ==> items[i].fg != Crossed {
      FilterKeepsAll(NotCrossed(), items);
    }
  }

  /** One step of delete_crossed_'s loop: the line under the counter is the
      next line of the original list; deleting it when crossed, or moving
      past it otherwise, keeps the list equal to the filtered prefix followed
      by the unvisited rest. */
  lemma DeleteCrossedStep(original: seq<Item>, j: nat, items: seq<Item>, count: nat)
    requires j < |original|
    requires count == |WithoutCrossed(original[..j])|
    requires items == WithoutCrossed(original[..j]) + original[j..]
    ensures count < |items| && items[count] == original[j]
    ensures original[j].fg == Crossed ==>
      && items[..count] + items[count + 1..] == WithoutCrossed(original[..j + 1]) + original[j + 1..]
      && count == |WithoutCrossed(original[..j + 1])|
    ensures original[j].fg != Crossed ==>
      && items == WithoutCrossed(original[..j + 1]) + original[j + 1..]
      && count + 1 == |WithoutCrossed(original[..j + 1])|
  {
    var kept := WithoutCrossed(original[..j]);
    FilterStep(NotCrossed(), original, j);
    assert original[j..] == [original[j]] + original[j + 1..];
    assert items[..count] == kept;
    assert items[count + 1..] == original[j + 1..];
  }

  /** Clearing the selection commutes with removing a line. */
  lemma UnselectedRemove(items: seq<Item>, i: nat, colour: string)
    requires i < |items|
    ensures var r := Unselected(items[i := items[i].(fg := colour)]);
      Unselected(items[..i] + items[i + 1..]) == r[..i] + r[i + 1..]
  {
    var r := Unselected(items[i := items[i].(fg := colour)]);
    var u := Unselected(items[..i] + items[i + 1..]);
    assert forall j :: 0 <= j < i ==> u[j] == r[j];
    assert forall j :: i <= j < |u| ==> u[j] == r[j + 1];
  }

  /** Crossing off line i of a list without crossed lines leaves line i the
      only crossed one. */
  lemma CrossedOnlyAt(items: seq<Item>, i: nat)
    requires i < |items|
    requires forall j :: 0 <= j < |items| ==> items[j].fg != Crossed
    ensures var r := Unselected(items[i := items[i].(fg := Crossed)]);
      && !NotCrossed()(r[i])
      && Filter(NotCrossed(), r[..i]) == r[..i]
      && Filter(NotCrossed(), r[i + 1..]) == r[i + 1..]
  {
    var c := items[i := items[i].(fg := Crossed)];
    var r := Unselected(c);
    assert r[i].fg == c[i].fg;
    var front, back := r[..i], r[i + 1..];
    forall j | 0 <= j < |front| ensures NotCrossed()(front[j]) {
      assert front[j].fg == r[j].fg == c[j].fg == items[j].fg;
    }
    forall j | 0 <= j < |back| ensures NotCrossed()(back[j]) {
      assert back[j].fg == r[i + 1 + j].fg == c[i + 1 + j].fg == items[i + 1 + j].fg;
    }
    FilterKeepsAll(NotCrossed(), front);
    FilterKeepsAll(NotCrossed(), back);
  }

  /** Crossing off the selected line of a list with no crossed lines and then
      deleting crossed lines removes exactly that line. */
  lemma CrossOffThenDelete(items: seq<Item>)
    requires Selection(items).Some?
    requires forall j :: 0 <= j < |items| ==> items[j].fg != Crossed
    ensures var i := Selection(items).value;
      && i < |items|
      && WithoutCrossed(Recoloured(items, Crossed)) == Unselected(items[..i] + items[i + 1..])
  {
    var i := Selection(items).value;
    var r := Unselected(items[i := items[i].(fg := Crossed)]);
    assert Recoloured(items, Crossed) == r;
    CrossedOnlyAt(items, i);
    FilterDropsOne(NotCrossed(), r, i);
    UnselectedRemove(items, i, Crossed);
  }

  // ------------------------------------------------------------------ edit

  /** edit: the selected line leaves the list and its text goes into the
      entry; with nothing selected nothing changes. */
  function EditedList(items: seq<Item>, entry: string): (seq<Item>, string) {
    match Selection(items)
    case None => (items, entry)
    case Some(i) => (items[..i] + items[i + 1..], items[i].text)
  }

  /** With a single selection, edit takes out the one selected line and no
      line of the list stays selected. */
  lemma EditLeavesNoSelection(items: seq<Item>, entry: string)
    requires SingleSelection(items) && Selection(items).Some?
    ensures Selection(EditedList(items, entry).0).None?
  {
    var i := Selection(items).value;
    var r := items[..i] + items[i + 1..];
    forall j | 0 <= j < |r| ensures !IsSelected()(r[j]) {
      var j' := if j < i then j else j + 1;
      assert r[j] == items[j'];
    }
  }

  /** Editing a line and adding it back unchanged moves it to the end of the
      list, uncoloured. */
  lemma EditThenAddMovesToEnd(items: seq<Item>, entry: string)
    requires Selection(items).Some?
    requires var t := items[Selection(items).value].text; t != "" && IsStripped(t)
    ensures var i := Selection(items).value;
      var (e1, t1) := EditedList(items, entry);
      Added(e1, t1) == (items[..i] + items[i + 1..] + [Item(items[i].text, "", false)], "")
  {
    var i := Selection(items).value;
    StripStripped(items[i].text);
  }

  /** The window: the listbox lines and the entry field. */
  class ListWindow {
    var items: seq<Item>
    var entry: string

    predicate Valid()
      reads this
    {
      SingleSelection(items)
    }

    /** The listbox filled with the plan, the entry empty. */
    constructor ()
      ensures items == FreshItems(Plan) && entry == ""
      ensures Valid()
    {
      items := FreshItems(Plan);
      entry := "";
    }

    /** A click on line i (browse mode: it becomes the only selected line). */
    method Select(i: nat)
      requires i < |items|
      modifies this`items
      ensures |items| == |old(items)|
      ensures forall j :: 0 <= j < |items| ==> items[j] == old(items)[j].(selected := j == i)
      ensures Valid()
    {
      var current := items;
      items := seq(|current|, j requires 0 <= j < |current| => current[j].(selected := j == i));
    }

    /** Typing into the entry field. */
    method SetEntry(text: string)
      modifies this`entry
      ensures entry == text
    {
      entry := text;
    }

    /** search: clear the listbox and insert, plan item by plan item, those
        that contain the lower-cased query. */
    method Search(query: string)
      modifies this`items
      ensures items == SearchResult(query)
      ensures Valid()
    {
      var q := Lower(query);
      items := [];
      var i := 0;
      while i < |Plan|
        invariant 0 <= i <= |Plan|
        invariant items == FreshItems(Filter(PlanMatches(q), Plan[..i]))
      {
        FilterStep(PlanMatches(q), Plan, i);
        if Contains(Lower(Plan[i]), q) {
          FreshItemsAppend(Filter(PlanMatches(q), Plan[..i]), Plan[i]);
          items := items + [Fresh(Plan[i])];
        }
        i := i + 1;
      }
      assert Plan[..i] == Plan;
    }

    method Add()
      requires Valid()
      modifies this`items, this`entry
      ensures (items, entry) == Added(old(items), old(entry))
      ensures Valid()
    {
      var text := Strip(entry);
      if text != "" {
        items := items + [Fresh(text)];
        entry := "";
      }
    }

    /** delete_: `listbox.delete(ANCHOR)`; the anchor position is Tk's. */
    method Delete(anchor: nat)
      requires Valid()
      modifies this`items
      ensures items == DeletedAt(old(items), anchor)
      ensures Valid()
    {
      if anchor < |items| {
        items := items[..anchor] + items[anchor + 1..];
      }
    }

    method CrossOff()
      requires Valid()
      modifies this`items
      ensures items == Recoloured(old(items), Crossed)
      ensures Valid()
    {
      Recolour(Crossed);
    }

    method Uncross()
      requires Valid()
      modifies this`items
      ensures items == Recoloured(old(items), Uncrossed)
      ensures Valid()
    {
      Recolour(Uncrossed);
    }

    method Recolour(colour: string)
      modifies this`items
      ensures items == Recoloured(old(items), colour)
      ensures Valid()
    {
      var sel := Selection(items);
      if sel.Some? {
        var i := sel.value;
        var coloured := items[i := items[i].(fg := colour)];
        items := Unselected(coloured);
      }
    }

    /** delete_crossed_: walk the list with a counter that advances only past
        a line that stays; a crossed line is deleted in place. */
    method DeleteCrossed()
      requires Valid()
      modifies this`items
      ensures items == WithoutCrossed(old(items))
      ensures Valid()
    {
      ghost var original := items;
      ghost var j := 0;
      var count := 0;
      while count < |items|
        invariant 0 <= j <= |original|
        invariant count == |WithoutCrossed(original[..j])|
        invariant items == WithoutCrossed(original[..j]) + original[j..]
        invariant |items| == count + |original| - j
        decreases |original| - j
      {
        DeleteCrossedStep(original, j, items, count);
        if items[count].fg == Crossed {
          items := items[..count] + items[count + 1..];
        } else {
          count := count + 1;
        }
        j := j + 1;
      }
      assert original[..j] == original;
      FilterKeepsSingleSelection(NotCrossed(), original);
    }

    method ClearList()
      modifies this`items
      ensures items == []
      ensures Valid()
    {
      items := [];
    }

    method Edit()
      requires Valid()
      modifies this`items, this`entry
      ensures (items, entry) == EditedList(old(items), old(entry))
      ensures old(Selection(items)).Some? ==> Selection(items).None?
      ensures Valid()
    {
      var sel := Selection(items);
      if sel.Some? {
        EditLeavesNoSelection(items, entry);
        var i := sel.value;
        entry := items[i].text;
        items := items[..i] + items[i + 1..];
      }
    }
  }
}
