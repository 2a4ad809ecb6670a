/**
 * The list picker's selection state machine: the items with their check flags, the item under the
 * cursor, the confirmed selections and the quitting flag, and the key handling of `Update`.
 *
 * `Update` is the transition as a function of the state; the class `Model` holds the same state in
 * place (the items live in an array whose elements the space key rewrites, as the Go code rewrites
 * the `Selected` field through the item pointer) and `Model.Step` is proved to perform `Update`.
 */
module Selection {
  import opened Wrappers

  /** A list entry: its title, an optional description, the check flag, and whether it is a merge tag. */
  datatype Item = Item(title: string, description: string, selected: bool, isTag: bool)

  /** The text shown for an item: a tag's non-empty description, otherwise the title. */
  function Shown(i: Item): string
  {
    if i.isTag && i.description != "" then i.description else i.title
  }

  /** The rendered line of an item, before the cursor styling: a checkbox, a space, and the shown text. */
  function Label(i: Item): (r: string)
    ensures |r| == 4 + |Shown(i)| && r[4..] == Shown(i)
    ensures r[..4] == "[x] " <==> i.selected
    ensures r[..4] == "[ ] " <==> !i.selected
  {
    var box := if i.selected then "[x] " else "[ ] ";
    assert (box + Shown(i))[..4] == box;
    box + Shown(i)
  }

  /**
   * A message to the model: a key press (named as bubbletea names it, e.g. "ctrl+c", " ", "enter"),
   * a terminal resize, or any other message.
   */
  datatype Msg = Key(name: string) | WindowSize(width: int) | Other

  /**
   * The model's state. The cursor is the position, among all items, of the entry the list library
   * currently highlights, or None when it highlights nothing.
   */
  datatype State = State(items: seq<Item>, cursor: Option<nat>, selections: seq<string>, quitting: bool, multi: bool)

  /** The item the list library reports as selected (its `SelectedItem`), if any. */
  function CursorItem(s: State): Option<Item>
  {
    if s.cursor.Some? && s.cursor.value < |s.items| then Some(s.items[s.cursor.value]) else None
  }

  /** The state when the picker starts: highlight on the first item, nothing checked or confirmed. */
  function Initial(entries: seq<Item>, multi: bool): State
  {
    State(entries, if |entries| > 0 then Some(0) else None, [], false, multi)
  }

  /** Titles of the checked items, in list order. */
  function CheckedTitles(items: seq<Item>): seq<string>
  {
    if items == [] then []
    else CheckedTitles(items[..|items| - 1]) + (if items[|items| - 1].selected then [items[|items| - 1].title] else [])
  }

  /** The items with the check flag of the k-th flipped. */
  function Toggle(items: seq<Item>, k: nat): (r: seq<Item>)
    requires k < |items|
  {
    items[k := items[k].(selected := !items[k].selected)]
  }

  /** What `enter` leaves in the selections. */
  function Confirmed(s: State): seq<string>
  {
    if s.multi then
      var checked := s.selections + CheckedTitles(s.items);
      if |checked| == 0 && CursorItem(s).Some? then [CursorItem(s).value.title] else checked
    else if CursorItem(s).Some? then [CursorItem(s).value.title]
    else s.selections
  }

  predicate IsCancel(msg: Msg) { msg == Key("ctrl+c") || msg == Key("q") }

  /**
   * One call of `Update`. Messages the model does not handle go to the list library; its effect is
   * abstracted as listCursor, the highlight it leaves.
   */
  function Update(s: State, msg: Msg, listCursor: Option<nat>): (r: State)
    ensures r.multi == s.multi && |r.items| == |s.items|
    ensures forall k :: 0 <= k < |s.items| ==>
      r.items[k] == s.items[k] || r.items[k] == s.items[k].(selected := !s.items[k].selected)
    ensures s.quitting ==> r.quitting
    ensures r.selections != s.selections ==> msg == Key("enter") && r.quitting
  {
    if IsCancel(msg) then s.(quitting := true)
    else if msg == Key(" ") && s.multi then
      if CursorItem(s).Some? then s.(items := Toggle(s.items, s.cursor.value)) else s
    else if msg == Key("enter") then s.(selections := Confirmed(s), quitting := true)
    else if msg.WindowSize? then s
    else s.(cursor := listCursor)
  }

  /** One message delivered to the program, with the highlight the list library would leave for it. */
  datatype Event = Event(msg: Msg, listCursor: Option<nat>)

  /** The runtime's loop: deliver events until the model has asked to quit. */
  function Run(s: State, events: seq<Event>): (r: State)
    ensures r.multi == s.multi && |r.items| == |s.items|
    ensures forall k :: 0 <= k < |s.items| ==> r.items[k].title == s.items[k].title
    ensures s.quitting ==> r == s
    decreases |events|
  {
    if events == [] || s.quitting then s
    else Run(Update(s, events[0].msg, events[0].listCursor), events[1..])
  }

  // ---------------------------------------------------------------------------------------------
  // Properties of the transition function

  /** `ctrl+c` and `q` only set the quitting flag. */
  lemma CancelOnlyQuits(s: State, msg: Msg, listCursor: Option<nat>)
    requires IsCancel(msg)
    ensures Update(s, msg, listCursor) == s.(quitting := true)
  {
  }

  /** Space in multi-select mode flips the flag of the highlighted item and changes nothing else. */
  lemma ToggleFlipsCursorItemOnly(s: State, listCursor: Option<nat>)
    requires s.multi && CursorItem(s).Some?
    ensures var r := Update(s, Key(" "), listCursor);
      |r.items| == |s.items| && r.cursor == s.cursor && r.selections == s.selections
      && r.quitting == s.quitting && r.multi == s.multi
      && r.items[s.cursor.value] == s.items[s.cursor.value].(selected := !s.items[s.cursor.value].selected)
      && forall k :: 0 <= k < |s.items| && k != s.cursor.value ==> r.items[k] == s.items[k]
  {
  }

  /** Two presses of space in multi-select mode restore the state. */
  lemma ToggleTwiceRestores(s: State, c1: Option<nat>, c2: Option<nat>)
    requires s.multi
    ensures Update(Update(s, Key(" "), c1), Key(" "), c2) == s
  {
    if CursorItem(s).Some? {
      var k := s.cursor.value;
      assert Toggle(Toggle(s.items, k), k) == s.items;
    }
  }

  /** In single-select mode space is handed to the list library and leaves every check flag alone. */
  lemma SpaceInSingleModeKeepsFlags(s: State, listCursor: Option<nat>)
    requires !s.multi
    ensures Update(s, Key(" "), listCursor) == s.(cursor := listCursor)
  {
  }

  /** Messages the model does not handle only move the highlight, as the list library decides. */
  lemma PassThroughKeepsItems(s: State, name: string, width: int, listCursor: Option<nat>)
    requires name != "ctrl+c" && name != "q" && name != " " && name != "enter"
    ensures Update(s, Key(name), listCursor) == s.(cursor := listCursor)
    ensures Update(s, Other, listCursor) == s.(cursor := listCursor)
    ensures Update(s, WindowSize(width), listCursor) == s
  {
  }

  /** CheckedTitles keeps list order: checking a list in two parts gives the two parts' titles in turn. */
  lemma {:induction false} CheckedTitlesAppend(a: seq<Item>, b: seq<Item>)
    ensures CheckedTitles(a + b) == CheckedTitles(a) + CheckedTitles(b)
    decreases |b|
  {
    if b == [] {
      assert a + b == a;
    } else {
      var b' := b[..|b| - 1];
      assert (a + b)[..|a + b| - 1] == a + b';
      CheckedTitlesAppend(a, b');
    }
  }

  /** A title is collected exactly when some checked item carries it. */
  lemma {:induction false} CheckedTitlesMembers(items: seq<Item>, t: string)
    ensures t in CheckedTitles(items) <==> exists k :: 0 <= k < |items| && items[k].selected && items[k].title == t
  {
    if items != [] {
      var n := |items| - 1;
      CheckedTitlesMembers(items[..n], t);
      if exists k :: 0 <= k < n && items[..n][k].selected && items[..n][k].title == t {
        var k :| 0 <= k < n && items[..n][k].selected && items[..n][k].title == t;
        assert items[k] == items[..n][k];
      }
      if exists k :: 0 <= k < |items| && items[k].selected && items[k].title == t {
        var k :| 0 <= k < |items| && items[k].selected && items[k].title == t;
        if k < n {
          assert items[..n][k] == items[k];
        }
      }
    }
  }

  /** Each checked item contributes one title: nothing is collected exactly when nothing is checked. */
  lemma {:induction false} CheckedTitlesEmpty(items: seq<Item>)
    ensures CheckedTitles(items) == [] <==> forall k :: 0 <= k < |items| ==> !items[k].selected
  {
    if items != [] {
      var n := |items| - 1;
      CheckedTitlesEmpty(items[..n]);
      assert forall k :: 0 <= k < n ==> items[..n][k] == items[k];
    }
  }

  /**
   * Enter in multi-select mode at the start of a session: the titles of the checked items in list
   * order, or, when nothing is checked, the highlighted item alone (or nothing without one).
   */
  lemma EnterMulti(s: State, listCursor: Option<nat>)
    requires s.multi && s.selections == []
    ensures var r := Update(s, Key("enter"), listCursor);
      r.quitting && r.items == s.items
      && ((exists k :: 0 <= k < |s.items| && s.items[k].selected) ==> r.selections == CheckedTitles(s.items))
      && ((forall k :: 0 <= k < |s.items| ==> !s.items[k].selected) ==>
            r.selections == if CursorItem(s).Some? then [CursorItem(s).value.title] else [])
  {
    CheckedTitlesEmpty(s.items);
    assert s.selections + CheckedTitles(s.items) == CheckedTitles(s.items);
  }

  /** Enter in single-select mode selects exactly the highlighted item, whatever the check flags say. */
  lemma EnterSingle(s: State, listCursor: Option<nat>)
    requires !s.multi
    ensures var r := Update(s, Key("enter"), listCursor);
      r.quitting && r.items == s.items
      && r.selections == if CursorItem(s).Some? then [CursorItem(s).value.title] else s.selections
  {
  }

  /** Before the session ends, no transition touches the selections. */
  lemma SelectionsOnlyOnEnter(s: State, msg: Msg, listCursor: Option<nat>)
    requires msg != Key("enter")
    ensures Update(s, msg, listCursor).selections == s.selections
  {
  }

  /**
   * Cancelling at any point ends the session with no selections, whatever was toggled before and
   * whatever events would follow.
   */
  lemma {:induction false} CancelledSessionSelectsNothing(s: State, before: seq<Event>, cancel: Event, after: seq<Event>)
    requires s.selections == [] && IsCancel(cancel.msg)
    requires forall k :: 0 <= k < |before| ==> before[k].msg != Key("enter")
    ensures Run(s, before + [cancel] + after).selections == []
    ensures Run(s, before + [cancel] + after).quitting
    decreases |before|
  {
    var evs := before + [cancel] + after;
    if s.quitting {
    } else if before == [] {
      assert evs[0] == cancel && evs[1..] == after;
      var s' := Update(s, cancel.msg, cancel.listCursor);
      assert s'.quitting;
      assert Run(s', after) == s';
    } else {
      assert evs[0] == before[0] && evs[1..] == before[1..] + [cancel] + after;
      SelectionsOnlyOnEnter(s, before[0].msg, before[0].listCursor);
      CancelledSessionSelectsNothing(Update(s, before[0].msg, before[0].listCursor), before[1..], cancel, after);
    }
  }

  lemma CheckedTwoOfThree(a: Item, b: Item, c: Item)
    requires !b.selected
    ensures CheckedTitles([a.(selected := true), b, c.(selected := true)]) == [a.title, c.title]
  {
    var a', c' := a.(selected := true), c.(selected := true);
    CheckedTitlesAppend([a'], [b]);
    CheckedTitlesAppend([a', b], [c']);
    assert [a'] + [b] == [a', b] && [a', b] + [c'] == [a', b, c'];
    assert [a'][..0] == [] && [b][..0] == [] && [c'][..0] == [];
  }

  /** The events of a session that checks the third item, moves up to the first, checks it and confirms. */
  function CheckThirdThenFirst(): seq<Event>
  {
    [Event(Other, Some(2)), Event(Key(" "), None), Event(Other, Some(0)), Event(Key(" "), None),
     Event(Key("enter"), None)]
  }

  /**
   * Multi-select session on three unchecked items: the third is checked before the first, yet the
   * confirmed selection is in list order, not in the order the items were checked.
   */
  lemma MultiSelectListOrder(a: Item, b: Item, c: Item)
    requires !a.selected && !b.selected && !c.selected
    ensures Run(Initial([a, b, c], true), CheckThirdThenFirst()).selections == [a.title, c.title]
    ensures Run(Initial([a, b, c], true), CheckThirdThenFirst()).quitting
  {
    var events := CheckThirdThenFirst();
    var s0 := Initial([a, b, c], true);
    var s1 := Update(s0, Other, Some(2));
    var s2 := Update(s1, Key(" "), None);
    var s3 := Update(s2, Other, Some(0));
    var s4 := Update(s3, Key(" "), None);
    ToggleThirdThenFirst(a, b, c);
    var s5 := Update(s4, Key("enter"), None);
    CheckedTwoOfThree(a, b, c);
    assert s5.selections == [a.title, c.title] && s5.quitting;
    assert Run(s0, events) == Run(s1, events[1..]);
    assert Run(s1, events[1..]) == Run(s2, events[2..]);
    assert Run(s2, events[2..]) == Run(s3, events[3..]);
    assert Run(s3, events[3..]) == Run(s4, events[4..]);
    assert Run(s4, events[4..]) == Run(s5, []);
  }

  lemma ToggleThirdThenFirst(a: Item, b: Item, c: Item)
    requires !a.selected && !b.selected && !c.selected
    ensures
      var s2 := Update(Update(Initial([a, b, c], true), Other, Some(2)), Key(" "), None);
      Update(Update(s2, Other, Some(0)), Key(" "), None)
        == State([a.(selected := true), b, c.(selected := true)], Some(0), [], false, true)
  {
    var s0 := Initial([a, b, c], true);
    var s1 := Update(s0, Other, Some(2));
    var s2 := Update(s1, Key(" "), None);
    assert s2.items == [a, b, c.(selected := true)];
    var s3 := Update(s2, Other, Some(0));
    var s4 := Update(s3, Key(" "), None);
    assert s4.items == [a.(selected := true), b, c.(selected := true)];
  }

  // ---------------------------------------------------------------------------------------------
  // The model object, updated in place

  class Model {
    const items: array<Item>
    var cursor: Option<nat>
    var selections: seq<string>
    var quitting: bool
    const multiSelect: bool

    ghost function Snapshot(): State
      reads this, items
    {
      State(items[..], cursor, selections, quitting, multiSelect)
    }

    constructor (entries: seq<Item>, multi: bool)
      ensures fresh(items) && Snapshot() == Initial(entries, multi)
    {
      items := new Item[|entries|](k requires 0 <= k < |entries| => entries[k]);
      cursor := if |entries| > 0 then Some(0) else None;
      selections := [];
      quitting := false;
      multiSelect := multi;
    }

    /** The loop of multi-select enter: the titles of the checked items, each item visited once. */
    method CollectChecked() returns (titles: seq<string>)
      ensures titles == CheckedTitles(items[..])
      ensures forall t :: t in titles <==> exists k :: 0 <= k < items.Length && items[k].selected && items[k].title == t
    {
      titles := [];
      var i := 0;
      while i < items.Length
        invariant 0 <= i <= items.Length
        invariant titles == CheckedTitles(items[..i])
      {
        assert items[..i + 1][..i] == items[..i];
        if items[i].selected {
          titles := titles + [items[i].title];
        }
        i := i + 1;
      }
      assert items[..items.Length] == items[..];
      forall t ensures t in titles <==> exists k :: 0 <= k < items.Length && items[k].selected && items[k].title == t {
        CheckedTitlesMembers(items[..], t);
      }
    }

    /** One call of Update on the object. */
    method Step(msg: Msg, listCursor: Option<nat>)
      modifies this, items
      ensures Snapshot() == Update(old(Snapshot()), msg, listCursor)
    {
      var hasItem := cursor.Some? && cursor.value < items.Length;
      if IsCancel(msg) {
        quitting := true;
      } else if msg == Key(" ") && multiSelect {
        if hasItem {
          var k := cursor.value;
          items[k] := items[k].(selected := !items[k].selected);
        }
      } else if msg == Key("enter") {
        if multiSelect {
          var checked := CollectChecked();
          selections := selections + checked;
          if |selections| == 0 && hasItem {
            selections := selections + [items[cursor.value].title];
          }
        } else if hasItem {
          selections := [items[cursor.value].title];
        }
        quitting := true;
      } else if !msg.WindowSize? {
        cursor := listCursor;
      }
    }
  }
}
