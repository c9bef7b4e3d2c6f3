/** The page's UI state machine: the current selection and the auto-rotate flag, the
    events that change them (previous, next, an item click, the rotate button), and the
    side effects each event has — the re-rendered item list, the requested model load
    and the rotate button's label. */
module Viewer {
  import opened Optional
  import opened Catalog
  import opened Loader
  import opened Navigation
  import opened Modular

  /** The mutable state of the page that the model tracks. */
  datatype State = State(selected: Option<int>, autoRotate: bool)

  /** One rendered element of the item list: its text, its `data-id`, and whether it
      carries the `selected` class. */
  datatype Entry = Entry(text: string, dataId: int, selected: bool)

  /** The user actions the page listens for; `ItemClicked` names the position of the
      clicked element in the rendered list. */
  datatype Event = PrevClicked | NextClicked | ItemClicked(index: nat) | ToggleRotateClicked

  /** What an event does besides changing the state: the list as re-rendered (if it
      is), the model load requested (if any) and the new rotate button label (if set). */
  datatype Effects = Effects(rendered: Option<seq<Entry>>, load: Option<string>, rotateLabel: Option<string>)

  /** The selection is the id of a catalog item. */
  predicate Valid(items: seq<Item>, s: State) {
    s.selected.Some? && HasId(items, s.selected.value)
  }

  /** A click can only come from an element of the rendered list. */
  predicate EventFits(items: seq<Item>, e: Event) {
    e.ItemClicked? ==> e.index < |items|
  }

  /** The item list as rendered: one element per item, in catalog order, marked
      selected when its id is the selection. */
  function RenderItems(items: seq<Item>, selected: Option<int>): (r: seq<Entry>)
    ensures |r| == |items|
    ensures forall k :: 0 <= k < |r| ==> r[k].text == items[k].name && r[k].dataId == items[k].id
    ensures forall k :: 0 <= k < |r| ==> (r[k].selected <==> selected == Some(items[k].id))
  {
    if |items| == 0 then []
    else
      var first := Entry(items[0].name, items[0].id, selected == Some(items[0].id));
      [first] + RenderItems(items[1..], selected)
  }

  /** The positions of the rendered elements marked selected. */
  function MarkedPositions(entries: seq<Entry>): set<int> {
    set k | 0 <= k < |entries| && entries[k].selected
  }

  /** With unique ids and a catalog selection, exactly one element is marked: the one
      at the selected item's position. */
  lemma MarksExactlyTheSelection(items: seq<Item>, id: int)
    requires DistinctIds(items)
    requires HasId(items, id)
    ensures MarkedPositions(RenderItems(items, Some(id))) == {FindIndex(items, id)}
    ensures |MarkedPositions(RenderItems(items, Some(id)))| == 1
  {
    var r := RenderItems(items, Some(id));
    var k := FindIndex(items, id);
    forall j | 0 <= j < |r| && r[j].selected
      ensures j == k
    {
      FindIndexOfItem(items, j);
    }
    assert r[k].selected;
    assert MarkedPositions(r) == {k};
  }

  /** An unset selection or an id outside the catalog marks no element. */
  lemma MarksNothingOutsideCatalog(items: seq<Item>, selected: Option<int>)
    requires selected.None? || !HasId(items, selected.value)
    ensures MarkedPositions(RenderItems(items, selected)) == {}
  {
    var r := RenderItems(items, selected);
    forall j | 0 <= j < |r|
      ensures !r[j].selected
    {
      assert items[j].id == r[j].dataId;
    }
  }

  /** The rotate button's text for a flag value. */
  function RotateLabel(on: bool): string {
    if on then "Auto-Rotate ON" else "Auto-Rotate OFF"
  }

  /** Page start-up: auto-rotation on, the first item selected, the list rendered and
      the first item's model requested. */
  function Init(items: seq<Item>, paths: map<int, string>): (r: (State, Effects))
    requires |items| > 0
    ensures Valid(items, r.0)
    ensures r.0.autoRotate
    ensures r.0.selected == Some(items[0].id)
    ensures r.1.rendered == Some(RenderItems(items, r.0.selected))
    ensures r.1.load == LoadRequest(r.0.selected, paths)
    ensures r.1.rotateLabel.None?
  {
    var s := State(Some(items[0].id), true);
    (s, Effects(Some(RenderItems(items, s.selected)), LoadRequest(s.selected, paths), None))
  }

  /** What every selecting handler does: store the id, re-render, request its model. */
  function SelectId(items: seq<Item>, paths: map<int, string>, s: State, id: int): (State, Effects) {
    var s' := s.(selected := Some(id));
    (s', Effects(Some(RenderItems(items, s'.selected)), LoadRequest(s'.selected, paths), None))
  }

  /** One event. Navigation and clicks leave a catalog selection behind whatever the
      state before, re-render the list and request the new selection's model; the
      rotate button only flips the flag and relabels itself. */
  function Step(items: seq<Item>, paths: map<int, string>, s: State, e: Event): (r: (State, Effects))
    requires |items| > 0
    requires EventFits(items, e)
    ensures e.ToggleRotateClicked? ==>
              && r.0.selected == s.selected
              && r.0.autoRotate == !s.autoRotate
              && r.1.rendered.None? && r.1.load.None?
              && r.1.rotateLabel == Some(if r.0.autoRotate then "Auto-Rotate ON" else "Auto-Rotate OFF")
    ensures !e.ToggleRotateClicked? ==>
              && Valid(items, r.0)
              && r.0.autoRotate == s.autoRotate
              && r.1.rendered == Some(RenderItems(items, r.0.selected))
              && r.1.load == LoadRequest(r.0.selected, paths)
              && r.1.rotateLabel.None?
    ensures e.ItemClicked? ==> r.0.selected == Some(items[e.index].id)
    ensures e.PrevClicked? ==> r.0.selected == Some(HandlePrev(items, s.selected))
    ensures e.NextClicked? ==> r.0.selected == Some(HandleNext(items, s.selected))
  {
    match e
    case PrevClicked => SelectId(items, paths, s, HandlePrev(items, s.selected))
    case NextClicked => SelectId(items, paths, s, HandleNext(items, s.selected))
    case ItemClicked(k) => SelectId(items, paths, s, items[k].id)
    case ToggleRotateClicked =>
      var on := !s.autoRotate;
      (s.(autoRotate := on), Effects(None, None, Some(RotateLabel(on))))
  }

  /** In a well-formed catalog every selecting event requests exactly the new item's
      model and marks exactly that item in the list. */
  lemma SelectingEventLoadsAndMarks(items: seq<Item>, paths: map<int, string>, s: State, e: Event)
    requires WellFormed(items, paths)
    requires EventFits(items, e)
    requires !e.ToggleRotateClicked?
    ensures var r := Step(items, paths, s, e);
      && r.1.load == Some(paths[r.0.selected.value])
      && r.1.rendered.Some?
      && MarkedPositions(r.1.rendered.value) == {FindIndex(items, r.0.selected.value)}
  {
    var r := Step(items, paths, s, e);
    var id := r.0.selected.value;
    var k := FindIndex(items, id);
    CatalogItemRequestsItsPath(items, paths, k);
    MarksExactlyTheSelection(items, id);
  }

  /** Pressing the rotate button twice restores the state. */
  lemma ToggleTwiceRestores(items: seq<Item>, paths: map<int, string>, s: State)
    requires |items| > 0
    ensures Step(items, paths, Step(items, paths, s, ToggleRotateClicked).0, ToggleRotateClicked).0 == s
  {
  }

  /** The state after a sequence of events. */
  function Run(items: seq<Item>, paths: map<int, string>, s: State, events: seq<Event>): State
    requires |items| > 0
    requires forall i :: 0 <= i < |events| ==> EventFits(items, events[i])
    decreases |events|
  {
    if |events| == 0 then s
    else Run(items, paths, Step(items, paths, s, events[0]).0, events[1..])
  }

  /** The number of rotate button presses in a sequence of events. */
  function Toggles(events: seq<Event>): nat {
    if |events| == 0 then 0
    else (if events[0].ToggleRotateClicked? then 1 else 0) + Toggles(events[1..])
  }

  /** Dropping the first event keeps every remaining click inside the list. */
  lemma RestFits(items: seq<Item>, events: seq<Event>)
    requires |events| > 0
    requires forall i :: 0 <= i < |events| ==> EventFits(items, events[i])
    ensures forall i :: 0 <= i < |events[1..]| ==> EventFits(items, events[1..][i])
  {
    forall i | 0 <= i < |events[1..]| ensures EventFits(items, events[1..][i]) {
      assert events[1..][i] == events[i + 1];
    }
  }

  /** From a valid state every sequence of events keeps the selection a catalog id,
      so the handlers' unset-selection branch is never taken. */
  lemma {:induction false} RunKeepsSelectionInCatalog(
    items: seq<Item>, paths: map<int, string>, s: State, events: seq<Event>)
    requires |items| > 0
    requires Valid(items, s)
    requires forall i :: 0 <= i < |events| ==> EventFits(items, events[i])
    ensures Valid(items, Run(items, paths, s, events))
    decreases |events|
  {
    if |events| > 0 {
      RestFits(items, events);
      var s' := Step(items, paths, s, events[0]).0;
      assert Valid(items, s');
      RunKeepsSelectionInCatalog(items, paths, s', events[1..]);
    }
  }

  /** Only the rotate button changes the auto-rotate flag. */
  lemma StepFlipsOnlyOnToggle(items: seq<Item>, paths: map<int, string>, s: State, e: Event)
    requires |items| > 0
    requires EventFits(items, e)
    ensures Step(items, paths, s, e).0.autoRotate == (s.autoRotate != e.ToggleRotateClicked?)
  {
  }

  /** Auto-rotation ends flipped exactly when the rotate button was pressed an odd
      number of times; no other event touches it. */
  lemma {:induction false} RunFlipsRotationPerToggle(
    items: seq<Item>, paths: map<int, string>, s: State, events: seq<Event>)
    requires |items| > 0
    requires forall i :: 0 <= i < |events| ==> EventFits(items, events[i])
    ensures Run(items, paths, s, events).autoRotate == (s.autoRotate != (Toggles(events) % 2 == 1))
    decreases |events|
  {
    if |events| > 0 {
      RestFits(items, events);
      var s' := Step(items, paths, s, events[0]).0;
      var rest := events[1..];
      StepFlipsOnlyOnToggle(items, paths, s, events[0]);
      RunFlipsRotationPerToggle(items, paths, s', rest);
      var t := Toggles(rest);
      var flipped := s'.autoRotate != (t % 2 == 1);
      assert Run(items, paths, s, events).autoRotate == flipped;
      if events[0].ToggleRotateClicked? {
        assert Toggles(events) == t + 1;
        OddAfterOneMore(t);
      } else {
        assert Toggles(events) == t;
      }
    } else {
      assert Run(items, paths, s, events) == s;
      assert Toggles(events) == 0;
    }
  }

  /** Every state the page reaches from start-up has a catalog selection. */
  lemma ReachableSelectionInCatalog(items: seq<Item>, paths: map<int, string>, events: seq<Event>)
    requires |items| > 0
    requires forall i :: 0 <= i < |events| ==> EventFits(items, events[i])
    ensures Valid(items, Run(items, paths, Init(items, paths).0, events))
  {
    RunKeepsSelectionInCatalog(items, paths, Init(items, paths).0, events);
  }

  /** On the page's catalog every selecting event requests one model, and it is shown
      at the default scale. */
  lemma PageEventsLoadAtDefaultScale(s: State, e: Event)
    requires EventFits(Items, e)
    requires !e.ToggleRotateClicked?
    ensures Step(Items, ModelPaths, s, e).1.load.Some?
    ensures ScaleFor(Step(Items, ModelPaths, s, e).1.load.value) == DefaultScale
  {
    PageCatalogWellFormed();
    SelectingEventLoadsAndMarks(Items, ModelPaths, s, e);
    PageLoadsUseDefaultScale(Step(Items, ModelPaths, s, e).0.selected.value);
  }
}
