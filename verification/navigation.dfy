/** The previous/next buttons: each locates the current item with `findIndex` and
    steps one position through the catalog order, wrapping at either end. */
module Navigation {
  import opened Optional
  import opened Catalog
  import opened Modular

  /** The position after `cur` (a `findIndex` result) as the next button computes it:
      one further, and back to the start from the last position. A missing item (-1)
      goes to the start as well. */
  function ForwardIndex(cur: int, n: nat): (r: nat)
    requires n > 0
    requires -1 <= cur < n
    ensures r < n
    ensures cur < n - 1 ==> r == cur + 1
    ensures cur == n - 1 ==> r == 0
  {
    var next := cur + 1;
    if next >= n then 0 else next
  }

  /** The position before `cur` (a `findIndex` result) as the previous button computes
      it: one back, and round to the last position from the first. A missing item (-1)
      gives -2, which is below zero and so also wraps to the last position. */
  function BackwardIndex(cur: int, n: nat): (r: nat)
    requires n > 0
    requires -1 <= cur < n
    ensures r < n
    ensures cur >= 1 ==> r == cur - 1
    ensures cur <= 0 ==> r == n - 1
  {
    var prev := cur - 1;
    if prev < 0 then n - 1 else prev
  }

  /** Stepping forward from a position or from -1 is adding one modulo `n`. */
  lemma ForwardIndexIsModular(cur: int, n: nat)
    requires n > 0
    requires -1 <= cur < n
    ensures ForwardIndex(cur, n) == (cur + 1) % n
  {
    if cur + 1 < n {
      ModInRange(cur + 1, n);
    } else {
      ModAddTurn(0, n);
      ModInRange(0, n);
    }
  }

  /** Stepping back from a position is subtracting one modulo `n`; from -1 it is not,
      unless the catalog has a single item. */
  lemma BackwardIndexIsModular(cur: int, n: nat)
    requires n > 0
    requires 0 <= cur < n
    ensures BackwardIndex(cur, n) == (cur - 1) % n
  {
    if cur >= 1 {
      ModInRange(cur - 1, n);
    } else {
      ModAddTurn(-1, n);
      ModInRange(n - 1, n);
    }
  }

  /** The selection after the next button. An unset selection and an id that is not in
      the catalog both move to the first item; an item moves to its cyclic successor. */
  function HandleNext(items: seq<Item>, selected: Option<int>): (r: int)
    requires |items| > 0
    ensures HasId(items, r)
    ensures selected.None? ==> r == items[0].id
    ensures selected.Some? && !HasId(items, selected.value) ==> r == items[0].id
    ensures DistinctIds(items) && selected.Some? ==>
              forall k :: 0 <= k < |items| && items[k].id == selected.value ==>
                r == items[if k + 1 < |items| then k + 1 else 0].id
  {
    match selected
    case None => items[0].id
    case Some(id) => items[ForwardIndex(FindIndex(items, id), |items|)].id
  }

  /** The selection after the previous button. An unset selection moves to the first
      item, an id not in the catalog moves to the last item, and an item moves to its
      cyclic predecessor. */
  function HandlePrev(items: seq<Item>, selected: Option<int>): (r: int)
    requires |items| > 0
    ensures HasId(items, r)
    ensures selected.None? ==> r == items[0].id
    ensures selected.Some? && !HasId(items, selected.value) ==> r == items[|items| - 1].id
    ensures DistinctIds(items) && selected.Some? ==>
              forall k :: 0 <= k < |items| && items[k].id == selected.value ==>
                r == items[if k >= 1 then k - 1 else |items| - 1].id
  {
    match selected
    case None => items[0].id
    case Some(id) => items[BackwardIndex(FindIndex(items, id), |items|)].id
  }

  /** Next from the last item selects the first; from any other item it selects the
      item one position further. This is the successor clause of `HandleNext`'s
      contract, restated per position so that the wrap-around reads on its own. */
  lemma NextWrapsAtEnd(items: seq<Item>, k: int)
    requires DistinctIds(items)
    requires 0 <= k < |items|
    ensures k == |items| - 1 ==> HandleNext(items, Some(items[k].id)) == items[0].id
    ensures k < |items| - 1 ==> HandleNext(items, Some(items[k].id)) == items[k + 1].id
  {
  }

  /** Previous from the first item selects the last; from any other item it selects the
      item one position back. This is the predecessor clause of `HandlePrev`'s
      contract, restated per position. */
  lemma PrevWrapsAtStart(items: seq<Item>, k: int)
    requires DistinctIds(items)
    requires 0 <= k < |items|
    ensures k == 0 ==> HandlePrev(items, Some(items[k].id)) == items[|items| - 1].id
    ensures k > 0 ==> HandlePrev(items, Some(items[k].id)) == items[k - 1].id
  {
  }

  /** With unique ids, previous undoes next. */
  lemma PrevUndoesNext(items: seq<Item>, id: int)
    requires DistinctIds(items)
    requires HasId(items, id)
    ensures HandlePrev(items, Some(HandleNext(items, Some(id)))) == id
  {
    var k := FindIndex(items, id);
    var n := |items|;
    var k' := if k + 1 < n then k + 1 else 0;
    NextWrapsAtEnd(items, k);
    PrevWrapsAtStart(items, k');
  }

  /** With unique ids, next undoes previous. */
  lemma NextUndoesPrev(items: seq<Item>, id: int)
    requires DistinctIds(items)
    requires HasId(items, id)
    ensures HandleNext(items, Some(HandlePrev(items, Some(id)))) == id
  {
    var k := FindIndex(items, id);
    var n := |items|;
    var k' := if k >= 1 then k - 1 else n - 1;
    PrevWrapsAtStart(items, k);
    NextWrapsAtEnd(items, k');
  }

  /** The selection after pressing next `count` times. */
  function NextTimes(items: seq<Item>, id: int, count: nat): int
    requires |items| > 0
    decreases count
  {
    if count == 0 then id else NextTimes(items, HandleNext(items, Some(id)), count - 1)
  }

  /** The selection after pressing previous `count` times. */
  function PrevTimes(items: seq<Item>, id: int, count: nat): int
    requires |items| > 0
    decreases count
  {
    if count == 0 then id else PrevTimes(items, HandlePrev(items, Some(id)), count - 1)
  }

  /** Next moves every item to the item one position further, wrapping at the end. */
  predicate NextIsSuccessor(items: seq<Item>)
    requires |items| > 0
  {
    forall k :: 0 <= k < |items| ==>
      HandleNext(items, Some(items[k].id)) == items[if k + 1 < |items| then k + 1 else 0].id
  }

  /** Previous moves every item to the item one position back, wrapping at the start. */
  predicate PrevIsPredecessor(items: seq<Item>)
    requires |items| > 0
  {
    forall k :: 0 <= k < |items| ==>
      HandlePrev(items, Some(items[k].id)) == items[if k >= 1 then k - 1 else |items| - 1].id
  }

  /** With unique ids, next and previous move by one position: the neighbour clauses of
      the handlers' contracts, packaged as the predicates the walk lemmas take. */
  lemma NeighboursWithDistinctIds(items: seq<Item>)
    requires |items| > 0
    requires DistinctIds(items)
    ensures NextIsSuccessor(items)
    ensures PrevIsPredecessor(items)
  {
    forall k | 0 <= k < |items|
      ensures HandleNext(items, Some(items[k].id)) == items[if k + 1 < |items| then k + 1 else 0].id
      ensures HandlePrev(items, Some(items[k].id)) == items[if k >= 1 then k - 1 else |items| - 1].id
    {
      NextWrapsAtEnd(items, k);
      PrevWrapsAtStart(items, k);
    }
  }

  /** Pressing next `count` times from item `k` walks `count` positions forward. */
  lemma {:induction false} NextTimesWalks(items: seq<Item>, k: int, count: nat)
    requires |items| > 0
    requires NextIsSuccessor(items)
    requires 0 <= k < |items|
    ensures NextTimes(items, items[k].id, count) == items[StepsForward(k, count, |items|)].id
    decreases count
  {
    var n := |items|;
    if count > 0 {
      var k' := if k + 1 < n then k + 1 else 0;
      NextTimesWalks(items, k', count - 1);
    }
  }

  /** Pressing previous `count` times from item `k` walks `count` positions back. */
  lemma {:induction false} PrevTimesWalks(items: seq<Item>, k: int, count: nat)
    requires |items| > 0
    requires PrevIsPredecessor(items)
    requires 0 <= k < |items|
    ensures PrevTimes(items, items[k].id, count) == items[StepsBack(k, count, |items|)].id
    decreases count
  {
    var n := |items|;
    if count > 0 {
      var k' := if k >= 1 then k - 1 else n - 1;
      PrevTimesWalks(items, k', count - 1);
    }
  }

  /** Pressing next `count` times from item `k` lands on item `(k + count) mod n`. */
  lemma NextTimesAdvances(items: seq<Item>, k: int, count: nat)
    requires DistinctIds(items)
    requires 0 <= k < |items|
    ensures NextTimes(items, items[k].id, count) == items[(k + count) % |items|].id
  {
    NeighboursWithDistinctIds(items);
    NextTimesWalks(items, k, count);
    StepsForwardIsMod(k, count, |items|);
  }

  /** Pressing previous `count` times from item `k` lands on item `(k - count) mod n`. */
  lemma PrevTimesRetreats(items: seq<Item>, k: int, count: nat)
    requires DistinctIds(items)
    requires 0 <= k < |items|
    ensures PrevTimes(items, items[k].id, count) == items[(k - count) % |items|].id
  {
    NeighboursWithDistinctIds(items);
    PrevTimesWalks(items, k, count);
    StepsBackIsMod(k, count, |items|);
  }

  /** Pressing next once per catalog item returns to the starting item. */
  lemma NextFullCycle(items: seq<Item>, k: int)
    requires DistinctIds(items)
    requires 0 <= k < |items|
    ensures NextTimes(items, items[k].id, |items|) == items[k].id
  {
    NeighboursWithDistinctIds(items);
    NextTimesWalks(items, k, |items|);
    FullTurnForward(k, |items|);
  }

  /** The symmetry below, for any catalog where next and previous move by one position. */
  lemma SymmetryOfNeighbours(items: seq<Item>, k: int, count: nat)
    requires |items| > 0
    requires NextIsSuccessor(items)
    requires PrevIsPredecessor(items)
    requires 0 <= k < |items|
    ensures NextTimes(items, items[k].id, count)
            == PrevTimes(items, items[k].id, |items| - count % |items|)
  {
    var n := |items|;
    var back := n - count % n;
    var forward := StepsForward(k, count, n);
    assert NextTimes(items, items[k].id, count) == items[forward].id by {
      NextTimesWalks(items, k, count);
    }
    assert PrevTimes(items, items[k].id, back) == items[StepsBack(k, back, n)].id by {
      PrevTimesWalks(items, k, back);
    }
    assert forward == StepsBack(k, back, n) by {
      ForwardMeetsBackward(k, count, n);
    }
  }

  /** Pressing next `count` times reaches the same item as pressing previous
      `n - count mod n` times. */
  lemma NextPrevSymmetry(items: seq<Item>, k: int, count: nat)
    requires DistinctIds(items)
    requires 0 <= k < |items|
    ensures NextTimes(items, items[k].id, count)
            == PrevTimes(items, items[k].id, |items| - count % |items|)
  {
    NeighboursWithDistinctIds(items);
    SymmetryOfNeighbours(items, k, count);
  }

  /** On the page's catalog: next wraps from item 8 to item 1, previous wraps from
      item 1 to item 8, and an id outside the catalog goes to item 1 on next and to
      item 8 on previous. */
  lemma PageWrapAround(absent: int)
    requires !(1 <= absent <= 8)
    ensures HandleNext(Items, Some(8)) == 1
    ensures HandlePrev(Items, Some(1)) == 8
    ensures HandleNext(Items, Some(absent)) == 1
    ensures HandlePrev(Items, Some(absent)) == 8
  {
    PageCatalogWellFormed();
    NextWrapsAtEnd(Items, 7);
    PrevWrapsAtStart(Items, 0);
    assert !HasId(Items, absent);
  }
}
