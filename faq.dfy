/** The FAQ accordion: clicking a question closes every item and then opens
    the clicked one unless it was the open one, keeping each question's
    `aria-expanded` in step with its item's `open` class. */
module Faq {

  /** One item: its `open` class and its question's `aria-expanded`. */
  datatype Item = Item(open: bool, expanded: bool)

  /** The items after a click on item `idx`. */
  function AfterClick(items: seq<Item>, idx: nat): (r: seq<Item>)
    requires idx < |items|
    ensures |r| == |items|
    ensures forall i :: 0 <= i < |r| ==> r[i].open == r[i].expanded
    ensures r[idx].open <==> !items[idx].open
    ensures forall i :: 0 <= i < |r| && i != idx ==> !r[i].open
  {
    seq(|items|, i requires 0 <= i < |items| =>
      if i == idx && !items[idx].open then Item(true, true) else Item(false, false))
  }

  predicate AtMostOneOpen(items: seq<Item>) {
    forall i, j :: 0 <= i < |items| && 0 <= j < |items| && items[i].open && items[j].open ==> i == j
  }

  /** Whatever the state before, a click leaves at most one item open. */
  lemma ClickKeepsOneOpen(items: seq<Item>, idx: nat)
    requires idx < |items|
    ensures AtMostOneOpen(AfterClick(items, idx))
  {
  }

  /** Clicking the same question twice from any state closes everything
      when it opened the item the first time, and reopens it otherwise. */
  lemma ClickTwice(items: seq<Item>, idx: nat)
    requires idx < |items|
    ensures var twice := AfterClick(AfterClick(items, idx), idx);
            (!items[idx].open ==> forall i :: 0 <= i < |twice| ==> !twice[i].open)
            && (items[idx].open ==> twice[idx].open && AtMostOneOpen(twice))
  {
    ClickKeepsOneOpen(AfterClick(items, idx), idx);
  }

  /** The accordion's items, in document order. */
  class Accordion {
    const items: array<Item>

    constructor (initial: seq<Item>)
      ensures items[..] == initial && fresh(items)
    {
      items := new Item[|initial|](i requires 0 <= i < |initial| => initial[i]);
    }

    /** The click handler of question `idx`: note whether its item was open,
        close every item, then open this one if it was not. */
    method Click(idx: nat)
      requires idx < items.Length
      modifies items
      ensures items[..] == AfterClick(old(items[..]), idx)
    {
      var isOpen := items[idx].open;
      for i := 0 to items.Length
        invariant forall j :: 0 <= j < i ==> items[j] == Item(false, false)
        invariant forall j :: i <= j < items.Length ==> items[j] == old(items[j])
      {
        items[i] := Item(false, false);
      }
      if !isOpen {
        items[idx] := Item(true, true);
      }
    }
  }
}
