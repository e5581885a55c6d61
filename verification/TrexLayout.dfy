/** How the layout of a tree in the node array behaves when nodes are appended or
    linked (lib/argtable/argtable3.c, the writes of the T-Rex compiler). */
module TrexLayout {
  import opened TrexSyntax

  /** `b` agrees with `a` on [lo, hi). */
  ghost predicate Same(a: seq<Node>, b: seq<Node>, lo: nat, hi: nat) {
    hi <= |a| && hi <= |b| && forall k :: lo <= k < hi ==> a[k] == b[k]
  }

  lemma {:induction false} ItemsFrame(a: seq<Node>, b: seq<Node>, lo: nat, items: seq<Item>, next: int)
    requires ItemsAt(a, lo, items, next) && Same(a, b, lo, lo + ItemsSize(items))
    ensures ItemsAt(b, lo, items, next)
  {
    if items != [] {
      var before := items[..|items| - 1];
      ItemsFrame(a, b, lo, before, ItemRoot(items[|items| - 1], lo + ItemsSize(before)));
    }
  }

  lemma {:induction false} ElemFrame(a: seq<Node>, b: seq<Node>, lo: nat, e: Elem, next: int)
    requires ElemAt(a, lo, e, next) && Same(a, b, lo, lo + Size(e))
    ensures ElemAt(b, lo, e, next)
    decreases e
  {
    hide ItemsAt, QuantOk, Low, High, TokChar, ListRoot;
    match e
    case Set(negated, items) => ItemsFrame(a, b, lo + 1, items, -1);
    case Group(capture, body) => ListFrame(a, b, lo + 1, body);
    case Rep(x, q) => ElemFrame(a, b, lo, x, -1);
    case Either(l, r) =>
      ListFrame(a, b, lo, l);
      ListFrame(a, b, lo + ListSize(l) + 1, r);
    case _ =>
  }

  lemma {:induction false} ListFrame(a: seq<Node>, b: seq<Node>, lo: nat, c: List)
    requires ListAt(a, lo, c) && Same(a, b, lo, lo + ListSize(c))
    ensures ListAt(b, lo, c)
    decreases c
  {
    match c
    case Last(e) => ElemFrame(a, b, lo, e, -1);
    case More(e, rest) =>
      ElemFrame(a, b, lo, e, ListRoot(rest, lo + Size(e)));
      ListFrame(a, b, lo + Size(e), rest);
  }

  /** Linking the root of an element. */
  lemma ElemLinked(a: seq<Node>, lo: nat, e: Elem, was: int, next: int)
    requires ElemAt(a, lo, e, was)
    ensures Root(e, lo) < |a|
    ensures ElemAt(a[Root(e, lo) := a[Root(e, lo)].(next := next)], lo, e, next)
  {
    hide ItemsAt, ListAt, QuantOk, Low, High, TokChar, ListRoot;
    var b := a[Root(e, lo) := a[Root(e, lo)].(next := next)];
    match e
    case Set(negated, items) =>
      if lo + 1 + ItemsSize(items) <= |a| { ItemsFrame(a, b, lo + 1, items, -1); }
    case Group(capture, body) =>
      ListFrame(a, b, lo + 1, body);
    case Rep(x, q) => ElemFrame(a, b, lo, x, -1);
    case Either(l, r) =>
      ListFrame(a, b, lo, l);
      ListFrame(a, b, lo + ListSize(l) + 1, r);
    case _ =>
  }

  /** Linking the root of the last item of a set. */
  lemma ItemsLinked(a: seq<Node>, lo: nat, items: seq<Item>, next: int)
    requires items != [] && ItemsAt(a, lo, items, -1)
    ensures var k := LastItem(items, lo); 0 <= k < |a| && ItemsAt(a[k := a[k].(next := next)], lo, items, next)
  {
    var before, last := items[..|items| - 1], items[|items| - 1];
    var k := LastItem(items, lo);
    var b := a[k := a[k].(next := next)];
    ItemsFrame(a, b, lo, before, ItemRoot(last, lo + ItemsSize(before)));
  }

  function LastItem(items: seq<Item>, lo: nat): int
    requires items != []
  {
    ItemRoot(items[|items| - 1], lo + ItemsSize(items[..|items| - 1]))
  }

  lemma ItemsAppend(a: seq<Node>, lo: nat, items: seq<Item>, i: Item, next: int)
    requires ItemsAt(a, lo, items, ItemRoot(i, lo + ItemsSize(items))) && ItemAt(a, lo + ItemsSize(items), i, next)
    ensures ItemsAt(a, lo, items + [i], next)
    ensures ItemsSize(items + [i]) == ItemsSize(items) + ItemSize(i)
    ensures ItemsText(items + [i]) == ItemsText(items) + ItemText(i)
  {
    assert (items + [i])[..|items|] == items;
  }
}
