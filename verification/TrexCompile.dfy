/** The T-Rex compiler: `trex_newnode`, `trex_escapechar`, `trex_charnode`,
    `trex_class`, `trex_parsenumber`, `trex_element`, `trex_list` and
    `trex_compile` of lib/argtable/argtable3.c.  Every method that succeeds hands
    out, as a ghost, the tree it has read: the text consumed is the tree's
    spelling and the nodes added are the tree's layout.  Every method is also given
    a tree, as a ghost; if that one's spelling stands at the position, the method
    succeeds and has read that very tree. */
module TrexCompile {
  import opened Wrappers
  import opened TrexSyntax
  import opened TrexLayout
  import opened TrexSpelling
  import opened TrexMatch
  import opened TrexSemantics
  import opened TrexAnswers
  import opened TrexLaws

  const NUL: char := 0 as char

  /** Patterns are C strings of bytes. */
  ghost predicate PatternOk(pat: string) {
    forall k :: 0 <= k < |pat| ==> IsByte(pat[k]) && pat[k] != NUL
  }

  /** `b` is `a` with `n` nodes appended. */
  ghost predicate Grown(a: seq<Node>, b: seq<Node>, n: nat) {
    |b| == |a| + n && forall k :: 0 <= k < |a| ==> b[k] == a[k]
  }

  /** The item that a character node is, as a set member. */
  function ItemOf(e: Elem): Item
    requires e.Lit? || e.CharKind?
  {
    if e.Lit? then Letter(e.t) else Kind(e.k)
  }

  /** A set under construction: the set's own node is `ret`, `done` are its linked
      members, and `pending` is the last character node, not linked yet. */
  ghost predicate SetBuilding(nodes: seq<Node>, ret: nat, negated: bool, done: seq<Item>, pending: Option<Item>, chain: int, first: int) {
    && ret < |nodes|
    && nodes[ret].kind == (if negated then OP_NCLASS else OP_CLASS) && nodes[ret].right == -1
    && nodes[ret].next == (if done == [] then -1 else FirstItem(done, ret + 1))
    && ItemsAt(nodes, ret + 1, done, -1)
    && chain == (if done == [] then ret else LastItem(done, ret + 1))
    && |nodes| == ret + 1 + ItemsSize(done) + (if pending.Some? then 1 else 0)
    && (pending.None? ==> first == -1)
    && (pending.Some? ==>
          && first == ret + 1 + ItemsSize(done) && !pending.value.Range?
          && ItemAt(nodes, ret + 1 + ItemsSize(done), pending.value, -1))
  }

  /** Linking a member: the node before it gets its `next`. */
  lemma {:induction false} SetLinks(nodes: seq<Node>, ret: nat, negated: bool, done: seq<Item>, i: Item, chain: int)
    requires ret < |nodes|
    requires nodes[ret].kind == (if negated then OP_NCLASS else OP_CLASS) && nodes[ret].right == -1
    requires nodes[ret].next == (if done == [] then -1 else FirstItem(done, ret + 1))
    requires ItemsAt(nodes, ret + 1, done, -1)
    requires chain == (if done == [] then ret else LastItem(done, ret + 1))
    requires |nodes| == ret + 1 + ItemsSize(done) + ItemSize(i)
    requires ItemAt(nodes, ret + 1 + ItemsSize(done), i, -1)
    ensures 0 <= chain < |nodes|
    ensures var k := ItemRoot(i, ret + 1 + ItemsSize(done));
            SetBuilding(nodes[chain := nodes[chain].(next := k)], ret, negated, done + [i], None, k, -1)
  {
    hide ItemsAt, ItemAt, ItemsSize, ItemSize, LastItem, FirstItem, ItemRoot;
    var at := ret + 1 + ItemsSize(done);
    var k := ItemRoot(i, at);
    LastOfAppend(done, i, ret + 1);
    if done != [] {
      ItemsBound(nodes, ret + 1, done, -1);
      ItemsLinked(nodes, ret + 1, done, k);
    } else {
      NoItems(nodes[chain := nodes[chain].(next := k)], ret + 1, k);
    }
    var b := nodes[chain := nodes[chain].(next := k)];
    ItemFrame(nodes, b, at, i, -1);
    ItemsAppend(b, ret + 1, done, i, -1);
  }

  /** The pending character and a new range node become one member. */
  lemma {:induction false} RangeBuilt(a: seq<Node>, b: seq<Node>, ret: nat, negated: bool, done: seq<Item>, low: Item, i: Item, chain: int, first: int)
    requires SetBuilding(a, ret, negated, done, Some(low), chain, first) && low.Letter? && i.Range? && i.lo == low.t
    requires b == a + [Node(OP_RANGE, TokChar(i.lo) as int, TokChar(i.hi) as int, -1)] && IsByte(TokChar(i.hi))
    ensures 0 <= chain < |b|
    ensures SetBuilding(b[chain := b[chain].(next := |a|)], ret, negated, done + [i], None, |a|, -1)
    ensures ret <= chain
  {
    hide ItemsAt, TokChar;
    ItemsFrame(a, b, ret + 1, done, -1);
    SetLinks(b, ret, negated, done, i, chain);
    if done != [] {
      ItemsBound(a, ret + 1, done, -1);
    }
  }

  lemma LowEnd(nodes: seq<Node>, ret: nat, negated: bool, done: seq<Item>, low: Item, chain: int, first: int)
    requires SetBuilding(nodes, ret, negated, done, Some(low), chain, first)
    ensures first == ret + 1 + ItemsSize(done) && 0 <= first < |nodes|
    ensures low.Letter? <==> nodes[first].kind != OP_CCLASS
    ensures low.Letter? ==> nodes[first].kind == TokChar(low.t) as int
  {
    hide ItemsAt, FirstItem, LastItem;
  }

  lemma LastOfAppend(done: seq<Item>, i: Item, lo: nat)
    ensures LastItem(done + [i], lo) == ItemRoot(i, lo + ItemsSize(done))
    ensures FirstItem(done + [i], lo) == if done == [] then LastItem(done + [i], lo) else FirstItem(done, lo)
  {
    assert (done + [i])[..|done|] == done;
  }

  lemma NoItems(nodes: seq<Node>, lo: nat, next: int)
    ensures ItemsAt(nodes, lo, [], next)
  {
  }

  lemma ItemFrame(a: seq<Node>, b: seq<Node>, lo: nat, i: Item, next: int)
    requires ItemAt(a, lo, i, next) && Same(a, b, lo, lo + ItemSize(i))
    ensures ItemAt(b, lo, i, next)
  {
  }

  lemma ItemsBound(nodes: seq<Node>, lo: nat, items: seq<Item>, next: int)
    requires items != [] && ItemsAt(nodes, lo, items, next)
    ensures lo <= LastItem(items, lo) < lo + ItemsSize(items)
  {
  }

  lemma PendingAdded(a: seq<Node>, b: seq<Node>, ret: nat, negated: bool, done: seq<Item>, chain: int, e: Elem, id: int)
    requires SetBuilding(a, ret, negated, done, None, chain, -1)
    requires Grown(a, b, 1) && id == |a| && (e.Lit? || e.CharKind?) && ElemAt(b, id, e, -1)
    ensures SetBuilding(b, ret, negated, done, Some(ItemOf(e)), chain, id)
  {
    ItemsFrame(a, b, ret + 1, done, -1);
  }

  /** The members read so far, the pending one included, and how they are spelled. */
  ghost predicate SetRead(pat: string, start: nat, p: nat, all: seq<Item>) {
    && start <= p <= |pat|
    && ItemsOk(all)
    && pat[start..p] == ItemsText(all)
    && (all == [] ==> p == start)
    && (all != [] ==> start < p && ItemText(all[0])[0] == pat[start])
  }

  function WithPending(done: seq<Item>, pending: Option<Item>): seq<Item> {
    if pending.Some? then done + [pending.value] else done
  }

  lemma ReadItem(pat: string, start: nat, p: nat, all: seq<Item>, q: nat, e: Elem)
    requires SetRead(pat, start, p, all) && p < q <= |pat| && pat[p] != ']'
    requires pat[p] == '-' ==> all == [] || all[|all| - 1].Range?
    requires (e.Lit? && TokOk(e.t, true)) || (e.CharKind? && e.k in KINDS)
    requires pat[p..q] == ElemText(e)
    ensures SetRead(pat, start, q, all + [ItemOf(e)])
  {
    ItemOfText(e);
    ReadText(pat, start, p, all, q, ItemOf(e));
  }

  lemma ItemOfText(e: Elem)
    requires (e.Lit? && TokOk(e.t, true)) || (e.CharKind? && e.k in KINDS)
    ensures ItemOk(ItemOf(e)) && ItemText(ItemOf(e)) == ElemText(e)
  {
  }

  lemma ReadText(pat: string, start: nat, p: nat, all: seq<Item>, q: nat, i: Item)
    requires SetRead(pat, start, p, all) && p < q <= |pat| && pat[p] != ']'
    requires pat[p] == '-' ==> all == [] || all[|all| - 1].Range?
    requires ItemOk(i) && ItemText(i) == pat[p..q]
    ensures SetRead(pat, start, q, all + [i])
  {
    hide ItemText, ItemOk;
    assert ItemText(i)[0] == pat[p];
    assert (all + [i])[..|all|] == all;
    assert pat[start..q] == pat[start..p] + pat[p..q];
  }

  lemma ReadRangeItem(pat: string, start: nat, p: nat, done: seq<Item>, low: Item, q: nat, i: Item)
    requires SetRead(pat, start, p, done + [low]) && p < q <= |pat|
    requires low.Letter? && i.Range? && i.lo == low.t && HighOk(i.hi)
    requires ItemText(low) + pat[p..q] == ItemText(i)
    ensures SetRead(pat, start, q, done + [i])
  {
    hide TokText, TokOk, HighOk, ItemText;
    var before, all := done + [low], done + [i];
    assert before[..|done|] == done && all[..|done|] == done;
    assert before[|done|] == low && ItemOk(low);
    assert ItemText(i)[0] == ItemText(low)[0];
    ExtendText(pat, start, p, q, ItemsText(done) + ItemText(low), pat[p..q]);
    assert ItemsText(done) + ItemText(low) + pat[p..q] == ItemsText(done) + (ItemText(low) + pat[p..q]);
    RangeOk(low, i);
    LastReplaced(done, low, i);
  }

  lemma RangeOk(low: Item, i: Item)
    requires ItemOk(low) && low.Letter? && i.Range? && i.lo == low.t && HighOk(i.hi)
    ensures ItemOk(i)
  {
  }

  lemma LastReplaced(done: seq<Item>, low: Item, i: Item)
    requires ItemsOk(done + [low]) && ItemOk(i) && ItemText(i)[0] == ItemText(low)[0]
    ensures ItemsOk(done + [i])
  {
    hide ItemOk, ItemText;
    var before, all := done + [low], done + [i];
    forall k | 0 <= k < |all| ensures ItemOk(all[k]) && ItemText(all[k])[0] != ']' {
      assert ItemOk(before[k]) && ItemText(before[k])[0] != ']';
    }
    forall k | 0 < k < |all| && ItemText(all[k])[0] == '-' ensures all[k - 1].Range? {
      assert ItemText(before[k])[0] == '-' && before[k - 1] == all[k - 1];
    }
  }

  /** The finished set: its members are moved from `next` to `left`. */
  lemma SetDone(nodes: seq<Node>, ret: nat, negated: bool, items: seq<Item>, chain: int)
    requires items != [] && SetBuilding(nodes, ret, negated, items, None, chain, -1)
    ensures ElemAt(nodes[ret := nodes[ret].(left := nodes[ret].next, next := -1)], ret, Set(negated, items), -1)
    ensures |nodes| == ret + Size(Set(negated, items))
  {
    ItemsFrame(nodes, nodes[ret := nodes[ret].(left := nodes[ret].next, next := -1)], ret + 1, items, -1);
  }

  // ---------------------------------------------------------------- nodes of composite elements

  lemma {:induction false} GroupBuilt(a: seq<Node>, b: seq<Node>, capture: bool, body: List)
    requires |a| >= 1 && a[|a| - 1].kind == (if capture then OP_EXPR else OP_NOCAPEXPR) && a[|a| - 1].next == -1
    requires Grown(a, b, ListSize(body)) && ListAt(b, |a|, body)
    ensures var x := |a| - 1;
            var c := b[x := b[x].(left := ListRoot(body, |a|))];
            ElemAt(c, x, Group(capture, body), -1) && Grown(a[..x], c, Size(Group(capture, body)))
  {
    ListFrame(b, b[|a| - 1 := b[|a| - 1].(left := ListRoot(body, |a|))], |a|, body);
  }

  lemma {:induction false} RepBuilt(a: seq<Node>, b: seq<Node>, lo: nat, e: Elem, q: Quant)
    requires QuantOk(q) && ElemAt(a, lo, e, -1) && lo + Size(e) == |a|
    requires b == a + [Node(OP_GREEDY, Root(e, lo), Low(q) * 0x10000 + High(q), -1)]
    ensures ElemAt(b, lo, Rep(e, q), -1)
  {
    ElemFrame(a, b, lo, e, -1);
  }

  /** An element is linked to the list that follows it. */
  lemma {:induction false} MoreBuilt(a: seq<Node>, b: seq<Node>, lo: nat, e: Elem, rest: List)
    requires ElemAt(a, lo, e, -1) && lo + Size(e) == |a|
    requires Grown(a, b, ListSize(rest)) && ListAt(b, |a|, rest)
    ensures Root(e, lo) < |a|
    ensures var r := Root(e, lo);
            var c := b[r := b[r].(next := ListRoot(rest, |a|))];
            ListAt(c, lo, More(e, rest))
  {
    hide ElemAt, Root, Size, ListRoot, ListSize;
    ElemLinked(a, lo, e, -1, -1);
    var r := Root(e, lo);
    var c := b[r := b[r].(next := ListRoot(rest, |a|))];
    ElemFrame(a, b, lo, e, -1);
    ElemLinked(b, lo, e, -1, ListRoot(rest, |a|));
    ListFrame(b, c, |a|, rest);
  }

  lemma {:induction false} EitherBuilt(a: seq<Node>, b: seq<Node>, lo: nat, l: List, r: List)
    requires ListAt(a, lo, l) && lo + ListSize(l) == |a|
    requires |b| == |a| + 1 + ListSize(r) && Same(a, b, 0, |a|)
    requires b[|a|] == Node(OP_OR, ListRoot(l, lo), -1, -1) && ListAt(b, |a| + 1, r)
    ensures var c := b[|a| := b[|a|].(right := ListRoot(r, |a| + 1))];
            ListAt(c, lo, Last(Either(l, r)))
  {
    var c := b[|a| := b[|a|].(right := ListRoot(r, |a| + 1))];
    ListFrame(a, c, lo, l);
    ListFrame(b, c, |a| + 1, r);
  }

  lemma NumberAppend(ds: string, c: char)
    requires Digits(ds) && IsDigit(c)
    ensures Digits(ds + [c]) && Number(ds + [c]) == 10 * Number(ds) + (c as int - '0' as int)
  {
    assert (ds + [c])[..|ds|] == ds;
  }

  lemma OneDigit(c: char)
    requires IsDigit(c)
    ensures Digits([c]) && Number([c]) == c as int - '0' as int && Pow10(1) == 10
  {
    assert [c][..0] == "";
    assert Number("") == 0 && Pow10(0) == 1;
  }

  lemma OneChar(pat: string, p: nat)
    requires p < |pat|
    ensures pat[p..p + 1] == [pat[p]]
  {
  }

  lemma ExtendText(pat: string, start: nat, p: nat, q: nat, text: string, more: string)
    requires start <= p <= q <= |pat| && pat[start..p] == text && pat[p..q] == more
    ensures pat[start..q] == text + more
  {
  }

  lemma ExtendChar(pat: string, start: nat, p: nat, text: string)
    requires start <= p < |pat| && pat[start..p] == text
    ensures pat[start..p + 1] == text + [pat[p]]
  {
  }

  lemma SetParsed(pat: string, start: nat, p: nat, negated: bool, items: seq<Item>)
    requires items != [] && start <= |pat|
    requires if negated then start < |pat| && pat[start] == '^' else start < |pat| ==> pat[start] != '^'
    requires SetRead(pat, if negated then start + 1 else start, p, items)
    ensures start < p <= |pat| && ElemOk(Set(negated, items)) && ElemText(Set(negated, items)) == "[" + pat[start..p] + "]"
  {
    hide ItemText, ItemsText, ItemsOk;
    var text := ItemsText(items);
    if negated {
      ExtendText(pat, start, start + 1, p, "^", text);
      assert "[" + "^" + text + "]" == "[" + ("^" + text) + "]";
    } else {
      assert "[" + "" + text + "]" == "[" + text + "]";
    }
  }

  /** `e`, followed by `next`, may go on with the list read from there. */
  lemma {:induction false} MoreOk(e: Elem, rest: List, next: char)
    requires ElemOk(e) && !e.Begin? && !e.Either? && ElemsOk(rest)
    requires ListText(rest)[0] == next && next !in "*+|)"
    requires !e.Rep? ==> next !in "*+?{"
    ensures ElemsOk(More(e, rest)) && ListText(More(e, rest)) == ElemText(e) + ListText(rest)
  {
    hide ElemOk, ElemText;
  }

  lemma {:induction false} SequenceStarts(c: List, begin: bool)
    requires ElemsOk(c) && (!begin ==> ListText(c)[0] != '^')
    ensures SequenceOk(if begin then More(Begin, c) else c)
    ensures ListText(if begin then More(Begin, c) else c) == (if begin then "^" else "") + ListText(c)
  {
    hide ElemOk, ElemText, ListText;
    if begin {
      BeginText(c);
    } else {
      assert "" + ListText(c) == ListText(c);
      BeginIsFirst(c);
    }
  }

  lemma BeginText(c: List)
    ensures ListText(More(Begin, c)) == "^" + ListText(c)
  {
  }

  lemma BeginIsFirst(c: List)
    requires ElemsOk(c)
    ensures !c.e.Begin?
  {
  }

  lemma {:induction false} ListCases(c: List)
    requires SequenceOk(c)
    ensures ListOk(c)
  {
    if c.Last? && c.e.Either? {
      BeginIsFirst(c);
      assert false;
    }
  }

  lemma {:induction false} EitherCases(l: List, r: List)
    requires SequenceOk(l) && ListOk(r)
    ensures ListOk(Last(Either(l, r))) && ListText(Last(Either(l, r))) == ListText(l) + "|" + ListText(r)
  {
    hide SequenceOk, ListText;
    LastText(Either(l, r));
  }

  lemma {:induction false} LastText(e: Elem)
    ensures ListText(Last(e)) == ElemText(e)
  {
  }

  lemma {:induction false} GroupOk(body: List, capture: bool)
    requires ListOk(body) && (capture ==> ListText(body)[0] != '?')
    ensures ElemOk(Group(capture, body))
    ensures ElemText(Group(capture, body)) == (if capture then "(" else "(?:") + ListText(body) + ")"
  {
    hide ListOk, ListText;
    var t := ListText(body);
    assert "(" + "" + t + ")" == "(" + t + ")";
    assert "(" + "?:" == "(?:";
  }

  lemma {:induction false} RepOk(e: Elem, q: Quant)
    requires ElemOk(e) && IsAtom(e) && QuantOk(q)
    ensures ElemOk(Rep(e, q)) && ElemText(Rep(e, q)) == ElemText(e) + QuantText(q)
  {
    hide QuantOk, QuantText;
  }

  /** What the switch of `trex_element` makes. */
  predicate IsAtom(e: Elem) {
    !e.Rep? && !e.Begin? && !e.Either?
  }

  lemma {:induction false} LastOk(e: Elem, nodes: seq<Node>, lo: nat)
    requires ElemOk(e) && !e.Begin? && !e.Either? && ElemAt(nodes, lo, e, -1)
    ensures ElemsOk(Last(e)) && ListText(Last(e)) == ElemText(e) && ListAt(nodes, lo, Last(e))
  {
  }

  lemma {:induction false} CharOk(pat: string, start: nat, p: nat, e: Elem)
    requires start < p <= |pat| && pat[start..p] == ElemText(e) && pat[start] !in "([$."
    requires (e.Lit? && TokOk(e.t, false)) || (e.CharKind? && e.k in KINDS) || (e.Boundary? && e.k in "bB")
    ensures ElemOk(e)
  {
    assert pat[start] == pat[start..p][0];
  }

  lemma SimpleOk()
    ensures ElemOk(End) && ElemOk(Any)
  {
  }

  lemma SetStarts(nodes: seq<Node>, ret: nat, negated: bool)
    requires |nodes| == ret + 1 && nodes[ret] == Node(if negated then OP_NCLASS else OP_CLASS, -1, -1, -1)
    ensures SetBuilding(nodes, ret, negated, [], None, ret, -1)
  {
  }

  lemma StartRead(pat: string, start: nat)
    requires start <= |pat|
    ensures SetRead(pat, start, start, [])
  {
  }

  lemma BuildingBounds(nodes: seq<Node>, ret: nat, negated: bool, done: seq<Item>, pending: Option<Item>, chain: int, first: int)
    requires SetBuilding(nodes, ret, negated, done, pending, chain, first)
    ensures ret < |nodes| && (first == -1 <==> pending.None?)
  {
  }

  class Compiler {
    const pat: string
    var p: nat
    var nodes: seq<Node>
    var nsubexpr: nat

    constructor (pattern: string)
      ensures pat == pattern && p == 0 && nodes == [] && nsubexpr == 0
    {
      pat := pattern;
      p, nodes, nsubexpr := 0, [], 0;
    }

    ghost predicate Valid()
      reads this
    {
      PatternOk(pat) && p <= |pat|
    }

    /** `*exp->_p`. */
    function Peek(): char
      requires p <= |pat|
      reads this
    {
      if p < |pat| then pat[p] else NUL
    }

    method NewNode(kind: int) returns (id: int)
      requires Valid()
      modifies this`nodes, this`nsubexpr
      ensures nodes == old(nodes) + [Node(kind, -1, if kind == OP_EXPR then old(nsubexpr) else -1, -1)]
      ensures id == |old(nodes)|
    {
      var n := Node(kind, -1, -1, -1);
      if kind == OP_EXPR {
        n := n.(right := nsubexpr);
        nsubexpr := nsubexpr + 1;
      }
      nodes := nodes + [n];
      id := |nodes| - 1;
    }

    method Expect(c: char) returns (ok: bool)
      requires Valid() && c != NUL
      modifies this`p
      ensures ok <==> old(p) < |pat| && pat[old(p)] == c
      ensures p == if ok then old(p) + 1 else old(p)
    {
      if Peek() != c {
        return false;
      }
      p := p + 1;
      return true;
    }

    /** The value of a character after a backslash; a pattern that ends there is
        refused, where the source reads past the terminator. */
    method EscapeChar(ghost want: Tok) returns (ok: bool, c: char, ghost t: Tok)
      requires Valid()
      modifies this`p
      ensures Valid()
      ensures ok ==> old(p) < p && pat[old(p)..p] == TokText(t) && c == TokChar(t) && IsByte(c) && HighOk(t)
      ensures HighOk(want) && Spells(pat, old(p), TokText(want)) ==> ok && t == want
    {
      if HighOk(want) && Spells(pat, p, TokText(want)) {
        TokSpelled(pat, p, want);
      }
      c, t := NUL, Plain(NUL);
      if Peek() == '\\' {
        p := p + 1;
        if p == |pat| {
          return false, c, t;
        }
        t := Escaped(pat[p]);
        match Peek() {
          case 'v' => c := 11 as char;
          case 'n' => c := '\n';
          case 't' => c := '\t';
          case 'r' => c := '\r';
          case 'f' => c := 12 as char;
          case d => c := d;
        }
        p := p + 1;
        return true, c, t;
      } else if !IsPrint(Peek()) {
        return false, c, t;
      }
      t := Plain(pat[p]);
      c := Peek();
      p := p + 1;
      return true, c, t;
    }

    /** The node of an escaped character. */
    method EscapedNode(t: char, inSet: bool) returns (id: int, ghost e: Elem)
      requires Valid() && IsByte(t)
      modifies this`nodes, this`nsubexpr
      ensures e == EscapedElem(t, inSet) && CharNodeAt(e, inSet) && ElemText(e) == ['\\', t]
      ensures Grown(old(nodes), nodes, 1) && id == |old(nodes)| && ElemAt(nodes, id, e, -1)
    {
      if t == 'n' || t == 't' || t == 'r' || t == 'f' || t == 'v' {
        e := Lit(Escaped(t));
        id := NewNode(TokChar(Escaped(t)) as int);
      } else if t in KINDS {
        e := CharKind(t);
        id := NewNode(OP_CCLASS);
        nodes := nodes[id := nodes[id].(left := t as int)];
      } else if (t == 'b' || t == 'B') && !inSet {
        e := Boundary(t);
        id := NewNode(OP_WB);
        nodes := nodes[id := nodes[id].(left := t as int)];
      } else {
        e := Lit(Escaped(t));
        id := NewNode(t as int);
      }
    }

    method CharNode(inSet: bool, ghost want: Elem) returns (ok: bool, id: int, ghost e: Elem)
      requires Valid()
      modifies this`p, this`nodes, this`nsubexpr
      ensures Valid()
      ensures ok ==> old(p) < p && CharNodeAt(e, inSet) && pat[old(p)..p] == ElemText(e)
      ensures ok ==> Grown(old(nodes), nodes, 1) && id == |old(nodes)| && ElemAt(nodes, id, e, -1)
      ensures CharNodeAt(want, inSet) && Spells(pat, old(p), ElemText(want)) ==> ok && e == want
    {
      if CharNodeAt(want, inSet) && Spells(pat, p, ElemText(want)) {
        CharSpelled(pat, p, want, inSet);
      }
      id, e := -1, Any;
      if Peek() == '\\' {
        p := p + 1;
        if p == |pat| {
          return false, id, e;
        }
        id, e := EscapedNode(Peek(), inSet);
        p := p + 1;
        return true, id, e;
      } else if !IsPrint(Peek()) {
        return false, id, e;
      }
      var t := Peek();
      e := Lit(Plain(t));
      p := p + 1;
      id := NewNode(t as int);
      return true, id, e;
    }

    /** Links the pending member of a set. */
    method LinkMember(ret: nat, chain: int, first: int, ghost negated: bool, ghost start: nat, ghost done: seq<Item>, ghost i: Item,
                      ghost wanted: bool, ghost want: seq<Item>)
      requires SetBuilding(nodes, ret, negated, done, Some(i), chain, first)
      requires ItemsFit(done, ret + 1) && !i.Range?
      requires wanted ==> WantsItems(pat, start, ret + 1, want) && OnTrack(start, p, want, done, Some(i)) && !(p < |pat| && pat[p] == '-')
      modifies this`nodes
      ensures SetBuilding(nodes, ret, negated, done + [i], None, first, -1)
      ensures ItemsFit(done + [i], ret + 1)
      ensures wanted ==> OnTrack(start, p, want, done + [i], None)
      ensures |nodes| == |old(nodes)|
      ensures forall k :: 0 <= k < ret ==> nodes[k] == old(nodes)[k]
    {
      hide ItemsFit, WantsItems, OnTrack;
      PendingFits(done, i, ret + 1);
      if wanted {
        TrackLinked(pat, start, ret + 1, p, want, done, i);
      }
      SetLinks(nodes, ret, negated, done, i, chain);
      nodes := nodes[chain := nodes[chain].(next := first)];
    }

    /** A range that the text at q, its "-", and the node index of its low end allow. */
    ghost predicate WantsRange(low: Item, at: int, q: nat, want: Item)
    {
      want.Range? && low == Letter(want.lo) && HighOk(want.hi) && ItemFits(want, at) && Spells(pat, q + 1, TokText(want.hi))
    }

    /** A range in a set, after its low end: "-" and the high end. */
    method ReadRange(ret: nat, chain: int, first: int, ghost negated: bool, ghost done: seq<Item>, ghost low: Item, ghost want: Item)
        returns (ok: bool, r: int, ghost i: Item)
      requires Valid() && Peek() == '-'
      requires SetBuilding(nodes, ret, negated, done, Some(low), chain, first)
      modifies this`p, this`nodes, this`nsubexpr
      ensures Valid()
      ensures ok ==>
                && old(p) < p
                && low.Letter? && i.Range? && i.lo == low.t && HighOk(i.hi)
                && ItemText(low) + pat[old(p)..p] == ItemText(i)
                && SetBuilding(nodes, ret, negated, done + [i], None, r, -1)
                && ItemFits(i, ret + 1 + ItemsSize(done))
                && forall k :: 0 <= k < ret ==> nodes[k] == old(nodes)[k]
      ensures WantsRange(low, ret + 1 + ItemsSize(done), old(p), want) ==> ok && i == want
    {
      hide SetBuilding, Spells, HighOk, TokText, ItemText, ItemFits, WantsRange, ItemsSize, TokChar;
      LowEnd(nodes, ret, negated, done, low, chain, first);
      ghost var wanted := WantsRange(low, first, p, want);
      ghost var aim := Plain(NUL);
      if wanted {
        RangeWanted(low, first, p, want);
        aim := want.hi;
      }
      i := low;
      ghost var start, before := p, nodes;
      p := p + 1;
      r := NewNode(OP_RANGE);
      if first > Peek() as int {
        return false, r, i;
      }
      if nodes[first].kind == OP_CCLASS {
        return false, r, i;
      }
      nodes := nodes[r := nodes[r].(left := nodes[first].kind)];
      var ok', t, tok := EscapeChar(aim);
      if !ok' {
        return false, r, i;
      }
      nodes := nodes[r := nodes[r].(right := t as int)];
      i := Range(low.t, tok);
      RangeRead(start, low, tok, first);
      assert nodes == before + [Node(OP_RANGE, TokChar(i.lo) as int, TokChar(i.hi) as int, -1)];
      RangeBuilt(before, nodes, ret, negated, done, low, i, chain, first);
      nodes := nodes[chain := nodes[chain].(next := r)];
      return true, r, i;
    }

    lemma RangeWanted(low: Item, at: int, q: nat, want: Item)
      requires WantsRange(low, at, q, want)
      ensures want == Range(want.lo, want.hi) && low == Letter(want.lo) && HighOk(want.hi) && Spells(pat, q + 1, TokText(want.hi))
      ensures q + 1 < |pat| && at <= pat[q + 1] as int
    {
      SpellsFirst(pat, q + 1, TokText(want.hi));
    }

    lemma RangeRead(start: nat, low: Item, tok: Tok, at: int)
      requires start + 1 < p <= |pat| && pat[start] == '-' && pat[start + 1..p] == TokText(tok) && low.Letter?
      requires at <= pat[start + 1] as int
      ensures ItemText(low) + pat[start..p] == ItemText(Range(low.t, tok)) && ItemFits(Range(low.t, tok), at)
    {
      hide TokText;
      assert pat[start..p] == "-" + pat[start + 1..p];
      assert TokText(tok)[0] == pat[start + 1];
      assert TokText(low.t) + ("-" + TokText(tok)) == TokText(low.t) + "-" + TokText(tok);
    }

    /** The members of a set, up to the closing bracket. */
    method ReadItems(ret: nat, ghost negated: bool, ghost want: seq<Item>) returns (ok: bool, ghost items: seq<Item>, ghost last: int)
      requires Valid() && Peek() != ']'
      requires SetBuilding(nodes, ret, negated, [], None, ret, -1)
      modifies this`p, this`nodes, this`nsubexpr
      ensures Valid()
      ensures ok ==>
                && Peek() == ']' && items != []
                && SetRead(pat, old(p), p, items)
                && SetBuilding(nodes, ret, negated, items, None, last, -1)
                && ItemsFit(items, ret + 1)
                && forall k :: 0 <= k < ret ==> nodes[k] == old(nodes)[k]
      ensures WantsItems(pat, old(p), ret + 1, want) ==> ok && items == want
    {
      hide SetBuilding, SetRead, ItemAt, ElemAt, WantsItems, OnTrack, ItemsFit, ItemsSize;
      ghost var start := p;
      ghost var was := nodes;
      ghost var wanted := WantsItems(pat, start, ret + 1, want);
      ghost var done: seq<Item>, pending: Option<Item> := [], None;
      var first, chain := -1, ret as int;
      items, last := [], ret;
      StartRead(pat, start);
      TrackStarts(start, want);
      NothingFits(ret + 1);
      BuildingBounds(nodes, ret, negated, [], None, ret, -1);
      while Peek() != ']'
        invariant Valid() && start <= p
        invariant SetBuilding(nodes, ret, negated, done, pending, chain, first)
        invariant SetRead(pat, start, p, WithPending(done, pending))
        invariant first == -1 <==> pending.None?
        invariant pending.None? ==> done == [] || done[|done| - 1].Range?
        invariant p > start ==> WithPending(done, pending) != []
        invariant ret < |nodes| && ret < |was| && forall k :: 0 <= k < ret ==> nodes[k] == was[k]
        invariant ItemsFit(done, ret + 1) && (pending.Some? ==> !pending.value.Range?)
        invariant wanted ==> OnTrack(start, p, want, done, pending)
        decreases |pat| - p
      {
        BuildingBounds(nodes, ret, negated, done, pending, chain, first);
        if Peek() == '-' && first != -1 {
          chain, ok, done := NextRange(ret, chain, first, negated, start, done, pending.value, wanted, want);
          if !ok {
            return;
          }
          pending, first := None, -1;
        } else {
          if first != -1 {
            LinkMember(ret, chain, first, negated, start, done, pending.value, wanted, want);
            chain := first;
            done, pending := done + [pending.value], None;
          }
          ok, first, pending := NextChar(ret, chain, negated, start, done, wanted, want);
          if !ok {
            return;
          }
        }
      }
      BuildingBounds(nodes, ret, negated, done, pending, chain, first);
      if first != -1 {
        LinkMember(ret, chain, first, negated, start, done, pending.value, wanted, want);
        chain := first;
        done := done + [pending.value];
      }
      if wanted {
        TrackEnds(pat, start, ret + 1, p, want, done);
      }
      return true, done, chain;
    }

    /** One turn of the loop at a "-" behind a character. */
    method NextRange(ret: nat, chain: int, first: int, ghost negated: bool, ghost start: nat, ghost done: seq<Item>, ghost low: Item,
                     ghost wanted: bool, ghost want: seq<Item>)
        returns (r: int, ok: bool, ghost all: seq<Item>)
      requires Valid() && start <= p && Peek() == '-'
      requires SetBuilding(nodes, ret, negated, done, Some(low), chain, first)
      requires SetRead(pat, start, p, done + [low]) && ItemsFit(done, ret + 1)
      requires wanted ==> WantsItems(pat, start, ret + 1, want) && OnTrack(start, p, want, done, Some(low))
      modifies this`p, this`nodes, this`nsubexpr
      ensures Valid()
      ensures wanted ==> ok
      ensures ok ==>
                && old(p) < p && SetBuilding(nodes, ret, negated, all, None, r, -1)
                && SetRead(pat, start, p, all) && all != [] && all[|all| - 1].Range?
                && ItemsFit(all, ret + 1)
                && ret < |nodes| && forall k :: 0 <= k < ret ==> nodes[k] == old(nodes)[k]
      ensures ok && wanted ==> OnTrack(start, p, want, all, None)
    {
      hide SetBuilding, SetRead, ItemAt, ElemAt, WantsItems, OnTrack, ItemsFit, ItemsSize, ItemFits, HighOk, TokText, ItemText;
      ghost var from := p;
      ghost var aim := low;
      if wanted {
        TrackRange(pat, start, ret + 1, p, want, done, low);
        aim := want[|done|];
        HighOfRange(aim);
      }
      ghost var i;
      ok, r, i := ReadRange(ret, chain, first, negated, done, low, aim);
      all := done + [i];
      if !ok {
        return;
      }
      ReadRangeItem(pat, start, from, done, low, p, i);
      MoreFits(done, i, ret + 1);
      BuildingBounds(nodes, ret, negated, all, None, r, -1);
      if wanted {
        RangeEnd(pat, from, p, low, i);
      }
    }

    /** One turn of the loop at a character, the one before it being linked. */
    method NextChar(ret: nat, chain: int, ghost negated: bool, ghost start: nat, ghost done: seq<Item>, ghost wanted: bool, ghost want: seq<Item>)
        returns (ok: bool, first: int, ghost pending: Option<Item>)
      requires Valid() && start <= p && Peek() != ']' && (Peek() == '-' ==> done == [] || done[|done| - 1].Range?)
      requires SetBuilding(nodes, ret, negated, done, None, chain, -1) && SetRead(pat, start, p, done)
      requires wanted ==> WantsItems(pat, start, ret + 1, want) && OnTrack(start, p, want, done, None)
      modifies this`p, this`nodes, this`nsubexpr
      ensures Valid()
      ensures wanted ==> ok
      ensures ok ==>
                && old(p) < p && pending.Some? && !pending.value.Range?
                && SetBuilding(nodes, ret, negated, done, pending, chain, first)
                && SetRead(pat, start, p, done + [pending.value])
                && first != -1 && ret < |nodes| && forall k :: 0 <= k < ret ==> nodes[k] == old(nodes)[k]
      ensures ok && wanted ==> OnTrack(start, p, want, done, pending)
    {
      hide SetBuilding, SetRead, ItemAt, ElemAt, WantsItems, OnTrack, ItemText, ElemText;
      ghost var before, from := nodes, p;
      ghost var aim := Any;
      BuildingBounds(nodes, ret, negated, done, None, chain, -1);
      if wanted {
        TrackChar(pat, start, ret + 1, p, want, done);
        aim := Head(want[|done|]);
        HeadIsChar(want[|done|]);
      }
      ghost var e;
      ok, first, e := CharNode(true, aim);
      pending := None;
      if !ok {
        return;
      }
      pending := Some(ItemOf(e));
      PendingAdded(before, nodes, ret, negated, done, chain, e, first);
      ReadItem(pat, start, from, done, p, e);
    }

    method Class(ghost want: Elem) returns (ok: bool, id: int, ghost e: Elem)
      requires Valid()
      modifies this`p, this`nodes, this`nsubexpr
      ensures Valid()
      ensures ok ==>
                && Peek() == ']' && e.Set? && ElemOk(e) && old(p) < p
                && ElemText(e) == "[" + pat[old(p)..p] + "]"
                && Grown(old(nodes), nodes, Size(e)) && id == |old(nodes)| && ElemAt(nodes, id, e, -1)
                && Fits(e, |old(nodes)|)
      ensures WantsSet(pat, old(p), |old(nodes)|, want) ==> ok && e == want
    {
      hide SetBuilding, ItemsAt, SetRead, ElemAt, ElemOk, ElemText, ItemsSize, WantsSet, WantsItems, ItemsFit;
      ghost var wanted := WantsSet(pat, p, |nodes|, want);
      ghost var aim: seq<Item> := [];
      if wanted {
        SetSpelled(pat, p, |nodes|, want);
        IsSet(pat, p, |nodes|, want);
        aim := want.items;
      }
      e := Any;
      ghost var was, start := nodes, p;
      var negated := false;
      if Peek() == '^' {
        id := NewNode(OP_NCLASS);
        p := p + 1;
        negated := true;
      } else {
        id := NewNode(OP_CLASS);
      }
      if Peek() == ']' {
        return false, id, e;
      }
      SetStarts(nodes, id, negated);
      ghost var from := p;
      ghost var items;
      ghost var last;
      ok, items, last := ReadItems(id, negated, aim);
      if !ok {
        return;
      }
      SetDone(nodes, id, negated, items, last);
      BuildingBounds(nodes, id, negated, items, None, last, -1);
      nodes := nodes[id := nodes[id].(left := nodes[id].next, next := -1)];
      e := Set(negated, items);
      SetParsed(pat, start, p, negated, items);
    }

    method ParseNumber(ghost want: string) returns (ok: bool, n: nat, ghost ds: string)
      requires Valid() && IsDigit(Peek())
      modifies this`p
      ensures Valid() && old(p) < p
      ensures ok ==> NumberOk(ds) && pat[old(p)..p] == ds && n == Number(ds)
      ensures WantsNumber(pat, old(p), want) ==> ok && ds == want
    {
      ghost var start := p;
      ghost var wanted := WantsNumber(pat, p, want);
      n := Peek() as int - '0' as int;
      ds := [pat[p]];
      OneDigit(pat[p]);
      OneChar(pat, p);
      var positions := 10;
      p := p + 1;
      while IsDigit(Peek())
        invariant Valid() && start < p
        invariant Digits(ds) && pat[start..p] == ds && n == Number(ds)
        invariant |ds| <= 9 && positions == Pow10(|ds|)
        invariant wanted ==> |ds| <= |want|
        decreases |pat| - p
      {
        NineDigits(|ds|);
        if wanted {
          NumberGoesOn(pat, start, p, want, ds);
        }
        NumberAppend(ds, Peek());
        n := n * 10 + (Peek() as int - '0' as int);
        ds := ds + [pat[p]];
        p := p + 1;
        if positions == 1000000000 {
          return false, n, ds;
        }
        positions := positions * 10;
      }
      if wanted {
        NumberEnds(pat, start, p, want, ds);
      }
      return true, n, ds;
    }

    /** The "{...}" form of a quantifier. */
    method Braces(ghost want: Quant) returns (ok: bool, p0: nat, p1: nat, ghost q: Quant)
      requires Valid() && Peek() == '{'
      modifies this`p
      ensures Valid()
      ensures ok ==> old(p) < p && QuantOk(q) && p0 == Low(q) && p1 == High(q) && pat[old(p)..p] == QuantText(q)
      ensures WantsBraces(pat, old(p), want) ==> ok && q == want
    {
      hide Number, Short, Digits, WantsBraces, WantsNumber;
      ghost var start := p;
      if WantsBraces(pat, p, want) {
        BracesSpelled(pat, p, want);
        NumberStarts(pat, p + 1, FirstNumber(want));
      }
      p0, p1, q := 0, 0, Star;
      p := p + 1;
      if !IsDigit(Peek()) {
        return false, p0, p1, q;
      }
      var n;
      ghost var ds;
      ok, n, ds := ParseNumber(FirstNumber(want));
      if !ok {
        return;
      }
      p0 := Short(n);
      OneChar(pat, start);
      ExtendText(pat, start, start + 1, p, "{", ds);
      ok, p1, q := UpperBound(p0, start, ds, want);
    }

    /** The rest of "{...}", after the first number. */
    method UpperBound(p0: nat, ghost start: nat, ghost ds: string, ghost want: Quant) returns (ok: bool, p1: nat, ghost q: Quant)
      requires Valid() && start < p && NumberOk(ds) && p0 == Count(ds) && pat[start..p] == "{" + ds
      modifies this`p
      ensures Valid()
      ensures ok ==> old(p) < p && QuantOk(q) && p0 == Low(q) && p1 == High(q) && pat[start..p] == QuantText(q)
      ensures WantsBraces(pat, start, want) && ds == FirstNumber(want) ==> ok && q == want
    {
      hide Number, Short, Digits, WantsBraces, WantsNumber, Spells;
      if WantsBraces(pat, start, want) && ds == FirstNumber(want) {
        BracesSpelled(pat, start, want);
        IsBraces(pat, start, want);
        SameEnd(pat, start, p, "{" + ds);
      }
      q := Exactly(ds);
      if Peek() == '}' {
        ExtendChar(pat, start, p, "{" + ds);
        p := p + 1;
        return true, p0, q;
      } else if Peek() == ',' {
        ExtendChar(pat, start, p, "{" + ds);
        p := p + 1;
        ok, p1, q := AfterComma(start, ds, want);
        return;
      }
      return false, 0, q;
    }

    /** "{n," may be followed by a second number, and must be by "}". */
    method AfterComma(ghost start: nat, ghost ds: string, ghost want: Quant) returns (ok: bool, p1: nat, ghost q: Quant)
      requires Valid() && start < p && NumberOk(ds) && pat[start..p] == "{" + ds + ","
      modifies this`p
      ensures Valid()
      ensures ok ==> old(p) < p && QuantOk(q) && Count(ds) == Low(q) && p1 == High(q) && pat[start..p] == QuantText(q)
      ensures want == AtLeast(ds) && Spells(pat, old(p), "}") ==> ok && q == want
      ensures want.Between? && want.n == ds && WantsNumber(pat, old(p), want.m) && Spells(pat, old(p) + |want.m|, "}") ==> ok && q == want
    {
      hide Number, Short, Digits, WantsNumber, Spells;
      if Spells(pat, p, "}") {
        SpellsFirst(pat, p, "}");
      }
      if want.Between? && WantsNumber(pat, p, want.m) {
        NumberStarts(pat, p, want.m);
        if Spells(pat, p + |want.m|, "}") {
          SpellsFirst(pat, p + |want.m|, "}");
        }
      }
      p1 := 0xFFFF;
      q := AtLeast(ds);
      ghost var text := "{" + ds + ",";
      if IsDigit(Peek()) {
        ghost var mid := p;
        var n;
        ghost var ds2;
        ok, n, ds2 := ParseNumber(if want.Between? then want.m else "");
        if !ok {
          return;
        }
        p1 := Short(n);
        q := Between(ds, ds2);
        ExtendText(pat, start, mid, p, text, ds2);
        text := text + ds2;
      }
      ok := Expect('}');
      if ok {
        ExtendChar(pat, start, p - 1, text);
      }
    }

    /** The optional quantifier after an element. */
    method Quantifier(ghost want: Option<Quant>) returns (ok: bool, isgreedy: bool, p0: nat, p1: nat, ghost q: Quant)
      requires Valid()
      modifies this`p
      ensures Valid()
      ensures ok && isgreedy ==> old(p) < p && QuantOk(q) && p0 == Low(q) && p1 == High(q) && pat[old(p)..p] == QuantText(q)
      ensures ok && !isgreedy ==> p == old(p) && Peek() !in "*+?{"
      ensures want.Some? && QuantOk(want.value) && Spells(pat, old(p), QuantText(want.value)) ==> ok && isgreedy && q == want.value
      ensures want.None? && NoQuantifier(pat, old(p)) ==> ok && !isgreedy
    {
      hide QuantText, QuantOk, Low, High, Spells;
      if want.Some? && QuantOk(want.value) && Spells(pat, p, QuantText(want.value)) {
        QuantSpelled(pat, p, want.value);
      }
      SimpleQuants();
      if p < |pat| {
        OneChar(pat, p);
      }
      p0, p1, q, isgreedy := 0, 0, Star, true;
      if Peek() == '*' {
        p0, p1, q := 0, 0xFFFF, Star;
        p := p + 1;
      } else if Peek() == '+' {
        p0, p1, q := 1, 0xFFFF, Plus;
        p := p + 1;
      } else if Peek() == '?' {
        p0, p1, q := 0, 1, Maybe;
        p := p + 1;
      } else if Peek() == '{' {
        ok, p0, p1, q := Braces(if want.Some? then want.value else Star);
        return;
      } else {
        isgreedy := false;
      }
      return true, isgreedy, p0, p1, q;
    }

    /** What a successful call has read and built. */
    ghost predicate ReadElem(was: seq<Node>, start: nat, id: int, e: Elem)
      reads this
    {
      && start < p <= |pat| && ElemOk(e) && pat[start..p] == ElemText(e)
      && Grown(was, nodes, Size(e)) && ElemAt(nodes, |was|, e, -1) && id == Root(e, |was|) && Fits(e, |was|)
    }

    ghost predicate ReadList(was: seq<Node>, start: nat, id: int, c: List)
      reads this
    {
      && start < p <= |pat| && pat[start..p] == ListText(c)
      && Grown(was, nodes, ListSize(c)) && ListAt(nodes, |was|, c) && id == ListRoot(c, |was|) && ListFits(c, |was|)
    }

    /** "(" or "(?:". */
    method OpenGroup() returns (ok: bool, expr: int, ghost capture: bool)
      requires Valid() && Peek() == '('
      modifies this`p, this`nodes, this`nsubexpr
      ensures Valid()
      ensures ok ==>
                && old(p) < p && pat[old(p)..p] == (if capture then "(" else "(?:")
                && expr == |old(nodes)| && |nodes| == expr + 1 && nodes[..expr] == old(nodes)
                && nodes[expr].kind == (if capture then OP_EXPR else OP_NOCAPEXPR) && nodes[expr].next == -1
                && (capture ==> Peek() != '?')
      ensures !(old(p) + 1 < |pat| && pat[old(p) + 1] == '?') ==> ok && capture
      ensures old(p) + 2 < |pat| && pat[old(p) + 1] == '?' && pat[old(p) + 2] == ':' ==> ok && !capture
    {
      expr := -1;
      p := p + 1;
      if Peek() == '?' {
        p := p + 1;
        ok := Expect(':');
        if !ok {
          return false, expr, false;
        }
        expr := NewNode(OP_NOCAPEXPR);
        return true, expr, false;
      }
      expr := NewNode(OP_EXPR);
      return true, expr, true;
    }

    /** A parenthesised list. */
    method ParseGroup(ghost want: Elem) returns (ok: bool, ret: int, ghost e: Elem)
      requires Valid() && Peek() == '('
      modifies this`p, this`nodes, this`nsubexpr
      ensures Valid()
      ensures ok ==> ReadElem(old(nodes), old(p), ret, e) && IsAtom(e)
      ensures want.Group? && WantsElem(pat, old(p), |old(nodes)|, want) ==> ok && e == want
      decreases |pat| - p, 1
    {
      hide ListOk, ListText, ListAt, ElemText, ElemOk, ElemAt, WantsElem, WantsList, ListFits, Spells;
      ghost var start, was := p, nodes;
      ghost var wanted := want.Group? && WantsElem(pat, p, |nodes|, want);
      ghost var aim := Last(Any);
      if wanted {
        GroupSpelled(pat, p, |nodes|, want);
        aim := want.body;
      }
      e := Any;
      ret := -1;
      var expr;
      ghost var capture;
      ok, expr, capture := OpenGroup();
      if !ok {
        return;
      }
      ghost var from, before := p, nodes;
      ghost var body;
      var newn;
      ok, newn, body := List(aim);
      if !ok {
        return;
      }
      assert capture ==> ListText(body)[0] == pat[from];
      GroupBuilt(before, nodes, capture, body);
      GroupOk(body, capture);
      assert before[..|before| - 1] == was;
      nodes := nodes[expr := nodes[expr].(left := newn)];
      ret := expr;
      e := Group(capture, body);
      ExtendText(pat, start, from, p, if capture then "(" else "(?:", ListText(body));
      if wanted {
        SameEnd(pat, from, p, ListText(body));
        SpellsFirst(pat, p, ")");
      }
      ok := Expect(')');
      if ok {
        ExtendChar(pat, start, p - 1, (if capture then "(" else "(?:") + ListText(body));
      }
    }

    /** The switch of `trex_element`. */
    method Atom(ghost want: Elem) returns (ok: bool, ret: int, ghost e: Elem)
      requires Valid()
      modifies this`p, this`nodes, this`nsubexpr
      ensures Valid()
      ensures ok ==> ReadElem(old(nodes), old(p), ret, e) && IsAtom(e)
      ensures IsAtom(want) && WantsElem(pat, old(p), |old(nodes)|, want) ==> ok && e == want
      decreases |pat| - p, 2
    {
      hide ElemOk, WantsElem, WantsSet, ElemAt, Spells, ElemText;
      ghost var start := p;
      ghost var wanted := IsAtom(want) && WantsElem(pat, p, |nodes|, want);
      if wanted {
        AtomSpelled(pat, p, |nodes|, want);
      }
      SimpleOk();
      if Peek() == '(' {
        ok, ret, e := ParseGroup(want);
      } else if Peek() == '[' {
        ok, ret, e := ParseSet(want);
      } else if Peek() == '$' {
        p := p + 1;
        ret := NewNode(OP_EOL);
        SimpleRead(nodes, ret, End);
        assert pat[start..p] == ElemText(End);
        return true, ret, End;
      } else if Peek() == '.' {
        p := p + 1;
        ret := NewNode(OP_DOT);
        SimpleRead(nodes, ret, Any);
        return true, ret, Any;
      } else {
        if wanted {
          CharWanted(pat, p, |nodes|, want);
        }
        ok, ret, e := CharNode(false, want);
        if ok {
          CharOk(pat, start, p, e);
          CharIsSimple(e);
        }
      }
    }

    /** A class with its brackets. */
    method ParseSet(ghost want: Elem) returns (ok: bool, ret: int, ghost e: Elem)
      requires Valid() && Peek() == '['
      modifies this`p, this`nodes, this`nsubexpr
      ensures Valid()
      ensures ok ==> ReadElem(old(nodes), old(p), ret, e) && IsAtom(e)
      ensures want.Set? && WantsElem(pat, old(p), |old(nodes)|, want) ==> ok && e == want
    {
      hide ElemOk, WantsElem, WantsSet, ElemAt, Spells, ElemText, Fits, Size;
      ghost var start := p;
      if want.Set? && WantsElem(pat, p, |nodes|, want) {
        SetInBrackets(pat, p, |nodes|, want);
      }
      p := p + 1;
      ok, ret, e := Class(want);
      if !ok {
        return;
      }
      assert pat[start..p + 1] == "[" + pat[start + 1..p] + "]";
      ok := Expect(']');
    }

    method Element(ghost want: List) returns (ok: bool, ret: int, ghost c: List)
      requires Valid()
      modifies this`p, this`nodes, this`nsubexpr
      ensures Valid()
      ensures ok ==> ReadList(old(nodes), old(p), ret, c) && ElemsOk(c)
      ensures WantsElems(pat, old(p), |old(nodes)|, want) ==> ok && c == want
      decreases |pat| - p, 4
    {
      hide ElemText, ListText, ElemOk, ElemAt, ListAt, ElemsOk, WantsElems, WantsElem, Fits, Spells, ListSize, ListRoot, ListFits, Size, Root;
      ghost var start, was := p, nodes;
      ghost var wanted := WantsElems(pat, p, |nodes|, want);
      if wanted {
        ElemsSpelled(pat, p, |nodes|, want);
      }
      ghost var e;
      c := Last(Any);
      ok, ret, e := QuantifiedAtom(want.e);
      if !ok {
        return;
      }
      if wanted {
        SameEnd(pat, start, p, ElemText(e));
      }
      if Peek() != '|' && Peek() != ')' && Peek() != '*' && Peek() != '+' && Peek() != NUL {
        ghost var from, before := p, nodes;
        ghost var rest;
        var nnode;
        ok, nnode, rest := Element(if want.More? then want.rest else want);
        if !ok {
          return;
        }
        MoreOk(e, rest, pat[from]);
        MoreBuilt(before, nodes, |was|, e, rest);
        MoreRead(e, rest, |was|);
        ExtendText(pat, start, from, p, ElemText(e), ListText(rest));
        nodes := nodes[ret := nodes[ret].(next := nnode)];
        c := More(e, rest);
      } else {
        c := Last(e);
        LastOk(e, nodes, |was|);
        LastRead(e, |was|);
      }
    }

    /** An element with its quantifier; without one, no quantifier follows. */
    method QuantifiedAtom(ghost want: Elem) returns (ok: bool, ret: int, ghost e: Elem)
      requires Valid()
      modifies this`p, this`nodes, this`nsubexpr
      ensures Valid()
      ensures ok ==> ReadElem(old(nodes), old(p), ret, e) && !e.Begin? && !e.Either? && (!e.Rep? ==> Peek() !in "*+?{")
      ensures WantsQuantified(pat, old(p), |old(nodes)|, want) ==> ok && e == want
      decreases |pat| - p, 3
    {
      hide ElemText, ElemOk, ElemAt, Low, High, QuantOk, QuantText, WantsElem, Spells, NoQuantifier, Fits, Size;
      ghost var start, was := p, nodes;
      ghost var aim, quant := want, None;
      if WantsQuantified(pat, p, |nodes|, want) {
        QuantifiedSpelled(pat, p, |nodes|, want);
        if want.Rep? {
          aim, quant := want.e, Some(want.q);
        }
      }
      ok, ret, e := Atom(aim);
      if !ok {
        return;
      }
      SameEnd(pat, start, p, ElemText(e));
      ghost var from := p;
      var isgreedy, p0, p1;
      ghost var q;
      ok, isgreedy, p0, p1, q := Quantifier(quant);
      if !ok {
        return;
      }
      if isgreedy {
        ghost var before := nodes;
        var nnode := NewNode(OP_GREEDY);
        nodes := nodes[nnode := nodes[nnode].(left := ret, right := p0 * 0x10000 + p1)];
        RepBuilt(before, nodes, |was|, e, q);
        RepOk(e, q);
        RepNodes(e, q, |was|);
        ExtendText(pat, start, from, p, ElemText(e), QuantText(q));
        ret := nnode;
        e := Rep(e, q);
      }
    }

    method List(ghost want: List) returns (ok: bool, ret: int, ghost c: List)
      requires Valid()
      modifies this`p, this`nodes, this`nsubexpr
      ensures Valid()
      ensures ok ==> ReadList(old(nodes), old(p), ret, c) && ListOk(c)
      ensures WantsList(pat, old(p), |old(nodes)|, want) ==> ok && c == want
      decreases |pat| - p, 6
    {
      hide ListText, ListOk, SequenceOk, ListAt, WantsList, WantsSequence, ListFits, Spells;
      ghost var start, was := p, nodes;
      ghost var wanted, either := WantsList(pat, p, |nodes|, want), want.Last? && want.e.Either?;
      if wanted {
        ListSpelled(pat, p, |nodes|, want);
      }
      ok, ret, c := Sequence(if either then want.e.l else want);
      if !ok {
        return;
      }
      SameEnd(pat, start, p, ListText(c));
      ListCases(c);
      if Peek() == '|' {
        ok, ret, c := Branch(ret, c, was, start, if either then want.e.r else want);
      }
    }

    /** The part of `trex_list` from a "|" on. */
    method Branch(left: int, ghost l: List, ghost was: seq<Node>, ghost start: nat, ghost want: List)
        returns (ok: bool, ret: int, ghost c: List)
      requires Valid() && Peek() == '|' && ReadList(was, start, left, l) && SequenceOk(l)
      modifies this`p, this`nodes, this`nsubexpr
      ensures Valid()
      ensures ok ==> ReadList(was, start, ret, c) && ListOk(c)
      ensures WantsList(pat, old(p) + 1, |old(nodes)| + 1, want) ==> ok && c == Last(Either(l, want))
      decreases |pat| - p, 6
    {
      hide ListText, ListOk, SequenceOk, ListAt, WantsList, ListFits;
      ghost var bar, before := p, nodes;
      p := p + 1;
      var temp := NewNode(OP_OR);
      nodes := nodes[temp := nodes[temp].(left := left)];
      ghost var r;
      var tright;
      ok, tright, r := List(want);
      ret, c := temp, Last(Either(l, r));
      if !ok {
        return;
      }
      EitherBuilt(before, nodes, |was|, l, r);
      EitherCases(l, r);
      EitherFits(l, r, |was|);
      ExtendChar(pat, start, bar, ListText(l));
      ExtendText(pat, start, bar + 1, p, ListText(l) + "|", ListText(r));
      nodes := nodes[temp := nodes[temp].(right := tright)];
    }

    /** The part of `trex_list` before a "|". */
    method Sequence(ghost want: List) returns (ok: bool, ret: int, ghost c: List)
      requires Valid()
      modifies this`p, this`nodes, this`nsubexpr
      ensures Valid()
      ensures ok ==> ReadList(old(nodes), old(p), ret, c) && SequenceOk(c)
      ensures WantsSequence(pat, old(p), |old(nodes)|, want) ==> ok && c == want
      decreases |pat| - p, 5
    {
      hide ListText, ElemsOk, SequenceOk, ListAt, WantsSequence, WantsElems, Spells, ListFits, ListSize;
      ghost var start, was := p, nodes;
      if WantsSequence(pat, p, |nodes|, want) {
        SequenceSpelled(pat, p, |nodes|, want);
      }
      ghost var begin := false;
      ret := -1;
      if Peek() == '^' {
        p := p + 1;
        ret := NewNode(OP_BOL);
        begin := true;
        OneChar(pat, start);
      }
      ghost var from, before := p, nodes;
      var e;
      ok, e, c := Element(if begin && want.More? then want.rest else want);
      if !ok {
        return;
      }
      assert pat[from..p][0] == pat[from];
      assert ListText(c)[0] == pat[from];
      SequenceStarts(c, begin);
      if ret != -1 {
        MoreBuilt(before, nodes, |was|, Begin, c);
        ExtendText(pat, start, from, p, "^", ListText(c));
        BeginRead(c, |was|);
        nodes := nodes[ret := nodes[ret].(next := e)];
        c := More(Begin, c);
      } else {
        ret := e;
      }
    }
  }

  /** An element, maybe with its quantifier, stands at p. */
  ghost predicate WantsQuantified(pat: string, p: nat, lo: nat, want: Elem) {
    && WantsElem(pat, p, lo, want) && !want.Begin? && !want.Either?
    && (want.Rep? || NoQuantifier(pat, p + |ElemText(want)|))
  }

  lemma {:induction false} QuantifiedSpelled(pat: string, p: nat, lo: nat, want: Elem)
    requires WantsQuantified(pat, p, lo, want)
    ensures want.Rep? ==>
              && IsAtom(want.e) && WantsElem(pat, p, lo, want.e)
              && QuantOk(want.q) && Spells(pat, p + |ElemText(want.e)|, QuantText(want.q))
    ensures !want.Rep? ==> IsAtom(want) && NoQuantifier(pat, p + |ElemText(want)|)
  {
    hide WantsElem, Spells;
    if want.Rep? {
      RepSpelled(pat, p, lo, want);
    }
  }

  lemma {:induction false} RepNodes(e: Elem, q: Quant, lo: nat)
    ensures Size(Rep(e, q)) == Size(e) + 1 && Root(Rep(e, q), lo) == lo + Size(e) && (Fits(Rep(e, q), lo) <==> Fits(e, lo))
  {
  }

  lemma {:induction false} MoreRead(e: Elem, rest: List, lo: nat)
    ensures ListSize(More(e, rest)) == Size(e) + ListSize(rest) && ListRoot(More(e, rest), lo) == Root(e, lo)
    ensures ListFits(More(e, rest), lo) <==> Fits(e, lo) && ListFits(rest, lo + Size(e))
  {
  }

  lemma {:induction false} LastRead(e: Elem, lo: nat)
    ensures ListSize(Last(e)) == Size(e) && ListRoot(Last(e), lo) == Root(e, lo) && (ListFits(Last(e), lo) <==> Fits(e, lo))
  {
  }

  lemma {:induction false} BeginRead(c: List, lo: nat)
    ensures ListText(More(Begin, c)) == "^" + ListText(c) && ListSize(More(Begin, c)) == 1 + ListSize(c)
    ensures ListRoot(More(Begin, c), lo) == lo && (ListFits(More(Begin, c), lo) <==> ListFits(c, lo + 1))
  {
    BeginText(c);
  }

  lemma {:induction false} EitherFits(l: List, r: List, lo: nat)
    requires ListFits(l, lo) && ListFits(r, lo + ListSize(l) + 1)
    ensures ListFits(Last(Either(l, r)), lo)
  {
    assert Fits(Either(l, r), lo);
  }

  lemma {:induction false} SimpleRead(nodes: seq<Node>, id: int, e: Elem)
    requires 0 <= id == |nodes| - 1 && (e == End || e == Any)
    requires nodes[id] == Node(if e.End? then OP_EOL else OP_DOT, -1, -1, -1)
    ensures ElemAt(nodes, id, e, -1) && ElemText(e) == if e.End? then "$" else "."
  {
  }

  lemma {:induction false} CharIsSimple(e: Elem)
    requires CharNodeAt(e, false)
    ensures Size(e) == 1 && (forall lo: nat :: Root(e, lo) == lo && Fits(e, lo)) && IsAtom(e)
  {
  }

  lemma {:induction false} CharWanted(pat: string, p: nat, lo: nat, want: Elem)
    requires WantsElem(pat, p, lo, want) && (want.Lit? || want.CharKind? || want.Boundary?)
    ensures CharNodeAt(want, false) && Spells(pat, p, ElemText(want))
  {
  }

  // ---------------------------------------------------------------- trex_compile

  /** Compiles a pattern: it succeeds if and only if the pattern is the spelling of a
      tree of the grammar whose ranges are allowed, and the node array is then the
      layout of such a tree. */
  method Compile(pattern: string, icase: bool) returns (r: Option<Rex>, ghost body: List)
    requires PatternOk(pattern)
    ensures r.Some? <==> exists c :: Spelling(c, pattern)
    ensures r.Some? ==>
              && Spelling(body, pattern)
              && ElemAt(r.value.nodes, 0, Group(true, body), -1)
              && |r.value.nodes| == Size(Group(true, body)) && r.value.icase == icase
  {
    hide Spelling;
    ghost var want := Last(Any);
    if c :| Spelling(c, pattern) {
      want := c;
    }
    r, body := CompileTo(pattern, icase, want);
  }

  /** Given any tree that spells the pattern, that tree is what is compiled. */
  method CompileTo(pattern: string, icase: bool, ghost want: List) returns (r: Option<Rex>, ghost body: List)
    requires PatternOk(pattern)
    ensures r.Some? ==>
              && Spelling(body, pattern)
              && ElemAt(r.value.nodes, 0, Group(true, body), -1)
              && |r.value.nodes| == Size(Group(true, body)) && r.value.icase == icase
    ensures Spelling(want, pattern) ==> r.Some? && body == want
  {
    hide ListOk, ListText, ListAt, ListFits, WantsList;
    var exp := new Compiler(pattern);
    var first := exp.NewNode(OP_EXPR);
    if Spelling(want, pattern) {
      WholePattern(want, pattern);
    }
    var ok, res;
    ghost var before := exp.nodes;
    ok, res, body := exp.List(want);
    if !ok {
      return None, body;
    }
    GroupBuilt(before, exp.nodes, true, body);
    exp.nodes := exp.nodes[first := exp.nodes[first].(left := res)];
    if exp.Peek() != NUL {
      return None, body;
    }
    assert pattern[0..exp.p] == pattern;
    return Some(Rex(exp.nodes, icase)), body;
  }

  lemma {:induction false} WholePattern(want: List, pattern: string)
    requires Spelling(want, pattern)
    ensures WantsList(pattern, 0, 1, want)
  {
    assert pattern[0..|pattern|] == pattern;
  }

  /** Compiling and matching, as `arg_rex` does it for every argument value. */
  method MatchPattern(pattern: string, icase: bool, text: Text) returns (b: bool, ghost body: List)
    requires PatternOk(pattern)
    ensures b ==> Spelling(body, pattern) && ListMatches(body, text, icase, 0, |text.str|)
    ensures Spelling(body, pattern) && (RigidList(body) || ListSure(body, text, icase)) ==>
              (b <==> ListMatches(body, text, icase, 0, |text.str|))
    ensures Spelling(body, pattern) && (Decided(body) || Ending(body, text, icase)) ==> (b <==> ListReaches(body, text, icase, 0))
    ensures Spelling(body, pattern) && AllRigid(Alternatives(body)) ==>
              (b <==> FirstSpans(Alternatives(body), text, icase, 0, |text.str|))
    ensures (exists c :: Spelling(c, pattern)) ==> Spelling(body, pattern)
  {
    hide Spelling, ElemAt, ListMatches, RigidList, Decided, ListReaches, ListSure, Ending, AllRigid, Alternatives, FirstSpans, ListAnswer;
    var rex;
    rex, body := Compile(pattern, icase);
    if rex == None {
      return false, body;
    }
    b := Match(rex.value, text, body);
  }
}
