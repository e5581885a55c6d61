/** The T-Rex matcher: `trex_matchclass`, `trex_matchnode` and `trex_match` of
    lib/argtable/argtable3.c.  The methods walk the node array; ghost arguments
    name the tree that the array represents.  Every call is shown to terminate
    and to accept only what the tree matches. */
module TrexMatch {
  import opened Wrappers
  import opened TrexSyntax
  import opened TrexSemantics
  import opened TrexAnswers
  import opened TrexLaws

  /** A compiled pattern. */
  datatype Rex = Rex(nodes: seq<Node>, icase: bool)

  // ---------------------------------------------------------------- sets

  lemma {:induction false} ItemsAtIndex(nodes: seq<Node>, lo: nat, items: seq<Item>, next: int, k: nat)
    requires ItemsAt(nodes, lo, items, next) && k < |items|
    ensures ItemAt(nodes, lo + ItemsSize(items[..k]), items[k],
                   if k + 1 < |items| then ItemRoot(items[k + 1], lo + ItemsSize(items[..k + 1])) else next)
  {
    var before := items[..|items| - 1];
    if k < |before| {
      ItemsAtIndex(nodes, lo, before, ItemRoot(items[|items| - 1], lo + ItemsSize(before)), k);
      assert before[..k] == items[..k] && before[..k + 1] == items[..k + 1];
    } else {
      assert items[..k] == before && items[..k + 1] == items;
    }
  }

  /** One turn of the loop of `trex_matchclass`. */
  method MatchMember(exp: Rex, n: Node, c: char, ghost lo: nat, ghost i: Item, ghost next: int) returns (r: bool)
    requires ItemAt(exp.nodes, lo, i, next) && n == exp.nodes[ItemRoot(i, lo)]
    ensures r == InItem(i, c, exp.icase)
  {
    if n.kind == OP_RANGE {
      var left, right := n.left as char, n.right as char;
      if exp.icase {
        if c >= ToUpper(left) && c <= ToUpper(right) { return true; }
        if c >= ToLower(left) && c <= ToLower(right) { return true; }
      } else {
        if c >= left && c <= right { return true; }
      }
    } else if n.kind == OP_CCLASS {
      if InKind(n.left, c) { return true; }
    } else {
      var ch := n.kind as char;
      if exp.icase {
        if c == ToLower(ch) || c == ToUpper(ch) { return true; }
      } else {
        if c == ch { return true; }
      }
    }
    return false;
  }

  method MatchClass(exp: Rex, first: int, c: char, ghost lo: nat, ghost items: seq<Item>) returns (r: bool)
    requires items != [] && ItemsAt(exp.nodes, lo, items, -1) && first == FirstItem(items, lo)
    ensures r == InItems(items, c, exp.icase)
  {
    var node := first;
    ghost var k := 0;
    assert items[..0] == [];
    while true
      invariant 0 <= k < |items| && node == ItemRoot(items[k], lo + ItemsSize(items[..k]))
      invariant forall j :: 0 <= j < k ==> !InItem(items[j], c, exp.icase)
      decreases |items| - k
    {
      ItemsAtIndex(exp.nodes, lo, items, -1, k);
      var n := exp.nodes[node];
      var hit := MatchMember(exp, n, c, lo + ItemsSize(items[..k]), items[k], n.next);
      if hit {
        return true;
      }
      if n.next == -1 {
        return false;
      }
      node := n.next;
      k := k + 1;
    }
  }

  // ---------------------------------------------------------------- single nodes

  method MatchSingle(exp: Rex, id: int, t: Text, str: nat, ghost lo: nat, ghost e: Elem, ghost next: int) returns (r: Option<nat>)
    requires IsSingle(e) && ElemAt(exp.nodes, lo, e, next) && id == Root(e, lo)
    ensures r == SingleEnd(e, t, exp.icase, str)
  {
    hide ItemsAt, InItems;
    var node := exp.nodes[id];
    if node.kind == OP_WB {
      if || (str == 0 && !IsSpace(t.At(str)))
         || (str == |t.str| && !IsSpace(t.At(str - 1)))
         || (!IsSpace(t.At(str)) && IsSpace(t.At(str + 1)))
         || (IsSpace(t.At(str)) && !IsSpace(t.At(str + 1)))
      {
        return if node.left == 'b' as int then Some(str) else None;
      }
      return if node.left == 'b' as int then None else Some(str);
    } else if node.kind == OP_BOL {
      return if str == 0 then Some(str) else None;
    } else if node.kind == OP_EOL {
      return if str == |t.str| then Some(str) else None;
    } else if node.kind == OP_DOT {
      return Some(str + 1);
    } else if node.kind == OP_NCLASS || node.kind == OP_CLASS {
      var hit := MatchClass(exp, node.left, t.At(str), lo + 1, e.items);
      return if (if hit then node.kind == OP_CLASS else node.kind == OP_NCLASS) then Some(str + 1) else None;
    } else if node.kind == OP_CCLASS {
      return if InKind(node.left, t.At(str)) then Some(str + 1) else None;
    } else {
      var ch := node.kind as char;
      if exp.icase {
        if t.At(str) != ToLower(ch) && t.At(str) != ToUpper(ch) { return None; }
      } else {
        if t.At(str) != ch { return None; }
      }
      return Some(str + 1);
    }
  }

  // ---------------------------------------------------------------- what comes after a node

  /** The list that starts at the node passed as `next`, or nothing. */
  datatype Rest = Nothing | Then(lo: nat, c: List)

  ghost function RestId(rest: Rest): int {
    if rest.Then? then ListRoot(rest.c, rest.lo) else -1
  }

  /** `rest` is laid out to the right of `limit`. */
  ghost predicate RestOk(nodes: seq<Node>, rest: Rest, limit: nat) {
    rest.Then? ==> ListAt(nodes, rest.lo, rest.c) && limit <= rest.lo < |nodes|
  }

  /** What follows the first element of a list inside the list. */
  ghost function Tail(lo: nat, c: List): Rest {
    if c.More? then Then(lo + Size(c.e), c.rest) else Nothing
  }

  /** The call `trex_matchnode(exp, id, str, next)`: `id` stands for `e`, its own
      list goes on with `own`, and `next` is that, or nothing, or, for the last
      element of a list, something further right. */
  ghost predicate CallOk(nodes: seq<Node>, id: int, next: int, lo: nat, e: Elem, own: Rest, rest: Rest) {
    && ElemAt(nodes, lo, e, RestId(own)) && id == Root(e, lo)
    && next == RestId(rest)
    && RestOk(nodes, own, lo + Size(e)) && RestOk(nodes, rest, lo + Size(e))
    && (own.Then? ==> rest == own || rest == Nothing)
  }

  lemma {:induction false} ListBound(nodes: seq<Node>, lo: nat, c: List)
    requires ListAt(nodes, lo, c)
    ensures lo + ListSize(c) <= |nodes|
    decreases c
  {
    if c.More? {
      ListBound(nodes, lo + Size(c.e), c.rest);
    }
  }

  /** The first element of a list, called with what follows it. */
  lemma HeadCall(nodes: seq<Node>, lo: nat, c: List, rest: Rest)
    requires ListAt(nodes, lo, c) && RestOk(nodes, rest, lo + ListSize(c))
    ensures CallOk(nodes, ListRoot(c, lo), RestId(Tail(lo, c)), lo, c.e, Tail(lo, c), Tail(lo, c))
    ensures CallOk(nodes, ListRoot(c, lo), -1, lo, c.e, Tail(lo, c), Nothing)
    ensures c.Last? ==> CallOk(nodes, ListRoot(c, lo), RestId(rest), lo, c.e, Nothing, rest)
    ensures 0 <= ListRoot(c, lo) < |nodes| && nodes[ListRoot(c, lo)].next == RestId(Tail(lo, c))
    ensures lo < |nodes| && lo + ListSize(c) <= |nodes|
  {
    if c.More? {
      ListBound(nodes, lo + Size(c.e), c.rest);
    }
    RootNext(nodes, lo, c.e, RestId(Tail(lo, c)));
  }

  lemma RootNext(nodes: seq<Node>, lo: nat, e: Elem, next: int)
    requires ElemAt(nodes, lo, e, next)
    ensures lo + Size(e) <= |nodes| && 0 <= Root(e, lo) < |nodes| && nodes[Root(e, lo)].next == next
  {
  }

  /** The repeated element, called with what follows the repetition. */
  lemma BodyCall(nodes: seq<Node>, id: int, next: int, lo: nat, e: Elem, own: Rest, rest: Rest)
    requires e.Rep? && CallOk(nodes, id, next, lo, e, own, rest)
    ensures 0 <= id < |nodes| && nodes[id].next == RestId(own) && QuantOk(e.q)
    ensures nodes[id].right == Low(e.q) * 0x10000 + High(e.q)
    ensures var stop := if own.Then? then own else rest;
            && RestId(stop) == (if nodes[id].next != -1 then nodes[id].next else next)
            && RestOk(nodes, stop, lo + Size(e))
            && CallOk(nodes, nodes[id].left, RestId(stop), lo, e.e, Nothing, stop)
  {
  }

  // ---------------------------------------------------------------- answers

  ghost function ListOf(rest: Rest): Option<List> {
    if rest.Then? then Some(rest.c) else None
  }

  /** What follows an element: its own list goes on, or something further right. */
  ghost function AfterOf(own: Rest, rest: Rest): Option<List> {
    ListOf(if own.Then? then own else rest)
  }

  lemma Unpack(q: Quant)
    requires QuantOk(q)
    ensures (Low(q) * 0x10000 + High(q)) / 0x10000 % 0x10000 == Low(q)
    ensures (Low(q) * 0x10000 + High(q)) % 0x10000 == High(q)
  {
  }

  /** What the node at `id` looks like, by the kind of tree it stands for. */
  lemma NodeOf(nodes: seq<Node>, id: int, next: int, lo: nat, e: Elem, own: Rest, rest: Rest)
    requires CallOk(nodes, id, next, lo, e, own, rest)
    ensures 0 <= id < |nodes|
    ensures e.Rep? <==> nodes[id].kind == OP_GREEDY
    ensures e.Either? <==> nodes[id].kind == OP_OR
    ensures e.Group? <==> nodes[id].kind == OP_EXPR || nodes[id].kind == OP_NOCAPEXPR
    ensures e.Group? ==> ListAt(nodes, lo + 1, e.body) && nodes[id].left == ListRoot(e.body, lo + 1)
    ensures e.Group? ==> RestOk(nodes, rest, lo + 1 + ListSize(e.body)) && lo + 1 < |nodes|
    ensures e.Either? ==> ListAt(nodes, lo, e.l) && nodes[id].left == ListRoot(e.l, lo)
    ensures e.Either? ==> var m := lo + ListSize(e.l) + 1; ListAt(nodes, m, e.r) && nodes[id].right == ListRoot(e.r, m) && m < |nodes|
  {
    if e.Group? {
      ListBound(nodes, lo + 1, e.body);
    } else if e.Either? {
      ListBound(nodes, lo + ListSize(e.l) + 1, e.r);
    }
  }

  lemma AnswerLaws(e: Elem, after: Option<List>, seen: bool, t: Text, icase: bool, i: nat)
    ensures var r := Answer(e, after, seen, t, icase, i);
            && (r.Some? ==> Spans(e, t, icase, i, r.value))
            && (Rigid(e) ==> forall j: nat :: Spans(e, t, icase, i, j) <==> r == Some(j))
  {
    hide Answer, Spans;
    AnswerSpans(e, after, seen, t, icase, i);
    if Rigid(e) {
      forall j: nat ensures Spans(e, t, icase, i, j) <==> Answer(e, after, seen, t, icase, i) == Some(j) {
        RigidAnswer(e, after, seen, t, icase, i, j);
      }
    }
  }

  method MatchNode(exp: Rex, id: int, t: Text, str: nat, next: int,
                   ghost lo: nat, ghost e: Elem, ghost own: Rest, ghost rest: Rest) returns (r: Option<nat>)
    requires CallOk(exp.nodes, id, next, lo, e, own, rest) && lo < |exp.nodes|
    ensures r == Answer(e, AfterOf(own, rest), rest.Then?, t, exp.icase, str)
    ensures r.Some? ==> Spans(e, t, exp.icase, str, r.value)
    ensures Rigid(e) ==> forall j: nat :: Spans(e, t, exp.icase, str, j) <==> r == Some(j)
    decreases |exp.nodes| - lo, e, 2
  {
    hide ListAt, ElemAt, ListAnswer, Turns, SingleEnd, Spans;
    AnswerLaws(e, AfterOf(own, rest), rest.Then?, t, exp.icase, str);
    NodeOf(exp.nodes, id, next, lo, e, own, rest);
    var node := exp.nodes[id];
    if node.kind == OP_GREEDY {
      r := MatchGreedy(exp, id, t, str, next, lo, e, own, rest);
    } else if node.kind == OP_OR {
      r := MatchSequence(exp, node.left, t, str, false, -1, lo, e.l, Nothing);
      if r.Some? {
        return;
      }
      r := MatchSequence(exp, node.right, t, str, false, -1, lo + ListSize(e.l) + 1, e.r, Nothing);
    } else if node.kind == OP_EXPR || node.kind == OP_NOCAPEXPR {
      r := MatchSequence(exp, node.left, t, str, true, next, lo + 1, e.body, rest);
    } else {
      r := MatchSingle(exp, id, t, str, lo, e, RestId(own));
    }
  }

  /** The loops of OP_EXPR and OP_OR over the nodes of a list; only the former
      hands down what follows. */
  method MatchSequence(exp: Rex, first: int, t: Text, str: nat, lookahead: bool, next: int,
                       ghost lo: nat, ghost c: List, ghost rest: Rest) returns (r: Option<nat>)
    requires ListAt(exp.nodes, lo, c) && first == ListRoot(c, lo) && lo < |exp.nodes|
    requires RestOk(exp.nodes, rest, lo + ListSize(c)) && next == RestId(rest) && (!lookahead ==> rest == Nothing)
    ensures r == ListAnswer(c, lookahead, ListOf(rest), t, exp.icase, str)
    decreases |exp.nodes| - lo, c, 0
  {
    hide ElemAt, CallOk, Answer;
    var n := first;
    var cur := str;
    ghost var d, at := c, lo;
    while true
      invariant ListAt(exp.nodes, at, d) && n == ListRoot(d, at) && lo <= at < |exp.nodes|
      invariant at == lo ==> d == c
      invariant RestOk(exp.nodes, rest, at + ListSize(d))
      invariant ListAnswer(c, lookahead, ListOf(rest), t, exp.icase, str) == ListAnswer(d, lookahead, ListOf(rest), t, exp.icase, cur)
      decreases |exp.nodes| - at
    {
      HeadCall(exp.nodes, at, d, rest);
      var subnext := -1;
      if lookahead {
        subnext := if exp.nodes[n].next != -1 then exp.nodes[n].next else next;
      }
      var res := MatchNode(exp, n, t, cur, subnext, at, d.e, Tail(at, d),
                           if !lookahead then Nothing else if d.More? then Tail(at, d) else rest);
      LastSeen(d.e, rest, lookahead, t, exp.icase, cur);
      if res == None {
        return None;
      }
      if exp.nodes[n].next == -1 {
        return res;
      }
      n := exp.nodes[n].next;
      at, d := at + Size(d.e), d.rest;
      ListBound(exp.nodes, at, d);
      cur := res.value;
    }
  }

  /** With nothing behind an element it makes no difference whether it is seen. */
  lemma LastSeen(e: Elem, rest: Rest, ahead: bool, t: Text, icase: bool, i: nat)
    ensures Answer(e, ListOf(rest), ahead, t, icase, i) == Answer(e, ListOf(rest), ahead && rest.Then?, t, icase, i)
  {
    hide ListAnswer, Turns;
  }

  method MatchGreedy(exp: Rex, id: int, t: Text, str: nat, next: int,
                     ghost lo: nat, ghost e: Elem, ghost own: Rest, ghost rest: Rest) returns (r: Option<nat>)
    requires e.Rep? && CallOk(exp.nodes, id, next, lo, e, own, rest) && lo < |exp.nodes|
    ensures r == Answer(e, AfterOf(own, rest), rest.Then?, t, exp.icase, str)
    decreases |exp.nodes| - lo, e, 1
  {
    hide ElemAt, ListAt, Short, Number, Turns;
    BodyCall(exp.nodes, id, next, lo, e, own, rest);
    Unpack(e.q);
    ghost var after := if own.Then? then own else rest;
    var node := exp.nodes[id];
    var p0, p1 := node.right / 0x10000 % 0x10000, node.right % 0x10000;
    var stop := if node.next != -1 then node.next else next;
    var nmatches, good;
    nmatches, good := MatchTurns(exp, node.left, t, str, stop, next, p0, p1, lo, e, own, rest, after);
    if p0 == p1 && p0 == nmatches { return Some(good); }
    else if nmatches >= p0 && p1 == 0xFFFF { return Some(good); }
    else if nmatches >= p0 && nmatches <= p1 { return Some(good); }
    return None;
  }

  /** The loop of OP_GREEDY: how often the node has matched, and up to where. */
  method MatchTurns(exp: Rex, left: int, t: Text, str: nat, stop: int, next: int, p0: nat, p1: nat,
                    ghost lo: nat, ghost e: Elem, ghost own: Rest, ghost rest: Rest, ghost after: Rest)
      returns (nmatches: nat, good: nat)
    requires e.Rep? && QuantOk(e.q) && p0 == Low(e.q) && p1 == High(e.q) && lo < |exp.nodes|
    requires CallOk(exp.nodes, left, stop, lo, e.e, Nothing, after)
    requires after == (if own.Then? then own else rest) && (own.Then? ==> rest == own || rest == Nothing)
    requires RestOk(exp.nodes, after, lo + Size(e)) && next == RestId(rest) && stop == RestId(after)
    ensures (nmatches, good) == Turns(e.e, e.q, ListOf(after), t, exp.icase, 0, str)
    decreases |exp.nodes| - lo, e, 0
  {
    hide ElemAt, ListAt, CallOk, Low, High, Answer, LooksFor;
    var s := str;
    good, nmatches := str, 0;
    while nmatches == 0xFFFF || nmatches < p1
      invariant 0 <= nmatches <= 0x10000 && good == s && (nmatches <= p1 || p1 == NO_LIMIT)
      invariant Turns(e.e, e.q, ListOf(after), t, exp.icase, 0, str) == Turns(e.e, e.q, ListOf(after), t, exp.icase, nmatches, s)
      decreases 0x10000 - nmatches
    {
      var res := MatchNode(exp, left, t, s, stop, lo, e.e, Nothing, after);
      LastSeen(e.e, after, true, t, exp.icase, s);
      if res == None {
        break;
      }
      s := res.value;
      nmatches := nmatches + 1;
      good := s;
      if stop != -1 {
        var found := LookAhead(exp, stop, t, s, next, after, rest);
        if found {
          if p0 == p1 && p0 == nmatches { break; }
          else if nmatches >= p0 && p1 == 0xFFFF { break; }
          else if nmatches >= p0 && nmatches <= p1 { break; }
        }
      }
      if s >= |t.str| {
        break;
      }
    }
  }

  /** The test whether what follows a repetition would match here; a node that
      may be skipped altogether is not asked. */
  method LookAhead(exp: Rex, stop: int, t: Text, s: nat, next: int, ghost after: Rest, ghost rest: Rest) returns (found: bool)
    requires after.Then? && stop == RestId(after) && RestOk(exp.nodes, after, 0)
    requires next == RestId(rest) && (rest == Nothing || rest == after)
    ensures found <==> LooksFor(after.c, t, exp.icase, s)
    decreases |exp.nodes| - after.lo, after.c.e, 3
  {
    hide ElemAt, Answer;
    HeadCall(exp.nodes, after.lo, after.c, Nothing);
    ghost var d, tail := after.c.e, Tail(after.lo, after.c);
    NodeOf(exp.nodes, stop, RestId(tail), after.lo, d, tail, tail);
    if d.Rep? {
      BodyCall(exp.nodes, stop, RestId(tail), after.lo, d, tail, tail);
      Unpack(d.q);
    }
    var node := exp.nodes[stop];
    if node.kind != OP_GREEDY || (node.kind == OP_GREEDY && node.right / 0x10000 % 0x10000 != 0) {
      var gnext := node.next;
      if gnext == -1 && next != -1 {
        gnext := exp.nodes[next].next;
      }
      var res := MatchNode(exp, stop, t, s, gnext, after.lo, d, tail, tail);
      LastSeen(d, tail, true, t, exp.icase, s);
      found := res.Some?;
    } else {
      found := false;
    }
  }

  // ---------------------------------------------------------------- trex_match

  /** Whether the whole text is matched.  Whatever is decided on the way, an accepted
      text is in the language.  Exactly the language is accepted where the text leaves no
      choice, or no wrong one; of rigid alternatives only the first that spans anything
      is heard. */
  method Match(exp: Rex, text: Text, ghost body: List) returns (b: bool)
    requires ElemAt(exp.nodes, 0, Group(true, body), -1)
    ensures b <==> ListAnswer(body, true, None, text, exp.icase, 0) == Some(|text.str|)
    ensures b ==> ListMatches(body, text, exp.icase, 0, |text.str|)
    ensures RigidList(body) || ListSure(body, text, exp.icase) ==> (b <==> ListMatches(body, text, exp.icase, 0, |text.str|))
    ensures Decided(body) || Ending(body, text, exp.icase) ==> (b <==> ListReaches(body, text, exp.icase, 0))
    ensures AllRigid(Alternatives(body)) ==> (b <==> FirstSpans(Alternatives(body), text, exp.icase, 0, |text.str|))
  {
    assert |exp.nodes| > 0;
    hide ElemAt, ListAnswer, ListMatches, ListSure, Ending, Decided, FirstSpans, ListReaches, Alternatives;
    var res := MatchNode(exp, 0, text, 0, -1, 0, Group(true, body), Nothing, Nothing);
    AcceptedTexts(body, text, exp.icase);
    return !(res == None || res != Some(|text.str|));
  }

  lemma AcceptedTexts(c: List, t: Text, icase: bool)
    ensures
      var b := ListAnswer(c, true, None, t, icase, 0) == Some(|t.str|);
      && (b ==> ListMatches(c, t, icase, 0, |t.str|))
      && (RigidList(c) || ListSure(c, t, icase) ==> (b <==> ListMatches(c, t, icase, 0, |t.str|)))
      && (Decided(c) || Ending(c, t, icase) ==> (b <==> ListReaches(c, t, icase, 0)))
      && (AllRigid(Alternatives(c)) ==> (b <==> FirstSpans(Alternatives(c), t, icase, 0, |t.str|)))
  {
    hide ListAnswer, ListMatches, ListSpans, ListSure, Ending, Decided, FirstSpans, ListReaches, RigidList, AllRigid, Alternatives;
    ListAnswerSpans(c, true, None, t, icase, 0);
    ListSpansIff(c, t, icase, 0, |t.str|);
    if RigidList(c) {
      RigidListIsSure(c, t, icase);
    }
    if ListSure(c, t, icase) {
      SureExact(c, true, None, t, icase, 0, |t.str|);
    }
    if Decided(c) {
      DecidedIsEnding(c, t, icase);
    }
    if Ending(c, t, icase) {
      EndingExact(c, t, icase, 0);
    }
    if AllRigid(Alternatives(c)) {
      FirstAlternative(c, true, None, t, icase, 0, |t.str|);
    }
  }

  /** "." takes the terminator, so ".*" rejects the empty text although it matches it. */
  lemma DotStarRejectsEmpty(beyond: nat -> char)
    ensures var c, t := Last(Rep(Any, Star)), Text("", beyond);
            Decided(c) && ListMatches(c, t, false, 0, 0) && !ListReaches(c, t, false, 0) && ListAnswer(c, true, None, t, false, 0) == Some(1)
  {
    var t := Text("", beyond);
    assert Repeats(Any, 0, t, false, 0, 0);
    assert Turns(Any, Star, None, t, false, 0, 0) == (1, 1);
  }
}
