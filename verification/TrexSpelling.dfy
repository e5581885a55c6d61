/** What the text at the parser's position must be for a given tree to be read:
    the facts by which `trex_element` and `trex_list` never take a wrong branch
    (lib/argtable/argtable3.c). */
module TrexSpelling {
  import opened Wrappers
  import opened TrexSyntax

  /** The text at p begins with s. */
  ghost predicate Spells(pat: string, p: nat, s: string) {
    p + |s| <= |pat| && pat[p..p + |s|] == s
  }

  lemma {:induction false} SpellsParts(pat: string, p: nat, a: string, b: string)
    ensures Spells(pat, p, a + b) <==> Spells(pat, p, a) && Spells(pat, p + |a|, b)
  {
    if Spells(pat, p, a + b) {
      assert pat[p..p + |a|] == pat[p..p + |a + b|][..|a|];
      assert pat[p + |a|..p + |a| + |b|] == pat[p..p + |a + b|][|a|..];
    }
    if Spells(pat, p, a) && Spells(pat, p + |a|, b) {
      assert pat[p..p + |a + b|] == pat[p..p + |a|] + pat[p + |a|..p + |a| + |b|];
    }
  }

  lemma {:induction false} SpellsFirst(pat: string, p: nat, s: string)
    requires Spells(pat, p, s) && s != ""
    ensures p < |pat| && pat[p] == s[0]
  {
    assert pat[p..p + |s|][0] == pat[p];
  }

  lemma {:induction false} SpellsTwo(pat: string, p: nat, a: char, b: char)
    ensures Spells(pat, p, [a, b]) <==> p + 1 < |pat| && pat[p] == a && pat[p + 1] == b
  {
    if Spells(pat, p, [a, b]) {
      assert pat[p..p + 2][0] == pat[p] && pat[p..p + 2][1] == pat[p + 1];
    }
  }

  /** The characters of a token tell which token it is. */
  lemma {:induction false} TokSpelled(pat: string, p: nat, want: Tok)
    requires HighOk(want) && Spells(pat, p, TokText(want))
    ensures p < |pat| && (pat[p] == '\\' <==> want.Escaped?)
    ensures want.Escaped? ==> p + 1 < |pat| && pat[p + 1] == want.c
    ensures want.Plain? ==> pat[p] == want.c && IsPrint(want.c)
  {
    match want
    case Plain(c) => SpellsFirst(pat, p, [c]);
    case Escaped(c) => SpellsTwo(pat, p, '\\', c);
  }

  /** The tree of the node that `trex_charnode` makes. */
  ghost predicate CharNodeAt(e: Elem, inSet: bool) {
    match e
    case Lit(t) => TokOk(t, inSet)
    case CharKind(k) => k in KINDS
    case Boundary(k) => !inSet && k in "bB"
    case _ => false
  }

  /** The element that `trex_charnode` makes of an escaped character. */
  function EscapedElem(t: char, inSet: bool): Elem {
    if t in KINDS then CharKind(t) else if (t == 'b' || t == 'B') && !inSet then Boundary(t) else Lit(Escaped(t))
  }

  lemma {:induction false} CharSpelled(pat: string, p: nat, want: Elem, inSet: bool)
    requires CharNodeAt(want, inSet) && Spells(pat, p, ElemText(want))
    ensures p < |pat|
    ensures if pat[p] == '\\' then p + 1 < |pat| && want == EscapedElem(pat[p + 1], inSet) else IsPrint(pat[p]) && want == Lit(Plain(pat[p]))
  {
    hide Spells;
    match want
    case Lit(t) => TokSpelled(pat, p, t);
    case CharKind(k) => SpellsTwo(pat, p, '\\', k);
    case Boundary(k) => SpellsTwo(pat, p, '\\', k);
  }

  // ---------------------------------------------------------------- sets

  /** The members of a set, and the bracket that ends it, stand at `start`. */
  ghost predicate WantsItems(pat: string, start: nat, lo: nat, want: seq<Item>) {
    want != [] && ItemsOk(want) && ItemsFit(want, lo) && Spells(pat, start, ItemsText(want) + "]")
  }

  /** The character node that an item begins with. */
  function Head(i: Item): Elem {
    match i
    case Letter(t) => Lit(t)
    case Kind(k) => CharKind(k)
    case Range(lo, _) => Lit(lo)
  }

  function ItemOfHead(i: Item): Item {
    if i.Range? then Letter(i.lo) else i
  }

  /** The position reached when `done` has been read and `pending` is the last
      character node, which is a member of `want` or the low end of one. */
  ghost predicate OnTrack(start: nat, p: nat, want: seq<Item>, done: seq<Item>, pending: Option<Item>) {
    var k := |done|;
    && k <= |want| && done == want[..k]
    && (pending.None? ==> p == start + |ItemsText(done)|)
    && (pending.Some? ==>
          k < |want| && p == start + |ItemsText(done)| + |ItemText(pending.value)| && pending.value == ItemOfHead(want[k]))
  }

  lemma {:induction false} ItemsPrefix(pat: string, start: nat, want: seq<Item>, k: nat)
    requires k <= |want| && Spells(pat, start, ItemsText(want))
    ensures Spells(pat, start, ItemsText(want[..k]))
  {
    if k < |want| {
      var m := |want| - 1;
      SpellsParts(pat, start, ItemsText(want[..m]), ItemText(want[m]));
      ItemsPrefix(pat, start, want[..m], k);
      assert want[..m][..k] == want[..k];
    } else {
      assert want[..k] == want;
    }
  }

  /** The k-th member stands where those before it end; behind the last one stands the bracket. */
  lemma {:induction false} ItemSpelled(pat: string, start: nat, lo: nat, want: seq<Item>, k: nat)
    requires k <= |want| && WantsItems(pat, start, lo, want)
    ensures k < |want| ==> Spells(pat, start + |ItemsText(want[..k])|, ItemText(want[k]))
    ensures
      var q := start + |ItemsText(want[..k])|;
      q < |pat| && pat[q] == if k < |want| then ItemText(want[k])[0] else ']'
  {
    hide ItemsOk, ItemsFit, ItemText;
    SpellsParts(pat, start, ItemsText(want), "]");
    if k < |want| {
      ItemsPrefix(pat, start, want, k + 1);
      assert want[..k + 1][..k] == want[..k];
      SpellsParts(pat, start, ItemsText(want[..k]), ItemText(want[k]));
      SpellsFirst(pat, start + |ItemsText(want[..k])|, ItemText(want[k]));
    } else {
      assert want[..k] == want;
      SpellsFirst(pat, start + |ItemsText(want)|, "]");
    }
  }

  lemma {:induction false} ItemsMore(want: seq<Item>, k: nat)
    requires k < |want|
    ensures ItemsText(want[..k + 1]) == ItemsText(want[..k]) + ItemText(want[k])
  {
    assert want[..k + 1][..k] == want[..k];
  }

  /** What stands behind the head of the k-th member. */
  lemma {:induction false} BehindRange(pat: string, start: nat, lo: nat, want: seq<Item>, k: nat)
    requires k < |want| && WantsItems(pat, start, lo, want) && want[k].Range?
    ensures
      var q := start + |ItemsText(want[..k])| + |TokText(want[k].lo)|;
      q < |pat| && pat[q] == '-' && Spells(pat, q + 1, TokText(want[k].hi))
    ensures Spells(pat, start + |ItemsText(want[..k])|, TokText(want[k].lo))
  {
    hide WantsItems, Spells, ItemsText, TokText;
    ItemSpelled(pat, start, lo, want, k);
    var s := start + |ItemsText(want[..k])|;
    var a, b := TokText(want[k].lo), TokText(want[k].hi);
    SplitThree(pat, s, a, "-", b);
    SpellsFirst(pat, s + |a|, "-");
  }

  lemma {:induction false} BehindSingle(pat: string, start: nat, lo: nat, want: seq<Item>, k: nat)
    requires k < |want| && WantsItems(pat, start, lo, want) && !want[k].Range?
    ensures
      var q := start + |ItemsText(want[..k])| + |ItemText(want[k])|;
      q < |pat| && pat[q] != '-'
  {
    hide Spells, ItemsText, ItemText, ItemOk, ItemsFit;
    ItemsMore(want, k);
    ItemSpelled(pat, start, lo, want, k + 1);
  }

  lemma {:induction false} WantsItem(pat: string, start: nat, lo: nat, want: seq<Item>, k: nat)
    requires k < |want| && WantsItems(pat, start, lo, want)
    ensures ItemOk(want[k]) && ItemFits(want[k], lo + ItemsSize(want[..k]))
  {
    hide ItemOk, ItemFits, Spells, ItemsText, ItemText, ItemsSize;
  }

  lemma {:induction false} OneMore(want: seq<Item>, done: seq<Item>)
    requires |done| < |want| && done == want[..|done|]
    ensures done + [want[|done|]] == want[..|done| + 1]
  {
  }

  lemma {:induction false} TrackRange(pat: string, start: nat, lo: nat, p: nat, want: seq<Item>, done: seq<Item>, low: Item)
    requires WantsItems(pat, start, lo, want) && OnTrack(start, p, want, done, Some(low)) && p < |pat| && pat[p] == '-'
    ensures |done| < |want|
    ensures
      var i := want[|done|];
      && i.Range? && low == Letter(i.lo) && Spells(pat, p + 1, TokText(i.hi)) && ItemOk(i)
      && ItemFits(i, lo + ItemsSize(done))
      && OnTrack(start, p + 1 + |TokText(i.hi)|, want, done + [i], None)
  {
    hide WantsItems, Spells, ItemOk, ItemFits, ItemsText, TokText, ItemsSize;
    var k := |done|;
    WantsItem(pat, start, lo, want, k);
    OneMore(want, done);
    ItemsMore(want, k);
    if want[k].Range? {
      BehindRange(pat, start, lo, want, k);
    } else {
      BehindSingle(pat, start, lo, want, k);
    }
  }

  /** The pending member is complete when no "-" follows. */
  lemma {:induction false} TrackLinked(pat: string, start: nat, lo: nat, p: nat, want: seq<Item>, done: seq<Item>, x: Item)
    requires WantsItems(pat, start, lo, want) && OnTrack(start, p, want, done, Some(x)) && !(p < |pat| && pat[p] == '-')
    ensures OnTrack(start, p, want, done + [x], None)
  {
    hide WantsItems, Spells, ItemsText, TokText;
    var k := |done|;
    OneMore(want, done);
    ItemsMore(want, k);
    if want[k].Range? {
      BehindRange(pat, start, lo, want, k);
    }
  }

  lemma {:induction false} TrackChar(pat: string, start: nat, lo: nat, p: nat, want: seq<Item>, done: seq<Item>)
    requires WantsItems(pat, start, lo, want) && OnTrack(start, p, want, done, None) && !(p < |pat| && pat[p] == ']')
    ensures |done| < |want|
    ensures
      var i := want[|done|];
      && ItemOk(i) && Spells(pat, p, ElemText(Head(i)))
      && OnTrack(start, p + |ElemText(Head(i))|, want, done, Some(ItemOfHead(i)))
  {
    hide WantsItems, Spells, ItemsText, TokText, ItemOk;
    ItemSpelled(pat, start, lo, want, |done|);
    var k := |done|;
    WantsItem(pat, start, lo, want, k);
    if want[k].Range? {
      BehindRange(pat, start, lo, want, k);
    }
  }

  lemma {:induction false} TrackEnds(pat: string, start: nat, lo: nat, p: nat, want: seq<Item>, done: seq<Item>)
    requires WantsItems(pat, start, lo, want) && OnTrack(start, p, want, done, None) && p < |pat| && pat[p] == ']'
    ensures done == want
  {
    hide ItemOk, ItemText;
    ItemSpelled(pat, start, lo, want, |done|);
  }

  lemma {:induction false} NothingFits(lo: nat)
    ensures ItemsFit([], lo)
  {
  }

  lemma {:induction false} MoreFits(done: seq<Item>, i: Item, lo: nat)
    requires ItemsFit(done, lo) && ItemFits(i, lo + ItemsSize(done))
    ensures ItemsFit(done + [i], lo)
  {
    hide ItemFits, ItemsSize;
    forall k | 0 <= k < |done + [i]| ensures ItemFits((done + [i])[k], lo + ItemsSize((done + [i])[..k])) {
      assert (done + [i])[..k] == done[..k];
      assert done[..|done|] == done;
    }
  }

  lemma {:induction false} PendingFits(done: seq<Item>, x: Item, lo: nat)
    requires ItemsFit(done, lo) && !x.Range?
    ensures ItemsFit(done + [x], lo)
  {
    MoreFits(done, x, lo);
  }

  lemma {:induction false} HighOfRange(i: Item)
    requires i.Range? && ItemOk(i)
    ensures HighOk(i.hi)
  {
  }

  lemma {:induction false} HeadIsChar(i: Item)
    requires ItemOk(i)
    ensures CharNodeAt(Head(i), true)
  {
  }

  lemma {:induction false} RangeEnd(pat: string, from: nat, p: nat, low: Item, i: Item)
    requires from <= p <= |pat| && low.Letter? && i.Range? && i.lo == low.t && ItemText(low) + pat[from..p] == ItemText(i)
    ensures p == from + 1 + |TokText(i.hi)|
  {
    hide TokText;
    assert |ItemText(low) + pat[from..p]| == |ItemText(i)|;
  }

  lemma {:induction false} TrackStarts(start: nat, want: seq<Item>)
    ensures OnTrack(start, start, want, [], None)
  {
  }

  /** A set, after its opening bracket. */
  ghost predicate WantsSet(pat: string, p: nat, lo: nat, want: Elem) {
    want.Set? && ElemOk(want) && Fits(want, lo) &&
    Spells(pat, p, (if want.negated then "^" else "") + (ItemsText(want.items) + "]"))
  }

  lemma {:induction false} SetSpelled(pat: string, p: nat, lo: nat, want: Elem)
    requires WantsSet(pat, p, lo, want)
    ensures p < |pat| && (pat[p] == '^' <==> want.negated)
    ensures
      var q := if want.negated then p + 1 else p;
      WantsItems(pat, q, lo + 1, want.items) && q < |pat| && pat[q] != ']'
  {
    hide ItemOk, ItemText, ItemsFit;
    SpellsParts(pat, p, if want.negated then "^" else "", ItemsText(want.items) + "]");
    var q := if want.negated then p + 1 else p;
    ItemSpelled(pat, q, lo + 1, want.items, 0);
    assert want.items[..0] == [];
    if want.negated {
      SpellsFirst(pat, p, "^");
    }
  }

  // ---------------------------------------------------------------- quantifiers

  function FirstNumber(q: Quant): string {
    match q
    case Exactly(n) => n
    case AtLeast(n) => n
    case Between(n, _) => n
    case _ => ""
  }

  ghost predicate Digit(pat: string, p: nat) {
    p < |pat| && IsDigit(pat[p])
  }

  /** A number stands at p and no digit behind it. */
  ghost predicate WantsNumber(pat: string, p: nat, want: string) {
    NumberOk(want) && Spells(pat, p, want) && !Digit(pat, p + |want|)
  }

  /** A quantifier in braces stands at p. */
  ghost predicate WantsBraces(pat: string, p: nat, want: Quant) {
    (want.Exactly? || want.AtLeast? || want.Between?) && QuantOk(want) && Spells(pat, p, QuantText(want))
  }

  lemma {:induction false} BracesSpelled(pat: string, p: nat, want: Quant)
    requires WantsBraces(pat, p, want)
    ensures
      var n := FirstNumber(want);
      var q := p + 1 + |n|;
      && WantsNumber(pat, p + 1, n) && q < |pat|
      && pat[q] == (if want.Exactly? then '}' else ',')
      && (want.AtLeast? ==> Spells(pat, q + 1, "}"))
      && (want.Between? ==> WantsNumber(pat, q + 1, want.m) && Spells(pat, q + 1 + |want.m|, "}"))
  {
    hide Spells, NumberOk, WantsNumber;
    var n := FirstNumber(want);
    match want
    case Exactly(_) => BraceSpelled(pat, p, n, "}");
    case AtLeast(_) => AtLeastSpelled(pat, p, n);
    case Between(_, m) => BetweenSpelled(pat, p, n, m);
  }

  lemma {:induction false} AtLeastSpelled(pat: string, p: nat, n: string)
    requires NumberOk(n) && Spells(pat, p, "{" + n + ",}")
    ensures WantsNumber(pat, p + 1, n)
    ensures var q := p + 1 + |n|; q < |pat| && pat[q] == ',' && Spells(pat, q + 1, "}")
  {
    hide Spells, NumberOk, WantsNumber;
    BraceSpelled(pat, p, n, ",}");
    LeftTo(pat, p + 1 + |n|, ",", "}", ",}");
    SpellsParts(pat, p + 1 + |n|, ",", "}");
  }

  lemma {:induction false} LeftTo(pat: string, p: nat, a: string, b: string, s: string)
    requires Spells(pat, p, s) && s == a + b
    ensures Spells(pat, p, a + b)
  {
  }

  lemma {:induction false} BraceSpelled(pat: string, p: nat, n: string, tail: string)
    requires NumberOk(n) && tail != "" && !IsDigit(tail[0]) && Spells(pat, p, "{" + n + tail)
    ensures WantsNumber(pat, p + 1, n)
    ensures var q := p + 1 + |n|; q < |pat| && pat[q] == tail[0] && Spells(pat, q, tail)
  {
    hide Spells, NumberOk;
    SplitThree(pat, p, "{", n, tail);
    EndsNumber(pat, p + 1, n, tail);
  }

  lemma {:induction false} BetweenSpelled(pat: string, p: nat, n: string, m: string)
    requires NumberOk(n) && NumberOk(m) && Spells(pat, p, "{" + n + "," + m + "}")
    ensures WantsNumber(pat, p + 1, n)
    ensures var q := p + 1 + |n|;
            q < |pat| && pat[q] == ',' && WantsNumber(pat, q + 1, m) && Spells(pat, q + 1 + |m|, "}")
  {
    hide Spells, NumberOk;
    var q := p + 1 + |n|;
    var tail := "," + m + "}";
    assert "{" + n + "," + m + "}" == "{" + n + tail;
    BraceSpelled(pat, p, n, tail);
    SplitThree(pat, q, ",", m, "}");
    EndsNumber(pat, q + 1, m, "}");
  }

  lemma {:induction false} EndsNumber(pat: string, p: nat, n: string, s: string)
    requires NumberOk(n) && Spells(pat, p, n) && Spells(pat, p + |n|, s) && s != "" && !IsDigit(s[0])
    ensures WantsNumber(pat, p, n) && p + |n| < |pat| && pat[p + |n|] == s[0]
  {
    SpellsFirst(pat, p + |n|, s);
  }

  lemma {:induction false} SplitThree(pat: string, p: nat, a: string, b: string, c: string)
    requires Spells(pat, p, a + b + c)
    ensures Spells(pat, p, a) && Spells(pat, p + |a|, b) && Spells(pat, p + |a| + |b|, c)
  {
    SpellsParts(pat, p, a + b, c);
    SpellsParts(pat, p, a, b);
  }

  lemma {:induction false} IsBraces(pat: string, p: nat, want: Quant)
    requires WantsBraces(pat, p, want)
    ensures want.Exactly? || want.AtLeast? || want.Between?
  {
  }

  lemma {:induction false} SameEnd(pat: string, start: nat, p: nat, s: string)
    requires start <= p <= |pat| && pat[start..p] == s
    ensures p == start + |s|
  {
  }

  lemma {:induction false} NumberStarts(pat: string, p: nat, n: string)
    requires WantsNumber(pat, p, n)
    ensures p < |pat| && IsDigit(pat[p])
  {
    SpellsFirst(pat, p, n);
  }

  /** A digit behind the digits read belongs to the number wanted. */
  lemma {:induction false} NumberGoesOn(pat: string, start: nat, p: nat, want: string, ds: string)
    requires WantsNumber(pat, start, want) && start <= p <= |pat| && pat[start..p] == ds && |ds| <= |want| && Digit(pat, p)
    ensures |ds| < |want|
  {
  }

  lemma {:induction false} NumberEnds(pat: string, start: nat, p: nat, want: string, ds: string)
    requires WantsNumber(pat, start, want) && start <= p <= |pat| && pat[start..p] == ds && |ds| <= |want| && !Digit(pat, p)
    ensures ds == want
  {
    if |ds| < |want| {
      DigitAt(pat, start, want, |ds|);
    }
  }

  lemma {:induction false} DigitAt(pat: string, p: nat, want: string, k: nat)
    requires WantsNumber(pat, p, want) && k < |want|
    ensures Digit(pat, p + k)
  {
    assert want[k] == pat[p..p + |want|][k] == pat[p + k];
  }

  /** The first character of a quantifier tells its kind. */
  lemma {:induction false} QuantSpelled(pat: string, p: nat, want: Quant)
    requires QuantOk(want) && Spells(pat, p, QuantText(want))
    ensures p < |pat| && pat[p] in "*+?{"
    ensures pat[p] == '*' <==> want.Star?
    ensures pat[p] == '+' <==> want.Plus?
    ensures pat[p] == '?' <==> want.Maybe?
    ensures pat[p] == '{' ==> WantsBraces(pat, p, want)
  {
    SpellsFirst(pat, p, QuantText(want));
  }

  lemma {:induction false} SimpleQuants()
    ensures QuantOk(Star) && QuantOk(Plus) && QuantOk(Maybe)
    ensures Low(Star) == 0 && Low(Plus) == 1 && Low(Maybe) == 0
    ensures High(Star) == NO_LIMIT && High(Plus) == NO_LIMIT && High(Maybe) == 1
    ensures QuantText(Star) == "*" && QuantText(Plus) == "+" && QuantText(Maybe) == "?"
  {
  }

  lemma {:induction false} IsSet(pat: string, p: nat, lo: nat, want: Elem)
    requires WantsSet(pat, p, lo, want)
    ensures want.Set?
  {
  }

  // ---------------------------------------------------------------- elements and lists

  /** The character at p, NUL at the end. */
  function CharAt(pat: string, p: nat): char {
    if p < |pat| then pat[p] else 0 as char
  }

  ghost predicate WantsElem(pat: string, p: nat, lo: nat, want: Elem) {
    ElemOk(want) && Fits(want, lo) && Spells(pat, p, ElemText(want))
  }

  /** What must not follow an element without a quantifier. */
  ghost predicate NoQuantifier(pat: string, p: nat) {
    CharAt(pat, p) !in "*+?{"
  }

  /** The end of a list of elements, of a sequence, of a list. */
  ghost predicate Stops(pat: string, p: nat) {
    p >= |pat| || pat[p] == ')' || pat[p] == '|'
  }

  ghost predicate WantsElems(pat: string, p: nat, lo: nat, want: List) {
    ElemsOk(want) && ListFits(want, lo) && Spells(pat, p, ListText(want)) && Stops(pat, p + |ListText(want)|)
  }

  ghost predicate WantsSequence(pat: string, p: nat, lo: nat, want: List) {
    SequenceOk(want) && ListFits(want, lo) && Spells(pat, p, ListText(want)) && Stops(pat, p + |ListText(want)|)
  }

  ghost predicate WantsList(pat: string, p: nat, lo: nat, want: List) {
    && ListOk(want) && ListFits(want, lo) && Spells(pat, p, ListText(want))
    && (p + |ListText(want)| < |pat| ==> pat[p + |ListText(want)|] == ')')
  }

  /** A group: its body stands behind "(" or "(?:", and ")" behind its body. */
  lemma {:induction false} GroupSpelled(pat: string, p: nat, lo: nat, want: Elem)
    requires want.Group? && WantsElem(pat, p, lo, want)
    ensures p < |pat| && pat[p] == '('
    ensures want.capture ==> p + 1 < |pat| && pat[p + 1] != '?'
    ensures !want.capture ==> p + 2 < |pat| && pat[p + 1] == '?' && pat[p + 2] == ':'
    ensures
      var q := if want.capture then p + 1 else p + 3;
      WantsList(pat, q, lo + 1, want.body) && Spells(pat, q + |ListText(want.body)|, ")")
  {
    hide ListOk, ListFits, ListText;
    var text := ListText(want.body);
    var open := if want.capture then "(" else "(?:";
    assert ElemText(want) == open + text + ")";
    SplitThree(pat, p, open, text, ")");
    SpellsFirst(pat, p + |open|, text);
    SpellsFirst(pat, p + |open| + |text|, ")");
    SpellsFirst(pat, p, open);
    if !want.capture {
      assert pat[p..p + 3][1] == pat[p + 1] && pat[p..p + 3][2] == pat[p + 2];
    }
  }

  /** The first character of an atom tells its kind. */
  lemma {:induction false} AtomSpelled(pat: string, p: nat, lo: nat, want: Elem)
    requires WantsElem(pat, p, lo, want) && !want.Rep? && !want.Either? && !want.Begin?
    ensures p < |pat| && pat[p] == ElemText(want)[0]
    ensures pat[p] == '(' <==> want.Group?
    ensures pat[p] == '[' <==> want.Set?
    ensures pat[p] == '$' <==> want.End?
    ensures pat[p] == '.' <==> want.Any?
  {
    hide ListOk, ListFits, ItemsOk, ListText, ItemsText;
    SpellsFirst(pat, p, ElemText(want));
  }

  lemma {:induction false} SetInBrackets(pat: string, p: nat, lo: nat, want: Elem)
    requires want.Set? && WantsElem(pat, p, lo, want)
    ensures WantsSet(pat, p + 1, lo, want)
  {
    hide ItemsText, ItemsOk, ItemsFit;
    var inner := (if want.negated then "^" else "") + (ItemsText(want.items) + "]");
    assert ElemText(want) == "[" + inner;
    SpellsParts(pat, p, "[", inner);
  }

  lemma {:induction false} RepSpelled(pat: string, p: nat, lo: nat, want: Elem)
    requires want.Rep? && WantsElem(pat, p, lo, want)
    ensures WantsElem(pat, p, lo, want.e) && QuantOk(want.q) && Spells(pat, p + |ElemText(want.e)|, QuantText(want.q))
    ensures !want.e.Rep? && !want.e.Begin? && !want.e.Either?
  {
    hide QuantText, QuantOk;
    SpellsParts(pat, p, ElemText(want.e), QuantText(want.q));
  }

  /** An element, and the rest of its list. */
  lemma {:induction false} ElemsSpelled(pat: string, p: nat, lo: nat, want: List)
    requires WantsElems(pat, p, lo, want)
    ensures WantsElem(pat, p, lo, want.e) && !want.e.Begin? && !want.e.Either?
    ensures
      var q := p + |ElemText(want.e)|;
      && (want.Last? ==> Stops(pat, q))
      && (want.More? ==> WantsElems(pat, q, lo + Size(want.e), want.rest) && q < |pat| && pat[q] !in "*+|)")
      && (want.e.Rep? || NoQuantifier(pat, q))
  {
    hide ElemText, ElemOk, Fits, Size;
    if want.More? {
      SpellsParts(pat, p, ElemText(want.e), ListText(want.rest));
      SpellsFirst(pat, p + |ElemText(want.e)|, ListText(want.rest));
    }
  }

  lemma {:induction false} SequenceSpelled(pat: string, p: nat, lo: nat, want: List)
    requires WantsSequence(pat, p, lo, want)
    ensures p < |pat| && (pat[p] == '^' <==> want.More? && want.e.Begin?)
    ensures want.More? && want.e.Begin? ==> WantsElems(pat, p + 1, lo + 1, want.rest)
    ensures !(want.More? && want.e.Begin?) ==> WantsElems(pat, p, lo, want)
  {
    hide ElemsOk, Fits, Spells;
    SpellsFirst(pat, p, ListText(want));
    if want.More? && want.e.Begin? {
      BeginSpelled(pat, p, want);
    }
  }

  lemma {:induction false} BeginSpelled(pat: string, p: nat, want: List)
    requires want.More? && want.e.Begin? && Spells(pat, p, ListText(want))
    ensures Spells(pat, p + 1, ListText(want.rest)) && |ListText(want)| == 1 + |ListText(want.rest)| && ListText(want)[0] == '^'
  {
    hide Spells;
    assert ListText(want) == "^" + ListText(want.rest);
    SpellsParts(pat, p, "^", ListText(want.rest));
  }

  lemma {:induction false} ListSpelled(pat: string, p: nat, lo: nat, want: List)
    requires WantsList(pat, p, lo, want)
    ensures want.Last? && want.e.Either? ==>
              var q := p + |ListText(want.e.l)|;
              && WantsSequence(pat, p, lo, want.e.l) && q < |pat| && pat[q] == '|'
              && WantsList(pat, q + 1, lo + ListSize(want.e.l) + 1, want.e.r)
    ensures !(want.Last? && want.e.Either?) ==>
              WantsSequence(pat, p, lo, want) && CharAt(pat, p + |ListText(want)|) != '|'
  {
    hide SequenceOk, Spells, ListText, ElemText, ListSize, Size;
    if want.Last? && want.e.Either? {
      EitherParts(want, lo);
      EitherSpelled(pat, p, want);
    }
  }

  lemma {:induction false} EitherParts(want: List, lo: nat)
    requires want.Last? && want.e.Either? && ListOk(want) && ListFits(want, lo)
    ensures SequenceOk(want.e.l) && ListOk(want.e.r)
    ensures ListFits(want.e.l, lo) && ListFits(want.e.r, lo + ListSize(want.e.l) + 1)
  {
    hide SequenceOk, ListSize;
    assert Fits(want.e, lo);
  }

  lemma {:induction false} EitherSpelled(pat: string, p: nat, want: List)
    requires want.Last? && want.e.Either? && Spells(pat, p, ListText(want))
    ensures
      var l, r := ListText(want.e.l), ListText(want.e.r);
      && Spells(pat, p, l) && p + |l| < |pat| && pat[p + |l|] == '|' && Spells(pat, p + |l| + 1, r)
      && |ListText(want)| == |l| + 1 + |r|
  {
    hide Spells;
    var l, r := ListText(want.e.l), ListText(want.e.r);
    assert ListText(want) == l + "|" + r;
    SplitThree(pat, p, l, "|", r);
    SpellsFirst(pat, p + |l|, "|");
  }

  /** At most nine digits. */
  function Pow10(n: nat): nat {
    if n == 0 then 1 else 10 * Pow10(n - 1)
  }

  lemma {:induction false} NineDigits(k: nat)
    requires k <= 9
    ensures Pow10(k) == 1000000000 <==> k == 9
  {
    assert Pow10(2) == 100;
    assert Pow10(4) == 10000;
    assert Pow10(6) == 1000000;
    assert Pow10(8) == 100000000;
  }

  // ---------------------------------------------------------------- ranges

  /** The same set is allowed near the beginning of a pattern and refused behind many
      nodes, and a range that runs backwards is allowed. */
  lemma {:induction false} RangesDependOnPlace()
    ensures
      var up, down := Set(false, [Range(Plain('!'), Plain('#'))]), Set(false, [Range(Plain('z'), Plain('a'))]);
      ElemOk(up) && Fits(up, 2) && !Fits(up, 100) && ElemOk(down) && Fits(down, 2)
  {
    var a, b := [Range(Plain('!'), Plain('#'))], [Range(Plain('z'), Plain('a'))];
    assert a[..0] == [] && b[..0] == [];
    assert ItemFits(a[0], 3 + ItemsSize(a[..0])) && ItemFits(b[0], 3 + ItemsSize(b[..0]));
    assert !ItemFits(a[0], 101 + ItemsSize(a[..0]));
  }
}
