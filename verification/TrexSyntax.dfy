/** T-Rex patterns as trees, their spelling, and their layout in the node array
    that `trex_compile` fills (lib/argtable/argtable3.c). */
module TrexSyntax {

  // ---------------------------------------------------------------- the node array

  const MAX_CHAR := 0xFF
  const OP_GREEDY := MAX_CHAR + 1
  const OP_OR := MAX_CHAR + 2
  const OP_EXPR := MAX_CHAR + 3
  const OP_NOCAPEXPR := MAX_CHAR + 4
  const OP_DOT := MAX_CHAR + 5
  const OP_CLASS := MAX_CHAR + 6
  const OP_CCLASS := MAX_CHAR + 7
  const OP_NCLASS := MAX_CHAR + 8
  const OP_RANGE := MAX_CHAR + 9
  const OP_EOL := MAX_CHAR + 11
  const OP_BOL := MAX_CHAR + 12
  const OP_WB := MAX_CHAR + 13

  /** A TRexChar; the operators above are no characters. */
  predicate IsByte(c: char) {
    c as int <= MAX_CHAR
  }

  datatype Node = Node(kind: int, left: int, right: int, next: int)

  // ---------------------------------------------------------------- trees

  /** A character as it is written: itself, or after a backslash. */
  datatype Tok = Plain(c: char) | Escaped(c: char)

  datatype Item = Letter(t: Tok) | Kind(k: char) | Range(lo: Tok, hi: Tok)

  datatype Quant =
    | Star
    | Plus
    | Maybe
    | Exactly(n: string)
    | AtLeast(n: string)
    | Between(n: string, m: string)

  /** `Either` stands only at the end of a list, and is the whole list then. */
  datatype Elem =
    | Lit(t: Tok)
    | CharKind(k: char)
    | Boundary(k: char)
    | Any
    | End
    | Begin
    | Set(negated: bool, items: seq<Item>)
    | Group(capture: bool, body: List)
    | Rep(e: Elem, q: Quant)
    | Either(l: List, r: List)

  datatype List = Last(e: Elem) | More(e: Elem, rest: List)

  /** The character a token stands for. */
  function TokChar(t: Tok): char {
    match t
    case Plain(c) => c
    case Escaped(c) =>
      if c == 'n' then '\n' else if c == 't' then '\t' else if c == 'r' then '\r'
      else if c == 'f' then 12 as char else if c == 'v' then 11 as char else c
  }

  /** The escapes, by their codes; any other character stands for itself. */
  lemma EscapedChars(c: char)
    ensures TokChar(Escaped('t')) as int == 9 && TokChar(Escaped('n')) as int == 10 && TokChar(Escaped('v')) as int == 11
    ensures TokChar(Escaped('f')) as int == 12 && TokChar(Escaped('r')) as int == 13
    ensures c !in "tnvfr" ==> TokChar(Escaped(c)) == c
    ensures TokChar(Plain(c)) == c
  {
  }

  predicate IsDigit(c: char) {
    '0' <= c <= '9'
  }

  predicate Digits(s: string) {
    s != "" && forall k :: 0 <= k < |s| ==> IsDigit(s[k])
  }

  function Number(s: string): (n: nat)
    requires forall k :: 0 <= k < |s| ==> IsDigit(s[k])
  {
    if s == "" then 0 else
      assert IsDigit(s[|s| - 1]);
      10 * Number(s[..|s| - 1]) + (s[|s| - 1] as int - '0' as int)
  }

  /** Conversion to unsigned short. */
  function Short(n: nat): (s: nat)
    ensures s < 0x10000
  {
    n % 0x10000
  }

  /** A count is kept in an unsigned short. */
  function Count(s: string): (n: nat)
    requires Digits(s)
    ensures n < 0x10000
  {
    Short(Number(s))
  }

  const NO_LIMIT := 0xFFFF

  /** The parser takes numbers of up to nine digits. */
  predicate NumberOk(n: string) {
    Digits(n) && |n| <= 9
  }

  predicate QuantOk(q: Quant) {
    match q
    case Exactly(n) => NumberOk(n)
    case AtLeast(n) => NumberOk(n)
    case Between(n, m) => NumberOk(n) && NumberOk(m)
    case _ => true
  }

  function Low(q: Quant): (p: nat)
    requires QuantOk(q)
    ensures p < 0x10000
  {
    match q
    case Star => 0
    case Plus => 1
    case Maybe => 0
    case Exactly(n) => Count(n)
    case AtLeast(n) => Count(n)
    case Between(n, m) => Count(n)
  }

  function High(q: Quant): (p: nat)
    requires QuantOk(q)
    ensures p < 0x10000
  {
    match q
    case Star => NO_LIMIT
    case Plus => NO_LIMIT
    case Maybe => 1
    case Exactly(n) => Count(n)
    case AtLeast(n) => NO_LIMIT
    case Between(n, m) => Count(m)
  }

  function Decimal(n: nat): (s: string)
    ensures Digits(s)
  {
    var digit := (n % 10 + '0' as int) as char;
    if n < 10 then [digit] else Decimal(n / 10) + [digit]
  }

  lemma {:induction false} NumberOfDecimal(n: nat)
    ensures Number(Decimal(n)) == n
  {
    var d := Decimal(n);
    assert d[|d| - 1] as int - '0' as int == n % 10;
    if n < 10 {
      assert d[..0] == "" && Number("") == 0;
    } else {
      NumberOfDecimal(n / 10);
      assert d[..|d| - 1] == Decimal(n / 10);
    }
  }

  /** What the quantifiers allow: numbers that fit 16 bits count as they are written, but
      65535 as an upper limit is none. */
  lemma QuantBounds(n: nat, m: nat)
    requires n < 0x10000 && m < 0x10000
    ensures Low(Star) == 0 && High(Star) == NO_LIMIT && Low(Plus) == 1 && High(Plus) == NO_LIMIT
    ensures Low(Maybe) == 0 && High(Maybe) == 1
    ensures |Decimal(n)| <= 9 && |Decimal(m)| <= 9
    ensures Low(Exactly(Decimal(n))) == n == High(Exactly(Decimal(n)))
    ensures Low(AtLeast(Decimal(n))) == n && High(AtLeast(Decimal(n))) == NO_LIMIT
    ensures Low(Between(Decimal(n), Decimal(m))) == n && High(Between(Decimal(n), Decimal(m))) == m
  {
    hide Number, Decimal;
    NumberOfDecimal(n);
    NumberOfDecimal(m);
    DecimalLength(n, 5);
    DecimalLength(m, 5);
  }

  function PowerOfTen(k: nat): nat {
    if k == 0 then 1 else 10 * PowerOfTen(k - 1)
  }

  lemma {:induction false} DecimalLength(n: nat, k: nat)
    requires n < PowerOfTen(k) && k > 0
    ensures |Decimal(n)| <= k
  {
    if n >= 10 {
      DecimalLength(n / 10, k - 1);
    }
  }

  // ---------------------------------------------------------------- spelling

  function TokText(t: Tok): (s: string)
    ensures s != ""
  {
    match t
    case Plain(c) => [c]
    case Escaped(c) => ['\\', c]
  }

  function ItemText(i: Item): (s: string)
    ensures s != ""
  {
    match i
    case Letter(t) => TokText(t)
    case Kind(k) => ['\\', k]
    case Range(lo, hi) => TokText(lo) + "-" + TokText(hi)
  }

  function ItemsText(items: seq<Item>): string {
    if items == [] then "" else ItemsText(items[..|items| - 1]) + ItemText(items[|items| - 1])
  }

  function QuantText(q: Quant): (s: string)
    ensures s != ""
  {
    match q
    case Star => "*"
    case Plus => "+"
    case Maybe => "?"
    case Exactly(n) => "{" + n + "}"
    case AtLeast(n) => "{" + n + ",}"
    case Between(n, m) => "{" + n + "," + m + "}"
  }

  function ElemText(e: Elem): (s: string)
    ensures s != ""
  {
    match e
    case Lit(t) => TokText(t)
    case CharKind(k) => ['\\', k]
    case Boundary(k) => ['\\', k]
    case Any => "."
    case End => "$"
    case Begin => "^"
    case Set(negated, items) => "[" + (if negated then "^" else "") + ItemsText(items) + "]"
    case Group(capture, body) => "(" + (if capture then "" else "?:") + ListText(body) + ")"
    case Rep(e, q) => ElemText(e) + QuantText(q)
    case Either(l, r) => ListText(l) + "|" + ListText(r)
  }

  function ListText(c: List): (s: string)
    ensures s != ""
  {
    match c
    case Last(e) => ElemText(e)
    case More(e, rest) => ElemText(e) + ListText(rest)
  }

  /** How each construct is written. */
  lemma ConstructsWritten()
    ensures ListText(More(Begin, More(Any, Last(End)))) == "^.$"
    ensures ListText(Last(Either(Last(CharKind('d')), Last(Boundary('b'))))) == "\\d|\\b"
    ensures ElemText(Group(true, Last(Lit(Plain('a'))))) == "(a)" && ElemText(Group(false, Last(Any))) == "(?:.)"
    ensures ElemText(Lit(Escaped('n'))) == "\\n"
  {
  }

  lemma QuantWritten(b: Elem)
    ensures ElemText(Rep(b, Star)) == ElemText(b) + "*" && ElemText(Rep(b, Plus)) == ElemText(b) + "+"
    ensures ElemText(Rep(b, Maybe)) == ElemText(b) + "?"
    ensures QuantText(Exactly("2")) == "{2}" && QuantText(AtLeast("2")) == "{2,}" && QuantText(Between("2", "3")) == "{2,3}"
  {
  }

  lemma SetWritten(items: seq<Item>)
    ensures ElemText(Set(true, items)) == "[^" + ItemsText(items) + "]"
    ensures ElemText(Set(false, items)) == "[" + ItemsText(items) + "]"
  {
  }

  lemma ItemsWritten()
    ensures ItemText(Kind('w')) == "\\w" && ItemText(Range(Plain('b'), Escaped('c'))) == "b-\\c"
    ensures ItemsText([Letter(Plain('a')), Letter(Plain('b'))]) == "ab"
  {
    var items := [Letter(Plain('a')), Letter(Plain('b'))];
    assert items[..1] == [Letter(Plain('a'))] && items[..1][..0] == [];
    assert ItemsText(items[..1]) == "a";
  }

  // ---------------------------------------------------------------- grammar

  predicate IsPrint(c: char) {
    ' ' <= c <= '~'
  }

  const KINDS: string := "aAwWsSdDxXcCpPlu"

  /** A token that `trex_charnode` reads as a plain character. */
  predicate TokOk(t: Tok, inSet: bool) {
    match t
    case Plain(c) => IsPrint(c) && c != '\\'
    case Escaped(c) => c !in KINDS && (inSet || c !in "bB")
  }

  /** A token that `trex_escapechar` reads. */
  predicate HighOk(t: Tok) {
    t.Plain? ==> IsPrint(t.c) && t.c != '\\'
  }

  predicate ItemOk(i: Item) {
    match i
    case Letter(t) => TokOk(t, true)
    case Kind(k) => k in KINDS
    case Range(lo, hi) => TokOk(lo, true) && HighOk(hi)
  }

  /** In a set "]" ends it, and "-" after a single character makes a range. */
  predicate ItemsOk(items: seq<Item>) {
    && (forall k :: 0 <= k < |items| ==> ItemOk(items[k]) && ItemText(items[k])[0] != ']')
    && (forall k :: 0 < k < |items| ==> ItemText(items[k])[0] == '-' ==> items[k - 1].Range?)
  }

  /** What may follow an element in the same list. */
  predicate Follows(e: Elem, s: string) {
    && (s != "" ==> s[0] !in "*+|)" || e.Begin?)
    && (s != "" && s[0] in "?{" ==> e.Rep? || e.Begin?)
  }

  ghost predicate ElemOk(e: Elem) {
    match e
    case Lit(t) => TokOk(t, false) && (t.Plain? ==> t.c !in "([$.")
    case CharKind(k) => k in KINDS
    case Boundary(k) => k in "bB"
    case Any => true
    case End => true
    case Begin => true
    case Set(negated, items) =>
      items != [] && ItemsOk(items) && (!negated ==> ItemText(items[0])[0] != '^')
    case Group(capture, body) => ListOk(body) && (capture ==> ListText(body)[0] != '?')
    case Rep(e, q) => !e.Rep? && !e.Begin? && !e.Either? && ElemOk(e) && QuantOk(q)
    case Either(l, r) => SequenceOk(l) && ListOk(r)
  }

  /** A list as `trex_list` reads it: a sequence, or alternatives. */
  ghost predicate ListOk(c: List)
    decreases c, 2
  {
    if c.Last? && c.e.Either? then ElemOk(c.e) else SequenceOk(c)
  }

  /** An optional "^" and then elements. */
  ghost predicate SequenceOk(c: List)
    decreases c, 1
  {
    if c.More? && c.e.Begin? then ElemsOk(c.rest)
    else ElemsOk(c) && ListText(c)[0] != '^'
  }

  ghost predicate ElemsOk(c: List)
    decreases c, 0
  {
    && !c.e.Begin? && !c.e.Either? && ElemOk(c.e)
    && (c.More? ==> ElemsOk(c.rest) && Follows(c.e, ListText(c.rest)))
  }

  // ---------------------------------------------------------------- layout

  function ItemSize(i: Item): nat {
    if i.Range? then 2 else 1
  }

  function ItemsSize(items: seq<Item>): nat {
    if items == [] then 0 else ItemsSize(items[..|items| - 1]) + ItemSize(items[|items| - 1])
  }

  function Size(e: Elem): (n: nat)
    ensures n >= 1
  {
    match e
    case Set(negated, items) => 1 + ItemsSize(items)
    case Group(capture, body) => 1 + ListSize(body)
    case Rep(e, q) => Size(e) + 1
    case Either(l, r) => ListSize(l) + 1 + ListSize(r)
    case _ => 1
  }

  function ListSize(c: List): (n: nat)
    ensures n >= 1
  {
    match c
    case Last(e) => Size(e)
    case More(e, rest) => Size(e) + ListSize(rest)
  }

  /** The node that stands for the element laid out from `lo` on. */
  function Root(e: Elem, lo: nat): (id: nat)
    ensures lo <= id < lo + Size(e)
  {
    match e
    case Rep(e, q) => lo + Size(e)
    case Either(l, r) => lo + ListSize(l)
    case _ => lo
  }

  function ListRoot(c: List, lo: nat): (r: nat)
    ensures lo <= r < lo + ListSize(c)
  {
    Root(c.e, lo)
  }

  function ItemRoot(i: Item, lo: nat): nat {
    if i.Range? then lo + 1 else lo
  }

  /** The set member at `lo`; a range leaves the node of its low end unlinked before it. */
  ghost predicate ItemAt(nodes: seq<Node>, lo: nat, i: Item, next: int) {
    && lo + ItemSize(i) <= |nodes|
    && match i
       case Letter(t) => IsByte(TokChar(t)) && nodes[lo] == Node(TokChar(t) as int, -1, -1, next)
       case Kind(k) => nodes[lo] == Node(OP_CCLASS, k as int, -1, next)
       case Range(a, b) =>
         IsByte(TokChar(a)) && IsByte(TokChar(b)) && nodes[lo + 1] == Node(OP_RANGE, TokChar(a) as int, TokChar(b) as int, next)
  }

  ghost predicate ItemsAt(nodes: seq<Node>, lo: nat, items: seq<Item>, next: int)
  {
    items != [] ==>
      var last := items[|items| - 1];
      var before := items[..|items| - 1];
      && ItemsAt(nodes, lo, before, ItemRoot(last, lo + ItemsSize(before)))
      && ItemAt(nodes, lo + ItemsSize(before), last, next)
  }

  function FirstItem(items: seq<Item>, lo: nat): int
    requires items != []
  {
    ItemRoot(items[0], lo)
  }

  /** The element's nodes stand in [lo, lo + Size(e)), the root linked to `next`. */
  ghost predicate ElemAt(nodes: seq<Node>, lo: nat, e: Elem, next: int)
    decreases e
  {
    && lo + Size(e) <= |nodes|
    && match e
       case Lit(t) => IsByte(TokChar(t)) && nodes[lo] == Node(TokChar(t) as int, -1, -1, next)
       case CharKind(k) => nodes[lo] == Node(OP_CCLASS, k as int, -1, next)
       case Boundary(k) => nodes[lo] == Node(OP_WB, k as int, -1, next)
       case Any => nodes[lo] == Node(OP_DOT, -1, -1, next)
       case End => nodes[lo] == Node(OP_EOL, -1, -1, next)
       case Begin => nodes[lo] == Node(OP_BOL, -1, -1, next)
       case Set(negated, items) =>
         && items != []
         && nodes[lo] == Node(if negated then OP_NCLASS else OP_CLASS, FirstItem(items, lo + 1), -1, next)
         && ItemsAt(nodes, lo + 1, items, -1)
       case Group(capture, body) =>
         && nodes[lo].kind == (if capture then OP_EXPR else OP_NOCAPEXPR)
         && nodes[lo].left == ListRoot(body, lo + 1)
         && nodes[lo].next == next
         && ListAt(nodes, lo + 1, body)
       case Rep(b, q) =>
         && QuantOk(q)
         && ElemAt(nodes, lo, b, -1)
         && nodes[lo + Size(b)] == Node(OP_GREEDY, Root(b, lo), Low(q) * 0x10000 + High(q), next)
       case Either(l, r) =>
         && ListAt(nodes, lo, l)
         && nodes[lo + ListSize(l)] == Node(OP_OR, ListRoot(l, lo), ListRoot(r, lo + ListSize(l) + 1), next)
         && ListAt(nodes, lo + ListSize(l) + 1, r)
  }

  ghost predicate ListAt(nodes: seq<Node>, lo: nat, c: List)
    decreases c
  {
    match c
    case Last(e) => ElemAt(nodes, lo, e, -1)
    case More(e, rest) =>
      && ElemAt(nodes, lo, e, ListRoot(rest, lo + Size(e)))
      && ListAt(nodes, lo + Size(e), rest)
  }

  // ---------------------------------------------------------------- where ranges are allowed

  /** `trex_class` compares the index of the node of a range's low end with the first
      character of its high end, so that whether a range is allowed depends on how
      many nodes stand before it. */
  predicate ItemFits(i: Item, at: int) {
    i.Range? ==> at <= TokText(i.hi)[0] as int
  }

  predicate ItemsFit(items: seq<Item>, lo: nat) {
    forall k :: 0 <= k < |items| ==> ItemFits(items[k], lo + ItemsSize(items[..k]))
  }

  predicate Fits(e: Elem, lo: nat) {
    match e
    case Set(_, items) => ItemsFit(items, lo + 1)
    case Group(_, body) => ListFits(body, lo + 1)
    case Rep(b, _) => Fits(b, lo)
    case Either(l, r) => ListFits(l, lo) && ListFits(r, lo + ListSize(l) + 1)
    case _ => true
  }

  predicate ListFits(c: List, lo: nat) {
    match c
    case Last(e) => Fits(e, lo)
    case More(e, rest) => Fits(e, lo) && ListFits(rest, lo + Size(e))
  }

  /** The pattern is the spelling of this tree, and its ranges are allowed when the
      tree is laid out behind the root node. */
  ghost predicate Spelling(c: List, pat: string) {
    ListOk(c) && ListFits(c, 1) && ListText(c) == pat
  }

  // ---------------------------------------------------------------- patterns of every construct

  lemma AlternativesAllowed()
    ensures Spelling(Last(Rep(Group(true, Last(Either(Last(Lit(Plain('a'))), Last(Lit(Plain('b')))))), Plus)), "(a|b)+")
  {
    var l, r := Last(Lit(Plain('a'))), Last(Lit(Plain('b')));
    assert ListText(l) == "a" && ListText(r) == "b";
    assert ElemsOk(l) && ElemsOk(r) && SequenceOk(l) && SequenceOk(r) && ListOk(r);
    var either := Last(Either(l, r));
    assert ListText(either) == "a|b" && ListOk(either);
    var group := Group(true, either);
    assert ElemOk(group) && ElemText(group) == "(a|b)";
    assert ElemOk(Rep(group, Plus)) && ElemText(Rep(group, Plus)) == "(a|b)+";
  }

  lemma AnchorsAllowed()
    ensures Spelling(More(Begin, More(Rep(Any, Star), Last(End))), "^.*$")
  {
    var rep := Rep(Any, Star);
    assert ElemText(End) == "$" && ElemText(Any) == ".";
    assert ElemText(rep) == ".*";
    assert ListText(Last(End)) == "$";
    assert ListText(More(rep, Last(End))) == ".*$";
    assert ElemOk(rep) && ElemsOk(Last(End)) && ElemsOk(More(rep, Last(End)));
  }

  lemma CountAllowed()
    ensures Spelling(Last(Rep(CharKind('d'), Between("1", "3"))), "\\d{1,3}")
  {
    var e := CharKind('d');
    assert Digits("1") && Digits("3") && ElemText(e) == "\\d" && ElemOk(e);
    assert ElemText(Rep(e, Between("1", "3"))) == "\\d{1,3}";
  }

  lemma GroupAllowed()
    ensures Spelling(Last(Group(false, Last(Lit(Escaped('.'))))), "(?:\\.)")
  {
    var dot := Last(Lit(Escaped('.')));
    assert ListText(dot) == "\\." && ElemsOk(dot) && ListOk(dot);
    var group := Group(false, dot);
    assert ElemText(group) == "(?:\\.)" && ElemOk(group);
  }

  lemma BoundaryAllowed()
    ensures Spelling(More(Boundary('b'), Last(Lit(Plain('a')))), "\\ba")
  {
    var a := Last(Lit(Plain('a')));
    assert ListText(a) == "a" && ElemsOk(a);
    assert ElemText(Boundary('b')) == "\\b" && ElemOk(Boundary('b'));
  }

  lemma SetsAllowed(negated: bool)
    ensures Spelling(Last(Set(negated, [Range(Plain('a'), Plain('f')), Letter(Plain('_'))])), if negated then "[^a-f_]" else "[a-f_]")
  {
    var range := Range(Plain('a'), Plain('f'));
    var items := [range, Letter(Plain('_'))];
    assert items[..1] == [range] && items[..1][..0] == [] && items[..0] == [];
    assert ItemText(range) == "a-f" && ItemText(Letter(Plain('_'))) == "_" && ItemsText([]) == "";
    assert ItemsText([range]) == "a-f";
    assert ItemsText(items) == "a-f_";
    assert ItemText(items[0])[0] == 'a' && ItemText(items[1])[0] == '_' && ItemsOk(items);
    assert ItemsSize([]) == 0 && ItemsSize([range]) == 2 && ItemsFit(items, 2);
    var e := Set(negated, items);
    assert ElemText(e) == if negated then "[^a-f_]" else "[a-f_]";
    assert ElemOk(e) && ElemsOk(Last(e));
  }
}
