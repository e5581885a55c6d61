/** The language of a T-Rex pattern tree: which stretch of a text a tree matches
    (lib/argtable/argtable3.c, the meaning that `trex_matchnode`,
    `trex_matchclass` and `trex_matchcclass` give to the nodes). */
module TrexSemantics {
  import opened Wrappers
  import opened TrexSyntax

  /** A C string in memory: its characters, the terminator, and what lies beyond,
      which `\b` and `.` may look at. */
  datatype Text = Text(str: string, beyond: nat -> char) {
    function At(i: nat): char {
      if i < |str| then str[i] else if i == |str| then 0 as char else beyond(i)
    }
  }

  // ---------------------------------------------------------------- ctype, "C" locale

  function ToUpper(c: char): char {
    if 'a' <= c <= 'z' then (c as int - 32) as char else c
  }

  function ToLower(c: char): char {
    if 'A' <= c <= 'Z' then (c as int + 32) as char else c
  }

  predicate IsUpper(c: char) { 'A' <= c <= 'Z' }
  predicate IsLower(c: char) { 'a' <= c <= 'z' }
  predicate IsAlpha(c: char) { IsUpper(c) || IsLower(c) }
  predicate IsAlnum(c: char) { IsAlpha(c) || IsDigit(c) }
  predicate IsSpace(c: char) { c == ' ' || 9 as char <= c <= 13 as char }
  predicate IsHex(c: char) { IsDigit(c) || 'a' <= c <= 'f' || 'A' <= c <= 'F' }
  predicate IsControl(c: char) { c < ' ' || c == 127 as char }
  predicate IsPunct(c: char) { IsPrint(c) && c != ' ' && !IsAlnum(c) }

  /** `\a`, `\A` and so on. */
  predicate InKind(k: int, c: char) {
    if k == 'a' as int then IsAlpha(c)
    else if k == 'A' as int then !IsAlpha(c)
    else if k == 'w' as int then IsAlnum(c) || c == '_'
    else if k == 'W' as int then !IsAlnum(c) && c != '_'
    else if k == 's' as int then IsSpace(c)
    else if k == 'S' as int then !IsSpace(c)
    else if k == 'd' as int then IsDigit(c)
    else if k == 'D' as int then !IsDigit(c)
    else if k == 'x' as int then IsHex(c)
    else if k == 'X' as int then !IsHex(c)
    else if k == 'c' as int then IsControl(c)
    else if k == 'C' as int then !IsControl(c)
    else if k == 'p' as int then IsPunct(c)
    else if k == 'P' as int then !IsPunct(c)
    else if k == 'l' as int then IsLower(c)
    else k == 'u' as int && IsUpper(c)
  }

  /** Each capital kind is what its small letter is not. */
  lemma KindComplements(k: char, c: char)
    requires k in "awsdxcp"
    ensures InKind(ToUpper(k) as int, c) <==> !InKind(k as int, c)
  {
  }

  /** The characters of the kinds, of the 256 there are. */
  lemma KindChars(c: char)
    requires IsByte(c)
    ensures InKind('d' as int, c) <==> c in "0123456789"
    ensures InKind('x' as int, c) <==> c in "0123456789" || c in "abcdef" || c in "ABCDEF"
    ensures InKind('s' as int, c) <==> c in " \t\n\r" || c as int == 11 || c as int == 12
    ensures InKind('l' as int, c) <==> 97 <= c as int <= 122
    ensures InKind('u' as int, c) <==> 65 <= c as int <= 90
    ensures InKind('a' as int, c) <==> InKind('l' as int, c) || InKind('u' as int, c)
    ensures InKind('w' as int, c) <==> InKind('a' as int, c) || InKind('d' as int, c) || c == '_'
    ensures InKind('c' as int, c) <==> c as int < 32 || c as int == 127
    ensures InKind('p' as int, c) <==> !InKind('c' as int, c) && (!InKind('w' as int, c) || c == '_') && c as int < 127 && c != ' '
  {
  }

  // ---------------------------------------------------------------- single characters

  predicate SameChar(c: char, x: char, icase: bool) {
    if icase then c == ToLower(x) || c == ToUpper(x) else c == x
  }

  /** Without regard to case a letter and its other form are taken alike, and nothing else. */
  lemma SameCharLaws(c: char, x: char)
    ensures SameChar(c, x, false) <==> c == x
    ensures InKind('l' as int, x) ==> (SameChar(c, x, true) <==> c == x || c as int == x as int - 32)
    ensures InKind('u' as int, x) ==> (SameChar(c, x, true) <==> c == x || c as int == x as int + 32)
    ensures !InKind('a' as int, x) ==> (SameChar(c, x, true) <==> c == x)
  {
  }

  predicate InRange(c: char, lo: char, hi: char, icase: bool) {
    if icase then ToUpper(lo) <= c <= ToUpper(hi) || ToLower(lo) <= c <= ToLower(hi) else lo <= c <= hi
  }

  /** Both ends of a range belong to it, and of the others those between. */
  lemma RangeEnds(c: char, lo: char, hi: char)
    requires lo <= hi
    ensures InRange(lo, lo, hi, false) && InRange(hi, lo, hi, false)
    ensures c != lo && c != hi ==> (InRange(c, lo, hi, false) <==> lo < c < hi)
    ensures InRange(c, lo, hi, false) && !(IsAlpha(lo) || IsAlpha(hi)) ==> InRange(c, lo, hi, true)
  {
  }

  predicate InItem(i: Item, c: char, icase: bool) {
    match i
    case Letter(t) => SameChar(c, TokChar(t), icase)
    case Kind(k) => InKind(k as int, c)
    case Range(lo, hi) => InRange(c, TokChar(lo), TokChar(hi), icase)
  }

  predicate InItems(items: seq<Item>, c: char, icase: bool) {
    exists k :: 0 <= k < |items| && InItem(items[k], c, icase)
  }

  /** The word boundary test, as written: next to the ends only the text itself
      counts, elsewhere the character and its successor. */
  predicate AtBoundary(t: Text, i: nat) {
    || (i == 0 && !IsSpace(t.At(i)))
    || (0 < i && i == |t.str| && !IsSpace(t.At(i - 1)))
    || (!IsSpace(t.At(i)) && IsSpace(t.At(i + 1)))
    || (IsSpace(t.At(i)) && !IsSpace(t.At(i + 1)))
  }

  /** Inside the text the test is about a character and the next one, not the one before. */
  lemma BoundaryInside(t: Text, i: nat)
    requires 0 < i < |t.str|
    ensures AtBoundary(t, i) <==> (IsSpace(t.At(i)) != IsSpace(t.At(i + 1)))
  {
  }

  /** So of "ab  c" the end of the first word is no boundary, but its last letter stands at one. */
  lemma BoundaryOff(beyond: nat -> char)
    ensures var t := Text("ab  c", beyond); !AtBoundary(t, 2) && AtBoundary(t, 1)
  {
  }

  predicate IsSingle(e: Elem) {
    !e.Group? && !e.Rep? && !e.Either?
  }

  /** What a single node matches at i: the end of the match, if there is one. */
  function SingleEnd(e: Elem, t: Text, icase: bool, i: nat): (r: Option<nat>)
    requires IsSingle(e)
    ensures r.Some? ==> i <= r.value <= i + 1
  {
    var c := t.At(i);
    match e
    case Lit(tok) => if SameChar(c, TokChar(tok), icase) then Some(i + 1) else None
    case CharKind(k) => if InKind(k as int, c) then Some(i + 1) else None
    case Boundary(k) => if AtBoundary(t, i) == (k == 'b') then Some(i) else None
    case Any => Some(i + 1)
    case End => if i == |t.str| then Some(i) else None
    case Begin => if i == 0 then Some(i) else None
    case Set(negated, items) => if InItems(items, c, icase) != negated then Some(i + 1) else None
    case _ => None
  }

  // ---------------------------------------------------------------- the language

  /** `e` matches the stretch [i, j) of the text. */
  ghost predicate Matches(e: Elem, t: Text, icase: bool, i: nat, j: nat)
    decreases e, 0, 0
  {
    && i <= j <= |t.str|
    && match e
       case Group(capture, body) => ListMatches(body, t, icase, i, j)
       case Either(l, r) => ListMatches(l, t, icase, i, j) || ListMatches(r, t, icase, i, j)
       case Rep(b, q) =>
         QuantOk(q) && exists n: nat :: Low(q) <= n && (High(q) == NO_LIMIT || n <= High(q)) && Repeats(b, n, t, icase, i, j)
       case _ => SingleEnd(e, t, icase, i) == Some(j)
  }

  /** `e` matches n times in a row, covering [i, j). */
  ghost predicate Repeats(e: Elem, n: nat, t: Text, icase: bool, i: nat, j: nat)
    decreases e, 1, n
  {
    if n == 0 then i == j
    else exists m: nat :: Repeats(e, n - 1, t, icase, i, m) && Matches(e, t, icase, m, j)
  }

  /** The elements match one after the other, covering [i, j). */
  ghost predicate ListMatches(c: List, t: Text, icase: bool, i: nat, j: nat)
    decreases c, 0, 0
  {
    match c
    case Last(e) => Matches(e, t, icase, i, j)
    case More(e, rest) => exists m: nat :: Matches(e, t, icase, i, m) && ListMatches(rest, t, icase, m, j)
  }

  // ---------------------------------------------------------------- past the end of the text

  /** Like `Matches`, but the stretch may run over the terminator and beyond. */
  ghost predicate Spans(e: Elem, t: Text, icase: bool, i: nat, j: nat)
    decreases e, 0, 0
  {
    match e
    case Group(capture, body) => ListSpans(body, t, icase, i, j)
    case Either(l, r) => ListSpans(l, t, icase, i, j) || ListSpans(r, t, icase, i, j)
    case Rep(b, q) =>
      QuantOk(q) && exists n: nat :: Low(q) <= n && (High(q) == NO_LIMIT || n <= High(q)) && SpanTimes(b, n, t, icase, i, j)
    case _ => SingleEnd(e, t, icase, i) == Some(j)
  }

  ghost predicate SpanTimes(e: Elem, n: nat, t: Text, icase: bool, i: nat, j: nat)
    decreases e, 1, n
  {
    if n == 0 then i == j
    else exists m: nat :: SpanTimes(e, n - 1, t, icase, i, m) && Spans(e, t, icase, m, j)
  }

  ghost predicate ListSpans(c: List, t: Text, icase: bool, i: nat, j: nat)
    decreases c, 0, 0
  {
    match c
    case Last(e) => Spans(e, t, icase, i, j)
    case More(e, rest) => exists m: nat :: Spans(e, t, icase, i, m) && ListSpans(rest, t, icase, m, j)
  }

  // the counts and the places in between

  lemma SpanCount(e: Elem, t: Text, icase: bool, i: nat, j: nat) returns (n: nat)
    requires e.Rep? && Spans(e, t, icase, i, j)
    ensures QuantOk(e.q) && Low(e.q) <= n && (High(e.q) == NO_LIMIT || n <= High(e.q)) && SpanTimes(e.e, n, t, icase, i, j)
  {
    n :| Low(e.q) <= n && (High(e.q) == NO_LIMIT || n <= High(e.q)) && SpanTimes(e.e, n, t, icase, i, j);
  }

  lemma RepCount(e: Elem, t: Text, icase: bool, i: nat, j: nat) returns (n: nat)
    requires e.Rep? && Matches(e, t, icase, i, j)
    ensures QuantOk(e.q) && Low(e.q) <= n && (High(e.q) == NO_LIMIT || n <= High(e.q)) && Repeats(e.e, n, t, icase, i, j)
  {
    n :| Low(e.q) <= n && (High(e.q) == NO_LIMIT || n <= High(e.q)) && Repeats(e.e, n, t, icase, i, j);
  }

  lemma LastSpan(e: Elem, n: nat, t: Text, icase: bool, i: nat, j: nat) returns (m: nat)
    requires n > 0 && SpanTimes(e, n, t, icase, i, j)
    ensures SpanTimes(e, n - 1, t, icase, i, m) && Spans(e, t, icase, m, j)
  {
    m :| SpanTimes(e, n - 1, t, icase, i, m) && Spans(e, t, icase, m, j);
  }

  lemma LastRepeat(e: Elem, n: nat, t: Text, icase: bool, i: nat, j: nat) returns (m: nat)
    requires n > 0 && Repeats(e, n, t, icase, i, j)
    ensures Repeats(e, n - 1, t, icase, i, m) && Matches(e, t, icase, m, j)
  {
    m :| Repeats(e, n - 1, t, icase, i, m) && Matches(e, t, icase, m, j);
  }

  lemma FirstSpan(c: List, t: Text, icase: bool, i: nat, j: nat) returns (m: nat)
    requires c.More? && ListSpans(c, t, icase, i, j)
    ensures Spans(c.e, t, icase, i, m) && ListSpans(c.rest, t, icase, m, j)
  {
    m :| Spans(c.e, t, icase, i, m) && ListSpans(c.rest, t, icase, m, j);
  }

  lemma FirstMatch(c: List, t: Text, icase: bool, i: nat, j: nat) returns (m: nat)
    requires c.More? && ListMatches(c, t, icase, i, j)
    ensures Matches(c.e, t, icase, i, m) && ListMatches(c.rest, t, icase, m, j)
  {
    m :| Matches(c.e, t, icase, i, m) && ListMatches(c.rest, t, icase, m, j);
  }

  /** The matches are the stretches spanned inside the text. */
  lemma {:induction false} SpansIff(e: Elem, t: Text, icase: bool, i: nat, j: nat)
    ensures Spans(e, t, icase, i, j) ==> i <= j
    ensures Matches(e, t, icase, i, j) <==> Spans(e, t, icase, i, j) && j <= |t.str|
    decreases e, 1, 0
  {
    hide SingleEnd;
    match e
    case Group(capture, body) => ListSpansIff(body, t, icase, i, j);
    case Either(l, r) =>
      ListSpansIff(l, t, icase, i, j);
      ListSpansIff(r, t, icase, i, j);
    case Rep(b, q) =>
      if Spans(e, t, icase, i, j) {
        var n := SpanCount(e, t, icase, i, j);
        SpanTimesIff(b, n, t, icase, i, j);
      }
      if Matches(e, t, icase, i, j) {
        var n := RepCount(e, t, icase, i, j);
        SpanTimesIff(b, n, t, icase, i, j);
      }
    case _ => SingleBounds(e, t, icase, i);
  }

  lemma SingleBounds(e: Elem, t: Text, icase: bool, i: nat)
    requires IsSingle(e)
    ensures SingleEnd(e, t, icase, i).Some? ==> i <= SingleEnd(e, t, icase, i).value
  {
  }

  lemma {:induction false} SpanTimesIff(e: Elem, n: nat, t: Text, icase: bool, i: nat, j: nat)
    ensures SpanTimes(e, n, t, icase, i, j) ==> i <= j
    ensures Repeats(e, n, t, icase, i, j) ==> i <= j
    ensures j <= |t.str| ==> (Repeats(e, n, t, icase, i, j) <==> SpanTimes(e, n, t, icase, i, j))
    decreases e, 2, n
  {
    hide Matches, Spans;
    if n > 0 && SpanTimes(e, n, t, icase, i, j) {
      var m := LastSpan(e, n, t, icase, i, j);
      SpanTimesIff(e, n - 1, t, icase, i, m);
      SpansIff(e, t, icase, m, j);
    }
    if n > 0 && Repeats(e, n, t, icase, i, j) {
      var m := LastRepeat(e, n, t, icase, i, j);
      SpanTimesIff(e, n - 1, t, icase, i, m);
      SpansIff(e, t, icase, m, j);
    }
  }

  lemma {:induction false} ListSpansIff(c: List, t: Text, icase: bool, i: nat, j: nat)
    ensures ListSpans(c, t, icase, i, j) ==> i <= j
    ensures ListMatches(c, t, icase, i, j) <==> ListSpans(c, t, icase, i, j) && j <= |t.str|
    decreases c, 1, 0
  {
    hide Matches, Spans;
    match c
    case Last(e) => SpansIff(e, t, icase, i, j);
    case More(e, rest) =>
      if ListSpans(c, t, icase, i, j) {
        var m := FirstSpan(c, t, icase, i, j);
        SpansIff(e, t, icase, i, m);
        ListSpansIff(rest, t, icase, m, j);
      }
      if ListMatches(c, t, icase, i, j) {
        var m := FirstMatch(c, t, icase, i, j);
        SpansIff(e, t, icase, i, m);
        ListSpansIff(rest, t, icase, m, j);
      }
  }

  // ---------------------------------------------------------------- trees with at most one match

  /** No repetition and no alternative: the text decides every step. */
  predicate Rigid(e: Elem) {
    match e
    case Group(capture, body) => RigidList(body)
    case Rep(b, q) => false
    case Either(l, r) => false
    case _ => true
  }

  predicate RigidList(c: List) {
    match c
    case Last(e) => Rigid(e)
    case More(e, rest) => Rigid(e) && RigidList(rest)
  }

  lemma {:induction false} MatchBounds(e: Elem, t: Text, icase: bool, i: nat, j: nat)
    requires Matches(e, t, icase, i, j)
    ensures i <= j <= |t.str|
  {
  }

  // ---------------------------------------------------------------- a final repetition

  /** A single node that always takes one character. */
  predicate Consumes(e: Elem) {
    e.Lit? || e.CharKind? || e.Any? || e.Set?
  }

  /** The matcher gives up counting after this many turns of a loop. */
  const MAX_REPEATS := 0x10000

  /** Rigid elements, the last of which may be a repetition of single characters. */
  predicate Decided(c: List) {
    match c
    case Last(e) => Rigid(e) || (e.Rep? && Consumes(e.e))
    case More(e, rest) => Rigid(e) && Decided(rest)
  }

  /** What stands between a match up to the end of the text and its acceptance:
      the cap on the count, and, where nothing is left of the text, an element
      that takes the terminator for a character. */
  ghost predicate Reaches(e: Elem, t: Text, icase: bool, i: nat) {
    && Matches(e, t, icase, i, |t.str|)
    && (e.Rep? && Consumes(e.e) ==>
          && |t.str| - i <= MAX_REPEATS
          && (i < |t.str| || High(e.q) == 0 || SingleEnd(e.e, t, icase, i) == None))
  }

  ghost predicate ListReaches(c: List, t: Text, icase: bool, i: nat)
    decreases c
  {
    match c
    case Last(e) => Reaches(e, t, icase, i)
    case More(e, rest) => exists m: nat :: Matches(e, t, icase, i, m) && ListReaches(rest, t, icase, m)
  }

  lemma {:induction false} RigidHasNoRep(e: Elem)
    requires Rigid(e)
    ensures !e.Rep?
  {
  }
}
