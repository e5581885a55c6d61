/** When the T-Rex matcher accepts exactly the language of a pattern, and what it
    does elsewhere (lib/argtable/argtable3.c, `trex_matchnode`): laws about the answers
    of TrexAnswers.dfy in terms of what the tree spans and matches. */
module TrexLaws {
  import opened Wrappers
  import opened TrexSyntax
  import opened TrexSemantics
  import opened TrexAnswers

  // ---------------------------------------------------------------- rigid trees

  /** Where the text decides every step, the answer is the stretch spanned. */
  lemma {:induction false} RigidAnswer(e: Elem, after: Option<List>, seen: bool, t: Text, icase: bool, i: nat, j: nat)
    requires Rigid(e)
    ensures Answer(e, after, seen, t, icase, i) == Some(j) <==> Spans(e, t, icase, i, j)
    decreases e
  {
    hide SingleEnd;
    if e.Group? {
      RigidListAnswer(e.body, true, if seen then after else None, t, icase, i, j);
    }
  }

  lemma {:induction false} RigidListAnswer(c: List, ahead: bool, after: Option<List>, t: Text, icase: bool, i: nat, j: nat)
    requires RigidList(c)
    ensures ListAnswer(c, ahead, after, t, icase, i) == Some(j) <==> ListSpans(c, t, icase, i, j)
    decreases c
  {
    hide Answer, Spans;
    match c
    case Last(e) => RigidAnswer(e, after, ahead, t, icase, i, j);
    case More(e, rest) =>
      var m := Answer(e, Some(rest), ahead, t, icase, i);
      if m.Some? {
        RigidAnswer(e, Some(rest), ahead, t, icase, i, m.value);
        RigidListAnswer(rest, ahead, after, t, icase, m.value, j);
      }
      if ListSpans(c, t, icase, i, j) {
        var k := FirstSpan(c, t, icase, i, j);
        RigidAnswer(e, Some(rest), ahead, t, icase, i, k);
      }
  }

  // ---------------------------------------------------------------- alternatives

  ghost predicate SpansNothing(c: List, t: Text, icase: bool, i: nat) {
    forall j: nat :: !ListSpans(c, t, icase, i, j)
  }

  /** Of two rigid alternatives the first is taken if it spans anything, else the second. */
  lemma EitherIsFirst(l: List, r: List, after: Option<List>, seen: bool, t: Text, icase: bool, i: nat, j: nat)
    requires RigidList(l) && RigidList(r)
    ensures ListMatches(l, t, icase, i, j) ==> Answer(Either(l, r), after, seen, t, icase, i) == Some(j)
    ensures SpansNothing(l, t, icase, i) && ListMatches(r, t, icase, i, j) ==> Answer(Either(l, r), after, seen, t, icase, i) == Some(j)
    ensures SpansNothing(l, t, icase, i) && SpansNothing(r, t, icase, i) ==> Answer(Either(l, r), after, seen, t, icase, i) == None
  {
    hide ListSpans, ListMatches, ListAnswer;
    ListSpansIff(l, t, icase, i, j);
    ListSpansIff(r, t, icase, i, j);
    RigidListAnswer(l, false, None, t, icase, i, j);
    RigidListAnswer(r, false, None, t, icase, i, j);
    Answered(l, false, None, t, icase, i);
    Answered(r, false, None, t, icase, i);
  }

  lemma Answered(c: List, ahead: bool, after: Option<List>, t: Text, icase: bool, i: nat)
    requires RigidList(c)
    ensures SpansNothing(c, t, icase, i) <==> ListAnswer(c, ahead, after, t, icase, i) == None
  {
    hide ListSpans, ListAnswer;
    forall j: nat ensures ListAnswer(c, ahead, after, t, icase, i) == Some(j) <==> ListSpans(c, t, icase, i, j) {
      RigidListAnswer(c, ahead, after, t, icase, i, j);
    }
    if ListAnswer(c, ahead, after, t, icase, i).Some? {
      assert ListSpans(c, t, icase, i, ListAnswer(c, ahead, after, t, icase, i).value);
    }
  }

  /** All alternatives of a pattern that is nothing but alternatives, whatever the
      grouping, in order. */
  function Alternatives(c: List): (cs: seq<List>)
    ensures cs != []
  {
    match c
    case Last(Either(l, r)) => Alternatives(l) + Alternatives(r)
    case Last(Group(_, body)) => Alternatives(body)
    case _ => [c]
  }

  predicate AllRigid(cs: seq<List>) {
    forall k :: 0 <= k < |cs| ==> RigidList(cs[k])
  }

  ghost predicate AllSpanNothing(cs: seq<List>, t: Text, icase: bool, i: nat) {
    forall k :: 0 <= k < |cs| ==> SpansNothing(cs[k], t, icase, i)
  }

  /** The first of the lists that spans anything from i spans [i, j). */
  ghost predicate FirstSpans(cs: seq<List>, t: Text, icase: bool, i: nat, j: nat) {
    exists k :: 0 <= k < |cs| && ListSpans(cs[k], t, icase, i, j) && AllSpanNothing(cs[..k], t, icase, i)
  }

  lemma FirstSpansConcat(a: seq<List>, b: seq<List>, t: Text, icase: bool, i: nat, j: nat)
    ensures FirstSpans(a + b, t, icase, i, j) <==>
              FirstSpans(a, t, icase, i, j) || (AllSpanNothing(a, t, icase, i) && FirstSpans(b, t, icase, i, j))
    ensures AllSpanNothing(a + b, t, icase, i) <==> AllSpanNothing(a, t, icase, i) && AllSpanNothing(b, t, icase, i)
  {
    hide ListSpans, SpansNothing;
    AllSpanNothingConcat(a, b, t, icase, i);
    if FirstSpans(a + b, t, icase, i, j) {
      var k :| 0 <= k < |a + b| && ListSpans((a + b)[k], t, icase, i, j) && AllSpanNothing((a + b)[..k], t, icase, i);
      if k < |a| {
        assert (a + b)[..k] == a[..k] && (a + b)[k] == a[k];
      } else {
        assert (a + b)[..k] == a + b[..k - |a|] && (a + b)[k] == b[k - |a|];
        AllSpanNothingConcat(a, b[..k - |a|], t, icase, i);
      }
    }
    if FirstSpans(a, t, icase, i, j) {
      var k :| 0 <= k < |a| && ListSpans(a[k], t, icase, i, j) && AllSpanNothing(a[..k], t, icase, i);
      assert (a + b)[..k] == a[..k] && (a + b)[k] == a[k];
    }
    if AllSpanNothing(a, t, icase, i) && FirstSpans(b, t, icase, i, j) {
      var k :| 0 <= k < |b| && ListSpans(b[k], t, icase, i, j) && AllSpanNothing(b[..k], t, icase, i);
      AllSpanNothingConcat(a, b[..k], t, icase, i);
      assert (a + b)[..|a| + k] == a + b[..k] && (a + b)[|a| + k] == b[k];
    }
  }

  lemma AllSpanNothingConcat(a: seq<List>, b: seq<List>, t: Text, icase: bool, i: nat)
    ensures AllSpanNothing(a + b, t, icase, i) <==> AllSpanNothing(a, t, icase, i) && AllSpanNothing(b, t, icase, i)
  {
    hide SpansNothing;
    assert forall k :: 0 <= k < |a| ==> (a + b)[k] == a[k];
    assert forall k :: 0 <= k < |b| ==> (a + b)[|a| + k] == b[k];
  }

  /** The first alternative that spans anything is the one taken, and no other is tried. */
  lemma {:induction false} FirstAlternative(c: List, ahead: bool, after: Option<List>, t: Text, icase: bool, i: nat, j: nat)
    requires AllRigid(Alternatives(c))
    ensures ListAnswer(c, ahead, after, t, icase, i) == Some(j) <==> FirstSpans(Alternatives(c), t, icase, i, j)
    ensures ListAnswer(c, ahead, after, t, icase, i) == None <==> AllSpanNothing(Alternatives(c), t, icase, i)
    decreases c
  {
    match c
    case Last(Either(l, r)) =>
      hide FirstSpans, AllSpanNothing;
      RigidParts(Alternatives(l), Alternatives(r));
      FirstSpansConcat(Alternatives(l), Alternatives(r), t, icase, i, j);
      FirstAlternative(l, false, None, t, icase, i, j);
      FirstAlternative(r, false, None, t, icase, i, j);
    case Last(Group(_, body)) =>
      hide FirstSpans, AllSpanNothing;
      FirstAlternative(body, true, if ahead then after else None, t, icase, i, j);
    case _ =>
      OneAlternative(c, ahead, after, t, icase, i, j);
  }

  lemma RigidParts(a: seq<List>, b: seq<List>)
    requires AllRigid(a + b)
    ensures AllRigid(a) && AllRigid(b)
  {
    assert forall k :: 0 <= k < |a| ==> (a + b)[k] == a[k];
    assert forall k :: 0 <= k < |b| ==> (a + b)[|a| + k] == b[k];
  }

  lemma OneAlternative(c: List, ahead: bool, after: Option<List>, t: Text, icase: bool, i: nat, j: nat)
    requires AllRigid([c])
    ensures ListAnswer(c, ahead, after, t, icase, i) == Some(j) <==> FirstSpans([c], t, icase, i, j)
    ensures ListAnswer(c, ahead, after, t, icase, i) == None <==> AllSpanNothing([c], t, icase, i)
  {
    hide ListSpans, ListAnswer, SpansNothing;
    assert [c][0] == c;
    Answered(c, ahead, after, t, icase, i);
    RigidListAnswer(c, ahead, after, t, icase, i, j);
    if ListSpans(c, t, icase, i, j) {
      assert AllSpanNothing([c][..0], t, icase, i) && ListSpans([c][0], t, icase, i, j);
    }
  }

  /** An element that takes the terminator for a character. */
  predicate TakesEnd(e: Elem, t: Text, icase: bool) {
    match e
    case Group(_, body) => ListTakesEnd(body, t, icase)
    case Either(l, r) => ListTakesEnd(l, t, icase) || ListTakesEnd(r, t, icase)
    case Rep(b, _) => TakesEnd(b, t, icase)
    case _ => SingleEnd(e, t, icase, |t.str|) == Some(|t.str| + 1)
  }

  predicate ListTakesEnd(c: List, t: Text, icase: bool) {
    match c
    case Last(e) => TakesEnd(e, t, icase)
    case More(e, rest) => TakesEnd(e, t, icase) || ListTakesEnd(rest, t, icase)
  }

  /** Trees without such an element span nothing but what they match. */
  lemma {:induction false} SpansInside(e: Elem, t: Text, icase: bool, i: nat, j: nat)
    requires !TakesEnd(e, t, icase) && i <= |t.str| && Spans(e, t, icase, i, j)
    ensures j <= |t.str|
    decreases e, 1, 0
  {
    match e
    case Group(_, body) => ListSpansInside(body, t, icase, i, j);
    case Either(l, r) =>
      if ListSpans(l, t, icase, i, j) {
        ListSpansInside(l, t, icase, i, j);
      } else {
        ListSpansInside(r, t, icase, i, j);
      }
    case Rep(b, _) =>
      var n := SpanCount(e, t, icase, i, j);
      TimesInside(b, n, t, icase, i, j);
    case _ => SingleInside(e, t, icase, i);
  }

  lemma SingleInside(e: Elem, t: Text, icase: bool, i: nat)
    requires IsSingle(e) && SingleEnd(e, t, icase, |t.str|) != Some(|t.str| + 1) && i <= |t.str|
    ensures SingleEnd(e, t, icase, i).Some? ==> SingleEnd(e, t, icase, i).value <= |t.str|
  {
    hide InItems, AtBoundary, InKind, SameChar;
  }

  lemma {:induction false} TimesInside(e: Elem, n: nat, t: Text, icase: bool, i: nat, j: nat)
    requires !TakesEnd(e, t, icase) && i <= |t.str| && SpanTimes(e, n, t, icase, i, j)
    ensures j <= |t.str|
    decreases e, 2, n
  {
    if n > 0 {
      var m := LastSpan(e, n, t, icase, i, j);
      TimesInside(e, n - 1, t, icase, i, m);
      SpansInside(e, t, icase, m, j);
    }
  }

  lemma {:induction false} ListSpansInside(c: List, t: Text, icase: bool, i: nat, j: nat)
    requires !ListTakesEnd(c, t, icase) && i <= |t.str| && ListSpans(c, t, icase, i, j)
    ensures j <= |t.str|
    decreases c, 1, 0
  {
    match c
    case Last(e) => SpansInside(e, t, icase, i, j);
    case More(e, rest) =>
      var m := FirstSpan(c, t, icase, i, j);
      SpansInside(e, t, icase, i, m);
      ListSpansInside(rest, t, icase, m, j);
  }

  // ---------------------------------------------------------------- repetitions of single characters

  predicate Takes(b: Elem, t: Text, icase: bool, p: nat)
    requires Consumes(b)
  {
    SingleEnd(b, t, icase, p).Some?
  }

  /** In a loop that began at i: a reason to stop at p, one character being taken in a turn. */
  predicate EndsAt(b: Elem, q: Quant, after: Option<List>, t: Text, icase: bool, i: nat, p: nat)
    requires Consumes(b) && QuantOk(q) && i <= p
  {
    !Takes(b, t, icase, p) || Full(q, p - i) || (i < p && StopsAt(q, after, t, icase, p - i, p))
  }

  /** The loop that began at i and goes on at s ends at j: the first place with a reason. */
  ghost predicate EndsFirst(b: Elem, q: Quant, after: Option<List>, t: Text, icase: bool, i: nat, s: nat, j: nat)
    requires Consumes(b) && QuantOk(q) && i <= s
  {
    s <= j && EndsAt(b, q, after, t, icase, i, j) && forall p :: s <= p < j ==> !EndsAt(b, q, after, t, icase, i, p)
  }

  lemma {:induction false} TurnsEnd(b: Elem, q: Quant, after: Option<List>, t: Text, icase: bool, i: nat, s: nat)
    requires Consumes(b) && QuantOk(q) && i <= s && (i < s ==> !StopsAt(q, after, t, icase, s - i, s))
    ensures var r := Turns(b, q, after, t, icase, s - i, s);
            i <= r.1 && r.0 == r.1 - i && EndsFirst(b, q, after, t, icase, i, s, r.1)
    decreases MAX_REPEATS - (s - i)
  {
    hide StopsAt, Enough, EndsFirst, Takes, Turns;
    OneTurn(b, q, after, t, icase, s - i, s);
    if Full(q, s - i) || !Takes(b, t, icase, s) {
      EndsHere(b, q, after, t, icase, i, s);
    } else {
      if StopsAt(q, after, t, icase, s + 1 - i, s + 1) {
        EndsHere(b, q, after, t, icase, i, s + 1);
      } else {
        TurnsEnd(b, q, after, t, icase, i, s + 1);
      }
      EndsLater(b, q, after, t, icase, i, s, Turns(b, q, after, t, icase, s - i, s).1);
    }
  }

  lemma OneTurn(b: Elem, q: Quant, after: Option<List>, t: Text, icase: bool, n: nat, s: nat)
    requires Consumes(b) && QuantOk(q)
    ensures Turns(b, q, after, t, icase, n, s) ==
              if Full(q, n) || !Takes(b, t, icase, s) then (n, s)
              else if StopsAt(q, after, t, icase, n + 1, s + 1) then (n + 1, s + 1)
              else Turns(b, q, after, t, icase, n + 1, s + 1)
  {
    hide StopsAt, Full;
    if Takes(b, t, icase, s) {
      TakesOne(b, t, icase, s);
    }
  }

  lemma EndsHere(b: Elem, q: Quant, after: Option<List>, t: Text, icase: bool, i: nat, s: nat)
    requires Consumes(b) && QuantOk(q) && i <= s && EndsAt(b, q, after, t, icase, i, s)
    ensures EndsFirst(b, q, after, t, icase, i, s, s)
  {
  }

  lemma EndsLater(b: Elem, q: Quant, after: Option<List>, t: Text, icase: bool, i: nat, s: nat, j: nat)
    requires Consumes(b) && QuantOk(q) && i <= s && !EndsAt(b, q, after, t, icase, i, s)
    requires EndsFirst(b, q, after, t, icase, i, s + 1, j)
    ensures EndsFirst(b, q, after, t, icase, i, s, j)
  {
    hide EndsAt;
  }

  lemma TakesOne(b: Elem, t: Text, icase: bool, p: nat)
    requires Consumes(b) && Takes(b, t, icase, p)
    ensures SingleEnd(b, t, icase, p) == Some(p + 1) && IsSingle(b)
  {
  }

  lemma RepAnswer(b: Elem, q: Quant, after: Option<List>, seen: bool, t: Text, icase: bool, i: nat) returns (j: nat)
    requires Consumes(b) && QuantOk(q)
    ensures i <= j && EndsFirst(b, q, after, t, icase, i, i, j)
    ensures Answer(Rep(b, q), after, seen, t, icase, i) == if Enough(q, j - i) then Some(j) else None
  {
    hide Turns, EndsFirst, Enough;
    TurnsEnd(b, q, after, t, icase, i, i);
    j := Turns(b, q, after, t, icase, 0, i).1;
  }

  /** What a repetition of single characters matches. */
  lemma {:induction false} RunTaken(b: Elem, n: nat, t: Text, icase: bool, i: nat, j: nat)
    requires Consumes(b)
    ensures SpanTimes(b, n, t, icase, i, j) <==> j == i + n && forall p :: i <= p < j ==> Takes(b, t, icase, p)
    decreases n
  {
    hide SingleEnd;
    if n > 0 {
      if SpanTimes(b, n, t, icase, i, j) {
        var m := LastSpan(b, n, t, icase, i, j);
        RunTaken(b, n - 1, t, icase, i, m);
        SingleTaken(b, t, icase, m, j);
      }
      if j == i + n && forall p :: i <= p < j ==> Takes(b, t, icase, p) {
        RunTaken(b, n - 1, t, icase, i, j - 1);
        SingleTaken(b, t, icase, j - 1, j);
      }
    }
  }

  lemma SingleTaken(b: Elem, t: Text, icase: bool, m: nat, j: nat)
    requires Consumes(b)
    ensures Spans(b, t, icase, m, j) <==> j == m + 1 && Takes(b, t, icase, m)
  {
    hide SingleEnd;
    if Takes(b, t, icase, m) {
      TakesOne(b, t, icase, m);
    }
  }

  lemma RepMatched(b: Elem, q: Quant, t: Text, icase: bool, i: nat, j: nat)
    requires Consumes(b) && QuantOk(q)
    ensures Spans(Rep(b, q), t, icase, i, j) <==> i <= j && Enough(q, j - i) && forall p :: i <= p < j ==> Takes(b, t, icase, p)
  {
    hide SpanTimes, Takes;
    if Spans(Rep(b, q), t, icase, i, j) {
      var n := SpanCount(Rep(b, q), t, icase, i, j);
      RunTaken(b, n, t, icase, i, j);
    }
    if i <= j {
      RunTaken(b, j - i, t, icase, i, j);
    }
  }

  // ---------------------------------------------------------------- a repetition and what follows it

  ghost predicate Starts(e: Elem, t: Text, icase: bool, i: nat) {
    exists j: nat :: Spans(e, t, icase, i, j)
  }

  /** A reason for a repetition to end at p after n turns: no further turn, the end of the
      text, or, if the count is enough, the element that follows. */
  ghost predicate MayEnd(b: Elem, q: Quant, d: Option<Elem>, t: Text, icase: bool, n: nat, p: nat)
    requires QuantOk(q)
  {
    || !Starts(b, t, icase, p)
    || Full(q, n)
    || (n > 0 && (p >= |t.str| || (Enough(q, n) && d.Some? && Starts(d.value, t, icase, p))))
  }

  /** Fewer than n turns are no reason to end. */
  ghost predicate NotBefore(b: Elem, q: Quant, d: Option<Elem>, t: Text, icase: bool, i: nat, n: nat)
    requires QuantOk(q)
  {
    forall k: nat, p: nat :: k < n && SpanTimes(b, k, t, icase, i, p) ==> !MayEnd(b, q, d, t, icase, k, p)
  }

  /** The repetition from i makes n turns and ends at m, the first place where it may. */
  ghost predicate RunEnds(b: Elem, q: Quant, d: Option<Elem>, t: Text, icase: bool, i: nat, n: nat, m: nat)
    requires QuantOk(q)
  {
    SpanTimes(b, n, t, icase, i, m) && MayEnd(b, q, d, t, icase, n, m) && NotBefore(b, q, d, t, icase, i, n)
  }

  lemma RigidStarts(b: Elem, after: Option<List>, t: Text, icase: bool, p: nat)
    requires Rigid(b)
    ensures Starts(b, t, icase, p) <==> Answer(b, after, true, t, icase, p).Some?
  {
    hide Answer;
    var r := Answer(b, after, true, t, icase, p);
    if r.Some? {
      RigidAnswer(b, after, true, t, icase, p, r.value);
    }
    if Starts(b, t, icase, p) {
      var j: nat :| Spans(b, t, icase, p, j);
      RigidAnswer(b, after, true, t, icase, p, j);
    }
  }

  lemma {:induction false} TimesOnce(b: Elem, n: nat, t: Text, icase: bool, i: nat, p: nat, q: nat)
    requires Rigid(b) && SpanTimes(b, n, t, icase, i, p) && SpanTimes(b, n, t, icase, i, q)
    ensures p == q
    decreases n
  {
    if n > 0 {
      var m := LastSpan(b, n, t, icase, i, p);
      var k := LastSpan(b, n, t, icase, i, q);
      TimesOnce(b, n - 1, t, icase, i, m, k);
      RigidAnswer(b, None, true, t, icase, m, p);
      RigidAnswer(b, None, true, t, icase, m, q);
    }
  }

  ghost function HeadOf(after: Option<List>): Option<Elem> {
    if after.Some? then Some(after.value.e) else None
  }

  /** What comes next, where it is a rigid list. */
  predicate RigidAfter(after: Option<List>) {
    after.Some? ==> RigidList(after.value)
  }

  lemma StopsWhere(b: Elem, q: Quant, after: Option<List>, t: Text, icase: bool, n: nat, p: nat)
    requires QuantOk(q) && Rigid(b) && RigidAfter(after)
    ensures MayEnd(b, q, HeadOf(after), t, icase, n, p) <==>
              Full(q, n) || Answer(b, after, true, t, icase, p) == None || (n > 0 && StopsAt(q, after, t, icase, n, p))
  {
    hide Answer, Starts, Enough, Full;
    RigidStarts(b, after, t, icase, p);
    if after.Some? {
      RigidHasNoRep(after.value.e);
      RigidStarts(after.value.e, TailOf(after.value), t, icase, p);
    }
  }

  lemma OnceMore(b: Elem, q: Quant, d: Option<Elem>, t: Text, icase: bool, i: nat, n: nat, s: nat)
    requires QuantOk(q) && Rigid(b) && SpanTimes(b, n, t, icase, i, s)
    requires NotBefore(b, q, d, t, icase, i, n) && !MayEnd(b, q, d, t, icase, n, s)
    ensures NotBefore(b, q, d, t, icase, i, n + 1)
  {
    hide MayEnd;
    forall k: nat, p: nat | k < n + 1 && SpanTimes(b, k, t, icase, i, p) ensures !MayEnd(b, q, d, t, icase, k, p) {
      if k == n {
        TimesOnce(b, n, t, icase, i, p, s);
      }
    }
  }

  lemma AnotherSpan(b: Elem, after: Option<List>, t: Text, icase: bool, i: nat, n: nat, s: nat, v: nat)
    requires SpanTimes(b, n, t, icase, i, s) && Answer(b, after, true, t, icase, s) == Some(v)
    ensures SpanTimes(b, n + 1, t, icase, i, v)
  {
    hide Answer;
    AnswerSpans(b, after, true, t, icase, s);
  }

  lemma {:induction false} TurnsRun(b: Elem, q: Quant, after: Option<List>, t: Text, icase: bool, i: nat, n: nat, s: nat)
    requires QuantOk(q) && Rigid(b) && RigidAfter(after) && SpanTimes(b, n, t, icase, i, s)
    requires NotBefore(b, q, HeadOf(after), t, icase, i, n) && (n > 0 ==> !StopsAt(q, after, t, icase, n, s))
    ensures var r := Turns(b, q, after, t, icase, n, s); RunEnds(b, q, HeadOf(after), t, icase, i, r.0, r.1)
    decreases MAX_REPEATS - n
  {
    hide MayEnd, NotBefore, SpanTimes, StopsAt, Answer, HeadOf;
    StopsWhere(b, q, after, t, icase, n, s);
    var next := Answer(b, after, true, t, icase, s);
    if !Full(q, n) && next.Some? {
      AnotherSpan(b, after, t, icase, i, n, s, next.value);
      OnceMore(b, q, HeadOf(after), t, icase, i, n, s);
      if StopsAt(q, after, t, icase, n + 1, next.value) {
        StopsWhere(b, q, after, t, icase, n + 1, next.value);
      } else {
        TurnsRun(b, q, after, t, icase, i, n + 1, next.value);
      }
    }
  }

  /** The answer of a repetition of a rigid element in front of a rigid list, or of nothing. */
  lemma RunAnswer(b: Elem, q: Quant, after: Option<List>, seen: bool, t: Text, icase: bool, i: nat) returns (n: nat, m: nat)
    requires Rigid(b) && QuantOk(q) && RigidAfter(after)
    ensures RunEnds(b, q, HeadOf(after), t, icase, i, n, m)
    ensures Answer(Rep(b, q), after, seen, t, icase, i) == if Enough(q, n) then Some(m) else None
  {
    hide Turns, RunEnds, Enough;
    TurnsRun(b, q, after, t, icase, i, 0, i);
    n, m := Turns(b, q, after, t, icase, 0, i).0, Turns(b, q, after, t, icase, 0, i).1;
  }

  lemma RunOnce(b: Elem, q: Quant, d: Option<Elem>, t: Text, icase: bool, i: nat, n: nat, m: nat, n': nat, m': nat)
    requires QuantOk(q) && Rigid(b)
    requires RunEnds(b, q, d, t, icase, i, n, m) && RunEnds(b, q, d, t, icase, i, n', m')
    ensures n == n' && m == m'
  {
    hide MayEnd;
    if n == n' {
      TimesOnce(b, n, t, icase, i, m, m');
    }
  }

  /** Some run of the repetition that may end where it does, and the rest behind it. */
  ghost predicate RunThen(b: Elem, q: Quant, d: Option<Elem>, rest: List, t: Text, icase: bool, i: nat, j: nat)
    requires QuantOk(q)
  {
    exists n: nat, m: nat :: RunEnds(b, q, d, t, icase, i, n, m) && Enough(q, n) && ListSpans(rest, t, icase, m, j)
  }

  /** A repetition of a rigid element ends at the first place where it may, and what
      follows, a rigid list, begins there and nowhere else. */
  lemma RepetitionThen(b: Elem, q: Quant, rest: List, ahead: bool, after: Option<List>, t: Text, icase: bool, i: nat, j: nat)
    requires Rigid(b) && QuantOk(q) && RigidList(rest)
    ensures ListAnswer(More(Rep(b, q), rest), ahead, after, t, icase, i) == Some(j) <==> RunThen(b, q, Some(rest.e), rest, t, icase, i, j)
  {
    hide Answer, RunThen;
    ThenRest(Rep(b, q), b, q, Some(rest), rest, ahead, ahead, after, t, icase, i, j);
  }

  /** In a group it sees what follows the group, but not so inside alternatives, where
      it ends at the last place where it can. */
  lemma GroupedRepetitionThen(b: Elem, q: Quant, capture: bool, rest: List, ahead: bool, after: Option<List>, t: Text, icase: bool, i: nat, j: nat)
    requires Rigid(b) && QuantOk(q) && RigidList(rest)
    ensures ListAnswer(More(Group(capture, Last(Rep(b, q))), rest), ahead, after, t, icase, i) == Some(j) <==>
              RunThen(b, q, if ahead then Some(rest.e) else None, rest, t, icase, i, j)
  {
    hide Answer, RunThen;
    GroupOfOne(capture, Rep(b, q), Some(rest), ahead, t, icase, i);
    ThenRest(Group(capture, Last(Rep(b, q))), b, q, if ahead then Some(rest) else None, rest, ahead, true, after, t, icase, i, j);
  }

  lemma GroupOfOne(capture: bool, e: Elem, after: Option<List>, seen: bool, t: Text, icase: bool, i: nat)
    ensures Answer(Group(capture, Last(e)), after, seen, t, icase, i) == Answer(e, if seen then after else None, true, t, icase, i)
  {
  }

  lemma ThenRest(e: Elem, b: Elem, q: Quant, next: Option<List>, rest: List, ahead: bool, seen: bool, after: Option<List>,
                 t: Text, icase: bool, i: nat, j: nat)
    requires Rigid(b) && QuantOk(q) && RigidList(rest) && (next == None || next == Some(rest))
    requires Answer(e, Some(rest), ahead, t, icase, i) == Answer(Rep(b, q), next, seen, t, icase, i)
    ensures ListAnswer(More(e, rest), ahead, after, t, icase, i) == Some(j) <==> RunThen(b, q, HeadOf(next), rest, t, icase, i, j)
  {
    hide Answer, ListSpans, Enough, RunEnds;
    var n, m := RunAnswer(b, q, next, seen, t, icase, i);
    RigidListAnswer(rest, ahead, after, t, icase, m, j);
    forall n': nat, m': nat | RunEnds(b, q, HeadOf(next), t, icase, i, n', m') ensures n' == n && m' == m {
      RunOnce(b, q, HeadOf(next), t, icase, i, n, m, n', m');
    }
  }

  // ---------------------------------------------------------------- where the language is accepted exactly

  /** A fixed number of single characters. */
  predicate Fixed(e: Elem) {
    e.Rep? && Consumes(e.e) && QuantOk(e.q) && Low(e.q) == High(e.q) && High(e.q) != NO_LIMIT
  }

  /** What follows a repetition may begin at p: its first element is there, or, where
      that may be skipped, all of it. */
  ghost predicate Begins(c: List, t: Text, icase: bool, p: nat, toEnd: bool) {
    if !Skippable(c.e) then Starts(c.e, t, icase, p)
    else if toEnd then ListReaches(c, t, icase, p)
    else exists j: nat :: ListMatches(c, t, icase, p, j)
  }

  /** A repetition of single characters that cannot go on where what follows begins. */
  ghost predicate Parted(e: Elem, rest: List, t: Text, icase: bool, toEnd: bool) {
    && e.Rep? && Consumes(e.e) && QuantOk(e.q)
    && (High(e.q) == NO_LIMIT ==> |t.str| <= MAX_REPEATS)
    && forall p :: 0 <= p <= |t.str| && Takes(e.e, t, icase, p) ==> !Begins(rest, t, icase, p, toEnd)
  }

  /** Where the first alternative spans anything, the second matches nothing else. */
  ghost predicate OneSided(l: List, r: List, t: Text, icase: bool) {
    forall i: nat, j: nat, k: nat :: ListSpans(l, t, icase, i, j) && ListMatches(r, t, icase, i, k) ==> j == k
  }

  /** At every choice in the element the text allows one way to go. */
  ghost predicate Sure(e: Elem, t: Text, icase: bool) {
    match e
    case Group(_, body) => ListSure(body, t, icase)
    case Either(l, r) => ListSure(l, t, icase) && ListSure(r, t, icase) && OneSided(l, r, t, icase)
    case Rep(_, _) => Fixed(e)
    case _ => true
  }

  ghost predicate ListSure(c: List, t: Text, icase: bool) {
    match c
    case Last(e) => Sure(e, t, icase)
    case More(e, rest) => ListSure(rest, t, icase) && (Sure(e, t, icase) || Parted(e, rest, t, icase, false))
  }

  lemma {:induction false} RigidIsSure(e: Elem, t: Text, icase: bool)
    requires Rigid(e)
    ensures Sure(e, t, icase)
    decreases e
  {
    if e.Group? {
      RigidListIsSure(e.body, t, icase);
    }
  }

  lemma {:induction false} RigidListIsSure(c: List, t: Text, icase: bool)
    requires RigidList(c)
    ensures ListSure(c, t, icase)
    decreases c
  {
    RigidIsSure(c.e, t, icase);
    if c.More? {
      RigidListIsSure(c.rest, t, icase);
    }
  }

  /** Every match of a sure element is answered. */
  lemma {:induction false} SureAnswer(e: Elem, after: Option<List>, seen: bool, t: Text, icase: bool, i: nat, j: nat)
    requires Sure(e, t, icase) && Matches(e, t, icase, i, j)
    ensures Answer(e, after, seen, t, icase, i) == Some(j)
    decreases e, 1
  {
    match e
    case Group(_, body) => SureListAnswer(body, true, if seen then after else None, t, icase, i, j);
    case Either(l, r) => SureEither(e, t, icase, i, j);
    case Rep(b, q) => FixedAnswer(b, q, after, seen, t, icase, i, j);
    case _ =>
  }

  lemma {:induction false} SureEither(e: Elem, t: Text, icase: bool, i: nat, j: nat)
    requires e.Either? && ListSure(e.l, t, icase) && ListSure(e.r, t, icase) && OneSided(e.l, e.r, t, icase)
    requires ListMatches(e.l, t, icase, i, j) || ListMatches(e.r, t, icase, i, j)
    ensures var first := ListAnswer(e.l, false, None, t, icase, i);
            first == Some(j) || (first == None && ListAnswer(e.r, false, None, t, icase, i) == Some(j))
    decreases e, 0
  {
    hide ListAnswer, ListSure, ListMatches, ListSpans;
    if ListMatches(e.l, t, icase, i, j) {
      SureListAnswer(e.l, false, None, t, icase, i, j);
    } else {
      SureListAnswer(e.r, false, None, t, icase, i, j);
      ListAnswerSpans(e.l, false, None, t, icase, i);
    }
  }

  lemma FixedAnswer(b: Elem, q: Quant, after: Option<List>, seen: bool, t: Text, icase: bool, i: nat, j: nat)
    requires Fixed(Rep(b, q)) && Matches(Rep(b, q), t, icase, i, j)
    ensures Answer(Rep(b, q), after, seen, t, icase, i) == Some(j)
  {
    hide Answer, Spans, Matches, Takes, Low, High;
    SpansIff(Rep(b, q), t, icase, i, j);
    RepMatched(b, q, t, icase, i, j);
    var m := RepAnswer(b, q, after, seen, t, icase, i);
    assert EndsAt(b, q, after, t, icase, i, j);
  }

  lemma {:induction false} SureListAnswer(c: List, ahead: bool, after: Option<List>, t: Text, icase: bool, i: nat, j: nat)
    requires ListSure(c, t, icase) && ListMatches(c, t, icase, i, j)
    ensures ListAnswer(c, ahead, after, t, icase, i) == Some(j)
    decreases c, 2
  {
    hide Answer, Sure, Parted, Matches;
    match c
    case Last(e) => SureAnswer(e, after, ahead, t, icase, i, j);
    case More(e, rest) =>
      var m := FirstMatch(c, t, icase, i, j);
      if Sure(e, t, icase) {
        SureAnswer(e, Some(rest), ahead, t, icase, i, m);
      } else {
        MatchBegins(rest, t, icase, m, j);
        PartedAnswer(e, rest, ahead, t, icase, i, m, false);
      }
      SureListAnswer(rest, ahead, after, t, icase, m, j);
  }

  lemma MatchBegins(c: List, t: Text, icase: bool, i: nat, j: nat)
    requires ListMatches(c, t, icase, i, j)
    ensures Begins(c, t, icase, i, false)
  {
    hide Matches, Spans;
    var m := j;
    if c.More? {
      m := FirstMatch(c, t, icase, i, j);
    }
    SpansIff(c.e, t, icase, i, m);
  }

  /** The repetition stops where what follows begins. */
  lemma PartedAnswer(e: Elem, rest: List, ahead: bool, t: Text, icase: bool, i: nat, m: nat, toEnd: bool)
    requires Parted(e, rest, t, icase, toEnd) && Matches(e, t, icase, i, m) && Begins(rest, t, icase, m, toEnd)
    ensures Answer(e, Some(rest), ahead, t, icase, i) == Some(m)
  {
    hide Answer, Spans, Matches, Takes, Low, High, Begins, LooksFor;
    SpansIff(e, t, icase, i, m);
    MatchBounds(e, t, icase, i, m);
    RepMatched(e.e, e.q, t, icase, i, m);
    var k := RepAnswer(e.e, e.q, Some(rest), ahead, t, icase, i);
    assert EndsAt(e.e, e.q, Some(rest), t, icase, i, m);
    if k < m {
      assert Takes(e.e, t, icase, k);
      if LooksFor(rest, t, icase, k) {
        LooksBegins(rest, t, icase, k, toEnd);
      }
    }
  }

  lemma LooksBegins(c: List, t: Text, icase: bool, p: nat, toEnd: bool)
    requires LooksFor(c, t, icase, p)
    ensures Begins(c, t, icase, p, toEnd)
  {
    hide Answer, Spans;
    AnswerSpans(c.e, TailOf(c), true, t, icase, p);
  }

  /** The answers inside the text are then exactly the matches. */
  lemma SureExact(c: List, ahead: bool, after: Option<List>, t: Text, icase: bool, i: nat, j: nat)
    requires ListSure(c, t, icase) && j <= |t.str|
    ensures ListAnswer(c, ahead, after, t, icase, i) == Some(j) <==> ListMatches(c, t, icase, i, j)
  {
    hide ListAnswer, ListSure, ListMatches, ListSpans;
    ListSpansIff(c, t, icase, i, j);
    ListAnswerSpans(c, ahead, after, t, icase, i);
    if ListMatches(c, t, icase, i, j) {
      SureListAnswer(c, ahead, after, t, icase, i, j);
    }
  }

  // ---------------------------------------------------------------- a final repetition

  /** The same for a whole pattern, whose last element may be any repetition of single
      characters: only matches up to the end of the text count. */
  ghost predicate Ending(c: List, t: Text, icase: bool) {
    match c
    case Last(e) => Sure(e, t, icase) || (e.Rep? && Consumes(e.e))
    case More(e, rest) => Ending(rest, t, icase) && (Sure(e, t, icase) || Parted(e, rest, t, icase, true))
  }

  lemma {:induction false} DecidedIsEnding(c: List, t: Text, icase: bool)
    requires Decided(c)
    ensures Ending(c, t, icase)
    decreases c
  {
    if Rigid(c.e) {
      RigidIsSure(c.e, t, icase);
    }
    if c.More? {
      DecidedIsEnding(c.rest, t, icase);
    }
  }

  lemma {:induction false} ReachesMatches(c: List, t: Text, icase: bool, i: nat)
    requires ListReaches(c, t, icase, i)
    ensures ListMatches(c, t, icase, i, |t.str|)
    decreases c
  {
    hide Matches;
    if c.More? {
      var m := FirstReach(c, t, icase, i);
      ReachesMatches(c.rest, t, icase, m);
    }
  }

  lemma FirstReach(c: List, t: Text, icase: bool, i: nat) returns (m: nat)
    requires c.More? && ListReaches(c, t, icase, i)
    ensures Matches(c.e, t, icase, i, m) && ListReaches(c.rest, t, icase, m)
  {
    m :| Matches(c.e, t, icase, i, m) && ListReaches(c.rest, t, icase, m);
  }

  lemma ReachBegins(c: List, t: Text, icase: bool, i: nat)
    requires ListReaches(c, t, icase, i)
    ensures Begins(c, t, icase, i, true)
  {
    hide Matches, Spans, ListReaches;
    if !Skippable(c.e) {
      ReachesMatches(c, t, icase, i);
      MatchBegins(c, t, icase, i, |t.str|);
    }
  }

  /** Whatever such a pattern reaches it accepts, and nothing else: no choice is wrong. */
  lemma {:induction false} EndingExact(c: List, t: Text, icase: bool, i: nat)
    requires Ending(c, t, icase)
    ensures ListAnswer(c, true, None, t, icase, i) == Some(|t.str|) <==> i <= |t.str| && ListReaches(c, t, icase, i)
    decreases c
  {
    hide Answer, Sure, Parted, Matches;
    match c
    case Last(e) => LastReaches(e, t, icase, i);
    case More(e, rest) =>
      var r := Answer(e, Some(rest), true, t, icase, i);
      if r.Some? {
        AnswerSpans(e, Some(rest), true, t, icase, i);
        SpansIff(e, t, icase, i, r.value);
        EndingExact(rest, t, icase, r.value);
      }
      if ListReaches(c, t, icase, i) {
        var m := FirstReach(c, t, icase, i);
        ReachAnswer(e, rest, t, icase, i, m);
        MatchBounds(e, t, icase, i, m);
      }
  }

  lemma ReachAnswer(e: Elem, rest: List, t: Text, icase: bool, i: nat, m: nat)
    requires Sure(e, t, icase) || Parted(e, rest, t, icase, true)
    requires Matches(e, t, icase, i, m) && ListReaches(rest, t, icase, m)
    ensures Answer(e, Some(rest), true, t, icase, i) == Some(m)
  {
    hide Answer, Sure, Parted, Matches, ListReaches, Begins;
    if Sure(e, t, icase) {
      SureAnswer(e, Some(rest), true, t, icase, i, m);
    } else {
      ReachBegins(rest, t, icase, m);
      PartedAnswer(e, rest, true, t, icase, i, m, true);
    }
  }

  lemma LastReaches(e: Elem, t: Text, icase: bool, i: nat)
    requires Sure(e, t, icase) || (e.Rep? && Consumes(e.e))
    ensures Answer(e, None, true, t, icase, i) == Some(|t.str|) <==> i <= |t.str| && Reaches(e, t, icase, i)
  {
    hide Answer, Matches, Spans, Sure, Takes;
    var end := |t.str|;
    AnswerSpans(e, None, true, t, icase, i);
    SpansIff(e, t, icase, i, end);
    if e.Rep? && Consumes(e.e) {
      if QuantOk(e.q) {
        FinalAnswer(e.e, e.q, t, icase, i);
      } else {
        BadQuant(e, t, icase, i, end);
      }
    } else if Matches(e, t, icase, i, end) {
      SureAnswer(e, None, true, t, icase, i, end);
    }
  }

  lemma BadQuant(e: Elem, t: Text, icase: bool, i: nat, j: nat)
    requires e.Rep? && !QuantOk(e.q)
    ensures !Matches(e, t, icase, i, j) && Answer(e, None, true, t, icase, i) == None
  {
  }

  /** The longest run reaches the end of the text, unless the terminator is taken too
      or the loop gives up before. */
  lemma FinalAnswer(b: Elem, q: Quant, t: Text, icase: bool, i: nat)
    requires Consumes(b) && QuantOk(q)
    ensures Answer(Rep(b, q), None, true, t, icase, i) == Some(|t.str|) <==> i <= |t.str| && Reaches(Rep(b, q), t, icase, i)
  {
    hide Answer, Matches, Spans, Low, Number, Short;
    var end := |t.str|;
    SpansIff(Rep(b, q), t, icase, i, end);
    RepMatched(b, q, t, icase, i, end);
    var m := RepAnswer(b, q, None, true, t, icase, i);
    if i <= end && Reaches(Rep(b, q), t, icase, i) {
      assert EndsAt(b, q, None, t, icase, i, end);
    } else if m == end {
      assert i < end ==> !EndsAt(b, q, None, t, icase, i, end - 1);
      forall p | i <= p < end ensures Takes(b, t, icase, p) {
        assert !EndsAt(b, q, None, t, icase, i, p);
      }
    }
  }

  // ---------------------------------------------------------------- where it is not

  /** No alternative is taken back: `(a|ab)c` rejects "abc". */
  lemma AlternativeKept(beyond: nat -> char)
    ensures var a, b, c, t := Lit(Plain('a')), Lit(Plain('b')), Lit(Plain('c')), Text("abc", beyond);
            var body := More(Group(true, Last(Either(Last(a), More(a, Last(b))))), Last(c));
            ListMatches(body, t, false, 0, 3) && ListAnswer(body, true, None, t, false, 0) == None
  {
    var a, b, c, t := Lit(Plain('a')), Lit(Plain('b')), Lit(Plain('c')), Text("abc", beyond);
    var group := Group(true, Last(Either(Last(a), More(a, Last(b)))));
    SecondMatches(a, b, t);
    assert Matches(group, t, false, 0, 2) && ListMatches(Last(c), t, false, 2, 3);
    assert Answer(group, Some(Last(c)), true, t, false, 0) == Some(1);
  }

  lemma SecondMatches(a: Elem, b: Elem, t: Text)
    requires Matches(a, t, false, 0, 1) && Matches(b, t, false, 1, 2)
    ensures Matches(Group(true, Last(Either(Last(a), More(a, Last(b))))), t, false, 0, 2)
  {
    hide SingleEnd;
    assert ListMatches(Last(b), t, false, 1, 2);
    assert ListMatches(More(a, Last(b)), t, false, 0, 2);
    assert Matches(Either(Last(a), More(a, Last(b))), t, false, 0, 2);
  }

  /** The first place where the next element is there need not be the right one:
      `a*ab` rejects "aaab". */
  lemma RunTooShort(beyond: nat -> char)
    ensures var a, b, t := Lit(Plain('a')), Lit(Plain('b')), Text("aaab", beyond);
            var body := More(Rep(a, Star), More(a, Last(b)));
            ListMatches(body, t, false, 0, 4) && ListAnswer(body, true, None, t, false, 0) == None
  {
    var a, b, t := Lit(Plain('a')), Lit(Plain('b')), Text("aaab", beyond);
    var rest := More(a, Last(b));
    assert Repeats(a, 0, t, false, 0, 0) && Matches(a, t, false, 0, 1) && Matches(a, t, false, 1, 2);
    assert Repeats(a, 1, t, false, 0, 1) && Repeats(a, 2, t, false, 0, 2);
    assert Matches(Rep(a, Star), t, false, 0, 2);
    assert Matches(a, t, false, 2, 3) && ListMatches(Last(b), t, false, 3, 4) && ListMatches(rest, t, false, 2, 4);
    assert Answer(a, Some(Last(b)), true, t, false, 1) == Some(2) && LooksFor(rest, t, false, 1);
    assert Turns(a, Star, Some(rest), t, false, 0, 0) == (1, 1);
  }

  /** A repetition in a group, repeated or not, looks ahead behind the group, but not in
      an alternative: `(a*)ab` and `(a*)+ab` accept "aab", `(a*)ab|b` rejects it. */
  lemma GroupsLookAhead(beyond: nat -> char)
    ensures var a, b, t := Lit(Plain('a')), Lit(Plain('b')), Text("aab", beyond);
            var group, rest := Group(true, Last(Rep(a, Star))), More(a, Last(b));
            && ListAnswer(More(group, rest), true, None, t, false, 0) == Some(3)
            && ListAnswer(More(Rep(group, Plus), rest), true, None, t, false, 0) == Some(3)
            && ListAnswer(Last(Either(More(group, rest), Last(b))), true, None, t, false, 0) == None
  {
    var a, b, t := Lit(Plain('a')), Lit(Plain('b')), Text("aab", beyond);
    var group, rest := Group(true, Last(Rep(a, Star))), More(a, Last(b));
    hide Turns, LooksFor;
    ShortestRun(beyond);
    LongestRun(beyond);
    RestOfPattern(a, b, t);
    assert ListAnswer(More(group, rest), false, None, t, false, 0) == None;
  }

  lemma RestOfPattern(a: Elem, b: Elem, t: Text)
    requires a == Lit(Plain('a')) && b == Lit(Plain('b')) && t.str == "aab"
    ensures ListAnswer(More(a, Last(b)), true, None, t, false, 1) == Some(3) && ListAnswer(More(a, Last(b)), false, None, t, false, 2) == None
  {
  }

  lemma ShortestRun(beyond: nat -> char)
    ensures var a, b, t := Lit(Plain('a')), Lit(Plain('b')), Text("aab", beyond);
            var group, rest := Group(true, Last(Rep(a, Star))), More(a, Last(b));
            && Answer(group, Some(rest), true, t, false, 0) == Some(1)
            && Answer(Rep(group, Plus), Some(rest), true, t, false, 0) == Some(1)
  {
    var a, b, t := Lit(Plain('a')), Lit(Plain('b')), Text("aab", beyond);
    var group, rest := Group(true, Last(Rep(a, Star))), More(a, Last(b));
    assert Answer(a, Some(Last(b)), true, t, false, 1) == Some(2) && LooksFor(rest, t, false, 1);
    assert Turns(a, Star, Some(rest), t, false, 0, 0) == (1, 1);
    assert Answer(group, Some(rest), true, t, false, 0) == Some(1);
    assert Turns(group, Plus, Some(rest), t, false, 0, 0) == (1, 1);
  }

  lemma LongestRun(beyond: nat -> char)
    ensures var a, b, t := Lit(Plain('a')), Lit(Plain('b')), Text("aab", beyond);
            Answer(Group(true, Last(Rep(a, Star))), Some(More(a, Last(b))), false, t, false, 0) == Some(2)
  {
    var a, t := Lit(Plain('a')), Text("aab", beyond);
    assert Turns(a, Star, None, t, false, 2, 2) == (2, 2);
    assert Turns(a, Star, None, t, false, 1, 1) == (2, 2);
    assert Turns(a, Star, None, t, false, 0, 0) == (2, 2);
  }

  /** An alternative that takes the terminator keeps out the next: `.|$` rejects "". */
  lemma TerminatorTaken(beyond: nat -> char)
    ensures var t, body := Text("", beyond), Last(Either(Last(Any), Last(End)));
            ListMatches(body, t, false, 0, 0) && ListAnswer(body, true, None, t, false, 0) == Some(1)
  {
    var t := Text("", beyond);
    assert ListAnswer(Last(Any), false, None, t, false, 0) == Some(1);
    assert ListMatches(Last(End), t, false, 0, 0);
  }
}
