/** What the T-Rex matcher answers, stated on pattern trees: `trex_matchnode` of
    lib/argtable/argtable3.c never takes a decision back, looks one element ahead
    while it repeats, and runs past the end of the text over the terminator.  The
    methods of TrexMatch.dfy are proved to give these answers; here they are
    compared with the language of the tree. */
module TrexAnswers {
  import opened Wrappers
  import opened TrexSyntax
  import opened TrexSemantics

  // ---------------------------------------------------------------- answers

  function SizeOf(after: Option<List>): nat {
    if after.None? then 0 else ListSize(after.value)
  }

  /** The count is within the bounds. */
  predicate Enough(q: Quant, n: nat)
    requires QuantOk(q)
  {
    Low(q) <= n && (High(q) == NO_LIMIT || n <= High(q))
  }

  /** The loop makes no further turn. */
  predicate Full(q: Quant, n: nat)
    requires QuantOk(q)
  {
    if High(q) == NO_LIMIT then n >= MAX_REPEATS else n >= High(q)
  }

  predicate Skippable(e: Elem) {
    e.Rep? && QuantOk(e.q) && Low(e.q) == 0
  }

  function TailOf(c: List): Option<List> {
    if c.More? then Some(c.rest) else None
  }

  /** The answer for `e` at i: the end of the stretch taken.  `after` is the list behind
      the element; inside alternatives a group does not see it. */
  function Answer(e: Elem, after: Option<List>, seen: bool, t: Text, icase: bool, i: nat): (r: Option<nat>)
    decreases Size(e) + SizeOf(after), 2, 0
  {
    match e
    case Group(capture, body) => ListAnswer(body, true, if seen then after else None, t, icase, i)
    case Either(l, r) =>
      var first := ListAnswer(l, false, None, t, icase, i);
      if first.Some? then first else ListAnswer(r, false, None, t, icase, i)
    case Rep(b, q) =>
      if !QuantOk(q) then None
      else
        var turns := Turns(b, q, after, t, icase, 0, i);
        if Enough(q, turns.0) then Some(turns.1) else None
    case _ => SingleEnd(e, t, icase, i)
  }

  /** How often the body is taken from s on, `n` times having been taken before, and
      where that ends. */
  function Turns(b: Elem, q: Quant, after: Option<List>, t: Text, icase: bool, n: nat, s: nat): (r: (nat, nat))
    requires QuantOk(q)
    decreases Size(b) + 1 + SizeOf(after), 1, MAX_REPEATS - n
  {
    if Full(q, n) then (n, s)
    else
      var next := Answer(b, after, true, t, icase, s);
      if next.None? then (n, s)
      else if StopsAt(q, after, t, icase, n + 1, next.value) then (n + 1, next.value)
      else Turns(b, q, after, t, icase, n + 1, next.value)
  }

  /** After a turn: the text is used up, or what comes next is there. */
  predicate StopsAt(q: Quant, after: Option<List>, t: Text, icase: bool, n: nat, s: nat)
    requires QuantOk(q)
    decreases SizeOf(after) + 1, 0, 0
  {
    s >= |t.str| || (Enough(q, n) && after.Some? && LooksFor(after.value, t, icase, s))
  }

  /** An element that may be skipped altogether is not looked for. */
  predicate LooksFor(c: List, t: Text, icase: bool, s: nat)
    decreases ListSize(c), 3, 0
  {
    !Skippable(c.e) && Answer(c.e, TailOf(c), true, t, icase, s).Some?
  }

  /** One element after the other; `ahead` says that groups in the list see what follows. */
  function ListAnswer(c: List, ahead: bool, after: Option<List>, t: Text, icase: bool, i: nat): (r: Option<nat>)
    decreases ListSize(c) + SizeOf(after), 3, 0
  {
    match c
    case Last(e) => Answer(e, after, ahead, t, icase, i)
    case More(e, rest) =>
      var m := Answer(e, Some(rest), ahead, t, icase, i);
      if m.None? then None else ListAnswer(rest, ahead, after, t, icase, m.value)
  }

  // ---------------------------------------------------------------- every answer is a stretch the tree spans

  lemma {:induction false} AnswerSpans(e: Elem, after: Option<List>, seen: bool, t: Text, icase: bool, i: nat)
    ensures Answer(e, after, seen, t, icase, i).Some? ==> Spans(e, t, icase, i, Answer(e, after, seen, t, icase, i).value)
    decreases Size(e) + SizeOf(after), 2, 0
  {
    hide SingleEnd, Enough, StopsAt, LooksFor;
    match e
    case Group(capture, body) => ListAnswerSpans(body, true, if seen then after else None, t, icase, i);
    case Either(l, r) =>
      ListAnswerSpans(l, false, None, t, icase, i);
      ListAnswerSpans(r, false, None, t, icase, i);
    case Rep(b, q) =>
      if QuantOk(q) {
        assert SpanTimes(b, 0, t, icase, i, i);
        TurnsSpan(b, q, after, t, icase, i, 0, i);
        RepSpans(b, q, Turns(b, q, after, t, icase, 0, i).0, t, icase, i, Turns(b, q, after, t, icase, 0, i).1);
      }
    case _ =>
  }

  lemma RepSpans(b: Elem, q: Quant, n: nat, t: Text, icase: bool, i: nat, j: nat)
    requires QuantOk(q) && SpanTimes(b, n, t, icase, i, j)
    ensures Enough(q, n) ==> Spans(Rep(b, q), t, icase, i, j)
  {
    hide SpanTimes;
  }

  lemma {:induction false} TurnsSpan(b: Elem, q: Quant, after: Option<List>, t: Text, icase: bool, i: nat, n: nat, s: nat)
    requires QuantOk(q) && SpanTimes(b, n, t, icase, i, s)
    ensures var r := Turns(b, q, after, t, icase, n, s); SpanTimes(b, r.0, t, icase, i, r.1)
    decreases Size(b) + 1 + SizeOf(after), 1, MAX_REPEATS - n
  {
    hide Spans, StopsAt;
    if !Full(q, n) {
      AnswerSpans(b, after, true, t, icase, s);
      var next := Answer(b, after, true, t, icase, s);
      if next.Some? {
        assert SpanTimes(b, n + 1, t, icase, i, next.value);
        if !StopsAt(q, after, t, icase, n + 1, next.value) {
          TurnsSpan(b, q, after, t, icase, i, n + 1, next.value);
        }
      }
    }
  }

  lemma {:induction false} ListAnswerSpans(c: List, ahead: bool, after: Option<List>, t: Text, icase: bool, i: nat)
    ensures var r := ListAnswer(c, ahead, after, t, icase, i); r.Some? ==> ListSpans(c, t, icase, i, r.value)
    decreases ListSize(c) + SizeOf(after), 3, 0
  {
    hide Spans, Answer;
    match c
    case Last(e) => AnswerSpans(e, after, ahead, t, icase, i);
    case More(e, rest) =>
      AnswerSpans(e, Some(rest), ahead, t, icase, i);
      var m := Answer(e, Some(rest), ahead, t, icase, i);
      if m.Some? {
        ListAnswerSpans(rest, ahead, after, t, icase, m.value);
      }
  }
}
