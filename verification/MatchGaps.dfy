/** When every part of a sum can be matched while a value is uncovered: sums whose
    operands may be the names of other sums (src/analyzer/typecheck_matchexpr.c).

    Such an operand is one part, and counts as matched once anything inside it is.
    Whether this leaves a gap is settled for all lists of patterns at once. */
module MatchGaps {
  import opened TypeOps
  import opened MatchSpec
  import opened Match

  /** The operands are sum-free, or names of flat sums that have operands. */
  ghost predicate NamedSums(t: Type) {
    && TargetOk(t) && IsSum(t)
    && forall k :: 0 <= k < |t.operands| ==> TargetOk(t.operands[k]) && PartOk(t.operands[k])
  }

  ghost predicate PartOk(u: Type) {
    TargetOk(u) && (SumFree(u) || (!IsSum(u) && Target(u) && Operands(u) != []))
  }

  /** What is inside an operand. */
  ghost function Inner(u: Type): (s: seq<Type>)
    requires PartOk(u)
    ensures s != [] && forall i :: 0 <= i < |s| ==> TargetOk(s[i]) && SumFree(s[i])
  {
    if SumFree(u) then [u] else Operands(u)
  }

  lemma MatchesInner(p: Type, u: Type)
    requires PatternOk(p) && PartOk(u)
    ensures Matches(p, u) <==> exists i :: 0 <= i < |Inner(u)| && Matches(p, Inner(u)[i])
  {
    hide TargetOk, PatternOk, SumFree;
    if SumFree(u) {
      assert Inner(u) == [u];
      assert Matches(p, u) ==> Matches(p, Inner(u)[0]);
    } else {
      ContentsOk(u);
      SumTarget(p, Contents(u));
      assert Inner(u) == Contents(u).operands;
    }
  }

  lemma InInner(v: Value, u: Type)
    requires PartOk(u)
    ensures InType(v, u) <==> exists i :: 0 <= i < |Inner(u)| && InType(v, Inner(u)[i])
  {
    hide TargetOk, SumFree;
    if SumFree(u) {
      assert Inner(u) == [u];
      assert InType(v, u) ==> InType(v, Inner(u)[0]);
    } else {
      InFlatSum(v, u);
      assert Inner(u) == Operands(u);
    }
  }

  // ---------------------------------------------------------------- types without names

  /** The type with all names replaced by what they stand for. */
  function Bare(t: Type): (b: Type)
    requires TargetOk(t) && SumFree(t)
    ensures TargetOk(b) && SumFree(b) && PatternOk(b)
    decreases t
  {
    match t
    case Elementary(_) => t
    case Defined(_, u) => Bare(u)
    case Operation(op, operands) => Operation(op, seq(|operands|, k requires 0 <= k < |operands| => Bare(operands[k])))
  }

  lemma {:induction false} BareIsPlain(t: Type)
    requires TargetOk(t) && SumFree(t)
    ensures Plain(Bare(t))
    decreases t
  {
    match t
    case Elementary(_) =>
    case Defined(_, u) => BareIsPlain(u);
    case Operation(op, operands) =>
      forall k | 0 <= k < |operands| ensures Plain(Bare(t).operands[k]) {
        BareIsPlain(operands[k]);
      }
  }

  /** Matching does not see the names in a target. */
  lemma {:induction false} BareMatches(p: Type, t: Type)
    requires PatternOk(p) && TargetOk(t) && SumFree(t)
    ensures Matches(p, t) <==> Matches(p, Bare(t))
    decreases t
  {
    match t
    case Elementary(_) =>
    case Defined(_, u) => BareMatches(p, u);
    case Operation(op, operands) =>
      if p.Operation? && p.op == op && |p.operands| == |operands| {
        forall k | 0 <= k < |operands| ensures Matches(p.operands[k], operands[k]) <==> Matches(p.operands[k], Bare(t).operands[k]) {
          BareMatches(p.operands[k], operands[k]);
        }
      }
  }

  /** A type without names, as a pattern, matches itself and no other such type. */
  lemma {:induction false} BareMatchesIff(a: Type, b: Type)
    requires TargetOk(a) && SumFree(a) && TargetOk(b) && SumFree(b)
    ensures Matches(Bare(a), b) <==> Bare(a) == Bare(b)
    decreases a, b
  {
    if a.Defined? {
      BareMatchesIff(a.t, b);
    } else if b.Defined? {
      BareMatchesIff(a, b.t);
    } else if a.Operation? && b.Operation? && a.op == b.op && |a.operands| == |b.operands| {
      forall k | 0 <= k < |a.operands|
        ensures Matches(Bare(a).operands[k], b.operands[k]) <==> Bare(a).operands[k] == Bare(b).operands[k]
      {
        BareMatchesIff(a.operands[k], b.operands[k]);
      }
      if Matches(Bare(a), b) {
        assert Bare(a).operands == Bare(b).operands;
      }
    }
  }

  // ---------------------------------------------------------------- parts matched

  /** Everything recorded as matched by the patterns. */
  ghost function AddsAll(ps: seq<Type>, t: Type): set<Type>
    requires PatternsOk(ps) && TargetOk(t)
  {
    if ps == [] then {} else AddsAll(ps[..|ps| - 1], t) + Adds(ps[|ps| - 1], t)
  }

  ghost predicate SomeMatches(ps: seq<Type>, u: Type)
    requires PatternsOk(ps) && TargetOk(u)
  {
    exists j :: 0 <= j < |ps| && Matches(ps[j], u)
  }

  /** An operand is recorded exactly when the pattern matches it. */
  lemma {:induction false} PartAdded(p: Type, ts: seq<Type>, u: Type)
    requires PatternOk(p) && (forall k :: 0 <= k < |ts| ==> TargetOk(ts[k]) && PartOk(ts[k])) && TargetOk(u) && PartOk(u)
    ensures u in SumAdds(p, ts) ==> Matches(p, u)
    ensures u in ts && Matches(p, u) ==> u in SumAdds(p, ts)
  {
    hide Matches, TargetOk, PatternOk, SumFree, Adds;
    if ts != [] {
      var k := |ts| - 1;
      assert ts == ts[..k] + [ts[k]];
      PartAdded(p, ts[..k], u);
      NotSumPart(ts[k]);
      if u in Adds(p, ts[k]) {
        InnerAdds(p, ts[k], u);
      }
    }
  }

  lemma NotSumPart(u: Type)
    requires PartOk(u)
    ensures !IsSum(u)
  {
  }

  lemma InnerAdds(p: Type, w: Type, u: Type)
    requires PatternOk(p) && PartOk(w) && PartOk(u) && u in Adds(p, w)
    ensures Matches(p, u)
  {
    hide Matches, TargetOk, PatternOk, Adds;
    if SumFree(w) {
      SumFreeAdds(p, w);
    } else {
      FlatBookkeeping(p, w);
    }
  }

  lemma {:induction false} PartsOfNamed(ts: seq<Type>)
    requires forall k :: 0 <= k < |ts| ==> TargetOk(ts[k]) && PartOk(ts[k])
    ensures PartsOf(Sum, ts) == set u | u in ts
  {
    hide PartOk, Parts;
    if ts != [] {
      PartsOfNamed(ts[..|ts| - 1]);
      NotSumPart(ts[|ts| - 1]);
      assert ts == ts[..|ts| - 1] + [ts[|ts| - 1]];
    }
  }

  /** All parts are matched if and only if some pattern matches each operand. */
  lemma PartsMatchedIff(ps: seq<Type>, t: Type)
    requires PatternsOk(ps) && NamedSums(t)
    ensures Parts(t) <= AddsAll(ps, t) <==> forall k :: 0 <= k < |t.operands| ==> SomeMatches(ps, t.operands[k])
  {
    hide Matches, TargetOk, PatternOk, SumFree, Adds, AddsAll, PartOk, SomeMatches, PartsOf;
    PartsOfNamed(t.operands);
    assert Parts(t) == PartsOf(Sum, t.operands);
    forall k | 0 <= k < |t.operands| ensures t.operands[k] in AddsAll(ps, t) <==> SomeMatches(ps, t.operands[k]) {
      PartRecorded(ps, t, t.operands[k]);
    }
  }

  lemma {:induction false} PartRecorded(ps: seq<Type>, t: Type, u: Type)
    requires PatternsOk(ps) && NamedSums(t) && u in t.operands && TargetOk(u) && PartOk(u)
    ensures u in AddsAll(ps, t) <==> SomeMatches(ps, u)
    decreases |ps|
  {
    hide Matches, TargetOk, PatternOk, SumFree, Adds, PartOk;
    if ps != [] {
      var m := |ps| - 1;
      PartRecorded(ps[..m], t, u);
      PartAdded(ps[m], t.operands, u);
      SumTarget(ps[m], t);
      SomeMore(ps, u);
    }
  }

  lemma SomeMore(ps: seq<Type>, u: Type)
    requires PatternsOk(ps) && TargetOk(u) && ps != []
    ensures SomeMatches(ps, u) <==> SomeMatches(ps[..|ps| - 1], u) || Matches(ps[|ps| - 1], u)
  {
    hide Matches, TargetOk, PatternOk;
    var m := |ps| - 1;
    if SomeMatches(ps, u) {
      var j :| 0 <= j < |ps| && Matches(ps[j], u);
      assert j < m ==> ps[..m][j] == ps[j];
    }
    if SomeMatches(ps[..m], u) {
      var j :| 0 <= j < m && Matches(ps[..m][j], u);
      assert ps[j] == ps[..m][j];
    }
  }

  // ---------------------------------------------------------------- the gap

  /** Everything inside operand w is the same type as x, up to names. */
  ghost predicate Only(w: Type, x: Type)
    requires PartOk(w) && TargetOk(x) && SumFree(x)
  {
    forall i :: 0 <= i < |Inner(w)| ==> Bare(Inner(w)[i]) == Bare(x)
  }

  /** Every type inside an operand is all that some operand has inside, so that
      matching this other operand takes a pattern for it. */
  ghost predicate Pinned(t: Type)
    requires NamedSums(t)
  {
    forall k, i :: 0 <= k < |t.operands| && 0 <= i < |Inner(t.operands[k])| ==> PinnedAt(t, Inner(t.operands[k])[i])
  }

  ghost predicate PinnedAt(t: Type, x: Type)
    requires NamedSums(t) && TargetOk(x) && SumFree(x)
  {
    exists m :: 0 <= m < |t.operands| && Only(t.operands[m], x)
  }

  /** Whenever all parts are matched, every value is covered. */
  ghost predicate NoGap(t: Type)
    requires NamedSums(t)
  {
    forall ps :: PatternsOk(ps) && Parts(t) <= AddsAll(ps, t) ==> CoversAll(ps, t)
  }

  /** There is no gap, for any list of patterns, if and only if the operands pin each
      other down. */
  lemma NoGapIff(t: Type)
    requires NamedSums(t)
    ensures NoGap(t) <==> Pinned(t)
  {
    hide PatternOk, Parts, AddsAll, CoversAll, PartOk, PinnedAt, TargetOk, SumFree, Target;
    if Pinned(t) {
      forall ps | PatternsOk(ps) && Parts(t) <= AddsAll(ps, t) ensures CoversAll(ps, t) {
        PinnedCovers(t, ps);
      }
    } else {
      var k, i :| 0 <= k < |t.operands| && 0 <= i < |Inner(t.operands[k])| && !PinnedAt(t, Inner(t.operands[k])[i]);
      var ps := GapPatterns(t, k, i);
    }
  }

  /** The same for a type that is itself behind names. */
  lemma NoGapBehindNames(t: Type)
    requires TargetOk(t) && NamedSums(Contents(t))
    ensures (forall ps :: PatternsOk(ps) && Parts(t) <= AddsAll(ps, t) ==> CoversAll(ps, t)) <==> Pinned(Contents(t))
  {
    hide PatternOk, Parts, AddsAll, PartOk, Pinned, TargetOk, InType;
    NoGapIff(Contents(t));
    ContentsOk(t);
    forall ps | PatternsOk(ps)
      ensures AddsAll(ps, t) == AddsAll(ps, Contents(t))
      ensures CoversAll(ps, t) <==> CoversAll(ps, Contents(t))
    {
      AddsBehindNames(ps, t);
    }
  }

  lemma {:induction false} AddsBehindNames(ps: seq<Type>, t: Type)
    requires PatternsOk(ps) && TargetOk(t)
    ensures TargetOk(Contents(t)) && AddsAll(ps, t) == AddsAll(ps, Contents(t))
    decreases |ps|
  {
    hide PatternOk, TargetOk, Adds, Matches, InType, Parts;
    ContentsOk(t);
    if ps != [] {
      AddsBehindNames(ps[..|ps| - 1], t);
    }
  }

  lemma PinnedCovers(t: Type, ps: seq<Type>)
    requires NamedSums(t) && Pinned(t) && PatternsOk(ps) && Parts(t) <= AddsAll(ps, t)
    ensures CoversAll(ps, t)
  {
    hide PatternOk, Parts, AddsAll, TargetOk, SumFree, PartOk, Target, Matches, Covers, Only, PinnedAt, Inner;
    PartsMatchedIff(ps, t);
    forall v | InType(v, t) ensures Covered(v, ps) {
      var k :| 0 <= k < |t.operands| && InType(v, t.operands[k]);
      InInner(v, t.operands[k]);
      var i :| 0 <= i < |Inner(t.operands[k])| && InType(v, Inner(t.operands[k])[i]);
      assert PinnedAt(t, Inner(t.operands[k])[i]);
      PinnedValue(t, ps, v, Inner(t.operands[k])[i]);
    }
  }

  lemma PinnedValue(t: Type, ps: seq<Type>, v: Value, x: Type)
    requires NamedSums(t) && PatternsOk(ps) && TargetOk(x) && SumFree(x) && PinnedAt(t, x) && InType(v, x)
    requires forall k :: 0 <= k < |t.operands| ==> SomeMatches(ps, t.operands[k])
    ensures Covered(v, ps)
  {
    hide PatternOk, TargetOk, SumFree, PartOk, Target, Matches, Covers, Inner, InType;
    var m :| 0 <= m < |t.operands| && Only(t.operands[m], x);
    var j :| 0 <= j < |ps| && Matches(ps[j], t.operands[m]);
    MatchesInner(ps[j], t.operands[m]);
    var i :| 0 <= i < |Inner(t.operands[m])| && Matches(ps[j], Inner(t.operands[m])[i]);
    BareMatches(ps[j], Inner(t.operands[m])[i]);
    BareMatches(ps[j], x);
    MatchesIffCovers(ps[j], v, x);
  }

  /** Patterns for everything but x. */
  lemma GapPatterns(t: Type, k: nat, i: nat) returns (ps: seq<Type>)
    requires NamedSums(t) && k < |t.operands| && i < |Inner(t.operands[k])| && !PinnedAt(t, Inner(t.operands[k])[i])
    ensures PatternsOk(ps) && Parts(t) <= AddsAll(ps, t) && !CoversAll(ps, t)
  {
    hide PatternOk, Parts, AddsAll, TargetOk, SumFree, PartOk, Target, Matches, Covers, InType, Inner;
    var x := Inner(t.operands[k])[i];
    ps := Others(t, x, |t.operands|);
    forall m | 0 <= m < |t.operands| ensures SomeMatches(ps, t.operands[m]) {
      assert Matches(ps[m], t.operands[m]);
    }
    PartsMatchedIff(ps, t);
    var v := Witness(x);
    ValueInside(v, t, k, i);
    forall j | 0 <= j < |ps| ensures !Covers(ps[j], v) {
      MatchesIffCovers(ps[j], v, x);
      PlainIsReadable(ps[j], x);
    }
  }

  lemma ValueInside(v: Value, t: Type, k: nat, i: nat)
    requires NamedSums(t) && k < |t.operands| && i < |Inner(t.operands[k])| && InType(v, Inner(t.operands[k])[i])
    ensures InType(v, t)
  {
    hide Inner, PartOk, TargetOk;
    InInner(v, t.operands[k]);
  }

  /** For each operand a pattern that matches something inside it, but not x. */
  lemma {:induction false} Others(t: Type, x: Type, n: nat) returns (ps: seq<Type>)
    requires NamedSums(t) && TargetOk(x) && SumFree(x) && !PinnedAt(t, x) && n <= |t.operands|
    ensures PatternsOk(ps) && |ps| == n
    ensures forall m :: 0 <= m < n ==> Plain(ps[m]) && Matches(ps[m], t.operands[m]) && !Matches(ps[m], x)
    decreases n
  {
    hide PatternOk, TargetOk, SumFree, PartOk, Target, Matches, Inner, Plain;
    if n == 0 {
      ps := [];
    } else {
      var before := Others(t, x, n - 1);
      assert !Only(t.operands[n - 1], x);
      var p := Other(t.operands[n - 1], x);
      ps := before + [p];
    }
  }

  lemma Other(w: Type, x: Type) returns (p: Type)
    requires PartOk(w) && TargetOk(x) && SumFree(x) && !Only(w, x)
    ensures PatternOk(p) && Plain(p) && Matches(p, w) && !Matches(p, x)
  {
    hide PatternOk, TargetOk, SumFree, PartOk, Target, Matches, Inner, Plain, Bare;
    var i :| 0 <= i < |Inner(w)| && Bare(Inner(w)[i]) != Bare(x);
    p := Bare(Inner(w)[i]);
    BareIsPlain(Inner(w)[i]);
    BareMatchesIff(Inner(w)[i], Inner(w)[i]);
    BareMatchesIff(Inner(w)[i], x);
    MatchesInner(p, w);
  }

  // ---------------------------------------------------------------- two cases of it

  /** It is enough that no operand has two different types inside. */
  lemma UniformHasNoGap(t: Type)
    requires NamedSums(t)
    requires forall k, i :: 0 <= k < |t.operands| && 0 <= i < |Inner(t.operands[k])| ==> Only(t.operands[k], Inner(t.operands[k])[i])
    ensures NoGap(t)
  {
    hide NoGap, PartOk, TargetOk, SumFree, Inner, Only;
    NoGapIff(t);
  }

  /** But it is not needed: in a | b | d with d = a | b, the other operands pin down
      both types inside d. */
  lemma PinnedByOthers(t: Type, a: Type, b: Type)
    requires a == Elementary("a") && b == Elementary("b")
    requires t == Operation(Sum, [a, b, Defined("d", Operation(Sum, [a, b]))])
    ensures NamedSums(t) && NoGap(t) && !Only(t.operands[2], a)
  {
    hide NoGap;
    var d := t.operands[2];
    assert SumFree(a) && SumFree(b) && TargetOk(a) && TargetOk(b);
    assert TargetOk(d.t.operands[0]) && TargetOk(d.t.operands[1]) && TargetOk(d.t) && TargetOk(d);
    assert Contents(d.t) == d.t && Contents(d) == d.t && IsSum(d.t);
    assert SumFree(d.t.operands[0]) && SumFree(d.t.operands[1]);
    assert FlatSum(d) && Operands(d) == [a, b] && !SumFree(d.t) && !SumFree(d);
    assert PartOk(t.operands[0]) && PartOk(t.operands[1]) && PartOk(t.operands[2]);
    assert Inner(t.operands[0]) == [a] && Inner(t.operands[1]) == [b] && Inner(d) == [a, b];
    assert Only(t.operands[0], a) && Only(t.operands[1], b);
    assert Bare(Inner(d)[1]) == b;
    forall k, i | 0 <= k < |t.operands| && 0 <= i < |Inner(t.operands[k])| ensures PinnedAt(t, Inner(t.operands[k])[i]) {
      assert Inner(t.operands[k])[i] == a || Inner(t.operands[k])[i] == b;
    }
    NoGapIff(t);
  }
}
