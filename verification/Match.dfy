/** Type checking of match expressions: src/analyzer/typecheck_matchexpr.c.

    Type checking keeps two sets of types, the parts of the matched type and those
    matched so far, and updates them while patterns are matched recursively.  For a
    flat sum its verdicts are proved to be about values: which values a case covers
    and which are left. */
module Match {
  import opened Wrappers
  import opened TypeOps
  import opened MatchSpec

  /** A case is accepted, or refused because it matches nothing, because everything
      was matched before, or unseen because an earlier case was refused. */
  datatype CaseResult = CaseOk | CanNotMatch | Useless | AfterError

  class MatchingCtx {
    var parts: set<Type>
    var matched: set<Type>
    var lastMatchedCase: Option<Type>
    var matchIsOver: bool

    /** The type a case matched to is never itself a sum. */
    ghost predicate Valid()
      reads this
    {
      lastMatchedCase.Some? ==> !IsSum(lastMatchedCase.value)
    }

    constructor (t: Type)
      requires TargetOk(t)
      ensures Valid() && parts == Parts(t) && matched == {} && lastMatchedCase == None && !matchIsOver
    {
      parts, matched, lastMatchedCase, matchIsOver := {}, {}, None, false;
      new;
      PopulateParts(t);
    }

    method PopulateParts(t: Type)
      requires TargetOk(t)
      modifies this`parts
      ensures parts == old(parts) + Parts(t)
      decreases t, 0
    {
      match t
      case Defined(_, u) =>
        PopulateParts(u);
      case Elementary(_) =>
      case Operation(op, operands) =>
        assert operands[..0] == [];
        for k := 0 to |operands|
          invariant parts == old(parts) + PartsOf(op, operands[..k])
        {
          PartsMore(op, operands, k);
          if op.Sum? {
            AddPart(operands[k]);
          } else {
            PopulateParts(operands[k]);
          }
        }
        assert operands[..|operands|] == operands;
    }

    method AddPart(t: Type)
      requires TargetOk(t)
      modifies this`parts
      ensures parts == old(parts) + if IsSum(t) then Parts(t) else {t}
      decreases t, 1
    {
      if IsSum(t) {
        PopulateParts(t);
      } else {
        parts := parts + {t};
      }
    }

    method SetMatched(matchType: Type, pattern: Type)
      requires Valid() && PatternOk(pattern)
      modifies this`matched, this`lastMatchedCase
      ensures Valid() && matched == old(matched) + if IsSum(matchType) then {} else {matchType}
      ensures Kept(old(matched), old(lastMatchedCase))
    {
      if IsSum(matchType) {
        return;
      }
      if matchType in matched {
        return;
      }
      lastMatchedCase := Some(if pattern.Wildcard? || pattern.Operation? then matchType else pattern);
      matched := matched + {matchType};
    }

    /** Something new was matched, or nothing changed. */
    ghost predicate Kept(before: set<Type>, last: Option<Type>)
      reads this
    {
      if matched == before then lastMatchedCase == last else lastMatchedCase.Some?
    }

    method MatchTypes(pattern: Type, target: Type) returns (r: bool)
      requires Valid() && PatternOk(pattern) && TargetOk(target)
      modifies this`matched, this`lastMatchedCase
      ensures Valid() && r == Matches(pattern, target) && matched == old(matched) + Adds(pattern, target)
      ensures Kept(old(matched), old(lastMatchedCase))
      decreases target, 1
    {
      match target
      case Defined(_, u) =>
        r := MatchTypes(pattern, u);
      case Elementary(_) =>
        r := pattern.Wildcard? || pattern == target;
      case Operation(op, operands) =>
        if op.Sum? {
          r := MatchSumop(pattern, target);
        } else if pattern.Operation? && pattern.op == op && |pattern.operands| == |operands| {
          r := MatchOperands(pattern, target);
        } else {
          r := false;
        }
    }

    /** Every operand is tried, and those that match are recorded. */
    method MatchSumop(pattern: Type, target: Type) returns (any: bool)
      requires Valid() && PatternOk(pattern) && TargetOk(target) && IsSum(target)
      modifies this`matched, this`lastMatchedCase
      ensures Valid() && any == Matches(pattern, target) && matched == old(matched) + Adds(pattern, target)
      ensures Kept(old(matched), old(lastMatchedCase))
      decreases target, 0
    {
      hide Matches, Adds;
      var ts := target.operands;
      any := false;
      assert ts[..0] == [];
      for k := 0 to |ts|
        invariant Valid() && Kept(old(matched), old(lastMatchedCase))
        invariant any == exists j :: 0 <= j < k && Matches(pattern, ts[j])
        invariant matched == old(matched) + SumAdds(pattern, ts[..k])
      {
        SumAddsMore(pattern, ts, k);
        var r := MatchTypes(pattern, ts[k]);
        if r {
          any := true;
          SetMatched(ts[k], pattern);
        }
      }
      assert ts[..|ts|] == ts;
      SumTarget(pattern, target);
    }

    /** Operands are matched pairwise, up to the first failure. */
    method MatchOperands(pattern: Type, target: Type) returns (r: bool)
      requires Valid() && PatternOk(pattern) && TargetOk(target) && target.Operation? && !target.op.Sum?
      requires pattern.Operation? && pattern.op == target.op && |pattern.operands| == |target.operands|
      modifies this`matched, this`lastMatchedCase
      ensures Valid() && r == Matches(pattern, target) && matched == old(matched) + Adds(pattern, target)
      ensures Kept(old(matched), old(lastMatchedCase))
      decreases target, 0
    {
      hide Matches, Adds;
      var ps, ts := pattern.operands, target.operands;
      assert ts[..0] == [] && ps[..0] == [];
      OperandTarget(pattern, target);
      for k := 0 to |ts|
        invariant Valid() && Kept(old(matched), old(lastMatchedCase))
        invariant forall j :: 0 <= j < k ==> Matches(ps[j], ts[j])
        invariant matched == old(matched) + OperandAdds(ps[..k], ts[..k])
      {
        OperandAddsMore(ps, ts, k);
        var ok := MatchTypes(ps[k], ts[k]);
        if !ok {
          OperandAddsStop(ps, ts, k);
          return false;
        }
      }
      assert ts[..|ts|] == ts && ps[..|ps|] == ps;
      return true;
    }

    /** One case: refused when it can match nothing, and when it matches but all
        parts were matched before; the first refusal ends the checks. */
    method TypecheckMatchcase(pattern: Type, matchType: Type) returns (r: CaseResult, matchedType: Option<Type>)
      requires Valid() && PatternOk(pattern) && TargetOk(matchType)
      modifies this`matched, this`lastMatchedCase, this`matchIsOver
      ensures Valid() && matchIsOver == (r != CaseOk)
      ensures r == VerdictOf(old(matchIsOver), old(matched), parts, pattern, matchType)
      ensures matched == if old(matchIsOver) then old(matched) else old(matched) + Adds(pattern, matchType)
      ensures r == CaseOk ==> matchedType == lastMatchedCase
      ensures Kept(old(matched), old(lastMatchedCase))
    {
      if matchIsOver {
        return AfterError, None;
      }
      var useless := matched == parts;
      var ok := MatchTypes(pattern, matchType);
      if !ok {
        matchIsOver := true;
        return CanNotMatch, None;
      }
      if useless {
        matchIsOver := true;
        return Useless, None;
      }
      return CaseOk, lastMatchedCase;
    }

    /** The parts that no case has matched; there is an error for each. */
    method Compare() returns (uncovered: set<Type>)
      ensures uncovered == parts - matched
    {
      uncovered := {};
      var todo := parts;
      while todo != {}
        invariant todo <= parts && uncovered == (parts - todo) - matched
        decreases |todo|
      {
        var t :| t in todo;
        if t !in matched {
          uncovered := uncovered + {t};
        }
        todo := todo - {t};
      }
    }
  }

  /** The verdict on a case, given what was matched before. */
  function VerdictOf(over: bool, matched: set<Type>, parts: set<Type>, p: Type, t: Type): CaseResult
    requires PatternOk(p) && TargetOk(t)
  {
    if over then AfterError else if !Matches(p, t) then CanNotMatch else if matched == parts then Useless else CaseOk
  }

  lemma PartsMore(op: TypeOp, ts: seq<Type>, k: nat)
    requires k < |ts| && forall j :: 0 <= j < |ts| ==> TargetOk(ts[j])
    ensures PartsOf(op, ts[..k + 1]) == PartsOf(op, ts[..k]) + if op.Sum? && !IsSum(ts[k]) then {ts[k]} else Parts(ts[k])
  {
    assert ts[..k + 1][..k] == ts[..k];
  }

  lemma SumAddsMore(p: Type, ts: seq<Type>, k: nat)
    requires k < |ts| && PatternOk(p) && forall j :: 0 <= j < |ts| ==> TargetOk(ts[j])
    ensures SumAdds(p, ts[..k + 1]) == SumAdds(p, ts[..k]) + Adds(p, ts[k]) + (if Matches(p, ts[k]) && !IsSum(ts[k]) then {ts[k]} else {})
  {
    hide Matches, Adds;
    assert ts[..k + 1][..k] == ts[..k];
  }

  lemma SumTarget(p: Type, t: Type)
    requires PatternOk(p) && TargetOk(t) && IsSum(t)
    ensures Adds(p, t) == SumAdds(p, t.operands)
    ensures Matches(p, t) <==> exists j :: 0 <= j < |t.operands| && Matches(p, t.operands[j])
  {
  }

  lemma OperandTarget(p: Type, t: Type)
    requires PatternOk(p) && TargetOk(t) && t.Operation? && !t.op.Sum?
    requires p.Operation? && p.op == t.op && |p.operands| == |t.operands|
    ensures Adds(p, t) == OperandAdds(p.operands, t.operands)
    ensures Matches(p, t) <==> forall j :: 0 <= j < |t.operands| ==> Matches(p.operands[j], t.operands[j])
  {
  }

  lemma OperandAddsMore(ps: seq<Type>, ts: seq<Type>, k: nat)
    requires k < |ts| == |ps| && (forall j :: 0 <= j < |ps| ==> PatternOk(ps[j])) && forall j :: 0 <= j < |ts| ==> TargetOk(ts[j])
    requires forall j :: 0 <= j < k ==> Matches(ps[j], ts[j])
    ensures OperandAdds(ps[..k + 1], ts[..k + 1]) == OperandAdds(ps[..k], ts[..k]) + Adds(ps[k], ts[k])
  {
    hide Matches, Adds;
    assert ts[..k + 1][..k] == ts[..k] && ps[..k + 1][..k] == ps[..k];
  }

  /** After a failure no more is added. */
  lemma {:induction false} OperandAddsStop(ps: seq<Type>, ts: seq<Type>, k: nat)
    requires k < |ts| == |ps| && (forall j :: 0 <= j < |ps| ==> PatternOk(ps[j])) && forall j :: 0 <= j < |ts| ==> TargetOk(ts[j])
    requires !Matches(ps[k], ts[k])
    ensures OperandAdds(ps, ts) == OperandAdds(ps[..k + 1], ts[..k + 1])
    decreases |ts|
  {
    hide Matches, Adds, PatternOk, TargetOk;
    var m := |ts| - 1;
    if m == k {
      assert ts[..k + 1] == ts && ps[..k + 1] == ps;
    } else {
      OperandAddsStop(ps[..m], ts[..m], k);
      assert ts[..m][..k + 1] == ts[..k + 1] && ps[..m][..k + 1] == ps[..k + 1];
    }
  }

  // ---------------------------------------------------------------- verdicts about values

  predicate PatternsOk(ps: seq<Type>) {
    forall j :: 0 <= j < |ps| ==> PatternOk(ps[j])
  }

  /** Some value of the type is covered by the pattern. */
  ghost predicate CoversSome(p: Type, t: Type)
    requires PatternOk(p)
  {
    exists v :: InType(v, t) && Covers(p, v)
  }

  ghost predicate Covered(v: Value, ps: seq<Type>)
    requires PatternsOk(ps)
  {
    exists j :: 0 <= j < |ps| && Covers(ps[j], v)
  }

  /** Every value of the type is covered by some pattern. */
  ghost predicate CoversAll(ps: seq<Type>, t: Type)
    requires PatternsOk(ps)
  {
    forall v :: InType(v, t) ==> Covered(v, ps)
  }

  /** The operands that some pattern matches. */
  ghost function AllMatched(ts: seq<Type>, ps: seq<Type>): set<Type>
    requires PatternsOk(ps) && forall k :: 0 <= k < |ts| ==> TargetOk(ts[k])
  {
    if ps == [] then {} else AllMatched(ts, ps[..|ps| - 1]) + Matched(ts, ps[|ps| - 1])
  }

  ghost predicate Target(t: Type) {
    && TargetOk(t) && FlatSum(t) && (forall k :: 0 <= k < |Operands(t)| ==> TargetOk(Operands(t)[k]))
  }

  lemma {:induction false} InAllMatched(ts: seq<Type>, ps: seq<Type>, u: Type)
    requires PatternsOk(ps) && (forall k :: 0 <= k < |ts| ==> TargetOk(ts[k])) && u in ts && TargetOk(u)
    ensures u in AllMatched(ts, ps) <==> exists j :: 0 <= j < |ps| && Matches(ps[j], u)
  {
    hide Matches, TargetOk, PatternOk;
    if ps != [] {
      var m := |ps| - 1;
      InAllMatched(ts, ps[..m], u);
      var k :| 0 <= k < |ts| && ts[k] == u;
      assert u in Matched(ts, ps[m]) <==> Matches(ps[m], u);
      if exists j :: 0 <= j < |ps| && Matches(ps[j], u) {
        var j :| 0 <= j < |ps| && Matches(ps[j], u);
        assert j < m ==> ps[..m][j] == ps[j];
      }
      if exists j :: 0 <= j < m && Matches(ps[..m][j], u) {
        var j :| 0 <= j < m && Matches(ps[..m][j], u);
        assert ps[j] == ps[..m][j];
      }
    }
  }

  lemma InFlatSum(v: Value, t: Type)
    requires Target(t)
    ensures InType(v, t) <==> exists k :: 0 <= k < |Operands(t)| && InType(v, Operands(t)[k])
  {
    hide SumFree, TargetOk;
    ContentsOk(t);
    assert Contents(t).op == Sum;
    assert Operands(t) == Contents(t).operands;
    assert InType(v, t) <==> InType(v, Contents(t));
    assert InType(v, Contents(t)) <==> exists k :: 0 <= k < |Contents(t).operands| && InType(v, Contents(t).operands[k]);
  }

  lemma PartsAreOperands(t: Type)
    requires Target(t)
    ensures Parts(t) == set u | u in Operands(t)
  {
    FlatBookkeeping(Wildcard, t);
  }

  // ---------------------------------------------------------------- what the matcher takes

  /** The pattern covers values of a sum-free operand, and the matcher can read it there. */
  ghost predicate Takes(p: Type, u: Type)
    requires PatternOk(p)
  {
    Readable(p, u) && CoversSome(p, u)
  }

  ghost predicate TakesSome(p: Type, t: Type)
    requires PatternOk(p) && Target(t)
  {
    exists k :: 0 <= k < |Operands(t)| && Takes(p, Operands(t)[k])
  }

  ghost predicate Taken(u: Type, ps: seq<Type>)
    requires PatternsOk(ps)
  {
    exists j :: 0 <= j < |ps| && Takes(ps[j], u)
  }

  ghost predicate TakesAll(ps: seq<Type>, t: Type)
    requires PatternsOk(ps) && Target(t)
  {
    forall k :: 0 <= k < |Operands(t)| ==> Taken(Operands(t)[k], ps)
  }

  /** Every pattern is readable against every operand: no name of a type, and `_` only
      against elementary types. */
  ghost predicate AllReadable(ps: seq<Type>, t: Type)
    requires Target(t)
  {
    forall j, k :: 0 <= j < |ps| && 0 <= k < |Operands(t)| ==> Readable(ps[j], Operands(t)[k])
  }

  lemma OperandIff(p: Type, u: Type)
    requires PatternOk(p) && TargetOk(u) && SumFree(u)
    ensures Matches(p, u) <==> Takes(p, u)
    ensures CoversSome(p, u) <==> CoversType(p, u)
  {
    hide Covers, Matches, Readable;
    var v := Witness(u);
    MatchesIffCovers(p, v, u);
    AllCovered(p, u);
    forall w | InType(w, u) ensures w == v {
      OnlyWitness(w, u);
    }
  }

  lemma OperandOk(t: Type, k: nat)
    requires Target(t) && k < |Operands(t)|
    ensures TargetOk(Operands(t)[k]) && SumFree(Operands(t)[k])
  {
  }

  /** A case matches a flat sum if and only if some operand takes it; whatever it
      matches it covers, and when it is readable, what it covers it matches. */
  lemma MatchesIffCoversSome(p: Type, t: Type)
    requires PatternOk(p) && Target(t)
    ensures Matches(p, t) <==> TakesSome(p, t)
    ensures Matches(p, t) ==> CoversSome(p, t)
    ensures AllReadable([p], t) ==> (Matches(p, t) <==> CoversSome(p, t))
  {
    hide InType, Covers, SumFree, TargetOk, PatternOk, Readable, Takes;
    ContentsOk(t);
    forall k | 0 <= k < |Operands(t)| ensures Matches(p, Operands(t)[k]) <==> Takes(p, Operands(t)[k]) {
      OperandOk(t, k);
      OperandIff(p, Operands(t)[k]);
    }
    SumTarget(p, Contents(t));
    assert Operands(t) == Contents(t).operands;
    if Matches(p, t) {
      var k :| 0 <= k < |Operands(t)| && Matches(p, Operands(t)[k]);
      assert Takes(p, Operands(t)[k]);
    }
    if TakesSome(p, t) {
      var k :| 0 <= k < |Operands(t)| && Takes(p, Operands(t)[k]);
      assert Matches(p, Operands(t)[k]);
      TakenIsCovered(p, t);
    }
    if CoversSome(p, t) && AllReadable([p], t) {
      CoveredIsTaken(p, t);
    }
  }

  lemma TakenIsCovered(p: Type, t: Type)
    requires PatternOk(p) && Target(t) && TakesSome(p, t)
    ensures CoversSome(p, t)
  {
    hide Covers, SumFree, TargetOk, PatternOk, Readable;
    var k :| 0 <= k < |Operands(t)| && Takes(p, Operands(t)[k]);
    var v :| InType(v, Operands(t)[k]) && Covers(p, v);
    InFlatSum(v, t);
  }

  lemma CoveredIsTaken(p: Type, t: Type)
    requires PatternOk(p) && Target(t) && CoversSome(p, t) && AllReadable([p], t)
    ensures TakesSome(p, t)
  {
    hide Covers, SumFree, TargetOk, PatternOk, Readable;
    var v :| InType(v, t) && Covers(p, v);
    InFlatSum(v, t);
    var k :| 0 <= k < |Operands(t)| && InType(v, Operands(t)[k]);
    assert Readable([p][0], Operands(t)[k]);
    assert Takes(p, Operands(t)[k]);
  }

  /** All parts are matched if and only if every operand is taken; every value is then
      covered, and when the patterns are readable, all parts are matched if and only if
      every value is covered. */
  lemma MatchedIffCoversAll(ps: seq<Type>, t: Type)
    requires PatternsOk(ps) && Target(t)
    ensures Parts(t) <= AllMatched(Operands(t), ps) <==> TakesAll(ps, t)
    ensures TakesAll(ps, t) ==> CoversAll(ps, t)
    ensures AllReadable(ps, t) ==> (TakesAll(ps, t) <==> CoversAll(ps, t))
  {
    hide SumFree, TargetOk, PatternOk, AllMatched, Parts, CoversAll, Taken, AllReadable, Matches;
    PartsAreOperands(t);
    forall k | 0 <= k < |Operands(t)| ensures Operands(t)[k] in AllMatched(Operands(t), ps) <==> Taken(Operands(t)[k], ps) {
      OperandTaken(ps, t, k);
    }
    if TakesAll(ps, t) {
      AllTakenIsCovered(ps, t);
    }
    if CoversAll(ps, t) && AllReadable(ps, t) {
      AllCoveredIsTaken(ps, t);
    }
  }

  lemma OperandTaken(ps: seq<Type>, t: Type, k: nat)
    requires PatternsOk(ps) && Target(t) && k < |Operands(t)|
    ensures Operands(t)[k] in AllMatched(Operands(t), ps) <==> Taken(Operands(t)[k], ps)
  {
    hide SumFree, TargetOk, PatternOk, AllMatched, Takes, Matches;
    var u := Operands(t)[k];
    OperandOk(t, k);
    InAllMatched(Operands(t), ps, u);
    forall j | 0 <= j < |ps| ensures Matches(ps[j], u) <==> Takes(ps[j], u) {
      OperandIff(ps[j], u);
    }
  }

  lemma AllTakenIsCovered(ps: seq<Type>, t: Type)
    requires PatternsOk(ps) && Target(t) && TakesAll(ps, t)
    ensures CoversAll(ps, t)
  {
    hide SumFree, TargetOk, PatternOk, InType, Covers, Readable;
    forall v | InType(v, t) ensures Covered(v, ps) {
      InFlatSum(v, t);
      var k :| 0 <= k < |Operands(t)| && InType(v, Operands(t)[k]);
      OperandOk(t, k);
      var j :| 0 <= j < |ps| && Takes(ps[j], Operands(t)[k]);
      OperandIff(ps[j], Operands(t)[k]);
    }
  }

  lemma AllCoveredIsTaken(ps: seq<Type>, t: Type)
    requires PatternsOk(ps) && Target(t) && CoversAll(ps, t) && AllReadable(ps, t)
    ensures TakesAll(ps, t)
  {
    hide SumFree, TargetOk, PatternOk, Covers, Readable, Witness;
    forall k | 0 <= k < |Operands(t)| ensures Taken(Operands(t)[k], ps) {
      OperandOk(t, k);
      var v := Witness(Operands(t)[k]);
      InFlatSum(v, t);
      assert Covered(v, ps);
      var j :| 0 <= j < |ps| && Covers(ps[j], v);
      assert Takes(ps[j], Operands(t)[k]);
    }
  }

  // ---------------------------------------------------------------- verdicts

  /** A pattern list read as meant, or as the matcher reads it. */
  datatype Reading = AsMeant | AsRead

  ghost predicate HitsSome(p: Type, t: Type, reading: Reading)
    requires PatternOk(p) && Target(t)
  {
    if reading.AsMeant? then CoversSome(p, t) else TakesSome(p, t)
  }

  ghost predicate HitsAll(ps: seq<Type>, t: Type, reading: Reading)
    requires PatternsOk(ps) && Target(t)
  {
    if reading.AsMeant? then CoversAll(ps, t) else TakesAll(ps, t)
  }

  /** The case hits a value, and some value was left by those before. */
  ghost predicate Useful(ps: seq<Type>, i: nat, t: Type, reading: Reading)
    requires PatternsOk(ps) && i < |ps| && Target(t)
  {
    HitsSome(ps[i], t, reading) && !HitsAll(ps[..i], t, reading)
  }

  ghost predicate AllUseful(ps: seq<Type>, i: nat, t: Type, reading: Reading)
    requires PatternsOk(ps) && i <= |ps| && Target(t)
  {
    forall j :: 0 <= j < i ==> Useful(ps, j, t, reading)
  }

  /** The verdict on case i. */
  ghost predicate Verdict(r: CaseResult, ps: seq<Type>, i: nat, t: Type, reading: Reading)
    requires PatternsOk(ps) && i < |ps| && Target(t)
  {
    && (r.CaseOk? <==> AllUseful(ps, i, t, reading) && Useful(ps, i, t, reading))
    && (r.CanNotMatch? <==> AllUseful(ps, i, t, reading) && !HitsSome(ps[i], t, reading))
    && (r.Useless? <==> AllUseful(ps, i, t, reading) && HitsSome(ps[i], t, reading) && HitsAll(ps[..i], t, reading))
  }

  /** Readable patterns are read as they are meant. */
  lemma ReadingsAgree(ps: seq<Type>, i: nat, t: Type)
    requires PatternsOk(ps) && i <= |ps| && Target(t) && AllReadable(ps, t)
    ensures HitsAll(ps[..i], t, AsMeant) <==> HitsAll(ps[..i], t, AsRead)
    ensures i < |ps| ==> (HitsSome(ps[i], t, AsMeant) <==> HitsSome(ps[i], t, AsRead))
    ensures AllUseful(ps, i, t, AsMeant) <==> AllUseful(ps, i, t, AsRead)
    decreases i
  {
    hide CoversSome, CoversAll, TakesSome, TakesAll, Readable, PatternOk, Target, Operands, Matches, Parts, AllMatched;
    TargetIsOk(t);
    forall j | 0 <= j < i
      ensures HitsSome(ps[j], t, AsMeant) <==> HitsSome(ps[j], t, AsRead)
      ensures HitsAll(ps[..j], t, AsMeant) <==> HitsAll(ps[..j], t, AsRead)
    {
      ReadingsAgree(ps, j, t);
    }
    ReadablePrefix(ps, i, t);
    MatchedIffCoversAll(ps[..i], t);
    assert HitsAll(ps[..i], t, AsMeant) <==> HitsAll(ps[..i], t, AsRead);
    forall j | 0 <= j < i ensures Useful(ps, j, t, AsMeant) <==> Useful(ps, j, t, AsRead) {
    }
    assert AllUseful(ps, i, t, AsMeant) <==> AllUseful(ps, i, t, AsRead);
    if i < |ps| {
      MatchesIffCoversSome(ps[i], t);
    }
  }

  lemma ReadablePrefix(ps: seq<Type>, i: nat, t: Type)
    requires i <= |ps| && Target(t) && AllReadable(ps, t)
    ensures AllReadable(ps[..i], t) && (i < |ps| ==> AllReadable([ps[i]], t))
  {
    hide Readable, Target, TargetOk, FlatSum;
  }

  lemma CaseStep(ps: seq<Type>, i: nat, t: Type)
    requires PatternsOk(ps) && i < |ps| && Target(t)
    ensures Matches(ps[i], t) <==> TakesSome(ps[i], t)
    ensures AllMatched(Operands(t), ps[..i]) == Parts(t) <==> TakesAll(ps[..i], t)
    ensures AllMatched(Operands(t), ps[..i]) + Adds(ps[i], t) == AllMatched(Operands(t), ps[..i + 1])
    ensures !Matches(ps[i], t) ==> Adds(ps[i], t) == {}
  {
    hide Matches, Adds, SumFree, TargetOk, PatternOk, CoversAll, CoversSome, TakesAll, TakesSome;
    MatchesIffCoversSome(ps[i], t);
    MatchedIffCoversAll(ps[..i], t);
    FlatBookkeeping(ps[i], t);
    MatchedWithinParts(ps[..i], t);
    assert ps[..i + 1][..i] == ps[..i];
  }

  lemma {:induction false} MatchedWithinParts(ps: seq<Type>, t: Type)
    requires PatternsOk(ps) && Target(t)
    ensures AllMatched(Operands(t), ps) <= Parts(t)
  {
    hide Matches, Adds, SumFree, TargetOk, PatternOk, Parts;
    PartsAreOperands(t);
    if ps != [] {
      MatchedWithinParts(ps[..|ps| - 1], t);
    }
  }

  lemma NothingMatched(t: Type)
    requires Target(t)
    ensures AllMatched(Operands(t), []) == {}
  {
  }

  /** All cases of a match expression on a flat sum.  Each verdict is the one that the
      patterns call for as the matcher reads them; the expression is accepted if and
      only if every operand is taken and each case takes some operand at a time when
      some were left.  An accepted expression covers every value, whatever its
      patterns; with readable patterns the verdicts are those of their meaning. */
  method TypecheckMatch(t: Type, ps: seq<Type>) returns (results: seq<CaseResult>, accepted: bool)
    requires Target(t) && PatternsOk(ps)
    ensures |results| == |ps| && forall i :: 0 <= i < |ps| ==> Verdict(results[i], ps, i, t, AsRead)
    ensures accepted <==> AllUseful(ps, |ps|, t, AsRead) && TakesAll(ps, t)
    ensures accepted ==> CoversAll(ps, t)
    ensures AllReadable(ps, t) ==>
              && (forall i :: 0 <= i < |ps| ==> Verdict(results[i], ps, i, t, AsMeant))
              && (accepted <==> AllUseful(ps, |ps|, t, AsMeant) && CoversAll(ps, t))
  {
    hide Target, Verdict, AllMatched, PatternOk, CoversAll, TakesAll, AllUseful, Matches, Adds, Parts, AllReadable;
    TargetIsOk(t);
    var ctx := new MatchingCtx(t);
    results := [];
    NothingMatched(t);
    AllUsefulNone(ps, t);
    assert ps[..0] == [];
    for i := 0 to |ps|
      invariant fresh(ctx) && ctx.Valid() && ctx.parts == Parts(t) && |results| == i
      invariant forall j :: 0 <= j < i ==> Verdict(results[j], ps, j, t, AsRead)
      invariant ctx.matchIsOver <==> !AllUseful(ps, i, t, AsRead)
      invariant !ctx.matchIsOver ==> ctx.matched == AllMatched(Operands(t), ps[..i])
    {
      CaseStep(ps, i, t);
      var over := ctx.matchIsOver;
      var r, _ := ctx.TypecheckMatchcase(ps[i], t);
      CaseVerdict(r, over, ps, i, t);
      results := results + [r];
    }
    assert ps[..|ps|] == ps;
    var uncovered := ctx.Compare();
    MatchedIffCoversAll(ps, t);
    EmptyDifference(ctx.parts, ctx.matched);
    accepted := !ctx.matchIsOver && uncovered == {};
    if AllReadable(ps, t) {
      VerdictsAgree(results, ps, t);
    }
  }

  lemma VerdictsAgree(results: seq<CaseResult>, ps: seq<Type>, t: Type)
    requires Target(t) && PatternsOk(ps) && AllReadable(ps, t)
    requires |results| == |ps| && forall i :: 0 <= i < |ps| ==> Verdict(results[i], ps, i, t, AsRead)
    ensures forall i :: 0 <= i < |ps| ==> Verdict(results[i], ps, i, t, AsMeant)
    ensures AllUseful(ps, |ps|, t, AsMeant) <==> AllUseful(ps, |ps|, t, AsRead)
  {
    hide AllUseful, HitsSome, HitsAll, PatternOk, AllReadable, Target;
    forall i | 0 <= i < |ps| ensures Verdict(results[i], ps, i, t, AsMeant) {
      ReadingsAgree(ps, i, t);
    }
    ReadingsAgree(ps, |ps|, t);
  }

  lemma EmptyDifference<T>(a: set<T>, b: set<T>)
    ensures a - b == {} <==> a <= b
  {
    if a - b == {} {
      forall x | x in a ensures x in b {
        assert x !in b ==> x in a - b;
      }
    }
  }

  lemma TargetIsOk(t: Type)
    requires Target(t)
    ensures TargetOk(t) && FlatSum(t) && forall k :: 0 <= k < |Operands(t)| ==> TargetOk(Operands(t)[k])
  {
  }

  lemma AllUsefulNone(ps: seq<Type>, t: Type)
    requires PatternsOk(ps) && Target(t)
    ensures AllUseful(ps, 0, t, AsRead)
  {
  }

  lemma CaseVerdict(r: CaseResult, over: bool, ps: seq<Type>, i: nat, t: Type)
    requires PatternsOk(ps) && i < |ps| && Target(t) && (over <==> !AllUseful(ps, i, t, AsRead))
    requires r == if over then AfterError else if !TakesSome(ps[i], t) then CanNotMatch else if TakesAll(ps[..i], t) then Useless else CaseOk
    ensures Verdict(r, ps, i, t, AsRead)
    ensures AllUseful(ps, i + 1, t, AsRead) <==> r == CaseOk
  {
    hide TakesSome, TakesAll, PatternOk, Target;
    if r == CaseOk {
      forall j | 0 <= j < i + 1 ensures Useful(ps, j, t, AsRead) {
      }
    } else {
      assert AllUseful(ps, i + 1, t, AsRead) ==> Useful(ps, i, t, AsRead);
    }
  }

  // ---------------------------------------------------------------- types without sums

  /** The parts of a sum-free type are none, so that all count as matched from the
      start: the first case that matches is refused as useless, and no case is accepted. */
  lemma SumFreeCase(p: Type, t: Type)
    requires PatternOk(p) && TargetOk(t) && SumFree(t)
    ensures VerdictOf(false, {}, Parts(t), p, t) == if Matches(p, t) then Useless else CanNotMatch
  {
    SumFreeAdds(p, t);
  }

  /** A match expression on a sum-free type is accepted only without cases. */
  method TypecheckSumFree(t: Type, ps: seq<Type>) returns (results: seq<CaseResult>, accepted: bool)
    requires TargetOk(t) && SumFree(t) && PatternsOk(ps)
    ensures |results| == |ps| && forall i :: 0 <= i < |ps| ==>
              results[i] == if i > 0 then AfterError else if Matches(ps[0], t) then Useless else CanNotMatch
    ensures accepted <==> ps == []
  {
    hide Matches, Adds, Parts, PatternOk;
    var ctx := new MatchingCtx(t);
    results := [];
    SumFreeAdds(Wildcard, t) by {
      WildcardOk();
    }
    for i := 0 to |ps|
      invariant fresh(ctx) && ctx.Valid() && ctx.parts == {} && |results| == i
      invariant forall j :: 0 <= j < i ==>
                  results[j] == if j > 0 then AfterError else if Matches(ps[0], t) then Useless else CanNotMatch
      invariant ctx.matchIsOver <==> i > 0
      invariant !ctx.matchIsOver ==> ctx.matched == {}
    {
      var r, _ := ctx.TypecheckMatchcase(ps[i], t);
      results := results + [r];
    }
    var uncovered := ctx.Compare();
    accepted := !ctx.matchIsOver && uncovered == {};
  }

  lemma WildcardOk()
    ensures PatternOk(Wildcard)
  {
  }

  // ---------------------------------------------------------------- where the verdicts fall short

  /** A case that repeats an earlier one is not refused while parts are left. */
  lemma RepeatedCaseIsUseful(t: Type, ps: seq<Type>)
    requires t == Operation(Sum, [Elementary("i32"), Elementary("string")])
    requires ps == [Elementary("i32"), Elementary("i32"), Elementary("string")]
    ensures Target(t) && AllReadable(ps, t) && Useful(ps, 1, t, AsMeant)
    ensures forall v :: Covers(ps[1], v) ==> Covered(v, ps[..1])
  {
    assert InType(Atom("i32"), t.operands[0]) && Covers(ps[1], Atom("i32"));
    assert InType(Atom("i32"), t);
    assert InType(Atom("string"), t.operands[1]) && InType(Atom("string"), t);
    assert !Covered(Atom("string"), ps[..1]);
    forall v | Covers(ps[1], v) ensures Covered(v, ps[..1]) {
      assert Covers(ps[..1][0], v);
    }
  }

  /** With `type d = string`, the case d on `i32 | d` covers a value and is refused. */
  lemma NamedPatternRefused(t: Type, d: Type)
    requires d == Defined("d", Elementary("string")) && t == Operation(Sum, [Elementary("i32"), d])
    ensures Target(t) && PatternOk(d) && CoversSome(d, t)
    ensures VerdictOf(false, {}, Parts(t), d, t) == CanNotMatch
  {
    assert InType(Atom("string"), t.operands[1]) && InType(Atom("string"), t);
    assert Covers(d, Atom("string"));
    assert SumFree(t.operands[1]) && SumFree(t.operands[0]);
    NamesNeverMatch(d, t.operands[0]);
    NamesNeverMatch(d, t.operands[1]);
  }

  /** `_` means any value, but on `i32 | (i32, i32)` it leaves the pair unmatched. */
  lemma WildcardMissesProducts(t: Type)
    requires t == Operation(Sum, [Elementary("i32"), PAIR])
    ensures Target(t) && CoversAll([Wildcard], t) && !TakesAll([Wildcard], t)
  {
    var ps := [Wildcard];
    assert PatternOk(ps[0]);
    assert TargetOk(t.operands[0]) && TargetOk(t.operands[1]) && SumFree(t.operands[0]) && SumFree(t.operands[1]);
    forall v | InType(v, t) ensures Covered(v, ps) {
      assert Covers(ps[0], v);
    }
    assert Target(t) && Contents(t) == t && Operands(t) == t.operands;
    assert !Readable(ps[0], t.operands[1]);
    assert !Takes(ps[0], t.operands[1]);
    assert !Taken(t.operands[1], ps);
  }

  /** A sum behind a name counts as matched once one of its operands is: with the
      cases a and b, nothing is left to match of a | d, where d is b | c. */
  lemma NamedSumGap(t: Type, a: Type, b: Type)
    requires a == Elementary("a") && b == Elementary("b")
    requires t == Operation(Sum, [a, Defined("d", Operation(Sum, [b, Elementary("c")]))])
    ensures TargetOk(t) && Parts(t) <= Adds(a, t) + Adds(b, t)
    ensures InType(Atom("c"), t) && !Covered(Atom("c"), [a, b])
  {
    var d := t.operands[1];
    var inner := d.t.operands;
    assert TargetOk(inner[0]) && TargetOk(inner[1]) && TargetOk(d.t) && TargetOk(d) && TargetOk(a);
    assert inner[..1] == [b] && inner[..1][..0] == [] && t.operands[..1] == [a] && t.operands[..1][..0] == [];
    assert PartsOf(Sum, t.operands[..1]) == {a};
    assert Parts(t) == {a, d};
    assert Matches(b, inner[0]) && Matches(b, d);
    assert SumAdds(b, inner[..1]) == {b};
    assert d in SumAdds(b, t.operands);
    assert SumAdds(a, t.operands[..1]) == {a};
    assert a in SumAdds(a, t.operands);
    assert InType(Atom("c"), inner[1]) && InType(Atom("c"), d.t) && InType(Atom("c"), d);
  }
}
