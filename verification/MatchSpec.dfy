/** Types, patterns and values of match expressions, and what it means for a pattern
    to match a type and to cover a value. */
module MatchSpec {
  import opened TypeOps

  /** Types are interned, so that equal types are the same.  A wildcard occurs in
      patterns only. */
  datatype Type =
    | Elementary(etype: string)
    | Defined(name: string, t: Type)
    | Operation(op: TypeOp, operands: seq<Type>)
    | Wildcard

  predicate IsSum(t: Type) {
    t.Operation? && t.op.Sum?
  }

  /** Function types have an argument and a result; wildcards are for patterns. */
  predicate TargetOk(t: Type) {
    match t
    case Elementary(_) => true
    case Defined(_, u) => TargetOk(u)
    case Operation(op, operands) =>
      (op.Implication? ==> |operands| == 2) && forall k :: 0 <= k < |operands| ==> TargetOk(operands[k])
    case Wildcard => false
  }

  /** Patterns without sums. */
  predicate PatternOk(p: Type) {
    match p
    case Operation(op, operands) =>
      !op.Sum? && (op.Implication? ==> |operands| == 2) && forall k :: 0 <= k < |operands| ==> PatternOk(operands[k])
    case Elementary(_) => true
    case Defined(_, _) => true
    case Wildcard => true
  }

  // ---------------------------------------------------------------- matching and its bookkeeping

  /** The pattern matches the type: a sum when it matches some operand, a product when
      it is a product and matches every operand.  A wildcard matches elementary types only. */
  predicate Matches(p: Type, t: Type)
    requires PatternOk(p) && TargetOk(t)
    decreases t, 0
  {
    match t
    case Defined(_, u) => Matches(p, u)
    case Elementary(_) => p.Wildcard? || p == t
    case Operation(op, operands) =>
      if op.Sum? then exists k :: 0 <= k < |operands| && Matches(p, operands[k])
      else p.Operation? && p.op == op && |p.operands| == |operands| &&
           forall k :: 0 <= k < |operands| ==> Matches(p.operands[k], operands[k])
  }

  /** The operands of sums recorded as matched on the way. */
  function Adds(p: Type, t: Type): set<Type>
    requires PatternOk(p) && TargetOk(t)
    decreases t, 0
  {
    match t
    case Defined(_, u) => Adds(p, u)
    case Elementary(_) => {}
    case Operation(op, operands) =>
      if op.Sum? then SumAdds(p, operands)
      else if p.Operation? && p.op == op && |p.operands| == |operands| then OperandAdds(p.operands, operands)
      else {}
  }

  function SumAdds(p: Type, ts: seq<Type>): set<Type>
    requires PatternOk(p) && forall k :: 0 <= k < |ts| ==> TargetOk(ts[k])
    decreases ts, 1
  {
    if ts == [] then {}
    else
      var k := |ts| - 1;
      SumAdds(p, ts[..k]) + Adds(p, ts[k]) + (if Matches(p, ts[k]) && !IsSum(ts[k]) then {ts[k]} else {})
  }

  /** Operands are matched up to the first that does not match. */
  function OperandAdds(ps: seq<Type>, ts: seq<Type>): set<Type>
    requires |ps| == |ts| && (forall k :: 0 <= k < |ps| ==> PatternOk(ps[k])) && forall k :: 0 <= k < |ts| ==> TargetOk(ts[k])
    decreases ts, 1
  {
    if ts == [] then {}
    else
      var k := |ts| - 1;
      OperandAdds(ps[..k], ts[..k]) + if forall j :: 0 <= j < k ==> Matches(ps[j], ts[j]) then Adds(ps[k], ts[k]) else {}
  }

  /** The parts of a type: operands of its sums, a sum among them taken apart. */
  function Parts(t: Type): set<Type>
    requires TargetOk(t)
    decreases t, 0
  {
    match t
    case Defined(_, u) => Parts(u)
    case Elementary(_) => {}
    case Operation(op, operands) => PartsOf(op, operands)
  }

  function PartsOf(op: TypeOp, ts: seq<Type>): set<Type>
    requires forall k :: 0 <= k < |ts| ==> TargetOk(ts[k])
    decreases ts, 1
  {
    if ts == [] then {}
    else
      var k := |ts| - 1;
      PartsOf(op, ts[..k]) + if op.Sum? && !IsSum(ts[k]) then {ts[k]} else Parts(ts[k])
  }

  // ---------------------------------------------------------------- values

  datatype Value = Atom(etype: string) | Tuple(values: seq<Value>) | Func(arg: Type, result: Type)

  ghost predicate InType(v: Value, t: Type)
    decreases t
  {
    match t
    case Elementary(e) => v == Atom(e)
    case Defined(_, u) => InType(v, u)
    case Wildcard => false
    case Operation(op, operands) =>
      match op
      case Sum => exists k :: 0 <= k < |operands| && InType(v, operands[k])
      case Product => v.Tuple? && |v.values| == |operands| && forall k :: 0 <= k < |operands| ==> InType(v.values[k], operands[k])
      case Implication => |operands| == 2 && v == Func(operands[0], operands[1])
  }

  /** The pattern, read as a set of values: `_` means any value, the name of a type
      means the values of that type, and a function pattern means the functions whose
      argument and result types have no values but those of its two sides. */
  ghost predicate Covers(p: Type, v: Value)
    requires PatternOk(p)
    decreases p, 0
  {
    match p
    case Wildcard => true
    case Elementary(e) => v == Atom(e)
    case Defined(_, u) => InType(v, u)
    case Operation(op, operands) =>
      if op.Product? then
        v.Tuple? && |v.values| == |operands| && forall k :: 0 <= k < |operands| ==> Covers(operands[k], v.values[k])
      else
        v.Func? && CoversType(operands[0], v.arg) && CoversType(operands[1], v.result)
  }

  /** The type has no values but those of the pattern. */
  ghost predicate CoversType(p: Type, t: Type)
    requires PatternOk(p)
    decreases p, 1
  {
    forall v :: InType(v, t) ==> Covers(p, v)
  }

  /** No sum anywhere in the type, not even behind a name. */
  predicate SumFree(t: Type) {
    match t
    case Elementary(_) => true
    case Defined(_, u) => SumFree(u)
    case Operation(op, operands) => !op.Sum? && forall k :: 0 <= k < |operands| ==> SumFree(operands[k])
    case Wildcard => true
  }

  /** A value of a sum-free type. */
  function Witness(t: Type): (v: Value)
    requires TargetOk(t) && SumFree(t)
    ensures InType(v, t)
    decreases t
  {
    match t
    case Elementary(e) => Atom(e)
    case Defined(_, u) => Witness(u)
    case Operation(op, operands) =>
      if op.Product? then Tuple(seq(|operands|, k requires 0 <= k < |operands| => Witness(operands[k])))
      else Func(operands[0], operands[1])
  }

  /** A sum-free type has no other value. */
  lemma {:induction false} OnlyWitness(v: Value, t: Type)
    requires TargetOk(t) && SumFree(t) && InType(v, t)
    ensures v == Witness(t)
    decreases t
  {
    match t
    case Elementary(_) =>
    case Defined(_, u) => OnlyWitness(v, u);
    case Operation(op, operands) =>
      if op.Product? {
        forall k | 0 <= k < |operands| ensures v.values[k] == Witness(operands[k]) {
          OnlyWitness(v.values[k], operands[k]);
        }
        assert v.values == Witness(t).values;
      }
  }

  // ---------------------------------------------------------------- where matching and meaning part

  /** What of the pattern stands against t is what the matcher can read: no name of a
      type, and `_` only against an elementary type. */
  predicate Readable(p: Type, t: Type)
    decreases p
  {
    match p
    case Defined(_, _) => false
    case Wildcard => Contents(t).Elementary?
    case Elementary(_) => true
    case Operation(_, operands) =>
      var c := Contents(t);
      c.Operation? && |c.operands| == |operands| ==> forall k :: 0 <= k < |operands| ==> Readable(operands[k], c.operands[k])
  }

  /** A pattern matches a sum-free type if and only if it covers its values and is
      readable against it: a match always covers, and a pattern that covers is missed
      exactly for its names and wildcards. */
  lemma {:induction false} MatchesIffCovers(p: Type, v: Value, t: Type)
    requires PatternOk(p) && TargetOk(t) && SumFree(t) && InType(v, t)
    ensures Matches(p, t) <==> Covers(p, v) && Readable(p, t)
    decreases t
  {
    match t
    case Elementary(_) =>
    case Defined(_, u) =>
      MatchesIffCovers(p, v, u);
      ReadableContents(p, t);
      ReadableContents(p, u);
    case Operation(op, operands) =>
      if p.Operation? && p.op == op && |p.operands| == |operands| {
        if op.Product? {
          ProductIff(p, v, t);
        } else {
          FunctionIff(p, t);
        }
      }
  }

  /** `_` and its own name match an elementary type, behind names of it too. */
  lemma {:induction false} ElementaryMatched(t: Type)
    requires TargetOk(t) && Contents(t).Elementary?
    ensures Matches(Wildcard, t) && Matches(Contents(t), t) && Readable(Wildcard, t)
    decreases t
  {
    if t.Defined? {
      ElementaryMatched(t.t);
    }
  }

  lemma ReadableContents(p: Type, t: Type)
    ensures Readable(p, t) <==> Readable(p, Contents(t))
  {
    ContentsTwice(t);
  }

  lemma {:induction false} ContentsTwice(t: Type)
    ensures Contents(Contents(t)) == Contents(t)
  {
    if t.Defined? {
      ContentsTwice(t.t);
    }
  }

  lemma {:induction false} ProductIff(p: Type, v: Value, t: Type)
    requires PatternOk(p) && TargetOk(t) && SumFree(t) && InType(v, t) && t.Operation? && t.op.Product?
    requires p.Operation? && p.op == t.op && |p.operands| == |t.operands|
    ensures Matches(p, t) <==> Covers(p, v) && Readable(p, t)
    decreases t, 0
  {
    forall k | 0 <= k < |t.operands|
      ensures Matches(p.operands[k], t.operands[k]) <==> Covers(p.operands[k], v.values[k]) && Readable(p.operands[k], t.operands[k])
    {
      MatchesIffCovers(p.operands[k], v.values[k], t.operands[k]);
    }
  }

  lemma {:induction false} FunctionIff(p: Type, t: Type)
    requires PatternOk(p) && TargetOk(t) && SumFree(t) && t.Operation? && t.op.Implication?
    requires p.Operation? && p.op == t.op && |p.operands| == |t.operands|
    ensures Matches(p, t) <==> Covers(p, Func(t.operands[0], t.operands[1])) && Readable(p, t)
    decreases t, 0
  {
    var a, r := t.operands[0], t.operands[1];
    AllCovered(p.operands[0], a);
    AllCovered(p.operands[1], r);
    MatchesIffCovers(p.operands[0], Witness(a), a);
    MatchesIffCovers(p.operands[1], Witness(r), r);
    assert Contents(t) == t;
    assert Matches(p, t) <==> Matches(p.operands[0], a) && Matches(p.operands[1], r);
    assert Readable(p, t) <==> Readable(p.operands[0], a) && Readable(p.operands[1], r);
  }

  lemma AllCovered(p: Type, t: Type)
    requires PatternOk(p) && TargetOk(t) && SumFree(t)
    ensures CoversType(p, t) <==> Covers(p, Witness(t))
  {
    hide Covers;
    forall w | InType(w, t) ensures w == Witness(t) {
      OnlyWitness(w, t);
    }
  }

  predicate HasName(p: Type) {
    match p
    case Defined(_, _) => true
    case Operation(_, operands) => exists k :: 0 <= k < |operands| && HasName(operands[k])
    case Elementary(_) => false
    case Wildcard => false
  }

  predicate HasWildcard(p: Type) {
    match p
    case Wildcard => true
    case Operation(_, operands) => exists k :: 0 <= k < |operands| && HasWildcard(operands[k])
    case Elementary(_) => false
    case Defined(_, _) => false
  }

  predicate Plain(p: Type) {
    !HasName(p) && !HasWildcard(p)
  }

  /** The pattern matches exactly the sum-free types whose values it covers. */
  ghost predicate AgreesEverywhere(p: Type)
    requires PatternOk(p)
  {
    forall t, v :: TargetOk(t) && SumFree(t) && InType(v, t) ==> (Matches(p, t) <==> Covers(p, v))
  }

  /** The pattern covers a value of some sum-free type. */
  ghost predicate Coverable(p: Type)
    requires PatternOk(p)
  {
    exists t :: TargetOk(t) && SumFree(t) && Covers(p, Witness(t))
  }

  lemma {:induction false} PlainIsReadable(p: Type, t: Type)
    requires Plain(p)
    ensures Readable(p, t)
    decreases p
  {
    if p.Operation? && Contents(t).Operation? && |Contents(t).operands| == |p.operands| {
      forall k | 0 <= k < |p.operands| ensures Readable(p.operands[k], Contents(t).operands[k]) {
        PlainIsReadable(p.operands[k], Contents(t).operands[k]);
      }
    }
  }

  /** Nothing is matched by a pattern with a name in it. */
  lemma {:induction false} NamesNeverMatch(p: Type, t: Type)
    requires PatternOk(p) && TargetOk(t) && SumFree(t) && HasName(p)
    ensures !Matches(p, t)
    decreases t
  {
    match t
    case Elementary(_) =>
    case Defined(_, u) => NamesNeverMatch(p, u);
    case Operation(op, operands) =>
      if p.Operation? && p.op == op && |p.operands| == |operands| {
        var k :| 0 <= k < |operands| && HasName(p.operands[k]);
        NamesNeverMatch(p.operands[k], operands[k]);
      }
  }

  const PAIR: Type := Operation(Product, [Elementary("i32"), Elementary("i32")])

  lemma PairOk()
    ensures TargetOk(PAIR) && SumFree(PAIR)
  {
  }

  /** Names stand for sum-free types. */
  predicate NamesSumFree(p: Type) {
    match p
    case Defined(_, u) => TargetOk(u) && SumFree(u)
    case Operation(_, operands) => forall k :: 0 <= k < |operands| ==> NamesSumFree(operands[k])
    case Elementary(_) => true
    case Wildcard => true
  }

  /** A type whose values the pattern covers, with a product for every wildcard. */
  function Instance(p: Type): (t: Type)
    requires PatternOk(p) && NamesSumFree(p)
    ensures TargetOk(t) && SumFree(t)
  {
    match p
    case Wildcard =>
      PairOk();
      PAIR
    case Elementary(_) => p
    case Defined(_, u) => u
    case Operation(op, operands) =>
      Operation(op, seq(|operands|, k requires 0 <= k < |operands| => Instance(operands[k])))
  }

  lemma {:induction false} InstanceCovered(p: Type)
    requires PatternOk(p) && NamesSumFree(p)
    ensures Covers(p, Witness(Instance(p)))
  {
    if p.Operation? {
      var t := Instance(p);
      forall k | 0 <= k < |p.operands| ensures Covers(p.operands[k], Witness(t.operands[k])) {
        InstanceCovered(p.operands[k]);
      }
      if p.op.Implication? {
        AllCovered(p.operands[0], t.operands[0]);
        AllCovered(p.operands[1], t.operands[1]);
      }
    }
  }

  lemma {:induction false} InstanceUnreadable(p: Type)
    requires PatternOk(p) && NamesSumFree(p) && HasWildcard(p)
    ensures !Readable(p, Instance(p))
  {
    if p.Operation? {
      var k :| 0 <= k < |p.operands| && HasWildcard(p.operands[k]);
      InstanceUnreadable(p.operands[k]);
      assert Instance(p).operands[k] == Instance(p.operands[k]);
    }
  }

  lemma {:induction false} NoNamesSumFree(p: Type)
    requires !HasName(p)
    ensures NamesSumFree(p)
  {
    if p.Operation? {
      forall k | 0 <= k < |p.operands| ensures NamesSumFree(p.operands[k]) {
        NoNamesSumFree(p.operands[k]);
      }
    }
  }

  lemma NamesSumFreeCoverable(p: Type)
    requires PatternOk(p) && NamesSumFree(p)
    ensures Coverable(p)
  {
    InstanceCovered(p);
  }

  /** For which patterns matching means covering: those without names and wildcards, and
      besides them only patterns that cover nothing of any sum-free type. */
  lemma AgreesIff(p: Type)
    requires PatternOk(p)
    ensures AgreesEverywhere(p) <==> Plain(p) || (HasName(p) && !Coverable(p))
    ensures NamesSumFree(p) ==> (AgreesEverywhere(p) <==> Plain(p))
  {
    hide Matches, Covers, InType, SumFree, TargetOk, HasName, HasWildcard, NamesSumFree, Readable;
    if Plain(p) {
      PlainAgrees(p);
    } else if HasName(p) {
      NamedAgreesIff(p);
    } else {
      WildcardDisagrees(p);
    }
    if NamesSumFree(p) {
      NamesSumFreeCoverable(p);
    }
  }

  lemma PlainAgrees(p: Type)
    requires PatternOk(p) && Plain(p)
    ensures AgreesEverywhere(p)
  {
    hide Matches, Covers, InType, SumFree, TargetOk, Readable, Plain;
    forall t, v | TargetOk(t) && SumFree(t) && InType(v, t) ensures Matches(p, t) <==> Covers(p, v) {
      MatchesIffCovers(p, v, t);
      PlainIsReadable(p, t);
    }
  }

  lemma NamedAgreesIff(p: Type)
    requires PatternOk(p) && HasName(p)
    ensures AgreesEverywhere(p) <==> !Coverable(p)
  {
    hide Matches, Covers, InType, SumFree, TargetOk, HasName, Witness;
    if Coverable(p) {
      var t :| TargetOk(t) && SumFree(t) && Covers(p, Witness(t));
      NamesNeverMatch(p, t);
      assert InType(Witness(t), t);
    } else {
      forall t, v | TargetOk(t) && SumFree(t) && InType(v, t) ensures Matches(p, t) <==> Covers(p, v) {
        NamesNeverMatch(p, t);
        OnlyWitness(v, t);
      }
    }
  }

  lemma WildcardDisagrees(p: Type)
    requires PatternOk(p) && !HasName(p) && HasWildcard(p)
    ensures !AgreesEverywhere(p)
  {
    hide Matches, Covers, InType, SumFree, TargetOk, HasName, HasWildcard, Readable, NamesSumFree, Instance;
    NoNamesSumFree(p);
    InstanceCovered(p);
    InstanceUnreadable(p);
    MatchesIffCovers(p, Witness(Instance(p)), Instance(p));
    assert InType(Witness(Instance(p)), Instance(p));
  }

  // ---------------------------------------------------------------- bookkeeping inside sum-free types

  lemma {:induction false} SumFreeAdds(p: Type, t: Type)
    requires PatternOk(p) && TargetOk(t) && SumFree(t)
    ensures Adds(p, t) == {} && Parts(t) == {}
    decreases t, 0
  {
    match t
    case Elementary(_) =>
    case Defined(_, u) => SumFreeAdds(p, u);
    case Operation(op, operands) =>
      SumFreeParts(p, op, operands);
      if p.Operation? && p.op == op && |p.operands| == |operands| {
        SumFreeOperands(p.operands, operands);
      }
  }

  lemma {:induction false} SumFreeParts(p: Type, op: TypeOp, ts: seq<Type>)
    requires PatternOk(p) && !op.Sum? && forall k :: 0 <= k < |ts| ==> TargetOk(ts[k]) && SumFree(ts[k])
    ensures PartsOf(op, ts) == {}
    decreases ts, 1
  {
    if ts != [] {
      SumFreeParts(p, op, ts[..|ts| - 1]);
      SumFreeAdds(p, ts[|ts| - 1]);
    }
  }

  lemma {:induction false} SumFreeOperands(ps: seq<Type>, ts: seq<Type>)
    requires |ps| == |ts| && (forall k :: 0 <= k < |ps| ==> PatternOk(ps[k]))
    requires forall k :: 0 <= k < |ts| ==> TargetOk(ts[k]) && SumFree(ts[k])
    ensures OperandAdds(ps, ts) == {}
    decreases ts, 1
  {
    if ts != [] {
      SumFreeOperands(ps[..|ps| - 1], ts[..|ts| - 1]);
      SumFreeAdds(ps[|ps| - 1], ts[|ts| - 1]);
    }
  }

  // ---------------------------------------------------------------- flat sums

  /** The type behind its names. */
  function Contents(t: Type): Type {
    if t.Defined? then Contents(t.t) else t
  }

  /** A sum, maybe named, whose operands contain no further sum. */
  predicate FlatSum(t: Type) {
    IsSum(Contents(t)) && forall k :: 0 <= k < |Contents(t).operands| ==> SumFree(Contents(t).operands[k])
  }

  function Operands(t: Type): seq<Type>
    requires FlatSum(t)
  {
    Contents(t).operands
  }

  lemma {:induction false} ContentsOk(t: Type)
    requires TargetOk(t)
    ensures TargetOk(Contents(t)) && Parts(t) == Parts(Contents(t))
    ensures forall p :: PatternOk(p) ==> Adds(p, t) == Adds(p, Contents(t)) && (Matches(p, t) <==> Matches(p, Contents(t)))
    ensures forall v :: InType(v, t) <==> InType(v, Contents(t))
  {
    if t.Defined? {
      ContentsOk(t.t);
    }
  }

  /** The operands that a pattern matches. */
  ghost function Matched(ts: seq<Type>, p: Type): set<Type>
    requires PatternOk(p) && forall k :: 0 <= k < |ts| ==> TargetOk(ts[k])
  {
    set k | 0 <= k < |ts| && Matches(p, ts[k]) :: ts[k]
  }

  lemma {:induction false} FlatAdds(p: Type, ts: seq<Type>)
    requires PatternOk(p) && forall k :: 0 <= k < |ts| ==> TargetOk(ts[k]) && SumFree(ts[k])
    ensures SumAdds(p, ts) == Matched(ts, p)
    ensures PartsOf(Sum, ts) == set t | t in ts
  {
    hide Matches, TargetOk, SumFree, Adds;
    if ts != [] {
      var k := |ts| - 1;
      FlatAdds(p, ts[..k]);
      SumFreeAdds(p, ts[k]);
      NotSum(ts[k]);
      MatchedMore(ts, p);
      assert ts == ts[..k] + [ts[k]];
    }
  }

  lemma NotSum(t: Type)
    requires SumFree(t)
    ensures !IsSum(t)
  {
  }

  lemma MatchedMore(ts: seq<Type>, p: Type)
    requires PatternOk(p) && ts != [] && forall k :: 0 <= k < |ts| ==> TargetOk(ts[k])
    ensures Matched(ts, p) == Matched(ts[..|ts| - 1], p) + if Matches(p, ts[|ts| - 1]) then {ts[|ts| - 1]} else {}
  {
    hide Matches, TargetOk;
    var k := |ts| - 1;
    forall t | t in Matched(ts, p) ensures t in Matched(ts[..k], p) || (Matches(p, ts[k]) && t == ts[k]) {
      var j :| 0 <= j < |ts| && Matches(p, ts[j]) && ts[j] == t;
      assert j < k ==> ts[..k][j] == t;
    }
    forall t | t in Matched(ts[..k], p) ensures t in Matched(ts, p) {
      var j :| 0 <= j < k && Matches(p, ts[..k][j]) && ts[..k][j] == t;
      assert ts[j] == t;
    }
  }

  /** Matching a flat sum records exactly the operands matched, and its parts are its operands. */
  lemma FlatBookkeeping(p: Type, t: Type)
    requires PatternOk(p) && TargetOk(t) && FlatSum(t)
    ensures TargetOk(Contents(t)) && forall k :: 0 <= k < |Operands(t)| ==> TargetOk(Operands(t)[k])
    ensures Parts(t) == set u | u in Operands(t)
    ensures Adds(p, t) == Matched(Operands(t), p)
    ensures Matches(p, t) <==> Matched(Operands(t), p) != {}
  {
    hide SumFree;
    ContentsOk(t);
    FlatAdds(p, Operands(t));
    if Matches(p, t) {
      var k :| 0 <= k < |Operands(t)| && Matches(p, Operands(t)[k]);
      assert Operands(t)[k] in Matched(Operands(t), p);
    }
  }
}
