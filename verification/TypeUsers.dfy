/** Users of the walk over types: member access in src/analyzer/typecheck.c and
    src/ir/rir_binaryop.c, and the comparison of src/types/type_comparisons.c. */
module TypeUsers {
  import opened Wrappers
  import opened TypeOps
  import opened TypeSpec
  import opened TypeWalk

  // ---------------------------------------------------------------- member access

  /** Type checking wants the type of the member. */
  datatype MemberCtx = MemberCtx(member: string, memberType: Option<Type>)

  function MemberCb(ctx: MemberCtx, v: Visit): (MemberCtx, bool) {
    if v.name == Some(ctx.member) then (ctx.(memberType := Some(v.t)), false) else (ctx, true)
  }

  /** The RIR wants its index. */
  datatype IndexCtx = IndexCtx(right: string, foundIdx: int, idxCounter: int)

  function IndexCb(ctx: IndexCtx, v: Visit): (IndexCtx, bool) {
    if v.name == Some(ctx.right) then (ctx.(foundIdx := ctx.idxCounter), false)
    else (ctx.(idxCounter := ctx.idxCounter + 1), true)
  }

  /** The first visit under a name, or the number of visits. */
  function FirstNamed(visits: seq<Visit>, name: string): (k: nat)
    ensures k <= |visits| && (k < |visits| ==> visits[k].name == Some(name))
    ensures forall j :: 0 <= j < k ==> visits[j].name != Some(name)
  {
    if visits == [] || visits[0].name == Some(name) then 0 else 1 + FirstNamed(visits[1..], name)
  }

  lemma {:induction false} MemberFound(visits: seq<Visit>, ctx: MemberCtx)
    ensures
      var k := FirstNamed(visits, ctx.member);
      Feed(MemberCb, ctx, visits).0 == if k < |visits| then ctx.(memberType := Some(visits[k].t)) else ctx
  {
    if visits != [] && visits[0].name != Some(ctx.member) {
      MemberFound(visits[1..], ctx);
    }
  }

  lemma {:induction false} IndexFound(visits: seq<Visit>, ctx: IndexCtx)
    ensures
      var k := FirstNamed(visits, ctx.right);
      Feed(IndexCb, ctx, visits).0.foundIdx == if k < |visits| then ctx.idxCounter + k else ctx.foundIdx
  {
    if visits != [] && visits[0].name != Some(ctx.right) {
      IndexFound(visits[1..], ctx.(idxCounter := ctx.idxCounter + 1));
    }
  }

  /** `None` is the error "could not find member". */
  method TypecheckMemberAccess(desc: Ast, t: Type, member: string) returns (r: Option<Type>)
    ensures
      var visits := Walk(desc, None, [t], None).visits;
      var k := FirstNamed(visits, member);
      r == if k < |visits| then Some(visits[k].t) else None
  {
    hide Walk, Feed, FirstNamed;
    var ctx := MemberCtx(member, None);
    var _, ctx' := ForeachLeafArg(desc, t, MemberCb, ctx);
    MemberFound(Walk(desc, None, [t], None).visits, ctx);
    return ctx'.memberType;
  }

  /** -1 is the error "could not find argument". */
  method RirMemberAccess(desc: Ast, t: Type, right: string) returns (idx: int)
    ensures
      var visits := Walk(desc, None, [t], None).visits;
      var k := FirstNamed(visits, right);
      idx == if k < |visits| then k else -1
  {
    hide Walk, Feed, FirstNamed;
    var ctx := IndexCtx(right, -1, 0);
    var _, ctx' := ForeachLeafArg(desc, t, IndexCb, ctx);
    IndexFound(Walk(desc, None, [t], None).visits, ctx);
    return ctx'.foundIdx;
  }

  /** A type whose operands are the types of the leaves, in order: leaf k is operand k. */
  ghost predicate LeafIsOperand(n: Ast, name: Option<string>) {
    var operands, leaves := Spread(Product, TypeOf(n)), Leaves(n, name);
    |operands| == |leaves| && forall k :: 0 <= k < |leaves| ==> leaves[k].t == operands[k]
  }

  predicate Flat(operands: seq<Type>) {
    forall k :: 0 <= k < |operands| ==> operands[k].Named?
  }

  lemma {:induction false} FlatLeaves(n: Ast, name: Option<string>)
    requires Flat(Spread(Product, TypeOf(n)))
    ensures LeafIsOperand(n, name)
  {
    match n
    case XIdentifier(_) =>
    case Leaf(x, r) => FlatLeaves(r, Some(x));
    case Description(d) => FlatLeaves(d, name);
    case Declaration(d) => FlatLeaves(d, name);
    case Operator(o, l, r) =>
      var a, b := Spread(Product, TypeOf(l)), Spread(Product, TypeOf(r));
      if o != Product {
        NotFlat(TypeOf(n));
      } else {
        FlatParts(a, b);
        FlatLeaves(l, name);
        FlatLeaves(r, LastName(l, name));
      }
  }

  lemma NotFlat(t: Type)
    requires t.Operation?
    ensures !Flat([t])
  {
    assert [t][0] == t;
  }

  lemma FlatParts(a: seq<Type>, b: seq<Type>)
    requires Flat(a + b)
    ensures Flat(a) && Flat(b)
  {
    forall k | 0 <= k < |a| ensures a[k].Named? {
      assert (a + b)[k] == a[k];
    }
    forall k | 0 <= k < |b| ensures b[k].Named? {
      assert (a + b)[|a| + k] == b[k];
    }
  }

  lemma {:induction false} LeavesNamed(n: Ast, name: Option<string>, k: nat)
    requires k < |Leaves(n, name)|
    ensures Leaves(n, name)[k].t.Named?
  {
    match n
    case XIdentifier(_) =>
    case Leaf(x, r) => LeavesNamed(r, Some(x), k);
    case Description(d) => LeavesNamed(d, name, k);
    case Declaration(d) => LeavesNamed(d, name, k);
    case Operator(_, l, r) =>
      var m := |Leaves(l, name)|;
      if k < m {
        LeavesNamed(l, name, k);
      } else {
        LeavesNamed(r, LastName(l, name), k - m);
      }
  }

  /** All leaves are operands, one for one, if and only if the product is flat. */
  lemma LeavesAreOperandsIff(n: Ast, name: Option<string>)
    ensures LeafIsOperand(n, name) <==> Flat(Spread(Product, TypeOf(n)))
  {
    if LeafIsOperand(n, name) {
      forall k | 0 <= k < |Spread(Product, TypeOf(n))| ensures Spread(Product, TypeOf(n))[k].Named? {
        LeavesNamed(n, name, k);
      }
    }
    if Flat(Spread(Product, TypeOf(n))) {
      FlatLeaves(n, name);
    }
  }

  // ---------------------------------------------------------------- the operand that holds a leaf

  function LeafCount(t: Type): nat {
    match t
    case Named(_) => 1
    case Operation(_, operands) => Total(operands)
  }

  function Total(ts: seq<Type>): nat {
    if ts == [] then 0 else LeafCount(ts[0]) + Total(ts[1..])
  }

  lemma {:induction false} TotalConcat(a: seq<Type>, b: seq<Type>)
    ensures Total(a + b) == Total(a) + Total(b)
    decreases |a|
  {
    if a == [] {
      assert a + b == b;
    } else {
      TotalConcat(a[1..], b);
      assert (a + b)[1..] == a[1..] + b;
    }
  }

  /** The position of the operand that leaf k is inside of. */
  function Holder(ts: seq<Type>, k: nat): (j: nat)
    requires k < Total(ts)
    ensures j < |ts|
  {
    if k < LeafCount(ts[0]) then 0 else 1 + Holder(ts[1..], k - LeafCount(ts[0]))
  }

  /** Operand j holds leaf k exactly when the leaves before it are at most k and those
      up to its end are more. */
  lemma {:induction false} HolderIff(ts: seq<Type>, k: nat, j: nat)
    requires k < Total(ts) && j < |ts|
    ensures Holder(ts, k) == j <==> Total(ts[..j]) <= k < Total(ts[..j]) + LeafCount(ts[j])
    decreases |ts|
  {
    var c := LeafCount(ts[0]);
    if j > 0 {
      assert ts[..j][0] == ts[0] && ts[..j][1..] == ts[1..][..j - 1];
      if k >= c {
        HolderIff(ts[1..], k - c, j - 1);
      }
    } else if k >= c {
      assert Holder(ts, k) >= 1;
    }
  }

  lemma {:induction false} HolderConcat(a: seq<Type>, b: seq<Type>, k: nat)
    requires k < Total(a) + Total(b)
    ensures Total(a + b) == Total(a) + Total(b)
    ensures Holder(a + b, k) == if k < Total(a) then Holder(a, k) else |a| + Holder(b, k - Total(a))
    decreases |a|
  {
    TotalConcat(a, b);
    if a == [] {
      assert a + b == b;
    } else {
      assert (a + b)[1..] == a[1..] + b;
      if k >= LeafCount(a[0]) {
        HolderConcat(a[1..], b, k - LeafCount(a[0]));
      }
    }
  }

  /** Operations have two operands or more, as they have in the types of descriptions. */
  predicate Wide(t: Type) {
    t.Operation? ==> |t.operands| >= 2 && forall k :: 0 <= k < |t.operands| ==> Wide(t.operands[k])
  }

  predicate AllWide(ts: seq<Type>) {
    forall k :: 0 <= k < |ts| ==> Wide(ts[k])
  }

  lemma {:induction false} TypeOfWide(n: Ast)
    ensures Wide(TypeOf(n))
  {
    match n
    case XIdentifier(_) =>
    case Leaf(_, r) => TypeOfWide(r);
    case Description(d) => TypeOfWide(d);
    case Declaration(d) => TypeOfWide(d);
    case Operator(o, l, r) =>
      TypeOfWide(l);
      TypeOfWide(r);
      SpreadNonEmpty(l, o);
      SpreadNonEmpty(r, o);
  }

  /** A wide operation has two leaves or more. */
  lemma {:induction false} WideCount(t: Type)
    requires Wide(t)
    ensures LeafCount(t) >= if t.Named? then 1 else 2
  {
    if t.Operation? {
      WideCount(t.operands[0]);
      WideCount(t.operands[1]);
      assert Total(t.operands[1..]) == LeafCount(t.operands[1..][0]) + Total(t.operands[1..][1..]);
      assert LeafCount(t) == Total(t.operands) == LeafCount(t.operands[0]) + Total(t.operands[1..]);
    }
  }

  /** The leaves before operand j are j, if these operands are leaves, and more if not. */
  lemma {:induction false} WideTotal(ts: seq<Type>)
    requires AllWide(ts)
    ensures Total(ts) >= |ts| && (Total(ts) == |ts| <==> Flat(ts))
    decreases |ts|
  {
    if ts != [] {
      WideCount(ts[0]);
      WideTotal(ts[1..]);
      assert Flat(ts) ==> Flat(ts[1..]);
      if Flat(ts[1..]) && ts[0].Named? {
        forall k | 0 <= k < |ts| ensures ts[k].Named? {
          assert k > 0 ==> ts[k] == ts[1..][k - 1];
        }
      }
    }
  }

  lemma {:induction false} LeavesCount(n: Ast, op: TypeOp, name: Option<string>)
    ensures |Leaves(n, name)| == Total(Spread(op, TypeOf(n)))
  {
    match n
    case XIdentifier(_) => OneTotal(TypeOf(n));
    case Leaf(x, r) => LeavesCount(r, op, Some(x));
    case Description(d) => LeavesCount(d, op, name);
    case Declaration(d) => LeavesCount(d, op, name);
    case Operator(o, l, r) =>
      LeavesCount(l, o, name);
      LeavesCount(r, o, LastName(l, name));
      TotalConcat(Spread(o, TypeOf(l)), Spread(o, TypeOf(r)));
      OneTotal(TypeOf(n));
  }

  lemma OneTotal(t: Type)
    ensures Total([t]) == LeafCount(t)
  {
    assert [t][1..] == [];
  }

  /** An operand without operator is itself the type of its leaf. */
  lemma {:induction false} LeafOfNamed(n: Ast, op: TypeOp, name: Option<string>, k: nat)
    requires k < |Leaves(n, name)|
    ensures |Leaves(n, name)| == Total(Spread(op, TypeOf(n)))
    ensures var u := Spread(op, TypeOf(n))[Holder(Spread(op, TypeOf(n)), k)]; u.Named? ==> Leaves(n, name)[k].t == u
  {
    LeavesCount(n, op, name);
    match n
    case XIdentifier(_) =>
    case Leaf(x, r) => LeafOfNamed(r, op, Some(x), k);
    case Description(d) => LeafOfNamed(d, op, name, k);
    case Declaration(d) => LeafOfNamed(d, op, name, k);
    case Operator(o, l, r) =>
      if o == op {
        var a, b := Spread(o, TypeOf(l)), Spread(o, TypeOf(r));
        LeavesCount(l, o, name);
        LeavesCount(r, o, LastName(l, name));
        HolderConcat(a, b, k);
        if k < |Leaves(l, name)| {
          LeafOfNamed(l, o, name, k);
        } else {
          LeafOfNamed(r, o, LastName(l, name), k - |Leaves(l, name)|);
        }
      }
  }

  /** The leaf at index k, and the operand j that holds it.  The index is the position of
      the operand if and only if the operands before are leaves and leaf k is the first
      one of its operand; the leaf has the type of its operand if and only if that is a
      leaf; so the index serves, position and type, exactly up to the first operand that
      is no leaf. */
  lemma IndexIsOperandIff(n: Ast, name: Option<string>, k: nat)
    requires k < |Leaves(n, name)|
    ensures k < Total(Spread(Product, TypeOf(n)))
    ensures
      var operands := Spread(Product, TypeOf(n));
      var j := Holder(operands, k);
      && (k == j <==> Flat(operands[..j]) && k == Total(operands[..j]))
      && (Leaves(n, name)[k].t == operands[j] <==> operands[j].Named?)
      && (k == j && Leaves(n, name)[k].t == operands[j] <==> Flat(operands[..j + 1]))
  {
    hide Leaves, TypeOf, Spread, Holder, LeafCount, Wide;
    var operands := Spread(Product, TypeOf(n));
    LeafOfNamed(n, Product, name, k);
    LeavesNamed(n, name, k);
    var j := Holder(operands, k);
    OperandsWide(n);
    HolderIff(operands, k, j);
    WideTotal(operands[..j]);
    FlatMore(operands, j);
    if operands[j].Named? {
      NamedCount(operands[j]);
    }
  }

  lemma NamedCount(t: Type)
    requires t.Named?
    ensures LeafCount(t) == 1
  {
  }

  lemma OperandsWide(n: Ast)
    ensures AllWide(Spread(Product, TypeOf(n)))
  {
    TypeOfWide(n);
  }

  lemma FlatMore(ts: seq<Type>, j: nat)
    requires j < |ts|
    ensures Flat(ts[..j + 1]) <==> Flat(ts[..j]) && ts[j].Named?
  {
    if Flat(ts[..j + 1]) {
      assert ts[..j + 1][j] == ts[j];
      forall k | 0 <= k < j ensures ts[..j][k].Named? {
        assert ts[..j + 1][k] == ts[..j][k];
      }
    }
  }

  /** `a.b`: both passes find the member or neither does.  What the RIR reads is the
      operand that the member is in, with the type that type checking gave the access,
      if and only if neither this operand nor one before it has an operator inside. */
  method MemberAccess(desc: Ast, member: string) returns (t: Option<Type>, idx: int)
    ensures t.Some? <==> idx >= 0
    ensures t.Some? <==> exists v :: v in Leaves(desc, None) && v.name == Some(member)
    ensures t.Some? ==> idx < Total(Spread(Product, TypeOf(desc)))
    ensures t.Some? ==>
              var operands := Spread(Product, TypeOf(desc));
              var j := Holder(operands, idx);
              && (idx == j && operands[j] == t.value <==> Flat(operands[..j + 1]))
              && (Flat(operands) ==> idx < |operands| && operands[idx] == t.value)
  {
    hide Walk, Leaves, Spread, TypeOf, Flat, Total, Holder;
    t := TypecheckMemberAccess(desc, TypeOf(desc), member);
    idx := RirMemberAccess(desc, TypeOf(desc), member);
    OwnType(desc, None);
    ghost var k := FirstNamed(Leaves(desc, None), member);
    if k < |Leaves(desc, None)| {
      assert Leaves(desc, None)[k] in Leaves(desc, None);
      IndexIsOperandIff(desc, None, k);
      if Flat(Spread(Product, TypeOf(desc))) {
        FlatLeaves(desc, None);
      }
    }
  }

  /** In `{a: t, b: {u | v}, c: w}` the member c gets index 3, but is operand 2 of 3. */
  lemma NestedIndexIsOff()
    ensures
      var b := Leaf("b", Description(Operator(Sum, XIdentifier("u"), XIdentifier("v"))));
      var n := Operator(Product, Operator(Product, Leaf("a", XIdentifier("t")), b), Leaf("c", XIdentifier("w")));
      FirstNamed(Leaves(n, None), "c") == 3 && |Spread(Product, TypeOf(n))| == 3 &&
      Spread(Product, TypeOf(n))[2] == Named("w")
  {
    var a, c := Leaf("a", XIdentifier("t")), Leaf("c", XIdentifier("w"));
    var s := Operator(Sum, XIdentifier("u"), XIdentifier("v"));
    var b := Leaf("b", Description(s));
    var l := Operator(Product, a, b);
    var n := Operator(Product, l, c);
    assert TypeOf(b) == TypeOf(s) && TypeOf(l) == Operation(Product, [Named("t"), TypeOf(s)]);
    assert Leaves(s, Some("b")) == [Visit(Some("b"), "u", Named("u")), Visit(Some("b"), "v", Named("v"))];
    assert Leaves(b, Some("a")) == Leaves(s, Some("b"));
    var visits := Leaves(n, None);
    assert visits == Leaves(l, None) + [Visit(Some("c"), "w", Named("w"))];
    assert visits == [Visit(Some("a"), "t", Named("t"))] + Leaves(s, Some("b")) + [Visit(Some("c"), "w", Named("w"))];
    assert visits[3].name == Some("c");
    assert forall j :: 0 <= j < 3 ==> visits[j].name != Some("c");
  }

  /** In `{a: t, b: {u | v}}`, which is not flat, both indices are right as positions. */
  lemma NestedIndexIsRight()
    ensures
      var b := Leaf("b", Description(Operator(Sum, XIdentifier("u"), XIdentifier("v"))));
      var n := Operator(Product, Leaf("a", XIdentifier("t")), b);
      !Flat(Spread(Product, TypeOf(n))) && FirstNamed(Leaves(n, None), "a") == 0 && FirstNamed(Leaves(n, None), "b") == 1
  {
    var a, s := Leaf("a", XIdentifier("t")), Operator(Sum, XIdentifier("u"), XIdentifier("v"));
    var b := Leaf("b", Description(s));
    var n := Operator(Product, a, b);
    assert Spread(Product, TypeOf(n))[1] == TypeOf(s);
    assert Leaves(s, Some("b")) == [Visit(Some("b"), "u", Named("u")), Visit(Some("b"), "v", Named("v"))];
    assert Leaves(n, None) == [Visit(Some("a"), "t", Named("t"))] + Leaves(s, Some("b"));
    assert Leaves(n, None)[0].name == Some("a") && Leaves(n, None)[1].name == Some("b");
  }

  // ---------------------------------------------------------------- comparing a type with a description

  function EqualityCb(ctx: (), v: Visit): ((), bool) {
    (ctx, v.t == Named(v.id))
  }

  ghost predicate AllEqual(visits: seq<Visit>) {
    forall k :: 0 <= k < |visits| ==> visits[k].t == Named(visits[k].id)
  }

  lemma {:induction false} FeedEquality(visits: seq<Visit>)
    ensures Feed(EqualityCb, (), visits).1 <==> AllEqual(visits)
  {
    if visits != [] {
      FeedEquality(visits[1..]);
      assert AllEqual(visits) ==> AllEqual(visits[1..]);
      if AllEqual(visits[1..]) && visits[0].t == Named(visits[0].id) {
        forall k | 0 <= k < |visits| ensures visits[k].t == Named(visits[k].id) {
          assert k > 0 ==> visits[k] == visits[1..][k - 1];
        }
      }
    }
  }

  /** t has the leaves of s where s has them, and maybe more operands and other operators. */
  predicate Covers(s: Type, t: Type) {
    match s
    case Named(_) => t == s
    case Operation(_, operands) =>
      t.Operation? && |t.operands| >= |operands| &&
      forall k :: 0 <= k < |operands| ==> Covers(operands[k], t.operands[k])
  }

  predicate CoverAll(ss: seq<Type>, ts: seq<Type>) {
    |ts| >= |ss| && forall k :: 0 <= k < |ss| ==> Covers(ss[k], ts[k])
  }

  /** The same operators and the same numbers of operands all the way down. */
  predicate SameLayout(s: Type, t: Type) {
    match s
    case Named(_) => t.Named?
    case Operation(op, operands) =>
      t.Operation? && t.op == op && |t.operands| == |operands| &&
      forall k :: 0 <= k < |operands| ==> SameLayout(operands[k], t.operands[k])
  }

  lemma CoverSplit(a: seq<Type>, b: seq<Type>, ts: seq<Type>)
    requires |a| <= |ts|
    ensures CoverAll(a + b, ts) <==> CoverAll(a, ts) && CoverAll(b, ts[|a|..])
  {
    hide Covers;
    var us := ts[|a|..];
    if CoverAll(a, ts) && CoverAll(b, us) {
      forall k | 0 <= k < |a + b| ensures Covers((a + b)[k], ts[k]) {
        assert k >= |a| ==> ts[k] == us[k - |a|];
      }
    }
    if CoverAll(a + b, ts) {
      forall k | 0 <= k < |a| ensures Covers(a[k], ts[k]) {
        assert (a + b)[k] == a[k];
      }
      forall k | 0 <= k < |b| ensures Covers(b[k], us[k]) {
        assert (a + b)[|a| + k] == b[k];
      }
    }
  }

  ghost predicate Equal(plan: Plan) {
    plan.rest.Some? && AllEqual(plan.visits)
  }

  lemma {:induction false} EqualIff(n: Ast, op: TypeOp, ts: seq<Type>, name: Option<string>)
    ensures Equal(Walk(n, Some(op), ts, name)) <==> CoverAll(Spread(op, TypeOf(n)), ts)
    decreases n, 1
  {
    match n
    case XIdentifier(id) =>
      if ts != [] {
        assert AllEqual([Visit(name, id, ts[0])]) <==> [Visit(name, id, ts[0])][0].t == Named(id);
      }
    case Leaf(x, r) => EqualIff(r, op, ts, Some(x));
    case Description(d) => EqualIff(d, op, ts, name);
    case Declaration(d) => EqualIff(d, op, ts, name);
    case Operator(o, l, r) =>
      SpreadNonEmpty(l, o);
      if ts != [] {
        OperatorWalk(n, Some(op), ts, name);
        SidesEqualIff(n, if o == op then ts else OperandsOf(ts[0]), name);
        CoversOperation(TypeOf(n), ts);
      }
  }

  lemma CoversOperation(s: Type, ts: seq<Type>)
    requires s.Operation? && ts != [] && s.operands != []
    ensures CoverAll([s], ts) <==> Covers(s, ts[0])
    ensures Covers(s, ts[0]) <==> CoverAll(s.operands, OperandsOf(ts[0]))
  {
    assert [s][0] == s;
  }

  lemma {:induction false} SidesEqualIff(n: Ast, ts: seq<Type>, name: Option<string>)
    requires n.Operator?
    ensures Equal(WalkSides(n, ts, name)) <==> CoverAll(TypeOf(n).operands, ts)
    decreases n, 0
  {
    hide CoverAll, Spread, Walk, AllEqual, ExtendAll;
    var a, b := Spread(n.op, TypeOf(n.left)), Spread(n.op, TypeOf(n.right));
    assert TypeOf(n).operands == a + b;
    EqualIff(n.left, n.op, ts, name);
    CoverLong(a, ts);
    CoverLong(a + b, ts);
    var left := Walk(n.left, Some(n.op), ts, name);
    if left.rest.Some? {
      WalkIff(n.left, n.op, ts, name);
      ExtendLong(a, ts);
      CoverSplit(a, b, ts);
      EqualIff(n.right, n.op, left.rest.value, LastName(n.left, name));
      AllEqualConcat(left.visits, Walk(n.right, Some(n.op), left.rest.value, LastName(n.left, name)).visits);
    } else if CoverAll(a + b, ts) {
      CoverSplit(a, b, ts);
    }
  }

  lemma CoverLong(ss: seq<Type>, ts: seq<Type>)
    ensures CoverAll(ss, ts) ==> |ss| <= |ts|
  {
  }

  lemma AllEqualConcat(a: seq<Visit>, b: seq<Visit>)
    ensures AllEqual(a + b) <==> AllEqual(a) && AllEqual(b)
  {
    if AllEqual(a + b) {
      forall k | 0 <= k < |a| ensures a[k].t == Named(a[k].id) {
        assert (a + b)[k] == a[k];
      }
      forall k | 0 <= k < |b| ensures b[k].t == Named(b[k].id) {
        assert (a + b)[|a| + k] == b[k];
      }
    }
  }

  lemma {:induction false} TopEqualIff(n: Ast, t: Type, name: Option<string>)
    ensures Equal(Walk(n, None, [t], name)) <==> Covers(TypeOf(n), t)
  {
    match n
    case XIdentifier(id) =>
      assert AllEqual([Visit(name, id, t)]) <==> [Visit(name, id, t)][0].t == Named(id);
    case Leaf(x, r) => TopEqualIff(r, t, Some(x));
    case Description(d) => TopEqualIff(d, t, name);
    case Declaration(d) => TopEqualIff(d, t, name);
    case Operator(o, l, r) =>
      OperatorWalk(n, None, [t], name);
      SidesEqualIff(n, OperandsOf(t), name);
      SpreadNonEmpty(l, o);
      CoversOperation(TypeOf(n), [t]);
  }

  /** A type that covers another and has its layout is the same type. */
  lemma {:induction false} CoversSameLayout(s: Type, t: Type)
    ensures Covers(s, t) && SameLayout(s, t) <==> s == t
  {
    if s.Operation? && t.Operation? && |t.operands| == |s.operands| {
      forall k | 0 <= k < |s.operands|
        ensures Covers(s.operands[k], t.operands[k]) && SameLayout(s.operands[k], t.operands[k]) <==> s.operands[k] == t.operands[k]
      {
        CoversSameLayout(s.operands[k], t.operands[k]);
      }
      if Covers(s, t) && SameLayout(s, t) {
        assert s.operands == t.operands;
      }
    }
  }

  /** True if and only if the type covers that of the description; among types of the
      description's layout, if and only if it is the description's type. */
  method TypeEqualsAstNode(t: Type, desc: Ast) returns (r: bool)
    ensures r <==> Covers(TypeOf(desc), t)
    ensures SameLayout(TypeOf(desc), t) ==> (r <==> t == TypeOf(desc))
  {
    hide Walk, Feed, Covers, SameLayout;
    var equal, _ := ForeachLeafArg(desc, t, EqualityCb, ());
    r := equal;
    FeedEquality(Walk(desc, None, [t], None).visits);
    TopEqualIff(desc, t, None);
    CoversSameLayout(TypeOf(desc), t);
  }

  /** A sum is found equal to the description of a product. */
  lemma EqualityIsTooWide()
    ensures
      var n := Operator(Product, XIdentifier("a"), XIdentifier("b"));
      var t := Operation(Sum, [Named("a"), Named("b"), Named("c")]);
      t != TypeOf(n) && Covers(TypeOf(n), t)
  {
    var n := Operator(Product, XIdentifier("a"), XIdentifier("b"));
    assert TypeOf(n) == Operation(Product, [Named("a"), Named("b")]);
  }
}
