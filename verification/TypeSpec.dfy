/** Type descriptions as the parser leaves them, binary trees with named leaves, and
    types as the compiler keeps them, where a run of one operator is one n-ary node;
    and what a walk of the first along the second visits. */
module TypeSpec {
  import opened Wrappers
  import opened TypeOps

  /** A description; `Leaf` is `name: right`, and an anonymous description may stand
      on the right of a leaf. */
  datatype Ast =
    | XIdentifier(id: string)
    | Leaf(name: string, right: Ast)
    | Operator(op: TypeOp, left: Ast, right: Ast)
    | Description(desc: Ast)
    | Declaration(desc: Ast)

  /** Elementary and user-defined types are known by name. */
  datatype Type = Named(id: string) | Operation(op: TypeOp, operands: seq<Type>)

  /** What the callback is told: the last leaf name seen, the identifier, and the type
      that the walk has come to. */
  datatype Visit = Visit(name: Option<string>, id: string, t: Type)

  /** The operands a type contributes to an operation. */
  function Spread(op: TypeOp, t: Type): seq<Type> {
    if t.Operation? && t.op == op then t.operands else [t]
  }

  /** The type of a description: runs of the same operator are one operation. */
  function TypeOf(n: Ast): Type {
    match n
    case XIdentifier(id) => Named(id)
    case Leaf(_, r) => TypeOf(r)
    case Description(d) => TypeOf(d)
    case Declaration(d) => TypeOf(d)
    case Operator(op, l, r) => Operation(op, Spread(op, TypeOf(l)) + Spread(op, TypeOf(r)))
  }

  /** The leaf name in force after a walk of n. */
  function LastName(n: Ast, name: Option<string>): Option<string> {
    match n
    case XIdentifier(_) => name
    case Leaf(x, r) => LastName(r, Some(x))
    case Description(d) => LastName(d, name)
    case Declaration(d) => LastName(d, name)
    case Operator(_, l, r) => LastName(r, LastName(l, name))
  }

  /** Every leaf, left to right, with its own type. */
  function Leaves(n: Ast, name: Option<string>): seq<Visit> {
    match n
    case XIdentifier(id) => [Visit(name, id, Named(id))]
    case Leaf(x, r) => Leaves(r, Some(x))
    case Description(d) => Leaves(d, name)
    case Declaration(d) => Leaves(d, name)
    case Operator(_, l, r) => Leaves(l, name) + Leaves(r, LastName(l, name))
  }

  /** A leaf goes by its name, and one without a name by the name before it. */
  lemma UnnamedTakesName(o: TypeOp, x: string, i: string, j: string)
    ensures Leaves(Operator(o, Leaf(x, XIdentifier(i)), XIdentifier(j)), None) == [Visit(Some(x), i, Named(i)), Visit(Some(x), j, Named(j))]
    ensures Leaves(Operator(o, XIdentifier(i), Leaf(x, XIdentifier(j))), None) == [Visit(None, i, Named(i)), Visit(Some(x), j, Named(j))]
  {
    LeafNamed(x, XIdentifier(i), None);
    LeafNamed(x, XIdentifier(j), None);
  }

  lemma LeafNamed(x: string, r: Ast, name: Option<string>)
    ensures Leaves(Leaf(x, r), name) == Leaves(r, Some(x)) && LastName(Leaf(x, r), name) == LastName(r, Some(x))
  {
  }

  // ---------------------------------------------------------------- what flattening keeps

  /** The identifiers of a description, left to right. */
  function Identifiers(n: Ast): seq<string> {
    match n
    case XIdentifier(id) => [id]
    case Leaf(_, r) => Identifiers(r)
    case Description(d) => Identifiers(d)
    case Declaration(d) => Identifiers(d)
    case Operator(_, l, r) => Identifiers(l) + Identifiers(r)
  }

  function Frontier(t: Type): seq<string> {
    match t
    case Named(id) => [id]
    case Operation(_, operands) => FrontierOf(operands)
  }

  function FrontierOf(ts: seq<Type>): seq<string> {
    if ts == [] then [] else Frontier(ts[0]) + FrontierOf(ts[1..])
  }

  lemma {:induction false} FrontierConcat(a: seq<Type>, b: seq<Type>)
    ensures FrontierOf(a + b) == FrontierOf(a) + FrontierOf(b)
    decreases |a|
  {
    if a == [] {
      assert a + b == b;
    } else {
      FrontierConcat(a[1..], b);
      assert (a + b)[1..] == a[1..] + b;
    }
  }

  lemma SpreadFrontier(op: TypeOp, t: Type)
    ensures FrontierOf(Spread(op, t)) == Frontier(t)
  {
    assert [t][1..] == [] && FrontierOf([t]) == Frontier(t) + FrontierOf([]);
  }

  /** The type has the identifiers of the description, in order. */
  lemma {:induction false} FrontierKept(n: Ast)
    ensures Frontier(TypeOf(n)) == Identifiers(n)
  {
    match n
    case XIdentifier(_) =>
    case Leaf(_, r) => FrontierKept(r);
    case Description(d) => FrontierKept(d);
    case Declaration(d) => FrontierKept(d);
    case Operator(op, l, r) =>
      FrontierKept(l);
      FrontierKept(r);
      FrontierConcat(Spread(op, TypeOf(l)), Spread(op, TypeOf(r)));
      SpreadFrontier(op, TypeOf(l));
      SpreadFrontier(op, TypeOf(r));
  }

  /** No operation is an operand of one with the same operator. */
  predicate Normal(t: Type) {
    t.Operation? ==>
      forall k :: 0 <= k < |t.operands| ==>
        Normal(t.operands[k]) && (t.operands[k].Operation? ==> t.operands[k].op != t.op)
  }

  lemma {:induction false} TypeOfNormal(n: Ast)
    ensures Normal(TypeOf(n))
  {
    match n
    case XIdentifier(_) =>
    case Leaf(_, r) => TypeOfNormal(r);
    case Description(d) => TypeOfNormal(d);
    case Declaration(d) => TypeOfNormal(d);
    case Operator(op, l, r) =>
      TypeOfNormal(l);
      TypeOfNormal(r);
  }

  /** How a run of one operator is bracketed makes no difference; under another operator
      the brackets stay. */
  lemma Bracketing(op: TypeOp, a: Ast, b: Ast, c: Ast)
    ensures TypeOf(Operator(op, Operator(op, a, b), c)) == TypeOf(Operator(op, a, Operator(op, b, c)))
    ensures TypeOf(Operator(op, a, b)).Operation? && TypeOf(Operator(op, a, b)).op == op
    ensures a.Operator? && a.op != op ==> [TypeOf(a)] <= TypeOf(Operator(op, a, b)).operands
  {
    hide TypeOf;
    var x, y, z := Spread(op, TypeOf(a)), Spread(op, TypeOf(b)), Spread(op, TypeOf(c));
    TypeOfOperator(op, a, b);
    TypeOfOperator(op, b, c);
    TypeOfOperator(op, Operator(op, a, b), c);
    TypeOfOperator(op, a, Operator(op, b, c));
    assert (x + y) + z == x + (y + z);
    if a.Operator? {
      TypeOfOperator(a.op, a.left, a.right);
    }
  }

  lemma TypeOfOperator(op: TypeOp, l: Ast, r: Ast)
    ensures TypeOf(Operator(op, l, r)) == Operation(op, Spread(op, TypeOf(l)) + Spread(op, TypeOf(r)))
  {
  }

  // ---------------------------------------------------------------- the walk along any type

  /** The visits of a walk that nothing stops, and the types that are left over;
      `None` when the types run out. */
  datatype Plan = Plan(visits: seq<Visit>, rest: Option<seq<Type>>)

  function OperandsOf(t: Type): seq<Type> {
    if t.Operation? then t.operands else []
  }

  /** The walk of n among the operands ts of an operation, `op` being None outside
      of any operation.  A change of operator goes one level down in the type. */
  function Walk(n: Ast, op: Option<TypeOp>, ts: seq<Type>, name: Option<string>): Plan {
    match n
    case XIdentifier(id) => if ts == [] then Plan([], None) else Plan([Visit(name, id, ts[0])], Some(ts[1..]))
    case Leaf(x, r) => Walk(r, op, ts, Some(x))
    case Description(d) => Walk(d, op, ts, name)
    case Declaration(d) => Walk(d, op, ts, name)
    case Operator(o, l, r) =>
      if ts == [] then Plan([], None)
      else if op == Some(o) then
        var a := Walk(l, op, ts, name);
        if a.rest.None? then a
        else
          var b := Walk(r, op, a.rest.value, LastName(l, name));
          Plan(a.visits + b.visits, b.rest)
      else
        var a := Walk(l, Some(o), OperandsOf(ts[0]), name);
        if a.rest.None? then a
        else
          var b := Walk(r, Some(o), a.rest.value, LastName(l, name));
          Plan(a.visits + b.visits, if b.rest.None? then None else Some(ts[1..]))
  }

  /** The walk of the two sides of an operator node, inside its operation. */
  function WalkSides(n: Ast, ts: seq<Type>, name: Option<string>): Plan
    requires n.Operator?
  {
    var a := Walk(n.left, Some(n.op), ts, name);
    if a.rest.None? then a
    else
      var b := Walk(n.right, Some(n.op), a.rest.value, LastName(n.left, name));
      Plan(a.visits + b.visits, b.rest)
  }

  lemma {:induction false} WalkEmpty(n: Ast, op: Option<TypeOp>, name: Option<string>)
    ensures Walk(n, op, [], name) == Plan([], None)
  {
    match n
    case XIdentifier(_) =>
    case Leaf(x, r) => WalkEmpty(r, op, Some(x));
    case Description(d) => WalkEmpty(d, op, name);
    case Declaration(d) => WalkEmpty(d, op, name);
    case Operator(_, _, _) =>
  }

  lemma {:induction false} SpreadNonEmpty(n: Ast, op: TypeOp)
    ensures |Spread(op, TypeOf(n))| >= 1
  {
    match n
    case XIdentifier(_) =>
    case Leaf(_, r) => SpreadNonEmpty(r, op);
    case Description(d) => SpreadNonEmpty(d, op);
    case Declaration(d) => SpreadNonEmpty(d, op);
    case Operator(o, l, r) =>
      if o == op {
        SpreadNonEmpty(l, o);
      }
  }

  // ---------------------------------------------------------------- along the description's own type

  /** Among the operands its own type contributes, a description is walked to the
      end, each leaf meets its own type, and exactly those operands are used up. */
  lemma {:induction false} OwnTypeWalk(n: Ast, op: TypeOp, more: seq<Type>, name: Option<string>)
    ensures Walk(n, Some(op), Spread(op, TypeOf(n)) + more, name) == Plan(Leaves(n, name), Some(more))
  {
    match n
    case XIdentifier(id) =>
    case Leaf(x, r) => OwnTypeWalk(r, op, more, Some(x));
    case Description(d) => OwnTypeWalk(d, op, more, name);
    case Declaration(d) => OwnTypeWalk(d, op, more, name);
    case Operator(o, l, r) =>
      var a, b := Spread(o, TypeOf(l)), Spread(o, TypeOf(r));
      SpreadNonEmpty(l, o);
      if o == op {
        OwnTypeWalk(l, o, b + more, name);
        OwnTypeWalk(r, o, more, LastName(l, name));
        assert Spread(op, TypeOf(n)) + more == a + (b + more);
      } else {
        OwnTypeWalk(l, o, b, name);
        OwnTypeWalk(r, o, [], LastName(l, name));
        assert b + [] == b;
        assert ([TypeOf(n)] + more)[1..] == more;
      }
  }

  /** The whole description along its own type: every leaf once, left to right, with
      the corresponding type, for any alternation of operators. */
  lemma {:induction false} OwnType(n: Ast, name: Option<string>)
    ensures Walk(n, None, [TypeOf(n)], name) == Plan(Leaves(n, name), Some([]))
  {
    assert [TypeOf(n)][1..] == [];
    match n
    case XIdentifier(_) =>
    case Leaf(x, r) => OwnType(r, Some(x));
    case Description(d) => OwnType(d, name);
    case Declaration(d) => OwnType(d, name);
    case Operator(o, l, r) =>
      var b := Spread(o, TypeOf(r));
      OwnTypeWalk(l, o, b, name);
      OwnTypeWalk(r, o, [], LastName(l, name));
      assert b + [] == b;
  }

  // ---------------------------------------------------------------- along other types

  /** t has at least the nesting of s.  Operators are not compared, and an operation
      of t may have operands beyond those of s. */
  predicate Extends(s: Type, t: Type) {
    match s
    case Named(_) => true
    case Operation(_, operands) =>
      t.Operation? && |t.operands| >= |operands| &&
      forall k :: 0 <= k < |operands| ==> Extends(operands[k], t.operands[k])
  }

  predicate ExtendAll(ss: seq<Type>, ts: seq<Type>) {
    |ts| >= |ss| && forall k :: 0 <= k < |ss| ==> Extends(ss[k], ts[k])
  }

  lemma ExtendSplit(a: seq<Type>, b: seq<Type>, ts: seq<Type>)
    ensures ExtendAll(a + b, ts) <==> ExtendAll(a, ts) && ExtendAll(b, ts[if |a| <= |ts| then |a| else |ts|..])
  {
    hide Extends;
    if ExtendAll(a, ts) {
      var us := ts[|a|..];
      if ExtendAll(b, us) {
        forall k | 0 <= k < |a + b| ensures Extends((a + b)[k], ts[k]) {
          if k >= |a| {
            assert ts[k] == us[k - |a|];
          }
        }
      }
      if ExtendAll(a + b, ts) {
        forall k | 0 <= k < |b| ensures Extends(b[k], us[k]) {
          assert (a + b)[|a| + k] == b[k];
        }
      }
    } else if ExtendAll(a + b, ts) {
      forall k | 0 <= k < |a| ensures Extends(a[k], ts[k]) {
        assert (a + b)[k] == a[k];
      }
    }
  }

  /** The walk comes to the end exactly when the types extend those of the description. */
  lemma {:induction false} WalkIff(n: Ast, op: TypeOp, ts: seq<Type>, name: Option<string>)
    ensures Walk(n, Some(op), ts, name).rest ==
            if ExtendAll(Spread(op, TypeOf(n)), ts) then Some(ts[|Spread(op, TypeOf(n))|..]) else None
    decreases n, 1
  {
    match n
    case XIdentifier(_) =>
    case Leaf(x, r) => WalkIff(r, op, ts, Some(x));
    case Description(d) => WalkIff(d, op, ts, name);
    case Declaration(d) => WalkIff(d, op, ts, name);
    case Operator(o, l, r) =>
      SpreadNonEmpty(l, o);
      if ts != [] {
        var us := if o == op then ts else OperandsOf(ts[0]);
        SidesIff(n, us, name);
      }
  }

  lemma {:induction false} SidesIff(n: Ast, ts: seq<Type>, name: Option<string>)
    requires n.Operator?
    ensures WalkSides(n, ts, name).rest ==
            if ExtendAll(TypeOf(n).operands, ts) then Some(ts[|TypeOf(n).operands|..]) else None
    decreases n, 0
  {
    hide ExtendAll, Spread;
    var a, b := Spread(n.op, TypeOf(n.left)), Spread(n.op, TypeOf(n.right));
    assert TypeOf(n).operands == a + b;
    WalkIff(n.left, n.op, ts, name);
    ExtendSplit(a, b, ts);
    ExtendLong(a, ts);
    ExtendLong(a + b, ts);
    if ExtendAll(a, ts) {
      WalkIff(n.right, n.op, ts[|a|..], LastName(n.left, name));
      if ExtendAll(a + b, ts) {
        assert ts[|a|..][|b|..] == ts[|a + b|..];
      }
    }
  }

  lemma ExtendLong(ss: seq<Type>, ts: seq<Type>)
    ensures ExtendAll(ss, ts) ==> |ss| <= |ts|
  {
  }

  /** From the top: a walk that nothing stops returns true if and only if the type
      extends that of the description.  It does not see other operators or operands
      too many. */
  lemma {:induction false} CompletesIff(n: Ast, t: Type, name: Option<string>)
    ensures Walk(n, None, [t], name).rest.Some? <==> Extends(TypeOf(n), t)
  {
    match n
    case XIdentifier(_) =>
    case Leaf(x, r) => CompletesIff(r, t, Some(x));
    case Description(d) => CompletesIff(d, t, name);
    case Declaration(d) => CompletesIff(d, t, name);
    case Operator(o, l, r) =>
      SidesIff(n, OperandsOf(t), name);
      SpreadNonEmpty(l, o);
  }

  /** So a layout that differs is not always refused. */
  lemma LayoutNotCompared()
    ensures
      var n := Operator(Product, XIdentifier("a"), XIdentifier("b"));
      var t := Operation(Sum, [Named("a"), Named("b"), Named("c")]);
      t != TypeOf(n) && Walk(n, None, [t], None) == Plan(Leaves(n, None), Some([]))
  {
    var n := Operator(Product, XIdentifier("a"), XIdentifier("b"));
    var t := Operation(Sum, [Named("a"), Named("b"), Named("c")]);
    assert TypeOf(n).op == Product;
    var a := Walk(n.left, Some(Product), t.operands, None);
    assert t.operands[1..] == [Named("b"), Named("c")];
    assert a == Plan([Visit(None, "a", Named("a"))], Some([Named("b"), Named("c")]));
    var b := Walk(n.right, Some(Product), a.rest.value, None);
    assert b == Plan([Visit(None, "b", Named("b"))], Some([Named("c")]));
    assert [t][1..] == [];
    assert Walk(n, None, [t], None) == Plan(a.visits + b.visits, Some([]));
  }
}
