/** Creation of types from descriptions: src/types/type_creation.c.

    Before a type is made, the module's set of types is searched for one that is equal
    to the description, and the test used for that is too wide.  What is created is
    proved to be the type of the description if and only if no search on the way meets
    another type that passes the test. */
module TypeCreation {
  import opened Wrappers
  import opened TypeOps
  import opened TypeSpec
  import opened TypeUsers

  // ---------------------------------------------------------------- what is created

  /** The order in which a set of types is visited. */
  type Order = set<Type> -> seq<Type>

  ghost predicate OrderOk(order: Order) {
    forall types: set<Type>, t :: t in order(types) <==> t in types
  }

  /** The first type that passes for the type s of a description. */
  function FirstCovering(ts: seq<Type>, s: Type): (r: Option<Type>)
    ensures r.Some? ==> r.value in ts && Covers(s, r.value)
    ensures r.None? ==> forall t :: t in ts ==> !Covers(s, t)
  {
    if ts == [] then None else if Covers(s, ts[0]) then Some(ts[0]) else FirstCovering(ts[1..], s)
  }

  /** What the right of a leaf may be: an identifier or an anonymous description. */
  predicate Creatable(n: Ast) {
    match n
    case XIdentifier(_) => true
    case Leaf(_, r) => (r.XIdentifier? || IsElement(r)) && Creatable(r)
    case Description(d) => Creatable(d)
    case Declaration(_) => false
    case Operator(_, l, r) => Creatable(l) && Creatable(r)
  }

  predicate IsElement(n: Ast) {
    n.Operator? || (n.Description? && IsElement(n.desc))
  }

  /** A type, and the module's types afterwards. */
  datatype Made = Made(t: Type, types: set<Type>)

  /** The operands that a description adds to an operation, and the module's types afterwards. */
  datatype Added = Added(ts: seq<Type>, types: set<Type>)

  /** The first type that passes for the description, or a new one. */
  function GetOrCreate(order: Order, n: Ast, types: set<Type>): Made
    requires Creatable(n) && (n.XIdentifier? || IsElement(n))
    decreases n, 2
  {
    if n.XIdentifier? then Made(Named(n.id), types)
    else
      var found := FirstCovering(order(types), TypeOf(n));
      if found.Some? then Made(found.value, types)
      else
        var created := Create(order, n, types);
        Made(created.t, created.types + {created.t})
  }

  function Create(order: Order, n: Ast, types: set<Type>): (m: Made)
    requires Creatable(n) && IsElement(n)
    ensures m.t.Operation?
    decreases n, 1
  {
    match n
    case Description(d) => Create(order, d, types)
    case Operator(op, l, r) =>
      var a := Contribution(order, op, l, types);
      var b := Contribution(order, op, r, a.types);
      Made(Operation(op, a.ts + b.ts), b.types)
  }

  function Contribution(order: Order, op: TypeOp, n: Ast, types: set<Type>): Added
    requires Creatable(n)
    decreases n, 3
  {
    match n
    case XIdentifier(id) => Added([Named(id)], types)
    case Leaf(_, r) =>
      var m := GetOrCreate(order, r, types);
      Added(Spread(op, m.t), m.types)
    case Description(d) => Contribution(order, op, d, types)
    case Operator(o, l, r) =>
      if o == op then
        var a := Contribution(order, op, l, types);
        var b := Contribution(order, op, r, a.types);
        Added(a.ts + b.ts, b.types)
      else
        var m := GetOrCreate(order, n, types);
        Added(Spread(op, m.t), m.types)
  }

  /** A lookup outside of any operation. */
  function Lookup(order: Order, n: Ast, types: set<Type>): Made
    requires Creatable(n)
  {
    match n
    case XIdentifier(id) => Made(Named(id), types)
    case Leaf(_, r) => GetOrCreate(order, r, types)
    case Description(d) => Lookup(order, d, types)
    case Operator(_, _, _) => GetOrCreate(order, n, types)
  }

  /** No type that covers s stands before the one found. */
  lemma {:induction false} FoundFirst(ts: seq<Type>, s: Type, k: nat)
    requires k < |ts| && Covers(s, ts[k]) && forall j :: 0 <= j < k ==> !Covers(s, ts[j])
    ensures FirstCovering(ts, s) == Some(ts[k])
  {
    if k > 0 {
      FoundFirst(ts[1..], s, k - 1);
    }
  }

  // ---------------------------------------------------------------- undisturbed searches

  /** No search on the way to the type of n meets another type that passes first. */
  predicate Undisturbed(order: Order, n: Ast, types: set<Type>)
    requires Creatable(n) && (n.XIdentifier? || IsElement(n))
    decreases n, 2
  {
    n.XIdentifier? ||
    var found := FirstCovering(order(types), TypeOf(n));
    if found.Some? then found.value == TypeOf(n) else SidesUndisturbed(order, n, types)
  }

  predicate SidesUndisturbed(order: Order, n: Ast, types: set<Type>)
    requires Creatable(n) && IsElement(n)
    decreases n, 1
  {
    match n
    case Description(d) => SidesUndisturbed(order, d, types)
    case Operator(op, l, r) =>
      && OperandUndisturbed(order, op, l, types)
      && OperandUndisturbed(order, op, r, Contribution(order, op, l, types).types)
  }

  predicate OperandUndisturbed(order: Order, op: TypeOp, n: Ast, types: set<Type>)
    requires Creatable(n)
    decreases n, 3
  {
    match n
    case XIdentifier(_) => true
    case Leaf(_, r) => Undisturbed(order, r, types)
    case Description(d) => OperandUndisturbed(order, op, d, types)
    case Operator(o, l, r) =>
      if o == op then
        && OperandUndisturbed(order, op, l, types)
        && OperandUndisturbed(order, op, r, Contribution(order, op, l, types).types)
      else Undisturbed(order, n, types)
  }

  // ---------------------------------------------------------------- a wrong type is never made good

  /** Operations have operands. */
  predicate Solid(t: Type) {
    t.Operation? ==> t.operands != [] && forall k :: 0 <= k < |t.operands| ==> Solid(t.operands[k])
  }

  predicate AllSolid(ts: seq<Type>) {
    forall k :: 0 <= k < |ts| ==> Solid(ts[k])
  }

  ghost predicate SolidSet(types: set<Type>) {
    forall t :: t in types ==> Solid(t)
  }

  lemma {:induction false} SolidCount(t: Type)
    requires Solid(t)
    ensures LeafCount(t) >= 1
  {
    if t.Operation? {
      SolidCount(t.operands[0]);
    }
  }

  /** A type that covers another has no fewer leaves, and more when it has more operands. */
  lemma {:induction false} CoversCount(s: Type, t: Type)
    requires Covers(s, t)
    ensures LeafCount(t) >= LeafCount(s)
    decreases s, 1
  {
    if s.Operation? {
      CoverAllCount(s, s.operands, t.operands);
    }
  }

  lemma {:induction false} CoverAllCount(s: Type, ss: seq<Type>, ts: seq<Type>)
    requires CoverAll(ss, ts) && s.Operation? && forall k :: 0 <= k < |ss| ==> ss[k] in s.operands
    ensures Total(ts) >= Total(ss)
    ensures |ts| > |ss| && AllSolid(ts) ==> Total(ts) > Total(ss)
    decreases s, 0, |ts|
  {
    if ss == [] {
      if ts != [] && AllSolid(ts) {
        SolidCount(ts[0]);
      }
    } else {
      var i :| 0 <= i < |s.operands| && s.operands[i] == ss[0];
      CoversCount(s.operands[i], ts[0]);
      forall k | 0 <= k < |ss[1..]| ensures Covers(ss[1..][k], ts[1..][k]) {
        assert ss[1..][k] == ss[k + 1] && ts[1..][k] == ts[k + 1];
      }
      CoverAllCount(s, ss[1..], ts[1..]);
    }
  }

  /** The number of operators on the way to the leftmost leaf. */
  function Depth(t: Type): nat {
    match t
    case Named(_) => 0
    case Operation(_, operands) => if operands == [] then 1 else 1 + Depth(operands[0])
  }

  lemma {:induction false} CoversDepth(s: Type, t: Type)
    requires Covers(s, t) && Wide(s)
    ensures Depth(t) == Depth(s)
  {
    if s.Operation? {
      CoversDepth(s.operands[0], t.operands[0]);
    }
  }

  /** Operands that are not those wanted, and that nothing added behind can repair. */
  ghost predicate Off(got: seq<Type>, wanted: seq<Type>) {
    Total(got) > Total(wanted) || exists i :: 0 <= i < |got| && i < |wanted| && got[i] != wanted[i]
  }

  lemma OffLeft(a: seq<Type>, b: seq<Type>, c: seq<Type>, d: seq<Type>)
    requires Off(a, b) && Total(a) >= Total(b) && Total(c) >= Total(d)
    ensures Off(a + c, b + d)
  {
    TotalConcat(a, c);
    TotalConcat(b, d);
    if Total(a) == Total(b) {
      var i :| 0 <= i < |a| && i < |b| && a[i] != b[i];
      assert (a + c)[i] != (b + d)[i];
    }
  }

  lemma OffRight(a: seq<Type>, c: seq<Type>, d: seq<Type>)
    requires Off(c, d)
    ensures Off(a + c, a + d)
  {
    TotalConcat(a, c);
    TotalConcat(a, d);
    if Total(c) <= Total(d) {
      var i :| 0 <= i < |c| && i < |d| && c[i] != d[i];
      assert (a + c)[|a| + i] != (a + d)[|a| + i];
    }
  }

  lemma SpreadTotal(op: TypeOp, t: Type)
    ensures Total(Spread(op, t)) == LeafCount(t)
  {
    OneTotal(t);
  }

  /** Another type that covers s puts the operands off, whether or not it is spread. */
  lemma FoundOff(s: Type, t: Type, op: TypeOp)
    requires Covers(s, t) && t != s && s.Operation? && Wide(s) && Solid(t)
    ensures Off(Spread(op, t), Spread(op, s))
  {
    hide LeafCount, Total, Depth;
    if s.op == op && t.op == op {
      SameOperatorOff(s, t);
    } else {
      CoversDepth(s, t);
      FirstDiffers(s, t, op);
    }
  }

  lemma SameOperatorOff(s: Type, t: Type)
    requires Covers(s, t) && t != s && s.Operation? && Solid(t) && t.op == s.op
    ensures Off(t.operands, s.operands)
  {
    hide LeafCount, Total;
    CoverAllCount(s, s.operands, t.operands);
    if |t.operands| == |s.operands| {
      assert t.operands != s.operands;
      var i :| 0 <= i < |s.operands| && t.operands[i] != s.operands[i];
    }
  }

  /** One of the two is spread and the other is not, or neither is. */
  lemma FirstDiffers(s: Type, t: Type, op: TypeOp)
    requires s.Operation? && t.Operation? && s.operands != [] && t.operands != [] && Depth(s) == Depth(t) && s != t
    requires !(s.op == op && t.op == op)
    ensures Off(Spread(op, t), Spread(op, s))
  {
    hide Total;
    assert Depth(s.operands[0]) == Depth(t.operands[0]) == Depth(s) - 1;
    assert Spread(op, t)[0] != Spread(op, s)[0];
  }

  /** Off operands make another type. */
  lemma OffDiffers(op: TypeOp, got: seq<Type>, wanted: seq<Type>)
    requires Off(got, wanted)
    ensures got != wanted
  {
  }

  /** What a creation keeps and how its result compares with the type wanted. */
  ghost predicate Compares(got: seq<Type>, wanted: seq<Type>, undisturbed: bool) {
    && AllSolid(got) && got != [] && Total(got) >= Total(wanted)
    && (undisturbed ==> got == wanted)
    && (!undisturbed ==> Off(got, wanted))
  }

  lemma ComparesConcat(a: seq<Type>, b: seq<Type>, c: seq<Type>, d: seq<Type>, left: bool, right: bool)
    requires Compares(a, b, left) && Compares(c, d, right)
    ensures Compares(a + c, b + d, left && right)
  {
    hide Off, Total;
    TotalConcat(a, c);
    TotalConcat(b, d);
    if !left {
      OffLeft(a, b, c, d);
    } else if !right {
      OffRight(a, c, d);
    }
  }

  ghost predicate Steps(order: Order, types: set<Type>) {
    OrderOk(order) && SolidSet(types)
  }

  lemma {:induction false} GetCompares(order: Order, n: Ast, types: set<Type>, op: TypeOp)
    requires Creatable(n) && (n.XIdentifier? || IsElement(n)) && Steps(order, types)
    ensures
      var m := GetOrCreate(order, n, types);
      && Steps(order, m.types) && Solid(m.t) && Compares(Spread(op, m.t), Spread(op, TypeOf(n)), Undisturbed(order, n, types))
      && (Undisturbed(order, n, types) ==> m.t == TypeOf(n))
    decreases n, 2
  {
    hide Off, Total, Covers, LeafCount, Wide;
    var s := TypeOf(n);
    TypeOfWide(n);
    if !n.XIdentifier? {
      ElementIsOperation(n);
      var found := FirstCovering(order(types), s);
      if found.Some? {
        FoundCompares(s, found.value, op);
      } else {
        CreateCompares(order, n, types);
        CreatedCompares(s, Create(order, n, types).t, op, SidesUndisturbed(order, n, types));
      }
    }
  }

  lemma {:induction false} ElementIsOperation(n: Ast)
    requires IsElement(n)
    ensures TypeOf(n).Operation?
  {
    if n.Description? {
      ElementIsOperation(n.desc);
    }
  }

  lemma FoundCompares(s: Type, t: Type, op: TypeOp)
    requires Covers(s, t) && s.Operation? && Wide(s) && Solid(t)
    ensures Compares(Spread(op, t), Spread(op, s), t == s)
  {
    hide Off, Total, LeafCount, Covers;
    CoversCount(s, t);
    SpreadTotal(op, s);
    SpreadTotal(op, t);
    if t != s {
      FoundOff(s, t, op);
    }
  }

  /** A created type, in an operation that spreads it or one that does not. */
  lemma CreatedCompares(s: Type, t: Type, op: TypeOp, undisturbed: bool)
    requires s.Operation? && t.Operation? && s.op == t.op && Compares(t.operands, s.operands, undisturbed)
    ensures Solid(t) && Compares(Spread(op, t), Spread(op, s), undisturbed)
    ensures undisturbed ==> t == s
  {
    hide Total, LeafCount;
    SpreadTotal(op, s);
    SpreadTotal(op, t);
    SpreadTotal(s.op, s);
    SpreadTotal(t.op, t);
    if op != s.op && !undisturbed {
      OffDiffers(op, t.operands, s.operands);
      assert Spread(op, t)[0] != Spread(op, s)[0];
    }
  }

  lemma {:induction false} CreateCompares(order: Order, n: Ast, types: set<Type>)
    requires Creatable(n) && IsElement(n) && Steps(order, types)
    ensures TypeOf(n).Operation?
    ensures
      var m := Create(order, n, types);
      && Steps(order, m.types) && m.t.op == TypeOf(n).op
      && Compares(m.t.operands, TypeOf(n).operands, SidesUndisturbed(order, n, types))
    decreases n, 1
  {
    hide Compares, Steps;
    match n
    case Description(d) => CreateCompares(order, d, types);
    case Operator(op, l, r) =>
      ContributionCompares(order, op, l, types);
      var a := Contribution(order, op, l, types);
      ContributionCompares(order, op, r, a.types);
      var b := Contribution(order, op, r, a.types);
      ComparesConcat(a.ts, Spread(op, TypeOf(l)), b.ts, Spread(op, TypeOf(r)),
                     OperandUndisturbed(order, op, l, types), OperandUndisturbed(order, op, r, a.types));
  }

  lemma {:induction false} ContributionCompares(order: Order, op: TypeOp, n: Ast, types: set<Type>)
    requires Creatable(n) && Steps(order, types)
    ensures
      var a := Contribution(order, op, n, types);
      Steps(order, a.types) && Compares(a.ts, Spread(op, TypeOf(n)), OperandUndisturbed(order, op, n, types))
    decreases n, 3
  {
    hide Compares, Steps;
    match n
    case XIdentifier(id) => NamedCompares(id);
    case Leaf(_, r) => GetCompares(order, r, types, op);
    case Description(d) => ContributionCompares(order, op, d, types);
    case Operator(o, l, r) =>
      if o == op {
        ContributionCompares(order, op, l, types);
        var a := Contribution(order, op, l, types);
        ContributionCompares(order, op, r, a.types);
        var b := Contribution(order, op, r, a.types);
        ComparesConcat(a.ts, Spread(op, TypeOf(l)), b.ts, Spread(op, TypeOf(r)),
                       OperandUndisturbed(order, op, l, types), OperandUndisturbed(order, op, r, a.types));
      } else {
        GetCompares(order, n, types, op);
      }
  }

  lemma NamedCompares(id: string)
    ensures Compares([Named(id)], [Named(id)], true)
  {
  }

  // ---------------------------------------------------------------- the results

  /** The type found or created for a description is the description's type if and only
      if no search on the way meets another type that passes first. */
  lemma CreatedIff(order: Order, n: Ast, types: set<Type>)
    requires Creatable(n) && (n.XIdentifier? || IsElement(n)) && OrderOk(order) && SolidSet(types)
    ensures GetOrCreate(order, n, types).t == TypeOf(n) <==> Undisturbed(order, n, types)
    ensures SolidSet(GetOrCreate(order, n, types).types)
  {
    hide Covers, Off;
    GetCompares(order, n, types, Sum);
    if !Undisturbed(order, n, types) {
      OffDiffers(Sum, Spread(Sum, GetOrCreate(order, n, types).t), Spread(Sum, TypeOf(n)));
    }
  }

  /** What a lookup outside of any operation is about: the node under descriptions, and
      under a name. */
  function Core(n: Ast): (c: Ast)
    requires Creatable(n)
    ensures Creatable(c) && (c.XIdentifier? || IsElement(c))
  {
    match n
    case XIdentifier(_) => n
    case Leaf(_, r) => r
    case Description(d) => Core(d)
    case Operator(_, _, _) => n
  }

  /** Such a lookup answers the type of the node if and only if no search on the way meets
      another type that passes first; an identifier is never searched for. */
  lemma {:induction false} LookedUpIff(order: Order, n: Ast, types: set<Type>)
    requires Creatable(n) && OrderOk(order) && SolidSet(types)
    ensures Lookup(order, n, types).t == TypeOf(n) <==> Undisturbed(order, Core(n), types)
    ensures Core(n).XIdentifier? ==> Lookup(order, n, types) == Made(Named(Core(n).id), types) && TypeOf(n) == Named(Core(n).id)
    ensures SolidSet(Lookup(order, n, types).types)
  {
    hide SolidSet, Undisturbed;
    match n
    case XIdentifier(_) => CreatedIff(order, n, types);
    case Leaf(_, r) => CreatedIff(order, r, types);
    case Description(d) => LookedUpIff(order, d, types);
    case Operator(_, _, _) => CreatedIff(order, n, types);
  }

  /** One operator over identifiers, each maybe with a name: nothing inside is searched for. */
  predicate Simple(op: TypeOp, n: Ast) {
    match n
    case XIdentifier(_) => true
    case Leaf(_, r) => r.XIdentifier?
    case Description(d) => Simple(op, d)
    case Declaration(_) => false
    case Operator(o, l, r) => o == op && Simple(op, l) && Simple(op, r)
  }

  lemma {:induction false} SimpleUndisturbed(order: Order, op: TypeOp, n: Ast, types: set<Type>)
    requires Simple(op, n)
    ensures Creatable(n) && OperandUndisturbed(order, op, n, types) && Contribution(order, op, n, types).types == types
  {
    match n
    case XIdentifier(_) =>
    case Leaf(_, _) =>
    case Description(d) => SimpleUndisturbed(order, op, d, types);
    case Operator(_, l, r) =>
      SimpleUndisturbed(order, op, l, types);
      SimpleUndisturbed(order, op, r, types);
  }

  /** For such a description the result is the first type of the module that covers its
      type, and its type when there is none; so it is the description's type if and
      only if no other type that covers it stands first. */
  lemma SimpleCreated(order: Order, n: Ast, types: set<Type>)
    requires n.Operator? && Simple(n.op, n) && OrderOk(order) && SolidSet(types)
    ensures Creatable(n)
    ensures
      var found, m := FirstCovering(order(types), TypeOf(n)), GetOrCreate(order, n, types);
      && m.t == (if found.Some? then found.value else TypeOf(n))
      && m.types == (if found.Some? then types else types + {TypeOf(n)})
      && (m.t == TypeOf(n) <==> found.None? || found.value == TypeOf(n))
  {
    hide Covers, FirstCovering;
    SimpleUndisturbed(order, n.op, n.left, types);
    SimpleUndisturbed(order, n.op, n.right, types);
    CreatedIff(order, n, types);
  }

  /** Even a module without types can get it wrong: in {(a | b | c), y: (a, b)} the sum,
      just created, passes for the pair. */
  lemma FreshModuleDisturbed(order: Order, n: Ast)
    requires OrderOk(order)
    requires n == Operator(Product, Operator(Sum, Operator(Sum, XIdentifier("a"), XIdentifier("b")), XIdentifier("c")),
                           Leaf("y", Description(Operator(Product, XIdentifier("a"), XIdentifier("b")))))
    ensures Creatable(n) && GetOrCreate(order, n, {}).t != TypeOf(n)
  {
  }

  // ---------------------------------------------------------------- the compiler's side

  /** What a lookup returns: a finished type, or the operation still being filled. */
  datatype Found = Ready(t: Type) | CurrentOperator

  class Creation {
    /** The operations being filled, innermost last. */
    var operators: seq<Type>
    /** The module's types, and the order in which the set visits them. */
    var types: set<Type>
    const order: Order

    ghost predicate Valid()
      reads this
    {
      OrderOk(order) && forall k :: 0 <= k < |operators| ==> operators[k].Operation?
    }

    constructor (order: Order)
      requires OrderOk(order)
      ensures Valid() && operators == [] && types == {} && this.order == order
    {
      operators, types := [], {};
      this.order := order;
    }

    /** A type goes into the innermost operation: as operands of it when it is the same
        operation, else as one operand. */
    method AddToCurrop(f: Found)
      requires Valid()
      modifies this`operators
      ensures Valid()
      ensures operators == if old(operators) == [] || f.CurrentOperator? then old(operators) else Filled(old(operators), Spread(TopOp(old(operators)), f.t))
    {
      if operators != [] && f.Ready? {
        var k := |operators| - 1;
        var currop := operators[k];
        if f.t.Operation? && f.t.op == currop.op {
          operators := operators[k := currop.(operands := currop.operands + f.t.operands)];
        } else {
          operators := operators[k := currop.(operands := currop.operands + [f.t])];
        }
      }
    }

    /** Outside of any operation, the type found or created; inside, the innermost
        operation filled with what the description adds to it. */
    method LookupOrCreate(n: Ast) returns (r: Found)
      requires Valid() && Creatable(n)
      modifies this`operators, this`types
      ensures Valid()
      ensures
        if old(operators) == [] then
          var m := Lookup(order, n, old(types));
          operators == [] && r == Ready(m.t) && types == m.types
        else
          var a := Contribution(order, TopOp(old(operators)), n, old(types));
          operators == Filled(old(operators), a.ts) && types == a.types
      decreases n, 3
    {
      hide GetOrCreate, TypeOf, OrderOk;
      match n
      case Description(desc) =>
        r := LookupOrCreate(desc);
      case XIdentifier(id) =>
        r := Ready(Named(id));
        AddToCurrop(r);
      case Leaf(_, right) =>
        var t := GetOrCreateType(right);
        r := Ready(t);
        AddToCurrop(r);
      case Operator(_, _, _) =>
        r := OperatorLookupOrCreate(n);
        AddToCurrop(r);
    }

    method OperatorLookupOrCreate(n: Ast) returns (r: Found)
      requires Valid() && n.Operator? && Creatable(n)
      modifies this`operators, this`types
      ensures Valid()
      ensures
        if old(operators) != [] && TopOp(old(operators)) == n.op then
          var m := Create(order, n, old(types));
          r == CurrentOperator && operators == Filled(old(operators), m.t.operands) && types == m.types
        else
          var m := GetOrCreate(order, n, old(types));
          r == Ready(m.t) && operators == old(operators) && types == m.types
      decreases n, 2, 1
    {
      if operators != [] && TopOp(operators) == n.op {
        FillBoth(n);
        r := CurrentOperator;
      } else {
        var t := GetOrCreateType(n);
        r := Ready(t);
      }
    }

    /** Both sides of an operator go into the innermost operation. */
    method FillBoth(n: Ast)
      requires Valid() && n.Operator? && Creatable(n) && operators != [] && TopOp(operators) == n.op
      modifies this`operators, this`types
      ensures Valid()
      ensures
        var m := Create(order, n, old(types));
        operators == Filled(old(operators), m.t.operands) && types == m.types
      decreases n, 0, 0
    {
      hide Contribution, OrderOk;
      ghost var before, a := operators, Contribution(order, n.op, n.left, types);
      ghost var b := Contribution(order, n.op, n.right, a.types);
      FilledTwice(operators, a.ts, b.ts);
      var _ := LookupOrCreate(n.left);
      var _ := LookupOrCreate(n.right);
    }

    method OperatorInitFromNode(n: Ast) returns (t: Type)
      requires Valid() && n.Operator? && Creatable(n)
      modifies this`operators, this`types
      ensures Valid() && operators == old(operators) && Made(t, types) == Create(order, n, old(types))
      decreases n, 0, 1
    {
      hide Create, OrderOk;
      ghost var before := operators;
      operators := operators + [Operation(n.op, [])];
      FillBoth(n);
      OpOfCreated(order, n, old(types));
      t := operators[|operators| - 1];
      operators := operators[..|operators| - 1];
      assert operators == before;
    }

    /** The node under the descriptions. */
    method CreateFromElement(n: Ast) returns (t: Type)
      requires Valid() && Creatable(n) && IsElement(n)
      modifies this`operators, this`types
      ensures Valid() && operators == old(operators) && Made(t, types) == Create(order, n, old(types))
      decreases n, 1, 0
    {
      hide OrderOk;
      match n
      case Operator(_, _, _) =>
        t := OperatorInitFromNode(n);
      case Description(desc) =>
        t := CreateFromElement(desc);
    }

    /** `module_get_or_create_type`: the first type of the set that is found equal to the
        description, or a new one, which is added to the set. */
    method GetOrCreateType(n: Ast) returns (t: Type)
      requires Valid() && Creatable(n) && (n.XIdentifier? || IsElement(n))
      modifies this`operators, this`types
      ensures Valid() && operators == old(operators) && Made(t, types) == GetOrCreate(order, n, old(types))
      decreases n, 1, 1
    {
      hide Create, OrderOk, Covers;
      if n.XIdentifier? {
        return Named(n.id);
      }
      var found := FindEqual(n);
      if found.Some? {
        return found.value;
      }
      t := CreateFromElement(n);
      types := types + {t};
    }

    /** The loop over the set. */
    method FindEqual(n: Ast) returns (found: Option<Type>)
      ensures found == FirstCovering(order(types), TypeOf(n))
    {
      hide Covers, TypeOf;
      var ts := order(types);
      var i := 0;
      while i < |ts|
        invariant 0 <= i <= |ts| && FirstCovering(ts, TypeOf(n)) == FirstCovering(ts[i..], TypeOf(n))
      {
        assert ts[i..][0] == ts[i] && ts[i..][1..] == ts[i + 1..];
        var equal := TypeEqualsAstNode(ts[i], n);
        if equal {
          return Some(ts[i]);
        }
        i := i + 1;
      }
      return None;
    }
  }

  lemma OpOfCreated(order: Order, n: Ast, types: set<Type>)
    requires n.Operator? && Creatable(n)
    ensures Create(order, n, types).t.op == n.op
  {
    hide Contribution;
  }

  function TopOp(operators: seq<Type>): TypeOp
    requires operators != [] && operators[|operators| - 1].Operation?
  {
    operators[|operators| - 1].op
  }

  /** The stack with more operands in its innermost operation. */
  function Filled(operators: seq<Type>, more: seq<Type>): seq<Type>
    requires operators != [] && operators[|operators| - 1].Operation?
  {
    var k := |operators| - 1;
    operators[k := operators[k].(operands := operators[k].operands + more)]
  }

  lemma FilledTwice(operators: seq<Type>, a: seq<Type>, b: seq<Type>)
    requires operators != [] && operators[|operators| - 1].Operation?
    ensures Filled(Filled(operators, a), b) == Filled(operators, a + b)
  {
    var s := operators[|operators| - 1].operands;
    assert s + (a + b) == (s + a) + b;
  }
}
