/** The walk of src/ast/ast_type_traversal.c, with its stacks of types and indices,
    and its users: member access in type checking and in the RIR, and the comparison
    of a type with a description. */
module TypeWalk {
  import opened Wrappers
  import opened TypeOps
  import opened TypeSpec

  // ---------------------------------------------------------------- callbacks

  /** A callback updates its argument and says whether to go on. */
  type Callback<!C> = (C, Visit) -> (C, bool)

  /** The argument after a run of visits, up to the first that stops, and whether
      none did. */
  function Feed<C>(cb: Callback<C>, arg: C, visits: seq<Visit>): (C, bool) {
    if visits == [] then (arg, true)
    else
      var (arg', go) := cb(arg, visits[0]);
      if go then Feed(cb, arg', visits[1..]) else (arg', false)
  }

  lemma {:induction false} FeedConcat<C>(cb: Callback<C>, arg: C, a: seq<Visit>, b: seq<Visit>)
    ensures Feed(cb, arg, a + b) == if Feed(cb, arg, a).1 then Feed(cb, Feed(cb, arg, a).0, b) else Feed(cb, arg, a)
  {
    if a == [] {
      assert a + b == b;
    } else {
      FeedConcat(cb, cb(arg, a[0]).0, a[1..], b);
      assert (a + b)[1..] == a[1..] + b;
    }
  }

  lemma FeedNone<C>(cb: Callback<C>, arg: C)
    ensures Feed(cb, arg, []) == (arg, true)
  {
  }

  lemma FeedOne<C>(cb: Callback<C>, arg: C, v: Visit)
    ensures Feed(cb, arg, [v]) == cb(arg, v)
  {
    assert [v][1..] == [];
  }

  /** A callback that logs and never stops. */
  function Log(log: seq<Visit>, v: Visit): (seq<Visit>, bool) {
    (log + [v], true)
  }

  lemma {:induction false} FeedLog(log: seq<Visit>, visits: seq<Visit>)
    ensures Feed(Log, log, visits) == (log + visits, true)
    decreases visits
  {
    if visits == [] {
      assert log + visits == log;
    } else {
      FeedLog(log + [visits[0]], visits[1..]);
      assert log + [visits[0]] + visits[1..] == log + visits;
    }
  }

  // ---------------------------------------------------------------- the walk

  /** What is left of a type from an index on; index -1 is the type itself. */
  function RestFrom(t: Type, idx: int): seq<Type>
    requires idx >= -1
  {
    if idx == -1 then [t] else if t.Operation? && idx < |t.operands| then t.operands[idx..] else []
  }

  class Traversal<!C> {
    var currentOp: Option<TypeOp>
    var visitedTypes: seq<Type>
    var indices: seq<int>
    var lastName: Option<string>
    var userArg: C
    const callback: Callback<C>

    ghost predicate Valid()
      reads this
    {
      |visitedTypes| == |indices| && |indices| > 0 && forall k :: 0 <= k < |indices| ==> indices[k] >= -1
    }

    /** The operands still ahead in the operation at the top of the stacks. */
    ghost function Ahead(): seq<Type>
      requires Valid()
      reads this
    {
      RestFrom(visitedTypes[|visitedTypes| - 1], indices[|indices| - 1])
    }

    constructor (t: Type, callback: Callback<C>, arg: C)
      ensures Valid() && visitedTypes == [t] && indices == [-1] && currentOp == None && lastName == None
      ensures this.callback == callback && userArg == arg
    {
      visitedTypes, indices, currentOp, lastName := [t], [-1], None, None;
      this.callback := callback;
      userArg := arg;
    }

    method PushType(t: Type)
      requires Valid()
      modifies this`visitedTypes, this`indices
      ensures Valid() && visitedTypes == old(visitedTypes) + [t] && indices == old(indices) + [-1]
    {
      visitedTypes, indices := visitedTypes + [t], indices + [-1];
    }

    method CurrentType() returns (t: Option<Type>)
      requires Valid()
      ensures t == if Ahead() == [] then None else Some(Ahead()[0])
    {
      var top, idx := visitedTypes[|visitedTypes| - 1], indices[|indices| - 1];
      if idx == -1 {
        return Some(top);
      }
      if !top.Operation? {
        return None;
      }
      if idx >= |top.operands| {
        return None;
      }
      return Some(top.operands[idx]);
    }

    method IdxPlus1()
      requires Valid()
      modifies this`indices
      ensures Valid() && indices == old(indices)[|old(indices)| - 1 := old(indices)[|old(indices)| - 1] + 1]
    {
      var k := |indices| - 1;
      indices := indices[k := indices[k] + 1];
    }

    /** The stacks are as described, the top index at a place from which `ts` is ahead. */
    ghost predicate At(op: TypeOp, types: seq<Type>, below: seq<int>, ts: seq<Type>)
      reads this
    {
      && Valid() && currentOp == Some(op) && visitedTypes == types && indices[|indices| - 1] >= 0
      && indices[..|indices| - 1] == below && Ahead() == ts
    }

    /** At such a place, or one level further down in an operation that the next step
        up will leave. */
    ghost predicate Settled(op: TypeOp, types: seq<Type>, below: seq<int>, ts: seq<Type>)
      reads this
    {
      || At(op, types, below, ts)
      || (&& Valid() && currentOp.Some? && currentOp != Some(op) && |visitedTypes| == |types| + 1 && |types| > 0
          && visitedTypes[..|types|] == types && indices[..|types| - 1] == below && indices[|types| - 1] >= 0
          && RestFrom(types[|types| - 1], indices[|types| - 1] + 1) == ts)
    }

    method GoUp(op: TypeOp, ghost types: seq<Type>, ghost below: seq<int>, ghost ts: seq<Type>)
      requires Settled(op, types, below, ts)
      modifies this`visitedTypes, this`indices, this`currentOp
      ensures At(op, types, below, ts)
    {
      if Some(op) != currentOp {
        indices := indices[..|indices| - 1];
        visitedTypes := visitedTypes[..|visitedTypes| - 1];
        currentOp := Some(op);
        IdxPlus1();
      }
    }

    /** Before either side of an operator: false when the types have run out, and a
        level down when the operator changes. */
    method Pre(op: TypeOp) returns (ok: bool)
      requires Valid() && (currentOp.Some? ==> indices[|indices| - 1] >= 0)
      requires currentOp.None? ==> indices[|indices| - 1] == -1
      modifies this`visitedTypes, this`indices, this`currentOp
      ensures Valid()
      ensures old(currentOp).None? ==>
                ok == old(Ahead())[0].Operation? &&
                (ok ==> At(op, old(visitedTypes), old(indices)[..|old(indices)| - 1], OperandsOf(old(Ahead())[0])))
      ensures old(currentOp).Some? ==> ok == (old(Ahead()) != [])
      ensures old(currentOp) == Some(op) && ok ==> currentOp == old(currentOp) && visitedTypes == old(visitedTypes) && indices == old(indices)
      ensures old(currentOp).Some? && old(currentOp) != Some(op) && ok ==>
                At(op, old(visitedTypes) + [old(Ahead())[0]], old(indices), OperandsOf(old(Ahead())[0]))
    {
      var t := CurrentType();
      if t.None? {
        return false;
      }
      if currentOp.None? {
        currentOp := Some(op);
        if !t.value.Operation? {
          return false;
        }
        IdxPlus1();
      } else if Some(op) != currentOp {
        PushType(t.value);
        currentOp := Some(op);
        IdxPlus1();
      }
      return true;
    }

    method AtIdentifier(id: string) returns (ret: bool)
      requires Valid()
      modifies this`indices, this`userArg
      ensures Valid()
      ensures Ended(old(userArg), Walk(XIdentifier(id), old(currentOp), old(Ahead()), old(lastName)), ret)
      ensures ret && old(indices[|indices| - 1]) >= 0 ==>
                indices[|indices| - 1] >= 0 && indices[..|indices| - 1] == old(indices)[..|indices| - 1] &&
                |indices| == |old(indices)| && Ahead() == old(Ahead())[1..]
    {
      var t := CurrentType();
      if t.None? {
        FeedNone(callback, userArg);
        return false;
      }
      FeedOne(callback, userArg, Visit(lastName, id, t.value));
      var (arg, go) := callback(userArg, Visit(lastName, id, t.value));
      userArg := arg;
      if !go {
        return false;
      }
      IdxPlus1();
      return true;
    }

    /** The result and the callback's argument are those of the plan. */
    ghost predicate Ended(arg: C, plan: Plan, ret: bool)
      reads this`userArg
    {
      var f := Feed(callback, arg, plan.visits);
      userArg == f.0 && ret == (f.1 && plan.rest.Some?)
    }

    method ForeachArgDo(n: Ast) returns (ret: bool)
      requires Valid() && (currentOp.Some? ==> indices[|indices| - 1] >= 0)
      requires currentOp.None? ==> indices[|indices| - 1] == -1
      modifies this
      ensures Valid()
      ensures Ended(old(userArg), Walk(n, old(currentOp), old(Ahead()), old(lastName)), ret)
      ensures ret ==> lastName == LastName(n, old(lastName))
      ensures ret && old(currentOp).Some? ==>
                Settled(old(currentOp).value, old(visitedTypes), old(indices)[..|old(indices)| - 1],
                        Walk(n, old(currentOp), old(Ahead()), old(lastName)).rest.value)
      decreases n, 1
    {
      hide Feed;
      match n
      case Leaf(name, right) =>
        lastName := Some(name);
        ret := ForeachArgDo(right);
      case Operator(op, _, _) =>
        ret := AtOperator(n);
      case Description(desc) =>
        ret := ForeachArgDo(desc);
      case Declaration(desc) =>
        ret := ForeachArgDo(desc);
      case XIdentifier(id) =>
        ret := AtIdentifier(id);
    }

    method AtOperator(n: Ast) returns (ret: bool)
      requires n.Operator? && Valid() && (currentOp.Some? ==> indices[|indices| - 1] >= 0)
      requires currentOp.None? ==> indices[|indices| - 1] == -1
      modifies this
      ensures Valid()
      ensures Ended(old(userArg), Walk(n, old(currentOp), old(Ahead()), old(lastName)), ret)
      ensures ret ==> lastName == LastName(n, old(lastName))
      ensures ret && old(currentOp).Some? ==>
                Settled(old(currentOp).value, old(visitedTypes), old(indices)[..|old(indices)| - 1],
                        Walk(n, old(currentOp), old(Ahead()), old(lastName)).rest.value)
      decreases n, 0, 1
    {
      hide Feed, LastName, Walk, WalkSides, OperandsOf, At, Settled;
      ghost var op, ts, name, types, idx := currentOp, Ahead(), lastName, visitedTypes, indices;
      ret := Pre(n.op);
      if !ret {
        NoOperands(n, op, ts, name);
        FeedNone(callback, userArg);
        return;
      }
      OperatorWalk(n, op, ts, name);
      ghost var same := op == Some(n.op);
      ghost var below := if op.None? || same then idx[..|idx| - 1] else idx;
      ghost var ahead := if same then ts else OperandsOf(ts[0]);
      if same {
        AtHere(n.op, ts);
      }
      ret := Sides(n, visitedTypes, below, ahead);
      if ret && same {
        AtSettled(n.op, types, below, WalkSides(n, ts, name).rest.value);
      } else if ret && op.Some? {
        DeeperSettled(op.value, n.op, types, idx, ts, WalkSides(n, ahead, name).rest.value);
      }
    }

    lemma AtHere(op: TypeOp, ts: seq<Type>)
      requires Valid() && currentOp == Some(op) && indices[|indices| - 1] >= 0 && Ahead() == ts
      ensures At(op, visitedTypes, indices[..|indices| - 1], ts)
    {
    }

    lemma AtSettled(op: TypeOp, types: seq<Type>, below: seq<int>, ts: seq<Type>)
      requires At(op, types, below, ts)
      ensures Settled(op, types, below, ts)
    {
    }

    /** One level down, under another operator. */
    lemma DeeperSettled(op: TypeOp, inner: TypeOp, types: seq<Type>, idx: seq<int>, ts: seq<Type>, rest: seq<Type>)
      requires op != inner && |types| == |idx| > 0 && idx[|idx| - 1] >= 0
      requires ts == RestFrom(types[|types| - 1], idx[|idx| - 1]) && ts != []
      requires At(inner, types + [ts[0]], idx, rest)
      ensures Settled(op, types, idx[..|idx| - 1], ts[1..])
    {
      assert indices[..|types|] == idx;
      assert indices[|types| - 1] == idx[|idx| - 1];
      assert indices[..|types| - 1] == idx[..|idx| - 1];
    }

    /** Both sides of an operator, inside its operation. */
    method Sides(n: Ast, ghost types: seq<Type>, ghost below: seq<int>, ghost ts: seq<Type>) returns (ret: bool)
      requires n.Operator? && At(n.op, types, below, ts)
      modifies this
      ensures Valid() && Ended(old(userArg), WalkSides(n, ts, old(lastName)), ret)
      ensures ret ==> lastName == LastName(n, old(lastName))
      ensures ret ==> At(n.op, types, below, WalkSides(n, ts, old(lastName)).rest.value)
      decreases n, 0, 0
    {
      hide Feed, Walk, Settled;
      ghost var arg, name := userArg, lastName;
      ghost var a := Walk(n.left, Some(n.op), ts, name);
      ret := ForeachArgDo(n.left);
      if !ret {
        LeftFails(callback, arg, n, ts, name);
        return;
      }
      GoUp(n.op, types, below, a.rest.value);
      ghost var b := Walk(n.right, Some(n.op), a.rest.value, lastName);
      FeedConcat(callback, arg, a.visits, b.visits);
      ret := Pre(n.op);
      if !ret {
        WalkEmpty(n.right, Some(n.op), lastName);
        FeedNone(callback, userArg);
        return;
      }
      ret := ForeachArgDo(n.right);
      if ret {
        GoUp(n.op, types, below, b.rest.value);
      }
    }
  }

  lemma OperatorWalk(n: Ast, op: Option<TypeOp>, ts: seq<Type>, name: Option<string>)
    requires n.Operator? && ts != []
    ensures op == Some(n.op) ==> Walk(n, op, ts, name) == WalkSides(n, ts, name)
    ensures op != Some(n.op) ==>
              var inner := WalkSides(n, OperandsOf(ts[0]), name);
              Walk(n, op, ts, name) == Plan(inner.visits, if inner.rest.None? then None else Some(ts[1..]))
  {
  }

  lemma NoOperands(n: Ast, op: Option<TypeOp>, ts: seq<Type>, name: Option<string>)
    requires n.Operator? && (ts == [] || (op != Some(n.op) && !ts[0].Operation?))
    ensures Walk(n, op, ts, name) == Plan([], None)
  {
    WalkEmpty(n.left, Some(n.op), name);
  }

  lemma LeftFails<C>(cb: Callback<C>, arg: C, n: Ast, ts: seq<Type>, name: Option<string>)
    requires n.Operator?
    requires
      var a := Walk(n.left, Some(n.op), ts, name);
      !(Feed(cb, arg, a.visits).1 && a.rest.Some?)
    ensures
      var f, a := WalkSides(n, ts, name), Walk(n.left, Some(n.op), ts, name);
      Feed(cb, arg, f.visits).0 == Feed(cb, arg, a.visits).0 && !(Feed(cb, arg, f.visits).1 && f.rest.Some?)
  {
    hide Feed, Walk;
    var a := Walk(n.left, Some(n.op), ts, name);
    if a.rest.Some? {
      FeedConcat(cb, arg, a.visits, Walk(n.right, Some(n.op), a.rest.value, LastName(n.left, name)).visits);
    }
  }

  /** The callback meets the planned visits up to the first that stops it; true is
      returned when there is none and the types do not run out. */
  method ForeachLeafArg<C>(n: Ast, t: Type, cb: Callback<C>, arg: C) returns (ret: bool, arg': C)
    ensures
      var plan := Walk(n, None, [t], None);
      arg' == Feed(cb, arg, plan.visits).0 && ret == (Feed(cb, arg, plan.visits).1 && plan.rest.Some?)
  {
    hide Feed, Walk;
    var ctx := new Traversal<C>(t, cb, arg);
    ret := ctx.ForeachArgDo(n);
    arg' := ctx.userArg;
  }

  /** With a callback that always continues and the description's own type: true, each
      leaf once, from left to right, with its type. */
  method ForeachLeafOfOwnType(n: Ast) returns (ret: bool, log: seq<Visit>)
    ensures ret && log == Leaves(n, None)
  {
    ret, log := ForeachLeafArg(n, TypeOf(n), Log, []);
    OwnType(n, None);
    FeedLog([], Leaves(n, None));
  }
}
