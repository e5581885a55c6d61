/** What lexical scoping means along a path of syntax nodes: which table and which
    function each node of a module is processed under and linked to, read off the
    nodes around it (src/analyzer/analyzer_pass1.c). */
module ScopePaths {
  import opened Wrappers
  import opened Scope

  // ---------------------------------------------------------------- paths

  /** A node below `n`, by the places of its ancestors among their siblings. */
  predicate IsPath(n: Ast, p: seq<nat>) {
    p == [] || (p[0] < |n.children| && IsPath(n.children[p[0]], p[1..]))
  }

  function At(n: Ast, p: seq<nat>): Ast
    requires IsPath(n, p)
  {
    if p == [] then n else At(n.children[p[0]], p[1..])
  }

  lemma {:induction false} PrefixIsPath(n: Ast, p: seq<nat>, k: nat)
    requires IsPath(n, p) && k <= |p|
    ensures IsPath(n, p[..k])
    decreases |p|
  {
    if k > 0 {
      PrefixIsPath(n.children[p[0]], p[1..], k - 1);
      assert p[..k][1..] == p[1..][..k - 1];
    }
  }

  lemma {:induction false} ShapeAt(n: Ast, p: seq<nat>)
    requires Shape(n) && IsPath(n, p)
    ensures Shape(At(n, p))
    decreases |p|
  {
    if p != [] {
      ShapeAt(n.children[p[0]], p[1..]);
    }
  }

  /** The k-th node on the path. */
  function Step(n: Ast, p: seq<nat>, k: nat): Ast
    requires IsPath(n, p) && k <= |p|
  {
    if k == 0 then n else Step(n.children[p[0]], p[1..], k - 1)
  }

  lemma {:induction false} StepIsPrefix(n: Ast, p: seq<nat>, k: nat)
    requires IsPath(n, p) && k <= |p|
    ensures IsPath(n, p[..k]) && Step(n, p, k) == At(n, p[..k])
    ensures k < |p| ==> p[k] < |Step(n, p, k).children| && Step(n, p, k + 1) == Step(n, p, k).children[p[k]]
    decreases |p|
  {
    PrefixIsPath(n, p, k);
    if k > 0 {
      StepIsPrefix(n.children[p[0]], p[1..], k - 1);
      assert p[..k][1..] == p[1..][..k - 1];
    }
  }

  // ---------------------------------------------------------------- the table and function around a node

  ghost function EnvAt(n: Ast, env: Table, p: seq<nat>): Table
    requires Shape(n) && IsPath(n, p)
    decreases |p|
  {
    if p == [] then env else EnvAt(n.children[p[0]], ChildEnv(n, env, p[0]), p[1..])
  }

  ghost function FnAt(n: Ast, fn: Option<nat>, p: seq<nat>): Option<nat>
    requires Shape(n) && IsPath(n, p)
    decreases |p|
  {
    if p == [] then fn else FnAt(n.children[p[0]], ChildFn(n, fn, p[0]), p[1..])
  }

  predicate IsFunction(n: Ast) {
    n.kind == FnImpl || n.kind == FnDecl(true) || n.kind == FnDecl(false)
  }

  /** The declaration of a function implementation is its first child. */
  function DeclOf(n: Ast): nat
    requires n.kind == FnImpl ==> |n.children| == 2
  {
    if n.kind == FnImpl then n.children[0].id else n.id
  }

  predicate OpensScope(n: Ast) {
    n.kind != MatchExpr && n.kind != Other
  }

  predicate InTwoParts(n: Ast) {
    n.kind == FnImpl || n.kind == MatchCase
  }

  /** Function implementations and match cases use the table of their first child. */
  function TableOf(n: Ast): Table
    requires InTwoParts(n) ==> |n.children| == 2
  {
    if InTwoParts(n) then n.children[0].id else n.id
  }

  lemma TwoParts(n: Ast)
    requires Shape(n)
    ensures InTwoParts(n) ==> |n.children| == 2 && (n.children[0].kind == FnDecl(true) || n.children[0].kind == TypeDesc)
    ensures n.kind == FnImpl ==> n.children[0].kind == FnDecl(true)
  {
  }

  /** The node behind p is in the function of the last function node on the path. */
  lemma {:induction false} FunctionOfPath(n: Ast, fn: Option<nat>, p: seq<nat>, k: nat)
    requires Shape(n) && IsPath(n, p) && k <= |p|
    requires IsFunction(Step(n, p, k)) && forall j :: k < j <= |p| ==> !IsFunction(Step(n, p, j))
    ensures Shape(At(n, p)) && Shape(Step(n, p, k))
    ensures InnerFn(At(n, p), FnAt(n, fn, p)) == Some(DeclOf(Step(n, p, k)))
    decreases |p|
  {
    ShapeAt(n, p);
    if p != [] {
      var c := n.children[p[0]];
      if k > 0 {
        ShiftSteps(n, p);
        FunctionOfPath(c, ChildFn(n, fn, p[0]), p[1..], k - 1);
      } else {
        ShiftSteps(n, p);
        TwoParts(n);
        assert Step(n, p, 1) == c;
        NoFunctionOnPath(c, ChildFn(n, fn, p[0]), p[1..]);
      }
    }
  }

  lemma {:induction false} NoFunctionOnPath(n: Ast, fn: Option<nat>, p: seq<nat>)
    requires Shape(n) && IsPath(n, p) && forall j :: 0 <= j <= |p| ==> !IsFunction(Step(n, p, j))
    ensures Shape(At(n, p)) && InnerFn(At(n, p), FnAt(n, fn, p)) == fn
    decreases |p|
  {
    ShapeAt(n, p);
    assert !IsFunction(Step(n, p, 0));
    if p != [] {
      ShiftSteps(n, p);
      NoFunctionOnPath(n.children[p[0]], ChildFn(n, fn, p[0]), p[1..]);
    }
  }

  lemma ShiftSteps(n: Ast, p: seq<nat>)
    requires p != [] && IsPath(n, p)
    ensures forall j :: 0 < j <= |p| ==> Step(n, p, j) == Step(n.children[p[0]], p[1..], j - 1)
    ensures forall j :: 0 <= j < |p| ==> Step(n.children[p[0]], p[1..], j) == Step(n, p, j + 1)
  {
  }

  /** The node behind p is processed under the table of the last node on the path that
      opens a scope. */
  lemma {:induction false} TableOfPath(n: Ast, env: Table, p: seq<nat>, k: nat)
    requires Shape(n) && IsPath(n, p) && k <= |p|
    requires OpensScope(Step(n, p, k)) && forall j :: k < j <= |p| ==> !OpensScope(Step(n, p, j))
    ensures Shape(At(n, p)) && Shape(Step(n, p, k))
    ensures Inner(At(n, p), EnvAt(n, env, p)) == TableOf(Step(n, p, k))
    decreases |p|
  {
    ShapeAt(n, p);
    if p != [] {
      var c := n.children[p[0]];
      ShiftSteps(n, p);
      if k > 0 {
        TableOfPath(c, ChildEnv(n, env, p[0]), p[1..], k - 1);
      } else {
        TwoParts(n);
        assert Step(n, p, 1) == c;
        NoScopeOnPath(c, ChildEnv(n, env, p[0]), p[1..]);
      }
    }
  }

  lemma {:induction false} NoScopeOnPath(n: Ast, env: Table, p: seq<nat>)
    requires Shape(n) && IsPath(n, p) && forall j :: 0 <= j <= |p| ==> !OpensScope(Step(n, p, j))
    ensures Shape(At(n, p)) && Inner(At(n, p), EnvAt(n, env, p)) == env && EnvAt(n, env, p) == env
    decreases |p|
  {
    ShapeAt(n, p);
    assert !OpensScope(Step(n, p, 0));
    if p != [] {
      ShiftSteps(n, p);
      NoScopeOnPath(n.children[p[0]], ChildEnv(n, env, p[0]), p[1..]);
    }
  }

  /** The node on the path is a scope around what the path leads to; the first child of an
      implementation or a match case is outside the scope that these open. */
  predicate Encloses(n: Ast, p: seq<nat>, k: nat)
    requires IsPath(n, p) && k < |p|
  {
    OpensScope(Step(n, p, k)) && !(InTwoParts(Step(n, p, k)) && p[k] == 0)
  }

  lemma ShiftEncloses(n: Ast, p: seq<nat>)
    requires p != [] && IsPath(n, p)
    ensures forall j :: 0 < j < |p| ==> (Encloses(n, p, j) <==> Encloses(n.children[p[0]], p[1..], j - 1))
    ensures forall j :: 0 <= j < |p| - 1 ==> (Encloses(n.children[p[0]], p[1..], j) <==> Encloses(n, p, j + 1))
  {
    ShiftSteps(n, p);
  }

  /** The table around the node behind p is that of the last scope around it. */
  lemma {:induction false} EnvOfPath(n: Ast, env: Table, p: seq<nat>, k: nat)
    requires Shape(n) && IsPath(n, p) && k < |p|
    requires Encloses(n, p, k) && forall j :: k < j < |p| ==> !Encloses(n, p, j)
    ensures Shape(Step(n, p, k)) && EnvAt(n, env, p) == TableOf(Step(n, p, k))
    decreases |p|
  {
    var c := n.children[p[0]];
    ShiftEncloses(n, p);
    if k > 0 {
      EnvOfPath(c, ChildEnv(n, env, p[0]), p[1..], k - 1);
    } else {
      TwoParts(n);
      NothingEncloses(c, ChildEnv(n, env, p[0]), p[1..]);
    }
  }

  lemma {:induction false} NothingEncloses(n: Ast, env: Table, p: seq<nat>)
    requires Shape(n) && IsPath(n, p) && forall j :: 0 <= j < |p| ==> !Encloses(n, p, j)
    ensures EnvAt(n, env, p) == env
    decreases |p|
  {
    if p != [] {
      assert !Encloses(n, p, 0);
      ShiftEncloses(n, p);
      NothingEncloses(n.children[p[0]], ChildEnv(n, env, p[0]), p[1..]);
    }
  }

  // ---------------------------------------------------------------- stored links

  /** The links stored for a tree hold for each node in it. */
  lemma {:induction false} LinkedAt(n: Ast, env: Table, fn: Option<nat>, l: Links, p: seq<nat>)
    requires Shape(n) && Linked(n, env, fn, l) && IsPath(n, p)
    ensures Shape(At(n, p)) && Linked(At(n, p), EnvAt(n, env, p), FnAt(n, fn, p), l)
    decreases |p|
  {
    ShapeAt(n, p);
    if p != [] {
      LinkedAt(n.children[p[0]], ChildEnv(n, env, p[0]), ChildFn(n, fn, p[0]), l, p[1..]);
    }
  }

  /** The table of a node that opens a scope is linked to the table of the last scope around
      it and to the last function on the path. */
  lemma StoredLinks(n: Ast, root: Table, l: Links, p: seq<nat>, k: nat, f: nat)
    requires Shape(n) && Linked(n, root, None, l) && IsPath(n, p) && p != []
    requires OpensScope(At(n, p)) && !InTwoParts(At(n, p))
    requires k < |p| && Encloses(n, p, k) && forall j :: k < j < |p| ==> !Encloses(n, p, j)
    requires f <= |p| ==> IsFunction(Step(n, p, f))
    requires forall j :: 0 <= j <= |p| && (f <= |p| ==> f < j) ==> !IsFunction(Step(n, p, j))
    ensures Shape(Step(n, p, k)) && At(n, p).id in l.parent && l.parent[At(n, p).id] == TableOf(Step(n, p, k))
    ensures f <= |p| ==> Shape(Step(n, p, f))
    ensures l.Fn(At(n, p).id) == if f <= |p| then Some(DeclOf(Step(n, p, f))) else None
  {
    hide Linked;
    LinkedAt(n, root, None, l, p);
    NotRoot(n, p);
    LinkedOwner(At(n, p), EnvAt(n, root, p), FnAt(n, None, p), l);
    EnvOfPath(n, root, p, k);
    if f <= |p| {
      FunctionOfPath(n, None, p, f);
    } else {
      NoFunctionOnPath(n, None, p);
    }
  }

  lemma LinkedOwner(n: Ast, env: Table, fn: Option<nat>, l: Links)
    requires Shape(n) && Linked(n, env, fn, l) && OpensScope(n) && !InTwoParts(n) && n.kind != Root
    ensures n.id in l.parent && l.parent[n.id] == env && l.Fn(n.id) == InnerFn(n, fn)
  {
  }

  lemma {:induction false} NotRoot(n: Ast, p: seq<nat>)
    requires Shape(n) && IsPath(n, p) && p != []
    ensures At(n, p).kind != Root
    decreases |p|
  {
    if |p| > 1 {
      NotRoot(n.children[p[0]], p[1..]);
    }
  }

  // ---------------------------------------------------------------- what the passes see

  ghost function LeaveAt(n: Ast, env: Table, fn: Option<nat>, p: seq<nat>): Event
    requires Shape(n) && IsPath(n, p)
  {
    ShapeAt(n, p);
    Leave(At(n, p).id, Inner(At(n, p), EnvAt(n, env, p)), InnerFn(At(n, p), FnAt(n, fn, p)))
  }

  ghost function EnterAt(n: Ast, env: Table, fn: Option<nat>, pass: Pass, p: seq<nat>): Event
    requires Shape(n) && IsPath(n, p)
  {
    ShapeAt(n, p);
    EnterOf(At(n, p), EnvAt(n, env, p), FnAt(n, fn, p), pass)
  }

  ghost predicate IsEvent(n: Ast, env: Table, fn: Option<nat>, pass: Pass, p: seq<nat>, ev: Event)
    requires Shape(n)
  {
    IsPath(n, p) && (ev == LeaveAt(n, env, fn, p) || ev == EnterAt(n, env, fn, pass, p))
  }

  /** A pass enters and leaves the nodes of the tree: its events are those of the paths. */
  lemma {:induction false} EventsOfTrace(n: Ast, env: Table, fn: Option<nat>, pass: Pass, ev: Event)
    requires Shape(n) && ev in Trace(n, env, fn, pass)
    ensures exists p :: IsEvent(n, env, fn, pass, p, ev)
    decreases n, |n.children| + 1
  {
    hide Shape, LeaveAt, EnterOf;
    if ev == EnterOf(n, env, fn, pass) {
      assert IsEvent(n, env, fn, pass, [], ev);
    } else {
      assert ev in TraceFrom(n, env, fn, pass, 0);
      EventsFrom(n, env, fn, pass, 0, ev);
    }
  }

  lemma {:induction false} EventsFrom(n: Ast, env: Table, fn: Option<nat>, pass: Pass, i: nat, ev: Event)
    requires Shape(n) && i <= |n.children| && ev in TraceFrom(n, env, fn, pass, i)
    ensures exists p :: IsEvent(n, env, fn, pass, p, ev)
    decreases n, |n.children| - i
  {
    hide Trace, EnterAt;
    if i == |n.children| {
      assert IsEvent(n, env, fn, pass, [], ev);
    } else if ev in Trace(n.children[i], ChildEnv(n, env, i), ChildFn(n, fn, i), pass) {
      var c := n.children[i];
      EventsOfTrace(c, ChildEnv(n, env, i), ChildFn(n, fn, i), pass, ev);
      var q :| IsEvent(c, ChildEnv(n, env, i), ChildFn(n, fn, i), pass, q, ev);
      ChildEvents(n, env, fn, pass, i, q);
      assert IsEvent(n, env, fn, pass, [i] + q, ev);
    } else {
      EventsFrom(n, env, fn, pass, i + 1, ev);
    }
  }

  lemma ChildEvents(n: Ast, env: Table, fn: Option<nat>, pass: Pass, i: nat, q: seq<nat>)
    requires Shape(n) && i < |n.children| && IsPath(n.children[i], q)
    ensures IsPath(n, [i] + q) && At(n, [i] + q) == At(n.children[i], q)
    ensures LeaveAt(n, env, fn, [i] + q) == LeaveAt(n.children[i], ChildEnv(n, env, i), ChildFn(n, fn, i), q)
    ensures EnterAt(n, env, fn, pass, [i] + q) == EnterAt(n.children[i], ChildEnv(n, env, i), ChildFn(n, fn, i), pass, q)
  {
    assert ([i] + q)[1..] == q;
  }

  lemma {:induction false} PathIsSeen(n: Ast, env: Table, fn: Option<nat>, pass: Pass, p: seq<nat>)
    requires Shape(n) && IsPath(n, p)
    ensures LeaveAt(n, env, fn, p) in Trace(n, env, fn, pass) && EnterAt(n, env, fn, pass, p) in Trace(n, env, fn, pass)
    decreases |p|, 1
  {
    hide EnterOf;
    FromIsSeen(n, env, fn, pass, p, 0);
    assert forall ev :: ev in TraceFrom(n, env, fn, pass, 0) ==> ev in Trace(n, env, fn, pass);
  }

  lemma {:induction false} FromIsSeen(n: Ast, env: Table, fn: Option<nat>, pass: Pass, p: seq<nat>, i: nat)
    requires Shape(n) && IsPath(n, p) && i <= |n.children| && (p != [] ==> i <= p[0])
    ensures LeaveAt(n, env, fn, p) in TraceFrom(n, env, fn, pass, i)
    ensures p != [] ==> EnterAt(n, env, fn, pass, p) in TraceFrom(n, env, fn, pass, i)
    decreases |p|, 0, |n.children| - i
  {
    hide Trace, EnterAt;
    if i < |n.children| {
      if p != [] && p[0] == i {
        PathIsSeen(n.children[i], ChildEnv(n, env, i), ChildFn(n, fn, i), pass, p[1..]);
        ChildEvents(n, env, fn, pass, i, p[1..]);
        assert [i] + p[1..] == p;
      } else {
        FromIsSeen(n, env, fn, pass, p, i + 1);
      }
    }
  }

  lemma {:induction false} IdAt(n: Ast, p: seq<nat>)
    requires IsPath(n, p)
    ensures At(n, p).id in Ids(n)
    decreases |p|
  {
    if p != [] {
      IdAt(n.children[p[0]], p[1..]);
      ChildIds(n, p[0]);
    }
  }

  /** A node is found along one path only. */
  lemma {:induction false} OnePath(n: Ast, p: seq<nat>, q: seq<nat>)
    requires Distinct(n) && IsPath(n, p) && IsPath(n, q) && At(n, p).id == At(n, q).id
    ensures p == q
    decreases |p|
  {
    hide Ids;
    if p != [] {
      IdAt(n.children[p[0]], p[1..]);
    }
    if q != [] {
      IdAt(n.children[q[0]], q[1..]);
    }
    if p != [] && q != [] {
      assert Ids(n.children[p[0]]) !! Ids(n.children[q[0]]) || p[0] == q[0];
      OnePath(n.children[p[0]], p[1..], q[1..]);
    }
  }

  /** The table and the function of an event. */
  predicate Under(ev: Event, table: Table, fn: Option<nat>) {
    ev.table == table && ev.fn == fn
  }

  /** In both passes a node is left under the table of the last node on its path that opens
      a scope, and in the last function on the path; k and f are their places.  The second
      pass enters it under the same, and so does the first, but for nodes in two parts. */
  lemma SeenAt(n: Ast, root: Table, pass: Pass, p: seq<nat>, k: nat, f: nat, ev: Event)
    requires Shape(n) && Distinct(n) && IsPath(n, p)
    requires k <= |p| && OpensScope(Step(n, p, k)) && forall j :: k < j <= |p| ==> !OpensScope(Step(n, p, j))
    requires f <= |p| ==> IsFunction(Step(n, p, f))
    requires forall j :: 0 <= j <= |p| && (f <= |p| ==> f < j) ==> !IsFunction(Step(n, p, j))
    ensures Shape(Step(n, p, k)) && (f <= |p| ==> Shape(Step(n, p, f)))
    ensures ev.node == At(n, p).id && (ev.Leave? || pass == Typecheck || !InTwoParts(At(n, p))) ==>
              (ev in Trace(n, root, None, pass) <==>
               Under(ev, TableOf(Step(n, p, k)), if f <= |p| then Some(DeclOf(Step(n, p, f))) else None))
  {
    hide Trace, Distinct, OpensScope, IsFunction, TableOf, DeclOf;
    TableOfPath(n, root, p, k);
    if f <= |p| {
      FunctionOfPath(n, None, p, f);
    } else {
      NoFunctionOnPath(n, None, p);
    }
    PathIsSeen(n, root, None, pass, p);
    if ev.node == At(n, p).id && ev in Trace(n, root, None, pass) {
      EventsOfTrace(n, root, None, pass, ev);
      var q :| IsEvent(n, root, None, pass, q, ev);
      EventNode(n, root, None, pass, q);
      OnePath(n, p, q);
    }
    EventNode(n, root, None, pass, p);
  }

  /** Where a node is not in two parts, or in the second pass, it is entered as it is left. */
  lemma EventNode(n: Ast, env: Table, fn: Option<nat>, pass: Pass, p: seq<nat>)
    requires Shape(n) && IsPath(n, p)
    ensures LeaveAt(n, env, fn, p).Leave? && LeaveAt(n, env, fn, p).node == At(n, p).id
    ensures var e := EnterAt(n, env, fn, pass, p);
            e.Enter? && e.node == At(n, p).id &&
            (pass == Typecheck || !InTwoParts(At(n, p)) ==> Under(e, LeaveAt(n, env, fn, p).table, LeaveAt(n, env, fn, p).fn))
  {
  }
}
