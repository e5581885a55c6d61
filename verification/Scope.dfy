/** Symbol tables during analysis: src/analyzer/analyzer_pass1.c, the table swap of
    include/analyzer/symbol_table.h, and the traversals of src/ast/ast_utils.c.

    The first pass creates and links tables while it moves a "current" pointer; the
    typecheck pass walks the tree again, jumping to the stored tables.  Both are
    proved against lexical scoping: a recursive description of which table and
    which function declaration belong to each node, with no pointer in it. */
module Scope {
  import opened Wrappers

  datatype Kind =
    | Root
    | Module
    | Block
    | ForExpr
    | FnDecl(partOfImpl: bool)
    | FnImpl
    | MatchCase
    | TypeDesc
    | MatchExpr
    | Other

  /** Nodes are told apart by `id`, as the program tells them apart by address. */
  datatype Ast = Ast(id: nat, kind: Kind, children: seq<Ast>)

  /** A table lives inside the node that owns it and is named by that node's id. */
  type Table = nat

  // ---------------------------------------------------------------- trees

  ghost function Ids(n: Ast): set<nat> {
    {n.id} + set c, x | c in n.children && x in Ids(c) :: x
  }

  /** No node occurs twice. */
  ghost predicate Distinct(n: Ast) {
    && (forall i :: 0 <= i < |n.children| ==> n.id !in Ids(n.children[i]) && Distinct(n.children[i]))
    && (forall i, j :: 0 <= i < j < |n.children| ==> Ids(n.children[i]) !! Ids(n.children[j]))
  }

  /** A function implementation is a declaration and a body, a match case is a
      pattern and an expression; such declarations and patterns occur nowhere else. */
  predicate Special(n: Ast) {
    n.kind == FnImpl || n.kind == MatchCase
  }

  ghost predicate Shape(n: Ast) {
    && (Special(n) ==> |n.children| == 2)
    && (n.kind == FnImpl ==> n.children[0].kind == FnDecl(true))
    && (n.kind == MatchCase ==> n.children[0].kind == TypeDesc && n.children[1].kind != TypeDesc)
    && (forall i :: 0 <= i < |n.children| ==>
          && Shape(n.children[i]) && n.children[i].kind != Root
          && (n.children[i].kind == FnDecl(true) ==> n.kind == FnImpl && i == 0))
  }

  /** Nodes that own a table. */
  predicate Owns(n: Ast) {
    n.kind.Root? || n.kind.Module? || n.kind.Block? || n.kind.ForExpr? || n.kind.FnDecl? || n.kind.TypeDesc?
  }

  // ---------------------------------------------------------------- lexical scoping

  /** The table a node is processed under, `env` being the one around it. */
  function Inner(n: Ast, env: Table): Table
    requires Special(n) ==> |n.children| > 0
  {
    if Special(n) then n.children[0].id else if Owns(n) then n.id else env
  }

  /** The innermost function declaration there, `fn` being the one around the node. */
  function InnerFn(n: Ast, fn: Option<nat>): Option<nat>
    requires Special(n) ==> |n.children| > 0
  {
    if n.kind == FnImpl then Some(n.children[0].id) else if n.kind.FnDecl? then Some(n.id) else fn
  }

  /** The table around the i-th child: the first child of a function implementation
      or match case is outside the scope that it opens for the second. */
  function ChildEnv(n: Ast, env: Table, i: nat): Table
    requires Special(n) ==> |n.children| > 0
  {
    if Special(n) && i == 0 then env else Inner(n, env)
  }

  function ChildFn(n: Ast, fn: Option<nat>, i: nat): Option<nat>
    requires Special(n) ==> |n.children| > 0
  {
    if Special(n) && i == 0 then fn else InnerFn(n, fn)
  }

  datatype Pass = First | Typecheck

  datatype Event =
    | Enter(node: nat, table: Table, fn: Option<nat>)
    | Leave(node: nat, table: Table, fn: Option<nat>)

  /** What the callbacks see, in order: `Enter` after a node's pre-callback, `Leave`
      at its post-callback.  The passes differ only on entry to the two special nodes. */
  ghost function Trace(n: Ast, env: Table, fn: Option<nat>, pass: Pass): seq<Event>
    requires Shape(n)
    decreases n, |n.children| + 1
  {
    [EnterOf(n, env, fn, pass)] + TraceFrom(n, env, fn, pass, 0)
  }

  ghost function EnterOf(n: Ast, env: Table, fn: Option<nat>, pass: Pass): Event
    requires Shape(n)
  {
    if pass == First && Special(n) then Enter(n.id, env, fn) else Enter(n.id, Inner(n, env), InnerFn(n, fn))
  }

  /** The children from the i-th on, and leaving the node. */
  ghost function TraceFrom(n: Ast, env: Table, fn: Option<nat>, pass: Pass, i: nat): seq<Event>
    requires Shape(n) && i <= |n.children|
    decreases n, |n.children| - i
  {
    if i == |n.children| then [Leave(n.id, Inner(n, env), InnerFn(n, fn))]
    else Trace(n.children[i], ChildEnv(n, env, i), ChildFn(n, fn, i), pass) + TraceFrom(n, env, fn, pass, i + 1)
  }

  // ---------------------------------------------------------------- stored links

  /** `parent`, `fndecl` and the table pointers of special nodes, as stored. */
  datatype Links = Links(parent: map<nat, Table>, fndecl: map<nat, Option<nat>>, st: map<nat, Table>) {
    function Fn(t: Table): Option<nat> {
      if t in fndecl then fndecl[t] else None
    }
  }

  /** The links stored for the subtree are those of lexical scoping. */
  ghost predicate Linked(n: Ast, env: Table, fn: Option<nat>, l: Links)
    requires Shape(n)
  {
    && (Owns(n) && !n.kind.Root? ==> n.id in l.parent && l.parent[n.id] == env && l.Fn(n.id) == InnerFn(n, fn))
    && (n.kind.Root? ==> l.Fn(n.id) == fn)
    && (Special(n) ==> n.id in l.st && l.st[n.id] == n.children[0].id)
    && (forall i :: 0 <= i < |n.children| ==> Linked(n.children[i], ChildEnv(n, env, i), ChildFn(n, fn, i), l))
  }

  /** `k` stores the same as `l` for every node outside `ids`. */
  ghost predicate SameOutside(l: Links, k: Links, ids: set<nat>) {
    forall x :: x !in ids ==>
      && (x in l.parent <==> x in k.parent) && (x in l.parent ==> l.parent[x] == k.parent[x])
      && (x in l.fndecl <==> x in k.fndecl) && (x in l.fndecl ==> l.fndecl[x] == k.fndecl[x])
      && (x in l.st <==> x in k.st) && (x in l.st ==> l.st[x] == k.st[x])
  }

  lemma {:induction false} LinkedFrame(n: Ast, env: Table, fn: Option<nat>, l: Links, k: Links, ids: set<nat>)
    requires Shape(n) && Linked(n, env, fn, l) && SameOutside(l, k, ids) && Ids(n) !! ids
    ensures Linked(n, env, fn, k)
    decreases n
  {
    assert n.id in Ids(n);
    forall i | 0 <= i < |n.children|
      ensures Linked(n.children[i], ChildEnv(n, env, i), ChildFn(n, fn, i), k)
    {
      ChildIds(n, i);
      LinkedFrame(n.children[i], ChildEnv(n, env, i), ChildFn(n, fn, i), l, k, ids);
    }
  }

  lemma ChildIds(n: Ast, i: nat)
    requires i < |n.children|
    ensures Ids(n.children[i]) <= Ids(n) && n.id in Ids(n) && n.children[i].id in Ids(n)
  {
    assert n.children[i] in n.children;
  }

  /** The table that stays current after a node: a declaration inside an
      implementation and a match-case pattern leave theirs. */
  function After(n: Ast, parent: Option<Ast>, env: Table): Table {
    if n.kind == FnDecl(true) || (n.kind == TypeDesc && parent.Some? && parent.value.kind == MatchCase) then n.id else env
  }

  lemma SameOutsideTrans(a: Links, b: Links, c: Links, s: set<nat>, t: set<nat>, u: set<nat>)
    requires SameOutside(a, b, s) && SameOutside(b, c, t) && s <= u && t <= u
    ensures SameOutside(a, c, u)
  {
  }

  // ---------------------------------------------------------------- the walk over the children

  /** The first pass has walked the first `i` children. */
  ghost predicate Halfway(n: Ast, env: Table, fn: Option<nat>, l: Links, i: nat)
    requires Shape(n) && i <= |n.children|
  {
    && (Owns(n) && !n.kind.Root? ==> n.id in l.parent && l.parent[n.id] == env)
    && (Owns(n) ==> l.Fn(n.id) == InnerFn(n, fn))
    && (Special(n) ==> n.id in l.st && l.st[n.id] == n.children[0].id)
    && (!Owns(n) ==> l.Fn(env) == fn)
    && (forall j :: 0 <= j < i ==> Linked(n.children[j], ChildEnv(n, env, j), ChildFn(n, fn, j), l))
  }

  /** A walk over child i keeps what is known of the node and the children before. */
  lemma HalfwayStep(n: Ast, env: Table, fn: Option<nat>, l: Links, k: Links, i: nat)
    requires Shape(n) && Distinct(n) && i < |n.children|
    requires Around(n, env, fn)
    requires Halfway(n, env, fn, l, i)
    requires SameOutside(l, k, Ids(n.children[i]))
    requires Linked(n.children[i], ChildEnv(n, env, i), ChildFn(n, fn, i), k)
    ensures Halfway(n, env, fn, k, i + 1)
  {
    hide Linked, SameOutside, Ids;
    ChildIds(n, i);
    forall j | 0 <= j < i
      ensures Linked(n.children[j], ChildEnv(n, env, j), ChildFn(n, fn, j), k)
    {
      assert Ids(n.children[j]) !! Ids(n.children[i]);
      ChildShape(n, j);
      LinkedFrame(n.children[j], ChildEnv(n, env, j), ChildFn(n, fn, j), l, k, Ids(n.children[i]));
    }
    SameAt(l, k, Ids(n.children[i]), n.id);
    if n.id != env {
      SameAt(l, k, Ids(n.children[i]), env);
    }
  }

  lemma ChildShape(n: Ast, i: nat)
    requires Shape(n) && i < |n.children|
    ensures Shape(n.children[i])
  {
  }

  lemma SpecialShape(n: Ast)
    requires Shape(n)
    ensures Special(n) ==> |n.children| == 2
  {
  }

  lemma SameSelf(l: Links, ids: set<nat>)
    ensures SameOutside(l, l, ids)
  {
  }

  lemma SetParentSame(l: Links, id: nat, env: Table, fn: Option<nat>)
    ensures var k := l.(parent := l.parent[id := env], fndecl := l.fndecl[id := fn]);
            SameOutside(l, k, {id}) && SameOutside(l, k.(fndecl := k.fndecl[id := Some(id)]), {id})
  {
  }

  lemma SetTableSame(l: Links, n: Ast)
    requires Special(n) ==> |n.children| == 2
    ensures Special(n) ==> SameOutside(l, l.(st := l.st[n.id := n.children[0].id]), {n.id})
  {
  }

  lemma SameAt(l: Links, k: Links, ids: set<nat>, x: nat)
    requires SameOutside(l, k, ids) && x !in ids
    ensures l.Fn(x) == k.Fn(x)
    ensures x in l.parent ==> x in k.parent && k.parent[x] == l.parent[x]
    ensures x in l.st ==> x in k.st && k.st[x] == l.st[x]
  {
  }

  /** The table around child i is not in its subtree, and its function is stored. */
  lemma ChildStart(n: Ast, env: Table, fn: Option<nat>, l: Links, i: nat)
    requires Shape(n) && Distinct(n) && i < |n.children|
    requires Around(n, env, fn)
    requires Halfway(n, env, fn, l, i) && (Special(n) && i == 0 ==> l.Fn(env) == fn)
    ensures Shape(n.children[i]) && Distinct(n.children[i])
    ensures Around(n.children[i], ChildEnv(n, env, i), ChildFn(n, fn, i))
    ensures l.Fn(ChildEnv(n, env, i)) == ChildFn(n, fn, i)
  {
    ChildIds(n, i);
    if Special(n) && i == 1 {
      assert n.children[0].id in Ids(n.children[0]);
      assert Linked(n.children[0], env, fn, l);
    }
  }

  /** After child i the table current for child i + 1 is current. */
  lemma AfterChild(n: Ast, env: Table, i: nat, p: Ast)
    requires Shape(n) && i < |n.children| && p.kind == n.kind
    ensures After(n.children[i], Some(p), ChildEnv(n, env, i)) ==
              if i + 1 < |n.children| then ChildEnv(n, env, i + 1) else Inner(n, env)
  {
  }

  lemma HalfwayDone(n: Ast, env: Table, fn: Option<nat>, l: Links)
    requires Shape(n) && Halfway(n, env, fn, l, |n.children|)
    ensures Linked(n, env, fn, l) && l.Fn(Inner(n, env)) == InnerFn(n, fn)
  {
    if Special(n) {
      assert Linked(n.children[0], env, fn, l);
    }
  }

  lemma SpecialLinks(n: Ast, env: Table, fn: Option<nat>, l: Links)
    requires Shape(n) && Special(n) && Linked(n, env, fn, l)
    ensures n.id in l.st && l.st[n.id] == n.children[0].id
    ensures n.children[0].id in l.parent && l.parent[n.children[0].id] == env
  {
    assert Linked(n.children[0], env, fn, l);
  }

  /** The table and function around a subtree. */
  ghost predicate Around(n: Ast, env: Table, fn: Option<nat>) {
    if n.kind.Root? then env == n.id && fn == None else env !in Ids(n)
  }

  function Top(s: seq<Ast>): Option<Ast> {
    if s == [] then None else Some(s[|s| - 1])
  }

  lemma OwnIds(n: Ast)
    ensures n.id in Ids(n)
  {
  }

  lemma SameOutsideGrows(a: Links, b: Links, s: set<nat>, t: set<nat>)
    requires SameOutside(a, b, s) && s <= t
    ensures SameOutside(a, b, t)
  {
  }

  lemma TraceBegins(n: Ast, env: Table, fn: Option<nat>, pass: Pass, before: seq<Event>, seen: seq<Event>)
    requires Shape(n) && seen == before + [EnterOf(n, env, fn, pass)]
    ensures seen + TraceFrom(n, env, fn, pass, 0) == before + Trace(n, env, fn, pass)
  {
    hide TraceFrom, EnterOf;
  }

  lemma TraceStep(n: Ast, env: Table, fn: Option<nat>, pass: Pass, i: nat, before: seq<Event>, was: seq<Event>, seen: seq<Event>)
    requires Shape(n) && i < |n.children|
    requires was + TraceFrom(n, env, fn, pass, i) == before + Trace(n, env, fn, pass)
    requires seen == was + Trace(n.children[i], ChildEnv(n, env, i), ChildFn(n, fn, i), pass)
    ensures seen + TraceFrom(n, env, fn, pass, i + 1) == before + Trace(n, env, fn, pass)
  {
    hide Trace, Shape;
  }

  lemma TraceEnds(n: Ast, env: Table, fn: Option<nat>, pass: Pass, before: seq<Event>, seen: seq<Event>)
    requires Shape(n) && |seen| > 0
    requires seen[..|seen| - 1] + TraceFrom(n, env, fn, pass, |n.children|) == before + Trace(n, env, fn, pass)
    requires seen[|seen| - 1] == Leave(n.id, Inner(n, env), InnerFn(n, fn))
    ensures seen == before + Trace(n, env, fn, pass)
  {
    hide Trace, Shape;
  }

  // ---------------------------------------------------------------- the second walk

  ghost predicate AllOk(n: Ast, post: nat -> Result) {
    forall x :: x in Ids(n) ==> post(x) == Ok
  }

  /** The first `i` children are fine. */
  ghost predicate OkSoFar(n: Ast, post: nat -> Result, i: nat)
    requires i <= |n.children|
  {
    forall j :: 0 <= j < i ==> AllOk(n.children[j], post)
  }

  lemma AllOkParts(n: Ast, post: nat -> Result)
    ensures AllOk(n, post) <==> OkSoFar(n, post, |n.children|) && post(n.id) == Ok
  {
    forall i | 0 <= i < |n.children| ensures Ids(n.children[i]) <= Ids(n) {
      ChildIds(n, i);
    }
  }

  /** No post-callback in the tree is fatal. */
  ghost predicate NoneFatal(n: Ast, post: nat -> Result) {
    forall x :: x in Ids(n) ==> post(x) != Fatal
  }

  ghost predicate NoneFatalSoFar(n: Ast, post: nat -> Result, i: nat)
    requires i <= |n.children|
  {
    forall j :: 0 <= j < i ==> NoneFatal(n.children[j], post)
  }

  lemma NoneFatalParts(n: Ast, post: nat -> Result)
    ensures NoneFatal(n, post) <==> NoneFatalSoFar(n, post, |n.children|) && post(n.id) != Fatal
  {
    forall i | 0 <= i < |n.children| ensures Ids(n.children[i]) <= Ids(n) {
      ChildIds(n, i);
    }
  }

  /** The last thing seen was a node whose post-callback is fatal. */
  ghost predicate StoppedAtFatal(seen: seq<Event>, post: nat -> Result) {
    seen != [] && seen[|seen| - 1].Leave? && post(seen[|seen| - 1].node) == Fatal
  }

  /** No node of the tree fails. */
  ghost predicate Clean(n: Ast, fails: set<nat>) {
    fails !! Ids(n)
  }

  ghost predicate CleanSoFar(n: Ast, fails: set<nat>, i: nat)
    requires i <= |n.children|
  {
    forall j :: 0 <= j < i ==> Clean(n.children[j], fails)
  }

  lemma CleanParts(n: Ast, fails: set<nat>)
    ensures Clean(n, fails) <==> n.id !in fails && CleanSoFar(n, fails, |n.children|)
  {
    forall i | 0 <= i < |n.children| ensures Ids(n.children[i]) <= Ids(n) {
      ChildIds(n, i);
    }
  }

  /** What child i may rely on in the second walk. */
  lemma ChildLinked(n: Ast, env: Table, fn: Option<nat>, l: Links, i: nat)
    requires Shape(n) && Linked(n, env, fn, l) && i < |n.children|
    ensures Shape(n.children[i]) && Linked(n.children[i], ChildEnv(n, env, i), ChildFn(n, fn, i), l)
    ensures !n.children[i].kind.Root?
    ensures Special(n) && i == 0 ==> Owns(n.children[i])
    ensures Ids(n.children[i]) <= Ids(n)
  {
    ChildIds(n, i);
  }

  lemma InnerLinked(n: Ast, env: Table, fn: Option<nat>, l: Links)
    requires Shape(n) && Linked(n, env, fn, l) && l.Fn(env) == fn
    requires n.kind.Root? ==> env == n.id
    ensures l.Fn(Inner(n, env)) == InnerFn(n, fn)
  {
    if Special(n) {
      assert Linked(n.children[0], env, fn, l);
    }
  }

  lemma ChildFnLinked(n: Ast, env: Table, fn: Option<nat>, l: Links, i: nat)
    requires Shape(n) && Linked(n, env, fn, l) && l.Fn(env) == fn && i < |n.children|
    requires n.kind.Root? ==> env == n.id
    ensures l.Fn(ChildEnv(n, env, i)) == ChildFn(n, fn, i)
  {
    InnerLinked(n, env, fn, l);
  }

  lemma SpecialStored(n: Ast, env: Table, fn: Option<nat>, l: Links)
    requires Shape(n) && Linked(n, env, fn, l)
    ensures Special(n) ==> |n.children| == 2 && n.id in l.st && l.st[n.id] == n.children[0].id
  {
  }

  /** A stretch of events that stops early. */
  lemma PrefixOfTrace(n: Ast, env: Table, fn: Option<nat>, i: nat, before: seq<Event>, was: seq<Event>, seen: seq<Event>)
    requires Shape(n) && i < |n.children|
    requires was + TraceFrom(n, env, fn, Typecheck, i) == before + Trace(n, env, fn, Typecheck)
    requires seen <= was + Trace(n.children[i], ChildEnv(n, env, i), ChildFn(n, fn, i), Typecheck)
    ensures seen <= before + Trace(n, env, fn, Typecheck)
  {
    hide Trace;
    var t := Trace(n.children[i], ChildEnv(n, env, i), ChildFn(n, fn, i), Typecheck);
    var r := TraceFrom(n, env, fn, Typecheck, i + 1);
    assert was + (t + r) == (was + t) + r;
  }

  // ---------------------------------------------------------------- the passes

  datatype Result = Ok | Error | Fatal

  class Analyzer {
    var currentSt: Option<Table>
    var parentNodes: seq<Ast>
    var links: Links
    /** What the callbacks have seen. */
    ghost var seen: seq<Event>

    constructor ()
      ensures currentSt == None && parentNodes == [] && links == Links(map[], map[], map[]) && seen == []
    {
      currentSt, parentNodes, links, seen := None, [], Links(map[], map[], map[]), [];
    }

    /** `symbol_table_swap_current`. */
    method SwapCurrent(st: Table)
      requires currentSt.Some? && currentSt.value != st
      modifies this`currentSt, this`links
      ensures currentSt == Some(st)
      ensures links == old(links).(parent := old(links).parent[st := old(currentSt).value],
                                  fndecl := old(links).fndecl[st := old(links).Fn(old(currentSt).value)])
    {
      links := links.(parent := links.parent[st := currentSt.value],
                      fndecl := links.fndecl[st := links.Fn(currentSt.value)]);
      currentSt := Some(st);
    }

    /** `analyzer_traversal_ctx_get_nth_parent(0)`. */
    function DirectParent(): Option<Ast>
      reads this
    {
      if |parentNodes| < 2 then None else Some(parentNodes[|parentNodes| - 2])
    }

    /** `analyzer_first_pass_do`; `fails` are the nodes whose table or records can
        not be set up. */
    method FirstPassDo(n: Ast, fails: set<nat>, ghost env: Table, ghost fn: Option<nat>) returns (ok: bool)
      requires Shape(n) && currentSt == Some(env) && links.Fn(env) == fn
      requires Around(n, env, fn)
      modifies this
      ensures parentNodes == old(parentNodes) + [n]
      ensures ok <==> n.id !in fails
      ensures ok ==>
                && Halfway(n, env, fn, links, 0)
                && SameOutside(old(links), links, {n.id})
                && (Special(n) ==> links.Fn(env) == fn)
                && currentSt == Some(ChildEnv(n, env, 0))
                && seen == old(seen) + [EnterOf(n, env, fn, First)]
    {
      hide Linked, Ids, Shape, SameOutside;
      OwnIds(n);
      SpecialShape(n);
      SameSelf(links, {n.id});
      SetParentSame(links, n.id, env, fn);
      SetTableSame(links, n);
      parentNodes := parentNodes + [n];
      if n.id in fails {
        return false;
      }
      match n.kind {
        case Block => SwapCurrent(n.id);
        case Module => SwapCurrent(n.id);
        case ForExpr => SwapCurrent(n.id);
        case FnDecl(_) =>
          SwapCurrent(n.id);
          links := links.(fndecl := links.fndecl[n.id := Some(n.id)]);
        case FnImpl => links := links.(st := links.st[n.id := n.children[0].id]);
        case MatchCase => links := links.(st := links.st[n.id := n.children[0].id]);
        case TypeDesc => SwapCurrent(n.id);
        case _ =>
      }
      seen := seen + [Enter(n.id, currentSt.value, links.Fn(currentSt.value))];
      return true;
    }

    /** `analyzer_handle_symbol_table_ascending`. */
    method Ascend(n: Ast, ghost env: Table, ghost fn: Option<nat>)
      requires Shape(n) && currentSt == Some(Inner(n, env)) && Linked(n, env, fn, links)
      requires n.kind.Root? ==> env == n.id
      requires |parentNodes| > 0 && parentNodes[|parentNodes| - 1] == n
      modifies this`currentSt, this`parentNodes
      ensures parentNodes == old(parentNodes)[..|old(parentNodes)| - 1]
      ensures currentSt == Some(After(n, old(DirectParent()), env))
    {
      match n.kind {
        case Block => currentSt := Some(links.parent[n.id]);
        case FnImpl =>
          SpecialLinks(n, env, fn, links);
          currentSt := Some(links.parent[links.st[n.id]]);
        case MatchCase =>
          SpecialLinks(n, env, fn, links);
          currentSt := Some(links.parent[links.st[n.id]]);
        case FnDecl(partOfImpl) =>
          if !partOfImpl {
            currentSt := Some(links.parent[n.id]);
          }
        case Module => currentSt := Some(links.parent[n.id]);
        case TypeDesc =>
          var parent := DirectParent();
          if parent == None || parent.value.kind != MatchCase {
            currentSt := Some(links.parent[n.id]);
          }
        case ForExpr => currentSt := Some(links.parent[n.id]);
        case _ =>
      }
      parentNodes := parentNodes[..|parentNodes| - 1];
    }

    /** `ast_traverse_tree` with the callbacks of the first pass. */
    method FirstPass(n: Ast, fails: set<nat>, ghost env: Table, ghost fn: Option<nat>) returns (ok: bool)
      requires Shape(n) && Distinct(n) && currentSt == Some(env) && links.Fn(env) == fn
      requires Around(n, env, fn)
      modifies this
      ensures ok <==> Clean(n, fails)
      ensures ok ==>
                && Linked(n, env, fn, links)
                && SameOutside(old(links), links, Ids(n))
                && parentNodes == old(parentNodes)
                && currentSt == Some(After(n, Top(parentNodes), env))
                && seen == old(seen) + Trace(n, env, fn, First)
      decreases n, 1
    {
      hide Halfway, Linked, Ids, Trace, TraceFrom, SameOutside, EnterOf, Distinct, After, Clean, CleanSoFar;
      ghost var was, before := links, seen;
      CleanParts(n, fails);
      ok := FirstPassDo(n, fails, env, fn);
      if !ok {
        return false;
      }
      OwnIds(n);
      SameOutsideGrows(was, links, {n.id}, Ids(n));
      ok := FirstPassChildren(n, fails, env, fn, was, before);
      if !ok {
        return false;
      }
      HalfwayDone(n, env, fn, links);
      seen := seen + [Leave(n.id, currentSt.value, links.Fn(currentSt.value))];
      TraceEnds(n, env, fn, First, before, seen);
      Ascend(n, env, fn);
    }

    /** The loop over the children in `ast_traverse_tree`. */
    method FirstPassChildren(n: Ast, fails: set<nat>, ghost env: Table, ghost fn: Option<nat>, ghost was: Links, ghost before: seq<Event>)
        returns (ok: bool)
      requires Shape(n) && Distinct(n) && Around(n, env, fn) && Top(parentNodes) == Some(n)
      requires Halfway(n, env, fn, links, 0) && SameOutside(was, links, Ids(n))
      requires Special(n) ==> links.Fn(env) == fn
      requires currentSt == Some(ChildEnv(n, env, 0)) && seen == before + [EnterOf(n, env, fn, First)]
      modifies this
      ensures ok <==> CleanSoFar(n, fails, |n.children|)
      ensures ok ==>
                && Halfway(n, env, fn, links, |n.children|) && SameOutside(was, links, Ids(n))
                && parentNodes == old(parentNodes) && currentSt == Some(Inner(n, env))
                && seen + TraceFrom(n, env, fn, First, |n.children|) == before + Trace(n, env, fn, First)
      decreases n, 0
    {
      hide Halfway, Linked, Ids, Trace, TraceFrom, SameOutside, EnterOf, Distinct, After, Clean;
      TraceBegins(n, env, fn, First, before, seen);
      var i := 0;
      while i < |n.children|
        invariant 0 <= i <= |n.children| && CleanSoFar(n, fails, i)
        invariant Halfway(n, env, fn, links, i) && SameOutside(was, links, Ids(n))
        invariant Special(n) && i == 0 ==> links.Fn(env) == fn
        invariant parentNodes == old(parentNodes)
        invariant currentSt == Some(if i < |n.children| then ChildEnv(n, env, i) else Inner(n, env))
        invariant seen + TraceFrom(n, env, fn, First, i) == before + Trace(n, env, fn, First)
      {
        ghost var l, s := links, seen;
        ChildStart(n, env, fn, links, i);
        AfterChild(n, env, i, n);
        ok := FirstPass(n.children[i], fails, ChildEnv(n, env, i), ChildFn(n, fn, i));
        if !ok {
          return false;
        }
        HalfwayStep(n, env, fn, l, links, i);
        ChildIds(n, i);
        SameOutsideTrans(was, l, links, Ids(n), Ids(n.children[i]), Ids(n));
        TraceStep(n, env, fn, First, i, before, s, seen);
        i := i + 1;
      }
      return true;
    }

    /** `analyzer_handle_traversal_descending`; `fails` are the match and for
        expressions whose own set-up fails. */
    method Descend(n: Ast, fails: set<nat>, ghost env: Table, ghost fn: Option<nat>) returns (ok: bool)
      requires Shape(n) && Linked(n, env, fn, links) && (currentSt == Some(env) || Owns(n)) && links.Fn(env) == fn
      requires n.kind.Root? ==> env == n.id
      modifies this`currentSt, this`parentNodes, this`seen
      ensures parentNodes == old(parentNodes) + [n]
      ensures n.id !in fails ==> ok
      ensures ok ==> currentSt == Some(Inner(n, env)) && seen == old(seen) + [EnterOf(n, env, fn, Typecheck)]
    {
      hide Linked, Shape;
      InnerLinked(n, env, fn, links);
      SpecialStored(n, env, fn, links);
      parentNodes := parentNodes + [n];
      match n.kind {
        case Root => currentSt := Some(n.id);
        case Block => currentSt := Some(n.id);
        case FnImpl => currentSt := Some(links.st[n.id]);
        case MatchCase => currentSt := Some(links.st[n.id]);
        case FnDecl(_) => currentSt := Some(n.id);
        case Module => currentSt := Some(n.id);
        case TypeDesc => currentSt := Some(n.id);
        case MatchExpr =>
          if n.id in fails {
            return false;
          }
        case ForExpr =>
          if n.id in fails {
            return false;
          }
          currentSt := Some(n.id);
        case _ =>
      }
      seen := seen + [Enter(n.id, currentSt.value, links.Fn(currentSt.value))];
      return true;
    }

    /** `typecheck_do`: the node's own check, with result `post`, then the ascent. */
    method TypecheckDo(n: Ast, post: nat -> Result, ghost env: Table, ghost fn: Option<nat>) returns (rc: Result)
      requires Shape(n) && currentSt == Some(Inner(n, env)) && Linked(n, env, fn, links) && links.Fn(env) == fn
      requires n.kind.Root? ==> env == n.id
      requires |parentNodes| > 0 && parentNodes[|parentNodes| - 1] == n
      modifies this`currentSt, this`parentNodes, this`seen
      ensures rc == post(n.id)
      ensures parentNodes == old(parentNodes)[..|old(parentNodes)| - 1]
      ensures currentSt == Some(After(n, Top(parentNodes), env))
      ensures seen == old(seen) + [Leave(n.id, Inner(n, env), InnerFn(n, fn))]
    {
      InnerLinked(n, env, fn, links);
      seen := seen + [Leave(n.id, currentSt.value, links.Fn(currentSt.value))];
      rc := post(n.id);
      Ascend(n, env, fn);
    }

    /** `ast_traverse_tree_nostop_post_cb` with the callbacks of the typecheck pass. */
    method TypecheckPass(n: Ast, fails: set<nat>, post: nat -> Result, ghost env: Table, ghost fn: Option<nat>) returns (rc: Result)
      requires Shape(n) && Linked(n, env, fn, links) && (currentSt == Some(env) || Owns(n)) && links.Fn(env) == fn
      requires n.kind.Root? ==> env == n.id
      requires fails !! Ids(n)
      modifies this`currentSt, this`parentNodes, this`seen
      ensures rc != Fatal ==>
                && parentNodes == old(parentNodes)
                && currentSt == Some(After(n, Top(parentNodes), env))
                && seen == old(seen) + Trace(n, env, fn, Typecheck)
                && (rc == Ok <==> AllOk(n, post))
      ensures rc == Fatal ==> seen <= old(seen) + Trace(n, env, fn, Typecheck) && !AllOk(n, post) && StoppedAtFatal(seen, post)
      ensures rc == Fatal <==> !NoneFatal(n, post)
      decreases n, 1
    {
      hide Linked, Ids, Trace, TraceFrom, EnterOf, Shape, AllOk, OkSoFar, After, NoneFatal, NoneFatalSoFar;
      ghost var before := seen;
      OwnIds(n);
      var ok := Descend(n, fails, env, fn);
      if !ok {
        return Error;
      }
      rc := TypecheckChildren(n, fails, post, env, fn, before);
      AllOkParts(n, post);
      NoneFatalParts(n, post);
      if rc == Fatal {
        return;
      }
      var own := TypecheckDo(n, post, env, fn);
      TraceEnds(n, env, fn, Typecheck, before, seen);
      if own == Fatal {
        return Fatal;
      } else if own == Error {
        rc := Error;
      }
    }

    /** The loop over the children in `ast_traverse_tree_nostop_post_cb`. */
    method TypecheckChildren(n: Ast, fails: set<nat>, post: nat -> Result, ghost env: Table, ghost fn: Option<nat>, ghost before: seq<Event>)
        returns (ret: Result)
      requires Shape(n) && Linked(n, env, fn, links) && links.Fn(env) == fn && Top(parentNodes) == Some(n)
      requires n.kind.Root? ==> env == n.id
      requires fails !! Ids(n)
      requires currentSt == Some(Inner(n, env)) && seen == before + [EnterOf(n, env, fn, Typecheck)]
      modifies this`currentSt, this`parentNodes, this`seen
      ensures ret != Fatal ==>
                && parentNodes == old(parentNodes) && currentSt == Some(Inner(n, env))
                && seen + TraceFrom(n, env, fn, Typecheck, |n.children|) == before + Trace(n, env, fn, Typecheck)
                && (ret == Ok <==> OkSoFar(n, post, |n.children|))
      ensures ret == Fatal ==> seen <= before + Trace(n, env, fn, Typecheck) && !OkSoFar(n, post, |n.children|) && StoppedAtFatal(seen, post)
      ensures ret == Fatal <==> !NoneFatalSoFar(n, post, |n.children|)
      decreases n, 0
    {
      hide Linked, Ids, Trace, TraceFrom, EnterOf, Shape, AllOk, After, NoneFatal, StoppedAtFatal;
      SpecialShape(n);
      TraceBegins(n, env, fn, Typecheck, before, seen);
      ret := Ok;
      var i := 0;
      while i < |n.children|
        invariant 0 <= i <= |n.children| && ret != Fatal
        invariant parentNodes == old(parentNodes)
        invariant i > 0 ==> currentSt == Some(if i < |n.children| then ChildEnv(n, env, i) else Inner(n, env))
        invariant i == 0 ==> currentSt == Some(Inner(n, env))
        invariant seen + TraceFrom(n, env, fn, Typecheck, i) == before + Trace(n, env, fn, Typecheck)
        invariant ret == Ok <==> OkSoFar(n, post, i)
        invariant NoneFatalSoFar(n, post, i)
      {
        ghost var s := seen;
        ChildLinked(n, env, fn, links, i);
        ChildFnLinked(n, env, fn, links, i);
        AfterChild(n, env, i, n);
        var rc := TypecheckPass(n.children[i], fails, post, ChildEnv(n, env, i), ChildFn(n, fn, i));
        if rc == Fatal {
          PrefixOfTrace(n, env, fn, i, before, s, seen);
          return rc;
        } else if rc == Error {
          ret := rc;
        }
        TraceStep(n, env, fn, Typecheck, i, before, s, seen);
        i := i + 1;
      }
    }
  }

  // ---------------------------------------------------------------- both passes over a module

  ghost function SpecialIds(n: Ast): set<nat> {
    (if Special(n) then {n.id} else {}) + set c, x | c in n.children && x in SpecialIds(c) :: x
  }

  /** Two event lists that differ only on entry to nodes in `ids`. */
  ghost predicate Agree(a: seq<Event>, b: seq<Event>, ids: set<nat>) {
    && |a| == |b|
    && forall k :: 0 <= k < |a| ==>
         a[k] == b[k] || (a[k].Enter? && b[k].Enter? && a[k].node == b[k].node && a[k].node in ids)
  }

  lemma AgreeConcat(a: seq<Event>, b: seq<Event>, c: seq<Event>, d: seq<Event>, ids: set<nat>)
    requires Agree(a, b, ids) && Agree(c, d, ids)
    ensures Agree(a + c, b + d, ids)
  {
  }

  /** Every node is processed under the same table and the same function in both
      passes, except on entry to a function implementation or a match case. */
  lemma {:induction false} PassesAgree(n: Ast, env: Table, fn: Option<nat>)
    requires Shape(n)
    ensures Agree(Trace(n, env, fn, First), Trace(n, env, fn, Typecheck), SpecialIds(n))
    decreases n, |n.children| + 1
  {
    hide Shape;
    assert Agree([EnterOf(n, env, fn, First)], [EnterOf(n, env, fn, Typecheck)], SpecialIds(n));
    RestAgrees(n, env, fn, 0);
    AgreeConcat([EnterOf(n, env, fn, First)], [EnterOf(n, env, fn, Typecheck)],
                TraceFrom(n, env, fn, First, 0), TraceFrom(n, env, fn, Typecheck, 0), SpecialIds(n));
  }

  lemma {:induction false} RestAgrees(n: Ast, env: Table, fn: Option<nat>, i: nat)
    requires Shape(n) && i <= |n.children|
    ensures Agree(TraceFrom(n, env, fn, First, i), TraceFrom(n, env, fn, Typecheck, i), SpecialIds(n))
    decreases n, |n.children| - i
  {
    if i < |n.children| {
      hide Agree;
      var c, e, f := n.children[i], ChildEnv(n, env, i), ChildFn(n, fn, i);
      PassesAgree(c, e, f);
      assert SpecialIds(c) <= SpecialIds(n) by { assert c in n.children; }
      AgreeGrows(Trace(c, e, f, First), Trace(c, e, f, Typecheck), SpecialIds(c), SpecialIds(n));
      RestAgrees(n, env, fn, i + 1);
      AgreeConcat(Trace(c, e, f, First), Trace(c, e, f, Typecheck),
                  TraceFrom(n, env, fn, First, i + 1), TraceFrom(n, env, fn, Typecheck, i + 1), SpecialIds(n));
    }
  }

  lemma AgreeGrows(a: seq<Event>, b: seq<Event>, s: set<nat>, t: set<nat>)
    requires Agree(a, b, s) && s <= t
    ensures Agree(a, b, t)
  {
  }

  lemma FnOfRoot(n: Ast, root: Table, l: Links)
    requires Shape(n) && Linked(n, root, None, l) && SameOutside(Links(map[], map[], map[]), l, Ids(n))
    requires if n.kind.Root? then root == n.id else root !in Ids(n)
    ensures l.Fn(root) == None
  {
  }

  /** `analyzer_first_pass` and then `analyzer_typecheck` on one module; `root` is
      the node whose table is current at the start. */
  method AnalyzeModule(n: Ast, root: Table, fails: set<nat>, preFails: set<nat>, post: nat -> Result)
      returns (ok: bool, rc: Result, ghost first: seq<Event>, ghost second: seq<Event>)
    requires Shape(n) && Distinct(n) && (n.kind.Root? || n.kind.Module?)
    requires if n.kind.Root? then root == n.id else root !in Ids(n)
    requires preFails !! Ids(n)
    ensures ok <==> Clean(n, fails)
    ensures ok ==> first == Trace(n, root, None, First)
    ensures ok && rc != Fatal ==> second == Trace(n, root, None, Typecheck) && Agree(first, second, SpecialIds(n))
    ensures ok && rc == Fatal ==> second <= Trace(n, root, None, Typecheck) && StoppedAtFatal(second, post)
    ensures ok ==> (rc == Fatal <==> !NoneFatal(n, post))
    ensures ok ==> (rc == Ok <==> AllOk(n, post))
  {
    hide Trace, Linked, Ids, AllOk, Shape, Distinct, Agree, SpecialIds, Clean, NoneFatal, StoppedAtFatal;
    first, second, rc := [], [], Error;
    var a := new Analyzer();
    a.currentSt := Some(root);
    ok := a.FirstPass(n, fails, root, None);
    if !ok {
      return;
    }
    first := a.seen;
    var links := a.links;
    a := new Analyzer();
    a.links := links;
    FnOfRoot(n, root, links);
    rc := a.TypecheckPass(n, preFails, post, root, None);
    second := a.seen;
    PassesAgree(n, root, None);
  }
}
