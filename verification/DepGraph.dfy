/** Dependency graphs: paths, cycles, and the orders that put every dependency
    before its dependents.  `g[i]` lists the modules that module i depends on. */
module DepGraph {

  type Graph = seq<seq<nat>>

  ghost predicate WellFormed(g: Graph) {
    forall i, k :: 0 <= i < |g| && 0 <= k < |g[i]| ==> g[i][k] < |g|
  }

  /** Each module on the path depends on the next. */
  ghost predicate IsPath(g: Graph, p: seq<nat>) {
    && (forall k :: 0 <= k < |p| ==> p[k] < |g|)
    && (forall k :: 0 <= k < |p| - 1 ==> p[k + 1] in g[p[k]])
  }

  ghost predicate IsCycle(g: Graph, p: seq<nat>) {
    |p| >= 2 && IsPath(g, p) && p[0] == p[|p| - 1]
  }

  ghost predicate Acyclic(g: Graph) {
    !exists p :: IsCycle(g, p)
  }

  ghost predicate NoDuplicates(s: seq<nat>) {
    forall i, j :: 0 <= i < j < |s| ==> s[i] != s[j]
  }

  /** Every module in `order` comes after all it depends on. */
  ghost predicate DependenciesFirst(g: Graph, order: seq<nat>) {
    && (forall k :: 0 <= k < |order| ==> order[k] < |g|)
    && (forall k, d :: 0 <= k < |order| && d in g[order[k]] ==> d in order[..k])
  }

  /** A topological order of all modules. */
  ghost predicate TopologicalOrder(g: Graph, order: seq<nat>) {
    && NoDuplicates(order) && DependenciesFirst(g, order)
    && (forall i :: 0 <= i < |g| ==> i in order)
  }

  /** The place of a module in an order. */
  function Rank(order: seq<nat>, m: nat): (k: nat)
    requires m in order
    ensures k < |order| && order[k] == m && forall i :: 0 <= i < k ==> order[i] != m
  {
    if order[0] == m then 0 else
      assert forall k :: 1 <= k < |order| ==> order[k] == order[1..][k - 1];
      1 + Rank(order[1..], m)
  }

  /** Dependencies have a smaller rank. */
  lemma RankOfDependency(g: Graph, order: seq<nat>, m: nat, d: nat)
    requires TopologicalOrder(g, order) && m < |g| && d in g[m]
    ensures d in order && m in order && Rank(order, d) < Rank(order, m)
  {
    var k := Rank(order, m);
    assert d in order[..k];
    var j :| 0 <= j < k && order[j] == d;
  }

  lemma {:induction false} RankAlongPath(g: Graph, order: seq<nat>, p: seq<nat>, k: nat)
    requires TopologicalOrder(g, order) && IsPath(g, p) && 1 <= k < |p|
    ensures p[0] in order && p[k] in order && Rank(order, p[k]) < Rank(order, p[0])
  {
    RankOfDependency(g, order, p[k - 1], p[k]);
    if k > 1 {
      RankAlongPath(g, order, p, k - 1);
    }
  }

  /** A graph that has a topological order has no cycle. */
  lemma OrderedIsAcyclic(g: Graph, order: seq<nat>)
    requires TopologicalOrder(g, order)
    ensures Acyclic(g)
  {
    forall p | IsCycle(g, p) ensures false {
      RankAlongPath(g, order, p, |p| - 1);
    }
  }

  // ---------------------------------------------------------------- the depth-first search

  datatype Mark = Unmarked | TempMark | Marked

  /** During the search: `sorted` holds the marked modules, dependencies first, and
      the temporarily marked ones are those on the path `stack`. */
  ghost predicate Searching(g: Graph, marks: seq<Mark>, sorted: seq<nat>, stack: seq<nat>) {
    && |marks| == |g|
    && NoDuplicates(sorted) && DependenciesFirst(g, sorted)
    && (forall i :: 0 <= i < |g| ==> (marks[i] == Marked <==> i in sorted))
    && IsPath(g, stack)
    && (forall i :: 0 <= i < |g| ==> (marks[i] == TempMark <==> i in stack))
  }

  /** What a visit keeps: marks only go from unmarked to marked. */
  ghost predicate Progress(a: seq<Mark>, b: seq<Mark>) {
    && |a| == |b|
    && forall i :: 0 <= i < |a| ==> b[i] == a[i] || (a[i] == Unmarked && b[i] == Marked)
  }

  ghost function UnmarkedSet(marks: seq<Mark>): set<nat> {
    set i | 0 <= i < |marks| && marks[i] == Unmarked
  }

  lemma StartSearch(g: Graph, marks: seq<Mark>)
    requires |marks| == |g| && forall i :: 0 <= i < |g| ==> marks[i] == Unmarked
    ensures Searching(g, marks, [], [])
  {
  }

  /** Coming back to a module on the path closes a cycle. */
  lemma ClosesCycle(g: Graph, marks: seq<Mark>, sorted: seq<nat>, stack: seq<nat>, i: nat)
    requires Searching(g, marks, sorted, stack) && i < |g| && marks[i] == TempMark
    requires stack != [] && i in g[stack[|stack| - 1]]
    ensures !Acyclic(g)
  {
    var k :| 0 <= k < |stack| && stack[k] == i;
    var p := stack[k..] + [i];
    assert IsCycle(g, p);
  }

  lemma EnterModule(g: Graph, marks: seq<Mark>, sorted: seq<nat>, stack: seq<nat>, i: nat)
    requires Searching(g, marks, sorted, stack) && i < |g| && marks[i] == Unmarked
    requires stack != [] ==> i in g[stack[|stack| - 1]]
    ensures Searching(g, marks[i := TempMark], sorted, stack + [i])
    ensures UnmarkedSet(marks[i := TempMark]) < UnmarkedSet(marks)
  {
    assert i in UnmarkedSet(marks) && i !in UnmarkedSet(marks[i := TempMark]);
  }

  lemma LeaveModule(g: Graph, marks: seq<Mark>, sorted: seq<nat>, stack: seq<nat>, i: nat)
    requires i < |g| && i !in stack && Searching(g, marks, sorted, stack + [i])
    requires forall k :: 0 <= k < |g[i]| ==> g[i][k] in sorted
    ensures Searching(g, marks[i := Marked], sorted + [i], stack)
  {
    var b, s := marks[i := Marked], sorted + [i];
    assert marks[i] == TempMark by { assert (stack + [i])[|stack|] == i; }
    assert i !in sorted;
    forall j | 0 <= j < |g|
      ensures (b[j] == Marked <==> j in s) && (b[j] == TempMark <==> j in stack)
    {
      assert j in stack + [i] <==> j in stack || j == i;
    }
    forall k, d | 0 <= k < |s| && d in g[s[k]] ensures d in s[..k] {
      assert s[..k] == if k < |sorted| then sorted[..k] else sorted;
    }
    assert IsPath(g, stack) by {
      forall k | 0 <= k < |stack| ensures stack[k] < |g| {
        assert (stack + [i])[k] < |g|;
      }
      forall k | 0 <= k < |stack| - 1 ensures stack[k + 1] in g[stack[k]] {
        assert (stack + [i])[k + 1] in g[(stack + [i])[k]];
      }
    }
  }

  lemma ProgressTrans(a: seq<Mark>, b: seq<Mark>, c: seq<Mark>)
    requires Progress(a, b) && Progress(b, c)
    ensures Progress(a, c)
  {
  }

  lemma ProgressShrinks(a: seq<Mark>, b: seq<Mark>)
    requires Progress(a, b)
    ensures UnmarkedSet(b) <= UnmarkedSet(a)
  {
  }

  /** When nothing is left to visit the order is complete. */
  lemma SearchDone(g: Graph, marks: seq<Mark>, sorted: seq<nat>)
    requires Searching(g, marks, sorted, []) && forall i :: 0 <= i < |g| ==> marks[i] == Marked
    ensures TopologicalOrder(g, sorted) && |sorted| == |g|
  {
    CountOnce(sorted, |g|);
  }

  /** A list with every number below n exactly once has n elements. */
  lemma CountOnce(s: seq<nat>, n: nat)
    requires NoDuplicates(s) && (forall i :: 0 <= i < n ==> i in s) && (forall k :: 0 <= k < |s| ==> s[k] < n)
    ensures |s| == n
  {
    assert Below(n) == Elems(s);
    ElemsSize(s);
  }

  ghost function Below(n: nat): (b: set<nat>)
    ensures |b| == n && forall i: nat :: i in b <==> i < n
  {
    if n == 0 then {} else Below(n - 1) + {n - 1}
  }

  ghost function Elems(s: seq<nat>): (e: set<nat>)
    ensures forall x :: x in e <==> x in s
  {
    set x | x in s
  }

  lemma {:induction false} ElemsSize(s: seq<nat>)
    requires NoDuplicates(s)
    ensures |Elems(s)| == |s|
  {
    if s != [] {
      var last := |s| - 1;
      var t := s[..last];
      ElemsSize(t);
      assert forall k :: 0 <= k < last ==> t[k] != s[last];
      assert Elems(s) == Elems(t) + {s[last]};
    } else {
      assert Elems(s) == {};
    }
  }
}
