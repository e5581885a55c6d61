/** Modules and their order of analysis: `compiler_preprocess_fronts`,
    `compiler_resolve_dependencies` and `compiler_visit_unmarked_module` of
    src/compiler.c, with the imports of src/module.c. */
module Modules {
  import opened Wrappers
  import opened DepGraph

  /** The name that the main module goes by, and that of the standard library. */
  const MAIN := "main"
  const STDLIB := "stdlib"

  class Module {
    const name: string
    const imports: seq<string>
    var dependencies: seq<Module>

    constructor (name: string, imports: seq<string>)
      ensures this.name == name && this.imports == imports && dependencies == []
    {
      this.name, this.imports, this.dependencies := name, imports, [];
    }
  }

  ghost predicate DistinctModules(ms: seq<Module>) {
    forall i, j :: 0 <= i < j < |ms| ==> ms[i] != ms[j]
  }

  /** The modules' dependency lists are the graph `g` on their positions. */
  ghost predicate Represents(ms: seq<Module>, g: Graph)
    reads ms
  {
    && DistinctModules(ms) && |g| == |ms| && WellFormed(g)
    && forall i :: 0 <= i < |ms| ==>
         |ms[i].dependencies| == |g[i]| && forall k :: 0 <= k < |g[i]| ==> ms[i].dependencies[k] == ms[g[i][k]]
  }

  /** The modules at these positions. */
  ghost function At(ms: seq<Module>, s: seq<nat>): (r: seq<Module>)
    requires forall k :: 0 <= k < |s| ==> s[k] < |ms|
    ensures |r| == |s| && forall k :: 0 <= k < |s| ==> r[k] == ms[s[k]]
  {
    seq(|s|, k requires 0 <= k < |s| => ms[s[k]])
  }

  // ---------------------------------------------------------------- imports by name

  /** The first of the names that equals `n`. */
  function Find(names: seq<string>, n: string): (k: Option<nat>)
    ensures k.Some? ==> k.value < |names| && names[k.value] == n && forall i :: 0 <= i < k.value ==> names[i] != n
    ensures k.None? ==> n !in names
  {
    if names == [] then None
    else if names[0] == n then Some(0)
    else
      var rest := Find(names[1..], n);
      assert names == [names[0]] + names[1..];
      if rest.None? then None else
        assert forall i :: 1 <= i <= rest.value ==> names[i] == names[1..][i - 1];
        Some(rest.value + 1)
  }

  /** The positions of the imported modules, if all of them exist. */
  function Resolve(names: seq<string>, imports: seq<string>): (d: Option<seq<nat>>)
    ensures d.Some? ==> forall k :: 0 <= k < |d.value| ==> d.value[k] < |names|
  {
    if imports == [] then Some([]) else
      var before, last := Resolve(names, imports[..|imports| - 1]), Find(names, imports[|imports| - 1]);
      if before.None? || last.None? then None else Some(before.value + [last.value])
  }

  /** ... and of the standard library, for the main module when it is asked for. */
  function Depends(names: seq<string>, name: string, imports: seq<string>, useStdlib: bool): (d: Option<seq<nat>>)
    ensures d.Some? ==> forall k :: 0 <= k < |d.value| ==> d.value[k] < |names|
  {
    Resolve(names, imports + if useStdlib && name == MAIN then [STDLIB] else [])
  }

  /** One position for each import, that of the module of this name; none if a name is missing. */
  lemma {:induction false} ResolveIs(names: seq<string>, imports: seq<string>)
    ensures Resolve(names, imports).Some? <==> forall n :: n in imports ==> n in names
    ensures var d := Resolve(names, imports);
            d.Some? ==> |d.value| == |imports| && forall k :: 0 <= k < |imports| ==> names[d.value[k]] == imports[k]
  {
    if imports != [] {
      var k := |imports| - 1;
      assert imports == imports[..k] + [imports[k]];
      ResolveIs(names, imports[..k]);
    }
  }

  /** Each module depends on those that it imports, in order; behind them the one called
      "main", and only it, on "stdlib" when the library is asked for. */
  lemma DependsIs(names: seq<string>, name: string, imports: seq<string>, useStdlib: bool)
    ensures var d := Depends(names, name, imports, useStdlib);
            && (d.Some? <==> (forall n :: n in imports ==> n in names) && (useStdlib && name == "main" ==> "stdlib" in names))
            && (d.Some? ==>
                  && |d.value| == |imports| + (if useStdlib && name == "main" then 1 else 0)
                  && (forall k :: 0 <= k < |imports| ==> names[d.value[k]] == imports[k])
                  && (useStdlib && name == "main" ==> names[d.value[|imports|]] == "stdlib"))
  {
    var all := imports + if useStdlib && name == "main" then ["stdlib"] else [];
    ResolveIs(names, all);
    assert forall k :: 0 <= k < |imports| ==> all[k] == imports[k];
    assert forall n :: n in all <==> n in imports || (useStdlib && name == "main" && n == "stdlib");
  }

  ghost function Names(ms: seq<Module>): (names: seq<string>)
    ensures |names| == |ms| && forall i :: 0 <= i < |ms| ==> names[i] == ms[i].name
  {
    seq(|ms|, i requires 0 <= i < |ms| => ms[i].name)
  }

  ghost predicate DistinctNames(names: seq<string>) {
    forall i, j :: 0 <= i < j < |names| ==> names[i] != names[j]
  }

  ghost predicate AllResolve(ms: seq<Module>, useStdlib: bool) {
    forall i :: 0 <= i < |ms| ==> Depends(Names(ms), ms[i].name, ms[i].imports, useStdlib).Some?
  }

  /** The graph that the imports describe. */
  ghost function ImportGraph(ms: seq<Module>, useStdlib: bool): (g: Graph)
    requires AllResolve(ms, useStdlib)
    ensures |g| == |ms| && WellFormed(g)
    ensures forall i :: 0 <= i < |ms| ==> Some(g[i]) == Depends(Names(ms), ms[i].name, ms[i].imports, useStdlib)
  {
    seq(|ms|, i requires 0 <= i < |ms| => Depends(Names(ms), ms[i].name, ms[i].imports, useStdlib).value)
  }

  lemma {:induction false} ResolveExtended(names: seq<string>, imports: seq<string>, k: nat)
    requires k <= |imports| && Resolve(names, imports).Some?
    ensures Resolve(names, imports[..k]).Some?
  {
    if k < |imports| {
      var shorter := imports[..|imports| - 1];
      ResolveExtended(names, shorter, k);
      assert shorter[..k] == imports[..k];
    } else {
      assert imports[..k] == imports;
    }
  }

  class Compiler {
    var modules: seq<Module>
    var sortedModules: seq<Module>

    constructor ()
      ensures modules == [] && sortedModules == []
    {
      modules, sortedModules := [], [];
    }

    /** `compiler_module_get`. */
    method ModuleGet(name: string) returns (m: Option<Module>, ghost k: Option<nat>)
      ensures k == Find(Names(modules), name)
      ensures m == if k.Some? then Some(modules[k.value]) else None
    {
      var i := 0;
      while i < |modules|
        invariant 0 <= i <= |modules| && name !in Names(modules)[..i]
      {
        if modules[i].name == name {
          return Some(modules[i]), Find(Names(modules), name);
        }
        i := i + 1;
      }
      assert Names(modules)[..i] == Names(modules);
      return None, None;
    }

    /** `module_add_import` and `module_add_stdlib` for one name. */
    method AddDependency(m: Module, name: string, ghost done: seq<string>) returns (ok: bool)
      requires m in modules
      requires Resolve(Names(modules), done).Some? && m.dependencies == At(modules, Resolve(Names(modules), done).value)
      modifies m`dependencies
      ensures ok <==> Resolve(Names(modules), done + [name]).Some?
      ensures ok ==> m.dependencies == At(modules, Resolve(Names(modules), done + [name]).value)
    {
      hide Find, At;
      assert (done + [name])[..|done|] == done;
      var other;
      ghost var k;
      other, k := ModuleGet(name);
      if other == None {
        return false;
      }
      AtAppend(modules, Resolve(Names(modules), done).value, k.value);
      m.dependencies := m.dependencies + [other.value];
      return true;
    }

    /** `module_determine_dependencies`. */
    method DetermineDependencies(m: Module, useStdlib: bool) returns (ok: bool)
      requires m in modules && m.dependencies == []
      modifies m`dependencies
      ensures ok <==> Depends(Names(modules), m.name, m.imports, useStdlib).Some?
      ensures ok ==> m.dependencies == At(modules, Depends(Names(modules), m.name, m.imports, useStdlib).value)
    {
      hide Find, At, Resolve;
      ghost var all := m.imports + if useStdlib && m.name == MAIN then [STDLIB] else [];
      AtNothing(modules);
      ResolveNothing(Names(modules));
      var i := 0;
      while i < |m.imports|
        invariant 0 <= i <= |m.imports|
        invariant Resolve(Names(modules), m.imports[..i]).Some?
        invariant m.dependencies == At(modules, Resolve(Names(modules), m.imports[..i]).value)
      {
        ok := AddDependency(m, m.imports[i], m.imports[..i]);
        assert m.imports[..i] + [m.imports[i]] == m.imports[..i + 1] == all[..i + 1];
        if !ok {
          if Resolve(Names(modules), all).Some? {
            ResolveExtended(Names(modules), all, i + 1);
          }
          return false;
        }
        i := i + 1;
      }
      assert m.imports[..i] == m.imports;
      if useStdlib && m.name == MAIN {
        ok := AddDependency(m, STDLIB, m.imports);
        return;
      }
      assert all == m.imports;
      return true;
    }

    /** `compiler_preprocess_fronts`, once the files are parsed: it succeeds exactly
        when no two modules share a name, every import exists, and no module
        depends on itself through others; the order is then a topological one. */
    method PreprocessFronts(useStdlib: bool) returns (ok: bool, ghost order: seq<nat>)
      requires DistinctModules(modules) && forall m :: m in modules ==> m.dependencies == []
      modifies this`sortedModules, modules
      ensures ok <==> DistinctNames(Names(modules)) && AllResolve(modules, useStdlib) && Acyclic(ImportGraph(modules, useStdlib))
      ensures ok ==>
                && Represents(modules, ImportGraph(modules, useStdlib))
                && TopologicalOrder(ImportGraph(modules, useStdlib), order)
                && |order| == |modules| && sortedModules == At(modules, order)
    {
      hide Depends, At, Acyclic, TopologicalOrder, Represents;
      order := [];
      var seen: set<string> := {};
      var i := 0;
      while i < |modules|
        invariant 0 <= i <= |modules|
        invariant forall x :: x in seen <==> x in Names(modules)[..i]
        invariant DistinctNames(Names(modules)[..i])
        invariant forall j :: 0 <= j < i ==> Resolved(modules, j, useStdlib)
        invariant forall j :: i <= j < |modules| ==> modules[j].dependencies == []
      {
        if modules[i].name in seen {
          return false, order;
        }
        seen := seen + {modules[i].name};
        label before:
        ok := DetermineDependencies(modules[i], useStdlib);
        if !ok {
          return false, order;
        }
        forall j | 0 <= j < i ensures Resolved(modules, j, useStdlib) {
          assert modules[j] != modules[i] && old@before(Resolved(modules, j, useStdlib));
        }
        assert Resolved(modules, i, useStdlib);
        i := i + 1;
      }
      assert Names(modules)[..i] == Names(modules);
      BuildsGraph(modules, useStdlib);
      ok, order := ResolveDependencies(ImportGraph(modules, useStdlib));
    }

    /** `compiler_get_module_index`. */
    method GetModuleIndex(m: Module) returns (i: nat)
      requires m in modules
      ensures i < |modules| && modules[i] == m
    {
      i := 0;
      while modules[i] != m
        invariant i < |modules| && m !in modules[..i]
        decreases |modules| - i
      {
        i := i + 1;
      }
    }

    /** The state of the search, on positions. */
    ghost predicate SearchState(g: Graph, marks: seq<Mark>, sorted: seq<nat>, stack: seq<nat>)
      reads this, modules
    {
      && |marks| == |modules| && Represents(modules, g) && Searching(g, marks, sorted, stack)
      && sortedModules == At(modules, sorted)
    }

    /** `compiler_visit_unmarked_module`. */
    method VisitUnmarkedModule(m: Module, i: nat, marks: array<Mark>, ghost g: Graph, ghost sorted: seq<nat>, ghost stack: seq<nat>)
        returns (ok: bool, ghost sorted': seq<nat>)
      requires SearchState(g, marks[..], sorted, stack)
      requires i < |modules| && modules[i] == m
      requires stack != [] ==> i in g[stack[|stack| - 1]]
      requires stack == [] ==> marks[i] != TempMark
      modifies marks, this`sortedModules
      ensures ok ==>
                && SearchState(g, marks[..], sorted', stack)
                && Progress(old(marks[..]), marks[..]) && marks[i] == Marked && sorted <= sorted'
      ensures !ok ==> !Acyclic(g)
      decreases UnmarkedSet(marks[..]), 1
    {
      hide Searching, Progress, Represents, At;
      sorted' := sorted;
      GraphBounds(modules, g);
      if marks[i] == Marked {
        SelfProgress(marks[..]);
        return true, sorted;
      }
      if marks[i] == TempMark {
        ClosesCycle(g, marks[..], sorted, stack, i);
        return false, sorted;
      }
      EnterModule(g, marks[..], sorted, stack, i);
      ghost var was := marks[..];
      marks[i] := TempMark;
      assert marks[..] == was[i := TempMark];
      ok, sorted' := VisitDependencies(m, i, marks, g, sorted, stack + [i]);
      if !ok {
        return;
      }
      ghost var now := marks[..];
      StackDisjoint(g, was, sorted, stack, i);
      LeaveModule(g, now, sorted', stack, i);
      LeaveProgress(was, now, i);
      marks[i] := Marked;
      assert marks[..] == now[i := Marked];
      // add module m to the end of the sorted list
      sortedModules := sortedModules + [m];
      SortedBounds(g, now, sorted', stack + [i]);
      AtAppend(modules, sorted', i);
      sorted' := sorted' + [i];
    }

    /** The loop over the dependencies of the module on top of the path. */
    method VisitDependencies(m: Module, i: nat, marks: array<Mark>, ghost g: Graph, ghost sorted: seq<nat>, ghost stack: seq<nat>)
        returns (ok: bool, ghost sorted': seq<nat>)
      requires SearchState(g, marks[..], sorted, stack)
      requires i < |modules| && modules[i] == m && stack != [] && stack[|stack| - 1] == i
      modifies marks, this`sortedModules
      ensures ok ==>
                && SearchState(g, marks[..], sorted', stack)
                && Progress(old(marks[..]), marks[..]) && sorted <= sorted'
                && forall k :: 0 <= k < |g[i]| ==> g[i][k] in sorted'
      ensures !ok ==> !Acyclic(g)
      decreases UnmarkedSet(marks[..]), 2
    {
      hide Searching, Progress, Represents, At;
      sorted' := sorted;
      SelfProgress(marks[..]);
      GraphBounds(modules, g);
      var d := 0;
      while d < |m.dependencies|
        invariant 0 <= d <= |m.dependencies|
        invariant SearchState(g, marks[..], sorted', stack)
        invariant Progress(old(marks[..]), marks[..]) && sorted <= sorted'
        invariant forall k :: 0 <= k < d ==> g[i][k] in sorted'
      {
        ghost var before, s := marks[..], sorted';
        ProgressShrinks(old(marks[..]), before);
        DependencyAt(modules, g, i, d);
        var foundIndex := GetModuleIndex(m.dependencies[d]);
        SameModule(modules, g, foundIndex, g[i][d]);
        ok, sorted' := VisitUnmarkedModule(m.dependencies[d], foundIndex, marks, g, sorted', stack);
        if !ok {
          return;
        }
        ProgressTrans(old(marks[..]), before, marks[..]);
        MarkedIsSorted(g, marks[..], sorted', stack, foundIndex);
        d := d + 1;
      }
      return true, sorted';
    }

    /** One pass of `compiler_resolve_dependencies` over the modules. */
    method VisitAll(marks: array<Mark>, ghost g: Graph, ghost sorted: seq<nat>) returns (ok: bool, unmarkedFound: bool, ghost sorted': seq<nat>)
      requires SearchState(g, marks[..], sorted, [])
      modifies marks, this`sortedModules
      ensures ok ==>
                && SearchState(g, marks[..], sorted', [])
                && (forall k :: 0 <= k < |modules| ==> marks[k] == Marked)
                && (unmarkedFound <==> exists k :: 0 <= k < |modules| && old(marks[k]) != Marked)
      ensures !ok ==> !Acyclic(g)
    {
      hide Searching, Represents, At, Progress;
      unmarkedFound := false;
      sorted' := sorted;
      SelfProgress(marks[..]);
      var i := 0;
      while i < |modules|
        invariant 0 <= i <= |modules|
        invariant SearchState(g, marks[..], sorted', [])
        invariant Progress(old(marks[..]), marks[..])
        invariant forall k :: 0 <= k < i ==> marks[..][k] == Marked
        invariant unmarkedFound ==> exists k :: 0 <= k < |modules| && old(marks[k]) != Marked
        invariant !unmarkedFound ==> marks[..] == old(marks[..])
      {
        ghost var before := marks[..];
        if marks[i] != Marked {
          NoneTemporary(g, before, sorted');
          WasUnmarked(old(marks[..]), before, i);
          unmarkedFound := true;
          ok, sorted' := VisitUnmarkedModule(modules[i], i, marks, g, sorted', []);
          if !ok {
            return;
          }
          ProgressTrans(old(marks[..]), before, marks[..]);
          StillMarked(before, marks[..], i);
        }
        i := i + 1;
      }
      return true, unmarkedFound, sorted';
    }

    /** `compiler_resolve_dependencies`: it succeeds exactly when the graph has no
        cycle, and then orders all modules, dependencies first. */
    method ResolveDependencies(ghost g: Graph) returns (ok: bool, ghost order: seq<nat>)
      requires Represents(modules, g)
      modifies this`sortedModules
      ensures ok <==> Acyclic(g)
      ensures ok ==> TopologicalOrder(g, order) && |order| == |modules| && sortedModules == At(modules, order)
    {
      hide Searching, Represents, At, Progress, TopologicalOrder, Acyclic;
      order := [];
      sortedModules := [];
      GraphBounds(modules, g);
      var marks := new Mark[|modules|](_ => Unmarked);
      StartSearch(g, marks[..]);
      AtNothing(modules);
      var unmarkedFound := true;
      while unmarkedFound
        invariant SearchState(g, marks[..], order, [])
        invariant !unmarkedFound ==> forall k :: 0 <= k < |modules| ==> marks[..][k] == Marked
        decreases if exists k :: 0 <= k < |modules| && marks[k] != Marked then 2 else if unmarkedFound then 1 else 0
      {
        ok, unmarkedFound, order := VisitAll(marks, g, order);
        if !ok {
          return;
        }
      }
      SearchDone(g, marks[..], order);
      OrderedIsAcyclic(g, order);
      return true, order;
    }
  }

  lemma GraphBounds(ms: seq<Module>, g: Graph)
    requires Represents(ms, g)
    ensures |g| == |ms| && forall i :: 0 <= i < |ms| ==> |ms[i].dependencies| == |g[i]|
  {
  }

  lemma DependencyAt(ms: seq<Module>, g: Graph, i: nat, d: nat)
    requires Represents(ms, g) && i < |ms| && d < |ms[i].dependencies|
    ensures i < |g| && d < |g[i]| && g[i][d] < |ms| && ms[i].dependencies[d] == ms[g[i][d]]
  {
  }

  lemma SameModule(ms: seq<Module>, g: Graph, i: nat, j: nat)
    requires Represents(ms, g) && i < |ms| && j < |ms| && ms[i] == ms[j]
    ensures i == j
  {
  }

  lemma SortedBounds(g: Graph, marks: seq<Mark>, sorted: seq<nat>, stack: seq<nat>)
    requires Searching(g, marks, sorted, stack)
    ensures forall k :: 0 <= k < |sorted| ==> sorted[k] < |g|
  {
  }

  lemma NoneTemporary(g: Graph, marks: seq<Mark>, sorted: seq<nat>)
    requires Searching(g, marks, sorted, [])
    ensures |marks| == |g| && forall i :: 0 <= i < |marks| ==> marks[i] != TempMark
  {
  }

  lemma StillMarked(a: seq<Mark>, b: seq<Mark>, i: nat)
    requires Progress(a, b) && i <= |a| && (forall k :: 0 <= k < i ==> a[k] == Marked)
    ensures |b| == |a| && forall k :: 0 <= k < i ==> b[k] == Marked
  {
  }

  lemma ResolveNothing(names: seq<string>)
    ensures Resolve(names, []) == Some([])
  {
  }

  /** The dependencies of module j have been filled in. */
  ghost predicate Resolved(ms: seq<Module>, j: nat, useStdlib: bool)
    requires j < |ms|
    reads ms
  {
    var d := Depends(Names(ms), ms[j].name, ms[j].imports, useStdlib);
    d.Some? && ms[j].dependencies == At(ms, d.value)
  }

  lemma BuildsGraph(ms: seq<Module>, useStdlib: bool)
    requires DistinctModules(ms) && forall j :: 0 <= j < |ms| ==> Resolved(ms, j, useStdlib)
    ensures AllResolve(ms, useStdlib) && Represents(ms, ImportGraph(ms, useStdlib))
  {
    hide Depends;
    assert AllResolve(ms, useStdlib) by {
      forall j | 0 <= j < |ms| ensures Depends(Names(ms), ms[j].name, ms[j].imports, useStdlib).Some? {
        assert Resolved(ms, j, useStdlib);
      }
    }
    var g := ImportGraph(ms, useStdlib);
    forall j | 0 <= j < |ms|
      ensures |ms[j].dependencies| == |g[j]| && forall k :: 0 <= k < |g[j]| ==> ms[j].dependencies[k] == ms[g[j][k]]
    {
      assert Resolved(ms, j, useStdlib) && Some(g[j]) == Depends(Names(ms), ms[j].name, ms[j].imports, useStdlib);
    }
  }

  lemma WasUnmarked(a: seq<Mark>, b: seq<Mark>, i: nat)
    requires Progress(a, b) && i < |b| && b[i] != Marked
    ensures i < |a| && a[i] != Marked
  {
  }

  lemma AtNothing(ms: seq<Module>)
    ensures At(ms, []) == []
  {
  }

  lemma AtAppend(ms: seq<Module>, s: seq<nat>, i: nat)
    requires (forall k :: 0 <= k < |s| ==> s[k] < |ms|) && i < |ms|
    ensures forall k :: 0 <= k < |s + [i]| ==> (s + [i])[k] < |ms|
    ensures At(ms, s + [i]) == At(ms, s) + [ms[i]]
  {
  }

  lemma SelfProgress(a: seq<Mark>)
    ensures Progress(a, a)
  {
  }

  lemma LeaveProgress(a: seq<Mark>, b: seq<Mark>, i: nat)
    requires i < |a| && a[i] == Unmarked && Progress(a[i := TempMark], b)
    ensures Progress(a, b[i := Marked])
  {
  }

  lemma StackDisjoint(g: Graph, marks: seq<Mark>, sorted: seq<nat>, stack: seq<nat>, i: nat)
    requires Searching(g, marks, sorted, stack) && i < |g| && marks[i] == Unmarked
    ensures i !in stack
  {
  }

  lemma MarkedIsSorted(g: Graph, marks: seq<Mark>, sorted: seq<nat>, stack: seq<nat>, i: nat)
    requires Searching(g, marks, sorted, stack) && i < |g| && marks[i] == Marked
    ensures i in sorted
  {
  }
}
