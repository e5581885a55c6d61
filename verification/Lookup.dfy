/** Name lookup in symbol tables and in the modules a module depends on:
    `symbol_table_lookup_record`, `symbol_table_add_node` and
    `symbol_table_add_record` of src/analyzer/symbol_table.c. */
module Lookup {
  import opened Wrappers
  import opened DepGraph

  /** What an identifier stands for; `node` names the syntax node. */
  datatype Record = Record(id: string, node: nat)

  /** `mod` is the module of the table, and `None` for a root table. */
  datatype Table = Table(records: map<string, Record>, parent: Option<nat>, mod: Option<nat>)

  datatype ModuleInfo = ModuleInfo(name: string, table: nat, dependencies: seq<nat>)

  function GraphOf(mods: seq<ModuleInfo>): (g: Graph)
    ensures |g| == |mods| && forall i :: 0 <= i < |g| ==> g[i] == mods[i].dependencies
  {
    seq(|mods|, i requires 0 <= i < |mods| => mods[i].dependencies)
  }

  /** A parent is made before its children, and a module's own table belongs to it
      (or is a root table). */
  ghost predicate TablesOk(tables: seq<Table>, mods: seq<ModuleInfo>) {
    && (forall t :: 0 <= t < |tables| ==>
          && (tables[t].parent.Some? ==> tables[t].parent.value < t)
          && (tables[t].mod.Some? ==> tables[t].mod.value < |mods|))
    && WellFormed(GraphOf(mods))
    && (forall m :: 0 <= m < |mods| ==>
          mods[m].table < |tables| && (tables[mods[m].table].mod.Some? ==> tables[mods[m].table].mod.value == m))
  }

  /** Dependency resolution has succeeded with this order. */
  ghost predicate Ordered(mods: seq<ModuleInfo>, order: seq<nat>) {
    TopologicalOrder(GraphOf(mods), order)
  }

  ghost function TableRank(t: nat, tables: seq<Table>, mods: seq<ModuleInfo>, order: seq<nat>): nat
    requires TablesOk(tables, mods) && Ordered(mods, order) && t < |tables|
  {
    if tables[t].mod.None? then 0 else 1 + Rank(order, tables[t].mod.value)
  }

  /** The tables around `t`, innermost first. */
  ghost function Chain(t: nat, tables: seq<Table>, mods: seq<ModuleInfo>): (c: seq<nat>)
    requires TablesOk(tables, mods) && t < |tables|
    ensures forall k :: 0 <= k < |c| ==> c[k] < |tables|
    decreases t
  {
    [t] + if tables[t].parent.Some? then Chain(tables[t].parent.value, tables, mods) else []
  }

  /** All tables that a lookup of `id` from `t` may search, in order: the chain, then
      the dependencies of the module depth first, leaving out each one called `id`. */
  ghost function SearchOrder(t: nat, id: string, tables: seq<Table>, mods: seq<ModuleInfo>, order: seq<nat>): (c: seq<nat>)
    requires TablesOk(tables, mods) && Ordered(mods, order) && t < |tables|
    ensures forall k :: 0 <= k < |c| ==> c[k] < |tables|
    decreases TableRank(t, tables, mods, order), 0
  {
    Chain(t, tables, mods)
    + if tables[t].mod.Some? then DependencyOrder(tables[t].mod.value, 0, id, tables, mods, order) else []
  }

  ghost function DependencyOrder(m: nat, k: nat, id: string, tables: seq<Table>, mods: seq<ModuleInfo>, order: seq<nat>): (c: seq<nat>)
    requires TablesOk(tables, mods) && Ordered(mods, order) && m < |mods| && k <= |mods[m].dependencies|
    ensures forall j :: 0 <= j < |c| ==> c[j] < |tables|
    decreases Rank(order, m), 1, |mods[m].dependencies| - k
  {
    if k == |mods[m].dependencies| then []
    else
      var d := mods[m].dependencies[k];
      RankOfDependency(GraphOf(mods), order, m, GraphOf(mods)[m][k]);
      (if mods[d].name == id then [] else SearchOrder(mods[d].table, id, tables, mods, order))
      + DependencyOrder(m, k + 1, id, tables, mods, order)
  }

  /** The first record for `id` in these tables. */
  ghost function FirstHit(s: seq<nat>, id: string, tables: seq<Table>): (r: Option<Record>)
    requires forall k :: 0 <= k < |s| ==> s[k] < |tables|
  {
    if s == [] then None
    else if id in tables[s[0]].records then Some(tables[s[0]].records[id])
    else FirstHit(s[1..], id, tables)
  }

  lemma {:induction false} FirstHitConcat(a: seq<nat>, b: seq<nat>, id: string, tables: seq<Table>)
    requires forall k :: 0 <= k < |a| ==> a[k] < |tables|
    requires forall k :: 0 <= k < |b| ==> b[k] < |tables|
    ensures FirstHit(a + b, id, tables) == if FirstHit(a, id, tables).Some? then FirstHit(a, id, tables) else FirstHit(b, id, tables)
  {
    if a == [] {
      assert a + b == b;
    } else {
      assert (a + b)[1..] == a[1..] + b;
      FirstHitConcat(a[1..], b, id, tables);
    }
  }

  lemma NoHit(id: string, tables: seq<Table>)
    ensures FirstHit([], id, tables) == None
  {
  }

  /** A record in the table itself is found first. */
  lemma OwnHit(t: nat, id: string, tables: seq<Table>, mods: seq<ModuleInfo>, order: seq<nat>)
    requires TablesOk(tables, mods) && Ordered(mods, order) && t < |tables|
    ensures id in tables[t].records ==> FirstHit(SearchOrder(t, id, tables, mods, order), id, tables) == Some(tables[t].records[id])
  {
    hide TopologicalOrder;
  }

  class SymbolTables {
    var tables: seq<Table>
    const mods: seq<ModuleInfo>

    constructor (tables: seq<Table>, mods: seq<ModuleInfo>)
      ensures this.tables == tables && this.mods == mods
    {
      this.tables, this.mods := tables, mods;
    }

    /** `symbol_table_lookup_record`. */
    method LookupRecord(t: nat, id: string, ghost order: seq<nat>) returns (rec: Option<Record>, atFirst: bool)
      requires TablesOk(tables, mods) && Ordered(mods, order) && t < |tables|
      ensures rec == FirstHit(SearchOrder(t, id, tables, mods, order), id, tables)
      ensures atFirst <==> id in tables[t].records
      decreases TableRank(t, tables, mods, order), 0
    {
      hide TopologicalOrder;
      atFirst := false;
      ghost var all := SearchOrder(t, id, tables, mods, order);
      if id in tables[t].records {
        return Some(tables[t].records[id]), true;
      }
      rec := LookupParents(t, id);
      ghost var rest := if tables[t].mod.Some? then DependencyOrder(tables[t].mod.value, 0, id, tables, mods, order) else [];
      FirstHitConcat(Chain(t, tables, mods), rest, id, tables);
      if rec == None && tables[t].mod.Some? {
        rec := LookupDependencies(t, id, order);
      }
    }

    /** The loop over the parents, up to the root. */
    method LookupParents(t: nat, id: string) returns (rec: Option<Record>)
      requires TablesOk(tables, mods) && t < |tables| && id !in tables[t].records
      ensures rec == FirstHit(Chain(t, tables, mods), id, tables)
    {
      var lp := t;
      rec := None;
      while rec == None && tables[lp].parent.Some?
        invariant 0 <= lp < |tables|
        invariant rec == None ==>
            id !in tables[lp].records && FirstHit(Chain(t, tables, mods), id, tables) == FirstHit(Chain(lp, tables, mods), id, tables)
        invariant rec != None ==> rec == FirstHit(Chain(t, tables, mods), id, tables)
        decreases lp
      {
        ghost var p := tables[lp].parent.value;
        assert Chain(lp, tables, mods)[1..] == Chain(p, tables, mods);
        lp := tables[lp].parent.value;
        rec := if id in tables[lp].records then Some(tables[lp].records[id]) else None;
      }
    }

    /** The loop over the modules that the module of `t` depends on. */
    method LookupDependencies(t: nat, id: string, ghost order: seq<nat>) returns (rec: Option<Record>)
      requires TablesOk(tables, mods) && Ordered(mods, order) && t < |tables| && tables[t].mod.Some?
      ensures rec == FirstHit(DependencyOrder(tables[t].mod.value, 0, id, tables, mods, order), id, tables)
      decreases Rank(order, tables[t].mod.value), 1
    {
      hide TopologicalOrder, FirstHit, SearchOrder;
      var m := tables[t].mod.value;
      var k := 0;
      while k < |mods[m].dependencies|
        invariant 0 <= k <= |mods[m].dependencies|
        invariant FirstHit(DependencyOrder(m, 0, id, tables, mods, order), id, tables) ==
                  FirstHit(DependencyOrder(m, k, id, tables, mods, order), id, tables)
      {
        var d := mods[m].dependencies[k];
        RankOfDependency(GraphOf(mods), order, m, GraphOf(mods)[m][k]);
        assert d < |mods|;
        ghost var now := if mods[d].name == id then [] else SearchOrder(mods[d].table, id, tables, mods, order);
        FirstHitConcat(now, DependencyOrder(m, k + 1, id, tables, mods, order), id, tables);
        NoHit(id, tables);
        var atFirst;
        rec, atFirst := LookupRecord(mods[d].table, id, order);
        if rec != None && id != mods[d].name {
          return;
        }
        k := k + 1;
      }
      NoHit(id, tables);
      return None;
    }

    /** `symbol_table_add_node`: refused when the table itself has the identifier. */
    method AddNode(t: nat, id: string, node: nat, ghost order: seq<nat>) returns (ok: bool)
      requires TablesOk(tables, mods) && Ordered(mods, order) && t < |tables|
      modifies this
      ensures ok <==> id !in old(tables)[t].records
      ensures tables == if ok then WithRecord(old(tables), t, Record(id, node)) else old(tables)
    {
      OwnHit(t, id, tables, mods, order);
      var rec, atFirst := LookupRecord(t, id, order);
      if rec != None && atFirst {
        return false;
      }
      tables := tables[t := tables[t].(records := tables[t].records[id := Record(id, node)])];
      return true;
    }
  }

  function WithRecord(tables: seq<Table>, t: nat, r: Record): (s: seq<Table>)
    requires t < |tables|
    ensures |s| == |tables|
  {
    tables[t := tables[t].(records := tables[t].records[r.id := r])]
  }

  // ---------------------------------------------------------------- what adding a record changes

  /** The hit is the first table of the list that has the identifier. */
  lemma {:induction false} FirstHitIsFirst(s: seq<nat>, id: string, tables: seq<Table>, k: nat)
    requires forall j :: 0 <= j < |s| ==> s[j] < |tables|
    requires k < |s| && id in tables[s[k]].records && forall j :: 0 <= j < k ==> id !in tables[s[j]].records
    ensures FirstHit(s, id, tables) == Some(tables[s[k]].records[id])
  {
    if k > 0 {
      FirstHitIsFirst(s[1..], id, tables, k - 1);
    }
  }

  lemma {:induction false} NoHitIffNone(s: seq<nat>, id: string, tables: seq<Table>)
    requires forall j :: 0 <= j < |s| ==> s[j] < |tables|
    ensures FirstHit(s, id, tables).None? <==> forall j :: 0 <= j < |s| ==> id !in tables[s[j]].records
  {
    if s != [] {
      NoHitIffNone(s[1..], id, tables);
      if forall j :: 0 <= j < |s| ==> id !in tables[s[j]].records {
        assert forall j :: 0 <= j < |s[1..]| ==> s[1..][j] == s[j + 1];
      } else {
        var j :| 0 <= j < |s| && id in tables[s[j]].records;
        assert j > 0 ==> s[1..][j - 1] == s[j];
      }
    }
  }

  /** An enclosing binding wins over those further out and over all imports. */
  lemma InnermostWins(t: nat, id: string, tables: seq<Table>, mods: seq<ModuleInfo>, order: seq<nat>, k: nat)
    requires TablesOk(tables, mods) && Ordered(mods, order) && t < |tables|
    requires k < |Chain(t, tables, mods)| && id in tables[Chain(t, tables, mods)[k]].records
    requires forall j :: 0 <= j < k ==> id !in tables[Chain(t, tables, mods)[j]].records
    ensures FirstHit(SearchOrder(t, id, tables, mods, order), id, tables) == Some(tables[Chain(t, tables, mods)[k]].records[id])
  {
    hide TopologicalOrder, TablesOk, DependencyOrder;
    var s := SearchOrder(t, id, tables, mods, order);
    assert Chain(t, tables, mods) <= s;
    FirstHitIsFirst(s, id, tables, k);
  }

  // ---------------------------------------------------------------- which tables are searched

  /** The chain goes from a table to its parent, up to the root. */
  lemma {:induction false} ChainIs(t: nat, tables: seq<Table>, mods: seq<ModuleInfo>, k: nat)
    requires TablesOk(tables, mods) && t < |tables| && k < |Chain(t, tables, mods)|
    ensures var c := Chain(t, tables, mods);
            c[0] == t && tables[c[k]].parent == if k + 1 < |c| then Some(c[k + 1]) else None
    decreases t
  {
    hide TablesOk;
    ParentOk(t, tables, mods);
    if k > 0 {
      ChainIs(tables[t].parent.value, tables, mods, k - 1);
    } else if tables[t].parent.Some? {
      ChainIs(tables[t].parent.value, tables, mods, 0);
    }
  }

  lemma ParentOk(t: nat, tables: seq<Table>, mods: seq<ModuleInfo>)
    requires TablesOk(tables, mods) && t < |tables|
    ensures tables[t].parent.Some? ==> tables[t].parent.value < t
  {
  }

  ghost predicate ModulesOk(tables: seq<Table>, mods: seq<ModuleInfo>) {
    forall m :: 0 <= m < |mods| ==>
      mods[m].table < |tables| && forall k :: 0 <= k < |mods[m].dependencies| ==> mods[m].dependencies[k] < |mods|
  }

  /** This is so wherever the tables are as they should be. */
  lemma ModulesAreOk(tables: seq<Table>, mods: seq<ModuleInfo>)
    requires TablesOk(tables, mods)
    ensures ModulesOk(tables, mods)
  {
    forall m, k | 0 <= m < |mods| && 0 <= k < |mods[m].dependencies| ensures mods[m].dependencies[k] < |mods| {
      assert GraphOf(mods)[m][k] < |mods|;
    }
  }

  /** A path of modules, each a dependency of the one before and none called `id`, that
      begins at a dependency of m; a module whose table is a root table ends it. */
  ghost predicate Path(m: nat, p: seq<nat>, id: string, tables: seq<Table>, mods: seq<ModuleInfo>)
    requires ModulesOk(tables, mods) && m < |mods|
    decreases |p|
  {
    && p != [] && p[0] in mods[m].dependencies && p[0] < |mods| && mods[p[0]].name != id
    && (|p| > 1 ==> tables[mods[p[0]].table].mod.Some? && Path(p[0], p[1..], id, tables, mods))
  }

  lemma {:induction false} PathEnds(m: nat, p: seq<nat>, id: string, tables: seq<Table>, mods: seq<ModuleInfo>)
    requires ModulesOk(tables, mods) && m < |mods| && Path(m, p, id, tables, mods)
    ensures p[|p| - 1] < |mods|
    decreases |p|
  {
    if |p| > 1 {
      PathEnds(p[0], p[1..], id, tables, mods);
    }
  }

  /** x is around the table of the last module of a path from m. */
  ghost predicate Around(m: nat, p: seq<nat>, x: nat, id: string, tables: seq<Table>, mods: seq<ModuleInfo>)
    requires TablesOk(tables, mods) && ModulesOk(tables, mods) && m < |mods|
  {
    Path(m, p, id, tables, mods) && p[|p| - 1] < |mods| && x in Chain(mods[p[|p| - 1]].table, tables, mods)
  }

  /** x is around t, or around the table of a module that the module of t depends on, at
      any distance. */
  ghost predicate Reachable(t: nat, x: nat, id: string, tables: seq<Table>, mods: seq<ModuleInfo>)
    requires TablesOk(tables, mods) && ModulesOk(tables, mods) && t < |tables|
  {
    || x in Chain(t, tables, mods)
    || (tables[t].mod.Some? && exists p :: Around(tables[t].mod.value, p, x, id, tables, mods))
  }

  lemma {:induction false} DependencySearched(m: nat, k: nat, x: nat, id: string, tables: seq<Table>, mods: seq<ModuleInfo>, order: seq<nat>)
    requires TablesOk(tables, mods) && ModulesOk(tables, mods) && Ordered(mods, order) && m < |mods| && k <= |mods[m].dependencies|
    ensures x in DependencyOrder(m, k, id, tables, mods, order) <==>
              exists j :: k <= j < |mods[m].dependencies| && Searched(m, j, x, id, tables, mods, order)
    decreases |mods[m].dependencies| - k
  {
    hide TopologicalOrder, SearchOrder, TablesOk;
    if k < |mods[m].dependencies| {
      DependencySearched(m, k + 1, x, id, tables, mods, order);
      if Searched(m, k, x, id, tables, mods, order) {
      }
    }
  }

  /** The j-th dependency of m is searched for x. */
  ghost predicate Searched(m: nat, j: nat, x: nat, id: string, tables: seq<Table>, mods: seq<ModuleInfo>, order: seq<nat>)
    requires TablesOk(tables, mods) && ModulesOk(tables, mods) && Ordered(mods, order) && m < |mods| && j < |mods[m].dependencies|
  {
    var d := mods[m].dependencies[j];
    mods[d].name != id && x in SearchOrder(mods[d].table, id, tables, mods, order)
  }

  lemma OwnMod(d: nat, tables: seq<Table>, mods: seq<ModuleInfo>)
    requires TablesOk(tables, mods) && d < |mods|
    ensures mods[d].table < |tables|
    ensures tables[mods[d].table].mod.Some? ==> tables[mods[d].table].mod.value == d
  {
  }

  lemma LowerRank(t: nat, d: nat, tables: seq<Table>, mods: seq<ModuleInfo>, order: seq<nat>)
    requires TablesOk(tables, mods) && Ordered(mods, order) && t < |tables| && tables[t].mod.Some?
    requires d in mods[tables[t].mod.value].dependencies && d < |mods| && mods[d].table < |tables|
    ensures TableRank(mods[d].table, tables, mods, order) < TableRank(t, tables, mods, order)
  {
    hide TopologicalOrder;
    OwnMod(d, tables, mods);
    assert d in GraphOf(mods)[tables[t].mod.value];
    RankOfDependency(GraphOf(mods), order, tables[t].mod.value, d);
  }

  /** What is reachable from the table of a dependency. */
  lemma ReachableStep(m: nat, d: nat, x: nat, id: string, tables: seq<Table>, mods: seq<ModuleInfo>)
    requires TablesOk(tables, mods) && ModulesOk(tables, mods) && m < |mods|
    requires d in mods[m].dependencies && d < |mods| && mods[d].name != id
    ensures Reachable(mods[d].table, x, id, tables, mods) <==> exists p :: p != [] && Around(m, p, x, id, tables, mods) && p[0] == d
  {
    hide TablesOk, ModulesOk, Chain;
    OwnMod(d, tables, mods);
    if x in Chain(mods[d].table, tables, mods) {
      assert Around(m, [d], x, id, tables, mods) && [d][0] == d;
    } else if Reachable(mods[d].table, x, id, tables, mods) {
      var p :| Around(d, p, x, id, tables, mods);
      assert ([d] + p)[1..] == p;
      assert Around(m, [d] + p, x, id, tables, mods) && ([d] + p)[0] == d;
    }
    if p :| p != [] && Around(m, p, x, id, tables, mods) && p[0] == d {
      if |p| > 1 {
        assert Around(d, p[1..], x, id, tables, mods);
      }
    }
  }

  /** Exactly the reachable tables are searched. */
  lemma {:induction false} SearchedIff(t: nat, x: nat, id: string, tables: seq<Table>, mods: seq<ModuleInfo>, order: seq<nat>)
    requires TablesOk(tables, mods) && ModulesOk(tables, mods) && Ordered(mods, order) && t < |tables|
    ensures x in SearchOrder(t, id, tables, mods, order) <==> Reachable(t, x, id, tables, mods)
    decreases TableRank(t, tables, mods, order)
  {
    hide TopologicalOrder, DependencyOrder, TablesOk, ModulesOk, Around, Chain;
    InMods(t, tables, mods);
    if tables[t].mod.Some? {
      var m := tables[t].mod.value;
      DependencySearched(m, 0, x, id, tables, mods, order);
      forall j | 0 <= j < |mods[m].dependencies|
        ensures Searched(m, j, x, id, tables, mods, order) <==>
                  exists p :: p != [] && Around(m, p, x, id, tables, mods) && p[0] == mods[m].dependencies[j]
      {
        SearchedStep(t, m, j, x, id, tables, mods, order);
      }
      if p :| Around(m, p, x, id, tables, mods) {
        FirstStep(m, p, x, id, tables, mods);
      }
    }
  }

  lemma InMods(t: nat, tables: seq<Table>, mods: seq<ModuleInfo>)
    requires TablesOk(tables, mods) && t < |tables|
    ensures tables[t].mod.Some? ==> tables[t].mod.value < |mods|
  {
  }

  lemma FirstStep(m: nat, p: seq<nat>, x: nat, id: string, tables: seq<Table>, mods: seq<ModuleInfo>)
    requires TablesOk(tables, mods) && ModulesOk(tables, mods) && m < |mods| && Around(m, p, x, id, tables, mods)
    ensures p != [] && exists j :: 0 <= j < |mods[m].dependencies| && mods[m].dependencies[j] == p[0]
  {
  }

  lemma {:induction false} SearchedStep(t: nat, m: nat, j: nat, x: nat, id: string, tables: seq<Table>, mods: seq<ModuleInfo>, order: seq<nat>)
    requires TablesOk(tables, mods) && ModulesOk(tables, mods) && Ordered(mods, order) && t < |tables|
    requires tables[t].mod == Some(m) && m < |mods| && j < |mods[m].dependencies|
    ensures Searched(m, j, x, id, tables, mods, order) <==>
              exists p :: p != [] && Around(m, p, x, id, tables, mods) && p[0] == mods[m].dependencies[j]
    decreases TableRank(t, tables, mods, order), 0
  {
    hide TopologicalOrder, SearchOrder, TablesOk, Chain, Reachable;
    var d := mods[m].dependencies[j];
    OwnMod(d, tables, mods);
    if mods[d].name != id {
      LowerRank(t, d, tables, mods, order);
      SearchedIff(mods[d].table, x, id, tables, mods, order);
      ReachableStep(m, d, x, id, tables, mods);
    }
  }

  // ---------------------------------------------------------------- what a lookup answers

  /** Nothing is found if and only if no reachable table has the name. */
  lemma NothingFoundIff(t: nat, id: string, tables: seq<Table>, mods: seq<ModuleInfo>, order: seq<nat>)
    requires TablesOk(tables, mods) && ModulesOk(tables, mods) && Ordered(mods, order) && t < |tables|
    ensures FirstHit(SearchOrder(t, id, tables, mods, order), id, tables) == None <==>
              forall x :: 0 <= x < |tables| && Reachable(t, x, id, tables, mods) ==> id !in tables[x].records
  {
    hide TopologicalOrder, SearchOrder, TablesOk, ModulesOk, Reachable, FirstHit;
    var s := SearchOrder(t, id, tables, mods, order);
    NoHitIffNone(s, id, tables);
    forall x: nat ensures x in s <==> Reachable(t, x, id, tables, mods) {
      SearchedIff(t, x, id, tables, mods, order);
    }
    if forall j :: 0 <= j < |s| ==> id !in tables[s[j]].records {
      forall x | 0 <= x < |tables| && Reachable(t, x, id, tables, mods) ensures id !in tables[x].records {
        assert x in s;
      }
    } else {
      var j :| 0 <= j < |s| && id in tables[s[j]].records;
      assert s[j] in s;
    }
  }

  /** The answer of the j-th dependency of m, if it is asked. */
  ghost function Asked(m: nat, j: nat, id: string, tables: seq<Table>, mods: seq<ModuleInfo>, order: seq<nat>): Option<Record>
    requires TablesOk(tables, mods) && ModulesOk(tables, mods) && Ordered(mods, order) && m < |mods| && j < |mods[m].dependencies|
  {
    var d := mods[m].dependencies[j];
    if mods[d].name == id then None else FirstHit(SearchOrder(mods[d].table, id, tables, mods, order), id, tables)
  }

  lemma {:induction false} FirstAsked(m: nat, k: nat, id: string, tables: seq<Table>, mods: seq<ModuleInfo>, order: seq<nat>, j: nat)
    requires TablesOk(tables, mods) && ModulesOk(tables, mods) && Ordered(mods, order) && m < |mods|
    requires k <= j <= |mods[m].dependencies| && forall i :: k <= i < j ==> Asked(m, i, id, tables, mods, order) == None
    requires j < |mods[m].dependencies| ==> Asked(m, j, id, tables, mods, order).Some?
    ensures FirstHit(DependencyOrder(m, k, id, tables, mods, order), id, tables) ==
              if j < |mods[m].dependencies| then Asked(m, j, id, tables, mods, order) else None
    decreases |mods[m].dependencies| - k
  {
    hide TopologicalOrder, TablesOk, Chain;
    NoHit(id, tables);
    if k < |mods[m].dependencies| {
      var d := mods[m].dependencies[k];
      OwnMod(d, tables, mods);
      var now := if mods[d].name == id then [] else SearchOrder(mods[d].table, id, tables, mods, order);
      FirstHitConcat(now, DependencyOrder(m, k + 1, id, tables, mods, order), id, tables);
      assert DependencyOrder(m, k, id, tables, mods, order) == now + DependencyOrder(m, k + 1, id, tables, mods, order);
      assert FirstHit(now, id, tables) == Asked(m, k, id, tables, mods, order);
      if k < j {
        FirstAsked(m, k + 1, id, tables, mods, order, j);
      }
    }
  }

  /** When no table around t has the name, the answer is that of the first dependency, in
      list order, that is not called so and whose own table's lookup finds it. */
  lemma FirstDependencyWins(t: nat, id: string, tables: seq<Table>, mods: seq<ModuleInfo>, order: seq<nat>, j: nat)
    requires TablesOk(tables, mods) && ModulesOk(tables, mods) && Ordered(mods, order) && t < |tables|
    requires forall x :: x in Chain(t, tables, mods) ==> id !in tables[x].records
    requires tables[t].mod.Some? && tables[t].mod.value < |mods|
    requires var m := tables[t].mod.value;
             && j <= |mods[m].dependencies| && (forall i :: 0 <= i < j ==> Asked(m, i, id, tables, mods, order) == None)
             && (j < |mods[m].dependencies| ==> Asked(m, j, id, tables, mods, order).Some?)
    ensures var m := tables[t].mod.value;
            FirstHit(SearchOrder(t, id, tables, mods, order), id, tables) ==
              if j < |mods[m].dependencies| then Asked(m, j, id, tables, mods, order) else None
  {
    hide TopologicalOrder, DependencyOrder, TablesOk, ModulesOk, FirstHit, Chain;
    var m, c := tables[t].mod.value, Chain(t, tables, mods);
    NoHitIffNone(c, id, tables);
    FirstHitConcat(c, DependencyOrder(m, 0, id, tables, mods, order), id, tables);
    FirstAsked(m, 0, id, tables, mods, order, j);
  }

  /** Tables that differ in their records only are searched in the same order. */
  ghost predicate SameShape(a: seq<Table>, b: seq<Table>) {
    |a| == |b| && forall t :: 0 <= t < |a| ==> a[t].parent == b[t].parent && a[t].mod == b[t].mod
  }

  lemma {:induction false} SameChain(t: nat, a: seq<Table>, b: seq<Table>, mods: seq<ModuleInfo>)
    requires TablesOk(a, mods) && TablesOk(b, mods) && SameShape(a, b) && t < |a|
    ensures Chain(t, a, mods) == Chain(t, b, mods)
    decreases t
  {
    if a[t].parent.Some? {
      SameChain(a[t].parent.value, a, b, mods);
    }
  }

  lemma {:induction false} SameOrder(t: nat, id: string, a: seq<Table>, b: seq<Table>, mods: seq<ModuleInfo>, order: seq<nat>)
    requires TablesOk(a, mods) && TablesOk(b, mods) && SameShape(a, b) && Ordered(mods, order) && t < |a|
    ensures SearchOrder(t, id, a, mods, order) == SearchOrder(t, id, b, mods, order)
    decreases TableRank(t, a, mods, order), 0
  {
    hide TopologicalOrder;
    SameChain(t, a, b, mods);
    if a[t].mod.Some? {
      SameDependencyOrder(a[t].mod.value, 0, id, a, b, mods, order);
    }
  }

  lemma {:induction false} SameDependencyOrder(m: nat, k: nat, id: string, a: seq<Table>, b: seq<Table>, mods: seq<ModuleInfo>, order: seq<nat>)
    requires TablesOk(a, mods) && TablesOk(b, mods) && SameShape(a, b) && Ordered(mods, order)
    requires m < |mods| && k <= |mods[m].dependencies|
    ensures DependencyOrder(m, k, id, a, mods, order) == DependencyOrder(m, k, id, b, mods, order)
    decreases Rank(order, m), 1, |mods[m].dependencies| - k
  {
    hide TopologicalOrder, SearchOrder;
    if k < |mods[m].dependencies| {
      var d := mods[m].dependencies[k];
      RankOfDependency(GraphOf(mods), order, m, GraphOf(mods)[m][k]);
      if mods[d].name != id {
        SameOrder(mods[d].table, id, a, b, mods, order);
      }
      SameDependencyOrder(m, k + 1, id, a, b, mods, order);
    }
  }

  lemma {:induction false} HitFrame(s: seq<nat>, id: string, a: seq<Table>, t: nat, r: Record)
    requires t < |a| && forall j :: 0 <= j < |s| ==> s[j] < |a|
    requires id != r.id || t !in s
    ensures FirstHit(s, id, WithRecord(a, t, r)) == FirstHit(s, id, a)
  {
    if s != [] {
      assert s[0] in s;
      HitFrame(s[1..], id, a, t, r);
    }
  }

  /** A record added to table t is what a lookup from t then finds, and it changes
      no lookup of another identifier and none that does not search t. */
  lemma AddedRecord(t: nat, r: Record, tables: seq<Table>, mods: seq<ModuleInfo>, order: seq<nat>, t': nat, id': string)
    requires TablesOk(tables, mods) && Ordered(mods, order) && t < |tables| && t' < |tables|
    ensures var b := WithRecord(tables, t, r);
            && TablesOk(b, mods)
            && FirstHit(SearchOrder(t, r.id, b, mods, order), r.id, b) == Some(r)
            && (id' != r.id || t !in SearchOrder(t', id', tables, mods, order) ==>
                  FirstHit(SearchOrder(t', id', b, mods, order), id', b) ==
                  FirstHit(SearchOrder(t', id', tables, mods, order), id', tables))
  {
    hide TopologicalOrder, SearchOrder;
    var b := WithRecord(tables, t, r);
    OwnHit(t, r.id, b, mods, order);
    SameOrder(t', id', tables, b, mods, order);
    if id' != r.id || t !in SearchOrder(t', id', tables, mods, order) {
      HitFrame(SearchOrder(t', id', tables, mods, order), id', tables, t, r);
    }
  }
}
