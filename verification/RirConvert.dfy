/** Conversion of a boolean to a string: src/ir/rir_convert.c (`rir_convert_init`).

    The conversion cannot be done by one instruction.  It splits the block being
    filled: a conditional branch leads to one of two new blocks, each of which
    writes its literal to the same memory and branches to a third new block, where
    the rest of the function goes on.  The graph that results from any run of
    conversions is proved well formed and is followed, from any state, to the
    strings that the conditions call for. */
module RirConvert {
  import opened Wrappers

  /** `Define` stands for whatever instruction leaves a boolean in a temporary. */
  datatype Instr = Define(dst: nat, b: bool) | Alloca(dst: nat) | Write(mem: nat, s: string)

  datatype Exit =
    | Invalid
    | Branch(dst: Block)
    | CondBranch(cond: nat, taken: Block, fallthrough: Block)
    | Return

  class Block {
    var expressions: seq<Instr>
    var exit: Exit
    const name: nat

    constructor (name: nat)
      ensures expressions == [] && exit == Invalid && this.name == name
    {
      expressions, exit := [], Invalid;
      this.name := name;
    }
  }

  /** A value to convert: a boolean constant, a boolean in a temporary, or a value
      that the compiler has no conversion for. */
  datatype Value = Constant(b: bool) | Temp(id: nat) | Unsupported

  datatype Object = Literal(s: string) | Memory(id: nat)

  // ---------------------------------------------------------------- what a graph of blocks does

  /** Strings are `None` between allocation and the first write. */
  datatype State = State(bools: map<nat, bool>, strings: map<nat, Option<string>>)

  datatype Shape = Shape(code: seq<Instr>, exit: Exit)

  type Graph = map<Block, Shape>

  ghost function Snapshot(bs: set<Block>): (g: Graph)
    reads bs
    ensures g.Keys == bs
  {
    map b | b in bs :: Shape(b.expressions, b.exit)
  }

  function Step(i: Instr, st: State): Option<State> {
    match i
    case Define(dst, b) => Some(st.(bools := st.bools[dst := b]))
    case Alloca(dst) => Some(st.(strings := st.strings[dst := None]))
    case Write(mem, s) => if mem in st.strings then Some(st.(strings := st.strings[mem := Some(s)])) else None
  }

  function Run(code: seq<Instr>, st: State): Option<State> {
    if code == [] then Some(st)
    else
      var before := Run(code[..|code| - 1], st);
      if before.None? then None else Step(code[|code| - 1], before.value)
  }

  lemma RunMore(code: seq<Instr>, i: Instr, st: State)
    ensures Run(code + [i], st) == if Run(code, st).None? then None else Step(i, Run(code, st).value)
  {
    assert (code + [i])[..|code|] == code;
  }

  /** Where control goes at the end of a block. */
  ghost function Successor(exit: Exit, st: State): Option<Block> {
    match exit
    case Branch(dst) => Some(dst)
    case CondBranch(cond, taken, fallthrough) =>
      if cond !in st.bools then None else if st.bools[cond] then Some(taken) else Some(fallthrough)
    case Invalid => None
    case Return => None
  }

  /** The block reached from `start` after n jumps, and the state at its end. */
  ghost function Follow(g: Graph, start: Block, st: State, n: nat): Option<(Block, State)> {
    if n == 0 then Execute(g, start, st)
    else
      var r := Follow(g, start, st, n - 1);
      if r.None? || r.value.0 !in g then None
      else
        var next := Successor(g[r.value.0].exit, r.value.1);
        if next.None? then None else Execute(g, next.value, r.value.1)
  }

  ghost function Execute(g: Graph, b: Block, st: State): Option<(Block, State)> {
    if b !in g then None
    else
      var r := Run(g[b].code, st);
      if r.None? then None else Some((b, r.value))
  }

  /** Two graphs agree on every block of the first but one, which is open in the first. */
  ghost predicate SameBut(g: Graph, g': Graph, open: Block) {
    && open in g && g[open].exit == Invalid
    && forall b :: b in g && b != open ==> b in g' && g'[b] == g[b]
  }

  lemma {:induction false} SameBefore(g: Graph, g': Graph, open: Block, start: Block, st: State, n: nat)
    requires SameBut(g, g', open)
    requires Follow(g, start, st, n).Some? && Follow(g, start, st, n).value.0 != open
    ensures Follow(g', start, st, n) == Follow(g, start, st, n)
  {
    hide Run;
    if n > 0 {
      SameBefore(g, g', open, start, st, n - 1);
    }
  }

  /** A run that has come to the open block runs the instructions added to it. */
  lemma ReachesOpen(g: Graph, g': Graph, open: Block, start: Block, st: State, n: nat, i: Instr)
    requires SameBut(g, g', open) && open in g' && g'[open].code == g[open].code + [i]
    requires Follow(g, start, st, n).Some? && Follow(g, start, st, n).value.0 == open
    requires Step(i, Follow(g, start, st, n).value.1).Some?
    ensures Follow(g', start, st, n) == Some((open, Step(i, Follow(g, start, st, n).value.1).value))
  {
    hide Run, Step;
    if n == 0 {
      RunMore(g[open].code, i, st);
    } else {
      var r := Follow(g, start, st, n - 1);
      SameBefore(g, g', open, start, st, n - 1);
      RunMore(g[open].code, i, r.value.1);
    }
  }

  // ---------------------------------------------------------------- one conversion, on graphs

  /** The shape that one conversion gives the graph. */
  ghost predicate Diamond(g: Graph, g': Graph, prev: Block, cond: nat, mem: nat, taken: Block, fallthrough: Block, after: Block) {
    && SameBut(g, g', prev)
    && taken !in g && fallthrough !in g && after !in g
    && taken != fallthrough && taken != after && fallthrough != after
    && g'.Keys == g.Keys + {taken, fallthrough, after}
    && g'[prev] == Shape(g[prev].code + [Alloca(mem)], CondBranch(cond, taken, fallthrough))
    && g'[taken] == Shape([Write(mem, "true")], Branch(after))
    && g'[fallthrough] == Shape([Write(mem, "false")], Branch(after))
    && g'[after] == Shape([], Invalid)
  }

  /** The state after the conversion of `cond` into `mem`. */
  function Converted(st: State, cond: nat, mem: nat): State
    requires cond in st.bools
  {
    st.(strings := st.strings[mem := Some(if st.bools[cond] then "true" else "false")])
  }

  lemma DiamondRuns(g: Graph, g': Graph, prev: Block, cond: nat, mem: nat, taken: Block, fallthrough: Block, after: Block,
                    start: Block, st: State, n: nat, s: State)
    requires Diamond(g, g', prev, cond, mem, taken, fallthrough, after)
    requires Follow(g, start, st, n) == Some((prev, s)) && cond in s.bools
    ensures Follow(g', start, st, n + 2) == Some((after, Converted(s, cond, mem)))
    ensures Converted(s, cond, mem).bools == s.bools && Converted(s, cond, mem).strings.Keys == s.strings.Keys + {mem}
    ensures Converted(s, cond, mem).strings[mem] == Some("true") <==> s.bools[cond]
    ensures Converted(s, cond, mem).strings[mem] == Some("false") <==> !s.bools[cond]
    ensures forall m :: m in s.strings && m != mem ==> Converted(s, cond, mem).strings[m] == s.strings[m]
  {
    hide Follow;
    ReachesOpen(g, g', prev, start, st, n, Alloca(mem));
    var s1 := s.(strings := s.strings[mem := None]);
    assert Follow(g', start, st, n) == Some((prev, s1));
    var b := if s.bools[cond] then taken else fallthrough;
    FollowMore(g', start, st, n, prev, s1, b);
    var text := if s.bools[cond] then "true" else "false";
    WriteRuns(mem, text, s1);
    var s2 := s1.(strings := s1.strings[mem := Some(text)]);
    assert Follow(g', start, st, n + 1) == Some((b, s2));
    FollowMore(g', start, st, n + 1, b, s2, after);
    assert s2.strings == Converted(s, cond, mem).strings;
  }

  lemma FollowMore(g: Graph, start: Block, st: State, n: nat, b: Block, s: State, next: Block)
    requires Follow(g, start, st, n) == Some((b, s)) && b in g && Successor(g[b].exit, s) == Some(next)
    ensures Follow(g, start, st, n + 1) == Execute(g, next, s)
  {
  }

  lemma WriteRuns(mem: nat, s: string, st: State)
    requires mem in st.strings
    ensures Run([Write(mem, s)], st) == Some(st.(strings := st.strings[mem := Some(s)]))
  {
    assert [Write(mem, s)][..0] == [];
  }

  // ---------------------------------------------------------------- a run of the lowering, on graphs

  /** What the lowering does between two points: it emits an instruction that leaves a
      boolean in a new temporary, or converts a temporary into a new memory.  Both take
      the next number. */
  datatype Act = Emit(b: bool) | ToString(cond: nat)

  function Conversions(acts: seq<Act>): nat {
    if acts == [] then 0
    else Conversions(acts[..|acts| - 1]) + if acts[|acts| - 1].ToString? then 1 else 0
  }

  /** What the acts call for, from a given state; the i-th has the number first + i.
      `None` when a boolean converted is not there. */
  function Effect(st: State, acts: seq<Act>, first: nat): Option<State> {
    if acts == [] then Some(st)
    else
      var k := |acts| - 1;
      var before := Effect(st, acts[..k], first);
      if before.None? then None
      else
        match acts[k]
        case Emit(b) => Some(before.value.(bools := before.value.bools[first + k := b]))
        case ToString(cond) => if cond in before.value.bools then Some(Converted(before.value, cond, first + k)) else None
  }

  lemma EffectMore(st: State, acts: seq<Act>, act: Act, first: nat)
    requires Effect(st, acts, first).Some?
    ensures act.Emit? ==>
              Effect(st, acts + [act], first) == Step(Define(first + |acts|, act.b), Effect(st, acts, first).value)
    ensures act.ToString? && act.cond in Effect(st, acts, first).value.bools ==>
              Effect(st, acts + [act], first) == Some(Converted(Effect(st, acts, first).value, act.cond, first + |acts|))
  {
    assert (acts + [act])[..|acts|] == acts;
  }

  lemma EffectLess(st: State, acts: seq<Act>, act: Act, first: nat)
    requires Effect(st, acts + [act], first).Some?
    ensures Effect(st, acts, first).Some?
    ensures act.ToString? ==> act.cond in Effect(st, acts, first).value.bools
  {
    assert (acts + [act])[..|acts|] == acts;
  }

  /** Numbers once defined are not touched again. */
  lemma {:induction false} EffectKeeps(st: State, acts: seq<Act>, first: nat, n: nat, id: nat)
    requires n <= |acts| && Effect(st, acts, first).Some? && id < first + n
    ensures Effect(st, acts[..n], first).Some?
    ensures var s, t := Effect(st, acts[..n], first).value, Effect(st, acts, first).value;
            && (id in s.bools ==> id in t.bools && t.bools[id] == s.bools[id])
            && (id in s.strings ==> id in t.strings && t.strings[id] == s.strings[id])
    decreases |acts|
  {
    if n == |acts| {
      assert acts[..n] == acts;
    } else {
      EffectKeeps(st, acts[..|acts| - 1], first, n, id);
      assert acts[..|acts| - 1][..n] == acts[..n];
    }
  }

  /** So in the end every boolean emitted has its value, every conversion of an earlier
      temporary has the string of that temporary's value, and everything older than the
      run is as it was. */
  lemma AllConverted(st: State, acts: seq<Act>, first: nat, i: nat)
    requires Effect(st, acts, first).Some?
    ensures var t := Effect(st, acts, first).value;
            && (i < |acts| && acts[i].ToString? && acts[i].cond < first + i ==>
                  && first + i in t.strings && acts[i].cond in t.bools
                  && (t.strings[first + i] == Some("true") <==> t.bools[acts[i].cond])
                  && (t.strings[first + i] == Some("false") <==> !t.bools[acts[i].cond]))
            && (i < |acts| && acts[i].Emit? ==> first + i in t.bools && t.bools[first + i] == acts[i].b)
            && (i < first && i in st.strings ==> i in t.strings && t.strings[i] == st.strings[i])
            && (i < first && i in st.bools ==> i in t.bools && t.bools[i] == st.bools[i])
  {
    hide Effect, Converted;
    if i < first {
      NothingDone(st, acts, first);
      EffectKeeps(st, acts, first, 0, i);
    }
    if i < |acts| && acts[i].ToString? && acts[i].cond < first + i {
      EffectKeeps(st, acts, first, i + 1, first + i);
      EffectKeeps(st, acts, first, i + 1, acts[i].cond);
      JustConverted(st, acts, first, i);
    }
    if i < |acts| && acts[i].Emit? {
      EffectKeeps(st, acts, first, i + 1, first + i);
      JustEmitted(st, acts, first, i);
    }
  }

  lemma NothingDone(st: State, acts: seq<Act>, first: nat)
    ensures Effect(st, acts[..0], first) == Some(st)
  {
  }

  lemma JustEmitted(st: State, acts: seq<Act>, first: nat, i: nat)
    requires i < |acts| && acts[i].Emit? && Effect(st, acts[..i + 1], first).Some?
    ensures var t := Effect(st, acts[..i + 1], first).value; first + i in t.bools && t.bools[first + i] == acts[i].b
  {
    hide Effect;
    assert acts[..i + 1] == acts[..i] + [acts[i]];
    EffectLess(st, acts[..i], acts[i], first);
    EffectMore(st, acts[..i], acts[i], first);
  }

  lemma JustConverted(st: State, acts: seq<Act>, first: nat, i: nat)
    requires i < |acts| && acts[i].ToString? && Effect(st, acts[..i + 1], first).Some?
    ensures var t := Effect(st, acts[..i + 1], first).value;
            && first + i in t.strings && acts[i].cond in t.bools
            && t.strings[first + i] == Some(if t.bools[acts[i].cond] then "true" else "false")
  {
    hide Effect;
    assert acts[..i + 1] == acts[..i] + [acts[i]];
    EffectLess(st, acts[..i], acts[i], first);
    EffectMore(st, acts[..i], acts[i], first);
  }

  /** Every boolean converted is there at the beginning or is emitted before. */
  ghost predicate Ready(st: State, acts: seq<Act>, first: nat) {
    forall i :: 0 <= i < |acts| && acts[i].ToString? ==> Emitted(st, acts[..i], first, acts[i].cond)
  }

  ghost predicate Emitted(st: State, acts: seq<Act>, first: nat, id: nat) {
    id in st.bools || (first <= id < first + |acts| && acts[id - first].Emit?)
  }

  lemma {:induction false} BoolsAre(st: State, acts: seq<Act>, first: nat, id: nat)
    requires Effect(st, acts, first).Some?
    ensures id in Effect(st, acts, first).value.bools <==> Emitted(st, acts, first, id)
    decreases |acts|
  {
    if acts != [] {
      BoolsAre(st, acts[..|acts| - 1], first, id);
    }
  }

  lemma {:induction false} EffectIff(st: State, acts: seq<Act>, first: nat)
    ensures Effect(st, acts, first).Some? <==> Ready(st, acts, first)
    decreases |acts|
  {
    if acts != [] {
      hide Emitted;
      var k := |acts| - 1;
      EffectIff(st, acts[..k], first);
      assert forall i :: 0 <= i < k ==> acts[..k][i] == acts[i] && acts[..k][..i] == acts[..i];
      if Effect(st, acts[..k], first).Some? && acts[k].ToString? {
        BoolsAre(st, acts[..k], first, acts[k].cond);
      }
    }
  }

  /** Every run that gets to the end of `start` in `g` with the booleans to convert
      gets to `end` in `g'`, two jumps for each conversion, with what the acts call for. */
  ghost predicate Extends(g: Graph, start: Block, g': Graph, end: Block, acts: seq<Act>, first: nat) {
    forall st: State, s: State ::
      Execute(g, start, st) == Some((start, s)) && Effect(s, acts, first).Some? ==>
      Follow(g', start, st, 2 * Conversions(acts)) == Some((end, Effect(s, acts, first).value))
  }

  lemma NothingExtends(g: Graph, start: Block, first: nat)
    ensures Extends(g, start, g, start, [], first)
  {
  }

  lemma ConversionsMore(acts: seq<Act>, act: Act)
    ensures Conversions(acts + [act]) == Conversions(acts) + if act.ToString? then 1 else 0
  {
    assert (acts + [act])[..|acts|] == acts;
  }

  lemma ExtendsMore(g: Graph, start: Block, g1: Graph, prev: Block, acts: seq<Act>, first: nat,
                    cond: nat, g2: Graph, taken: Block, fallthrough: Block, after: Block)
    requires Extends(g, start, g1, prev, acts, first)
    requires Diamond(g1, g2, prev, cond, first + |acts|, taken, fallthrough, after)
    ensures Extends(g, start, g2, after, acts + [ToString(cond)], first)
  {
    hide Diamond, Follow, Execute, Effect, Converted, Conversions;
    var acts' := acts + [ToString(cond)];
    ConversionsMore(acts, ToString(cond));
    forall st: State, s: State | Execute(g, start, st) == Some((start, s)) && Effect(s, acts', first).Some?
      ensures Follow(g2, start, st, 2 * Conversions(acts')) == Some((after, Effect(s, acts', first).value))
    {
      EffectLess(s, acts, ToString(cond), first);
      EffectMore(s, acts, ToString(cond), first);
      DiamondRuns(g1, g2, prev, cond, first + |acts|, taken, fallthrough, after,
                  start, st, 2 * Conversions(acts), Effect(s, acts, first).value);
    }
  }

  /** One more instruction in the open block. */
  ghost predicate Grown(g: Graph, g': Graph, open: Block, i: Instr) {
    SameBut(g, g', open) && g'.Keys == g.Keys && g'[open] == Shape(g[open].code + [i], Invalid)
  }

  lemma ExtendsEmitted(g: Graph, start: Block, g1: Graph, open: Block, acts: seq<Act>, first: nat, b: bool, g2: Graph)
    requires Extends(g, start, g1, open, acts, first)
    requires Grown(g1, g2, open, Define(first + |acts|, b))
    ensures Extends(g, start, g2, open, acts + [Emit(b)], first)
  {
    hide Follow, Execute, Effect, Conversions;
    var acts' := acts + [Emit(b)];
    ConversionsMore(acts, Emit(b));
    forall st: State, s: State | Execute(g, start, st) == Some((start, s)) && Effect(s, acts', first).Some?
      ensures Follow(g2, start, st, 2 * Conversions(acts')) == Some((open, Effect(s, acts', first).value))
    {
      EffectLess(s, acts, Emit(b), first);
      EffectMore(s, acts, Emit(b), first);
      ReachesOpen(g1, g2, open, start, st, 2 * Conversions(acts), Define(first + |acts|, b));
    }
  }

  // ---------------------------------------------------------------- well-formedness

  ghost predicate TargetsIn(exit: Exit, bs: set<Block>) {
    match exit
    case Branch(dst) => dst in bs
    case CondBranch(_, taken, fallthrough) => taken in bs && fallthrough in bs
    case Invalid => true
    case Return => true
  }

  /** Every block but the current one has its exit, and exits lead to blocks of the graph. */
  ghost predicate Closed(g: Graph, current: Block) {
    && current in g && g[current].exit == Invalid
    && forall b :: b in g ==> TargetsIn(g[b].exit, g.Keys) && (g[b].exit == Invalid ==> b == current)
  }

  lemma DiamondClosed(g: Graph, g': Graph, prev: Block, cond: nat, mem: nat, taken: Block, fallthrough: Block, after: Block)
    requires Diamond(g, g', prev, cond, mem, taken, fallthrough, after) && Closed(g, prev)
    ensures Closed(g', after)
  {
    forall b | b in g' ensures TargetsIn(g'[b].exit, g'.Keys) && (g'[b].exit == Invalid ==> b == after) {
      if b in g && b != prev {
        assert g'[b] == g[b];
      }
    }
  }

  lemma GrownClosed(g: Graph, g': Graph, open: Block, i: Instr)
    requires Grown(g, g', open, i) && Closed(g, open)
    ensures Closed(g', open)
  {
    forall b | b in g' ensures TargetsIn(g'[b].exit, g'.Keys) && (g'[b].exit == Invalid ==> b == open) {
      if b != open {
        assert g'[b] == g[b];
      }
    }
  }

  // ---------------------------------------------------------------- the compiler's side

  /** The lowering context: the function's blocks in order, the block being filled,
      the counters for labels and temporaries, and the program's string literals. */
  class Context {
    var current: Block
    var fnBlocks: seq<Block>
    var labelIdx: nat
    var expressionIdx: nat
    var globals: set<string>
    ghost var blocks: set<Block>

    ghost predicate Valid()
      reads this
    {
      current in blocks
    }

    ghost function Cfg(): (g: Graph)
      reads this, blocks
    {
      Snapshot(blocks)
    }

    constructor ()
      ensures Valid() && fresh(blocks) && fnBlocks == [current] && Closed(Cfg(), current)
      ensures expressionIdx == 0 && globals == {}
    {
      var b := new Block(0);
      current, fnBlocks, blocks := b, [b], {b};
      labelIdx, expressionIdx, globals := 1, 0, {};
    }

    /** A new empty block becomes the current one; it is not yet part of the function. */
    method BlockCreate() returns (b: Block)
      requires Valid()
      modifies this
      ensures Valid() && fresh(b) && current == b && blocks == old(blocks) + {b}
      ensures b.expressions == [] && b.exit == Invalid && b.name == old(labelIdx)
      ensures fnBlocks == old(fnBlocks) && expressionIdx == old(expressionIdx) && globals == old(globals)
      ensures labelIdx == old(labelIdx) + 1
    {
      b := new Block(labelIdx);
      labelIdx := labelIdx + 1;
      current, blocks := b, blocks + {b};
    }

    method BlockAdd(i: Instr)
      modifies current`expressions
      ensures current.expressions == old(current.expressions) + [i]
    {
      current.expressions := current.expressions + [i];
    }

    /** The literal is entered in the program's table once. */
    method GlobalAddOrGetString(s: string) returns (obj: Object)
      modifies this`globals
      ensures obj == Literal(s) && globals == old(globals) + {s}
    {
      if s !in globals {
        globals := globals + {s};
      }
      obj := Literal(s);
    }

    /** One arm: write the literal, branch to the join, enter the block in the function. */
    method Populate(b: Block, mem: nat, s: string, after: Block)
      requires Valid() && b in blocks && b.expressions == [] && b.exit == Invalid
      modifies this`current, this`globals, this`fnBlocks, b
      ensures Valid() && current == b && globals == old(globals) + {s} && fnBlocks == old(fnBlocks) + [b]
      ensures b.expressions == [Write(mem, s)] && b.exit == Branch(after)
    {
      current := b;
      var obj := GlobalAddOrGetString(s);
      BlockAdd(Write(mem, obj.s));
      b.exit := Branch(after);
      fnBlocks := fnBlocks + [b];
    }

    /** Conversion of any value to a string.  A constant becomes a literal; a boolean
        splits the current block; nothing else is supported. */
    method ConvertToString(val: Value) returns (obj: Option<Object>)
      requires Valid() && current.exit == Invalid
      modifies this, current
      ensures Valid() && current.exit == Invalid && fresh(blocks - old(blocks)) && old(blocks) <= blocks
      ensures val.Unsupported? ==> obj == None
      ensures val.Constant? && val.b ==> obj == Some(Literal("true")) && "true" in globals
      ensures val.Constant? && !val.b ==> obj == Some(Literal("false")) && "false" in globals
      ensures !val.Temp? ==> current == old(current) && fnBlocks == old(fnBlocks) && Cfg() == old(Cfg())
      ensures val.Temp? ==>
                && obj == Some(Memory(old(expressionIdx))) && expressionIdx == old(expressionIdx) + 1
                && |fnBlocks| == |old(fnBlocks)| + 3 && old(fnBlocks) <= fnBlocks && fnBlocks[|fnBlocks| - 1] == current
                && Diamond(old(Cfg()), Cfg(), old(current), val.id, old(expressionIdx),
                           fnBlocks[|old(fnBlocks)|], fnBlocks[|old(fnBlocks)| + 1], current)
    {
      match val
      case Constant(b) =>
        var lit := GlobalAddOrGetString(if b then "true" else "false");
        obj := Some(lit);
      case Temp(id) =>
        var mem := SplitOnBool(id);
        obj := Some(Memory(mem));
      case Unsupported =>
        obj := None;
    }

    method SplitOnBool(cond: nat) returns (mem: nat)
      requires Valid() && current.exit == Invalid
      modifies this, current
      ensures Valid() && current.exit == Invalid && fresh(blocks - old(blocks)) && old(blocks) <= blocks
      ensures mem == old(expressionIdx) && expressionIdx == old(expressionIdx) + 1
      ensures |fnBlocks| == |old(fnBlocks)| + 3 && old(fnBlocks) <= fnBlocks && fnBlocks[|fnBlocks| - 1] == current
      ensures Diamond(old(Cfg()), Cfg(), old(current), cond, mem,
                      fnBlocks[|old(fnBlocks)|], fnBlocks[|old(fnBlocks)| + 1], current)
    {
      mem := expressionIdx;
      expressionIdx := expressionIdx + 1;
      BlockAdd(Alloca(mem));
      // creating a block makes it the current one, so the old one is kept
      var prev := current;
      var taken := BlockCreate();
      var fallthrough := BlockCreate();
      var after := BlockCreate();
      prev.exit := CondBranch(cond, taken, fallthrough);
      PopulateArms(taken, fallthrough, after, mem);
      fnBlocks := fnBlocks + [after];
      current := after;
    }

    method PopulateArms(taken: Block, fallthrough: Block, after: Block, mem: nat)
      requires Valid() && taken in blocks && fallthrough in blocks && taken != fallthrough
      requires taken.expressions == fallthrough.expressions == [] && taken.exit == fallthrough.exit == Invalid
      modifies this`current, this`globals, this`fnBlocks, taken, fallthrough
      ensures Valid() && globals == old(globals) + {"true", "false"}
      ensures fnBlocks == old(fnBlocks) + [taken, fallthrough]
      ensures taken.expressions == [Write(mem, "true")] && taken.exit == Branch(after)
      ensures fallthrough.expressions == [Write(mem, "false")] && fallthrough.exit == Branch(after)
    {
      Populate(taken, mem, "true", after);
      Populate(fallthrough, mem, "false", after);
    }

    /** Any other instruction: it takes the next number and goes into the current block. */
    method EmitBool(b: bool) returns (id: nat)
      requires Valid() && current.exit == Invalid
      modifies this`expressionIdx, current`expressions
      ensures Valid() && current.exit == Invalid
      ensures id == old(expressionIdx) && expressionIdx == old(expressionIdx) + 1
      ensures Grown(old(Cfg()), Cfg(), current, Define(id, b))
    {
      id := expressionIdx;
      expressionIdx := expressionIdx + 1;
      BlockAdd(Define(id, b));
    }

    /** Any run of conversions with other instructions between them.  Whatever the
        booleans are, control comes to the block now current with what the run calls
        for, and the graph stays closed if it was. */
    method ConvertAll(acts: seq<Act>) returns (ids: seq<nat>)
      requires Valid() && current.exit == Invalid
      modifies this, current
      ensures Valid() && current.exit == Invalid
      ensures ids == seq(|acts|, i requires 0 <= i => old(expressionIdx) + i)
      ensures Extends(old(Cfg()), old(current), Cfg(), current, acts, old(expressionIdx))
      ensures Closed(old(Cfg()), old(current)) ==> Closed(Cfg(), current)
    {
      hide Extends, Closed, Diamond, Grown;
      ids := [];
      ghost var g, start, first := Cfg(), current, expressionIdx;
      NothingExtends(g, start, first);
      assert acts[..0] == [];
      for k := 0 to |acts|
        invariant Valid() && current.exit == Invalid && (current == start || fresh(current))
        invariant ids == seq(k, i requires 0 <= i => first + i) && expressionIdx == first + k
        invariant Extends(g, start, Cfg(), current, acts[..k], first)
        invariant Closed(g, start) ==> Closed(Cfg(), current)
      {
        assert acts[..k + 1] == acts[..k] + [acts[k]];
        var id := Act(acts[k], g, start, acts[..k], first);
        ids := ids + [id];
      }
      assert acts[..|acts|] == acts;
    }

    /** One act of a run that began at the end of `start` in g. */
    method Act(act: Act, ghost g: Graph, ghost start: Block, ghost acts: seq<Act>, ghost first: nat) returns (id: nat)
      requires Valid() && current.exit == Invalid
      requires expressionIdx == first + |acts| && Extends(g, start, Cfg(), current, acts, first)
      modifies this, current
      ensures Valid() && current.exit == Invalid && (current == old(current) || fresh(current))
      ensures id == old(expressionIdx) && expressionIdx == old(expressionIdx) + 1
      ensures Extends(g, start, Cfg(), current, acts + [act], first)
      ensures Closed(old(Cfg()), old(current)) ==> Closed(Cfg(), current)
    {
      hide Extends, Closed, Diamond, Grown;
      ghost var g1, prev, n := Cfg(), current, |fnBlocks|;
      match act
      case Emit(b) =>
        id := EmitBool(b);
        ExtendsEmitted(g, start, g1, prev, acts, first, b, Cfg());
        if Closed(g1, prev) {
          GrownClosed(g1, Cfg(), prev, Define(id, b));
        }
      case ToString(cond) =>
        var obj := ConvertToString(Temp(cond));
        id := obj.value.id;
        ExtendsMore(g, start, g1, prev, acts, first, cond, Cfg(), fnBlocks[n], fnBlocks[n + 1], current);
        if Closed(g1, prev) {
          DiamondClosed(g1, Cfg(), prev, cond, id, fnBlocks[n], fnBlocks[n + 1], current);
        }
    }
  }
}
