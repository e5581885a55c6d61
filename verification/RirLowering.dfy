/** Lowering of integer expressions and assignments: src/ir/rir_binaryop.c
    (`rir_binaryop_init`, `rir_process_binaryop`), src/ir/rir_convert.c
    (`rir_convert_create_obj_maybeadd`, `rir_maybe_convert`) and
    src/ir/rir_expression.c (`rir_read_create_obj`, `rir_write_init`).

    Reads and narrowing conversions are slipped into the instruction list ahead of
    the operation that needs them.  The list is proved to compute the exact
    integer value of the expression modulo the width of its narrowest operand. */
module RirLowering {
  import opened Wrappers
  import opened RirCode
  import opened Arith

  datatype Expr = Number(n: int) | Variable(name: string) | Binary(op: Op, l: Expr, r: Expr)

  /** The declared variables and their types. */
  type Env = map<string, EType>

  predicate Scoped(e: Expr, env: Env) {
    match e
    case Number(_) => true
    case Variable(name) => name in env
    case Binary(_, l, r) => Scoped(l, env) && Scoped(r, env)
  }

  /** The number that a variable of type t holds, given its bits: two's complement for
      the signed types. */
  function NumberOf(bits: int, t: EType): int {
    if IsSigned(t) && 2 * bits >= Modulus(t) then bits - Modulus(t) else bits
  }

  /** The exact value over the integers. */
  function Eval(e: Expr, env: Env, mem: map<string, int>): int {
    match e
    case Number(n) => n
    case Variable(name) => if name in mem && name in env then NumberOf(mem[name], env[name]) else 0
    case Binary(op, l, r) => Apply(op, Eval(l, env, mem), Eval(r, env, mem))
  }

  /** It is that of integer arithmetic, over the values that the variables' types can have. */
  lemma EvalIs(l: Expr, r: Expr, x: string, env: Env, mem: map<string, int>)
    ensures Eval(Binary(Add, l, r), env, mem) == Eval(l, env, mem) + Eval(r, env, mem)
    ensures Eval(Binary(Sub, l, r), env, mem) == Eval(l, env, mem) - Eval(r, env, mem)
    ensures Eval(Binary(Mul, l, r), env, mem) == Eval(l, env, mem) * Eval(r, env, mem)
    ensures x in env && x in mem && 0 <= mem[x] < Modulus(env[x]) ==>
              && (if IsSigned(env[x]) then -Modulus(env[x]) <= 2 * Eval(Variable(x), env, mem) < Modulus(env[x])
                  else 0 <= Eval(Variable(x), env, mem) < Modulus(env[x]))
              && (Eval(Variable(x), env, mem) == mem[x] || Eval(Variable(x), env, mem) == mem[x] - Modulus(env[x]))
  {
  }

  /** The width of the narrowest operand. */
  function MinBytes(e: Expr, env: Env): (b: int)
    requires Scoped(e, env)
    ensures b == 1 || b == 2 || b == 4 || b == 8
  {
    match e
    case Number(_) => 8
    case Variable(name) => Bytes(env[name])
    case Binary(_, l, r) => if MinBytes(l, env) <= MinBytes(r, env) then MinBytes(l, env) else MinBytes(r, env)
  }

  predicate Occurs(x: string, e: Expr) {
    match e
    case Number(_) => false
    case Variable(name) => x == name
    case Binary(_, l, r) => Occurs(x, l) || Occurs(x, r)
  }

  /** No operand is narrower, and unless the width is 64 bits some variable has it. */
  lemma {:induction false} NarrowestIs(e: Expr, env: Env)
    requires Scoped(e, env)
    ensures forall x :: Occurs(x, e) ==> x in env && MinBytes(e, env) <= Bytes(env[x])
    ensures MinBytes(e, env) != 8 ==> exists x :: Occurs(x, e) && x in env && Bytes(env[x]) == MinBytes(e, env)
  {
    if e.Binary? {
      NarrowestIs(e.l, env);
      NarrowestIs(e.r, env);
    }
  }

  /** Variables hold values of their types. */
  ghost predicate MemoryOk(mem: map<string, int>, env: Env) {
    forall x :: x in env ==> x in mem && 0 <= mem[x] < Modulus(env[x])
  }

  // ---------------------------------------------------------------- arithmetic modulo a width

  /** Reducing modulo a width and then modulo a smaller one. */
  lemma ModNarrow(x: int, wide: int, narrow: int)
    requires narrow == 1 || narrow == 2 || narrow == 4 || narrow == 8
    requires wide == 1 || wide == 2 || wide == 4 || wide == 8
    requires narrow <= wide
    ensures (x % ModulusOf(wide)) % ModulusOf(narrow) == x % ModulusOf(narrow)
  {
    var w, m := ModulusOf(wide), ModulusOf(narrow);
    var k :| w == k * m by { Quotient(wide, narrow); }
    DivMod(x, w);
    Associate(x / w, k, m);
    ModShift(x % w, (x / w) * k, m);
  }

  lemma Quotient(wide: int, narrow: int)
    requires narrow == 1 || narrow == 2 || narrow == 4 || narrow == 8
    requires wide == 1 || wide == 2 || wide == 4 || wide == 8
    requires narrow <= wide
    ensures exists k :: ModulusOf(wide) == k * ModulusOf(narrow)
  {
    assert ModulusOf(wide) == (ModulusOf(wide) / ModulusOf(narrow)) * ModulusOf(narrow);
  }

  /** An operation on reduced operands gives the reduced result. */
  lemma ApplyMod(op: Op, x: int, y: int, m: int)
    requires m > 0
    ensures Apply(op, x % m, y % m) % m == Apply(op, x, y) % m
  {
    match op
    case Add =>
      ModAdd(x, y % m, m);
      ModAdd(y, x, m);
    case Sub =>
      ModAdd(x, -(y % m), m);
      ModSub(x, y, m);
    case Mul =>
      ModMul(x, y % m, m);
      ModMul(y, x, m);
  }

  // ---------------------------------------------------------------- what emitted code computes

  /** The bits a value stands for, reading memory where it is memory. */
  function Denotes(v: Value, st: State): Option<int> {
    if v.Memory? then (if v.name in st.mem then Some(st.mem[v.name]) else None) else Operand(v, st)
  }

  /** After `code`, from any state with proper memory, `v` is `e` modulo its width,
      and memory is as before. */
  ghost predicate Yields(code: seq<Instr>, v: Value, e: Expr, env: Env, st: State) {
    var r := Run(code, st);
    r.Some? && r.value.mem == st.mem && Denotes(v, r.value) == Some(Eval(e, env, st.mem) % Modulus(TypeOf(v)))
  }

  ghost predicate ValueOk(v: Value, env: Env, lo: nat, hi: nat) {
    && (v.Memory? ==> v.name in env && env[v.name] == v.t)
    && UsesOk(v, lo, hi)
  }

  ghost predicate Computes(code: seq<Instr>, v: Value, e: Expr, env: Env, lo: nat, hi: nat) {
    && Numbered(code, lo, hi) && ValueOk(v, env, lo, hi)
    && Scoped(e, env) && Bytes(TypeOf(v)) == MinBytes(e, env)
    && forall st: State :: MemoryOk(st.mem, env) ==> Yields(code, v, e, env, st)
  }

  /** The two operands of an operation, while reads and conversions are added. */
  ghost predicate Operands(code: seq<Instr>, a: Value, b: Value, l: Expr, r: Expr, env: Env, lo: nat, hi: nat) {
    && Numbered(code, lo, hi) && ValueOk(a, env, lo, hi) && ValueOk(b, env, lo, hi)
    && forall st: State :: MemoryOk(st.mem, env) ==> Yields(code, a, l, env, st) && Yields(code, b, r, env, st)
  }

  lemma BothOperands(c: seq<Instr>, d: seq<Instr>, a: Value, b: Value, l: Expr, r: Expr, env: Env, lo: nat, mid: nat, hi: nat)
    requires Computes(c, a, l, env, lo, mid) && Computes(d, b, r, env, mid, hi)
    ensures Operands(c + d, a, b, l, r, env, lo, hi)
  {
    hide Numbered, Run, MemoryOk, MinBytes, Yields, Scoped;
    NumberedConcat(c, d, lo, mid, hi);
    NumberedBounds(c, lo, mid);
    NumberedBounds(d, mid, hi);
    forall st: State | MemoryOk(st.mem, env)
      ensures Yields(c + d, a, l, env, st) && Yields(c + d, b, r, env, st)
    {
      assert Yields(c, a, l, env, st);
      ThenRun(c, d, a, b, l, r, env, lo, mid, hi, st);
    }
  }

  lemma ThenRun(c: seq<Instr>, d: seq<Instr>, a: Value, b: Value, l: Expr, r: Expr, env: Env, lo: nat, mid: nat, hi: nat, st: State)
    requires Yields(c, a, l, env, st) && MemoryOk(st.mem, env) && UsesOk(a, lo, mid)
    requires Numbered(d, mid, hi) && forall s: State :: MemoryOk(s.mem, env) ==> Yields(d, b, r, env, s)
    ensures Yields(c + d, a, l, env, st) && Yields(c + d, b, r, env, st)
  {
    hide Numbered, Run, MemoryOk, Modulus, Eval;
    RunConcat(c, d, st);
    var st' := Run(c, st).value;
    assert Yields(d, b, r, env, st');
    if a.Temp? {
      KeepsTemps(d, mid, hi, st', a.id);
    }
  }

  /** An instruction with a new destination keeps what earlier values stand for. */
  lemma KeptAcross(code: seq<Instr>, i: Instr, v: Value, e: Expr, env: Env, lo: nat, hi: nat, st: State)
    requires Yields(code, v, e, env, st) && UsesOk(v, lo, hi) && !i.Write? && i.dst == hi
    requires Step(i, Run(code, st).value).Some?
    ensures Yields(code + [i], v, e, env, st)
  {
    hide Run, Modulus, Eval;
    RunMore(code, i, st);
    StepEffect(i, Run(code, st).value);
  }

  lemma StepEffect(i: Instr, st: State)
    requires !i.Write? && Step(i, st).Some?
    ensures Step(i, st).value.mem == st.mem
    ensures Step(i, st).value.temps.Keys == st.temps.Keys + {i.dst}
    ensures forall id :: id in st.temps && id != i.dst ==> Step(i, st).value.temps[id] == st.temps[id]
  {
    hide Modulus, Apply;
  }

  /** Swapping the roles of the operands. */
  lemma OperandsSwap(code: seq<Instr>, a: Value, b: Value, l: Expr, r: Expr, env: Env, lo: nat, hi: nat)
    requires Operands(code, a, b, l, r, env, lo, hi)
    ensures Operands(code, b, a, r, l, env, lo, hi)
  {
  }

  /** A read makes a temporary of a memory operand. */
  lemma ReadAdded(code: seq<Instr>, a: Value, b: Value, l: Expr, r: Expr, env: Env, lo: nat, hi: nat)
    requires Operands(code, a, b, l, r, env, lo, hi) && a.Memory?
    ensures Operands(code + [Read(hi, a)], Temp(hi, a.t), b, l, r, env, lo, hi + 1)
  {
    hide Numbered, Yields, MemoryOk;
    var i := Read(hi, a);
    NumberedMore(code, lo, hi, i);
    NumberedBounds(code, lo, hi);
    forall st: State | MemoryOk(st.mem, env)
      ensures Yields(code + [i], Temp(hi, a.t), l, env, st) && Yields(code + [i], b, r, env, st)
    {
      assert Yields(code, a, l, env, st) && Yields(code, b, r, env, st);
      ReadYields(code, a, l, env, hi, st);
      KeptAcross(code, i, b, r, env, lo, hi, st);
    }
  }

  lemma ReadYields(code: seq<Instr>, a: Value, l: Expr, env: Env, hi: nat, st: State)
    requires a.Memory? && Yields(code, a, l, env, st)
    ensures Step(Read(hi, a), Run(code, st).value).Some?
    ensures Run(code, st).Some? && Yields(code + [Read(hi, a)], Temp(hi, a.t), l, env, st)
  {
    hide Run, Modulus, Eval;
    RunMore(code, Read(hi, a), st);
  }

  /** A conversion to a type that is no wider. */
  lemma ConvertAdded(code: seq<Instr>, a: Value, b: Value, l: Expr, r: Expr, env: Env, lo: nat, hi: nat, to: EType)
    requires Operands(code, a, b, l, r, env, lo, hi) && !a.Memory? && Bytes(TypeOf(a)) >= Bytes(to)
    ensures Operands(code + [Convert(hi, a, to)], Temp(hi, to), b, l, r, env, lo, hi + 1)
  {
    hide Numbered, Yields, MemoryOk;
    var i := Convert(hi, a, to);
    NumberedMore(code, lo, hi, i);
    NumberedBounds(code, lo, hi);
    forall st: State | MemoryOk(st.mem, env)
      ensures Yields(code + [i], Temp(hi, to), l, env, st) && Yields(code + [i], b, r, env, st)
    {
      assert Yields(code, a, l, env, st) && Yields(code, b, r, env, st);
      ConvertYields(code, a, l, env, hi, to, st);
      KeptAcross(code, i, b, r, env, lo, hi, st);
    }
  }

  lemma ConvertYields(code: seq<Instr>, a: Value, l: Expr, env: Env, hi: nat, to: EType, st: State)
    requires !a.Memory? && Bytes(TypeOf(a)) >= Bytes(to) && Yields(code, a, l, env, st)
    ensures Run(code, st).Some? && Step(Convert(hi, a, to), Run(code, st).value).Some?
    ensures Yields(code + [Convert(hi, a, to)], Temp(hi, to), l, env, st)
  {
    hide Run, Eval, ModulusOf;
    RunMore(code, Convert(hi, a, to), st);
    ModNarrow(Eval(l, env, st.mem), Bytes(TypeOf(a)), Bytes(to));
  }

  /** The operation itself, on two temporaries or constants of the same width. */
  lemma ArithAdded(code: seq<Instr>, a: Value, b: Value, op: Op, l: Expr, r: Expr, env: Env, lo: nat, hi: nat)
    requires Operands(code, a, b, l, r, env, lo, hi) && !a.Memory? && !b.Memory?
    requires Scoped(l, env) && Scoped(r, env)
    requires Bytes(TypeOf(a)) == Bytes(TypeOf(b)) == MinBytes(Binary(op, l, r), env)
    ensures Computes(code + [Arith(hi, op, a, b)], Temp(hi, TypeOf(a)), Binary(op, l, r), env, lo, hi + 1)
  {
    hide Numbered, Yields, MemoryOk, MinBytes;
    var i := Arith(hi, op, a, b);
    NumberedMore(code, lo, hi, i);
    NumberedBounds(code, lo, hi);
    forall st: State | MemoryOk(st.mem, env)
      ensures Yields(code + [i], Temp(hi, TypeOf(a)), Binary(op, l, r), env, st)
    {
      assert Yields(code, a, l, env, st) && Yields(code, b, r, env, st);
      ArithYields(code, a, b, op, l, r, env, hi, st);
    }
  }

  lemma ArithYields(code: seq<Instr>, a: Value, b: Value, op: Op, l: Expr, r: Expr, env: Env, hi: nat, st: State)
    requires !a.Memory? && !b.Memory? && Bytes(TypeOf(a)) == Bytes(TypeOf(b))
    requires Yields(code, a, l, env, st) && Yields(code, b, r, env, st)
    ensures Yields(code + [Arith(hi, op, a, b)], Temp(hi, TypeOf(a)), Binary(op, l, r), env, st)
  {
    hide Run, Apply, ModulusOf;
    RunMore(code, Arith(hi, op, a, b), st);
    ApplyMod(op, Eval(l, env, st.mem), Eval(r, env, st.mem), Modulus(TypeOf(a)));
  }

  /** A variable's number is congruent to its bits. */
  lemma NumberCongruent(bits: int, t: EType)
    requires 0 <= bits < Modulus(t)
    ensures NumberOf(bits, t) % Modulus(t) == bits
  {
    ModSmall(bits, Modulus(t));
    ModShift(bits, -1, Modulus(t));
  }

  lemma LeafComputes(v: Value, e: Expr, env: Env, lo: nat)
    requires (v.Const? && e == Number(v.n)) || (v.Memory? && e == Variable(v.name) && v.name in env && env[v.name] == v.t)
    ensures Computes([], v, e, env, lo, lo)
  {
    forall st: State | MemoryOk(st.mem, env) ensures Yields([], v, e, env, st) {
      if v.Memory? {
        NumberCongruent(st.mem[v.name], v.t);
      }
    }
  }

  // ---------------------------------------------------------------- assignments

  datatype Assignment = Assignment(name: string, e: Expr)

  predicate AssignmentOk(a: Assignment, env: Env) {
    a.name in env && Scoped(a.e, env)
  }

  /** The width that survives an assignment: that of the narrowest operand or, when
      smaller, that of the variable. */
  function KeptBytes(a: Assignment, env: Env): (b: int)
    requires AssignmentOk(a, env)
    ensures b == 1 || b == 2 || b == 4 || b == 8
  {
    if MinBytes(a.e, env) <= Bytes(env[a.name]) then MinBytes(a.e, env) else Bytes(env[a.name])
  }

  /** Memory after the assignment. */
  function Assigned(a: Assignment, env: Env, mem: map<string, int>): map<string, int>
    requires AssignmentOk(a, env)
  {
    mem[a.name := Eval(a.e, env, mem) % ModulusOf(KeptBytes(a, env))]
  }

  predicate AllOk(s: seq<Assignment>, env: Env) {
    forall i :: 0 <= i < |s| ==> AssignmentOk(s[i], env)
  }

  function AssignedAll(s: seq<Assignment>, env: Env, mem: map<string, int>): map<string, int>
    requires AllOk(s, env)
  {
    if s == [] then mem else Assigned(s[|s| - 1], env, AssignedAll(s[..|s| - 1], env, mem))
  }

  /** The assignments are made one after the other, each changing its variable only. */
  lemma AssignedInOrder(a: Assignment, s: seq<Assignment>, env: Env, mem: map<string, int>, x: string)
    requires AllOk([a] + s, env)
    ensures AllOk(s, env) && AssignmentOk(a, env)
    ensures AssignedAll([a] + s, env, mem) == AssignedAll(s, env, Assigned(a, env, mem))
    ensures x != a.name && x in mem ==> Assigned(a, env, mem)[x] == mem[x]
  {
    hide Assigned;
    assert ([a] + s)[0] == a && forall i :: 0 <= i < |s| ==> ([a] + s)[i + 1] == s[i];
    FirstAssigned(a, s, env, mem);
    OthersKept(a, env, mem, x);
  }

  lemma OthersKept(a: Assignment, env: Env, mem: map<string, int>, x: string)
    requires AssignmentOk(a, env)
    ensures x != a.name && x in mem ==> Assigned(a, env, mem)[x] == mem[x]
  {
  }

  lemma {:induction false} FirstAssigned(a: Assignment, s: seq<Assignment>, env: Env, mem: map<string, int>)
    requires AllOk([a] + s, env) && AllOk(s, env) && AssignmentOk(a, env)
    ensures AssignedAll([a] + s, env, mem) == AssignedAll(s, env, Assigned(a, env, mem))
    decreases |s|
  {
    hide Assigned, AssignmentOk;
    if s == [] {
      assert [a] + s == [a] && [a][..0] == [];
    } else {
      var k := |s| - 1;
      assert ([a] + s)[..k + 1] == [a] + s[..k];
      FirstAssigned(a, s[..k], env, mem);
    }
  }

  lemma ModulusMonotone(small: int, large: int)
    requires small == 1 || small == 2 || small == 4 || small == 8
    requires large == 1 || large == 2 || large == 4 || large == 8
    requires small <= large
    ensures ModulusOf(small) <= ModulusOf(large)
  {
  }

  lemma AssignedMemoryOk(a: Assignment, env: Env, mem: map<string, int>)
    requires AssignmentOk(a, env) && MemoryOk(mem, env)
    ensures MemoryOk(Assigned(a, env, mem), env)
  {
    hide Eval, MinBytes, ModulusOf;
    ModulusMonotone(KeptBytes(a, env), Bytes(env[a.name]));
    DivMod(Eval(a.e, env, mem), ModulusOf(KeptBytes(a, env)));
  }

  /** An assignment is exact, modulo the width of its variable, if and only if that
      residue fits the width of the narrowest operand: what was cut on the way is
      filled up with zeros. */
  lemma ExactIff(a: Assignment, env: Env, mem: map<string, int>)
    requires AssignmentOk(a, env)
    ensures Assigned(a, env, mem)[a.name] == Eval(a.e, env, mem) % Modulus(env[a.name])
       <==> Eval(a.e, env, mem) % Modulus(env[a.name]) < ModulusOf(KeptBytes(a, env))
  {
    hide Eval, MinBytes, ModulusOf;
    var x, k := Eval(a.e, env, mem), KeptBytes(a, env);
    ModNarrow(x, Bytes(env[a.name]), k);
    DivMod(x, ModulusOf(k));
    DivMod(x, Modulus(env[a.name]));
    if x % Modulus(env[a.name]) < ModulusOf(k) {
      ModSmall(x % Modulus(env[a.name]), ModulusOf(k));
    }
  }

  /** The numbers that a type can hold. */
  predicate InRange(x: int, t: EType) {
    if IsSigned(t) then -Modulus(t) <= 2 * x < Modulus(t) else 0 <= x < Modulus(t)
  }

  /** Afterwards the variable holds the exact value if and only if that is in the range
      of its type and either no operand is narrower than the variable or the value is
      not negative and fits the narrowest operand. */
  lemma ArrivesIff(a: Assignment, env: Env, mem: map<string, int>)
    requires AssignmentOk(a, env)
    ensures NumberOf(Assigned(a, env, mem)[a.name], env[a.name]) == Eval(a.e, env, mem)
       <==> InRange(Eval(a.e, env, mem), env[a.name]) &&
            (Bytes(env[a.name]) <= MinBytes(a.e, env) || 0 <= Eval(a.e, env, mem) < ModulusOf(MinBytes(a.e, env)))
  {
    hide Eval, MinBytes, ModulusOf;
    var t := env[a.name];
    ModulusMonotone(KeptBytes(a, env), Bytes(t));
    if KeptBytes(a, env) < Bytes(t) {
      TwiceNarrower(KeptBytes(a, env), Bytes(t));
    }
    NumberOfResidue(Eval(a.e, env, mem), ModulusOf(KeptBytes(a, env)), t);
  }

  lemma TwiceNarrower(small: int, large: int)
    requires small == 1 || small == 2 || small == 4 || small == 8
    requires large == 1 || large == 2 || large == 4 || large == 8
    requires small < large
    ensures 2 * ModulusOf(small) <= ModulusOf(large)
  {
  }

  lemma NumberOfResidue(x: int, k: int, t: EType)
    requires 0 < k && (k == Modulus(t) || 2 * k <= Modulus(t))
    ensures NumberOf(x % k, t) == x <==> InRange(x, t) && (k == Modulus(t) || 0 <= x < k)
  {
    hide ModulusOf;
    DivMod(x, k);
    if 0 <= x < k {
      ModSmall(x, k);
    } else if -k <= x < 0 {
      ModShift(x, 1, k);
      ModSmall(x + k, k);
    }
  }

  /** A signed 8-bit difference that is negative arrives in a 32-bit variable as
      a positive number. */
  lemma NegativeWidened(env: Env, mem: map<string, int>)
    requires env == map["x" := I8, "y" := I8, "z" := I32] && mem == map["x" := 1, "y" := 2, "z" := 0]
    ensures Assigned(Assignment("z", Binary(Sub, Variable("x"), Variable("y"))), env, mem)["z"] == 255
    ensures Eval(Binary(Sub, Variable("x"), Variable("y")), env, mem) == -1
  {
    DivModUnique(-1, 256, -1, 255);
    var e := Binary(Sub, Variable("x"), Variable("y"));
    var a := Assignment("z", e);
    assert Eval(e.l, env, mem) == 1 && Eval(e.r, env, mem) == 2;
    assert MinBytes(e.l, env) == 1 && MinBytes(e.r, env) == 1;
    assert MinBytes(e, env) == 1 && KeptBytes(a, env) == 1;
  }

  /** So does a plain copy of -1. */
  lemma NegativeCopied(env: Env, mem: map<string, int>)
    requires env == map["x" := I8, "z" := I32] && mem == map["x" := 255, "z" := 0]
    ensures MemoryOk(mem, env) && Eval(Variable("x"), env, mem) == -1
    ensures NumberOf(Assigned(Assignment("z", Variable("x")), env, mem)["z"], I32) == 255
  {
    DivModUnique(-1, 256, -1, 255);
    var a := Assignment("z", Variable("x"));
    assert MinBytes(a.e, env) == 1 && KeptBytes(a, env) == 1;
  }

  /** One value in `code`, ready to be stored: reduced to `bytes` bytes. */
  ghost predicate Holds(code: seq<Instr>, v: Value, e: Expr, env: Env, bytes: int, st: State)
    requires bytes == 1 || bytes == 2 || bytes == 4 || bytes == 8
  {
    var r := Run(code, st);
    r.Some? && r.value.mem == st.mem && Denotes(v, r.value) == Some(Eval(e, env, st.mem) % ModulusOf(bytes))
  }

  ghost predicate Ready(code: seq<Instr>, v: Value, e: Expr, bytes: int, env: Env, lo: nat, hi: nat)
    requires bytes == 1 || bytes == 2 || bytes == 4 || bytes == 8
  {
    && Numbered(code, lo, hi) && ValueOk(v, env, lo, hi)
    && forall st: State :: MemoryOk(st.mem, env) ==> Holds(code, v, e, env, bytes, st)
  }

  lemma ComputesReady(code: seq<Instr>, v: Value, e: Expr, env: Env, lo: nat, hi: nat)
    requires Computes(code, v, e, env, lo, hi)
    ensures Ready(code, v, e, MinBytes(e, env), env, lo, hi)
  {
    hide Numbered, Run, MemoryOk, Scoped;
    forall st: State | MemoryOk(st.mem, env) ensures Holds(code, v, e, env, MinBytes(e, env), st) {
      assert Yields(code, v, e, env, st);
    }
  }

  lemma ReadyRead(code: seq<Instr>, v: Value, e: Expr, bytes: int, env: Env, lo: nat, hi: nat)
    requires bytes == 1 || bytes == 2 || bytes == 4 || bytes == 8
    requires Ready(code, v, e, bytes, env, lo, hi) && v.Memory?
    ensures Ready(code + [Read(hi, v)], Temp(hi, v.t), e, bytes, env, lo, hi + 1)
  {
    hide Numbered, Run, MemoryOk, Eval;
    NumberedMore(code, lo, hi, Read(hi, v));
    NumberedBounds(code, lo, hi);
    forall st: State | MemoryOk(st.mem, env) ensures Holds(code + [Read(hi, v)], Temp(hi, v.t), e, env, bytes, st) {
      assert Holds(code, v, e, env, bytes, st);
      RunMore(code, Read(hi, v), st);
    }
  }

  /** A conversion to the type of the variable: truncation loses bits, zero
      extension does not. */
  lemma ReadyConvert(code: seq<Instr>, v: Value, e: Expr, bytes: int, env: Env, lo: nat, hi: nat, to: EType)
    requires bytes == 1 || bytes == 2 || bytes == 4 || bytes == 8
    requires Ready(code, v, e, bytes, env, lo, hi) && !v.Memory? && Bytes(TypeOf(v)) == bytes
    ensures Ready(code + [Convert(hi, v, to)], Temp(hi, to), e, if bytes <= Bytes(to) then bytes else Bytes(to), env, lo, hi + 1)
  {
    hide Numbered, Run, MemoryOk, Eval, Holds;
    NumberedMore(code, lo, hi, Convert(hi, v, to));
    NumberedBounds(code, lo, hi);
    forall st: State | MemoryOk(st.mem, env)
      ensures Holds(code + [Convert(hi, v, to)], Temp(hi, to), e, env, if bytes <= Bytes(to) then bytes else Bytes(to), st)
    {
      assert Holds(code, v, e, env, bytes, st);
      ConvertHolds(code, v, e, env, bytes, hi, to, st);
    }
  }

  lemma ConvertHolds(code: seq<Instr>, v: Value, e: Expr, env: Env, bytes: int, hi: nat, to: EType, st: State)
    requires bytes == 1 || bytes == 2 || bytes == 4 || bytes == 8
    requires Holds(code, v, e, env, bytes, st) && !v.Memory? && Bytes(TypeOf(v)) == bytes
    ensures Holds(code + [Convert(hi, v, to)], Temp(hi, to), e, env, if bytes <= Bytes(to) then bytes else Bytes(to), st)
  {
    hide Run, Eval, ModulusOf;
    RunMore(code, Convert(hi, v, to), st);
    if bytes >= Bytes(to) {
      ModNarrow(Eval(e, env, st.mem), bytes, Bytes(to));
    }
  }

  /** `code` performs the assignments and touches nothing else. */
  ghost predicate Performs(code: seq<Instr>, s: seq<Assignment>, env: Env, lo: nat, hi: nat)
    requires AllOk(s, env)
  {
    && Numbered(code, lo, hi)
    && forall st: State :: MemoryOk(st.mem, env) ==> Stores(code, s, env, st)
  }

  ghost predicate Stores(code: seq<Instr>, s: seq<Assignment>, env: Env, st: State)
    requires AllOk(s, env)
  {
    var r := Run(code, st);
    r.Some? && r.value.mem == AssignedAll(s, env, st.mem) && MemoryOk(r.value.mem, env)
  }

  lemma WriteAdded(code: seq<Instr>, v: Value, a: Assignment, env: Env, lo: nat, hi: nat)
    requires AssignmentOk(a, env) && Ready(code, v, a.e, KeptBytes(a, env), env, lo, hi) && !v.Memory?
    requires Bytes(TypeOf(v)) == Bytes(env[a.name])
    ensures Performs(code + [Write(Memory(a.name, env[a.name]), v)], [a], env, lo, hi)
  {
    hide Numbered, Run, MemoryOk, Eval, MinBytes, KeptBytes, Stores, Holds;
    var i := Write(Memory(a.name, env[a.name]), v);
    NumberedMore(code, lo, hi, i);
    NumberedBounds(code, lo, hi);
    forall st: State | MemoryOk(st.mem, env) ensures Stores(code + [i], [a], env, st) {
      assert Holds(code, v, a.e, env, KeptBytes(a, env), st);
      WriteStores(code, v, a, env, st);
    }
  }

  lemma WriteStores(code: seq<Instr>, v: Value, a: Assignment, env: Env, st: State)
    requires AssignmentOk(a, env) && Holds(code, v, a.e, env, KeptBytes(a, env), st) && !v.Memory?
    requires Bytes(TypeOf(v)) == Bytes(env[a.name]) && MemoryOk(st.mem, env)
    ensures Stores(code + [Write(Memory(a.name, env[a.name]), v)], [a], env, st)
  {
    hide Run, MemoryOk, Eval, KeptBytes, ModulusOf;
    RunMore(code, Write(Memory(a.name, env[a.name]), v), st);
    AssignedMemoryOk(a, env, st.mem);
    assert [a][..0] == [];
    assert AssignedAll([], env, st.mem) == st.mem;
  }

  lemma NothingPerformed(env: Env, lo: nat)
    ensures Performs([], [], env, lo, lo)
  {
  }

  lemma PerformsConcat(c: seq<Instr>, s: seq<Assignment>, d: seq<Instr>, a: Assignment, env: Env, lo: nat, mid: nat, hi: nat)
    requires AllOk(s, env) && AssignmentOk(a, env)
    requires Performs(c, s, env, lo, mid) && Performs(d, [a], env, mid, hi)
    ensures Performs(c + d, s + [a], env, lo, hi)
  {
    hide Numbered, Stores, MemoryOk, AssignmentOk;
    NumberedConcat(c, d, lo, mid, hi);
    forall st: State | MemoryOk(st.mem, env) ensures Stores(c + d, s + [a], env, st) {
      StoresConcat(c, s, d, a, env, st);
    }
  }

  lemma StoresConcat(c: seq<Instr>, s: seq<Assignment>, d: seq<Instr>, a: Assignment, env: Env, st: State)
    requires AllOk(s, env) && AssignmentOk(a, env) && Stores(c, s, env, st)
    requires forall t: State :: MemoryOk(t.mem, env) ==> Stores(d, [a], env, t)
    ensures Stores(c + d, s + [a], env, st)
  {
    hide Run, MemoryOk, Assigned, AssignmentOk, AssignedAll;
    var t := Run(c, st).value;
    assert Stores(d, [a], env, t);
    RunConcat(c, d, st);
    AssignedMore(s, a, env, st.mem);
    AssignedMore([], a, env, t.mem);
    assert [] + [a] == [a];
    AssignedNone(env, t.mem);
  }

  lemma AssignedNone(env: Env, mem: map<string, int>)
    ensures AssignedAll([], env, mem) == mem
  {
  }

  lemma AssignedMore(s: seq<Assignment>, a: Assignment, env: Env, mem: map<string, int>)
    requires AllOk(s, env) && AssignmentOk(a, env)
    ensures AssignedAll(s + [a], env, mem) == Assigned(a, env, AssignedAll(s, env, mem))
  {
    hide Assigned, AssignmentOk;
    assert (s + [a])[..|s|] == s;
  }

  // ---------------------------------------------------------------- the lowering itself

  /** The block being filled and the counter that numbers its expressions. */
  class Builder {
    var block: seq<Instr>
    var expressionIdx: nat

    constructor ()
      ensures block == [] && expressionIdx == 0
    {
      block, expressionIdx := [], 0;
    }

    method ReadCreate(mem: Value) returns (v: Value)
      requires mem.Memory?
      modifies this
      ensures v == Temp(old(expressionIdx), mem.t) && expressionIdx == old(expressionIdx) + 1
      ensures block == old(block) + [Read(old(expressionIdx), mem)]
    {
      block := block + [Read(expressionIdx, mem)];
      v := Temp(expressionIdx, mem.t);
      expressionIdx := expressionIdx + 1;
    }

    method ConvertCreateMaybeAdd(val: Value, to: EType) returns (v: Value)
      requires !val.Memory?
      modifies this
      ensures v == Temp(old(expressionIdx), to) && expressionIdx == old(expressionIdx) + 1
      ensures block == old(block) + [Convert(old(expressionIdx), val, to)]
    {
      block := block + [Convert(expressionIdx, val, to)];
      v := Temp(expressionIdx, to);
      expressionIdx := expressionIdx + 1;
    }

    /** Memory operands are read first, the left one before the right one. */
    method ReadOperands(a: Value, b: Value, ghost start: nat, ghost l: Expr, ghost r: Expr, ghost env: Env, ghost lo: nat)
      returns (x: Value, y: Value)
      requires start <= |block| && Operands(block[start..], a, b, l, r, env, lo, expressionIdx)
      modifies this
      ensures old(block) <= block && Operands(block[start..], x, y, l, r, env, lo, expressionIdx)
      ensures !x.Memory? && !y.Memory? && TypeOf(x) == TypeOf(a) && TypeOf(y) == TypeOf(b)
    {
      hide Operands;
      x, y := a, b;
      if a.Memory? {
        ReadAdded(block[start..], x, y, l, r, env, lo, expressionIdx);
        Appended(block, start, Read(expressionIdx, a));
        x := ReadCreate(a);
      }
      if b.Memory? {
        OperandsSwap(block[start..], x, y, l, r, env, lo, expressionIdx);
        ReadAdded(block[start..], y, x, r, l, env, lo, expressionIdx);
        Appended(block, start, Read(expressionIdx, b));
        y := ReadCreate(b);
        OperandsSwap(block[start..], y, x, r, l, env, lo, expressionIdx);
      }
    }

    /** Then the wider operand is converted to the type of the other one; of two
        types equally wide, the left operand is the one converted. */
    method BinaryopInit(a: Value, b: Value, ghost start: nat, ghost l: Expr, ghost r: Expr, ghost env: Env, ghost lo: nat)
      returns (x: Value, y: Value)
      requires start <= |block| && Operands(block[start..], a, b, l, r, env, lo, expressionIdx)
      modifies this
      ensures old(block) <= block && Operands(block[start..], x, y, l, r, env, lo, expressionIdx)
      ensures !x.Memory? && !y.Memory? && TypeOf(x) == TypeOf(y)
      ensures Bytes(TypeOf(x)) == if Bytes(TypeOf(a)) <= Bytes(TypeOf(b)) then Bytes(TypeOf(a)) else Bytes(TypeOf(b))
    {
      hide Operands;
      x, y := ReadOperands(a, b, start, l, r, env, lo);
      if TypeOf(x) != TypeOf(y) {
        if Bytes(TypeOf(x)) >= Bytes(TypeOf(y)) {
          ConvertAdded(block[start..], x, y, l, r, env, lo, expressionIdx, TypeOf(y));
          Appended(block, start, Convert(expressionIdx, x, TypeOf(y)));
          x := ConvertCreateMaybeAdd(x, TypeOf(y));
        } else {
          OperandsSwap(block[start..], x, y, l, r, env, lo, expressionIdx);
          ConvertAdded(block[start..], y, x, r, l, env, lo, expressionIdx, TypeOf(x));
          Appended(block, start, Convert(expressionIdx, y, TypeOf(x)));
          y := ConvertCreateMaybeAdd(y, TypeOf(x));
          OperandsSwap(block[start..], y, x, r, l, env, lo, expressionIdx);
        }
      }
    }

    /** The instructions added compute the expression modulo the width of its
        narrowest operand and number their temporaries on from those before. */
    method ProcessExpression(e: Expr, env: Env) returns (v: Value)
      requires Scoped(e, env)
      modifies this
      ensures old(block) <= block
      ensures Computes(block[|old(block)|..], v, e, env, old(expressionIdx), expressionIdx)
      decreases e
    {
      hide Computes;
      ghost var before, lo := block, expressionIdx;
      match e
      case Number(n) =>
        v := Const(n);
        LeafComputes(v, e, env, lo);
        assert block[|before|..] == [];
      case Variable(name) =>
        v := Memory(name, env[name]);
        LeafComputes(v, e, env, lo);
        assert block[|before|..] == [];
      case Binary(_, _, _) =>
        v := ProcessBinaryop(e, env);
    }

    method ProcessBinaryop(e: Expr, env: Env) returns (v: Value)
      requires e.Binary? && Scoped(e, env)
      modifies this
      ensures old(block) <= block
      ensures Computes(block[|old(block)|..], v, e, env, old(expressionIdx), expressionIdx)
      decreases e, 1
    {
      ghost var before, lo := block, expressionIdx;
      var x, y := ProcessOperands(e, env);
      x, y := BinaryopInit(x, y, |before|, e.l, e.r, env, lo);
      assert Bytes(TypeOf(x)) == MinBytes(e, env);
      ArithAdded(block[|before|..], x, y, e.op, e.l, e.r, env, lo, expressionIdx);
      Appended(block, |before|, Arith(expressionIdx, e.op, x, y));
      block := block + [Arith(expressionIdx, e.op, x, y)];
      v := Temp(expressionIdx, TypeOf(x));
      expressionIdx := expressionIdx + 1;
    }

    /** The left operand is processed before the right one. */
    method ProcessOperands(e: Expr, env: Env) returns (x: Value, y: Value)
      requires e.Binary? && Scoped(e, env)
      modifies this
      ensures old(block) <= block
      ensures Operands(block[|old(block)|..], x, y, e.l, e.r, env, old(expressionIdx), expressionIdx)
      ensures Bytes(TypeOf(x)) == MinBytes(e.l, env) && Bytes(TypeOf(y)) == MinBytes(e.r, env)
      decreases e, 0
    {
      hide Operands;
      ghost var before, lo := block, expressionIdx;
      x := ProcessExpression(e.l, env);
      ghost var between, mid := block, expressionIdx;
      y := ProcessExpression(e.r, env);
      BothOperands(between[|before|..], block[|between|..], x, y, e.l, e.r, env, lo, mid, expressionIdx);
      assert block[|before|..] == between[|before|..] + block[|between|..];
    }

    /** An assignment stores the right value, cut or zero-extended to the type of
        the variable, and changes no other variable. */
    method ProcessAssign(a: Assignment, env: Env)
      requires AssignmentOk(a, env)
      modifies this
      ensures old(block) <= block
      ensures Performs(block[|old(block)|..], [a], env, old(expressionIdx), expressionIdx)
    {
      hide Performs, Ready, Computes, Scoped, MinBytes;
      ghost var before, lo := block, expressionIdx;
      var lval := Memory(a.name, env[a.name]);
      var rval := ProcessExpression(a.e, env);
      ComputesReady(block[|before|..], rval, a.e, env, lo, expressionIdx);
      RightWidth(block[|before|..], rval, a.e, env, lo, expressionIdx);
      if rval.Memory? {
        ReadyRead(block[|before|..], rval, a.e, MinBytes(a.e, env), env, lo, expressionIdx);
        Appended(block, |before|, Read(expressionIdx, rval));
        rval := ReadCreate(rval);
      }
      rval := WriteInit(lval, rval, |before|, a, env, lo);
      WriteAdded(block[|before|..], rval, a, env, lo, expressionIdx);
      Appended(block, |before|, Write(lval, rval));
      block := block + [Write(lval, rval)];
    }

    method WriteInit(lval: Value, rval: Value, ghost start: nat, ghost a: Assignment, ghost env: Env, ghost lo: nat)
      returns (v: Value)
      requires AssignmentOk(a, env) && lval == Memory(a.name, env[a.name])
      requires start <= |block| && !rval.Memory? && Bytes(TypeOf(rval)) == MinBytes(a.e, env)
      requires Ready(block[start..], rval, a.e, MinBytes(a.e, env), env, lo, expressionIdx)
      modifies this
      ensures old(block) <= block && !v.Memory? && TypeOf(v) == lval.t
      ensures Ready(block[start..], v, a.e, KeptBytes(a, env), env, lo, expressionIdx)
    {
      hide Ready, Scoped, MinBytes;
      v := rval;
      if TypeOf(rval) != lval.t {
        ReadyConvert(block[start..], rval, a.e, MinBytes(a.e, env), env, lo, expressionIdx, lval.t);
        Appended(block, start, Convert(expressionIdx, rval, lval.t));
        v := ConvertCreateMaybeAdd(rval, lval.t);
      }
    }

    /** A run of assignments, from an empty block. */
    method ProcessAll(s: seq<Assignment>, env: Env)
      requires AllOk(s, env) && block == [] && expressionIdx == 0
      modifies this
      ensures Performs(block, s, env, 0, expressionIdx)
    {
      hide Performs, AssignmentOk;
      NothingPerformed(env, 0);
      assert s[..0] == [];
      for i := 0 to |s|
        invariant Performs(block, s[..i], env, 0, expressionIdx)
      {
        ghost var before, mid := block, expressionIdx;
        ProcessAssign(s[i], env);
        PerformsConcat(before, s[..i], block[|before|..], s[i], env, 0, mid, expressionIdx);
        assert block == before + block[|before|..] && s[..i + 1] == s[..i] + [s[i]];
      }
      assert s[..|s|] == s;
    }
  }

  lemma Appended(block: seq<Instr>, start: nat, i: Instr)
    requires start <= |block|
    ensures (block + [i])[start..] == block[start..] + [i]
  {
  }

  lemma RightWidth(code: seq<Instr>, v: Value, e: Expr, env: Env, lo: nat, hi: nat)
    requires Computes(code, v, e, env, lo, hi)
    ensures Bytes(TypeOf(v)) == MinBytes(e, env)
  {
  }
}
