/** Integer RIR instructions and what they do at the machine's widths: the meaning
    that src/backend/llvm_conversion.c and src/backend/llvm_operators.c give to
    them.  A value is kept as its bits, read as an unsigned number. */
module RirCode {
  import opened Wrappers

  datatype EType = I8 | U8 | I16 | U16 | I32 | U32 | I64 | U64 | Int | UInt

  predicate IsSigned(t: EType) {
    t.I8? || t.I16? || t.I32? || t.I64? || t.Int?
  }

  function Bytes(t: EType): (b: int)
    ensures b == 1 || b == 2 || b == 4 || b == 8
  {
    if t.I8? || t.U8? then 1 else if t.I16? || t.U16? then 2 else if t.I32? || t.U32? then 4 else 8
  }

  /** 2 to the power of eight times the number of bytes. */
  function ModulusOf(bytes: int): (m: int)
    requires bytes == 1 || bytes == 2 || bytes == 4 || bytes == 8
    ensures m > 0
  {
    if bytes == 1 then 0x100 else if bytes == 2 then 0x1_0000 else if bytes == 4 then 0x1_0000_0000 else 0x1_0000_0000_0000_0000
  }

  function Modulus(t: EType): (m: int)
    ensures m > 0
  {
    ModulusOf(Bytes(t))
  }

  /** The widths of all types, and how many values each width has. */
  lemma Widths(t: EType)
    ensures t in {I8, U8} ==> Modulus(t) == 256
    ensures t in {I16, U16} ==> Modulus(t) == 256 * 256
    ensures t in {I32, U32} ==> Modulus(t) == 256 * 256 * 256 * 256
    ensures t in {I64, U64, Int, UInt} ==> Modulus(t) == 256 * 256 * 256 * 256 * 256 * 256 * 256 * 256
    ensures IsSigned(t) <==> t in {I8, I16, I32, I64, Int}
  {
  }

  /** A RIR value: an integer constant, the memory of a variable, or the result of
      an instruction.  Only memory has pointer type. */
  datatype Value = Const(n: int) | Memory(name: string, t: EType) | Temp(id: nat, t: EType)

  /** Integer constants are 64 bits wide. */
  function TypeOf(v: Value): EType {
    if v.Const? then I64 else v.t
  }

  datatype Op = Add | Sub | Mul

  datatype Instr =
    | Read(dst: nat, mem: Value)
    | Convert(dst: nat, v: Value, to: EType)
    | Arith(dst: nat, op: Op, a: Value, b: Value)
    | Write(mem: Value, v: Value)

  datatype State = State(mem: map<string, int>, temps: map<nat, int>)

  function Apply(op: Op, x: int, y: int): int {
    match op
    case Add => x + y
    case Sub => x - y
    case Mul => x * y
  }

  /** The operand's bits; memory is not an operand. */
  function Operand(v: Value, st: State): Option<int> {
    match v
    case Const(n) => Some(n % Modulus(I64))
    case Temp(id, _) => if id in st.temps then Some(st.temps[id]) else None
    case Memory(_, _) => None
  }

  /** One instruction; `None` when it uses something that is not there. */
  function Step(i: Instr, st: State): Option<State> {
    match i
    case Read(dst, mem) =>
      if mem.Memory? && mem.name in st.mem then Some(st.(temps := st.temps[dst := st.mem[mem.name]])) else None
    case Convert(dst, v, to) =>
      var x := Operand(v, st);
      if x.None? then None
      // zero extension, or truncation
      else if Bytes(TypeOf(v)) < Bytes(to) then Some(st.(temps := st.temps[dst := x.value]))
      else Some(st.(temps := st.temps[dst := x.value % Modulus(to)]))
    case Arith(dst, op, a, b) =>
      var x, y := Operand(a, st), Operand(b, st);
      if x.None? || y.None? || Bytes(TypeOf(a)) != Bytes(TypeOf(b)) then None
      else Some(st.(temps := st.temps[dst := Apply(op, x.value, y.value) % Modulus(TypeOf(a))]))
    case Write(mem, v) =>
      var x := Operand(v, st);
      if x.None? || !mem.Memory? || Bytes(TypeOf(v)) != Bytes(mem.t) then None
      else Some(st.(mem := st.mem[mem.name := x.value]))
  }

  function Run(code: seq<Instr>, st: State): Option<State> {
    if code == [] then Some(st)
    else
      var before := Run(code[..|code| - 1], st);
      if before.None? then None else Step(code[|code| - 1], before.value)
  }

  lemma RunMore(code: seq<Instr>, i: Instr, st: State)
    ensures Run(code + [i], st) == if Run(code, st).None? then None else Step(i, Run(code, st).value)
  {
    assert (code + [i])[..|code|] == code;
  }

  lemma {:induction false} RunConcat(a: seq<Instr>, b: seq<Instr>, st: State)
    ensures Run(a + b, st) == if Run(a, st).None? then None else Run(b, Run(a, st).value)
  {
    if b == [] {
      assert a + b == a;
    } else {
      var c := b[..|b| - 1];
      RunConcat(a, c, st);
      assert (a + b)[..|a + b| - 1] == a + c;
    }
  }

  // ---------------------------------------------------------------- numbering of temporaries

  ghost predicate UsesOk(v: Value, lo: nat, next: nat) {
    v.Temp? ==> lo <= v.id < next
  }

  ghost predicate OperandsOk(i: Instr, lo: nat, next: nat) {
    match i
    case Read(_, mem) => true
    case Convert(_, v, _) => UsesOk(v, lo, next)
    case Arith(_, _, a, b) => UsesOk(a, lo, next) && UsesOk(b, lo, next)
    case Write(_, v) => UsesOk(v, lo, next)
  }

  /** The temporaries defined are lo, lo + 1, ..., hi - 1, each once and in this
      order, and every one used has been defined before. */
  ghost predicate Numbered(code: seq<Instr>, lo: nat, hi: nat) {
    if code == [] then lo == hi
    else
      var last := code[|code| - 1];
      var before := code[..|code| - 1];
      if last.Write? then Numbered(before, lo, hi) && OperandsOk(last, lo, hi)
      else hi > lo && last.dst == hi - 1 && Numbered(before, lo, hi - 1) && OperandsOk(last, lo, hi - 1)
  }

  lemma {:induction false} NumberedBounds(code: seq<Instr>, lo: nat, hi: nat)
    requires Numbered(code, lo, hi)
    ensures lo <= hi
  {
    if code != [] && code[|code| - 1].Write? {
      NumberedBounds(code[..|code| - 1], lo, hi);
    }
  }

  lemma {:induction false} NumberedConcat(a: seq<Instr>, b: seq<Instr>, lo: nat, mid: nat, hi: nat)
    requires Numbered(a, lo, mid) && Numbered(b, mid, hi)
    ensures Numbered(a + b, lo, hi)
  {
    NumberedBounds(a, lo, mid);
    if b == [] {
      assert a + b == a;
    } else {
      var c := b[..|b| - 1];
      assert (a + b)[..|a + b| - 1] == a + c;
      NumberedConcat(a, c, lo, mid, if b[|b| - 1].Write? then hi else hi - 1);
    }
  }

  lemma NumberedMore(code: seq<Instr>, lo: nat, hi: nat, i: Instr)
    requires Numbered(code, lo, hi) && OperandsOk(i, lo, hi) && (i.Write? || i.dst == hi)
    ensures Numbered(code + [i], lo, if i.Write? then hi else hi + 1)
  {
    assert (code + [i])[..|code|] == code;
    NumberedBounds(code, lo, hi);
  }

  /** Code leaves the temporaries below its own alone. */
  lemma {:induction false} KeepsTemps(code: seq<Instr>, lo: nat, hi: nat, st: State, id: nat)
    requires Numbered(code, lo, hi) && Run(code, st).Some? && id < lo && id in st.temps
    ensures id in Run(code, st).value.temps && Run(code, st).value.temps[id] == st.temps[id]
  {
    if code != [] {
      KeepsTemps(code[..|code| - 1], lo, if code[|code| - 1].Write? then hi else hi - 1, st, id);
    }
  }
}
