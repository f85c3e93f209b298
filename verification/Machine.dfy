/**
 The virtual machine of x86_64/asm.c: what one decoded instruction does to the
 32 registers and the word-addressed memory.  Undefined behaviour of the C code
 (division by zero, shifts of 64 or more, accesses outside memory) is None.
 */
module Machine {
  import opened Words
  import opened Traces

  const NUM_REGS: nat := 32
  const SP: nat := 24
  const FP: nat := 25
  const BP: nat := 26
  const LR: nat := 27
  const IR: nat := 28
  const RR: nat := 29
  const PC: nat := 30
  const SR: nat := 31

  datatype Opcode =
    | Acx | Ads | Sbs | Mls | Mlu | Dvs | Dvu | And | Orr | Xor | Nor | Shf | Ldr | Str | Jnc | Exc

  datatype Operand = Reg(r: nat) | Imm(i: int)

  datatype Instr = Instr(op: Opcode, a: nat, b: nat, c: Operand)

  /** Largest immediate the assembler accepts: 46 bits with sign. */
  const IMM_LIMIT: int := 0x2000_0000_0000

  predicate WellFormed(i: Instr) {
    i.a < NUM_REGS && i.b < NUM_REGS &&
    match i.c
    case Reg(r) => r < NUM_REGS
    case Imm(v) => -IMM_LIMIT <= v < IMM_LIMIT
  }

  type Regs = s: seq<Word> | |s| == 32 witness seq(32, _ => 0)

  datatype State = State(regs: Regs, mem: seq<Word>)

  /** Byte addresses are 8 times word addresses modulo 2^64. */
  const ADDRESSES: nat := 0x2000_0000_0000_0000

  function Address(x: Word, y: Word): nat { (x + y) % ADDRESSES }

  function Value(c: Operand, regs: Regs): Word {
    match c
    case Reg(r) => if r < NUM_REGS then regs[r] else 0
    case Imm(v) => ToWord(v)
  }

  function Shift(x: Word, y: Word): Option<Word> {
    var sh := Signed(y);
    if Abs(sh) >= 64 then None
    else if sh < 0 then Some(ToWord(x * Pow2(-sh)))
    else
      PowPositive(sh);
      DivBound(x, Pow2(sh));
      Some(x / Pow2(sh))
  }

  lemma {:induction false} PowPositive(n: nat)
    ensures Pow2(n) > 0
  {
    if n > 0 { PowPositive(n - 1); }
  }

  lemma MulAtLeast(q: nat, d: nat)
    requires d > 0
    ensures q <= q * d
  {
    assert q * d == q * (d - 1) + q;
  }

  lemma DivBound(x: nat, d: nat)
    requires d > 0
    ensures 0 <= x / d <= x
  {
    MulAtLeast(x / d, d);
  }

  /** The result an arithmetic instruction leaves in its first register. */
  function Alu(op: Opcode, x: Word, y: Word): Option<Word> {
    match op
    case Ads => Some(Add(x, y))
    case Sbs => Some(Sub(x, y))
    case Mls => Some(ToWord(Signed(x) * Signed(y)))
    case Mlu => Some(ToWord(x * y))
    case Dvs =>
      if y == 0 || (Signed(x) + W63 == 0 && Signed(y) == -1) then None
      else Some(ToWord(Quotient(Signed(x), Signed(y))))
    case Dvu => if y == 0 then None else DivBound(x, y); Some(x / y)
    case And => Some(Bitwise(BitAnd, x, y))
    case Orr => Some(Bitwise(BitOr, x, y))
    case Xor => Some(Bitwise(BitXor, x, y))
    case Nor => Some(Bitwise(BitNor, x, y))
    case Shf => Shift(x, y)
    case _ => None
  }

  /** The remainder a division leaves in rr, before the quotient is stored. */
  function Remainder(op: Opcode, x: Word, y: Word): Word
    requires y != 0
  {
    if op == Dvs then ToWord(Signed(x) - Quotient(Signed(x), Signed(y)) * Signed(y)) else x % y
  }

  function Next(regs: Regs): Regs { regs[PC := Add(regs[PC], 1)] }

  /** One iteration of the loop in run, after decoding. */
  function Exec(i: Instr, s: State): Option<State> {
    if !WellFormed(i) then None else
      var y := Value(i.c, s.regs);
      match i.op
      case Acx =>
        var p := Address(s.regs[i.a], 0);
        if p >= |s.mem| then None
        else
          var mem := if s.mem[p] == s.regs[i.b] then s.mem[p := y] else s.mem;
          Some(State(Next(s.regs[i.b := s.mem[p]]), mem))
      case Ldr =>
        var p := Address(s.regs[i.b], y);
        if p >= |s.mem| then None else Some(State(Next(s.regs[i.a := s.mem[p]]), s.mem))
      case Str =>
        var p := Address(s.regs[i.b], y);
        if p >= |s.mem| then None else Some(State(Next(s.regs), s.mem[p := s.regs[i.a]]))
      case Jnc =>
        if s.regs[i.a] != 0 then Some(State(s.regs[PC := Add(s.regs[i.b], y)], s.mem))
        else Some(State(Next(s.regs), s.mem))
      case Exc => Some(State(Next(s.regs), s.mem))
      case _ => ExecAlu(i, s, y)
  }

  function ExecAlu(i: Instr, s: State, y: Word): Option<State>
    requires WellFormed(i)
  {
    match Alu(i.op, s.regs[i.b], y)
    case None => None
    case Some(v) =>
      var regs := if (i.op == Dvs || i.op == Dvu) && y != 0
                  then s.regs[RR := Remainder(i.op, s.regs[i.b], y)] else s.regs;
      Some(State(Next(regs[i.a := v]), s.mem))
  }

  /** The loop condition of run. */
  predicate Running(s: State) { s.regs[SR] >= W63 }

  /** A program as the compiler emits it, placed at word address base; its data may start at lo. */
  datatype Image = Image(code: seq<Instr>, base: nat, lo: nat)

  /** The instruction does not write below the data area. */
  predicate Guarded(m: Image, i: Instr, s: State) {
    WellFormed(i) &&
    (i.op == Str ==> Address(s.regs[i.b], Value(i.c, s.regs)) >= m.lo) &&
    (i.op == Acx ==> Address(s.regs[i.a], 0) >= m.lo)
  }

  /** One step of an image, fetching decoded instructions. */
  function Step(m: Image, s: State): Option<State> {
    if Running(s) && m.base <= s.regs[PC] < m.base + |m.code| && Guarded(m, m.code[s.regs[PC] - m.base], s)
    then Exec(m.code[s.regs[PC] - m.base], s)
    else None
  }

  function StepOf(m: Image): State -> Option<State> { s => Step(m, s) }

  ghost predicate Runs(m: Image, s: State, s': State) { Leads(StepOf(m), s, s') }

  lemma RunsRefl(m: Image, s: State)
    ensures Runs(m, s, s)
  {
    LeadsRefl(StepOf(m), s);
  }

  lemma RunsTrans(m: Image, s: State, t: State, u: State)
    requires Runs(m, s, t) && Runs(m, t, u)
    ensures Runs(m, s, u)
  {
    LeadsTrans(StepOf(m), s, t, u);
  }

  lemma RunsStep(m: Image, s: State, s': State)
    requires Step(m, s) == Some(s')
    ensures Runs(m, s, s')
  {
    LeadsStep(StepOf(m), s, s');
  }
}
