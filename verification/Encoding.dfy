/** Instruction words: how the assembler packs an instruction and how run unpacks it. */
module Encoding {
  import opened Bits
  import opened Words
  import opened Traces
  import opened Machine

  const P41: nat := 0x200_0000_0000
  const P46: nat := 0x4000_0000_0000
  const P51: nat := 0x8_0000_0000_0000
  const P56: nat := 0x100_0000_0000_0000

  function Number(op: Opcode): (n: nat)
    ensures n < 16
  {
    match op
    case Acx => 0 case Ads => 1 case Sbs => 2 case Mls => 3 case Mlu => 4 case Dvs => 5 case Dvu => 6 case And => 7
    case Orr => 8 case Xor => 9 case Nor => 10 case Shf => 11 case Ldr => 12 case Str => 13 case Jnc => 14 case Exc => 15
  }

  function OpcodeOf(n: nat): Option<Opcode> {
    if n >= 16 then None else
      Some([Acx, Ads, Sbs, Mls, Mlu, Dvs, Dvu, And, Orr, Xor, Nor, Shf, Ldr, Str, Jnc, Exc][n])
  }

  /** Opcode in bits 56-62, registers in bits 51-55 and 46-50, then a register in bits 41-45 and bit 63, or 46 bits of immediate. */
  function Encode(i: Instr): Word
    requires WellFormed(i)
  {
    Number(i.op) * P56 + i.a * P51 + i.b * P46 +
    match i.c
    case Reg(r) => W63 + r * P41
    case Imm(v) => if v < 0 then v + P46 else v
  }

  function Decode(w: Word): Option<Instr> {
    match OpcodeOf(w / P56 % 128)
    case None => None
    case Some(op) =>
      var imm := w % P46;
      Some(Instr(op, w / P51 % 32, w / P46 % 32,
                 if w >= W63 then Reg(w / P41 % 32) else Imm(if imm >= IMM_LIMIT then imm - P46 else imm)))
  }

  /** Splitting a word into its fields. */
  lemma Fields(n: nat, a: nat, b: nat, low: nat, w: nat)
    requires n < 256 && a < 32 && b < 32 && low < P46 && w == n * P56 + a * P51 + b * P46 + low
    ensures w / P56 == n && w / P51 % 32 == a && w / P46 % 32 == b && w % P46 == low
  {
    DivMod(w, P46, n * 1024 + a * 32 + b, low);
    DivMod(w, P51, n * 32 + a, b * P46 + low);
    DivMod(w, P56, n, a * P51 + b * P46 + low);
    DivMod(n * 1024 + a * 32 + b, 32, n * 32 + a, b);
    DivMod(n * 32 + a, 32, n, a);
  }

  lemma RegisterField(n: nat, a: nat, b: nat, r: nat, w: nat)
    requires r < 32 && w == n * P56 + a * P51 + b * P46 + r * P41
    ensures w / P41 % 32 == r
  {
    DivMod(w, P41, n * 32768 + a * 1024 + b * 32 + r, 0);
    DivMod(n * 32768 + a * 1024 + b * 32 + r, 32, n * 1024 + a * 32 + b, r);
  }

  lemma NumberIsField(n: nat)
    requires OpcodeOf(n).Some?
    ensures Number(OpcodeOf(n).value) == n
  {
  }

  lemma NumberRoundTrip(op: Opcode)
    ensures OpcodeOf(Number(op)) == Some(op)
  {
  }

  lemma DecodeRegister(op: Opcode, a: nat, b: nat, r: nat, w: Word)
    requires a < 32 && b < 32 && r < 32 && w == (Number(op) + 128) * P56 + a * P51 + b * P46 + r * P41
    ensures Decode(w) == Some(Instr(op, a, b, Reg(r)))
  {
    hide Number, OpcodeOf;
    NumberRoundTrip(op);
    Fields(Number(op) + 128, a, b, r * P41, w);
    DivMod(Number(op) + 128, 128, 1, Number(op));
    RegisterField(Number(op) + 128, a, b, r, w);
  }

  lemma DecodeImmediate(op: Opcode, a: nat, b: nat, v: int, w: Word)
    requires a < 32 && b < 32 && -IMM_LIMIT <= v < IMM_LIMIT
    requires w == Number(op) * P56 + a * P51 + b * P46 + if v < 0 then v + P46 else v
    ensures Decode(w) == Some(Instr(op, a, b, Imm(v)))
  {
    NumberRoundTrip(op);
    Fields(Number(op), a, b, if v < 0 then v + P46 else v, w);
  }

  /** What the assembler packs, run unpacks. */
  lemma DecodeEncode(i: Instr)
    requires WellFormed(i)
    ensures Decode(Encode(i)) == Some(i)
  {
    hide Number, Decode;
    match i.c {
      case Reg(r) => DecodeRegister(i.op, i.a, i.b, r, Encode(i));
      case Imm(v) => DecodeImmediate(i.op, i.a, i.b, v, Encode(i));
    }
  }

  /** A word that decodes is the packing of what it decodes to, up to the unused low bits of the register form. */
  lemma EncodeDecode(w: Word)
    requires Decode(w).Some?
    ensures var i := Decode(w).value;
            WellFormed(i) && Encode(i) == if i.c.Reg? then w - w % P41 else w
  {
    var i := Decode(w).value;
    NumberIsField(w / P56 % 128);
    hide Number, OpcodeOf;
    assert w / P51 == w / P56 * 32 + w / P51 % 32;
    assert w / P46 == w / P51 * 32 + w / P46 % 32;
    assert w == w / P46 * P46 + w % P46;
    if w >= W63 {
      assert w / P56 == 128 + w / P56 % 128;
      assert w / P41 == w / P46 * 32 + w / P41 % 32;
      assert w == w / P41 * P41 + w % P41;
    } else {
      assert w / P56 == w / P56 % 128;
    }
  }

  // -------------------------------------------- the machine on memory words

  /** One iteration of the loop in run: fetch, decode, execute. */
  function WordStep(s: State): Option<State> {
    if Running(s) && Address(s.regs[PC], 0) < |s.mem| then
      match Decode(s.mem[Address(s.regs[PC], 0)])
      case None => None
      case Some(i) => Exec(i, s)
    else None
  }

  function Stepper(): State -> Option<State> { s => WordStep(s) }

  /** The image's code lies in memory, below the data area. */
  ghost predicate Loaded(m: Image, mem: seq<Word>) {
    && m.base + |m.code| <= m.lo <= ADDRESSES && m.base + |m.code| <= |mem|
    && forall k {:trigger m.code[k]} :: 0 <= k < |m.code| ==> WellFormed(m.code[k]) && mem[m.base + k] == Encode(m.code[k])
  }

  /** A guarded instruction leaves the code alone. */
  lemma ExecKeepsCode(m: Image, i: Instr, s: State, s': State)
    requires Loaded(m, s.mem) && Guarded(m, i, s) && Exec(i, s) == Some(s')
    ensures Loaded(m, s'.mem)
  {
    assert forall a :: 0 <= a < m.lo && a < |s.mem| ==> s'.mem[a] == s.mem[a];
    assert |s'.mem| == |s.mem|;
  }

  lemma StepRefines(m: Image, s: State, s': State)
    requires Loaded(m, s.mem) && Step(m, s) == Some(s')
    ensures WordStep(s) == Some(s') && Loaded(m, s'.mem)
  {
    hide Encode, Decode, Exec;
    var k := s.regs[PC] - m.base;
    DecodeEncode(m.code[k]);
    assert Address(s.regs[PC], 0) == m.base + k;
    ExecKeepsCode(m, m.code[k], s, s');
  }

  lemma {:induction false} TraceRefines(m: Image, tr: seq<State>)
    requires Trace(StepOf(m), tr) && Loaded(m, tr[0].mem)
    ensures Trace(Stepper(), tr) && Loaded(m, tr[|tr| - 1].mem)
    decreases |tr|
  {
    hide Step, WordStep, Loaded;
    if |tr| > 1 {
      var init := tr[..|tr| - 1];
      assert forall i {:trigger init[i]} :: 0 <= i < |init| - 1 ==> StepOf(m)(tr[i]) == Some(tr[i + 1]);
      TraceRefines(m, init);
      var last := |tr| - 2;
      assert StepOf(m)(tr[last]) == Some(tr[last + 1]);
      StepRefines(m, tr[last], tr[last + 1]);
      forall i | 0 <= i < |tr| - 1 ensures Stepper()(tr[i]) == Some(tr[i + 1]) {
        if i < last { assert Stepper()(init[i]) == Some(init[i + 1]); }
      }
    }
  }

  /** Every run over decoded instructions is a run over memory words. */
  lemma RunsRefines(m: Image, s: State, s': State)
    requires Runs(m, s, s') && Loaded(m, s.mem)
    ensures Leads(Stepper(), s, s') && Loaded(m, s'.mem)
  {
    var tr :| Trace(StepOf(m), tr) && tr[0] == s && tr[|tr| - 1] == s';
    TraceRefines(m, tr);
  }

  // ------------------------------------------------------------------- run

  /** The state after the loop of run has gone round at most n times, or None on undefined behaviour. */
  function RunFor(s: State, n: nat): Option<State>
    decreases n
  {
    if n == 0 || !Running(s) then Some(s) else
      match WordStep(s)
      case None => None
      case Some(t) => RunFor(t, n - 1)
  }

  lemma {:induction false} HaltsWithin(tr: seq<State>, n: nat)
    requires Trace(Stepper(), tr) && !Running(tr[|tr| - 1]) && n >= |tr|
    ensures RunFor(tr[0], n) == Some(tr[|tr| - 1])
    decreases |tr|
  {
    hide Decode, Exec, Encode;
    if |tr| > 1 {
      assert Stepper()(tr[0]) == Some(tr[1]);
      var rest := tr[1..];
      forall i | 0 <= i < |rest| - 1 ensures Stepper()(rest[i]) == Some(rest[i + 1]) {
        assert Stepper()(tr[i + 1]) == Some(tr[i + 2]);
      }
      HaltsWithin(rest, n - 1);
    }
  }

  /** A run that reaches a halted state is one that the loop completes, given enough iterations. */
  lemma LoopHalts(s: State, t: State) returns (bound: nat)
    requires Leads(Stepper(), s, t) && !Running(t)
    ensures forall n {:trigger RunFor(s, n)} :: n >= bound ==> RunFor(s, n) == Some(t)
  {
    var tr :| Trace(Stepper(), tr) && tr[0] == s && tr[|tr| - 1] == t;
    bound := |tr|;
    forall n | n >= bound ensures RunFor(s, n) == Some(t) {
      HaltsWithin(tr, n);
    }
  }
}
