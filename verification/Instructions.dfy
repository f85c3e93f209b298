/** What each instruction form that the compiler emits does, as a run of one step. */
module Instructions {
  import opened Words
  import opened Machine

  /** The machine is about to execute code[k] of a well-formed image. */
  ghost predicate Ready(m: Image, s: State, k: nat) {
    && k < |m.code| && WellFormed(m.code[k])
    && m.base + |m.code| <= m.lo <= ADDRESSES && |s.mem| <= ADDRESSES
    && s.regs[PC] == m.base + k && Running(s)
  }

  lemma AddressOf(x: Word, off: int)
    requires 0 <= x + off < ADDRESSES
    requires -IMM_LIMIT <= off < IMM_LIMIT
    ensures Address(x, ToWord(off)) == x + off
  {
    if off >= 0 {
      assert ToWord(off) == off;
    } else {
      assert ToWord(off) == off + W64;
      assert x + ToWord(off) == x + off + 8 * ADDRESSES;
      assert (x + off + 8 * ADDRESSES) % ADDRESSES == x + off;
    }
  }

  lemma AddImm(x: Word, off: int)
    requires 0 <= x + off < W64
    requires -IMM_LIMIT <= off < IMM_LIMIT
    ensures Add(x, ToWord(off)) == x + off && Sub(x, ToWord(-off)) == x + off
  {
    assert (x + off) % W64 == x + off;
    if off >= 0 {
      assert ToWord(off) == off;
      assert off > 0 ==> ToWord(-off) == W64 - off;
      assert off > 0 ==> (x - (W64 - off)) % W64 == (x + off - W64) % W64 == (x + off) % W64;
    } else {
      assert ToWord(off) == off + W64;
      assert (x + off + W64) % W64 == (x + off) % W64;
      assert ToWord(-off) == -off;
    }
  }

  lemma NextPc(m: Image, s: State, k: nat, regs: Regs)
    requires Ready(m, s, k) && regs[PC] == s.regs[PC]
    ensures Next(regs) == regs[PC := m.base + k + 1]
  {
  }

  lemma RunStore(m: Image, s: State, k: nat, r: nat, b: nat, off: int)
    requires Ready(m, s, k) && m.code[k] == Instr(Str, r, b, Imm(off))
    requires m.lo <= s.regs[b] + off < |s.mem|
    ensures Runs(m, s, State(s.regs[PC := m.base + k + 1], s.mem[s.regs[b] + off := s.regs[r]]))
  {
    AddressOf(s.regs[b], off);
    NextPc(m, s, k, s.regs);
    RunsStep(m, s, State(Next(s.regs), s.mem[s.regs[b] + off := s.regs[r]]));
  }

  lemma RunLoad(m: Image, s: State, k: nat, r: nat, b: nat, off: int)
    requires Ready(m, s, k) && m.code[k] == Instr(Ldr, r, b, Imm(off)) && r != PC
    requires 0 <= s.regs[b] + off < |s.mem|
    ensures Runs(m, s, State(s.regs[r := s.mem[s.regs[b] + off]][PC := m.base + k + 1], s.mem))
  {
    AddressOf(s.regs[b], off);
    NextPc(m, s, k, s.regs[r := s.mem[s.regs[b] + off]]);
    RunsStep(m, s, State(Next(s.regs[r := s.mem[s.regs[b] + off]]), s.mem));
  }

  predicate Arithmetic(op: Opcode) {
    op in {Ads, Sbs, And, Orr, Xor, Nor, Shf, Mls, Mlu, Dvs, Dvu}
  }

  lemma RunAlu(m: Image, s: State, k: nat, op: Opcode, a: nat, b: nat, c: Operand, v: Word)
    requires Ready(m, s, k) && m.code[k] == Instr(op, a, b, c) && a != PC
    requires Arithmetic(op) && (op == Dvs || op == Dvu ==> a == RR)
    requires Alu(op, s.regs[b], Value(c, s.regs)) == Some(v)
    ensures Runs(m, s, State(s.regs[a := v][PC := m.base + k + 1], s.mem))
  {
    var regs := s.regs[a := v];
    NextPc(m, s, k, regs);
    var y := Value(c, s.regs);
    if (op == Dvs || op == Dvu) && y != 0 {
      assert s.regs[RR := Remainder(op, s.regs[b], y)][a := v] == regs;
    }
    assert ExecAlu(m.code[k], s, y) == Some(State(Next(regs), s.mem));
    RunsStep(m, s, State(Next(regs), s.mem));
  }

  /** Adding an immediate to a register that holds an address. */
  lemma RunAddImm(m: Image, s: State, k: nat, a: nat, b: nat, off: int)
    requires Ready(m, s, k) && m.code[k] == Instr(Ads, a, b, Imm(off)) && a != PC
    requires 0 <= s.regs[b] + off < W64
    ensures Runs(m, s, State(s.regs[a := s.regs[b] + off][PC := m.base + k + 1], s.mem))
  {
    AddImm(s.regs[b], off);
    RunAlu(m, s, k, Ads, a, b, Imm(off), s.regs[b] + off);
  }

  lemma RunSubImm(m: Image, s: State, k: nat, a: nat, b: nat, off: nat)
    requires Ready(m, s, k) && m.code[k] == Instr(Sbs, a, b, Imm(off)) && a != PC
    requires off <= s.regs[b]
    ensures Runs(m, s, State(s.regs[a := s.regs[b] - off][PC := m.base + k + 1], s.mem))
  {
    AddImm(s.regs[b], 0 - off);
    RunAlu(m, s, k, Sbs, a, b, Imm(off), s.regs[b] - off);
  }

  lemma RunJump(m: Image, s: State, k: nat, a: nat, b: nat, off: int)
    requires Ready(m, s, k) && m.code[k] == Instr(Jnc, a, b, Imm(off)) && s.regs[a] != 0
    requires 0 <= s.regs[b] + off < W64
    ensures Runs(m, s, State(s.regs[PC := s.regs[b] + off], s.mem))
  {
    AddImm(s.regs[b], off);
    RunsStep(m, s, State(s.regs[PC := s.regs[b] + off], s.mem));
  }

  lemma RunNoJump(m: Image, s: State, k: nat, a: nat, b: nat, c: Operand)
    requires Ready(m, s, k) && m.code[k] == Instr(Jnc, a, b, c) && s.regs[a] == 0
    ensures Runs(m, s, State(s.regs[PC := m.base + k + 1], s.mem))
  {
    NextPc(m, s, k, s.regs);
    RunsStep(m, s, State(Next(s.regs), s.mem));
  }
}
