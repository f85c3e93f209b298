/** The code around conditions and calls: branches, argument passing, function entry and exit. */
module ControlFlow {
  import opened Words
  import opened Machine
  import opened Source
  import opened Compiler
  import opened Instructions
  import opened CompilerCorrectness

  /** nor, and: the complement of the lowest bit. */
  lemma NegateCorrect(m: Image, s: State, at: nat) returns (s': State)
    requires Coded(m) && Poised(m, s, at) && at + 2 <= |m.code|
    requires m.code[at] == Instr(Nor, RR, RR, Reg(RR)) && m.code[at + 1] == Instr(And, RR, RR, Imm(1))
    ensures Runs(m, s, s') && s'.mem == s.mem && s'.regs == s.regs[RR := 1 - s.regs[RR] % 2][PC := m.base + at + 2]
  {
    hide *;
    RegsAgain(s.regs, 0, 0, 0, 0);
    var v := s.regs[RR];
    NotLowBit(v);
    var nv := Bitwise(BitNor, v, v);
    var s1 := NorStep(m, s, at);
    PoisedNext(m, s, s1, at, nv);
    s' := AndStep(m, s1, at + 1, v);
    RegsAgain(s.regs, nv, m.base + at + 1, 1 - v % 2, m.base + (at + 1) + 1);
    RunsTrans(m, s, s1, s');
  }

  lemma NorStep(m: Image, s: State, at: nat) returns (s': State)
    requires Coded(m) && Poised(m, s, at) && at < |m.code| && m.code[at] == Instr(Nor, RR, RR, Reg(RR))
    ensures m.base + at + 1 < W64
    ensures Runs(m, s, s') && s' == State(s.regs[RR := Bitwise(BitNor, s.regs[RR], s.regs[RR])][PC := m.base + at + 1], s.mem)
  {
    var nv := Bitwise(BitNor, s.regs[RR], s.regs[RR]);
    ReadyAt(m, s, at);
    RunAlu(m, s, at, Nor, RR, RR, Reg(RR), nv);
    s' := State(s.regs[RR := nv][PC := m.base + at + 1], s.mem);
  }

  lemma AndStep(m: Image, s: State, at: nat, v: Word) returns (s': State)
    requires Coded(m) && Poised(m, s, at) && at < |m.code| && m.code[at] == Instr(And, RR, RR, Imm(1))
    requires s.regs[RR] == Bitwise(BitNor, v, v)
    ensures m.base + at + 1 < W64
    ensures Runs(m, s, s') && s' == State(s.regs[RR := 1 - v % 2][PC := m.base + at + 1], s.mem)
  {
    NotLowBit(v);
    ReadyAt(m, s, at);
    hide Bitwise;
    RunAlu(m, s, at, And, RR, RR, Imm(1), 1 - v % 2);
    s' := State(s.regs[RR := 1 - v % 2][PC := m.base + at + 1], s.mem);
  }

  /** nor, and, jnc: fall through with 0 on an odd value, skip n + 1 lines with 1 on an even one. */
  lemma BranchCorrect(m: Image, lbl: Labels, s: State, at: nat, n: nat) returns (s': State)
    requires Coded(m) && Poised(m, s, at) && At(m, lbl, at, Branch(n)) && at + 4 + n <= |m.code|
    ensures Runs(m, s, s') && s'.mem == s.mem
    ensures s.regs[RR] % 2 == 1 ==> s'.regs == s.regs[RR := 0][PC := m.base + at + 3]
    ensures s.regs[RR] % 2 == 0 ==> s'.regs == s.regs[RR := 1][PC := m.base + at + 4 + n]
  {
    var l0, l1, l2 := Asm(Nor, RR, RR, AReg(RR)), Asm(And, RR, RR, AImm(1)), Asm(Jnc, RR, PC, AImm(2 + n));
    assert Branch(n) == [l0] + [l1] + [l2];
    AtSplit(m, lbl, at, [l0] + [l1], [l2]);
    AtSplit(m, lbl, at, [l0], [l1]);
    AtOne(m, lbl, at, l0);
    AtOne(m, lbl, at + 1, l1);
    AtOne(m, lbl, at + 2, l2);
    var s1 := NegateCorrect(m, s, at);
    s' := BranchEnd(m, lbl, s1, at + 2, n);
    RunsTrans(m, s, s1, s');
  }

  lemma BranchEnd(m: Image, lbl: Labels, s: State, at: nat, n: nat) returns (s': State)
    requires Coded(m) && Poised(m, s, at) && at + 2 + n <= |m.code|
    requires at < |m.code| && m.code[at] == Instr(Jnc, RR, PC, Imm(2 + n))
    ensures Runs(m, s, s') && s'.mem == s.mem
    ensures s'.regs == s.regs[PC := if s.regs[RR] == 0 then m.base + at + 1 else m.base + at + 2 + n]
  {
    ReadyAt(m, s, at);
    if s.regs[RR] == 0 {
      RunNoJump(m, s, at, RR, PC, Imm(2 + n));
      s' := State(s.regs[PC := m.base + at + 1], s.mem);
    } else {
      RunJump(m, s, at, RR, PC, 2 + n);
      s' := State(s.regs[PC := m.base + at + (2 + n)], s.mem);
    }
  }

  /** jnc r1f: an unconditional jump relative to pc. */
  lemma JumpCorrect(m: Image, lbl: Labels, s: State, at: nat, off: int) returns (s': State)
    requires Coded(m) && Poised(m, s, at) && At(m, lbl, at, [Asm(Jnc, SR, PC, AImm(off))])
    requires 0 <= at + off <= |m.code|
    ensures Runs(m, s, s') && s' == State(s.regs[PC := m.base + at + off], s.mem)
  {
    AtOne(m, lbl, at, Asm(Jnc, SR, PC, AImm(off)));
    ReadyAt(m, s, at);
    RunJump(m, s, at, SR, PC, off);
    s' := State(s.regs[PC := m.base + at + off], s.mem);
  }

  // ----------------------------------------------------------------- calls

  lemma AtCall(m: Image, lbl: Labels, at: nat, f: Name, offset: int)
    requires At(m, lbl, at, CallSequence(f, offset)) && Mangled(f) in lbl
    ensures at + 6 <= |m.code|
    ensures m.code[at] == Instr(Ads, SP, SP, Imm(offset))
    ensures m.code[at + 1] == Instr(Str, LR, SP, Imm(0))
    ensures m.code[at + 2] == Instr(Ads, LR, PC, Imm(2))
    ensures m.code[at + 3] == Instr(Jnc, SR, BP, Imm(lbl[Mangled(f)]))
    ensures m.code[at + 4] == Instr(Ldr, LR, SP, Imm(0))
    ensures m.code[at + 5] == Instr(Sbs, SP, SP, Imm(offset))
  {
    var c := CallSequence(f, offset);
    assert c[0].op == Ads && c[1].op == Str && c[2].op == Ads && c[3].op == Jnc && c[4].op == Ldr && c[5].op == Sbs;
    assert m.code[at + 0] == Resolve(c[0], lbl);
  }

  /** sp moves past the arguments, lr is saved there and set to the return address. */
  lemma CallEnter(m: Image, lbl: Labels, s: State, at: nat, f: Name, offset: nat) returns (s': State)
    requires Coded(m) && Poised(m, s, at) && At(m, lbl, at, CallSequence(f, offset)) && Mangled(f) in lbl
    requires lbl[Mangled(f)] < |m.code| && s.regs[SP] + offset < |s.mem|
    ensures Runs(m, s, s') && s'.mem == s.mem[s.regs[SP] + offset := s.regs[LR]]
    ensures s'.regs == s.regs[SP := s.regs[SP] + offset][LR := m.base + at + 4][PC := m.base + lbl[Mangled(f)]]
  {
    hide At, CallSequence, Runs, Resolve, Exec, Step;
    AtCall(m, lbl, at, f, offset);
    var sp := s.regs[SP];
    ReadyAt(m, s, at);
    RunAddImm(m, s, at, SP, SP, offset);
    var s1 := State(s.regs[SP := sp + offset][PC := m.base + at + 1], s.mem);
    assert Ready(m, s1, at + 1);
    RunStore(m, s1, at + 1, LR, SP, 0);
    var s2 := State(s1.regs[PC := m.base + (at + 1) + 1], s.mem[sp + offset := s.regs[LR]]);
    RunsTrans(m, s, s1, s2);
    assert Ready(m, s2, at + 2);
    RunAddImm(m, s2, at + 2, LR, PC, 2);
    var s3 := State(s2.regs[LR := m.base + (at + 2) + 2][PC := m.base + (at + 2) + 1], s2.mem);
    RunsTrans(m, s, s2, s3);
    assert Ready(m, s3, at + 3);
    RunJump(m, s3, at + 3, SR, BP, lbl[Mangled(f)]);
    s' := State(s3.regs[PC := m.base + lbl[Mangled(f)]], s3.mem);
    RunsTrans(m, s, s3, s');
    assert s'.regs == s.regs[SP := sp + offset][LR := m.base + at + 4][PC := m.base + lbl[Mangled(f)]];
  }

  lemma CallLeave(m: Image, lbl: Labels, s: State, at: nat, f: Name, offset: nat, lr: Word) returns (s': State)
    requires Coded(m) && At(m, lbl, at, CallSequence(f, offset)) && Mangled(f) in lbl
    requires s.regs[PC] == m.base + at + 4 && Running(s) && |s.mem| <= ADDRESSES
    requires offset <= s.regs[SP] < |s.mem| && s.mem[s.regs[SP]] == lr
    ensures Runs(m, s, s') && s'.mem == s.mem
    ensures s'.regs == s.regs[LR := lr][SP := s.regs[SP] - offset][PC := m.base + at + 6]
  {
    AtCall(m, lbl, at, f, offset);
    assert Ready(m, s, at + 4);
    RunLoad(m, s, at + 4, LR, SP, 0);
    var s1 := State(s.regs[LR := lr][PC := m.base + (at + 4) + 1], s.mem);
    assert Ready(m, s1, at + 5);
    RunSubImm(m, s1, at + 5, SP, SP, offset);
    s' := State(s1.regs[SP := s.regs[SP] - offset][PC := m.base + (at + 5) + 1], s.mem);
    RunsTrans(m, s, s1, s');
    assert s'.regs == s.regs[LR := lr][SP := s.regs[SP] - offset][PC := m.base + at + 6];
  }

  lemma AtFn(m: Image, lbl: Labels, at: nat, fn: Fn)
    requires At(m, lbl, at, CompileFn(fn))
    ensures var body := CompileSeq(fn.body, 0, ParamSlots(fn.params, |fn.params|));
            && at + 6 + |body| <= |m.code|
            && m.code[at] == Instr(Str, FP, SP, Imm(1))
            && m.code[at + 1] == Instr(Ads, SP, SP, Imm(1))
            && m.code[at + 2] == Instr(Ads, FP, SP, Imm(0))
            && At(m, lbl, at + 3, body)
            && m.code[at + 3 + |body|] == Instr(Sbs, SP, SP, Imm(1))
            && m.code[at + 4 + |body|] == Instr(Ldr, FP, SP, Imm(1))
            && m.code[at + 5 + |body|] == Instr(Jnc, SR, LR, Imm(0))
  {
    var body := CompileSeq(fn.body, 0, ParamSlots(fn.params, |fn.params|));
    var a := [Asm(Str, FP, SP, AImm(1)), Asm(Ads, SP, SP, AImm(1)), Asm(Ads, FP, SP, AImm(0))];
    var z := [Asm(Sbs, SP, SP, AImm(1)), Asm(Ldr, FP, SP, AImm(1)), Asm(Jnc, SR, LR, AImm(0))];
    AtSplit(m, lbl, at, a + body, z);
    AtSplit(m, lbl, at, a, body);
    assert a[0].op == Str && a[1].op == Ads && a[2].op == Ads && z[0].op == Sbs && z[1].op == Ldr && z[2].op == Jnc;
    assert m.code[at + 0] == Resolve(a[0], lbl);
    assert m.code[at + 3 + |body| + 0] == Resolve(z[0], lbl);
  }

  /** The callee saves fp above lr and starts its own frame there. */
  lemma FnEnter(m: Image, lbl: Labels, s: State, at: nat, fn: Fn) returns (s': State)
    requires Coded(m) && At(m, lbl, at, CompileFn(fn))
    requires s.regs[PC] == m.base + at && Running(s) && |s.mem| <= ADDRESSES
    requires m.lo <= s.regs[SP] && s.regs[SP] + 1 < |s.mem|
    ensures Runs(m, s, s') && s'.mem == s.mem[s.regs[SP] + 1 := s.regs[FP]]
    ensures s'.regs == s.regs[SP := s.regs[SP] + 1][FP := s.regs[SP] + 1][PC := m.base + at + 3]
  {
    hide At, CompileFn, CompileSeq, ParamSlots, Runs, Resolve, Exec, Step;
    AtFn(m, lbl, at, fn);
    var sp := s.regs[SP];
    assert Ready(m, s, at);
    RunStore(m, s, at, FP, SP, 1);
    var s1 := State(s.regs[PC := m.base + at + 1], s.mem[sp + 1 := s.regs[FP]]);
    assert Ready(m, s1, at + 1);
    RunAddImm(m, s1, at + 1, SP, SP, 1);
    var s2 := State(s1.regs[SP := sp + 1][PC := m.base + (at + 1) + 1], s1.mem);
    RunsTrans(m, s, s1, s2);
    assert Ready(m, s2, at + 2);
    RunAddImm(m, s2, at + 2, FP, SP, 0);
    s' := State(s2.regs[FP := sp + 1][PC := m.base + (at + 2) + 1], s1.mem);
    RunsTrans(m, s, s2, s');
    assert s'.regs == s.regs[SP := sp + 1][FP := sp + 1][PC := m.base + at + 3];
  }

  lemma FnLeave(m: Image, lbl: Labels, s: State, at: nat, fn: Fn, fp: Word) returns (s': State)
    requires Coded(m) && At(m, lbl, at, CompileFn(fn))
    requires s.regs[PC] == m.base + at + 3 + |CompileSeq(fn.body, 0, ParamSlots(fn.params, |fn.params|))|
    requires Running(s) && |s.mem| <= ADDRESSES
    requires 1 <= s.regs[SP] < |s.mem| && s.mem[s.regs[SP]] == fp
    ensures Runs(m, s, s') && s'.mem == s.mem
    ensures s'.regs == s.regs[SP := s.regs[SP] - 1][FP := fp][PC := s.regs[LR]]
  {
    AtFn(m, lbl, at, fn);
    var q := at + 3 + |CompileSeq(fn.body, 0, ParamSlots(fn.params, |fn.params|))|;
    s' := FnLeaveCode(m, s, q, fp);
  }

  lemma FnLeaveCode(m: Image, s: State, q: nat, fp: Word) returns (s': State)
    requires Coded(m) && q + 3 <= |m.code| && s.regs[PC] == m.base + q
    requires m.code[q] == Instr(Sbs, SP, SP, Imm(1)) && m.code[q + 1] == Instr(Ldr, FP, SP, Imm(1))
    requires m.code[q + 2] == Instr(Jnc, SR, LR, Imm(0))
    requires Running(s) && |s.mem| <= ADDRESSES
    requires 1 <= s.regs[SP] < |s.mem| && s.mem[s.regs[SP]] == fp
    ensures Runs(m, s, s') && s'.mem == s.mem
    ensures s'.regs == s.regs[SP := s.regs[SP] - 1][FP := fp][PC := s.regs[LR]]
  {
    var sp := s.regs[SP];
    assert Ready(m, s, q);
    RunSubImm(m, s, q, SP, SP, 1);
    var s1 := State(s.regs[SP := sp - 1][PC := m.base + q + 1], s.mem);
    assert Ready(m, s1, q + 1);
    RunLoad(m, s1, q + 1, FP, SP, 1);
    var s2 := State(s1.regs[FP := fp][PC := m.base + (q + 1) + 1], s.mem);
    RunsTrans(m, s, s1, s2);
    assert Ready(m, s2, q + 2);
    RunJump(m, s2, q + 2, SR, LR, 0);
    s' := State(s2.regs[PC := s.regs[LR]], s.mem);
    RunsTrans(m, s, s2, s');
    assert s'.regs == s.regs[SP := sp - 1][FP := fp][PC := s.regs[LR]];
  }
}
