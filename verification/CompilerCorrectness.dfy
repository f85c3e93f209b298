/**
 Compiled code computes what the source language means.  The central lemma is by
 induction on fuel and syntax: running the code of an expression from its first
 line ends just after its last one, with the value in r1d, every other register
 as before, and the frame's slots holding the final environment.
 */
module CompilerCorrectness {
  import opened Words
  import opened Machine
  import opened Source
  import opened Compiler
  import opened Instructions

  type Labels = map<Label, nat>

  function Resolve(l: Asm, lbl: Labels): Instr {
    Instr(l.op, l.a, l.b,
          match l.c
          case AReg(r) => Reg(r)
          case AImm(i) => Imm(i)
          case ALabel(n) => Imm(if n in lbl then lbl[n] else 0))
  }

  /** The lines c stand, with labels resolved, at offset at of the image. */
  ghost predicate At(m: Image, lbl: Labels, at: nat, c: seq<Asm>) {
    at + |c| <= |m.code| && forall k {:trigger c[k]} :: 0 <= k < |c| ==> m.code[at + k] == Resolve(c[k], lbl)
  }

  lemma AtSplit(m: Image, lbl: Labels, at: nat, x: seq<Asm>, y: seq<Asm>)
    requires At(m, lbl, at, x + y)
    ensures At(m, lbl, at, x) && At(m, lbl, at + |x|, y)
  {
    forall k | 0 <= k < |x| ensures m.code[at + k] == Resolve(x[k], lbl) {
      assert (x + y)[k] == x[k];
    }
    forall k | 0 <= k < |y| ensures m.code[at + |x| + k] == Resolve(y[k], lbl) {
      assert (x + y)[|x| + k] == y[k];
    }
  }

  /** AtSplit with the position of the second part named. */
  lemma AtCut(m: Image, lbl: Labels, at: nat, c: seq<Asm>, x: seq<Asm>, y: seq<Asm>, at2: nat)
    requires At(m, lbl, at, c) && c == x + y && at2 == at + |x|
    ensures At(m, lbl, at, x) && At(m, lbl, at2, y)
  {
    AtSplit(m, lbl, at, x, y);
  }

  lemma AtOne(m: Image, lbl: Labels, at: nat, l: Asm)
    requires At(m, lbl, at, [l])
    ensures at < |m.code| && m.code[at] == Resolve(l, lbl)
  {
    assert [l][0] == l;
  }

  /** The image is accepted by the assembler and fits below its data. */
  ghost predicate Coded(m: Image) {
    m.base + |m.code| <= m.lo <= ADDRESSES && forall k {:trigger WellFormed(m.code[k])} :: 0 <= k < |m.code| ==> WellFormed(m.code[k])
  }

  /** The image is coded and holds every function of the program at its label. */
  ghost predicate World(m: Image, lbl: Labels, p: Program) {
    && Coded(m)
    && (forall f {:trigger FnPlaced(m, lbl, p, f)} :: f in p.fns ==> FnPlaced(m, lbl, p, f))
    && (forall f {:trigger AddrPlaced(m, lbl, p, f)} :: f in p.addr ==> AddrPlaced(m, lbl, p, f))
  }

  ghost predicate FnPlaced(m: Image, lbl: Labels, p: Program, f: Name)
    requires f in p.fns
  {
    Mangled(f) in lbl && At(m, lbl, lbl[Mangled(f)], CompileFn(p.fns[f]))
  }

  ghost predicate AddrPlaced(m: Image, lbl: Labels, p: Program, f: Name)
    requires f in p.addr
  {
    Mangled(f) in lbl && p.addr[f] == m.base + lbl[Mangled(f)]
  }

  /** About to run the line at offset at, between expressions: sp and fp agree. */
  ghost predicate Poised(m: Image, s: State, at: nat) {
    && s.regs[PC] == m.base + at && Running(s) && s.regs[BP] == m.base
    && s.regs[SP] == s.regs[FP] && m.lo <= s.regs[FP] && |s.mem| <= ADDRESSES
  }

  /** Slots of the names in scope: distinct, at most idx, in the data area, off the saved fp and lr. */
  ghost predicate Placed(m: Image, slots: Slots, fp: nat, idx: int) {
    && 0 <= idx
    && (forall x :: x in slots ==> slots[x] <= idx && m.lo <= fp + slots[x] && slots[x] != 0 && slots[x] != -1)
    && (forall x, y :: x in slots && y in slots && x != y ==> slots[x] != slots[y])
  }

  ghost predicate Holds(env: Env, slots: Slots, mem: seq<Word>, fp: nat) {
    && env.Keys == slots.Keys
    && forall x :: x in slots && env[x].Some? ==> 0 <= fp + slots[x] < |mem| && mem[fp + slots[x]] == env[x].value
  }

  ghost function VarCells(slots: Slots, fp: nat): set<int> { set x | x in slots :: fp + slots[x] }

  /** Nothing at or below slot idx has changed, except variables in scope. */
  ghost predicate Kept(mem: seq<Word>, mem': seq<Word>, slots: Slots, fp: nat, idx: int) {
    && |mem'| == |mem|
    && forall a :: 0 <= a < |mem| && a <= fp + idx && a !in VarCells(slots, fp) ==> mem'[a] == mem[a]
  }

  /** The state after code of length n has run from s, leaving v. */
  ghost predicate Finished(m: Image, s: State, s': State, at: nat, n: nat, v: Word) {
    Runs(m, s, s') && m.base + at + n < W64 && s'.regs == s.regs[RR := v][PC := m.base + at + n]
  }

  lemma ReadyAt(m: Image, s: State, at: nat)
    requires Coded(m) && Poised(m, s, at) && at < |m.code|
    ensures Ready(m, s, at)
  {
  }

  lemma KeptTrans(a: seq<Word>, b: seq<Word>, c: seq<Word>, slots: Slots, fp: nat, idx: int, idx': int)
    requires Kept(a, b, slots, fp, idx) && Kept(b, c, slots, fp, idx') && idx <= idx'
    ensures Kept(a, c, slots, fp, idx)
  {
  }

  /** Writing a slot above idx disturbs neither the slots kept nor the environment. */
  lemma ScratchWrite(m: Image, env: Env, slots: Slots, mem: seq<Word>, fp: nat, idx: int, slot: int, v: Word)
    requires Placed(m, slots, fp, idx) && Holds(env, slots, mem, fp) && idx < slot && 0 <= fp + slot < |mem|
    ensures Kept(mem, mem[fp + slot := v], slots, fp, idx) && Holds(env, slots, mem[fp + slot := v], fp)
  {
  }

  /** The induction hypothesis, as what it says of one expression. */
  ghost predicate Correct(m: Image, s: State, s': State, at: nat, n: nat, o: Out, slots: Slots, idx: int) {
    && Finished(m, s, s', at, n, o.acc)
    && Kept(s.mem, s'.mem, slots, s.regs[FP], idx)
    && Holds(o.env, slots, s'.mem, s.regs[FP])
  }

  /** What running an expression's code requires. */
  ghost predicate Start(m: Image, s: State, at: nat, acc: Word, env: Env, slots: Slots, idx: int, need: nat) {
    && Poised(m, s, at) && s.regs[RR] == acc
    && Placed(m, slots, s.regs[FP], idx) && Holds(env, slots, s.mem, s.regs[FP])
    && s.regs[FP] + idx + need < |s.mem|
  }

  // ------------------------------------------------------------ leaf forms

  lemma XorZero(m: Image, lbl: Labels, s: State, at: nat) returns (s': State)
    requires Coded(m) && Poised(m, s, at)
    requires At(m, lbl, at, [Asm(Xor, RR, RR, AReg(RR))])
    ensures Runs(m, s, s') && s' == State(s.regs[RR := 0][PC := m.base + at + 1], s.mem)
  {
    s' := State(s.regs[RR := 0][PC := m.base + at + 1], s.mem);
    AtOne(m, lbl, at, Asm(Xor, RR, RR, AReg(RR)));
    ReadyAt(m, s, at);
    NotLowBit(s.regs[RR]);
    RunAlu(m, s, at, Xor, RR, RR, Reg(RR), 0);
  }

  lemma AddToZero(v: int)
    ensures Add(0, ToWord(v)) == ToWord(v)
  {
  }

  lemma IntCorrect(m: Image, lbl: Labels, n: int, s: State, at: nat) returns (s': State)
    requires Coded(m) && Poised(m, s, at) && At(m, lbl, at, CompileExpr(Int(n), 0, map[]))
    ensures Finished(m, s, s', at, 2, ToWord(n)) && s'.mem == s.mem
  {
    var l0, l1 := Asm(Xor, RR, RR, AReg(RR)), Asm(Ads, RR, RR, AImm(n));
    assert [l0, l1] == [l0] + [l1];
    AtSplit(m, lbl, at, [l0], [l1]);
    var s1 := XorZero(m, lbl, s, at);
    AtOne(m, lbl, at + 1, l1);
    ReadyAt(m, s1, at + 1);
    AddToZero(n);
    RunAlu(m, s1, at + 1, Ads, RR, RR, Imm(n), ToWord(n));
    s' := State(s1.regs[RR := ToWord(n)][PC := m.base + (at + 1) + 1], s.mem);
    RunsTrans(m, s, s1, s');
  }

  lemma VarCorrect(m: Image, lbl: Labels, s: State, at: nat, r: nat, slot: int) returns (s': State)
    requires Coded(m) && Poised(m, s, at) && At(m, lbl, at, [Load(r, slot)]) && r != PC && r < NUM_REGS
    requires 0 <= s.regs[FP] + slot < |s.mem|
    ensures Runs(m, s, s') && s' == State(s.regs[r := s.mem[s.regs[FP] + slot]][PC := m.base + at + 1], s.mem)
  {
    s' := State(s.regs[r := s.mem[s.regs[FP] + slot]][PC := m.base + at + 1], s.mem);
    AtOne(m, lbl, at, Load(r, slot));
    ReadyAt(m, s, at);
    RunLoad(m, s, at, r, FP, slot);
  }

  lemma StoreCorrect(m: Image, lbl: Labels, s: State, at: nat, r: nat, slot: int) returns (s': State)
    requires Coded(m) && Poised(m, s, at) && At(m, lbl, at, [Store(r, slot)]) && r < NUM_REGS
    requires m.lo <= s.regs[FP] + slot < |s.mem|
    ensures m.base + at + 1 < W64
    ensures Runs(m, s, s') && s' == State(s.regs[PC := m.base + at + 1], s.mem[s.regs[FP] + slot := s.regs[r]])
  {
    s' := State(s.regs[PC := m.base + at + 1], s.mem[s.regs[FP] + slot := s.regs[r]]);
    AtOne(m, lbl, at, Store(r, slot));
    ReadyAt(m, s, at);
    RunStore(m, s, at, r, FP, slot);
  }

  // ------------------------------------------------------ binary operators

  lemma AtBinary(m: Image, lbl: Labels, at: nat, c: seq<Asm>, c1: seq<Asm>, c2: seq<Asm>, idx: int, comb: seq<Asm>)
    requires At(m, lbl, at, c) && c == Binary(c1, c2, idx, comb)
    ensures At(m, lbl, at, [Store(0, idx + 1)])
    ensures At(m, lbl, at + 1, c1)
    ensures At(m, lbl, at + 1 + |c1|, [Store(RR, idx + 2)])
    ensures At(m, lbl, at + 2 + |c1|, c2)
    ensures At(m, lbl, at + 2 + |c1| + |c2|, [Load(0, idx + 2)])
    ensures At(m, lbl, at + 3 + |c1| + |c2|, comb)
    ensures At(m, lbl, at + 3 + |c1| + |c2| + |comb|, [Load(0, idx + 1)])
    ensures |c| == 4 + |c1| + |c2| + |comb|
  {
    var a, b, g, d := [Store(0, idx + 1)], [Store(RR, idx + 2)], [Load(0, idx + 2)], [Load(0, idx + 1)];
    AtSplit(m, lbl, at, a + c1 + b + c2 + g + comb, d);
    AtSplit(m, lbl, at, a + c1 + b + c2 + g, comb);
    AtSplit(m, lbl, at, a + c1 + b + c2, g);
    AtSplit(m, lbl, at, a + c1 + b, c2);
    AtSplit(m, lbl, at, a + c1, b);
    AtSplit(m, lbl, at, a, c1);
  }

  /** Save r0 below the first operand. */
  lemma BinaryBefore(m: Image, lbl: Labels, acc: Word, env: Env, slots: Slots, idx: int, s: State, at: nat, need: nat)
    returns (s1: State)
    requires Coded(m) && Start(m, s, at, acc, env, slots, idx, 1 + need)
    requires At(m, lbl, at, [Store(0, idx + 1)])
    ensures Runs(m, s, s1) && Start(m, s1, at + 1, acc, env, slots, idx + 1, need)
    ensures Kept(s.mem, s1.mem, slots, s.regs[FP], idx)
    ensures s1.regs == s.regs[PC := m.base + at + 1] && s1.mem[s.regs[FP] + idx + 1] == s.regs[0]
  {
    var fp := s.regs[FP];
    s1 := StoreCorrect(m, lbl, s, at, 0, idx + 1);
    ScratchWrite(m, env, slots, s.mem, fp, idx, idx + 1, s.regs[0]);
  }

  /** Save the first value below the second operand. */
  lemma BinaryMiddle(m: Image, lbl: Labels, o: Out, slots: Slots, idx: int,
                     s1: State, s2: State, at: nat, n: nat, need: nat, at3: nat) returns (s3: State)
    requires Coded(m) && Poised(m, s1, at) && Placed(m, slots, s1.regs[FP], idx)
    requires Correct(m, s1, s2, at, n, o, slots, idx + 1)
    requires At(m, lbl, at + n, [Store(RR, idx + 2)]) && s1.regs[FP] + idx + 2 + need < |s1.mem|
    requires at3 == at + n + 1
    ensures Runs(m, s1, s3) && Start(m, s3, at3, o.acc, o.env, slots, idx + 2, need)
    ensures Kept(s1.mem, s3.mem, slots, s1.regs[FP], idx)
    ensures s3.regs == s1.regs[RR := o.acc][PC := m.base + at3]
    ensures s3.mem[s1.regs[FP] + idx + 1] == s1.mem[s1.regs[FP] + idx + 1]
    ensures s3.mem[s1.regs[FP] + idx + 2] == o.acc
  {
    hide At, Coded, Runs;
    var fp := s1.regs[FP];
    s3 := StoreCorrect(m, lbl, s2, at + n, RR, idx + 2);
    ScratchWrite(m, o.env, slots, s2.mem, fp, idx + 1, idx + 2, o.acc);
    RunsTrans(m, s1, s2, s3);
    KeptTrans(s1.mem, s2.mem, s3.mem, slots, fp, idx, idx + 1);
    assert fp + idx + 1 !in VarCells(slots, fp);
  }

  /** Fetch the first value into r0 after the second operand. */
  lemma BinaryFetch(m: Image, lbl: Labels, o: Out, slots: Slots, idx: int,
                    s3: State, s4: State, at: nat, n: nat, at5: nat) returns (s5: State)
    requires Coded(m) && Poised(m, s3, at) && Placed(m, slots, s3.regs[FP], idx)
    requires Correct(m, s3, s4, at, n, o, slots, idx + 2)
    requires At(m, lbl, at + n, [Load(0, idx + 2)]) && s3.regs[FP] + idx + 2 < |s3.mem|
    requires at5 == at + n + 1
    ensures Runs(m, s3, s5) && s5.mem == s4.mem && Poised(m, s5, at5)
    ensures s5.regs == s3.regs[RR := o.acc][0 := s3.mem[s3.regs[FP] + idx + 2]][PC := m.base + at5]
    ensures s5.mem[s3.regs[FP] + idx + 1] == s3.mem[s3.regs[FP] + idx + 1]
  {
    var fp := s3.regs[FP];
    assert fp + idx + 1 !in VarCells(slots, fp) && fp + idx + 2 !in VarCells(slots, fp);
    s5 := VarCorrect(m, lbl, s4, at + n, 0, idx + 2);
    RunsTrans(m, s3, s4, s5);
  }

  /** Give r0 its old value back. */
  lemma BinaryRestore(m: Image, lbl: Labels, idx: int, s: State, at: nat, r0: Word) returns (s': State)
    requires Coded(m) && Poised(m, s, at) && At(m, lbl, at, [Load(0, idx + 1)])
    requires 0 <= s.regs[FP] + idx + 1 < |s.mem| && s.mem[s.regs[FP] + idx + 1] == r0
    ensures Runs(m, s, s') && s' == State(s.regs[0 := r0][PC := m.base + at + 1], s.mem)
  {
    s' := VarCorrect(m, lbl, s, at, 0, idx + 1);
  }

  lemma OperateCorrect(m: Image, lbl: Labels, op: Opcode, s: State, at: nat, v: Word) returns (s': State)
    requires Coded(m) && Poised(m, s, at) && At(m, lbl, at, [Operate(op)]) && IsPrim(op)
    requires Alu(op, s.regs[0], s.regs[RR]) == Some(v)
    ensures m.base + at + 1 < W64
    ensures Runs(m, s, s') && s' == State(s.regs[RR := v][PC := m.base + at + 1], s.mem)
  {
    AtOne(m, lbl, at, Operate(op));
    ReadyAt(m, s, at);
    RunAlu(m, s, at, op, RR, 0, Reg(RR), v);
    s' := State(s.regs[RR := v][PC := m.base + at + 1], s.mem);
  }

  lemma SignBit(d: Word)
    ensures ToWord(0x3f) == 0x3f && Shift(d, 0x3f) == Some(if d >= W63 then 1 else 0)
  {
    Pow2At64();
    assert Signed(0x3f) == 63;
    assert d / W63 == if d >= W63 then 1 else 0;
  }

  /** sbs then shf leave the sign of the difference. */
  lemma CompareCorrect(m: Image, lbl: Labels, s: State, at: nat, a: Word, b: Word) returns (s': State)
    requires Coded(m) && Poised(m, s, at)
    requires At(m, lbl, at, [Operate(Sbs), Asm(Shf, RR, RR, AImm(0x3f))])
    requires s.regs[0] == b && s.regs[RR] == a
    ensures Runs(m, s, s') && s' == State(s.regs[RR := Greater(a, b)][PC := m.base + at + 2], s.mem)
  {
    hide *;
    var l0, l1 := Operate(Sbs), Asm(Shf, RR, RR, AImm(0x3f));
    assert [l0, l1] == [l0] + [l1];
    AtSplit(m, lbl, at, [l0], [l1]);
    SbsIsPrim(b, a);
    RegsAgain(s.regs, 0, 0, 0, 0);
    var d := Sub(b, a);
    var s1 := OperateCorrect(m, lbl, Sbs, s, at, d);
    PoisedNext(m, s, s1, at, d);
    s' := SignCorrect(m, lbl, s1, at + 1, d);
    GreaterIs(a, b);
    RegsAgain(s.regs, d, m.base + at + 1, Greater(a, b), m.base + (at + 1) + 1);
    RunsTrans(m, s, s1, s');
  }

  lemma SbsIsPrim(b: Word, a: Word)
    ensures IsPrim(Sbs) && Alu(Sbs, b, a) == Some(Sub(b, a))
  {
  }

  lemma GreaterIs(a: Word, b: Word)
    ensures Greater(a, b) == if Sub(b, a) >= W63 then 1 else 0
  {
  }

  /** The state after a line that only changes r1d. */
  lemma PoisedNext(m: Image, s: State, s': State, at: nat, v: Word)
    requires Poised(m, s, at) && m.base + at + 1 < W64 && s' == State(s.regs[RR := v][PC := m.base + at + 1], s.mem)
    ensures Poised(m, s', at + 1) && s'.regs[RR] == v
  {
  }

  /** Only the last value and the last place count. */
  lemma RegsAgain(r: Regs, v: Word, p: Word, v': Word, p': Word)
    ensures RR < 32 && PC < 32 && r[RR := v][PC := p][RR := v'][PC := p'] == r[RR := v'][PC := p']
    ensures W64 == 0x1_0000_0000_0000_0000
  {
  }

  /** The sign bit of r1d. */
  lemma SignCorrect(m: Image, lbl: Labels, s: State, at: nat, d: Word) returns (s': State)
    requires Coded(m) && Poised(m, s, at) && At(m, lbl, at, [Asm(Shf, RR, RR, AImm(0x3f))]) && s.regs[RR] == d
    ensures m.base + at + 1 < W64
    ensures Runs(m, s, s') && s' == State(s.regs[RR := if d >= W63 then 1 else 0][PC := m.base + at + 1], s.mem)
  {
    var v: Word := if d >= W63 then 1 else 0;
    AtOne(m, lbl, at, Asm(Shf, RR, RR, AImm(0x3f)));
    ReadyAt(m, s, at);
    SignBit(d);
    RunAlu(m, s, at, Shf, RR, RR, Imm(0x3f), v);
    s' := State(s.regs[RR := v][PC := m.base + at + 1], s.mem);
  }
}
