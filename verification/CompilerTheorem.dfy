/** The induction over expressions, and correctness of compiled calls. */
module CompilerTheorem {
  import opened Words
  import opened Machine
  import opened Source
  import opened Compiler
  import opened Instructions
  import opened CompilerCorrectness
  import opened ControlFlow

  datatype Setup = Setup(m: Image, lbl: Labels, p: Program)

  /** An image that holds a program. */
  type Rig = w: Setup | World(w.m, w.lbl, w.p) witness Setup(Image([], 0, 0), map[], Program(map[], map[]))

  // ----------------------------------------------------- parameters, scopes

  lemma {:induction false} ParamSlotsPlaced(params: seq<Name>, n: nat, slots: Slots)
    requires |params| <= n && slots == ParamSlots(params, n)
    ensures forall x :: x in slots ==> 0 - n - 1 <= slots[x] < |params| - n - 1
    ensures forall x, y :: x in slots && y in slots && x != y ==> slots[x] != slots[y]
    decreases |params|
  {
    if params != [] {
      var i := |params| - 1;
      ParamSlotsPlaced(params[..i], n, ParamSlots(params[..i], n));
    }
  }

  /** The caller's argument slots are the callee's parameters. */
  lemma {:induction false} ParamsHold(params: seq<Name>, vals: seq<Word>, n: nat, mem: seq<Word>, fp: nat)
    requires |params| == |vals| <= n <= fp - 1 && fp <= |mem|
    requires forall i :: 0 <= i < |vals| ==> mem[fp + i - n - 1] == vals[i]
    ensures Holds(BindParams(params, vals), ParamSlots(params, n), mem, fp)
    decreases |params|
  {
    if params != [] {
      var i := |params| - 1;
      ParamsHold(params[..i], vals[..i], n, mem, fp);
      ParamSlotsPlaced(params, n, ParamSlots(params, n));
      assert mem[fp + i - n - 1] == vals[i];
    }
  }

  lemma ScopeEnter(m: Image, env: Env, slots: Slots, mem: seq<Word>, fp: nat, idx: int, x: Name)
    requires Placed(m, slots, fp, idx) && Holds(env, slots, mem, fp) && m.lo <= fp
    ensures Placed(m, slots[x := idx + 1], fp, idx + 1) && Holds(env[x := None], slots[x := idx + 1], mem, fp)
  {
  }

  lemma ScopeCells(m: Image, slots: Slots, fp: nat, idx: int, x: Name)
    requires Placed(m, slots, fp, idx)
    ensures VarCells(slots[x := idx + 1], fp) <= VarCells(slots, fp) + {fp + idx + 1}
    ensures x in slots ==> fp + slots[x] !in VarCells(slots[x := idx + 1], fp)
  {
  }

  lemma ScopeLeave(m: Image, outer: Env, inner: Env, slots: Slots, mem: seq<Word>, mem': seq<Word>, fp: nat, idx: int, x: Name)
    requires Placed(m, slots, fp, idx) && Holds(outer, slots, mem, fp)
    requires Holds(inner, slots[x := idx + 1], mem', fp) && Kept(mem, mem', slots[x := idx + 1], fp, idx)
    ensures Holds(Restore(outer, inner, x), slots, mem', fp) && Kept(mem, mem', slots, fp, idx)
  {
    hide *;
    ScopeCells(m, slots, fp, idx, x);
    ScopeKept(mem, mem', slots, fp, idx, x);
    RestoredHolds(m, outer, inner, slots, mem, mem', fp, idx, x);
  }

  lemma ScopeKept(mem: seq<Word>, mem': seq<Word>, slots: Slots, fp: nat, idx: int, x: Name)
    requires Kept(mem, mem', slots[x := idx + 1], fp, idx)
    requires VarCells(slots[x := idx + 1], fp) <= VarCells(slots, fp) + {fp + idx + 1}
    ensures Kept(mem, mem', slots, fp, idx)
  {
    hide VarCells;
  }

  lemma RestoredHolds(m: Image, outer: Env, inner: Env, slots: Slots, mem: seq<Word>, mem': seq<Word>, fp: nat, idx: int, x: Name)
    requires Placed(m, slots, fp, idx) && Holds(outer, slots, mem, fp)
    requires Holds(inner, slots[x := idx + 1], mem', fp) && Kept(mem, mem', slots[x := idx + 1], fp, idx)
    requires x in slots ==> fp + slots[x] !in VarCells(slots[x := idx + 1], fp)
    ensures Holds(Restore(outer, inner, x), slots, mem', fp)
  {
    hide VarCells;
    var env := Restore(outer, inner, x);
    assert env.Keys == slots.Keys;
    forall y | y in slots && env[y].Some? ensures 0 <= fp + slots[y] < |mem'| && mem'[fp + slots[y]] == env[y].value {
      if y == x {
        assert mem'[fp + slots[x]] == mem[fp + slots[x]];
      } else {
        assert slots[x := idx + 1][y] == slots[y] && env[y] == inner[y];
      }
    }
  }

  /** Storing into the slot of a variable. */
  lemma VariableWrite(m: Image, env: Env, slots: Slots, mem: seq<Word>, fp: nat, idx: int, x: Name, v: Word)
    requires Placed(m, slots, fp, idx) && Holds(env, slots, mem, fp) && x in slots && 0 <= fp + slots[x] < |mem|
    ensures Kept(mem, mem[fp + slots[x] := v], slots, fp, idx)
    ensures Holds(env[x := Some(v)], slots, mem[fp + slots[x] := v], fp)
  {
  }

  // ------------------------------------------------------------ sequencing

  lemma StartNext(m: Image, s: State, s1: State, at: nat, n: nat, o: Out, acc: Word, env: Env,
                  slots: Slots, idx: int, need: nat)
    requires Start(m, s, at, acc, env, slots, idx, need) && Correct(m, s, s1, at, n, o, slots, idx)
    ensures Start(m, s1, at + n, o.acc, o.env, slots, idx, need)
  {
  }

  lemma StartLess(m: Image, s: State, at: nat, acc: Word, env: Env, slots: Slots, idx: int, need: nat, need': nat)
    requires Start(m, s, at, acc, env, slots, idx, need) && need' <= need
    ensures Start(m, s, at, acc, env, slots, idx, need')
  {
  }

  lemma SameNames(m: Image, s: State, at: nat, acc: Word, env: Env, slots: Slots, idx: int, need: nat, x: Name)
    requires Start(m, s, at, acc, env, slots, idx, need)
    ensures x in env <==> x in slots
  {
  }

  lemma CorrectThen(m: Image, s: State, s1: State, s2: State, at: nat, n1: nat, at2: nat, n2: nat, n: nat, o1: Out, o2: Out, o: Out,
                    slots: Slots, idx: int)
    requires Correct(m, s, s1, at, n1, o1, slots, idx) && Correct(m, s1, s2, at2, n2, o2, slots, idx)
    requires at2 == at + n1 && n == n1 + n2 && o == o2.(need := o.need)
    ensures Correct(m, s, s2, at, n, o, slots, idx)
  {
    RunsTrans(m, s, s1, s2);
    KeptTrans(s.mem, s1.mem, s2.mem, slots, s.regs[FP], idx, idx);
    assert s2.regs == s.regs[RR := o2.acc][PC := m.base + at + n];
  }

  lemma CorrectAs(m: Image, s: State, s': State, at: nat, n: nat, n': nat, o: Out, o': Out, slots: Slots, idx: int)
    requires Correct(m, s, s', at, n, o, slots, idx) && n' == n && o' == o.(need := o'.need)
    ensures Correct(m, s, s', at, n', o', slots, idx)
  {
  }

  // ------------------------------------------------------------- induction

  /** Code c of expression e, run with enough stack, leaves what e evaluates to. */
  lemma {:induction false} ExprCorrect(w: Rig, fuel: nat, e: Expr, acc: Word, env: Env, o: Out,
                                       slots: Slots, idx: int, c: seq<Asm>, s: State, at: nat) returns (s': State)
    requires Eval(w.p, fuel, e, acc, env) == Some(o) && c == CompileExpr(e, idx, slots)
    requires Start(w.m, s, at, acc, env, slots, idx, o.need) && At(w.m, w.lbl, at, c)
    ensures Correct(w.m, s, s', at, |c|, o, slots, idx)
    decreases fuel, Size(e), 3
  {
    hide Start, Correct, At, World;
    match e {
      case Prim(op, l, r) => s' := PrimCorrect(w, fuel, op, l, r, acc, env, o, slots, idx, c, s, at);
      case Gt(l, r) => s' := GtCorrect(w, fuel, l, r, acc, env, o, slots, idx, c, s, at);
      case Let(binds, body) =>
        if body == Done {
          s' := NothingCorrect(w.m, acc, env, slots, idx, s, at);
        } else {
          s' := LetCorrect(w, fuel, binds, body, acc, env, o, slots, idx, c, s, at);
        }
      case Assign(x, e1) =>
        SameNames(w.m, s, at, acc, env, slots, idx, o.need, x);
        if x !in env {
          s' := NothingCorrect(w.m, acc, env, slots, idx, s, at);
        } else {
          s' := AssignCorrect(w, fuel, x, e1, acc, env, o, slots, idx, c, s, at);
        }
      case If(b, yes, no) => s' := IfCorrect(w, fuel, b, yes, no, acc, env, o, slots, idx, c, s, at);
      case Loop(b, body) => s' := LoopCorrect(w, fuel, b, body, acc, env, o, slots, idx, c, s, at);
      case Call(f, args) => s' := CallCorrect(w, fuel, f, args, acc, env, o, slots, idx, c, s, at);
      case Blank => s' := NothingCorrect(w.m, acc, env, slots, idx, s, at);
      case _ => s' := LeafCorrect(w, fuel, e, acc, env, o, slots, idx, c, s, at);
    }
  }

  lemma NothingCorrect(m: Image, acc: Word, env: Env, slots: Slots, idx: int, s: State, at: nat) returns (s': State)
    requires Start(m, s, at, acc, env, slots, idx, 0)
    ensures Correct(m, s, s', at, 0, Out(acc, env, 0), slots, idx)
  {
    RunsRefl(m, s);
    s' := s;
    assert s.regs[RR := acc][PC := m.base + at + 0] == s.regs;
  }

  lemma LeafCorrect(w: Rig, fuel: nat, e: Expr, acc: Word, env: Env, o: Out,
                    slots: Slots, idx: int, c: seq<Asm>, s: State, at: nat) returns (s': State)
    requires Eval(w.p, fuel, e, acc, env) == Some(o) && c == CompileExpr(e, idx, slots)
    requires e.Int? || e.Nil? || e.Var? || e.Def?
    requires Start(w.m, s, at, acc, env, slots, idx, 0) && At(w.m, w.lbl, at, c)
    ensures Correct(w.m, s, s', at, |c|, o, slots, idx)
  {
    match e {
      case Int(n) => s' := IntCorrect(w.m, w.lbl, n, s, at);
      case Nil => s' := XorZero(w.m, w.lbl, s, at);
      case Var(x) => s' := VarCorrect(w.m, w.lbl, s, at, RR, slots[x]);
      case Def(f, _, _) =>
        assert AddrPlaced(w.m, w.lbl, w.p, f);
        AtOne(w.m, w.lbl, at, Asm(Ads, RR, BP, ALabel(Mangled(f))));
        ReadyAt(w.m, s, at);
        RunAddImm(w.m, s, at, RR, BP, w.lbl[Mangled(f)]);
        s' := State(s.regs[RR := w.p.addr[f]][PC := w.m.base + at + 1], s.mem);
    }
  }

  // ------------------------------------------------------ binary operators

  /** Both operands are in place, the first in r0 and the second in r1d; the old r0 is in slot idx + 1. */
  ghost predicate OperandsReady(m: Image, s: State, s': State, at: nat, v1: Word, v2: Word, env: Env, slots: Slots, idx: int) {
    && Runs(m, s, s') && m.base + at < W64 && s'.regs == s.regs[RR := v2][0 := v1][PC := m.base + at]
    && Kept(s.mem, s'.mem, slots, s.regs[FP], idx) && Holds(env, slots, s'.mem, s.regs[FP])
    && 0 <= s.regs[FP] + idx + 1 < |s'.mem| && s'.mem[s.regs[FP] + idx + 1] == s.regs[0]
  }

  /** The first operand, saved in slot idx + 2, with the old r0 in slot idx + 1. */
  lemma FirstOperand(w: Rig, fuel: nat, e1: Expr, acc: Word, env: Env, o1: Out, need2: nat,
                     slots: Slots, idx: int, c1: seq<Asm>, s: State, at: nat, at2: nat, fp: nat) returns (s3: State)
    requires Eval(w.p, fuel, e1, acc, env) == Some(o1) && c1 == CompileExpr(e1, idx + 1, slots)
    requires Start(w.m, s, at, acc, env, slots, idx, Max(1 + o1.need, 2 + need2)) && fp == s.regs[FP]
    requires at2 == at + 2 + |c1|
    requires At(w.m, w.lbl, at, [Store(0, idx + 1)]) && At(w.m, w.lbl, at + 1, c1) && At(w.m, w.lbl, at + 1 + |c1|, [Store(RR, idx + 2)])
    ensures Runs(w.m, s, s3) && Start(w.m, s3, at2, o1.acc, o1.env, slots, idx + 2, need2)
    ensures s3.regs == s.regs[RR := o1.acc][PC := w.m.base + at2] && Kept(s.mem, s3.mem, slots, fp, idx)
    ensures s3.mem[fp + idx + 1] == s.regs[0] && s3.mem[fp + idx + 2] == o1.acc
    decreases fuel, 1 + Size(e1), -1
  {
    hide Correct, At, Eval, CompileExpr;
    var need1 := Max(o1.need, 1 + need2);
    var s1 := BinaryBefore(w.m, w.lbl, acc, env, slots, idx, s, at, need1);
    StartLess(w.m, s1, at + 1, acc, env, slots, idx + 1, need1, o1.need);
    var s2 := ExprCorrect(w, fuel, e1, acc, env, o1, slots, idx + 1, c1, s1, at + 1);
    s3 := FirstSaved(w, acc, env, o1, slots, idx, need1, need2, s, s1, s2, at, |c1|, at2, fp);
  }

  lemma FirstSaved(w: Rig, acc: Word, env: Env, o1: Out, slots: Slots, idx: int, need1: nat, need2: nat,
                   s: State, s1: State, s2: State, at: nat, n: nat, at2: nat, fp: nat) returns (s3: State)
    requires Start(w.m, s1, at + 1, acc, env, slots, idx + 1, need1) && 1 + need2 <= need1 && at2 == at + 2 + n
    requires Runs(w.m, s, s1) && fp == s.regs[FP] && s1.regs == s.regs[PC := w.m.base + at + 1]
    requires Placed(w.m, slots, fp, idx) && Kept(s.mem, s1.mem, slots, fp, idx) && s1.mem[fp + idx + 1] == s.regs[0]
    requires Correct(w.m, s1, s2, at + 1, n, o1, slots, idx + 1) && At(w.m, w.lbl, at + 1 + n, [Store(RR, idx + 2)])
    ensures Runs(w.m, s, s3) && Start(w.m, s3, at2, o1.acc, o1.env, slots, idx + 2, need2)
    ensures s3.regs == s.regs[RR := o1.acc][PC := w.m.base + at2] && Kept(s.mem, s3.mem, slots, fp, idx)
    ensures s3.mem[fp + idx + 1] == s.regs[0] && s3.mem[fp + idx + 2] == o1.acc
  {
    s3 := BinaryMiddle(w.m, w.lbl, o1, slots, idx, s1, s2, at + 1, n, need2, at2);
    RunsTrans(w.m, s, s1, s3);
    KeptTrans(s.mem, s1.mem, s3.mem, slots, fp, idx, idx);
    assert s3.regs == s.regs[RR := o1.acc][PC := w.m.base + at2];
  }

  lemma OperandsCorrect(w: Rig, fuel: nat, e1: Expr, e2: Expr, acc: Word, env: Env, o1: Out, o2: Out,
                        slots: Slots, idx: int, c1: seq<Asm>, c2: seq<Asm>, s: State, at: nat, at2: nat, end: nat)
    returns (s': State)
    requires Eval(w.p, fuel, e1, acc, env) == Some(o1) && Eval(w.p, fuel, e2, o1.acc, o1.env) == Some(o2)
    requires c1 == CompileExpr(e1, idx + 1, slots) && c2 == CompileExpr(e2, idx + 2, slots)
    requires Start(w.m, s, at, acc, env, slots, idx, Max(1 + o1.need, 2 + o2.need))
    requires at2 == at + 2 + |c1| && end == at2 + |c2| + 1
    requires At(w.m, w.lbl, at, [Store(0, idx + 1)]) && At(w.m, w.lbl, at + 1, c1) && At(w.m, w.lbl, at + 1 + |c1|, [Store(RR, idx + 2)])
    requires At(w.m, w.lbl, at2, c2) && At(w.m, w.lbl, at2 + |c2|, [Load(0, idx + 2)])
    ensures OperandsReady(w.m, s, s', end, o1.acc, o2.acc, o2.env, slots, idx)
    decreases fuel, 1 + Size(e1) + Size(e2), 0
  {
    hide Correct, At, Eval, CompileExpr;
    var fp := s.regs[FP];
    var s3 := FirstOperand(w, fuel, e1, acc, env, o1, o2.need, slots, idx, c1, s, at, at2, fp);
    var s4 := ExprCorrect(w, fuel, e2, o1.acc, o1.env, o2, slots, idx + 2, c2, s3, at2);
    s' := OperandsEnd(w.m, w.lbl, s, s3, s4, at2, end, o1.acc, o2, slots, idx, |c2|, fp);
  }

  lemma OperandsEnd(m: Image, lbl: Labels, s: State, s3: State, s4: State, at2: nat, end: nat, v1: Word, o2: Out,
                    slots: Slots, idx: int, n2: nat, fp: nat) returns (s': State)
    requires Coded(m) && Poised(m, s3, at2) && Placed(m, slots, fp, idx)
    requires Runs(m, s, s3) && fp == s.regs[FP] && m.base + at2 < W64 && end == at2 + n2 + 1
    requires 0 <= fp + idx + 1 && fp + idx + 2 < |s3.mem|
    requires Correct(m, s3, s4, at2, n2, o2, slots, idx + 2)
    requires At(m, lbl, at2 + n2, [Load(0, idx + 2)])
    requires s3.regs == s.regs[RR := v1][PC := m.base + at2]
    requires Kept(s.mem, s3.mem, slots, fp, idx)
    requires s3.mem[fp + idx + 1] == s.regs[0] && s3.mem[fp + idx + 2] == v1
    ensures OperandsReady(m, s, s', end, v1, o2.acc, o2.env, slots, idx)
  {
    s' := BinaryFetch(m, lbl, o2, slots, idx, s3, s4, at2, n2, end);
    RunsTrans(m, s, s3, s');
    KeptTrans(s.mem, s3.mem, s4.mem, slots, fp, idx, idx + 2);
    assert s'.regs == s.regs[RR := o2.acc][0 := v1][PC := m.base + end];
  }

  /** Combining has left v in r1d; give r0 back. */
  lemma BinaryFinish(m: Image, lbl: Labels, s: State, s5: State, s6: State, at: nat, at5: nat, at6: nat, n: nat,
                     v1: Word, v2: Word, o: Out, slots: Slots, idx: int) returns (s': State)
    requires Coded(m) && Poised(m, s, at) && OperandsReady(m, s, s5, at5, v1, v2, o.env, slots, idx)
    requires Runs(m, s5, s6) && m.base + at6 < W64
    requires s6 == State(s5.regs[RR := o.acc][PC := m.base + at6], s5.mem)
    requires At(m, lbl, at6, [Load(0, idx + 1)]) && at + n == at6 + 1
    ensures Correct(m, s, s', at, n, o, slots, idx)
  {
    s' := BinaryRestore(m, lbl, idx, s6, at6, s.regs[0]);
    RunsTrans(m, s, s5, s6);
    RunsTrans(m, s, s6, s');
    assert s'.regs == s.regs[RR := o.acc][PC := m.base + at + n];
  }

  lemma PrimCorrect(w: Rig, fuel: nat, op: Opcode, l: Expr, r: Expr, acc: Word, env: Env, o: Out,
                    slots: Slots, idx: int, c: seq<Asm>, s: State, at: nat) returns (s': State)
    requires EvalPrim(w.p, fuel, op, l, r, acc, env) == Some(o)
    requires c == CompilePrim(op, l, r, idx, slots)
    requires Start(w.m, s, at, acc, env, slots, idx, o.need) && At(w.m, w.lbl, at, c)
    ensures Correct(w.m, s, s', at, |c|, o, slots, idx)
    decreases fuel, 1 + Size(l) + Size(r), 2
  {
    hide Start, Correct, At, World;
    var ol, or := PrimParts(w.p, fuel, op, l, r, acc, env, o);
    s' := PrimCode(w, fuel, op, l, r, acc, env, ol, or, o, slots, idx, c, s, at);
  }

  lemma PrimParts(p: Program, fuel: nat, op: Opcode, l: Expr, r: Expr, acc: Word, env: Env, o: Out) returns (ol: Out, or: Out)
    requires EvalPrim(p, fuel, op, l, r, acc, env) == Some(o)
    ensures Eval(p, fuel, l, acc, env) == Some(ol) && Eval(p, fuel, r, ol.acc, ol.env) == Some(or)
    ensures IsPrim(op) && Alu(op, ol.acc, or.acc) == Some(o.acc)
    ensures o.env == or.env && o.need == Max(1 + ol.need, 2 + or.need)
  {
    ol := Eval(p, fuel, l, acc, env).value;
    or := Eval(p, fuel, r, ol.acc, ol.env).value;
  }

  lemma PrimCode(w: Rig, fuel: nat, op: Opcode, l: Expr, r: Expr, acc: Word, env: Env,
                 ol: Out, or: Out, o: Out, slots: Slots, idx: int, c: seq<Asm>, s: State, at: nat) returns (s': State)
    requires Eval(w.p, fuel, l, acc, env) == Some(ol) && Eval(w.p, fuel, r, ol.acc, ol.env) == Some(or)
    requires IsPrim(op) && Alu(op, ol.acc, or.acc) == Some(o.acc)
    requires o.env == or.env && o.need == Max(1 + ol.need, 2 + or.need)
    requires c == Binary(CompileExpr(l, idx + 1, slots), CompileExpr(r, idx + 2, slots), idx, [Operate(op)])
    requires Start(w.m, s, at, acc, env, slots, idx, o.need) && At(w.m, w.lbl, at, c)
    ensures Correct(w.m, s, s', at, |c|, o, slots, idx)
    decreases fuel, 1 + Size(l) + Size(r), 1
  {
    hide Correct, At, Eval, Runs, Alu, CompileExpr, Holds, Placed, Binary;
    var c1, c2 := CompileExpr(l, idx + 1, slots), CompileExpr(r, idx + 2, slots);
    AtBinary(w.m, w.lbl, at, c, c1, c2, idx, [Operate(op)]);
    var at2 := at + 2 + |c1|;
    var at5 := at2 + |c2| + 1;
    var s5 := OperandsCorrect(w, fuel, l, r, acc, env, ol, or, slots, idx, c1, c2, s, at, at2, at5);
    var s6 := OperateCorrect(w.m, w.lbl, op, s5, at5, o.acc);
    s' := BinaryFinish(w.m, w.lbl, s, s5, s6, at, at5, at5 + 1, |c|, ol.acc, or.acc, o, slots, idx);
  }

  lemma GtParts(p: Program, fuel: nat, l: Expr, r: Expr, acc: Word, env: Env, o: Out) returns (ol: Out, or: Out)
    requires EvalGt(p, fuel, l, r, acc, env) == Some(o)
    ensures Eval(p, fuel, r, acc, env) == Some(or) && Eval(p, fuel, l, or.acc, or.env) == Some(ol)
    ensures o == Out(Greater(ol.acc, or.acc), ol.env, Max(1 + or.need, 2 + ol.need))
  {
    or := Eval(p, fuel, r, acc, env).value;
    ol := Eval(p, fuel, l, or.acc, or.env).value;
  }

  lemma GtCorrect(w: Rig, fuel: nat, l: Expr, r: Expr, acc: Word, env: Env, o: Out,
                  slots: Slots, idx: int, c: seq<Asm>, s: State, at: nat) returns (s': State)
    requires EvalGt(w.p, fuel, l, r, acc, env) == Some(o)
    requires c == CompileGt(l, r, idx, slots)
    requires Start(w.m, s, at, acc, env, slots, idx, o.need) && At(w.m, w.lbl, at, c)
    ensures Correct(w.m, s, s', at, |c|, o, slots, idx)
    decreases fuel, 1 + Size(l) + Size(r), 2
  {
    hide Correct, At, Eval;
    var ol, or := GtParts(w.p, fuel, l, r, acc, env, o);
    var c1, c2 := CompileExpr(r, idx + 1, slots), CompileExpr(l, idx + 2, slots);
    var comb := [Operate(Sbs), Asm(Shf, RR, RR, AImm(0x3f))];
    AtBinary(w.m, w.lbl, at, c, c1, c2, idx, comb);
    var at2 := at + 2 + |c1|;
    var at5 := at2 + |c2| + 1;
    var s5 := OperandsCorrect(w, fuel, r, l, acc, env, or, ol, slots, idx, c1, c2, s, at, at2, at5);
    var s6 := CompareCorrect(w.m, w.lbl, s5, at5, ol.acc, or.acc);
    s' := BinaryFinish(w.m, w.lbl, s, s5, s6, at, at5, at5 + 2, |c|, or.acc, ol.acc, o, slots, idx);
  }

  // ----------------------------------------------- sequences and variables

  lemma {:induction false} SeqCorrect(w: Rig, fuel: nat, es: Exprs, acc: Word, env: Env, o: Out,
                                      slots: Slots, idx: int, c: seq<Asm>, s: State, at: nat) returns (s': State)
    requires EvalSeq(w.p, fuel, es, acc, env) == Some(o) && c == CompileSeq(es, idx, slots)
    requires Start(w.m, s, at, acc, env, slots, idx, o.need) && At(w.m, w.lbl, at, c)
    ensures Correct(w.m, s, s', at, |c|, o, slots, idx)
    decreases fuel, SeqSize(es), 0
  {
    hide Start, Correct, At, World, Eval, CompileExpr;
    match es {
      case Done => s' := NothingCorrect(w.m, acc, env, slots, idx, s, at);
      case Then(e, rest) =>
        var o1 := Eval(w.p, fuel, e, acc, env).value;
        var o2 := EvalSeq(w.p, fuel, rest, o1.acc, o1.env).value;
        var c1, c2 := CompileExpr(e, idx, slots), CompileSeq(rest, idx, slots);
        AtSplit(w.m, w.lbl, at, c1, c2);
        StartLess(w.m, s, at, acc, env, slots, idx, o.need, o1.need);
        var s1 := ExprCorrect(w, fuel, e, acc, env, o1, slots, idx, c1, s, at);
        StartNext(w.m, s, s1, at, |c1|, o1, acc, env, slots, idx, o.need);
        StartLess(w.m, s1, at + |c1|, o1.acc, o1.env, slots, idx, o.need, o2.need);
        s' := SeqCorrect(w, fuel, rest, o1.acc, o1.env, o2, slots, idx, c2, s1, at + |c1|);
        CorrectThen(w.m, s, s1, s', at, |c1|, at + |c1|, |c2|, |c|, o1, o2, o, slots, idx);
    }
  }

  lemma RigCoded(w: Rig)
    ensures Coded(w.m) && w.m.base + |w.m.code| < W64
  {
  }

  /** An expression followed by the store of its value into the slot of a name in scope. */
  lemma StoreVariable(w: Rig, acc: Word, env: Env, o: Out, slots: Slots, idx: int, need: nat, x: Name, slot: int,
                      s: State, s1: State, at: nat, n: nat) returns (s2: State)
    requires Start(w.m, s, at, acc, env, slots, idx, need)
    requires Correct(w.m, s, s1, at, n, o, slots, idx) && x in slots && slot == slots[x]
    requires At(w.m, w.lbl, at + n, [Store(RR, slot)])
    ensures Correct(w.m, s, s2, at, n + 1, Out(o.acc, o.env[x := Some(o.acc)], o.need), slots, idx)
  {
    hide At, Runs, World;
    RigCoded(w);
    var fp := s.regs[FP];
    s2 := StoreCorrect(w.m, w.lbl, s1, at + n, RR, slot);
    StoredVariable(w.m, o, slots, idx, x, s.mem, s1.mem, fp);
    RunsTrans(w.m, s, s1, s2);
    assert s2.regs == s.regs[RR := o.acc][PC := w.m.base + at + (n + 1)];
  }

  lemma StoredVariable(m: Image, o: Out, slots: Slots, idx: int, x: Name, mem: seq<Word>, mem1: seq<Word>, fp: nat)
    requires Placed(m, slots, fp, idx) && x in slots && 0 <= fp + slots[x] < |mem1|
    requires Kept(mem, mem1, slots, fp, idx) && Holds(o.env, slots, mem1, fp)
    ensures Kept(mem, mem1[fp + slots[x] := o.acc], slots, fp, idx)
    ensures Holds(o.env[x := Some(o.acc)], slots, mem1[fp + slots[x] := o.acc], fp)
  {
    VariableWrite(m, o.env, slots, mem1, fp, idx, x, o.acc);
    KeptTrans(mem, mem1, mem1[fp + slots[x] := o.acc], slots, fp, idx, idx);
  }

  lemma AssignCorrect(w: Rig, fuel: nat, x: Name, e: Expr, acc: Word, env: Env, o: Out,
                      slots: Slots, idx: int, c: seq<Asm>, s: State, at: nat) returns (s': State)
    requires x in env && x in slots && EvalAssign(w.p, fuel, x, e, acc, env) == Some(o)
    requires c == CompileAssign(x, e, idx, slots)
    requires Start(w.m, s, at, acc, env, slots, idx, o.need) && At(w.m, w.lbl, at, c)
    ensures Correct(w.m, s, s', at, |c|, o, slots, idx)
    decreases fuel, 1 + Size(e), 0
  {
    hide Start, Correct, At, World;
    var o1 := Eval(w.p, fuel, e, acc, env).value;
    var c1 := CompileExpr(e, idx, slots);
    AtSplit(w.m, w.lbl, at, c1, [Store(RR, slots[x])]);
    var s1 := ExprCorrect(w, fuel, e, acc, env, o1, slots, idx, c1, s, at);
    s' := StoreVariable(w, acc, env, o1, slots, idx, o1.need, x, slots[x], s, s1, at, |c1|);
  }

  lemma {:induction false} LetCorrect(w: Rig, fuel: nat, binds: Binds, body: Exprs, acc: Word,
                                      env: Env, o: Out, slots: Slots, idx: int, c: seq<Asm>, s: State, at: nat)
    returns (s': State)
    requires EvalLet(w.p, fuel, binds, body, acc, env) == Some(o)
    requires c == CompileLet(binds, body, idx, slots)
    requires Start(w.m, s, at, acc, env, slots, idx, o.need) && At(w.m, w.lbl, at, c)
    ensures Correct(w.m, s, s', at, |c|, o, slots, idx)
    decreases fuel, BindsSize(binds) + SeqSize(body), 1
  {
    hide Start, Correct, At, World;
    match binds {
      case NoBind => s' := SeqCorrect(w, fuel, body, acc, env, o, slots, idx, c, s, at);
      case Bind(x, e, rest) =>
        var c1, c2 := CompileExpr(e, idx + 1, slots[x := idx + 1]), CompileLet(rest, body, idx + 1, slots[x := idx + 1]);
        var at2 := at + (|c1| + 1);
        AtCut(w.m, w.lbl, at, c, c1 + [Store(RR, idx + 1)], c2, at2);
        s' := BindCorrect(w, fuel, x, e, rest, body, acc, env, o, slots, idx, c1, c2, |c|, s, at, at2);
    }
  }

  lemma LetParts(p: Program, fuel: nat, x: Name, e: Expr, rest: Binds, body: Exprs, acc: Word, env: Env, o: Out)
    returns (o1: Out, o2: Out)
    requires EvalLet(p, fuel, Bind(x, e, rest), body, acc, env) == Some(o)
    ensures Eval(p, fuel, e, acc, env[x := None]) == Some(o1)
    ensures EvalLet(p, fuel, rest, body, o1.acc, o1.env[x := Some(o1.acc)]) == Some(o2)
    ensures o == Out(o2.acc, Restore(env, o2.env, x), 1 + Max(o1.need, o2.need))
  {
    o1 := Eval(p, fuel, e, acc, env[x := None]).value;
    o2 := EvalLet(p, fuel, rest, body, o1.acc, o1.env[x := Some(o1.acc)]).value;
  }

  lemma BindCorrect(w: Rig, fuel: nat, x: Name, e: Expr, rest: Binds, body: Exprs, acc: Word, env: Env, o: Out,
                    slots: Slots, idx: int, c1: seq<Asm>, c2: seq<Asm>, n: nat, s: State, at: nat, at2: nat)
    returns (s': State)
    requires EvalLet(w.p, fuel, Bind(x, e, rest), body, acc, env) == Some(o)
    requires c1 == CompileExpr(e, idx + 1, slots[x := idx + 1]) && c2 == CompileLet(rest, body, idx + 1, slots[x := idx + 1])
    requires at2 == at + (|c1| + 1) && n == |c1| + 1 + |c2|
    requires Start(w.m, s, at, acc, env, slots, idx, o.need)
    requires At(w.m, w.lbl, at, c1 + [Store(RR, idx + 1)]) && At(w.m, w.lbl, at2, c2)
    ensures Correct(w.m, s, s', at, n, o, slots, idx)
    decreases fuel, BindsSize(rest) + SeqSize(body) + Size(e) + 1, 0
  {
    hide Start, Correct, At, World, Eval, CompileExpr;
    var o1, o2 := LetParts(w.p, fuel, x, e, rest, body, acc, env, o);
    var s2 := InitCorrect(w, fuel, x, e, acc, env, o1, slots, idx, c1, s, at, o.need, o2.need, at2);
    s' := LetCorrect(w, fuel, rest, body, o1.acc, o1.env[x := Some(o1.acc)], o2, slots[x := idx + 1], idx + 1, c2, s2, at2);
    LetEnd(w.m, s, s2, s', at, |c1| + 1, at2, |c2|, n, Out(o1.acc, o1.env[x := Some(o1.acc)], o1.need), o2, o, acc, env, slots, idx, x);
  }

  /** The initialiser of a let-bound name and the store into its slot. */
  lemma InitCorrect(w: Rig, fuel: nat, x: Name, e: Expr, acc: Word, env: Env, o1: Out, slots: Slots, idx: int,
                    c1: seq<Asm>, s: State, at: nat, need: nat, need2: nat, at2: nat)
    returns (s2: State)
    requires Eval(w.p, fuel, e, acc, env[x := None]) == Some(o1)
    requires c1 == CompileExpr(e, idx + 1, slots[x := idx + 1]) && at2 == at + (|c1| + 1)
    requires Start(w.m, s, at, acc, env, slots, idx, need) && o1.need + 1 <= need && need2 + 1 <= need
    requires At(w.m, w.lbl, at, c1 + [Store(RR, idx + 1)])
    ensures Correct(w.m, s, s2, at, |c1| + 1, Out(o1.acc, o1.env[x := Some(o1.acc)], o1.need), slots[x := idx + 1], idx + 1)
    ensures Start(w.m, s2, at2, o1.acc, o1.env[x := Some(o1.acc)], slots[x := idx + 1], idx + 1, need2)
    decreases fuel, Size(e), 5
  {
    hide Start, Correct, At, World, Eval, CompileExpr;
    var inner := need - 1;
    StartScope(w.m, s, at, acc, env, slots, idx, x, need, inner);
    s2 := InitCode(w, fuel, x, e, acc, env[x := None], o1, slots[x := idx + 1], idx + 1, c1, s, at, inner, need2, at2);
  }

  lemma InitCode(w: Rig, fuel: nat, x: Name, e: Expr, acc: Word, env: Env, o1: Out, slots: Slots, k: int,
                 c1: seq<Asm>, s: State, at: nat, need: nat, need2: nat, at2: nat)
    returns (s2: State)
    requires Eval(w.p, fuel, e, acc, env) == Some(o1) && x in slots && k == slots[x]
    requires c1 == CompileExpr(e, k, slots) && at2 == at + (|c1| + 1)
    requires Start(w.m, s, at, acc, env, slots, k, need) && o1.need <= need && need2 <= need
    requires At(w.m, w.lbl, at, c1 + [Store(RR, k)])
    ensures Correct(w.m, s, s2, at, |c1| + 1, Out(o1.acc, o1.env[x := Some(o1.acc)], o1.need), slots, k)
    ensures Start(w.m, s2, at2, o1.acc, o1.env[x := Some(o1.acc)], slots, k, need2)
    decreases fuel, Size(e), 4
  {
    hide Start, Correct, At, World, Eval, CompileExpr;
    AtCut(w.m, w.lbl, at, c1 + [Store(RR, k)], c1, [Store(RR, k)], at + |c1|);
    StartLess(w.m, s, at, acc, env, slots, k, need, o1.need);
    var s1 := ExprCorrect(w, fuel, e, acc, env, o1, slots, k, c1, s, at);
    s2 := InitStore(w, acc, env, o1, slots, k, need, need2, x, s, s1, at, |c1|, at2);
  }

  lemma InitStore(w: Rig, acc: Word, env: Env, o: Out, slots: Slots, idx: int, need: nat, need2: nat, x: Name,
                  s: State, s1: State, at: nat, n: nat, at2: nat) returns (s2: State)
    requires Start(w.m, s, at, acc, env, slots, idx, need) && need2 <= need
    requires Correct(w.m, s, s1, at, n, o, slots, idx) && x in slots && idx == slots[x] && at2 == at + (n + 1)
    requires At(w.m, w.lbl, at + n, [Store(RR, idx)])
    ensures Correct(w.m, s, s2, at, n + 1, Out(o.acc, o.env[x := Some(o.acc)], o.need), slots, idx)
    ensures Start(w.m, s2, at2, o.acc, o.env[x := Some(o.acc)], slots, idx, need2)
  {
    hide Start, Correct, At, World;
    s2 := StoreVariable(w, acc, env, o, slots, idx, need, x, idx, s, s1, at, n);
    StartNext(w.m, s, s2, at, n + 1, Out(o.acc, o.env[x := Some(o.acc)], o.need), acc, env, slots, idx, need);
    StartLess(w.m, s2, at2, o.acc, o.env[x := Some(o.acc)], slots, idx, need, need2);
  }

  lemma StartScope(m: Image, s: State, at: nat, acc: Word, env: Env, slots: Slots, idx: int, x: Name, need: nat, need': nat)
    requires Start(m, s, at, acc, env, slots, idx, need) && need' + 1 <= need
    ensures Start(m, s, at, acc, env[x := None], slots[x := idx + 1], idx + 1, need')
  {
    ScopeEnter(m, env, slots, s.mem, s.regs[FP], idx, x);
  }

  lemma LetEnd(m: Image, s: State, s1: State, s2: State, at: nat, n1: nat, at2: nat, n2: nat, n: nat, o1: Out, o2: Out, o: Out,
               acc: Word, env: Env, slots: Slots, idx: int, x: Name)
    requires Start(m, s, at, acc, env, slots, idx, o.need)
    requires Correct(m, s, s1, at, n1, o1, slots[x := idx + 1], idx + 1)
    requires Correct(m, s1, s2, at2, n2, o2, slots[x := idx + 1], idx + 1)
    requires at2 == at + n1 && n == n1 + n2 && o.acc == o2.acc && o.env == Restore(env, o2.env, x)
    ensures Correct(m, s, s2, at, n, o, slots, idx)
  {
    CorrectThen(m, s, s1, s2, at, n1, at2, n2, n, o1, o2, o2, slots[x := idx + 1], idx + 1);
    ScopeLeave(m, env, o2.env, slots, s.mem, s2.mem, s.regs[FP], idx, x);
  }

  // ------------------------------------------------------------ conditions

  /** What the condition and the branch after it leave: 0 and on, or 1 and past n + 1 lines. */
  ghost function Tested(oc: Out): Out { Out(if oc.acc % 2 == 1 then 0 else 1, oc.env, oc.need) }

  ghost function Skipped(oc: Out, k: nat, n: nat): nat { if oc.acc % 2 == 1 then k + 3 else k + 4 + n }

  lemma ConditionCorrect(w: Rig, fuel: nat, b: Expr, acc: Word, env: Env, oc: Out,
                         slots: Slots, idx: int, c: seq<Asm>, s: State, at: nat, n: nat) returns (s': State)
    requires Eval(w.p, fuel, b, acc, env) == Some(oc) && c == CompileExpr(b, idx, slots)
    requires Start(w.m, s, at, acc, env, slots, idx, oc.need)
    requires At(w.m, w.lbl, at, c) && At(w.m, w.lbl, at + |c|, Branch(n)) && at + |c| + 4 + n <= |w.m.code|
    ensures Correct(w.m, s, s', at, Skipped(oc, |c|, n), Tested(oc), slots, idx)
    decreases fuel, Size(b), 4
  {
    hide At, Runs, Eval, CompileExpr, Branch, Holds;
    var s1 := ExprCorrect(w, fuel, b, acc, env, oc, slots, idx, c, s, at);
    s' := BranchCorrect(w.m, w.lbl, s1, at + |c|, n);
    RunsTrans(w.m, s, s1, s');
    assert s'.regs == s.regs[RR := Tested(oc).acc][PC := w.m.base + at + Skipped(oc, |c|, n)];
  }

  lemma AtIf(m: Image, lbl: Labels, at: nat, c: seq<Asm>, t: seq<Asm>, y: seq<Asm>, n: seq<Asm>, aty: nat, atj: nat, atn: nat)
    requires At(m, lbl, at, c) && c == t + Branch(|y|) + y + [Asm(Jnc, SR, PC, AImm(1 + |n|))] + n
    requires aty == at + |t| + 3 && atj == aty + |y| && atn == atj + 1
    ensures At(m, lbl, at, t) && At(m, lbl, at + |t|, Branch(|y|)) && At(m, lbl, aty, y)
    ensures At(m, lbl, atj, [Asm(Jnc, SR, PC, AImm(1 + |n|))]) && At(m, lbl, atn, n)
    ensures at + |c| <= |m.code| && |c| == |t| + 4 + |y| + |n|
  {
    var jump := [Asm(Jnc, SR, PC, AImm(1 + |n|))];
    AtCut(m, lbl, at, c, t + Branch(|y|) + y + jump, n, atn);
    AtCut(m, lbl, at, t + Branch(|y|) + y + jump, t + Branch(|y|) + y, jump, atj);
    AtCut(m, lbl, at, t + Branch(|y|) + y, t + Branch(|y|), y, aty);
    AtSplit(m, lbl, at, t, Branch(|y|));
  }

  lemma IfParts(p: Program, fuel: nat, b: Expr, yes: Expr, no: Expr, acc: Word, env: Env, o: Out) returns (oc: Out, ob: Out)
    requires EvalIf(p, fuel, b, yes, no, acc, env) == Some(o)
    ensures Eval(p, fuel, b, acc, env) == Some(oc)
    ensures Eval(p, fuel, if oc.acc % 2 == 1 then yes else no, Tested(oc).acc, oc.env) == Some(ob)
    ensures o == Out(ob.acc, ob.env, Max(oc.need, ob.need))
  {
    oc := Eval(p, fuel, b, acc, env).value;
    ob := Out(o.acc, o.env, 0);
    if oc.acc % 2 == 1 {
      ob := Eval(p, fuel, yes, 0, oc.env).value;
    } else {
      ob := Eval(p, fuel, no, 1, oc.env).value;
    }
  }

  lemma IfCorrect(w: Rig, fuel: nat, b: Expr, yes: Expr, no: Expr, acc: Word, env: Env, o: Out,
                  slots: Slots, idx: int, c: seq<Asm>, s: State, at: nat) returns (s': State)
    requires EvalIf(w.p, fuel, b, yes, no, acc, env) == Some(o)
    requires c == CompileIf(b, yes, no, idx, slots)
    requires Start(w.m, s, at, acc, env, slots, idx, o.need) && At(w.m, w.lbl, at, c)
    ensures Correct(w.m, s, s', at, |c|, o, slots, idx)
    decreases fuel, 1 + Size(b) + Size(yes) + Size(no), 1
  {
    hide Start, Correct, At, World;
    var oc, ob := IfParts(w.p, fuel, b, yes, no, acc, env, o);
    var t, y, n := CompileExpr(b, idx, slots), CompileExpr(yes, idx, slots), CompileExpr(no, idx, slots);
    var aty := at + |t| + 3;
    var atj := aty + |y|;
    AtIf(w.m, w.lbl, at, c, t, y, n, aty, atj, atj + 1);
    s' := IfCode(w, fuel, b, yes, no, acc, env, oc, ob, o, slots, idx, t, y, n, |c|, s, at, aty, atj, atj + 1);
  }

  lemma IfCode(w: Rig, fuel: nat, b: Expr, yes: Expr, no: Expr, acc: Word, env: Env,
               oc: Out, ob: Out, o: Out, slots: Slots, idx: int, t: seq<Asm>, y: seq<Asm>, n: seq<Asm>, len: nat, s: State, at: nat,
               aty: nat, atj: nat, atn: nat)
    returns (s': State)
    requires Eval(w.p, fuel, b, acc, env) == Some(oc)
    requires Eval(w.p, fuel, if oc.acc % 2 == 1 then yes else no, Tested(oc).acc, oc.env) == Some(ob)
    requires o == Out(ob.acc, ob.env, Max(oc.need, ob.need))
    requires t == CompileExpr(b, idx, slots) && y == CompileExpr(yes, idx, slots) && n == CompileExpr(no, idx, slots)
    requires Start(w.m, s, at, acc, env, slots, idx, o.need)
    requires aty == at + |t| + 3 && atj == aty + |y| && atn == atj + 1
    requires At(w.m, w.lbl, at, t) && At(w.m, w.lbl, at + |t|, Branch(|y|)) && At(w.m, w.lbl, aty, y)
    requires At(w.m, w.lbl, atj, [Asm(Jnc, SR, PC, AImm(1 + |n|))]) && At(w.m, w.lbl, atn, n)
    requires at + len <= |w.m.code| && len == |t| + 4 + |y| + |n|
    ensures Correct(w.m, s, s', at, len, o, slots, idx)
    decreases fuel, 1 + Size(b) + Size(yes) + Size(no), 0
  {
    hide Start, Correct, At, World, Eval, CompileExpr;
    StartLess(w.m, s, at, acc, env, slots, idx, o.need, oc.need);
    var s1 := ConditionCorrect(w, fuel, b, acc, env, oc, slots, idx, t, s, at, |y|);
    var k := Skipped(oc, |t|, |y|);
    StartNext(w.m, s, s1, at, k, Tested(oc), acc, env, slots, idx, o.need);
    if oc.acc % 2 == 1 {
      StartLess(w.m, s1, aty, 0, oc.env, slots, idx, o.need, ob.need);
      var s2 := ExprCorrect(w, fuel, yes, 0, oc.env, ob, slots, idx, y, s1, aty);
      s' := JumpOver(w, acc, env, s, s1, s2, at, k, aty, |y|, atj, 1 + |n|, len, Tested(oc), ob, o, slots, idx);
    } else {
      StartLess(w.m, s1, atn, 1, oc.env, slots, idx, o.need, ob.need);
      s' := ExprCorrect(w, fuel, no, 1, oc.env, ob, slots, idx, n, s1, atn);
      CorrectThen(w.m, s, s1, s', at, k, atn, |n|, len, Tested(oc), ob, o, slots, idx);
    }
  }

  lemma JumpOver(w: Rig, acc: Word, env: Env, s: State, s1: State, s2: State, at: nat, k: nat, aty: nat, ny: nat, atj: nat,
                 off: int, len: nat, oc: Out, ob: Out, o: Out, slots: Slots, idx: int) returns (s': State)
    requires Start(w.m, s, at, acc, env, slots, idx, o.need)
    requires Correct(w.m, s, s1, at, k, oc, slots, idx) && Correct(w.m, s1, s2, aty, ny, ob, slots, idx)
    requires aty == at + k && atj == aty + ny && o == ob.(need := o.need)
    requires At(w.m, w.lbl, atj, [Asm(Jnc, SR, PC, AImm(off))]) && len == k + ny + off && at + len <= |w.m.code|
    ensures Correct(w.m, s, s', at, len, o, slots, idx)
  {
    hide Start, Correct, At, World;
    CorrectThen(w.m, s, s1, s2, at, k, aty, ny, k + ny, oc, ob, o, slots, idx);
    s' := JumpOn(w, acc, env, s, s2, at, k + ny, atj, off, len, o.need, o, slots, idx);
  }

  /** An unconditional jump after correct code: only the position changes. */
  lemma JumpOn(w: Rig, acc: Word, env: Env, s: State, s1: State, at: nat, n: nat, q: nat, off: int, n': nat, need: nat,
               o: Out, slots: Slots, idx: int) returns (s': State)
    requires Start(w.m, s, at, acc, env, slots, idx, need) && Correct(w.m, s, s1, at, n, o, slots, idx)
    requires q == at + n && At(w.m, w.lbl, q, [Asm(Jnc, SR, PC, AImm(off))]) && n' == n + off && at + n' <= |w.m.code|
    ensures Correct(w.m, s, s', at, n', o, slots, idx)
  {
    s' := JumpCorrect(w.m, w.lbl, s1, q, off);
    RunsTrans(w.m, s, s1, s');
    assert s'.regs == s.regs[RR := o.acc][PC := w.m.base + at + n'];
  }

  lemma LoopParts(p: Program, fuel: nat, b: Expr, body: Exprs, acc: Word, env: Env, o: Out) returns (oc: Out, ob: Out, on: Out)
    requires EvalLoop(p, fuel, b, body, acc, env) == Some(o)
    ensures Eval(p, fuel, b, acc, env) == Some(oc)
    ensures oc.acc % 2 == 0 ==> o == Out(1, oc.env, oc.need)
    ensures oc.acc % 2 == 1 ==>
              && fuel > 0 && EvalSeq(p, fuel, body, 0, oc.env) == Some(ob)
              && EvalLoop(p, fuel - 1, b, body, ob.acc, ob.env) == Some(on)
              && o == Out(on.acc, on.env, Max(oc.need, Max(ob.need, on.need)))
  {
    oc := Eval(p, fuel, b, acc, env).value;
    ob, on := oc, oc;
    if oc.acc % 2 == 1 {
      ob := EvalSeq(p, fuel, body, 0, oc.env).value;
      on := EvalLoop(p, fuel - 1, b, body, ob.acc, ob.env).value;
    }
  }

  lemma AtLoop(m: Image, lbl: Labels, at: nat, c: seq<Asm>, t: seq<Asm>, d: seq<Asm>, atd: nat, atj: nat)
    requires At(m, lbl, at, c) && c == t + Branch(|d|) + d + [Asm(Jnc, SR, PC, AImm(-(3 + |d| + |t|)))]
    requires atd == at + |t| + 3 && atj == atd + |d|
    ensures At(m, lbl, at, t) && At(m, lbl, at + |t|, Branch(|d|)) && At(m, lbl, atd, d)
    ensures At(m, lbl, atj, [Asm(Jnc, SR, PC, AImm(-(3 + |d| + |t|)))])
    ensures at + |t| + 4 + |d| <= |m.code| && |c| == |t| + 4 + |d|
  {
    var jump := [Asm(Jnc, SR, PC, AImm(-(3 + |d| + |t|)))];
    AtCut(m, lbl, at, c, t + Branch(|d|) + d, jump, atj);
    AtCut(m, lbl, at, t + Branch(|d|) + d, t + Branch(|d|), d, atd);
    AtSplit(m, lbl, at, t, Branch(|d|));
  }

  lemma {:induction false} LoopCorrect(w: Rig, fuel: nat, b: Expr, body: Exprs, acc: Word,
                                       env: Env, o: Out, slots: Slots, idx: int, c: seq<Asm>, s: State, at: nat)
    returns (s': State)
    requires EvalLoop(w.p, fuel, b, body, acc, env) == Some(o)
    requires c == CompileLoop(b, body, idx, slots)
    requires Start(w.m, s, at, acc, env, slots, idx, o.need) && At(w.m, w.lbl, at, c)
    ensures Correct(w.m, s, s', at, |c|, o, slots, idx)
    decreases fuel, 1 + Size(b) + SeqSize(body), 1
  {
    hide Start, Correct, At, World, Eval, EvalSeq, CompileExpr, CompileSeq, Runs;
    var oc, ob, on := LoopParts(w.p, fuel, b, body, acc, env, o);
    var t, d := CompileExpr(b, idx, slots), CompileSeq(body, idx, slots);
    var atd := at + |t| + 3;
    var atj := atd + |d|;
    AtLoop(w.m, w.lbl, at, c, t, d, atd, atj);
    StartLess(w.m, s, at, acc, env, slots, idx, o.need, oc.need);
    var s1 := ConditionCorrect(w, fuel, b, acc, env, oc, slots, idx, t, s, at, |d|);
    if oc.acc % 2 == 0 {
      s' := s1;
      CorrectAs(w.m, s, s1, at, Skipped(oc, |t|, |d|), |c|, Tested(oc), o, slots, idx);
    } else {
      var s3 := LoopBody(w, fuel, body, acc, env, oc, ob, o.need, slots, idx, t, d, s, s1, at, atd, atj);
      StartLess(w.m, s3, at, ob.acc, ob.env, slots, idx, o.need, on.need);
      s' := LoopCorrect(w, fuel - 1, b, body, ob.acc, ob.env, on, slots, idx, c, s3, at);
      CorrectThen(w.m, s, s3, s', at, 0, at, |c|, |c|, ob, on, o, slots, idx);
    }
  }

  /** One iteration: from the branch, through the body, back to the first line of the loop. */
  lemma LoopBody(w: Rig, fuel: nat, body: Exprs, acc: Word, env: Env, oc: Out, ob: Out, need: nat,
                 slots: Slots, idx: int, t: seq<Asm>, d: seq<Asm>, s: State, s1: State, at: nat, atd: nat, atj: nat) returns (s3: State)
    requires EvalSeq(w.p, fuel, body, 0, oc.env) == Some(ob) && d == CompileSeq(body, idx, slots)
    requires oc.acc % 2 == 1 && ob.need <= need && Start(w.m, s, at, acc, env, slots, idx, need)
    requires Correct(w.m, s, s1, at, Skipped(oc, |t|, |d|), Tested(oc), slots, idx)
    requires atd == at + |t| + 3 && atj == atd + |d| && at + |t| + 4 + |d| <= |w.m.code|
    requires At(w.m, w.lbl, atd, d) && At(w.m, w.lbl, atj, [Asm(Jnc, SR, PC, AImm(-(3 + |d| + |t|)))])
    ensures Correct(w.m, s, s3, at, 0, ob, slots, idx)
    ensures Start(w.m, s3, at, ob.acc, ob.env, slots, idx, need)
    decreases fuel, SeqSize(body), 1
  {
    hide Start, Correct, At, World;
    var k := |t| + 3;
    StartNext(w.m, s, s1, at, k, Tested(oc), acc, env, slots, idx, need);
    StartLess(w.m, s1, atd, 0, oc.env, slots, idx, need, ob.need);
    var s2 := SeqCorrect(w, fuel, body, 0, oc.env, ob, slots, idx, d, s1, atd);
    CorrectThen(w.m, s, s1, s2, at, k, atd, |d|, k + |d|, Tested(oc), ob, ob, slots, idx);
    s3 := JumpOn(w, acc, env, s, s2, at, k + |d|, atj, -(3 + |d| + |t|), 0, need, ob, slots, idx);
    StartNext(w.m, s, s3, at, 0, ob, acc, env, slots, idx, need);
  }

  // ----------------------------------------------------------------- calls

  lemma StartUp(m: Image, s: State, at: nat, acc: Word, env: Env, slots: Slots, k: int, need: nat, need': nat)
    requires Start(m, s, at, acc, env, slots, k - 1, need) && need' + 1 <= need
    ensures Start(m, s, at, acc, env, slots, k, need')
  {
  }

  /** The arguments are evaluated left to right into consecutive slots from k. */
  ghost predicate Passed(m: Image, s: State, s': State, at: nat, n: nat, a: Args, slots: Slots, k: int, fp: nat) {
    && Finished(m, s, s', at, n, a.acc)
    && Kept(s.mem, s'.mem, slots, fp, k - 1) && Holds(a.env, slots, s'.mem, fp)
    && 0 <= fp + k && fp + k + |a.vals| <= |s'.mem| && s'.mem[fp + k..fp + k + |a.vals|] == a.vals
  }

  lemma {:induction false} ArgsCorrect(w: Rig, fuel: nat, args: Exprs, acc: Word, env: Env, a: Args,
                                       slots: Slots, k: int, c: seq<Asm>, s: State, at: nat, fp: nat) returns (s': State)
    requires EvalArgs(w.p, fuel, args, acc, env) == Some(a) && c == CompileArgs(args, k, slots)
    requires Start(w.m, s, at, acc, env, slots, k - 1, a.need) && At(w.m, w.lbl, at, c) && fp == s.regs[FP]
    ensures Passed(w.m, s, s', at, |c|, a, slots, k, fp) && |a.vals| == Length(args)
    decreases fuel, SeqSize(args), 0
  {
    hide Start, At, World, Passed, ArgStored;
    match args {
      case Done =>
        s' := NoArgs(w.m, acc, env, slots, k, s, at, fp);
      case Then(e, rest) =>
        var o := Eval(w.p, fuel, e, acc, env).value;
        var a1 := EvalArgs(w.p, fuel, rest, o.acc, o.env).value;
        var c1, c2 := CompileExpr(e, k, slots), CompileArgs(rest, k + 1, slots);
        var at2 := at + (|c1| + 1);
        AtCut(w.m, w.lbl, at, c, c1 + [Store(RR, k)], c2, at2);
        var s2 := ArgCorrect(w, fuel, e, acc, env, o, slots, k, c1, s, at, at2, a.need, a1.need, fp);
        s' := ArgsCorrect(w, fuel, rest, o.acc, o.env, a1, slots, k + 1, c2, s2, at2, fp);
        ArgsEnd(w.m, s, s2, s', at, at2, |c2|, |c|, o.acc, a1, a, slots, k, fp);
    }
  }

  lemma NoArgs(m: Image, acc: Word, env: Env, slots: Slots, k: int, s: State, at: nat, fp: nat) returns (s': State)
    requires Start(m, s, at, acc, env, slots, k - 1, 1) && fp == s.regs[FP]
    ensures Passed(m, s, s', at, 0, Args([], acc, env, 1), slots, k, fp)
  {
    RunsRefl(m, s);
    s' := s;
    assert s.regs[RR := acc][PC := m.base + at + 0] == s.regs;
  }

  /** One argument is in its slot. */
  ghost predicate ArgStored(m: Image, s: State, s2: State, at2: nat, v: Word, slots: Slots, k: int, fp: nat) {
    && Runs(m, s, s2) && m.base + at2 < W64 && s2.regs == s.regs[RR := v][PC := m.base + at2]
    && Placed(m, slots, fp, k - 1) && Kept(s.mem, s2.mem, slots, fp, k - 1)
    && 0 <= fp + k < |s2.mem| && s2.mem[fp + k] == v && s2.regs[FP] == fp
  }

  lemma ArgCorrect(w: Rig, fuel: nat, e: Expr, acc: Word, env: Env, o: Out, slots: Slots, k: int, c1: seq<Asm>,
                   s: State, at: nat, at2: nat, need: nat, need2: nat, fp: nat) returns (s2: State)
    requires Eval(w.p, fuel, e, acc, env) == Some(o) && c1 == CompileExpr(e, k, slots) && at2 == at + (|c1| + 1)
    requires Start(w.m, s, at, acc, env, slots, k - 1, need) && o.need + 1 <= need && need2 + 1 <= need
    requires At(w.m, w.lbl, at, c1 + [Store(RR, k)]) && fp == s.regs[FP]
    ensures ArgStored(w.m, s, s2, at2, o.acc, slots, k, fp) && s2.regs[FP] == fp
    ensures Start(w.m, s2, at2, o.acc, o.env, slots, k, need2)
    decreases fuel, Size(e), 4
  {
    hide Start, Correct, At, World, ArgStored, Runs, Eval, CompileExpr;
    AtCut(w.m, w.lbl, at, c1 + [Store(RR, k)], c1, [Store(RR, k)], at + |c1|);
    StartUp(w.m, s, at, acc, env, slots, k, need, o.need);
    var s1 := ExprCorrect(w, fuel, e, acc, env, o, slots, k, c1, s, at);
    s2 := StoreArgument(w, acc, env, o, slots, k, need, s, s1, at, |c1|, at2, need2, fp);
  }

  lemma StoreArgument(w: Rig, acc: Word, env: Env, o: Out, slots: Slots, k: int, need: nat, s: State, s1: State,
                      at: nat, n: nat, at2: nat, need2: nat, fp: nat) returns (s2: State)
    requires Start(w.m, s, at, acc, env, slots, k - 1, need) && fp == s.regs[FP] && need2 + 1 <= need
    requires Correct(w.m, s, s1, at, n, o, slots, k) && at2 == at + (n + 1)
    requires At(w.m, w.lbl, at + n, [Store(RR, k)])
    ensures ArgStored(w.m, s, s2, at2, o.acc, slots, k, fp) && s2.regs[FP] == fp
    ensures Start(w.m, s2, at2, o.acc, o.env, slots, k, need2)
  {
    hide At, Runs, World;
    RigCoded(w);
    s2 := StoreCorrect(w.m, w.lbl, s1, at + n, RR, k);
    ScratchWrite(w.m, o.env, slots, s1.mem, fp, k - 1, k, o.acc);
    RunsTrans(w.m, s, s1, s2);
    KeptTrans(s.mem, s1.mem, s2.mem, slots, fp, k - 1, k - 1);
    assert s2.regs == s.regs[RR := o.acc][PC := w.m.base + at2];
  }

  lemma ArgsEnd(m: Image, s: State, s2: State, s': State, at: nat, at2: nat, n2: nat, n: nat, v: Word, a1: Args, a: Args,
                slots: Slots, k: int, fp: nat)
    requires ArgStored(m, s, s2, at2, v, slots, k, fp) && at + n == at2 + n2
    requires Passed(m, s2, s', at2, n2, a1, slots, k + 1, fp)
    requires a.vals == [v] + a1.vals && a.acc == a1.acc && a.env == a1.env
    ensures Passed(m, s, s', at, n, a, slots, k, fp)
  {
    hide Runs, Holds;
    RunsTrans(m, s, s2, s');
    KeptTrans(s.mem, s2.mem, s'.mem, slots, fp, k - 1, k);
    assert fp + k !in VarCells(slots, fp);
    assert s'.mem[fp + k..fp + k + |a.vals|] == [s'.mem[fp + k]] + s'.mem[fp + k + 1..fp + k + 1 + |a1.vals|];
    assert s'.regs == s.regs[RR := a.acc][PC := m.base + at + n];
  }

  /** Memory at the callee's first line: arguments, saved lr, saved fp. */
  lemma FrameHolds(m: Image, fn: Fn, vals: seq<Word>, mem: seq<Word>, base: nat, lr: Word, fp: Word)
    requires |fn.params| == |vals| && m.lo <= base && base + |vals| + 1 < |mem|
    requires mem[base..base + |vals|] == vals
    ensures var mem' := mem[base + |vals| := lr][base + |vals| + 1 := fp]; var slots := ParamSlots(fn.params, |fn.params|);
            && Placed(m, slots, base + |vals| + 1, 0)
            && Holds(BindParams(fn.params, vals), slots, mem', base + |vals| + 1)
  {
    hide ParamSlots, BindParams, Holds;
    var n := |vals|;
    var mem' := mem[base + n := lr][base + n + 1 := fp];
    var fp' := base + n + 1;
    forall i | 0 <= i < n ensures mem'[fp' + i - n - 1] == vals[i] {
      assert mem[base..base + n][i] == mem[base + i];
    }
    ParamsHold(fn.params, vals, n, mem', fp');
    ParamSlotsPlaced(fn.params, n, ParamSlots(fn.params, n));
  }

  /** The callee's frame: above the arguments lie the saved lr and, at the new fp, the saved fp. */
  ghost predicate Entered(m: Image, s: State, s': State, at: nat, l: nat, off: nat, fp: nat) {
    && Runs(m, s, s') && fp == s.regs[FP] && m.base + at + 4 < W64 && m.base + (l + 3) < W64 && fp + off + 1 < |s.mem| < W64
    && s'.mem == s.mem[fp + off := s.regs[LR]][fp + off + 1 := fp]
    && s'.regs == s.regs[SP := fp + off + 1][FP := fp + off + 1][LR := m.base + at + 4][PC := m.base + (l + 3)]
  }

  /** From the call sequence to the first line of the callee's body. */
  lemma CallIn(m: Image, lbl: Labels, s: State, at: nat, f: Name, fn: Fn, l: nat, vals: seq<Word>, acc: Word, off: nat, need: nat, fp: nat)
    returns (s': State)
    requires Coded(m) && Poised(m, s, at) && At(m, lbl, at, CallSequence(f, off)) && Mangled(f) in lbl && l == lbl[Mangled(f)]
    requires At(m, lbl, l, CompileFn(fn)) && s.regs[RR] == acc && fp == s.regs[FP]
    requires |fn.params| == |vals| <= off && fp + off + 1 + need < |s.mem|
    requires s.mem[fp + off - |vals|..fp + off] == vals
    ensures Entered(m, s, s', at, l, off, fp)
    ensures Start(m, s', l + 3, acc, BindParams(fn.params, vals), ParamSlots(fn.params, |fn.params|), 0, need)
  {
    hide At, CallSequence, CompileFn, ParamSlots, BindParams, Runs, Placed, Holds;
    AtCall(m, lbl, at, f, off);
    AtFn(m, lbl, l, fn);
    var s1 := CallEnter(m, lbl, s, at, f, off);
    s' := FnEnter(m, lbl, s1, l, fn);
    RunsTrans(m, s, s1, s');
    FrameHolds(m, fn, vals, s.mem, fp + off - |vals|, s.regs[LR], fp);
    assert s'.regs == s.regs[SP := fp + off + 1][FP := fp + off + 1][LR := m.base + at + 4][PC := m.base + (l + 3)];
  }

  /** From the end of the callee's body to the line after the call sequence. */
  lemma CallOut(m: Image, lbl: Labels, s: State, s1: State, s2: State, at: nat, f: Name, fn: Fn, l: nat, n: nat, o: Out,
                pslots: Slots, off: nat, fp: nat) returns (s': State)
    requires Coded(m) && Poised(m, s, at) && At(m, lbl, at, CallSequence(f, off)) && Mangled(f) in lbl && l == lbl[Mangled(f)]
    requires At(m, lbl, l, CompileFn(fn)) && |fn.params| <= off && pslots == ParamSlots(fn.params, |fn.params|)
    requires n == |CompileSeq(fn.body, 0, pslots)| && Entered(m, s, s1, at, l, off, fp)
    requires Placed(m, pslots, fp + off + 1, 0) && Correct(m, s1, s2, l + 3, n, o, pslots, 0)
    ensures m.base + at + 6 < W64 && Runs(m, s1, s') && s'.mem == s2.mem && s'.regs == s.regs[RR := o.acc][PC := m.base + at + 6]
  {
    hide At, Runs, Correct, Placed;
    AtCall(m, lbl, at, f, off);
    var s3 := FrameLeft(m, lbl, s, s1, s2, at, fn, l, n, o, pslots, off, fp);
    s' := CallLeave(m, lbl, s3, at, f, off, s.regs[LR]);
    RunsTrans(m, s1, s3, s');
    assert s'.regs == s.regs[RR := o.acc][PC := m.base + at + 6];
  }

  /** The callee gives fp back and jumps to the return address. */
  lemma FrameLeft(m: Image, lbl: Labels, s: State, s1: State, s2: State, at: nat, fn: Fn, l: nat, n: nat, o: Out,
                  pslots: Slots, off: nat, fp: nat) returns (s3: State)
    requires Coded(m) && Poised(m, s, at) && At(m, lbl, l, CompileFn(fn)) && pslots == ParamSlots(fn.params, |fn.params|)
    requires n == |CompileSeq(fn.body, 0, pslots)| && Entered(m, s, s1, at, l, off, fp)
    requires Placed(m, pslots, fp + off + 1, 0) && Correct(m, s1, s2, l + 3, n, o, pslots, 0)
    ensures Runs(m, s1, s3) && s3.mem == s2.mem && fp + off < |s3.mem| <= ADDRESSES && s3.mem[fp + off] == s.regs[LR]
    ensures s3.regs == s.regs[RR := o.acc][SP := fp + off][LR := m.base + at + 4][PC := m.base + at + 4]
  {
    hide At, CompileFn, ParamSlots, Coded, Runs, Holds;
    assert fp + off !in VarCells(pslots, fp + off + 1) && fp + off + 1 !in VarCells(pslots, fp + off + 1);
    s3 := FnLeave(m, lbl, s2, l, fn, fp);
    RunsTrans(m, s1, s2, s3);
    assert s3.regs == s.regs[RR := o.acc][SP := fp + off][LR := m.base + at + 4][PC := m.base + at + 4];
  }

  /** Nothing the callee writes lies at or below the caller's slot idx. */
  lemma CalleeKeeps(fn: Fn, mem: seq<Word>, mem1: seq<Word>, mem2: seq<Word>, fp: nat, off: nat, lr: Word)
    requires fp + off + 1 < |mem| && |fn.params| < off && lr < W64 && fp < W64
    requires mem1 == mem[fp + off := lr][fp + off + 1 := fp]
    requires Kept(mem1, mem2, ParamSlots(fn.params, |fn.params|), fp + off + 1, 0)
    ensures |mem2| == |mem| && forall x :: 0 <= x < fp + off - |fn.params| ==> mem2[x] == mem[x]
  {
    var n := |fn.params|;
    var slots := ParamSlots(fn.params, n);
    ParamSlotsPlaced(fn.params, n, slots);
    forall x | 0 <= x < fp + off - |fn.params| ensures mem2[x] == mem[x] {
      assert x !in VarCells(slots, fp + off + 1);
      assert mem1[x] == mem[x];
    }
  }

  lemma CallParts(p: Program, fuel: nat, f: Name, args: Exprs, acc: Word, env: Env, o: Out) returns (a: Args, ob: Out)
    requires EvalCall(p, fuel, f, args, acc, env) == Some(o)
    ensures fuel > 0 && f in p.fns && EvalArgs(p, fuel, args, acc, env) == Some(a) && |p.fns[f].params| == |a.vals|
    ensures EvalSeq(p, fuel - 1, p.fns[f].body, a.acc, BindParams(p.fns[f].params, a.vals)) == Some(ob)
    ensures o == Out(ob.acc, a.env, Max(a.need, |a.vals| + 2 + ob.need))
  {
    a := EvalArgs(p, fuel, args, acc, env).value;
    ob := EvalSeq(p, fuel - 1, p.fns[f].body, a.acc, BindParams(p.fns[f].params, a.vals)).value;
  }

  lemma {:induction false} CallCorrect(w: Rig, fuel: nat, f: Name, args: Exprs, acc: Word, env: Env,
                                       o: Out, slots: Slots, idx: int, c: seq<Asm>, s: State, at: nat) returns (s': State)
    requires EvalCall(w.p, fuel, f, args, acc, env) == Some(o)
    requires c == CompileCall(f, args, idx, slots)
    requires Start(w.m, s, at, acc, env, slots, idx, o.need) && At(w.m, w.lbl, at, c)
    ensures Correct(w.m, s, s', at, |c|, o, slots, idx)
    decreases fuel, 1 + SeqSize(args), 1
  {
    hide Start, Correct, At, World;
    var a, ob := CallParts(w.p, fuel, f, args, acc, env, o);
    var c1 := CompileArgs(args, idx + 1, slots);
    var off := idx + 1 + Length(args);
    AtCut(w.m, w.lbl, at, c, c1, CallSequence(f, off), at + |c1|);
    s' := CallCode(w, fuel, f, args, acc, env, a, ob, o, slots, idx, idx + 1, c1, |c|, off, s, at, at + |c1|, s.regs[FP]);
  }

  lemma CallCode(w: Rig, fuel: nat, f: Name, args: Exprs, acc: Word, env: Env, a: Args, ob: Out, o: Out, slots: Slots,
                 idx: int, k: int, c1: seq<Asm>, n: nat, off: int, s: State, at: nat, at1: nat, fp: nat) returns (s': State)
    requires fuel > 0 && f in w.p.fns && EvalArgs(w.p, fuel, args, acc, env) == Some(a) && |w.p.fns[f].params| == |a.vals|
    requires EvalSeq(w.p, fuel - 1, w.p.fns[f].body, a.acc, BindParams(w.p.fns[f].params, a.vals)) == Some(ob)
    requires o == Out(ob.acc, a.env, Max(a.need, |a.vals| + 2 + ob.need))
    requires k == idx + 1 && c1 == CompileArgs(args, k, slots) && off == k + Length(args) && n == |c1| + 6 && at1 == at + |c1|
    requires Start(w.m, s, at, acc, env, slots, idx, o.need) && fp == s.regs[FP]
    requires At(w.m, w.lbl, at, c1) && At(w.m, w.lbl, at1, CallSequence(f, off))
    ensures Correct(w.m, s, s', at, n, o, slots, idx)
    decreases fuel, 1 + SeqSize(args), 0
  {
    hide Start, Correct, At, World, Passed;
    StartArgs(w.m, s, at, acc, env, slots, idx, k, o.need, a.need);
    var s1 := ArgsCorrect(w, fuel, args, acc, env, a, slots, k, c1, s, at, fp);
    s' := CallBody(w, fuel - 1, f, w.p.fns[f], acc, env, a, ob, o, slots, idx, k, |c1|, n, off, s, s1, at, at1, fp);
  }

  lemma StartArgs(m: Image, s: State, at: nat, acc: Word, env: Env, slots: Slots, idx: int, k: int, need: nat, need': nat)
    requires Start(m, s, at, acc, env, slots, idx, need) && k == idx + 1 && need' <= need
    ensures Start(m, s, at, acc, env, slots, k - 1, need') && 0 <= idx
  {
  }

  lemma {:induction false} CallBody(w: Rig, fuel: nat, f: Name, fn: Fn, acc: Word, env: Env, a: Args, ob: Out, o: Out, slots: Slots,
                                    idx: int, k: int, n1: nat, n: nat, off: nat, s: State, s1: State, at: nat, at1: nat, fp: nat)
    returns (s': State)
    requires f in w.p.fns && fn == w.p.fns[f] && |fn.params| == |a.vals| && off == k + |a.vals| && k == idx + 1
    requires EvalSeq(w.p, fuel, fn.body, a.acc, BindParams(fn.params, a.vals)) == Some(ob)
    requires o == Out(ob.acc, a.env, Max(a.need, |a.vals| + 2 + ob.need)) && n == n1 + 6 && at1 == at + n1
    requires Start(w.m, s, at, acc, env, slots, idx, o.need) && fp == s.regs[FP]
    requires Passed(w.m, s, s1, at, n1, a, slots, k, fp) && At(w.m, w.lbl, at1, CallSequence(f, off))
    ensures Correct(w.m, s, s', at, n, o, slots, idx)
    decreases fuel, SeqSize(fn.body), 5
  {
    hide Start, Correct, At, Passed, Entered, EvalSeq;
    assert FnPlaced(w.m, w.lbl, w.p, f);
    var l := w.lbl[Mangled(f)];
    var pslots := ParamSlots(fn.params, |fn.params|);
    var penv := BindParams(fn.params, a.vals);
    var cb := CompileSeq(fn.body, 0, pslots);
    var s2 := CallBegin(w, f, fn, l, pslots, penv, cb, acc, env, a, ob.need, o.need, slots, idx, k, n1, off, s, s1, at, at1, fp);
    var s3 := SeqCorrect(w, fuel, fn.body, a.acc, penv, ob, pslots, 0, cb, s2, l + 3);
    s' := CallReturn(w, f, fn, l, pslots, cb, acc, env, penv, a, ob, o, slots, idx, k, n1, n, off, s, s1, s2, s3, at, at1, fp);
  }

  lemma CallBegin(w: Rig, f: Name, fn: Fn, l: nat, pslots: Slots, penv: Env, cb: seq<Asm>, acc: Word, env: Env, a: Args,
                  bodyNeed: nat, need: nat, slots: Slots, idx: int, k: int, n1: nat, off: nat, s: State, s1: State,
                  at: nat, at1: nat, fp: nat) returns (s2: State)
    requires Mangled(f) in w.lbl && l == w.lbl[Mangled(f)] && At(w.m, w.lbl, l, CompileFn(fn))
    requires |fn.params| == |a.vals| && off == k + |a.vals| && k == idx + 1 && |a.vals| + 2 + bodyNeed <= need && at1 == at + n1
    requires pslots == ParamSlots(fn.params, |fn.params|) && penv == BindParams(fn.params, a.vals) && cb == CompileSeq(fn.body, 0, pslots)
    requires Start(w.m, s, at, acc, env, slots, idx, need) && fp == s.regs[FP]
    requires Passed(w.m, s, s1, at, n1, a, slots, k, fp) && At(w.m, w.lbl, at1, CallSequence(f, off))
    ensures Entered(w.m, s1, s2, at1, l, off, fp) && At(w.m, w.lbl, l + 3, cb)
    ensures Start(w.m, s2, l + 3, a.acc, penv, pslots, 0, bodyNeed)
  {
    hide At, CallSequence, CompileFn, ParamSlots, BindParams, Entered;
    AtFn(w.m, w.lbl, l, fn);
    s2 := CallIn(w.m, w.lbl, s1, at1, f, fn, l, a.vals, a.acc, off, bodyNeed, fp);
  }

  lemma CallReturn(w: Rig, f: Name, fn: Fn, l: nat, pslots: Slots, cb: seq<Asm>, acc: Word, env: Env, penv: Env, a: Args,
                   ob: Out, o: Out, slots: Slots, idx: int, k: int, n1: nat, n: nat, off: nat,
                   s: State, s1: State, s2: State, s3: State, at: nat, at1: nat, fp: nat) returns (s': State)
    requires Mangled(f) in w.lbl && l == w.lbl[Mangled(f)] && At(w.m, w.lbl, l, CompileFn(fn))
    requires |fn.params| == |a.vals| && off == k + |a.vals| && k == idx + 1 && n == n1 + 6 && at1 == at + n1
    requires pslots == ParamSlots(fn.params, |fn.params|) && cb == CompileSeq(fn.body, 0, pslots)
    requires o.acc == ob.acc && o.env == a.env
    requires Start(w.m, s, at, acc, env, slots, idx, o.need) && fp == s.regs[FP]
    requires Passed(w.m, s, s1, at, n1, a, slots, k, fp) && At(w.m, w.lbl, at1, CallSequence(f, off))
    requires Entered(w.m, s1, s2, at1, l, off, fp) && Start(w.m, s2, l + 3, a.acc, penv, pslots, 0, ob.need)
    requires Correct(w.m, s2, s3, l + 3, |cb|, ob, pslots, 0)
    ensures Correct(w.m, s, s', at, n, o, slots, idx)
  {
    hide Start, Correct, At, Passed, Entered, World, Poised, Placed, Kept, CallSequence, CompileFn, CompileSeq;
    StartParts(w.m, s, at, acc, env, slots, idx, o.need);
    StartParts(w.m, s2, l + 3, a.acc, penv, pslots, 0, ob.need);
    CorrectParts(w.m, s2, s3, l + 3, |cb|, ob, pslots, 0);
    AfterArgs(w, s, s1, at, n1, at1, acc, env, a, slots, idx, k, o.need, fp);
    EnteredParts(w.m, s1, s2, at1, l, off, fp);
    s' := CallOut(w.m, w.lbl, s1, s2, s3, at1, f, fn, l, |cb|, ob, pslots, off, fp);
    CallEnd(w.m, fn, s, s1, s2, s', at, n1, n, at1, l, a, ob, o, slots, idx, k, off, fp);
  }

  lemma StartParts(m: Image, s: State, at: nat, acc: Word, env: Env, slots: Slots, idx: int, need: nat)
    requires Start(m, s, at, acc, env, slots, idx, need)
    ensures Poised(m, s, at) && Placed(m, slots, s.regs[FP], idx) && 0 <= idx
  {
  }

  lemma CorrectParts(m: Image, s: State, s': State, at: nat, n: nat, o: Out, slots: Slots, idx: int)
    requires Correct(m, s, s', at, n, o, slots, idx)
    ensures Kept(s.mem, s'.mem, slots, s.regs[FP], idx)
  {
  }

  lemma EnteredParts(m: Image, s: State, s': State, at: nat, l: nat, off: nat, fp: nat)
    requires Entered(m, s, s', at, l, off, fp)
    ensures s'.regs[FP] == fp + off + 1
  {
  }

  lemma AfterArgs(w: Rig, s: State, s1: State, at: nat, n1: nat, at1: nat, acc: Word, env: Env, a: Args,
                  slots: Slots, idx: int, k: int, need: nat, fp: nat)
    requires Start(w.m, s, at, acc, env, slots, idx, need) && fp == s.regs[FP]
    requires Passed(w.m, s, s1, at, n1, a, slots, k, fp) && at1 == at + n1
    ensures Coded(w.m) && Poised(w.m, s1, at1)
  {
  }

  lemma CallMemory(m: Image, env: Env, slots: Slots, mem: seq<Word>, mem1: seq<Word>, mem2: seq<Word>, fp: nat, idx: int, k: int)
    requires Placed(m, slots, fp, idx) && k == idx + 1
    requires Kept(mem, mem1, slots, fp, k - 1) && Holds(env, slots, mem1, fp)
    requires |mem2| == |mem1| && forall x :: 0 <= x < fp + k && x < |mem1| ==> mem2[x] == mem1[x]
    ensures Kept(mem, mem2, slots, fp, idx) && Holds(env, slots, mem2, fp)
  {
  }

  lemma CallEnd(m: Image, fn: Fn, s: State, s1: State, s2: State, s': State, at: nat, n1: nat, n: nat, at1: nat, l: nat,
                a: Args, ob: Out, o: Out, slots: Slots, idx: int, k: int, off: nat, fp: nat)
    requires Passed(m, s, s1, at, n1, a, slots, k, fp) && at1 == at + n1 && n == n1 + 6 && m.base + at1 + 6 < W64
    requires Entered(m, s1, s2, at1, l, off, fp) && Runs(m, s2, s')
    requires s'.regs == s1.regs[RR := ob.acc][PC := m.base + at1 + 6]
    requires Placed(m, slots, fp, idx) && fp == s.regs[FP] && k == idx + 1 && 0 <= idx
    requires |fn.params| == |a.vals| && off == k + |a.vals|
    requires Kept(s2.mem, s'.mem, ParamSlots(fn.params, |fn.params|), fp + off + 1, 0)
    requires o.acc == ob.acc && o.env == a.env
    ensures Correct(m, s, s', at, n, o, slots, idx)
  {
    hide Holds, Kept, Placed;
    RunsTrans(m, s, s1, s2);
    RunsTrans(m, s, s2, s');
    CalleeKeeps(fn, s1.mem, s2.mem, s'.mem, fp, off, s1.regs[LR]);
    CallMemory(m, a.env, slots, s.mem, s1.mem, s'.mem, fp, idx, k);
    assert s'.regs == s.regs[RR := o.acc][PC := m.base + at + n];
  }
}
