/**
 comp of x86_64/compile.py: the prologue, the functions that compiling the
 program recorded in `labels`, the main code and the first stack word; and what
 the assembled whole computes.
 */
module WholeProgram {
  import opened Words
  import opened Machine
  import opened Source
  import opened Compiler
  import opened Instructions
  import opened CompilerCorrectness
  import opened ControlFlow
  import opened CompilerTheorem

  // ------------------------------------------------- the table of functions

  /** compile_function first enters its label in the table, then, after its body, stores the code there. */
  datatype Event = Open(f: Name) | Close(f: Name, fn: Fn)

  /** The table events of compiling e, in the order in which the compiler visits the parts of e. */
  function Events(e: Expr, scope: set<Name>): seq<Event> {
    match e
    case Prim(_, l, r) => Events(l, scope) + Events(r, scope)
    case Gt(l, r) => Events(r, scope) + Events(l, scope)
    case Let(binds, body) => if body == Done then [] else BindEvents(binds, scope) + SeqEvents(body, scope + BindNames(binds))
    case Assign(x, e1) => if x in scope then Events(e1, scope) else []
    case If(c, yes, no) => Events(yes, scope) + Events(no, scope) + Events(c, scope)
    case Loop(c, body) => SeqEvents(body, scope) + Events(c, scope)
    case Def(f, params, body) => [Open(f)] + SeqEvents(body, set x | x in params) + [Close(f, Fn(params, body))]
    case Call(_, args) => SeqEvents(args, scope)
    case _ => []
  }

  function SeqEvents(es: Exprs, scope: set<Name>): seq<Event> {
    match es
    case Done => []
    case Then(e, rest) => Events(e, scope) + SeqEvents(rest, scope)
  }

  function BindEvents(binds: Binds, scope: set<Name>): seq<Event> {
    match binds
    case NoBind => []
    case Bind(x, e, rest) => Events(e, scope + {x}) + BindEvents(rest, scope + {x})
  }

  function BindNames(binds: Binds): set<Name> {
    match binds
    case NoBind => {}
    case Bind(x, _, rest) => {x} + BindNames(rest)
  }

  /** The table: labels in insertion order, and the functions stored so far. */
  datatype Table = Table(order: seq<Name>, fns: map<Name, Fn>)

  function Apply(t: Table, ev: Event): Table {
    var order := if ev.f in t.order then t.order else t.order + [ev.f];
    match ev
    case Open(f) => Table(order, t.fns - {f})
    case Close(f, fn) => Table(order, t.fns[f := fn])
  }

  function Record(t: Table, evs: seq<Event>): Table {
    if evs == [] then t else Apply(Record(t, evs[..|evs| - 1]), evs[|evs| - 1])
  }

  ghost predicate ValidTable(t: Table) {
    && (forall i, j :: 0 <= i < j < |t.order| ==> t.order[i] != t.order[j])
    && (forall f :: f in t.fns ==> f in t.order)
  }

  lemma {:induction false} RecordValid(t: Table, evs: seq<Event>)
    requires ValidTable(t)
    ensures ValidTable(Record(t, evs))
  {
    if evs != [] { RecordValid(t, evs[..|evs| - 1]); }
  }

  function TableOf(es: Exprs): Table { Record(Table([], map[]), SeqEvents(es, {})) }

  // ------------------------------------------------------------------ names

  /** Every variable that gets compiled is in scope; the compiler fails on any other. */
  predicate Scoped(e: Expr, scope: set<Name>) {
    match e
    case Var(x) => x in scope
    case Prim(_, l, r) => Scoped(l, scope) && Scoped(r, scope)
    case Gt(l, r) => Scoped(l, scope) && Scoped(r, scope)
    case Let(binds, body) => body == Done || (BindsScoped(binds, scope) && SeqScoped(body, scope + BindNames(binds)))
    case Assign(x, e1) => x !in scope || Scoped(e1, scope)
    case If(c, yes, no) => Scoped(c, scope) && Scoped(yes, scope) && Scoped(no, scope)
    case Loop(c, body) => Scoped(c, scope) && SeqScoped(body, scope)
    case Def(_, params, body) => SeqScoped(body, set x | x in params)
    case Call(_, args) => SeqScoped(args, scope)
    case _ => true
  }

  predicate SeqScoped(es: Exprs, scope: set<Name>) {
    match es
    case Done => true
    case Then(e, rest) => Scoped(e, scope) && SeqScoped(rest, scope)
  }

  predicate BindsScoped(binds: Binds, scope: set<Name>) {
    match binds
    case NoBind => true
    case Bind(x, e, rest) => Scoped(e, scope + {x}) && BindsScoped(rest, scope + {x})
  }

  // ----------------------------------------------------------------- layout

  function Prologue(): seq<Asm> {
    [ Asm(Ads, BP, PC, AImm(0)),
      Asm(Ads, SP, BP, ALabel(StackLabel)),
      Asm(Ads, FP, SP, AImm(0)),
      Asm(Ads, LR, PC, AImm(2)),
      Asm(Jnc, SR, BP, ALabel(MainLabel)),
      Asm(Xor, SR, SR, AReg(SR)) ]
  }

  function Chunk(t: Table, f: Name): seq<Asm> { if f in t.fns then CompileFn(t.fns[f]) else [] }

  /** The code of the first n functions. */
  function Functions(t: Table, n: nat): seq<Asm>
    requires n <= |t.order|
  {
    if n == 0 then [] else Functions(t, n - 1) + Chunk(t, t.order[n - 1])
  }

  function FnLabels(t: Table, n: nat): Labels
    requires n <= |t.order|
  {
    if n == 0 then map[] else
      var f := t.order[n - 1];
      if f in t.fns then FnLabels(t, n - 1)[Mangled(f) := 6 + |Functions(t, n - 1)|] else FnLabels(t, n - 1)
  }

  function MainCode(es: Exprs): seq<Asm> { CompileSeq(es, 0, map[]) + [Asm(Jnc, SR, LR, AImm(0))] }

  /** All lines before the stack word. */
  function Lines(es: Exprs): seq<Asm> {
    var t := TableOf(es);
    Prologue() + Functions(t, |t.order|) + MainCode(es)
  }

  function LabelsOf(es: Exprs): Labels {
    var t := TableOf(es);
    FnLabels(t, |t.order|)[MainLabel := 6 + |Functions(t, |t.order|)|][StackLabel := |Lines(es)|]
  }

  function Assemble(lines: seq<Asm>, lbl: Labels): seq<Instr> { seq(|lines|, i requires 0 <= i < |lines| => Resolve(lines[i], lbl)) }

  predicate Accepted(l: Asm, lbl: Labels) {
    WellFormed(Resolve(l, lbl)) && (l.c.ALabel? ==> l.c.l in lbl) && (l.c.AImm? ==> -IMM_LIMIT < l.c.i)
  }

  /** The decoded code of a program, or None when the compiler or the assembler refuses it. */
  function Build(es: Exprs): Option<seq<Instr>> {
    if SeqScoped(es, {}) && forall k :: 0 <= k < |Lines(es)| ==> Accepted(Lines(es)[k], LabelsOf(es))
    then Some(Assemble(Lines(es), LabelsOf(es))) else None
  }

  /** The functions of a program whose code starts at base. */
  function ProgramOf(es: Exprs, base: nat): Program {
    var t := TableOf(es);
    var lbl := LabelsOf(es);
    Program(t.fns, map f | f in t.fns && Mangled(f) in lbl && base + lbl[Mangled(f)] < W64 :: base + lbl[Mangled(f)])
  }

  // -------------------------------------------------------------- placement

  lemma {:induction false} FnLabelsPlaced(t: Table, n: nat, i: nat)
    requires ValidTable(t) && i < n <= |t.order| && t.order[i] in t.fns
    ensures Mangled(t.order[i]) in FnLabels(t, n) && FnLabels(t, n)[Mangled(t.order[i])] == 6 + |Functions(t, i)|
  {
    hide Functions;
    if i < n - 1 {
      FnLabelsPlaced(t, n - 1, i);
      assert t.order[i] != t.order[n - 1];
    }
  }

  lemma {:induction false} FunctionsSplit(t: Table, n: nat, i: nat) returns (rest: seq<Asm>)
    requires i < n <= |t.order|
    ensures Functions(t, n) == Functions(t, i) + Chunk(t, t.order[i]) + rest
  {
    hide Chunk;
    if i == n - 1 {
      rest := [];
    } else {
      var r := FunctionsSplit(t, n - 1, i);
      var last := Chunk(t, t.order[n - 1]);
      rest := r + last;
      Associate(Functions(t, i) + Chunk(t, t.order[i]), r, last);
    }
  }

  lemma Associate(a: seq<Asm>, b: seq<Asm>, c: seq<Asm>)
    ensures a + b + c == a + (b + c)
  {
  }

  lemma AssembledAt(m: Image, lbl: Labels, lines: seq<Asm>, a: seq<Asm>, b: seq<Asm>, c: seq<Asm>)
    requires m.code == Assemble(lines, lbl) && lines == a + b + c
    ensures At(m, lbl, |a|, b)
  {
    forall k | 0 <= k < |b| ensures m.code[|a| + k] == Resolve(b[k], lbl) {
      assert lines[|a| + k] == b[k];
    }
  }

  lemma BuildWorld(es: Exprs, m: Image)
    requires Build(es) == Some(m.code) && m.lo == m.base + |m.code| <= ADDRESSES
    ensures World(m, LabelsOf(es), ProgramOf(es, m.base))
  {
    var t, lbl, p := TableOf(es), LabelsOf(es), ProgramOf(es, m.base);
    RecordValid(Table([], map[]), SeqEvents(es, {}));
    assert Coded(m) by {
      forall k | 0 <= k < |m.code| ensures WellFormed(m.code[k]) {
        assert Accepted(Lines(es)[k], lbl);
      }
    }
    forall f | f in p.fns ensures FnPlaced(m, lbl, p, f) {
      FnFound(es, m, f);
    }
    forall f | f in p.addr ensures AddrPlaced(m, lbl, p, f) {
    }
  }

  lemma FnFound(es: Exprs, m: Image, f: Name)
    requires ValidTable(TableOf(es)) && m.code == Assemble(Lines(es), LabelsOf(es)) && f in TableOf(es).fns
    ensures Mangled(f) in LabelsOf(es) && At(m, LabelsOf(es), LabelsOf(es)[Mangled(f)], CompileFn(TableOf(es).fns[f]))
  {
    hide Assemble, At, CompileFn, MainCode, TableOf, Functions, FnLabels;
    var t := TableOf(es);
    var i := IndexOf(t, f);
    FnLabelsPlaced(t, |t.order|, i);
    FnInLines(m, LabelsOf(es), t, i, f, MainCode(es));
  }

  lemma IndexOf(t: Table, f: Name) returns (i: nat)
    requires ValidTable(t) && f in t.fns
    ensures i < |t.order| && t.order[i] == f
  {
    i :| 0 <= i < |t.order| && t.order[i] == f;
  }

  lemma FnInLines(m: Image, lbl: Labels, t: Table, i: nat, f: Name, main: seq<Asm>)
    requires i < |t.order| && f == t.order[i] && f in t.fns
    requires m.code == Assemble(Prologue() + Functions(t, |t.order|) + main, lbl)
    ensures At(m, lbl, 6 + |Functions(t, i)|, CompileFn(t.fns[f]))
  {
    hide Assemble, At, CompileFn, Functions;
    var rest := FunctionsSplit(t, |t.order|, i);
    var b := CompileFn(t.fns[f]);
    assert Prologue() + (Functions(t, i) + b + rest) + main == (Prologue() + Functions(t, i)) + b + (rest + main);
    AssembledAt(m, lbl, Prologue() + Functions(t, |t.order|) + main, Prologue() + Functions(t, i), b, rest + main);
  }

  // -------------------------------------------------------------- execution

  /** The registers run starts with. */
  function Initial(base: Word, machine: Word, mem: seq<Word>): State {
    State(seq(32, _ => 0)[IR := machine][PC := base][SR := W63], mem)
  }

  lemma AtPrologue(m: Image, lbl: Labels)
    requires At(m, lbl, 0, Prologue()) && MainLabel in lbl && StackLabel in lbl
    ensures 6 <= |m.code|
    ensures m.code[0] == Instr(Ads, BP, PC, Imm(0))
    ensures m.code[1] == Instr(Ads, SP, BP, Imm(lbl[StackLabel]))
    ensures m.code[2] == Instr(Ads, FP, SP, Imm(0))
    ensures m.code[3] == Instr(Ads, LR, PC, Imm(2))
    ensures m.code[4] == Instr(Jnc, SR, BP, Imm(lbl[MainLabel]))
    ensures m.code[5] == Instr(Xor, SR, SR, Reg(SR))
  {
    var c := Prologue();
    assert c[0].op == Ads && c[1].op == Ads && c[2].op == Ads && c[3].op == Ads && c[4].op == Jnc && c[5].op == Xor;
    assert m.code[0 + 0] == Resolve(c[0], lbl) && m.code[0 + 1] == Resolve(c[1], lbl) && m.code[0 + 2] == Resolve(c[2], lbl);
    assert m.code[0 + 3] == Resolve(c[3], lbl) && m.code[0 + 4] == Resolve(c[4], lbl) && m.code[0 + 5] == Resolve(c[5], lbl);
  }

  /** bp, sp, fp and lr are set up; the main code follows. */
  lemma PrologueRuns(m: Image, lbl: Labels, s: State) returns (s': State)
    requires Coded(m) && At(m, lbl, 0, Prologue()) && MainLabel in lbl && StackLabel in lbl
    requires s.regs[PC] == m.base && Running(s) && |s.mem| <= ADDRESSES
    requires lbl[MainLabel] <= |m.code| && lbl[StackLabel] <= |m.code|
    ensures Runs(m, s, s') && s'.mem == s.mem
    ensures s'.regs == s.regs[BP := m.base][SP := m.base + lbl[StackLabel]][FP := m.base + lbl[StackLabel]]
                             [LR := m.base + 5][PC := m.base + lbl[MainLabel]]
  {
    hide At, Runs, Resolve, Step, Exec, Prologue;
    AtPrologue(m, lbl);
    var s3 := FrameSetUp(m, s, lbl[StackLabel]);
    RunAddImm(m, s3, 3, LR, PC, 2);
    var s4 := State(s3.regs[LR := m.base + 3 + 2][PC := m.base + 3 + 1], s.mem);
    RunsTrans(m, s, s3, s4);
    RunJump(m, s4, 4, SR, BP, lbl[MainLabel]);
    s' := State(s4.regs[PC := m.base + lbl[MainLabel]], s.mem);
    RunsTrans(m, s, s4, s');
    var stack := m.base + lbl[StackLabel];
    assert s'.regs == s.regs[BP := m.base][SP := stack][FP := stack][LR := m.base + 5][PC := m.base + lbl[MainLabel]];
  }

  lemma FrameSetUp(m: Image, s: State, stack: nat) returns (s': State)
    requires Coded(m) && 3 <= |m.code| && m.code[0] == Instr(Ads, BP, PC, Imm(0))
    requires m.code[1] == Instr(Ads, SP, BP, Imm(stack)) && m.code[2] == Instr(Ads, FP, SP, Imm(0))
    requires s.regs[PC] == m.base && Running(s) && |s.mem| <= ADDRESSES && stack <= |m.code|
    ensures Runs(m, s, s') && s'.mem == s.mem
    ensures s'.regs == s.regs[BP := m.base][SP := m.base + stack][FP := m.base + stack][PC := m.base + 3]
  {
    hide Runs;
    RunAddImm(m, s, 0, BP, PC, 0);
    var s1 := State(s.regs[BP := m.base][PC := m.base + 0 + 1], s.mem);
    RunAddImm(m, s1, 1, SP, BP, stack);
    var s2 := State(s1.regs[SP := m.base + stack][PC := m.base + 1 + 1], s.mem);
    RunsTrans(m, s, s1, s2);
    RunAddImm(m, s2, 2, FP, SP, 0);
    s' := State(s2.regs[FP := m.base + stack][PC := m.base + 2 + 1], s.mem);
    RunsTrans(m, s, s2, s');
    assert s'.regs == s.regs[BP := m.base][SP := m.base + stack][FP := m.base + stack][PC := m.base + 3];
  }

  /** The main code returns to the last line of the prologue, which clears the status register. */
  lemma EpilogueHalts(m: Image, lbl: Labels, s: State, at: nat) returns (s': State)
    requires Coded(m) && At(m, lbl, 0, Prologue()) && MainLabel in lbl && StackLabel in lbl
    requires At(m, lbl, at, [Asm(Jnc, SR, LR, AImm(0))])
    requires s.regs[PC] == m.base + at && s.regs[LR] == m.base + 5 && Running(s) && |s.mem| <= ADDRESSES
    ensures Runs(m, s, s') && s'.mem == s.mem && !Running(s') && s'.regs[RR] == s.regs[RR]
  {
    AtPrologue(m, lbl);
    AtOne(m, lbl, at, Asm(Jnc, SR, LR, AImm(0)));
    RunJump(m, s, at, SR, LR, 0);
    var s1 := State(s.regs[PC := m.base + 5], s.mem);
    NotLowBit(s.regs[SR]);
    RunAlu(m, s1, 5, Xor, SR, SR, Reg(SR), 0);
    s' := State(s1.regs[SR := 0][PC := m.base + 5 + 1], s.mem);
    RunsTrans(m, s, s1, s');
  }

  lemma MainPlaced(es: Exprs, m: Image)
    requires m.code == Assemble(Lines(es), LabelsOf(es))
    ensures var main := LabelsOf(es)[MainLabel]; var c := CompileSeq(es, 0, map[]);
            && At(m, LabelsOf(es), 0, Prologue()) && At(m, LabelsOf(es), main, c)
            && At(m, LabelsOf(es), main + |c|, [Asm(Jnc, SR, LR, AImm(0))])
            && LabelsOf(es)[StackLabel] == |m.code| == main + |c| + 1
  {
    hide At, CompileSeq, TableOf, Functions, FnLabels;
    var t, lbl := TableOf(es), LabelsOf(es);
    var fs, c, ret := Functions(t, |t.order|), CompileSeq(es, 0, map[]), [Asm(Jnc, SR, LR, AImm(0))];
    assert Lines(es) == [] + Prologue() + (fs + MainCode(es));
    AssembledAt(m, lbl, Lines(es), [], Prologue(), fs + MainCode(es));
    assert Lines(es) == (Prologue() + fs) + c + ret;
    AssembledAt(m, lbl, Lines(es), Prologue() + fs, c, ret);
    assert Lines(es) == (Prologue() + fs + c) + ret + [];
    AssembledAt(m, lbl, Lines(es), Prologue() + fs + c, ret, []);
  }

  lemma MainStarts(m: Image, s: State, at: nat, need: nat)
    requires Poised(m, s, at) && s.regs[FP] + need < |s.mem| && s.regs[RR] == 0
    ensures Start(m, s, at, 0, map[], map[], 0, need)
  {
  }

  /**
   A program that the compiler and the assembler accept, and whose meaning is o,
   halts with that value in r1d when it is started with o.need words of stack.
   */
  lemma ProgramCorrect(es: Exprs, m: Image, machine: Word, mem: seq<Word>, fuel: nat, o: Out) returns (s': State)
    requires Build(es) == Some(m.code) && m.lo == m.base + |m.code|
    requires m.lo + o.need < |mem| <= ADDRESSES
    requires EvalSeq(ProgramOf(es, m.base), fuel, es, 0, map[]) == Some(o)
    ensures Runs(m, Initial(m.base, machine, mem), s') && !Running(s') && s'.regs[RR] == o.acc
  {
    BuildWorld(es, m);
    MainPlaced(es, m);
    var w := Setup(m, LabelsOf(es), ProgramOf(es, m.base));
    s' := BuiltCorrect(w, es, machine, mem, fuel, o, CompileSeq(es, 0, map[]));
  }

  lemma BuiltCorrect(w: Rig, es: Exprs, machine: Word, mem: seq<Word>, fuel: nat, o: Out, c: seq<Asm>) returns (s': State)
    requires At(w.m, w.lbl, 0, Prologue()) && MainLabel in w.lbl && StackLabel in w.lbl && c == CompileSeq(es, 0, map[])
    requires At(w.m, w.lbl, w.lbl[MainLabel], c) && At(w.m, w.lbl, w.lbl[MainLabel] + |c|, [Asm(Jnc, SR, LR, AImm(0))])
    requires w.lbl[StackLabel] == |w.m.code| && w.m.lo == w.m.base + |w.m.code| && w.m.lo + o.need < |mem| <= ADDRESSES
    requires EvalSeq(w.p, fuel, es, 0, map[]) == Some(o)
    ensures Runs(w.m, Initial(w.m.base, machine, mem), s') && !Running(s') && s'.regs[RR] == o.acc
  {
    hide CompileSeq, EvalSeq, Prologue, Runs, Kept, Holds, Placed;
    var s0 := Initial(w.m.base, machine, mem);
    var main := w.lbl[MainLabel];
    var s1 := PrologueRuns(w.m, w.lbl, s0);
    MainStarts(w.m, s1, main, o.need);
    var s2 := SeqCorrect(w, fuel, es, 0, map[], o, map[], 0, c, s1, main);
    KeptLength(w.m, s1, s2, main, |c|, o, map[], 0);
    s' := EpilogueHalts(w.m, w.lbl, s2, main + |c|);
    RunsTrans(w.m, s0, s1, s2);
    RunsTrans(w.m, s0, s2, s');
  }

  lemma KeptLength(m: Image, s: State, s': State, at: nat, n: nat, o: Out, slots: Slots, idx: int)
    requires Correct(m, s, s', at, n, o, slots, idx)
    ensures |s'.mem| == |s.mem|
  {
  }
}
