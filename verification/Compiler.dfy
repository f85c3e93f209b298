/**
 The compiler of x86_64/compile.py: expressions to assembly lines.  A line is one
 instruction, so the newline counts that the source uses for jump distances are
 lengths here.  Functions are emitted apart and referred to by label.
 */
module Compiler {
  import opened Words
  import opened Machine
  import opened Source

  /** The last argument of a line: a register, a hexadecimal immediate or a label. */
  datatype Arg = AReg(r: nat) | AImm(i: int) | ALabel(l: Label)

  /** Labels are mangled function names; MAIN: and STACK: cannot collide with them. */
  datatype Label = Mangled(f: Name) | MainLabel | StackLabel

  datatype Asm = Asm(op: Opcode, a: nat, b: nat, c: Arg)

  /** Stack slot, relative to the frame pointer, of every name in scope. */
  type Slots = map<Name, int>

  function Store(r: nat, slot: int): Asm { Asm(Str, r, FP, AImm(slot)) }

  function Load(r: nat, slot: int): Asm { Asm(Ldr, r, FP, AImm(slot)) }

  function Operate(op: Opcode): Asm { Asm(op, RR, 0, AReg(RR)) }

  /** nor, and: leaves 1 in r1d exactly when its lowest bit was 0; then skip n + 1 lines. */
  function Branch(n: nat): seq<Asm> {
    [Asm(Nor, RR, RR, AReg(RR)), Asm(And, RR, RR, AImm(1)), Asm(Jnc, RR, PC, AImm(2 + n))]
  }

  function CompileExpr(e: Expr, idx: int, env: Slots): seq<Asm>
    decreases Size(e), 1
  {
    match e
    case Int(n) => [Asm(Xor, RR, RR, AReg(RR)), Asm(Ads, RR, RR, AImm(n))]
    case Nil => [Asm(Xor, RR, RR, AReg(RR))]
    case Var(x) => if x in env then [Load(RR, env[x])] else []
    case Prim(op, l, r) => CompilePrim(op, l, r, idx, env)
    case Gt(l, r) => CompileGt(l, r, idx, env)
    case Let(binds, body) => if body == Done then [] else CompileLet(binds, body, idx, env)
    case Assign(x, e1) => if x in env then CompileAssign(x, e1, idx, env) else []
    case If(c, yes, no) => CompileIf(c, yes, no, idx, env)
    case Loop(c, body) => CompileLoop(c, body, idx, env)
    case Def(f, _, _) => [Asm(Ads, RR, BP, ALabel(Mangled(f)))]
    case Call(f, args) => CompileCall(f, args, idx, env)
    case Blank => []
  }

  function CompilePrim(op: Opcode, l: Expr, r: Expr, idx: int, env: Slots): seq<Asm>
    decreases 1 + Size(l) + Size(r), 0
  {
    Binary(CompileExpr(l, idx + 1, env), CompileExpr(r, idx + 2, env), idx, [Operate(op)])
  }

  function CompileGt(l: Expr, r: Expr, idx: int, env: Slots): seq<Asm>
    decreases 1 + Size(l) + Size(r), 0
  {
    Binary(CompileExpr(r, idx + 1, env), CompileExpr(l, idx + 2, env), idx, [Operate(Sbs), Asm(Shf, RR, RR, AImm(0x3f))])
  }

  function CompileAssign(x: Name, e: Expr, idx: int, env: Slots): seq<Asm>
    requires x in env
    decreases 1 + Size(e), 0
  {
    CompileExpr(e, idx, env) + [Store(RR, env[x])]
  }

  function CompileIf(c: Expr, yes: Expr, no: Expr, idx: int, env: Slots): seq<Asm>
    decreases 1 + Size(c) + Size(yes) + Size(no), 0
  {
    var y, n := CompileExpr(yes, idx, env), CompileExpr(no, idx, env);
    CompileExpr(c, idx, env) + Branch(|y|) + y + [Asm(Jnc, SR, PC, AImm(1 + |n|))] + n
  }

  function CompileLoop(c: Expr, body: Exprs, idx: int, env: Slots): seq<Asm>
    decreases 1 + Size(c) + SeqSize(body), 0
  {
    var b, t := CompileSeq(body, idx, env), CompileExpr(c, idx, env);
    t + Branch(|b|) + b + [Asm(Jnc, SR, PC, AImm(-(3 + |b| + |t|)))]
  }

  function CompileCall(f: Name, args: Exprs, idx: int, env: Slots): seq<Asm>
    decreases 1 + SeqSize(args), 0
  {
    CompileArgs(args, idx + 1, env) + CallSequence(f, idx + 1 + Length(args))
  }

  /** The frame of builtin_op and compile_gt: save r0, first operand, second operand, combine, restore r0. */
  function Binary(first: seq<Asm>, second: seq<Asm>, idx: int, combine: seq<Asm>): seq<Asm> {
    [Store(0, idx + 1)] + first + [Store(RR, idx + 2)] + second + [Load(0, idx + 2)] + combine + [Load(0, idx + 1)]
  }

  function Length(es: Exprs): nat {
    match es
    case Done => 0
    case Then(_, rest) => 1 + Length(rest)
  }

  function CallSequence(f: Name, offset: int): seq<Asm> {
    [ Asm(Ads, SP, SP, AImm(offset)),
      Asm(Str, LR, SP, AImm(0)),
      Asm(Ads, LR, PC, AImm(2)),
      Asm(Jnc, SR, BP, ALabel(Mangled(f))),
      Asm(Ldr, LR, SP, AImm(0)),
      Asm(Sbs, SP, SP, AImm(offset)) ]
  }

  function CompileSeq(es: Exprs, idx: int, env: Slots): seq<Asm>
    decreases SeqSize(es), 0
  {
    match es
    case Done => []
    case Then(e, rest) => CompileExpr(e, idx, env) + CompileSeq(rest, idx, env)
  }

  function CompileLet(binds: Binds, body: Exprs, idx: int, env: Slots): seq<Asm>
    decreases BindsSize(binds) + SeqSize(body), 1
  {
    match binds
    case NoBind => CompileSeq(body, idx, env)
    case Bind(x, e, rest) =>
      var env' := env[x := idx + 1];
      CompileExpr(e, idx + 1, env') + [Store(RR, idx + 1)] + CompileLet(rest, body, idx + 1, env')
  }

  function CompileArgs(args: Exprs, idx: int, env: Slots): seq<Asm>
    decreases SeqSize(args), 0
  {
    match args
    case Done => []
    case Then(e, rest) => CompileExpr(e, idx, env) + [Store(RR, idx)] + CompileArgs(rest, idx + 1, env)
  }

  /** Parameter i of n lives at slot i - n - 1; a repeated name means its last occurrence. */
  function ParamSlots(params: seq<Name>, n: nat): Slots
    requires |params| <= n
  {
    if params == [] then map[] else
      var i := |params| - 1;
      ParamSlots(params[..i], n)[params[i] := i - n - 1]
  }

  function CompileFn(fn: Fn): seq<Asm> {
    [Asm(Str, FP, SP, AImm(1)), Asm(Ads, SP, SP, AImm(1)), Asm(Ads, FP, SP, AImm(0))]
    + CompileSeq(fn.body, 0, ParamSlots(fn.params, |fn.params|))
    + [Asm(Sbs, SP, SP, AImm(1)), Asm(Ldr, FP, SP, AImm(1)), Asm(Jnc, SR, LR, AImm(0))]
  }
}
