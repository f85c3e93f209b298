/**
 The expression language of x86_64/compile.py and its meaning.

 An expression reads and replaces an accumulator (register r1d in compiled
 code): forms that emit no code leave it as it was.  An environment gives each
 name in scope a word, or None while it has not been initialised.  Evaluation
 also reports how many stack slots above the current one it uses.  Fuel bounds
 the depth of calls and the number of loop iterations; None means that fuel ran
 out or that the C machine's behaviour is undefined.
 */
module Source {
  import opened Words
  import opened Machine

  type Name = string

  datatype Expr =
    | Int(n: int)
    | Nil
    | Var(x: Name)
    | Prim(op: Opcode, l: Expr, r: Expr)
    | Gt(l: Expr, r: Expr)
    | Let(binds: Binds, body: Exprs)
    | Assign(x: Name, e: Expr)
    | If(c: Expr, yes: Expr, no: Expr)
    | Loop(c: Expr, body: Exprs)
    | Def(f: Name, params: seq<Name>, fnBody: Exprs)   // [: f params body], whose code is emitted apart
    | Call(f: Name, args: Exprs)
    | Blank                   // an operator with the wrong number of operands, which emits nothing

  datatype Exprs = Done | Then(head: Expr, tail: Exprs)

  datatype Binds = NoBind | Bind(x: Name, e: Expr, rest: Binds)

  datatype Fn = Fn(params: seq<Name>, body: Exprs)

  function Size(e: Expr): nat {
    match e
    case Int(_) => 0
    case Nil => 0
    case Var(_) => 0
    case Prim(_, l, r) => 1 + Size(l) + Size(r)
    case Gt(l, r) => 1 + Size(l) + Size(r)
    case Let(binds, body) => 1 + BindsSize(binds) + SeqSize(body)
    case Assign(_, e1) => 1 + Size(e1)
    case If(c, yes, no) => 1 + Size(c) + Size(yes) + Size(no)
    case Loop(c, body) => 1 + Size(c) + SeqSize(body)
    case Def(_, _, _) => 0
    case Call(_, args) => 1 + SeqSize(args)
    case Blank => 0
  }

  function SeqSize(es: Exprs): nat {
    match es
    case Done => 0
    case Then(e, rest) => 1 + Size(e) + SeqSize(rest)
  }

  function BindsSize(bs: Binds): nat {
    match bs
    case NoBind => 0
    case Bind(_, e, rest) => 1 + Size(e) + BindsSize(rest)
  }

  type Env = map<Name, Option<Word>>

  datatype Out = Out(acc: Word, env: Env, need: nat)

  datatype Args = Args(vals: seq<Word>, acc: Word, env: Env, need: nat)

  /** The functions of a program, and the word that a reference to each evaluates to. */
  datatype Program = Program(fns: map<Name, Fn>, addr: map<Name, Word>)

  predicate IsPrim(op: Opcode) {
    op in {Ads, Sbs, And, Orr, Xor, Nor, Shf, Mls, Mlu, Dvs, Dvu}
  }

  function Max(a: nat, b: nat): nat { if a < b then b else a }

  /** `>` is the sign bit of the wrapped difference. */
  function Greater(a: Word, b: Word): Word { if Sub(b, a) >= W63 then 1 else 0 }

  /** It is the signed comparison exactly when the difference does not overflow. */
  lemma GreaterIsSigned(a: Word, b: Word)
    ensures (Greater(a, b) == if Signed(a) > Signed(b) then 1 else 0) <==> 0 - W63 <= Signed(b) - Signed(a) < W63
  {
    var d := Signed(b) - Signed(a);
    assert Sub(b, a) == d || Sub(b, a) == d + W64 || Sub(b, a) == d - W64 by {
      assert (b - a) % W64 == b - a || (b - a) % W64 == b - a + W64;
    }
  }

  /** The most negative word is reported greater than 1. */
  lemma GreaterOverflows()
    ensures Greater(W63, 1) == 1 && Signed(W63) < Signed(1)
  {
    assert Sub(1, W63) == W63 + 1;
  }

  /** Leaving the scope of x: other names keep their updates, x gets its outer meaning back. */
  function Restore(outer: Env, inner: Env, x: Name): Env {
    if x in outer then inner[x := outer[x]] else inner - {x}
  }

  function BindParams(params: seq<Name>, vals: seq<Word>): Env
    requires |params| == |vals|
  {
    if params == [] then map[] else
      var n := |params| - 1;
      BindParams(params[..n], vals[..n])[params[n] := Some(vals[n])]
  }

  function Eval(p: Program, fuel: nat, e: Expr, acc: Word, env: Env): Option<Out>
    decreases fuel, Size(e), 1
  {
    match e
    case Int(n) => Some(Out(ToWord(n), env, 0))
    case Nil => Some(Out(0, env, 0))
    case Var(x) => if x in env && env[x].Some? then Some(Out(env[x].value, env, 0)) else None
    case Prim(op, l, r) => EvalPrim(p, fuel, op, l, r, acc, env)
    case Gt(l, r) => EvalGt(p, fuel, l, r, acc, env)
    case Let(binds, body) =>
      if body == Done then Some(Out(acc, env, 0)) else EvalLet(p, fuel, binds, body, acc, env)
    case Assign(x, e1) => if x !in env then Some(Out(acc, env, 0)) else EvalAssign(p, fuel, x, e1, acc, env)
    case If(c, yes, no) => EvalIf(p, fuel, c, yes, no, acc, env)
    case Loop(c, body) => EvalLoop(p, fuel, c, body, acc, env)
    case Def(f, _, _) => if f in p.addr then Some(Out(p.addr[f], env, 0)) else None
    case Call(f, args) => EvalCall(p, fuel, f, args, acc, env)
    case Blank => Some(Out(acc, env, 0))
  }

  function EvalPrim(p: Program, fuel: nat, op: Opcode, l: Expr, r: Expr, acc: Word, env: Env): Option<Out>
    decreases fuel, 1 + Size(l) + Size(r), 0
  {
    match Eval(p, fuel, l, acc, env)
    case None => None
    case Some(ol) =>
      match Eval(p, fuel, r, ol.acc, ol.env)
      case None => None
      case Some(or) =>
        match if IsPrim(op) then Alu(op, ol.acc, or.acc) else None
        case None => None
        case Some(v) => Some(Out(v, or.env, Max(1 + ol.need, 2 + or.need)))
  }

  /** The right operand is evaluated first. */
  function EvalGt(p: Program, fuel: nat, l: Expr, r: Expr, acc: Word, env: Env): Option<Out>
    decreases fuel, 1 + Size(l) + Size(r), 0
  {
    match Eval(p, fuel, r, acc, env)
    case None => None
    case Some(or) =>
      match Eval(p, fuel, l, or.acc, or.env)
      case None => None
      case Some(ol) => Some(Out(Greater(ol.acc, or.acc), ol.env, Max(1 + or.need, 2 + ol.need)))
  }

  function EvalAssign(p: Program, fuel: nat, x: Name, e: Expr, acc: Word, env: Env): Option<Out>
    decreases fuel, 1 + Size(e), 0
  {
    match Eval(p, fuel, e, acc, env)
    case None => None
    case Some(o) => Some(Out(o.acc, o.env[x := Some(o.acc)], o.need))
  }

  /** A value is true when its lowest bit is set; the test itself leaves 0 or 1 behind. */
  function EvalIf(p: Program, fuel: nat, c: Expr, yes: Expr, no: Expr, acc: Word, env: Env): Option<Out>
    decreases fuel, 1 + Size(c) + Size(yes) + Size(no), 0
  {
    match Eval(p, fuel, c, acc, env)
    case None => None
    case Some(oc) =>
      match if oc.acc % 2 == 1 then Eval(p, fuel, yes, 0, oc.env) else Eval(p, fuel, no, 1, oc.env)
      case None => None
      case Some(o) => Some(Out(o.acc, o.env, Max(oc.need, o.need)))
  }

  function EvalLoop(p: Program, fuel: nat, c: Expr, body: Exprs, acc: Word, env: Env): Option<Out>
    decreases fuel, 1 + Size(c) + SeqSize(body), 0
  {
    match Eval(p, fuel, c, acc, env)
    case None => None
    case Some(oc) =>
      if oc.acc % 2 == 0 then Some(Out(1, oc.env, oc.need))
      else
        match EvalSeq(p, fuel, body, 0, oc.env)
        case None => None
        case Some(ob) =>
          if fuel == 0 then None else
            match EvalLoop(p, fuel - 1, c, body, ob.acc, ob.env)
            case None => None
            case Some(o) => Some(Out(o.acc, o.env, Max(oc.need, Max(ob.need, o.need))))
  }

  function EvalCall(p: Program, fuel: nat, f: Name, args: Exprs, acc: Word, env: Env): Option<Out>
    decreases fuel, 1 + SeqSize(args), 0
  {
    match EvalArgs(p, fuel, args, acc, env)
    case None => None
    case Some(a) =>
      if fuel == 0 || f !in p.fns || |p.fns[f].params| != |a.vals| then None else
        match EvalSeq(p, fuel - 1, p.fns[f].body, a.acc, BindParams(p.fns[f].params, a.vals))
        case None => None
        case Some(o) => Some(Out(o.acc, a.env, Max(a.need, |a.vals| + 2 + o.need)))
  }

  function EvalSeq(p: Program, fuel: nat, es: Exprs, acc: Word, env: Env): Option<Out>
    decreases fuel, SeqSize(es), 0
  {
    match es
    case Done => Some(Out(acc, env, 0))
    case Then(e, rest) =>
      match Eval(p, fuel, e, acc, env)
      case None => None
      case Some(o) =>
        match EvalSeq(p, fuel, rest, o.acc, o.env)
        case None => None
        case Some(o') => Some(Out(o'.acc, o'.env, Max(o.need, o'.need)))
  }

  /** A bound name is in scope, uninitialised, in its own initialiser. */
  function EvalLet(p: Program, fuel: nat, binds: Binds, body: Exprs, acc: Word, env: Env): Option<Out>
    decreases fuel, BindsSize(binds) + SeqSize(body), 1
  {
    match binds
    case NoBind => EvalSeq(p, fuel, body, acc, env)
    case Bind(x, e, rest) =>
      match Eval(p, fuel, e, acc, env[x := None])
      case None => None
      case Some(o) =>
        match EvalLet(p, fuel, rest, body, o.acc, o.env[x := Some(o.acc)])
        case None => None
        case Some(o') => Some(Out(o'.acc, Restore(env, o'.env, x), 1 + Max(o.need, o'.need)))
  }

  function EvalArgs(p: Program, fuel: nat, args: Exprs, acc: Word, env: Env): Option<Args>
    decreases fuel, SeqSize(args), 0
  {
    match args
    case Done => Some(Args([], acc, env, 1))
    case Then(e, rest) =>
      match Eval(p, fuel, e, acc, env)
      case None => None
      case Some(o) =>
        match EvalArgs(p, fuel, rest, o.acc, o.env)
        case None => None
        case Some(a) => Some(Args([o.acc] + a.vals, a.acc, a.env, 1 + Max(o.need, a.need)))
  }
}
