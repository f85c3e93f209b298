/** What the expressions mean, said of the numbers and the bits of their parts. */
module SourceMeaning {
  import opened Words
  import opened Machine
  import opened Source
  import A = Arithmetic

  /** The two operands have values when they are evaluated in turn. */
  ghost predicate InTurn(p: Program, fuel: nat, e: Expr, next: Expr, acc: Word, env: Env, first: Out, second: Out) {
    Eval(p, fuel, e, acc, env) == Some(first) && Eval(p, fuel, next, first.acc, first.env) == Some(second)
  }

  /** An integer is its word. */
  lemma IntMeans(p: Program, fuel: nat, n: int, acc: Word, env: Env)
    ensures exists v: Word :: A.WordOfInt(v, n) && Eval(p, fuel, Int(n), acc, env) == Some(Out(v, env, 0))
  {
    A.ToWordIs(n);
  }

  /** An operation has a value exactly when its operands have, left before right, and C defines it on them; the value is what it means. */
  lemma PrimMeans(p: Program, fuel: nat, op: Opcode, l: Expr, r: Expr, acc: Word, env: Env, ol: Out, or: Out)
    requires A.IsArithmetic(op) && InTurn(p, fuel, l, r, acc, env, ol, or)
    ensures Eval(p, fuel, Prim(op, l, r), acc, env).Some? <==> !A.Undefined(op, ol.acc, or.acc)
    ensures var o := Eval(p, fuel, Prim(op, l, r), acc, env);
            o.Some? ==> A.Computes(op, ol.acc, or.acc, o.value.acc) && o.value.env == or.env
  {
    var e := EvalPrim(p, fuel, op, l, r, acc, env);
    assert Eval(p, fuel, Prim(op, l, r), acc, env) == e;
    assert IsPrim(op);
    A.AluComputes(op, ol.acc, or.acc);
    hide Eval, Alu, A.Computes, A.Undefined;
  }

  lemma PrimNeeds(p: Program, fuel: nat, op: Opcode, l: Expr, r: Expr, acc: Word, env: Env)
    requires Eval(p, fuel, Prim(op, l, r), acc, env).Some?
    ensures exists ol, or :: InTurn(p, fuel, l, r, acc, env, ol, or)
  {
    var e := EvalPrim(p, fuel, op, l, r, acc, env);
    var ol := Eval(p, fuel, l, acc, env).value;
    var or := Eval(p, fuel, r, ol.acc, ol.env).value;
    assert InTurn(p, fuel, l, r, acc, env, ol, or);
  }

  /** `>` evaluates its right operand first and is 1 or 0: the highest bit of the word of right minus left. */
  lemma GtMeans(p: Program, fuel: nat, l: Expr, r: Expr, acc: Word, env: Env, or: Out, ol: Out, d: Word)
    requires InTurn(p, fuel, r, l, acc, env, or, ol) && A.WordOfInt(d, or.acc - ol.acc)
    ensures var o := Eval(p, fuel, Gt(l, r), acc, env);
            o.Some? && o.value.acc == (if A.BitAt(d, 63) then 1 else 0) && o.value.env == ol.env
  {
    assert Eval(p, fuel, Gt(l, r), acc, env) == EvalGt(p, fuel, l, r, acc, env);
    GreaterIs(ol.acc, or.acc, d);
    hide Eval, Greater, A.BitAt, A.WordOfInt;
  }

  lemma GreaterIs(a: Word, b: Word, d: Word)
    requires A.WordOfInt(d, b - a)
    ensures Greater(a, b) == if A.BitAt(d, 63) then 1 else 0
  {
    A.ToWordIs(b - a);
    A.OneWord(Sub(b, a), d, b - a);
    A.SignedIs(d);
    hide A.BitAt;
  }

  /** The lowest bit of the condition chooses the branch, which finds 0 or 1 in the accumulator. */
  lemma IfMeans(p: Program, fuel: nat, c: Expr, yes: Expr, no: Expr, acc: Word, env: Env, oc: Out)
    requires Eval(p, fuel, c, acc, env) == Some(oc)
    ensures var o := Eval(p, fuel, If(c, yes, no), acc, env);
            var branch := if A.BitAt(oc.acc, 0) then Eval(p, fuel, yes, 0, oc.env) else Eval(p, fuel, no, 1, oc.env);
            && (o.Some? <==> branch.Some?)
            && (o.Some? ==> o.value.acc == branch.value.acc && o.value.env == branch.value.env)
  {
    assert Eval(p, fuel, If(c, yes, no), acc, env) == EvalIf(p, fuel, c, yes, no, acc, env);
    LowBit(oc.acc);
    hide Eval, A.BitAt;
  }

  lemma LowBit(w: Word)
    ensures A.BitAt(w, 0) <==> w % 2 == 1
  {
  }

  /** A loop whose condition has lowest bit 0 leaves 1; otherwise it is its body and then the same loop. */
  lemma LoopMeans(p: Program, fuel: nat, c: Expr, body: Exprs, acc: Word, env: Env, oc: Out)
    requires Eval(p, fuel, c, acc, env) == Some(oc)
    ensures !A.BitAt(oc.acc, 0) ==>
              var o := Eval(p, fuel, Loop(c, body), acc, env); o.Some? && o.value.acc == 1 && o.value.env == oc.env
    ensures A.BitAt(oc.acc, 0) && fuel > 0 ==>
              var o, ob := Eval(p, fuel, Loop(c, body), acc, env), EvalSeq(p, fuel, body, 0, oc.env);
              var again := if ob.Some? then Eval(p, fuel - 1, Loop(c, body), ob.value.acc, ob.value.env) else None;
              && (o.Some? <==> again.Some?)
              && (o.Some? ==> o.value.acc == again.value.acc && o.value.env == again.value.env)
  {
    var l := EvalLoop(p, fuel, c, body, acc, env);
    assert Eval(p, fuel, Loop(c, body), acc, env) == l;
    assert forall f, a, v :: Eval(p, f, Loop(c, body), a, v) == EvalLoop(p, f, c, body, a, v);
    LowBit(oc.acc);
    hide Eval, EvalSeq, A.BitAt;
  }

  /** An environment of the parameters and nothing else, each with its own argument. */
  predicate Bound(params: seq<Name>, vals: seq<Word>, env: Env) {
    && |params| == |vals|
    && (forall k :: 0 <= k < |params| ==> params[k] in env && env[params[k]] == Some(vals[k]))
    && (forall x :: x in env ==> x in params)
  }

  predicate Distinct(params: seq<Name>) { forall j, k :: 0 <= j < k < |params| ==> params[j] != params[k] }

  lemma {:induction false} BindParamsBinds(params: seq<Name>, vals: seq<Word>)
    requires |params| == |vals| && Distinct(params)
    ensures Bound(params, vals, BindParams(params, vals))
  {
    if params != [] {
      var n := |params| - 1;
      BindParamsBinds(params[..n], vals[..n]);
      assert BindParams(params, vals) == BindParams(params[..n], vals[..n])[params[n] := Some(vals[n])];
      OneMore(params, vals, n, BindParams(params[..n], vals[..n]));
    }
  }

  lemma OneMore(params: seq<Name>, vals: seq<Word>, n: nat, env: Env)
    requires |params| == |vals| == n + 1 && Distinct(params) && Bound(params[..n], vals[..n], env)
    ensures Bound(params, vals, env[params[n] := Some(vals[n])])
  {
    var more := env[params[n] := Some(vals[n])];
    forall k | 0 <= k <= n ensures params[k] in more && more[params[k]] == Some(vals[k]) {
      if k < n { assert params[..n][k] == params[k]; }
    }
  }

  lemma OneEnvironment(params: seq<Name>, vals: seq<Word>, v: Env, w: Env)
    requires Bound(params, vals, v) && Bound(params, vals, w)
    ensures v == w
  {
    forall x | x in v ensures x in w && v[x] == w[x] {
      var k :| 0 <= k < |params| && params[k] == x;
    }
    assert forall x :: x in w ==> x in v;
  }

  /**
   A call of a known function with one argument for each parameter evaluates the body with the parameters bound to the
   arguments and nothing else in scope, and leaves the environment that the arguments left.
   */
  lemma CallMeans(p: Program, fuel: nat, f: Name, args: Exprs, acc: Word, env: Env, a: Args)
    requires EvalArgs(p, fuel, args, acc, env) == Some(a) && fuel > 0 && f in p.fns
    ensures |a.vals| != |p.fns[f].params| ==> Eval(p, fuel, Call(f, args), acc, env).None?
    ensures Distinct(p.fns[f].params) ==>
              forall inner :: Bound(p.fns[f].params, a.vals, inner) ==>
                var o, body := Eval(p, fuel, Call(f, args), acc, env), EvalSeq(p, fuel - 1, p.fns[f].body, a.acc, inner);
                && (o.Some? <==> body.Some?)
                && (o.Some? ==> o.value.acc == body.value.acc && o.value.env == a.env)
  {
    assert Eval(p, fuel, Call(f, args), acc, env) == EvalCall(p, fuel, f, args, acc, env);
    if Distinct(p.fns[f].params) {
      forall inner | Bound(p.fns[f].params, a.vals, inner) ensures inner == BindParams(p.fns[f].params, a.vals) {
        BindParamsBinds(p.fns[f].params, a.vals);
        OneEnvironment(p.fns[f].params, a.vals, inner, BindParams(p.fns[f].params, a.vals));
      }
    }
    hide Eval, EvalSeq, EvalArgs, BindParams, Bound;
  }

  // --------------------------------------------------------------- programs

  const NoFns := Program(map[], map[])

  function One(e: Expr): Exprs { Then(e, Done) }

  predicate Gives(p: Program, fuel: nat, e: Expr, v: Word) { var o := Eval(p, fuel, e, 0, map[]); o.Some? && o.value.acc == v }

  /** [* 6 7], [/ 7 -2] and [- 7 2]: the product, rounding towards zero, left minus right. */
  lemma Operations()
    ensures Gives(NoFns, 0, Prim(Mls, Int(6), Int(7)), 42)
    ensures Gives(NoFns, 0, Prim(Dvs, Int(7), Int(-2)), 0xffff_ffff_ffff_fffd)
    ensures Gives(NoFns, 0, Prim(Sbs, Int(7), Int(2)), 5)
  {
  }

  /** [> 2 1], [> 1 2], [if 1 2 3] and [if 4 2 3]. */
  lemma Choices()
    ensures Gives(NoFns, 0, Gt(Int(2), Int(1)), 1) && Gives(NoFns, 0, Gt(Int(1), Int(2)), 0)
    ensures Gives(NoFns, 0, If(Int(1), Int(2), Int(3)), 2) && Gives(NoFns, 0, If(Int(4), Int(2), Int(3)), 3)
  {
  }

  /** [let [[x 3]] [- x 1]]. */
  lemma Scopes()
    ensures Gives(NoFns, 0, Let(Bind("x", Int(3), NoBind), One(Prim(Sbs, Var("x"), Int(1)))), 2)
  {
  }

  /** [let [[x 3]] [let [[x 9]] [set x 8]] x]: an inner x hides the outer one only inside. */
  lemma Hiding()
    ensures Gives(NoFns, 0, Let(Bind("x", Int(3), NoBind), Then(Let(Bind("x", Int(9), NoBind), One(Assign("x", Int(8)))), One(Var("x")))), 3)
  {
  }

  /** f is a minus b. */
  const Minus := Program(map["f" := Fn(["a", "b"], One(Prim(Sbs, Var("a"), Var("b"))))], map[])

  /** [f 7 2] is 5: arguments are bound in order. */
  lemma Calls()
    ensures Gives(Minus, 1, Call("f", Then(Int(7), One(Int(2)))), 5)
  {
    var vals, args := [7, 2], Then(Int(7), One(Int(2)));
    TwoArguments();
    CallMeans(Minus, 1, "f", args, 0, map[], Args(vals, 2, map[], EvalArgs(Minus, 1, args, 0, map[]).value.need));
    assert Bound(["a", "b"], vals, map["a" := Some(7), "b" := Some(2)]);
    Difference();
    hide Eval, EvalSeq, EvalArgs, BindParams;
  }

  lemma TwoArguments()
    ensures var a := EvalArgs(Minus, 1, Then(Int(7), One(Int(2))), 0, map[]); a.Some? && a.value.vals == [7, 2] && a.value.acc == 2 && a.value.env == map[]
  {
    LastArgument();
  }

  lemma LastArgument()
    ensures var a := EvalArgs(Minus, 1, One(Int(2)), 7, map[]); a.Some? && a.value.vals == [2] && a.value.acc == 2 && a.value.env == map[]
  {
  }

  lemma Difference()
    ensures var o := EvalSeq(Minus, 0, One(Prim(Sbs, Var("a"), Var("b"))), 2, map["a" := Some(7), "b" := Some(2)]);
            o.Some? && o.value.acc == 5
  {
  }
}
