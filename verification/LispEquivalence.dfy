/** The two evaluators agree in both directions: the frame machine finishes only where the recursive one does. */
module LispEquivalence {
  import opened Words
  import opened Traces
  import opened Lisp
  import opened LispMachine

  // ------------------------------------------------ more fuel, same outcome

  lemma {:induction false} EvalMore(st: Store, fuel: nat, exp: Value, self: nat, o: Outcome, more: nat)
    requires Eval(st, fuel, exp, self) == Some(o) && more >= fuel
    ensures Eval(st, more, exp, self) == Some(o)
    decreases fuel, 2, 0
  {
    if exp.Arr? { ItemsMore(st, fuel, exp.items, 0, self, [], o, more); }
  }

  lemma {:induction false} ItemsMore(st: Store, fuel: nat, items: seq<Value>, i: nat, self: nat, done: seq<Value>, o: Outcome, more: nat)
    requires EvalItems(st, fuel, items, i, self, done) == Some(o) && more >= fuel
    ensures EvalItems(st, more, items, i, self, done) == Some(o)
    decreases fuel, 1, |items| - i
  {
    if i < |items| {
      var (stack, j) := Scan(items, i, []).value;
      ScanForward(items, i, []);
      var a := ApplyOps(st, fuel, stack, items[j], self).value;
      OpsMore(st, fuel, stack, items[j], self, a, more);
      ItemsMore(a.st, fuel, items, j + 1, self, done + [a.v], o, more);
    }
  }

  lemma {:induction false} OpsMore(st: Store, fuel: nat, stack: seq<Op>, v: Value, self: nat, o: Outcome, more: nat)
    requires ApplyOps(st, fuel, stack, v, self) == Some(o) && more >= fuel
    ensures ApplyOps(st, more, stack, v, self) == Some(o)
    decreases fuel, 0, |stack|
  {
    if stack != [] {
      var a := ApplyOp(st, fuel, stack[0], v, self).value;
      OpMore(st, fuel, stack[0], v, self, a, more);
      OpsMore(a.st, fuel, stack[1..], a.v, self, o, more);
    }
  }

  lemma {:induction false} OpMore(st: Store, fuel: nat, op: Op, v: Value, self: nat, o: Outcome, more: nat)
    requires ApplyOp(st, fuel, op, v, self) == Some(o) && more >= fuel
    ensures ApplyOp(st, more, op, v, self) == Some(o)
    decreases fuel, 0, 0
  {
    if op.Reduce? { EvalMore(st, fuel - 1, v, self, o, more - 1); }
    if op.Call? { CallMore(st, fuel - 1, v, self, o, more - 1); }
  }

  lemma {:induction false} CallMore(st: Store, fuel: nat, args: Value, self: nat, o: Outcome, more: nat)
    requires CallFn(st, fuel, args, self) == Some(o) && more >= fuel
    ensures CallFn(st, more, args, self) == Some(o)
    decreases fuel, 3, 0
  {
    if args.Arr? {
      var body := st[args.items[0].id].exp;
      var a := Eval(Activate(st, args), fuel, body, |st|).value;
      EvalMore(Activate(st, args), fuel, body, |st|, a, more);
    }
  }

  // ---------------------------------------------- from the machine's steps

  /** The machine after n steps. */
  function Iterate(m: Machine, n: nat): Option<Machine>
    decreases n
  {
    if n == 0 then Some(m) else
      match Step(m)
      case None => None
      case Some(m1) => Iterate(m1, n - 1)
  }

  /** n steps from m empty the frame stack. */
  predicate Finishes(m: Machine, n: nat, end: Machine) { Iterate(m, n) == Some(end) && end.frames == [] }

  function Most(a: nat, b: nat): nat { if a < b then b else a }

  lemma StepOn(m: Machine, n: nat, end: Machine) returns (m1: Machine)
    requires Finishes(m, n, end) && m.frames != []
    ensures n > 0 && Step(m) == Some(m1) && Finishes(m1, n - 1, end)
  {
    m1 := Step(m).value;
  }

  lemma {:induction false} EvalFrom(st: Store, exp: Value, self: nat, rest: seq<Frame>, ret: Option<Value>, n: nat, end: Machine)
    returns (fuel: nat, o: Outcome, n': nat)
    requires Finishes(Machine(st, [NewFrame(self, exp, Ef)] + rest, ret), n, end)
    requires ret == Some(exp) || (exp.Arr? && exp.items != [])
    ensures Eval(st, fuel, exp, self) == Some(o) && n' < n && Finishes(Machine(o.st, rest, Some(o.v)), n', end)
    decreases n, 0
  {
    var f := NewFrame(self, exp, Ef);
    var m := Machine(st, [f] + rest, ret);
    assert m.frames[1..] == rest;
    var m1 := StepOn(m, n, end);
    if exp.Arr? && exp.items != [] {
      assert m1 == Machine(st, [f.(state := Ef0)] + rest, ret);
      fuel, o, n' := ItemsFrom(st, exp.items, 0, self, [], rest, ret, n - 1, end);
    } else {
      fuel, o, n' := 0, Outcome(st, exp), n - 1;
    }
  }

  lemma {:induction false} ItemsFrom(st: Store, items: seq<Value>, i: nat, self: nat, done: seq<Value>, rest: seq<Frame>, ret: Option<Value>,
                                     n: nat, end: Machine) returns (fuel: nat, o: Outcome, n': nat)
    requires i < |items| && Finishes(Machine(st, [Frame(self, Arr(items), done, [], i, Ef0)] + rest, ret), n, end)
    ensures EvalItems(st, fuel, items, i, self, done) == Some(o) && n' < n && Finishes(Machine(o.st, rest, Some(o.v)), n', end)
    decreases n
  {
    var f := Frame(self, Arr(items), done, [], i, Ef0);
    var m := Machine(st, [f] + rest, ret);
    assert m.frames[1..] == rest;
    var m1 := StepOn(m, n, end);
    var (stack, j) := Scan(items, i, []).value;
    ScanForward(items, i, []);
    var g := f.(ops := stack, i := j, state := Ef1);
    assert m1 == Machine(st, [g] + rest, Some(items[j]));
    var fuel1, a, n1 := OpsFrom(st, stack, items[j], rest, g, n - 1, end);
    fuel, o, n' := ItemsAfter(st, items, i, stack, j, self, done, rest, g, fuel1, a, n1, end);
  }

  /** After the operators of one element: the last one ends the frame, another one goes on. */
  lemma {:induction false} ItemsAfter(st: Store, items: seq<Value>, i: nat, stack: seq<Op>, j: nat, self: nat, done: seq<Value>, rest: seq<Frame>,
                                      g: Frame, fuel1: nat, a: Outcome, n: nat, end: Machine) returns (fuel: nat, o: Outcome, n': nat)
    requires i <= j < |items| && Scan(items, i, []) == Some((stack, j)) && g == Frame(self, Arr(items), done, stack, j, Ef1)
    requires ApplyOps(st, fuel1, stack, items[j], self) == Some(a)
    requires Finishes(Machine(a.st, [g.(ops := [])] + rest, Some(a.v)), n, end)
    ensures EvalItems(st, fuel, items, i, self, done) == Some(o) && n' < n && Finishes(Machine(o.st, rest, Some(o.v)), n', end)
    decreases n
  {
    var m2 := Machine(a.st, [g.(ops := [])] + rest, Some(a.v));
    assert m2.frames[1..] == rest;
    var m3 := StepOn(m2, n, end);
    if j + 1 >= |items| {
      fuel, o, n' := fuel1, Outcome(a.st, Arr(done + [a.v])), n - 1;
      assert EvalItems(a.st, fuel, items, j + 1, self, done + [a.v]) == Some(o);
    } else {
      assert m3 == Machine(a.st, [Frame(self, Arr(items), done + [a.v], [], j + 1, Ef0)] + rest, Some(a.v));
      var fuel2;
      fuel2, o, n' := ItemsFrom(a.st, items, j + 1, self, done + [a.v], rest, Some(a.v), n - 1, end);
      fuel := Most(fuel1, fuel2);
      OpsMore(st, fuel1, stack, items[j], self, a, fuel);
      ItemsMore(a.st, fuel2, items, j + 1, self, done + [a.v], o, fuel);
    }
  }

  lemma {:induction false} OpsFrom(st: Store, stack: seq<Op>, v: Value, rest: seq<Frame>, g: Frame, n: nat, end: Machine)
    returns (fuel: nat, o: Outcome, n': nat)
    requires g.state == Ef1 && g.ops == stack && g.exp.Arr? && Finishes(Machine(st, [g] + rest, Some(v)), n, end)
    ensures ApplyOps(st, fuel, stack, v, g.self) == Some(o) && n' <= n
    ensures Finishes(Machine(o.st, [g.(ops := [])] + rest, Some(o.v)), n', end)
    decreases n
  {
    if stack == [] {
      fuel, o, n' := 0, Outcome(st, v), n;
    } else {
      var m, h := Machine(st, [g] + rest, Some(v)), g.(ops := stack[1..]);
      assert m.frames[1..] == rest;
      var m1 := StepOn(m, n, end);
      assert m1 == Machine(st, [NewFrame(g.self, v, StateOf(stack[0]))] + ([h] + rest), Some(v));
      var fuel1, a, n1 := OpFrom(st, stack[0], v, g.self, [h] + rest, n - 1, end);
      var fuel2;
      fuel2, o, n' := OpsFrom(a.st, stack[1..], a.v, rest, h, n1, end);
      fuel := Most(fuel1, fuel2);
      OpMore(st, fuel1, stack[0], v, g.self, a, fuel);
      OpsMore(a.st, fuel2, stack[1..], a.v, g.self, o, fuel);
    }
  }

  lemma {:induction false} OpFrom(st: Store, op: Op, v: Value, self: nat, rest: seq<Frame>, n: nat, end: Machine)
    returns (fuel: nat, o: Outcome, n': nat)
    requires Finishes(Machine(st, [NewFrame(self, v, StateOf(op))] + rest, Some(v)), n, end)
    ensures ApplyOp(st, fuel, op, v, self) == Some(o) && n' < n && Finishes(Machine(o.st, rest, Some(o.v)), n', end)
    decreases n, 1
  {
    var m := Machine(st, [NewFrame(self, v, StateOf(op))] + rest, Some(v));
    assert m.frames[1..] == rest;
    var m1 := StepOn(m, n, end);
    match op {
      case Def => fuel, o, n' := 0, DefFn(st, v, self).value, n - 1;
      case Name => fuel, o, n' := 0, NameFn(st, v, self).value, n - 1;
      case Reduce =>
        fuel, o, n' := EvalFrom(st, v, self, rest, Some(v), n, end);
        fuel := fuel + 1;
      case Call =>
        fuel, o, n' := CallFrom(st, v, self, rest, Some(v), n, end);
        fuel := fuel + 1;
    }
  }

  lemma {:induction false} CallFrom(st: Store, args: Value, self: nat, rest: seq<Frame>, ret: Option<Value>, n: nat, end: Machine)
    returns (fuel: nat, o: Outcome, n': nat)
    requires Finishes(Machine(st, [NewFrame(self, args, Cf)] + rest, ret), n, end)
    ensures CallFn(st, fuel, args, self) == Some(o) && n' < n && Finishes(Machine(o.st, rest, Some(o.v)), n', end)
    decreases n, 0
  {
    var f := NewFrame(self, args, Cf);
    var m := Machine(st, [f] + rest, ret);
    assert m.frames[1..] == rest;
    hide Activate, Callable, GetVal, DefFn, NameFn, StepEf1, Scan, Iterate, Eval;
    var m1 := StepOn(m, n, end);
    if !args.Arr? {
      fuel, o, n' := 0, Outcome(st, GetVal(st, args, self).value), n - 1;
    } else {
      var st1, body := Activate(st, args), st[args.items[0].id].exp;
      var below := [f.(state := CfRet)] + rest;
      assert m1 == Machine(st1, [NewFrame(|st|, body, Ef)] + below, ret);
      var a, n1;
      fuel, a, n1 := EvalFrom(st1, body, |st|, below, ret, n - 1, end);
      var m2 := Machine(a.st, below, Some(a.v));
      assert m2.frames[1..] == rest;
      var m3 := StepOn(m2, n1, end);
      o, n' := Outcome(a.st, a.v.items[|a.v.items| - 1]), n1 - 1;
    }
  }

  lemma {:induction false} TraceIterates(tr: seq<Machine>) returns (n: nat)
    requires Trace(Stepper(), tr)
    ensures Iterate(tr[0], n) == Some(tr[|tr| - 1])
    decreases |tr|
  {
    if |tr| == 1 {
      n := 0;
    } else {
      assert Stepper()(tr[0]) == Some(tr[1]);
      var rest := tr[1..];
      forall i | 0 <= i < |rest| - 1 ensures Stepper()(rest[i]) == Some(rest[i + 1]) {
        assert Stepper()(tr[i + 1]) == Some(tr[i + 2]);
      }
      n := TraceIterates(rest);
      n := n + 1;
    }
  }

  /**
   The frame machine, started as _run_prog starts it, empties its frame stack with value v and store st'
   exactly when the recursive evaluator finishes the same call with that value and store.
   */
  lemma EvaluatorsAgree(st: Store, mainExpr: Value, self: nat, o: Outcome)
    ensures Runs(Machine(st, [NewFrame(self, mainExpr, Cf)], None), Machine(o.st, [], Some(o.v)))
            <==> exists fuel {:trigger CallFn(st, fuel, mainExpr, self)} :: 0 <= fuel && CallFn(st, fuel, mainExpr, self) == Some(o)
  {
    var m, end := Machine(st, [NewFrame(self, mainExpr, Cf)], None), Machine(o.st, [], Some(o.v));
    if Runs(m, end) {
      var tr :| Trace(Stepper(), tr) && tr[0] == m && tr[|tr| - 1] == end;
      var n := TraceIterates(tr);
      assert m.frames == [NewFrame(self, mainExpr, Cf)] + [];
      var fuel, o', n' := CallFrom(st, mainExpr, self, [], None, n, end);
      assert n' == 0 && o' == o;
      assert CallFn(st, fuel, mainExpr, self) == Some(o);
    }
    if fuel: nat :| CallFn(st, fuel, mainExpr, self) == Some(o) {
      MachineRefines(st, fuel, mainExpr, self, o);
    }
  }
}
