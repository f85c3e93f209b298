/**
 The explicit-frame evaluator _run_prog of lisp.c as a step function on frames,
 and its refinement of the recursive evaluator.
 */
module LispMachine {
  import opened Words
  import opened Traces
  import opened Lisp

  /** frame->state; cf, df, ef and nf are also what the operator table holds. */
  datatype FrameState = Cf | CfRet | Df | Ef | Ef0 | Ef1 | Nf

  datatype Frame = Frame(self: nat, exp: Value, tmp: seq<Value>, ops: seq<Op>, i: nat, state: FrameState)

  datatype Machine = Machine(st: Store, frames: seq<Frame>, ret: Option<Value>)

  function StateOf(op: Op): FrameState {
    match op case Def => Df case Call => Cf case Reduce => Ef case Name => Nf
  }

  /** get_frame */
  function NewFrame(self: nat, exp: Value, state: FrameState): Frame { Frame(self, exp, [], [], 0, state) }

  /** The break at the end of a state: the frame is deleted, ret goes to the one below. */
  function Pop(m: Machine, st: Store, ret: Option<Value>): Machine
    requires m.frames != []
  {
    Machine(st, m.frames[1..], ret)
  }

  function WithTop(m: Machine, f: Frame): Machine
    requires m.frames != []
  {
    m.(frames := [f] + m.frames[1..])
  }

  /** One state of the switch; falling through to the next label is a step of its own. */
  function Step(m: Machine): Option<Machine> {
    if m.frames == [] then None else
      var f := m.frames[0];
      match f.state
      case Cf => StepCf(m, f)
      case CfRet =>
        (match m.ret
         case None => None
         case Some(result) =>
           if result.Arr? && result.items != [] then Some(Pop(m, m.st, Some(result.items[|result.items| - 1]))) else None)
      case Df =>
        (match DefFn(m.st, f.exp, f.self)
         case None => None
         case Some(o) => Some(Pop(m, o.st, Some(o.v))))
      case Nf =>
        (match NameFn(m.st, f.exp, f.self)
         case None => None
         case Some(o) => Some(Pop(m, o.st, Some(o.v))))
      case Ef =>
        if !f.exp.Arr? || f.i >= |f.exp.items| then Some(Pop(m, m.st, m.ret))
        else Some(WithTop(m, f.(tmp := [], ops := [], state := Ef0)))
      case Ef0 =>
        if !f.exp.Arr? then None else
          (match Scan(f.exp.items, f.i, f.ops)
           case None => None
           case Some((stack, j)) =>
             ScanForward(f.exp.items, f.i, f.ops);
             Some(WithTop(m, f.(ops := stack, i := j, state := Ef1)).(ret := Some(f.exp.items[j]))))
      case Ef1 => StepEf1(m, f)
  }

  function StepCf(m: Machine, f: Frame): Option<Machine>
    requires m.frames != []
  {
    if !f.exp.Arr? then
      match GetVal(m.st, f.exp, f.self) case None => None case Some(v) => Some(Pop(m, m.st, Some(v)))
    else if !Callable(m.st, f.exp) then None
    else
      var st := Activate(m.st, f.exp);
      Some(Machine(st, [NewFrame(|m.st|, m.st[f.exp.items[0].id].exp, Ef), f.(state := CfRet)] + m.frames[1..], m.ret))
  }

  function StepEf1(m: Machine, f: Frame): Option<Machine>
    requires m.frames != []
  {
    if m.ret.None? || !f.exp.Arr? then None
    else if f.ops != [] then
      Some(m.(frames := [NewFrame(f.self, m.ret.value, StateOf(f.ops[0])), f.(ops := f.ops[1..])] + m.frames[1..]))
    else
      var tmp := f.tmp + [m.ret.value];
      if f.i + 1 >= |f.exp.items| then Some(Pop(m, m.st, Some(Arr(tmp))))
      else Some(WithTop(m, f.(tmp := tmp, i := f.i + 1, state := Ef0)))
  }

  function Stepper(): Machine -> Option<Machine> { m => Step(m) }

  ghost predicate Runs(m: Machine, m': Machine) { Leads(Stepper(), m, m') }

  lemma RunsRefl(m: Machine)
    ensures Runs(m, m)
  {
    LeadsRefl(Stepper(), m);
  }

  lemma RunsTrans(m: Machine, m1: Machine, m2: Machine)
    requires Runs(m, m1) && Runs(m1, m2)
    ensures Runs(m, m2)
  {
    LeadsTrans(Stepper(), m, m1, m2);
  }

  lemma RunsStep(m: Machine, m': Machine)
    requires Step(m) == Some(m')
    ensures Runs(m, m')
  {
    LeadsStep(Stepper(), m, m');
  }

  // ------------------------------------------------------------- refinement

  /** A frame for exp on top of rest runs to its deletion, leaving what the evaluator computes. */
  lemma {:induction false} EvalRuns(st: Store, fuel: nat, exp: Value, self: nat, o: Outcome, rest: seq<Frame>, ret: Option<Value>)
    requires Eval(st, fuel, exp, self) == Some(o)
    requires ret == Some(exp) || (exp.Arr? && exp.items != [])
    ensures Runs(Machine(st, [NewFrame(self, exp, Ef)] + rest, ret), Machine(o.st, rest, Some(o.v)))
    decreases fuel, 2, 0
  {
    var f := NewFrame(self, exp, Ef);
    var m := Machine(st, [f] + rest, ret);
    assert m.frames[1..] == rest;
    if exp.Arr? && exp.items != [] {
      var m1 := Machine(st, [f.(state := Ef0)] + rest, ret);
      RunsStep(m, m1);
      ItemsRun(st, fuel, exp.items, 0, self, [], o, rest, ret);
      RunsTrans(m, m1, Machine(o.st, rest, Some(o.v)));
    } else {
      RunsStep(m, Machine(st, rest, ret));
    }
  }

  /** From the label ef_0 at element i to the deletion of the frame. */
  lemma {:induction false} ItemsRun(st: Store, fuel: nat, items: seq<Value>, i: nat, self: nat, done: seq<Value>, o: Outcome,
                                    rest: seq<Frame>, ret: Option<Value>)
    requires EvalItems(st, fuel, items, i, self, done) == Some(o) && i < |items|
    ensures Runs(Machine(st, [Frame(self, Arr(items), done, [], i, Ef0)] + rest, ret), Machine(o.st, rest, Some(o.v)))
    decreases fuel, 1, |items| - i
  {
    var (stack, j) := Scan(items, i, []).value;
    ScanForward(items, i, []);
    var a := ApplyOps(st, fuel, stack, items[j], self).value;
    var f := Frame(self, Arr(items), done, [], i, Ef0);
    var g := f.(ops := stack, i := j, state := Ef1);
    var m, m1 := Machine(st, [f] + rest, ret), Machine(st, [g] + rest, Some(items[j]));
    assert m.frames[1..] == rest;
    RunsStep(m, m1);
    OpsRun(st, fuel, stack, items[j], a, rest, g);
    var h := g.(ops := []);
    var m2 := Machine(a.st, [h] + rest, Some(a.v));
    RunsTrans(m, m1, m2);
    assert m2.frames[1..] == rest;
    if j + 1 >= |items| {
      RunsStep(m2, Machine(a.st, rest, Some(Arr(done + [a.v]))));
      RunsTrans(m, m2, Machine(o.st, rest, Some(o.v)));
    } else {
      var m3 := Machine(a.st, [Frame(self, Arr(items), done + [a.v], [], j + 1, Ef0)] + rest, Some(a.v));
      RunsStep(m2, m3);
      RunsTrans(m, m2, m3);
      ItemsRun(a.st, fuel, items, j + 1, self, done + [a.v], o, rest, Some(a.v));
      RunsTrans(m, m3, Machine(o.st, rest, Some(o.v)));
    }
  }

  /** At the label ef_1: the operators waiting are applied to ret, one frame each. */
  lemma {:induction false} OpsRun(st: Store, fuel: nat, stack: seq<Op>, v: Value, o: Outcome, rest: seq<Frame>, g: Frame)
    requires ApplyOps(st, fuel, stack, v, g.self) == Some(o) && g.state == Ef1 && g.ops == stack && g.exp.Arr?
    ensures Runs(Machine(st, [g] + rest, Some(v)), Machine(o.st, [g.(ops := [])] + rest, Some(o.v)))
    decreases fuel, 0, |stack|
  {
    var m := Machine(st, [g] + rest, Some(v));
    if stack == [] {
      RunsRefl(m);
    } else {
      var a := ApplyOp(st, fuel, stack[0], v, g.self).value;
      var h := g.(ops := stack[1..]);
      var m1 := Machine(st, [NewFrame(g.self, v, StateOf(stack[0]))] + ([h] + rest), Some(v));
      assert m.frames[1..] == rest;
      assert m1.frames == [NewFrame(g.self, v, StateOf(stack[0])), h] + rest;
      RunsStep(m, m1);
      OpRuns(st, fuel, stack[0], v, g.self, a, [h] + rest);
      var m2 := Machine(a.st, [h] + rest, Some(a.v));
      RunsTrans(m, m1, m2);
      OpsRun(a.st, fuel, stack[1..], a.v, o, rest, h);
      RunsTrans(m, m2, Machine(o.st, [g.(ops := [])] + rest, Some(o.v)));
    }
  }

  /** The frame of one operator. */
  lemma {:induction false} OpRuns(st: Store, fuel: nat, op: Op, v: Value, self: nat, o: Outcome, rest: seq<Frame>)
    requires ApplyOp(st, fuel, op, v, self) == Some(o)
    ensures Runs(Machine(st, [NewFrame(self, v, StateOf(op))] + rest, Some(v)), Machine(o.st, rest, Some(o.v)))
    decreases fuel, 0, 0
  {
    var m := Machine(st, [NewFrame(self, v, StateOf(op))] + rest, Some(v));
    assert m.frames[1..] == rest;
    match op {
      case Def => RunsStep(m, Machine(o.st, rest, Some(o.v)));
      case Name => RunsStep(m, Machine(o.st, rest, Some(o.v)));
      case Reduce => EvalRuns(st, fuel - 1, v, self, o, rest, Some(v));
      case Call => CallRuns(st, fuel - 1, v, self, o, rest, Some(v));
    }
  }

  /** A call frame: the body runs in a frame above it, then its last value is returned. */
  lemma {:induction false} CallRuns(st: Store, fuel: nat, args: Value, self: nat, o: Outcome, rest: seq<Frame>, ret: Option<Value>)
    requires CallFn(st, fuel, args, self) == Some(o)
    ensures Runs(Machine(st, [NewFrame(self, args, Cf)] + rest, ret), Machine(o.st, rest, Some(o.v)))
    decreases fuel, 3, 0
  {
    var f := NewFrame(self, args, Cf);
    var m := Machine(st, [f] + rest, ret);
    assert m.frames[1..] == rest;
    if !args.Arr? {
      RunsStep(m, Machine(o.st, rest, Some(o.v)));
    } else {
      var st1, body := Activate(st, args), st[args.items[0].id].exp;
      var a := Eval(st1, fuel, body, |st|).value;
      var below := [f.(state := CfRet)] + rest;
      var m1 := Machine(st1, [NewFrame(|st|, body, Ef)] + below, ret);
      assert m1.frames == [NewFrame(|st|, body, Ef), f.(state := CfRet)] + rest;
      RunsStep(m, m1);
      EvalRuns(st1, fuel, body, |st|, a, below, ret);
      var m2 := Machine(a.st, below, Some(a.v));
      RunsTrans(m, m1, m2);
      assert m2.frames[1..] == rest;
      RunsStep(m2, Machine(o.st, rest, Some(o.v)));
      RunsTrans(m, m2, Machine(o.st, rest, Some(o.v)));
    }
  }

  /**
   Whenever the recursive evaluator finishes a call of the main expression, the frame machine,
   started as _run_prog starts it, empties its frame stack with the same value and the same store.
   */
  lemma MachineRefines(st: Store, fuel: nat, mainExpr: Value, self: nat, o: Outcome)
    requires CallFn(st, fuel, mainExpr, self) == Some(o)
    ensures Runs(Machine(st, [NewFrame(self, mainExpr, Cf)], None), Machine(o.st, [], Some(o.v)))
  {
    CallRuns(st, fuel, mainExpr, self, o, [], None);
    assert [NewFrame(self, mainExpr, Cf)] + [] == [NewFrame(self, mainExpr, Cf)];
  }
}
