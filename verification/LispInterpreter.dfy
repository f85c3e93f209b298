/** The evaluators of lisp.c as they run: methods on a store that they update in place. */
module LispInterpreter {
  import opened Words
  import opened Traces
  import opened Lisp
  import opened LispMachine
  import opened LispEquivalence

  /** How _run_prog starts. */
  function Start(st: Store, self: nat, mainExpr: Value): Machine { Machine(st, [NewFrame(self, mainExpr, Cf)], None) }

  ghost predicate Evaluates(st: Store, fuel: nat, args: Value, self: nat, o: Outcome) { CallFn(st, fuel, args, self) == Some(o) }

  /** After n states no frame is left, and there is a value. */
  predicate Returned(m: Machine, n: nat) {
    Iterate(m, n).Some? && Iterate(m, n).value.frames == [] && Iterate(m, n).value.ret.Some?
  }

  /** What the loop returns is what the recursive evaluator computes. */
  lemma ReturnIsValue(st: Store, self: nat, mainExpr: Value, n: nat, o: Outcome)
    requires Iterate(Start(st, self, mainExpr), n) == Some(Machine(o.st, [], Some(o.v)))
    ensures exists fuel :: Evaluates(st, fuel, mainExpr, self, o)
  {
    var end := Machine(o.st, [], Some(o.v));
    assert Start(st, self, mainExpr).frames == [NewFrame(self, mainExpr, Cf)] + [];
    var fuel, o', n' := CallFrom(st, mainExpr, self, [], None, n, end);
    assert n' == 0 && o' == o;
    assert Evaluates(st, fuel, mainExpr, self, o);
  }

  /** Where the recursive evaluator finishes, the loop returns, given enough states. */
  lemma ValueIsReturned(st: Store, self: nat, mainExpr: Value, fuel: nat, o: Outcome) returns (n: nat)
    requires Evaluates(st, fuel, mainExpr, self, o)
    ensures Returned(Start(st, self, mainExpr), n) && Iterate(Start(st, self, mainExpr), n) == Some(Machine(o.st, [], Some(o.v)))
  {
    MachineRefines(st, fuel, mainExpr, self, o);
    var tr :| Trace(Stepper(), tr) && tr[0] == Start(st, self, mainExpr) && tr[|tr| - 1] == Machine(o.st, [], Some(o.v));
    n := TraceIterates(tr);
  }

  class Interpreter {
    /** The function objects, by number. */
    var fns: Store

    constructor (st: Store)
      ensures fns == st
    {
      fns := st;
    }

    /** get_val; null is None, and so is a chain of parents that never ends. */
    method LookUp(obj: Value, self: nat) returns (v: Option<Value>)
      ensures v == GetVal(fns, obj, self)
    {
      if !obj.Str? && !obj.Num? { return None; }
      var at: nat, left: nat := self, |fns|;
      while true
        invariant Lookup(fns, |fns|, self, obj.key) == Lookup(fns, left, at, obj.key)
        decreases left
      {
        if at >= |fns| { return None; }
        var ns := fns[at].ns;
        if obj.key in ns { return Some(ns[obj.key]); }
        if SUP !in ns || !ns[SUP].Fn? { break; }
        if left == 0 { return None; }
        at, left := ns[SUP].id, left - 1;
      }
      return if obj.key == SELF then Some(Fn(self)) else None;
    }

    /** new_fn and the binding loop of call_fn: the function object of one activation. */
    method Enter(args: Value)
      requires Callable(fns, args)
      modifies this
      ensures fns == Activate(old(fns), args)
    {
      var f := fns[args.items[0].id];
      var names, vals := f.args.items, args.items[1..];
      var ns := if SUP in f.ns then map[SUP := f.ns[SUP]] else map[];
      ghost var ns0 := ns;
      for i := 0 to |names|
        invariant ns == BindArgs(ns0, names[..i], vals[..i])
      {
        assert names[..i + 1][..i] == names[..i] && vals[..i + 1][..i] == vals[..i];
        ns := AddKey(ns, names[i].key, vals[i]);
      }
      assert names[..|names|] == names && vals[..|names|] == vals;
      fns := fns + [FnObj(ns, f.args, f.exp)];
    }

    /** eval_fn, with a bound on the depth of calls. */
    method EvalFn(exp: Value, self: nat, fuel: nat) returns (v: Option<Value>)
      modifies this
      ensures match Eval(old(fns), fuel, exp, self) case None => v == None case Some(o) => v == Some(o.v) && fns == o.st
      decreases fuel, 2, 0
    {
      if !exp.Arr? { return Some(exp); }
      var items := exp.items;
      var tmp: seq<Value> := [];
      var i := 0;
      while i < |items|
        invariant Eval(old(fns), fuel, exp, self) == EvalItems(fns, fuel, items, i, self, tmp)
        decreases |items| - i
      {
        ghost var i0 := i;
        var stack: seq<Op> := [];
        while i < |items| && !IsComp(items[i]) && OpOf(items[i]).Some?
          invariant Scan(items, i0, []) == Scan(items, i, stack) && i0 <= i
        {
          stack := [OpOf(items[i]).value] + stack;
          i := i + 1;
        }
        if i >= |items| || IsComp(items[i]) { return None; }
        var a := ApplyStack(stack, items[i], self, fuel);
        if a.None? { return None; }
        tmp := tmp + [a.value];
        i := i + 1;
      }
      return Some(Arr(tmp));
    }

    /** The inner loop of eval_fn: pop the operators one after the other. */
    method ApplyStack(stack: seq<Op>, v0: Value, self: nat, fuel: nat) returns (v: Option<Value>)
      modifies this
      ensures match ApplyOps(old(fns), fuel, stack, v0, self) case None => v == None case Some(o) => v == Some(o.v) && fns == o.st
      decreases fuel, 1, 0
    {
      var left, tmp := stack, v0;
      while left != []
        invariant ApplyOps(old(fns), fuel, stack, v0, self) == ApplyOps(fns, fuel, left, tmp, self)
        decreases |left|
      {
        var op := left[0];
        left := left[1..];
        match op {
          case Def =>
            var o := DefFn(fns, tmp, self);
            if o.None? { return None; }
            fns, tmp := o.value.st, o.value.v;
          case Name =>
            var o := NameFn(fns, tmp, self);
            if o.None? { return None; }
            fns, tmp := o.value.st, o.value.v;
          case Reduce =>
            if fuel == 0 { return None; }
            var r := EvalFn(tmp, self, fuel - 1);
            if r.None? { return None; }
            tmp := r.value;
          case Call =>
            if fuel == 0 { return None; }
            var r := CallFunction(tmp, self, fuel - 1);
            if r.None? { return None; }
            tmp := r.value;
        }
      }
      return Some(tmp);
    }

    /** call_fn */
    method CallFunction(args: Value, self: nat, fuel: nat) returns (v: Option<Value>)
      modifies this
      ensures match CallFn(old(fns), fuel, args, self) case None => v == None case Some(o) => v == Some(o.v) && fns == o.st
      decreases fuel, 3, 0
    {
      if !args.Arr? {
        v := LookUp(args, self);
        return;
      }
      if args.items == [] || !args.items[0].Fn? || args.items[0].id >= |fns| { return None; }
      var f := fns[args.items[0].id];
      if !Names(f.args) || |args.items| != |f.args.items| + 1 || !f.exp.Arr? || f.exp.items == [] { return None; }
      var tmp := |fns|;
      Enter(args);
      var r := EvalFn(f.exp, tmp, fuel);
      if r.None? || !r.value.Arr? || r.value.items == [] { return None; }
      return Some(r.value.items[|r.value.items| - 1]);
    }

    /** The loop of _run_prog, cut off after limit states: the value it returns, if it gets there. */
    method RunProg(self: nat, mainExpr: Value, limit: nat) returns (ret: Option<Value>)
      modifies this
      ensures ret.Some? ==> exists fuel :: Evaluates(old(fns), fuel, mainExpr, self, Outcome(fns, ret.value))
      ensures ret.None? ==> forall n :: 0 <= n <= limit ==> !Returned(Start(old(fns), self, mainExpr), n)
    {
      ghost var m0 := Start(fns, self, mainExpr);
      var frames := [NewFrame(self, mainExpr, Cf)];
      ret := None;
      var done := 0;
      while frames != [] && done < limit
        invariant done <= limit && Iterate(m0, done) == Some(Machine(fns, frames, ret))
        invariant forall n {:trigger Returned(m0, n)} :: 0 <= n < done ==> !Returned(m0, n)
        decreases limit - done
      {
        hide Iterate;
        var next := Step(Machine(fns, frames, ret));
        IterateOnce(m0, done);
        if next.None? {
          NeverAfter(m0, done, limit);
          return None;
        }
        fns, frames, ret := next.value.st, next.value.frames, next.value.ret;
        done := done + 1;
      }
      if frames == [] {
        NothingAfter(m0, done, limit);
        if ret.Some? { ReturnIsValue(old(fns), self, mainExpr, done, Outcome(fns, ret.value)); }
      } else {
        ret := None;
      }
    }
  }

  /** One more step at the end. */
  lemma {:induction false} IterateOnce(m: Machine, n: nat)
    ensures Iterate(m, n + 1) == match Iterate(m, n) case None => None case Some(m1) => Step(m1)
    decreases n
  {
    if n > 0 && Step(m).Some? { IterateOnce(Step(m).value, n - 1); }
  }

  /** A machine that is stuck stays stuck. */
  lemma {:induction false} NeverAfter(m: Machine, n: nat, limit: nat)
    requires Iterate(m, n).Some? && Step(Iterate(m, n).value).None?
    ensures forall k {:trigger Iterate(m, k)} :: n < k <= limit ==> Iterate(m, k).None?
    decreases limit
  {
    if n < limit {
      NeverAfter(m, n, limit - 1);
      IterateOnce(m, limit - 1);
    }
  }

  /** A machine without frames takes no step. */
  lemma NothingAfter(m: Machine, n: nat, limit: nat)
    requires Iterate(m, n).Some? && Iterate(m, n).value.frames == []
    ensures forall k {:trigger Iterate(m, k)} :: n < k <= limit ==> Iterate(m, k).None?
  {
    NeverAfter(m, n, limit);
  }
}
