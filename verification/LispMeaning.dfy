/**
 What the operators of lisp.c do, read off the values and the store: what an evaluation returns, and what is in the
 function objects afterwards. Operators, sup and self are written out as characters.
 */
module LispMeaning {
  import opened Words
  import opened Lisp

  /** A string or number object of one character. */
  predicate IsChar(v: Value, ch: char) { (v.Str? || v.Num?) && v.key == [ch as Word] }

  /** Neither an operator nor '<': an element that stands for itself. */
  predicate Plain(v: Value) {
    !IsChar(v, '~') && !IsChar(v, ':') && !IsChar(v, '>') && !IsChar(v, '|') && !IsChar(v, '<')
  }

  predicate IsName(v: Value) { v.Str? || v.Num? }

  /** The functions of st are still there, unchanged. */
  predicate Extends(st: Store, st': Store) { |st| <= |st'| && st'[..|st|] == st }

  lemma OperatorIs(v: Value)
    ensures IsChar(v, '~') ==> OpOf(v) == Some(Def) && !IsComp(v)
    ensures IsChar(v, ':') ==> OpOf(v) == Some(Call) && !IsComp(v)
    ensures IsChar(v, '>') ==> OpOf(v) == Some(Reduce) && !IsComp(v)
    ensures IsChar(v, '|') ==> OpOf(v) == Some(Name) && !IsComp(v)
    ensures Plain(v) ==> OpOf(v) == None && !IsComp(v)
  {
    if IsName(v) && |v.key| == 1 { assert v.key == [v.key[0]]; }
  }

  // ---------------------------------------------------------- one operator

  /** An operator before an element that is none itself. */
  lemma OneOperator(st: Store, fuel: nat, op: Value, v: Value, self: nat)
    requires OpOf(op).Some? && !IsComp(op) && Plain(v)
    ensures Eval(st, fuel, Arr([op, v]), self) ==
            match ApplyOp(st, fuel, OpOf(op).value, v, self) case None => None case Some(o) => Some(Outcome(o.st, Arr([o.v])))
  {
    var items := [op, v];
    OperatorIs(v);
    hide ApplyOp, OpOf, IsComp;
    ScanTwo(op, v);
    assert EvalItems(st, fuel, items, 0, self, []) ==
           match ApplyOps(st, fuel, [OpOf(op).value], v, self)
           case None => None
           case Some(o) => EvalItems(o.st, fuel, items, 2, self, [] + [o.v]);
    assert forall o: Outcome :: EvalItems(o.st, fuel, items, 2, self, [] + [o.v]) == Some(Outcome(o.st, Arr([] + [o.v])));
    assert forall x: Value :: [] + [x] == [x];
    ApplyOne(st, fuel, OpOf(op).value, v, self);
  }

  lemma ScanTwo(op: Value, v: Value)
    requires OpOf(op).Some? && !IsComp(op) && OpOf(v).None? && !IsComp(v)
    ensures Scan([op, v], 0, []) == Some(([OpOf(op).value], 1))
  {
    var items := [op, v];
    hide OpOf, IsComp;
    assert [OpOf(op).value] + [] == [OpOf(op).value];
    assert Scan(items, 1, [OpOf(op).value]) == Some(([OpOf(op).value], 1));
  }

  lemma ApplyOne(st: Store, fuel: nat, op: Op, v: Value, self: nat)
    ensures ApplyOps(st, fuel, [op], v, self) == ApplyOp(st, fuel, op, v, self)
  {
    hide ApplyOp;
    assert [op][1..] == [];
  }

  /** ~ [params body] adds one function object with these params and this body, in the name space of which is only sup. */
  lemma TildeDefines(st: Store, fuel: nat, op: Value, params: Value, body: Value, more: seq<Value>, self: nat)
    requires IsChar(op, '~')
    ensures var r := Eval(st, fuel, Arr([op, Arr([params, body] + more)]), self);
            && r.Some? && r.value.v == Arr([Fn(|st|)]) && |r.value.st| == |st| + 1 && Extends(st, r.value.st)
            && r.value.st[|st|].args == params && r.value.st[|st|].exp == body
            && r.value.st[|st|].ns == map[['s' as Word, 'u' as Word, 'p' as Word] := Fn(self)]
  {
    OperatorIs(op);
    OneOperator(st, fuel, op, Arr([params, body] + more), self);
  }

  /** | [name v] binds the name to v in the name space of the running function, and nothing else; its value is v. */
  lemma BarBinds(st: Store, fuel: nat, op: Value, name: Value, v: Value, more: seq<Value>, self: nat)
    requires IsChar(op, '|') && IsName(name) && self < |st|
    ensures var r := Eval(st, fuel, Arr([op, Arr([name, v] + more)]), self);
            && r.Some? && r.value.v == Arr([v]) && |r.value.st| == |st|
            && (forall id :: 0 <= id < |st| && id != self ==> r.value.st[id] == st[id])
            && r.value.st[self].args == st[self].args && r.value.st[self].exp == st[self].exp
            && name.key in r.value.st[self].ns && r.value.st[self].ns[name.key] == v
            && r.value.st[self].ns.Keys == st[self].ns.Keys + {name.key}
            && (forall k :: k in st[self].ns && k != name.key ==> r.value.st[self].ns[k] == st[self].ns[k])
  {
    OperatorIs(op);
    OneOperator(st, fuel, op, Arr([name, v] + more), self);
  }

  /** > evaluates its element once more. */
  lemma AngleEvaluates(st: Store, fuel: nat, op: Value, v: Value, self: nat)
    requires IsChar(op, '>') && Plain(v)
    ensures Eval(st, fuel + 1, Arr([op, v]), self) ==
            match Eval(st, fuel, v, self) case None => None case Some(o) => Some(Outcome(o.st, Arr([o.v])))
  {
    OperatorIs(op);
    OneOperator(st, fuel + 1, op, v, self);
    hide Eval;
  }

  // ------------------------------------------------------------------ names

  /** The functions from self on, each the sup of the one before it, without k but for the last, which may have it. */
  ghost predicate Chain(st: Store, self: nat, k: Key, c: seq<nat>) {
    && c != [] && c[0] == self && (forall i :: 0 <= i < |c| ==> c[i] < |st|)
    && (forall i :: 0 <= i < |c| - 1 ==> k !in st[c[i]].ns && HasSup(st, c[i]) && st[c[i]].ns[['s' as Word, 'u' as Word, 'p' as Word]] == Fn(c[i + 1]))
    && forall i, j :: 0 <= i < j < |c| ==> c[i] != c[j]
  }

  predicate HasSup(st: Store, id: nat)
    requires id < |st|
  {
    var sup := ['s' as Word, 'u' as Word, 'p' as Word];
    sup in st[id].ns && st[id].ns[sup].Fn?
  }

  /** A walk along a chain whose first function is at c[i]. */
  lemma {:induction false} WalkChain(st: Store, self: nat, k: Key, c: seq<nat>, i: nat, n: nat)
    requires Chain(st, self, k, c) && i < |c| && n >= |c| - 1 - i
    requires k in st[c[|c| - 1]].ns || !HasSup(st, c[|c| - 1])
    ensures Lookup(st, n, c[i], k) ==
            if k in st[c[|c| - 1]].ns then Some(Some(st[c[|c| - 1]].ns[k])) else Some(None)
    decreases |c| - i
  {
    if i < |c| - 1 { WalkChain(st, self, k, c, i + 1, n - 1); }
  }

  /** A chain without repetition is no longer than the store. */
  lemma {:induction false} ShortChain(n: nat, c: seq<nat>)
    requires (forall i :: 0 <= i < |c| ==> c[i] < n) && forall i, j :: 0 <= i < j < |c| ==> c[i] != c[j]
    ensures |c| <= n
    decreases n
  {
    if c != [] {
      assert c[0] < n;
      if i :| 0 <= i < |c| && c[i] == n - 1 {
        var d := c[..i] + c[i + 1..];
        assert forall j :: 0 <= j < |d| ==> d[j] == c[if j < i then j else j + 1];
        ShortChain(n - 1, d);
      } else {
        ShortChain(n - 1, c);
      }
    }
  }

  /** : name is what the first function of the chain that has the name binds it to; the name self, if none has it, is the running function. */
  lemma ColonLooksUp(st: Store, fuel: nat, op: Value, name: Value, self: nat, c: seq<nat>)
    requires IsChar(op, ':') && IsName(name) && Plain(name) && Chain(st, self, name.key, c)
    requires name.key in st[c[|c| - 1]].ns || !HasSup(st, c[|c| - 1])
    ensures var r := Eval(st, fuel + 1, Arr([op, name]), self);
            var ns := st[c[|c| - 1]].ns;
            && (name.key in ns ==> r == Some(Outcome(st, Arr([ns[name.key]]))))
            && (name.key !in ns && name.key == ['s' as Word, 'e' as Word, 'l' as Word, 'f' as Word] ==> r == Some(Outcome(st, Arr([Fn(self)]))))
            && (name.key !in ns && name.key != ['s' as Word, 'e' as Word, 'l' as Word, 'f' as Word] ==> r == None)
  {
    OperatorIs(op);
    OneOperator(st, fuel + 1, op, name, self);
    ShortChain(|st|, c);
    WalkChain(st, self, name.key, c, 0, |st|);
    hide Eval;
  }

  // ------------------------------------------------------------------ calls

  predicate AllNames(names: seq<Value>) { forall i :: 0 <= i < |names| ==> IsName(names[i]) }

  /** Parameter i is the first of its name. */
  predicate FirstOf(names: seq<Value>, i: nat)
    requires AllNames(names)
  {
    i < |names| && forall j :: 0 <= j < i ==> names[j].key != names[i].key
  }

  /**
   The name space of an activation of f: sup is that of f, if f has one; every other name is a parameter, and is bound
   to the argument in the place of the first parameter of that name.
   */
  ghost predicate Bound(f: FnObj, names: seq<Value>, vals: seq<Value>, ns: map<Key, Value>)
    requires AllNames(names) && |names| == |vals|
  {
    var sup := ['s' as Word, 'u' as Word, 'p' as Word];
    && (sup in f.ns ==> sup in ns && ns[sup] == f.ns[sup])
    && (forall k :: k in ns ==> (k == sup && sup in f.ns) || exists i :: 0 <= i < |names| && names[i].key == k)
    && (forall i: nat :: FirstOf(names, i) && !(names[i].key == sup && sup in f.ns) ==> names[i].key in ns && ns[names[i].key] == vals[i])
  }

  lemma {:induction false} ArgsBound(f: FnObj, names: seq<Value>, vals: seq<Value>)
    requires AllNames(names) && |names| == |vals|
    ensures Bound(f, names, vals, BindArgs(if SUP in f.ns then map[SUP := f.ns[SUP]] else map[], names, vals))
    decreases |names|
  {
    if names != [] {
      var n := |names| - 1;
      ArgsBound(f, names[..n], vals[..n]);
      ArgBound(f, names, vals, BindArgs(if SUP in f.ns then map[SUP := f.ns[SUP]] else map[], names[..n], vals[..n]));
    }
  }

  /** One parameter more. */
  lemma ArgBound(f: FnObj, names: seq<Value>, vals: seq<Value>, ns: map<Key, Value>)
    requires AllNames(names) && |names| == |vals| > 0
    requires Bound(f, names[..|names| - 1], vals[..|names| - 1], ns)
    ensures Bound(f, names, vals, AddKey(ns, names[|names| - 1].key, vals[|names| - 1]))
  {
    var n := |names| - 1;
    forall k | k in AddKey(ns, names[n].key, vals[n]) && !(k == SUP && SUP in f.ns)
      ensures exists i :: 0 <= i < |names| && names[i].key == k
    {
      NameFound(f, names, vals, ns, k);
    }
    forall i: nat | FirstOf(names, i) && !(names[i].key == SUP && SUP in f.ns)
      ensures names[i].key in AddKey(ns, names[n].key, vals[n]) && AddKey(ns, names[n].key, vals[n])[names[i].key] == vals[i]
    {
      FirstBound(f, names, vals, ns, i);
    }
    hide FirstOf;
  }

  lemma NameFound(f: FnObj, names: seq<Value>, vals: seq<Value>, ns: map<Key, Value>, k: Key)
    requires AllNames(names) && |names| == |vals| > 0
    requires Bound(f, names[..|names| - 1], vals[..|names| - 1], ns)
    requires k in AddKey(ns, names[|names| - 1].key, vals[|names| - 1]) && !(k == SUP && SUP in f.ns)
    ensures exists i :: 0 <= i < |names| && names[i].key == k
  {
    var n := |names| - 1;
    if k in ns {
      var i :| 0 <= i < n && names[..n][i].key == k;
      assert names[i].key == k;
    } else {
      assert names[n].key == k;
    }
    hide FirstOf;
  }

  lemma FirstBound(f: FnObj, names: seq<Value>, vals: seq<Value>, ns: map<Key, Value>, i: nat)
    requires AllNames(names) && |names| == |vals| > 0
    requires Bound(f, names[..|names| - 1], vals[..|names| - 1], ns)
    requires FirstOf(names, i) && !(names[i].key == SUP && SUP in f.ns)
    ensures var ns' := AddKey(ns, names[|names| - 1].key, vals[|names| - 1]); names[i].key in ns' && ns'[names[i].key] == vals[i]
  {
    var n := |names| - 1;
    var front := names[..n];
    if i < n {
      assert FirstOf(front, i) && front[i] == names[i] && vals[..n][i] == vals[i];
    } else {
      assert forall j :: 0 <= j < |front| ==> front[j].key == names[j].key;
    }
  }

  /**
   : [f a b ..] calls f: its body is evaluated in a new function object with the parameters bound to the arguments,
   and the value is that of the last element of the body. As many arguments are needed as f has parameters.
   */
  lemma ColonCalls(st: Store, fuel: nat, op: Value, id: nat, vals: seq<Value>, self: nat) returns (st1: Store)
    requires IsChar(op, ':') && id < |st| && st[id].args.Arr? && AllNames(st[id].args.items)
    requires st[id].exp.Arr? && st[id].exp.items != []
    ensures |st1| == |st| + 1 && Extends(st, st1) && st1[|st|].args == st[id].args && st1[|st|].exp == st[id].exp
    ensures var r := Eval(st, fuel + 1, Arr([op, Arr([Fn(id)] + vals)]), self);
            if |vals| == |st[id].args.items| then
              && Bound(st[id], st[id].args.items, vals, st1[|st|].ns)
              && match Eval(st1, fuel, st[id].exp, |st|)
                 case None => r == None
                 case Some(o) => o.v.Arr? && if o.v.items == [] then r == None
                                             else r == Some(Outcome(o.st, Arr([o.v.items[|o.v.items| - 1]])))
            else r == None
  {
    var args, names := Arr([Fn(id)] + vals), st[id].args.items;
    OperatorIs(op);
    OneOperator(st, fuel + 1, op, args, self);
    assert args.items[1..] == vals;
    EvalGivesArray(st, fuel, st[id].exp, |st|);
    if |vals| == |names| {
      assert Callable(st, args);
      st1 := Activate(st, args);
      Activated(st, args, vals);
      EvalGivesArray(st1, fuel, st[id].exp, |st|);
      ArgsBound(st[id], names, vals);
      hide Eval, Activate, BindArgs;
    } else {
      st1 := st + [FnObj(map[], st[id].args, st[id].exp)];
      hide Eval, Activate;
    }
  }

  lemma Activated(st: Store, args: Value, vals: seq<Value>)
    requires Callable(st, args) && args.items[1..] == vals
    ensures var f, st1 := st[args.items[0].id], Activate(st, args);
            && |st1| == |st| + 1 && Extends(st, st1) && st1[|st|].args == f.args && st1[|st|].exp == f.exp
            && st1[|st|].ns == BindArgs(if SUP in f.ns then map[SUP := f.ns[SUP]] else map[], f.args.items, vals)
  {
  }

  lemma {:induction false} ItemsGiveArray(st: Store, fuel: nat, items: seq<Value>, i: nat, self: nat, done: seq<Value>)
    ensures EvalItems(st, fuel, items, i, self, done).Some? ==> EvalItems(st, fuel, items, i, self, done).value.v.Arr?
    decreases |items| - i
  {
    if i < |items| && Scan(items, i, []).Some? {
      var (stack, j) := Scan(items, i, []).value;
      ScanForward(items, i, []);
      hide ApplyOps, Scan;
      var o := ApplyOps(st, fuel, stack, items[j], self);
      if o.Some? { ItemsGiveArray(o.value.st, fuel, items, j + 1, self, done + [o.value.v]); }
    }
  }

  lemma EvalGivesArray(st: Store, fuel: nat, exp: Value, self: nat)
    ensures exp.Arr? && Eval(st, fuel, exp, self).Some? ==> Eval(st, fuel, exp, self).value.v.Arr?
  {
    if exp.Arr? { ItemsGiveArray(st, fuel, exp.items, 0, self, []); }
    hide EvalItems;
  }

  // -------------------------------------------------------- several elements

  /** An element that is no operator stands for itself. */
  lemma PlainIsItself(st: Store, fuel: nat, v: Value, self: nat)
    requires Plain(v)
    ensures Eval(st, fuel, Arr([v]), self) == Some(Outcome(st, Arr([v])))
  {
    OperatorIs(v);
    hide OpOf, IsComp;
    assert Scan([v], 0, []) == Some(([], 0));
    assert ApplyOps(st, fuel, [], v, self) == Some(Outcome(st, v));
    assert [] + [v] == [v];
    assert EvalItems(st, fuel, [v], 1, self, [v]) == Some(Outcome(st, Arr([v])));
  }

  /** Of two operators before an element the nearer one is applied first. */
  lemma NearestFirst(st: Store, fuel: nat, op1: Value, op2: Value, v: Value, self: nat, o: Outcome, w: Value)
    requires OpOf(op1).Some? && !IsComp(op1) && OpOf(op2).Some? && !IsComp(op2) && Plain(v)
    requires Eval(st, fuel, Arr([op2, v]), self) == Some(o) && o.v == Arr([w]) && Plain(w)
    ensures Eval(st, fuel, Arr([op1, op2, v]), self) == Eval(o.st, fuel, Arr([op1, w]), self)
  {
    OneOperator(st, fuel, op2, v, self);
    OneOperator(o.st, fuel, op1, w, self);
    OperatorIs(v);
    ThreeElements(st, fuel, op1, op2, v, self);
    hide Eval, OpOf, IsComp, ApplyOp;
    var a, b := OpOf(op1).value, OpOf(op2).value;
    assert [b, a][1..] == [a];
    ApplyOne(o.st, fuel, a, w, self);
  }

  lemma ThreeElements(st: Store, fuel: nat, op1: Value, op2: Value, v: Value, self: nat)
    requires OpOf(op1).Some? && !IsComp(op1) && OpOf(op2).Some? && !IsComp(op2) && OpOf(v).None? && !IsComp(v)
    ensures Eval(st, fuel, Arr([op1, op2, v]), self) ==
            match ApplyOps(st, fuel, [OpOf(op2).value, OpOf(op1).value], v, self)
            case None => None
            case Some(o) => Some(Outcome(o.st, Arr([o.v])))
  {
    var items, a, b := [op1, op2, v], OpOf(op1).value, OpOf(op2).value;
    hide OpOf, IsComp, ApplyOps;
    assert [a] + [] == [a] && [b] + [a] == [b, a];
    assert Scan(items, 2, [b, a]) == Some(([b, a], 2));
    assert Scan(items, 1, [a]) == Some(([b, a], 2));
    assert EvalItems(st, fuel, items, 0, self, []) ==
           match ApplyOps(st, fuel, [b, a], v, self)
           case None => None
           case Some(o) => EvalItems(o.st, fuel, items, 3, self, [] + [o.v]);
    assert forall o: Outcome :: EvalItems(o.st, fuel, items, 3, self, [] + [o.v]) == Some(Outcome(o.st, Arr([] + [o.v])));
    assert forall x: Value :: [] + [x] == [x];
  }

  /** Elements are evaluated from left to right, each in the store that the one before it has left. */
  lemma InOrder(st: Store, fuel: nat, xs: seq<Value>, ys: seq<Value>, self: nat)
    requires xs != [] && Plain(xs[|xs| - 1])
    ensures match Eval(st, fuel, Arr(xs), self)
            case None => Eval(st, fuel, Arr(xs + ys), self) == None
            case Some(o) =>
              o.v.Arr? &&
              match Eval(o.st, fuel, Arr(ys), self)
              case None => Eval(st, fuel, Arr(xs + ys), self) == None
              case Some(o') => o'.v.Arr? && Eval(st, fuel, Arr(xs + ys), self) == Some(Outcome(o'.st, Arr(o.v.items + o'.v.items)))
  {
    ItemsInOrder(st, fuel, xs, ys, 0, self, []);
    EvalGivesArray(st, fuel, Arr(xs), self);
    var o := Eval(st, fuel, Arr(xs), self);
    if o.Some? {
      EvalGivesArray(o.value.st, fuel, Arr(ys), self);
      DoneBefore(o.value.st, fuel, ys, 0, self, o.value.v.items, []);
      assert o.value.v.items + [] == o.value.v.items;
    }
    hide EvalItems;
  }

  lemma ItemsStep(st: Store, fuel: nat, items: seq<Value>, i: nat, self: nat, done: seq<Value>)
    requires i < |items|
    ensures Scan(items, i, []).Some? ==> i <= Scan(items, i, []).value.1 < |items|
    ensures EvalItems(st, fuel, items, i, self, done) ==
            match Scan(items, i, [])
            case None => None
            case Some((stack, j)) =>
              match ApplyOps(st, fuel, stack, items[j], self)
              case None => None
              case Some(o) => EvalItems(o.st, fuel, items, j + 1, self, done + [o.v])
  {
    if Scan(items, i, []).Some? { ScanForward(items, i, []); }
  }

  lemma ItemsDone(st: Store, fuel: nat, items: seq<Value>, self: nat, done: seq<Value>)
    ensures EvalItems(st, fuel, items, |items|, self, done) == Some(Outcome(st, Arr(done)))
  {
  }

  lemma {:induction false} ItemsInOrder(st: Store, fuel: nat, xs: seq<Value>, ys: seq<Value>, i: nat, self: nat, done: seq<Value>)
    requires xs != [] && Plain(xs[|xs| - 1]) && i <= |xs|
    ensures match EvalItems(st, fuel, xs, i, self, done)
            case None => EvalItems(st, fuel, xs + ys, i, self, done) == None
            case Some(o) => o.v.Arr? && EvalItems(st, fuel, xs + ys, i, self, done) == EvalItems(o.st, fuel, ys, 0, self, o.v.items)
    decreases |xs| - i
  {
    hide *;
    if i == |xs| {
      ItemsDone(st, fuel, xs, self, done);
      LaterItems(st, fuel, xs, ys, 0, self, done);
    } else {
      ScanFront(xs, ys, i, []);
      ItemsStep(st, fuel, xs, i, self, done);
      ItemsStep(st, fuel, xs + ys, i, self, done);
      if Scan(xs, i, []).Some? {
        var (stack, j) := Scan(xs, i, []).value;
        assert (xs + ys)[j] == xs[j];
        var o := ApplyOps(st, fuel, stack, xs[j], self);
        if o.Some? { ItemsInOrder(o.value.st, fuel, xs, ys, j + 1, self, done + [o.value.v]); }
      }
    }
  }

  lemma {:induction false} ScanFront(xs: seq<Value>, ys: seq<Value>, i: nat, stack: seq<Op>)
    requires xs != [] && Plain(xs[|xs| - 1]) && i < |xs|
    ensures Scan(xs + ys, i, stack) == Scan(xs, i, stack)
    decreases |xs| - i
  {
    assert (xs + ys)[i] == xs[i];
    OperatorIs(xs[|xs| - 1]);
    hide OpOf, IsComp, Plain;
    if !IsComp(xs[i]) && OpOf(xs[i]).Some? { ScanFront(xs, ys, i + 1, [OpOf(xs[i]).value] + stack); }
  }

  lemma {:induction false} LaterItems(st: Store, fuel: nat, xs: seq<Value>, ys: seq<Value>, i: nat, self: nat, done: seq<Value>)
    requires i <= |ys|
    ensures EvalItems(st, fuel, xs + ys, |xs| + i, self, done) == EvalItems(st, fuel, ys, i, self, done)
    decreases |ys| - i
  {
    hide *;
    if i == |ys| {
      ItemsDone(st, fuel, ys, self, done);
      ItemsDone(st, fuel, xs + ys, self, done);
    } else {
      LaterScan(xs, ys, i, []);
      ItemsStep(st, fuel, ys, i, self, done);
      ItemsStep(st, fuel, xs + ys, |xs| + i, self, done);
      if Scan(ys, i, []).Some? {
        var (stack, j) := Scan(ys, i, []).value;
        assert (xs + ys)[|xs| + j] == ys[j];
        var o := ApplyOps(st, fuel, stack, ys[j], self);
        if o.Some? { LaterItems(o.value.st, fuel, xs, ys, j + 1, self, done + [o.value.v]); }
      }
    }
  }

  lemma {:induction false} LaterScan(xs: seq<Value>, ys: seq<Value>, i: nat, stack: seq<Op>)
    ensures Scan(xs + ys, |xs| + i, stack) ==
            match Scan(ys, i, stack) case None => None case Some((s, j)) => Some((s, |xs| + j))
    decreases |ys| - i
  {
    hide OpOf, IsComp;
    if i < |ys| {
      assert (xs + ys)[|xs| + i] == ys[i];
      if !IsComp(ys[i]) && OpOf(ys[i]).Some? { LaterScan(xs, ys, i + 1, [OpOf(ys[i]).value] + stack); }
    }
  }

  /** What has been evaluated before stands before what follows. */
  lemma {:induction false} DoneBefore(st: Store, fuel: nat, items: seq<Value>, i: nat, self: nat, d: seq<Value>, e: seq<Value>)
    ensures match EvalItems(st, fuel, items, i, self, e)
            case None => EvalItems(st, fuel, items, i, self, d + e) == None
            case Some(o) => o.v.Arr? && EvalItems(st, fuel, items, i, self, d + e) == Some(Outcome(o.st, Arr(d + o.v.items)))
    decreases |items| - i
  {
    if i < |items| && Scan(items, i, []).Some? {
      var (stack, j) := Scan(items, i, []).value;
      ScanForward(items, i, []);
      hide ApplyOps, Scan;
      var o := ApplyOps(st, fuel, stack, items[j], self);
      if o.Some? {
        assert d + e + [o.value.v] == d + (e + [o.value.v]);
        DoneBefore(o.value.st, fuel, items, j + 1, self, d, e + [o.value.v]);
      }
    }
  }
}
