/**
 The expression language of lisp.c: values, the store of functions with their
 name spaces, and the recursive evaluator eval_fn / call_fn / def_fn / name_fn.
 None means that fuel ran out or that the C code goes wrong: an unbound name, a
 wrong number of arguments, an operator with nothing after it, an operand of
 the wrong type.
 */
module Lisp {
  import opened Words

  /** Strings and numbers are compared by their words, whatever their type. */
  type Key = seq<Word>

  datatype Value = Str(key: Key) | Num(key: Key) | Arr(items: seq<Value>) | Fn(id: nat)

  /** A function object: its name space, parameter names and body. */
  datatype FnObj = FnObj(ns: map<Key, Value>, args: Value, exp: Value)

  type Store = seq<FnObj>

  datatype Outcome = Outcome(st: Store, v: Value)

  const SUP: Key := ['s' as Word, 'u' as Word, 'p' as Word]
  const SELF: Key := ['s' as Word, 'e' as Word, 'l' as Word, 'f' as Word]

  datatype Op = Def | Call | Reduce | Name

  /** The operator table; '<' is an operator of the frame machine only, so no program here evaluates it. */
  function OpOf(v: Value): Option<Op> {
    if !v.Str? && !v.Num? then None
    else if v.key == ['~' as Word] then Some(Def)
    else if v.key == [':' as Word] then Some(Call)
    else if v.key == ['>' as Word] then Some(Reduce)
    else if v.key == ['|' as Word] then Some(Name)
    else None
  }

  predicate IsComp(v: Value) { (v.Str? || v.Num?) && v.key == ['<' as Word] }

  // --------------------------------------------------------- name spaces

  /** set_add_str_key: an existing key keeps its value. */
  function AddKey(ns: map<Key, Value>, k: Key, v: Value): map<Key, Value> { if k in ns then ns else ns[k := v] }

  /** get_val's walk up the chain of sup links; n bounds its length, so that None is also a cyclic chain. */
  function Lookup(st: Store, n: nat, id: nat, k: Key): Option<Option<Value>>
    decreases n
  {
    if id >= |st| then None else
      var ns := st[id].ns;
      if k in ns then Some(Some(ns[k]))
      else if SUP !in ns || !ns[SUP].Fn? then Some(None)
      else if n == 0 then None
      else Lookup(st, n - 1, ns[SUP].id, k)
  }

  /** get_val: a chain without repetition has at most as many links as there are functions. */
  function GetVal(st: Store, obj: Value, self: nat): Option<Value> {
    if !obj.Str? && !obj.Num? then None else
      match Lookup(st, |st|, self, obj.key)
      case None => None
      case Some(Some(v)) => Some(v)
      case Some(None) => if obj.key == SELF then Some(Fn(self)) else None
  }

  /** new_fn: a fresh function whose name space holds at most its sup. */
  function NewFn(st: Store, sup: Option<Value>, args: Value, exp: Value): Store {
    st + [FnObj(match sup case None => map[] case Some(v) => map[SUP := v], args, exp)]
  }

  function DefFn(st: Store, v: Value, self: nat): Option<Outcome> {
    if v.Arr? && |v.items| >= 2
    then Some(Outcome(NewFn(st, Some(Fn(self)), v.items[0], v.items[1]), Fn(|st|))) else None
  }

  function NameFn(st: Store, v: Value, self: nat): Option<Outcome> {
    if v.Arr? && |v.items| >= 2 && (v.items[0].Str? || v.items[0].Num?) && self < |st|
    then Some(Outcome(st[self := st[self].(ns := st[self].ns[v.items[0].key := v.items[1]])], v.items[1])) else None
  }

  predicate Names(args: Value) { args.Arr? && forall i :: 0 <= i < |args.items| ==> args.items[i].Str? || args.items[i].Num? }

  /** Binding the arguments, in order, to the parameter names. */
  function BindArgs(ns: map<Key, Value>, names: seq<Value>, vals: seq<Value>): map<Key, Value>
    requires |names| == |vals|
    requires forall i :: 0 <= i < |names| ==> names[i].Str? || names[i].Num?
    decreases |names|
  {
    if names == [] then ns else
      var n := |names| - 1;
      AddKey(BindArgs(ns, names[..n], vals[..n]), names[n].key, vals[n])
  }

  /** What call_fn needs: a function, as many arguments as parameters, and a body that is not empty. */
  predicate Callable(st: Store, args: Value) {
    && args.Arr? && args.items != [] && args.items[0].Fn? && args.items[0].id < |st|
    && var f := st[args.items[0].id];
       Names(f.args) && |args.items| == |f.args.items| + 1 && f.exp.Arr? && f.exp.items != []
  }

  /** The store with the function object of one activation, whose parent is the callee's own sup. */
  function Activate(st: Store, args: Value): Store
    requires Callable(st, args)
  {
    var f := st[args.items[0].id];
    var sup := if SUP in f.ns then Some(f.ns[SUP]) else None;
    var st1 := NewFn(st, sup, f.args, f.exp);
    st1[|st| := st1[|st|].(ns := BindArgs(st1[|st|].ns, f.args.items, args.items[1..]))]
  }

  // ----------------------------------------------------- the recursive evaluator

  /** The operators that stand before an element, and the element's place; None past the end. */
  function Scan(items: seq<Value>, i: nat, stack: seq<Op>): Option<(seq<Op>, nat)>
    decreases |items| - i
  {
    if i >= |items| then None
    else if IsComp(items[i]) then None
    else match OpOf(items[i])
         case None => Some((stack, i))
         case Some(op) => Scan(items, i + 1, [op] + stack)
  }

  lemma {:induction false} ScanForward(items: seq<Value>, i: nat, stack: seq<Op>)
    requires Scan(items, i, stack).Some?
    ensures i <= Scan(items, i, stack).value.1 < |items|
    decreases |items| - i
  {
    match OpOf(items[i]) {
      case None =>
      case Some(op) => ScanForward(items, i + 1, [op] + stack);
    }
  }

  /** eval_fn: an array is evaluated element by element, anything else is itself. */
  function Eval(st: Store, fuel: nat, exp: Value, self: nat): Option<Outcome>
    decreases fuel, 2, 0
  {
    if exp.Arr? then EvalItems(st, fuel, exp.items, 0, self, []) else Some(Outcome(st, exp))
  }

  function EvalItems(st: Store, fuel: nat, items: seq<Value>, i: nat, self: nat, done: seq<Value>): Option<Outcome>
    decreases fuel, 1, |items| - i
  {
    if i >= |items| then Some(Outcome(st, Arr(done))) else
      match Scan(items, i, [])
      case None => None
      case Some((stack, j)) =>
        ScanForward(items, i, []);
        match ApplyOps(st, fuel, stack, items[j], self)
        case None => None
        case Some(o) => EvalItems(o.st, fuel, items, j + 1, self, done + [o.v])
  }

  /** Operators are applied from the one nearest to the element outwards. */
  function ApplyOps(st: Store, fuel: nat, stack: seq<Op>, v: Value, self: nat): Option<Outcome>
    decreases fuel, 0, |stack|
  {
    if stack == [] then Some(Outcome(st, v)) else
      match ApplyOp(st, fuel, stack[0], v, self)
      case None => None
      case Some(o) => ApplyOps(o.st, fuel, stack[1..], o.v, self)
  }

  function ApplyOp(st: Store, fuel: nat, op: Op, v: Value, self: nat): Option<Outcome>
    decreases fuel, 0, 0
  {
    match op
    case Def => DefFn(st, v, self)
    case Name => NameFn(st, v, self)
    case Reduce => if fuel == 0 then None else Eval(st, fuel - 1, v, self)
    case Call => if fuel == 0 then None else CallFn(st, fuel - 1, v, self)
  }

  /** call_fn: a name is looked up; an array is a call, whose value is the last one of the body. */
  function CallFn(st: Store, fuel: nat, args: Value, self: nat): Option<Outcome>
    decreases fuel, 3, 0
  {
    if !args.Arr? then
      match GetVal(st, args, self) case None => None case Some(v) => Some(Outcome(st, v))
    else if !Callable(st, args) then None
    else
      match Eval(Activate(st, args), fuel, st[args.items[0].id].exp, |st|)
      case None => None
      case Some(o) => if o.v.Arr? && o.v.items != [] then Some(Outcome(o.st, o.v.items[|o.v.items| - 1])) else None
  }
}
