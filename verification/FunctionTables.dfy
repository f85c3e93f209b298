/** Which functions a program has, and in which order its text lists them. */
module FunctionTables {
  import opened Source
  import opened WholeProgram

  /** Entry k is the last one about its function. */
  predicate LastAbout(evs: seq<Event>, k: nat) { k < |evs| && forall j :: k < j < |evs| ==> evs[j].f != evs[k].f }

  /** Entry k is the first one about its function. */
  predicate FirstAbout(evs: seq<Event>, k: nat) { k < |evs| && forall j :: 0 <= j < k ==> evs[j].f != evs[k].f }

  ghost predicate Entered(evs: seq<Event>, f: Name) { exists k :: 0 <= k < |evs| && evs[k].f == f }

  /** A label is in the table once the compiler has met a definition of it; the code is that of the definition it finished last. */
  lemma {:induction false} LastDefinition(evs: seq<Event>, k: nat)
    requires LastAbout(evs, k)
    ensures var t := Record(Table([], map[]), evs);
            && evs[k].f in t.order
            && (evs[k].Close? ==> evs[k].f in t.fns && t.fns[evs[k].f] == evs[k].fn)
            && (evs[k].Open? ==> evs[k].f !in t.fns)
  {
    var n := |evs| - 1;
    if k < n { LastDefinition(evs[..n], k); }
  }

  /** Labels stand in the order in which the compiler first met them. */
  lemma {:induction false} FirstMet(evs: seq<Event>, j: nat, k: nat)
    requires FirstAbout(evs, j) && FirstAbout(evs, k) && j < k
    ensures var o := Record(Table([], map[]), evs).order; exists a, b :: 0 <= a < b < |o| && o[a] == evs[j].f && o[b] == evs[k].f
  {
    var n := |evs| - 1;
    var t := Record(Table([], map[]), evs[..n]);
    assert Record(Table([], map[]), evs) == Apply(t, evs[n]);
    if k < n {
      FirstMet(evs[..n], j, k);
      var a, b :| 0 <= a < b < |t.order| && t.order[a] == evs[j].f && t.order[b] == evs[k].f;
      assert Apply(t, evs[n]).order[a] == evs[j].f && Apply(t, evs[n]).order[b] == evs[k].f;
    } else {
      Ordered(evs[..n], evs[j].f);
      Ordered(evs[..n], evs[k].f);
      assert evs[..n][j] == evs[j];
      var a :| 0 <= a < |t.order| && t.order[a] == evs[j].f;
      assert Apply(t, evs[n]).order[a] == evs[j].f && Apply(t, evs[n]).order[|t.order|] == evs[k].f;
    }
  }

  /** Nothing else is in the table. */
  lemma {:induction false} Ordered(evs: seq<Event>, f: Name)
    ensures f in Record(Table([], map[]), evs).order <==> Entered(evs, f)
  {
    if evs != [] {
      var n := |evs| - 1;
      Ordered(evs[..n], f);
      if k :| 0 <= k < |evs| && evs[k].f == f { assert k < n ==> evs[..n][k].f == f; }
    }
  }

  // --------------------------------------------------------------- programs

  function Fun(f: Name, body: Expr): Expr { Def(f, [], Then(body, Done)) }

  function Body(e: Expr): Fn { Fn([], Then(e, Done)) }

  lemma FunEvents(f: Name, e: Expr, scope: set<Name>)
    ensures Events(Fun(f, e), scope) == [Open(f)] + Events(e, {}) + [Close(f, Body(e))]
  {
    var inside: set<Name> := set x | x in [];
    assert inside == {};
    SeqOfOne(e, {});
  }

  lemma SeqOfOne(e: Expr, scope: set<Name>)
    ensures SeqEvents(Then(e, Done), scope) == Events(e, scope)
  {
  }

  lemma NumberEvents(f: Name, n: int)
    ensures Events(Fun(f, Int(n)), {}) == [Open(f), Close(f, Body(Int(n)))]
  {
    FunEvents(f, Int(n), {});
    assert Events(Int(n), {}) == [];
  }

  lemma Another(evs: seq<Event>, ev: Event)
    ensures Record(Table([], map[]), evs + [ev]) == Apply(Record(Table([], map[]), evs), ev)
  {
    assert (evs + [ev])[..|evs|] == evs;
  }

  /** A whole definition, after others. */
  lemma WholeDefinition(evs: seq<Event>, f: Name, fn: Fn, t: Table)
    requires Record(Table([], map[]), evs) == t
    ensures Record(Table([], map[]), evs + [Open(f), Close(f, fn)]) ==
            Table(if f in t.order then t.order else t.order + [f], t.fns[f := fn])
  {
    Another(evs, Open(f));
    Another(evs + [Open(f)], Close(f, fn));
    assert evs + [Open(f)] + [Close(f, fn)] == evs + [Open(f), Close(f, fn)];
    assert (t.fns - {f})[f := fn] == t.fns[f := fn];
  }

  /** In [if [: a [] 1] [: b [] 2] [: c [] 3]] the condition is compiled last. */
  lemma ConditionLast()
    ensures TableOf(Then(If(Fun("a", Int(1)), Fun("b", Int(2)), Fun("c", Int(3))), Done)).order == ["b", "c", "a"]
  {
    var a, b, c := Fun("a", Int(1)), Fun("b", Int(2)), Fun("c", Int(3));
    SeqOfOne(If(a, b, c), {});
    assert Events(If(a, b, c), {}) == Events(b, {}) + Events(c, {}) + Events(a, {});
    hide *;
    NumberEvents("a", 1);
    NumberEvents("b", 2);
    NumberEvents("c", 3);
    ThreeDefinitions("b", Body(Int(2)), "c", Body(Int(3)), "a", Body(Int(1)));
    TableIs(Then(If(a, b, c), Done));
  }

  lemma TableIs(es: Exprs)
    ensures TableOf(es) == Record(Table([], map[]), SeqEvents(es, {}))
  {
  }

  lemma ThreeDefinitions(f: Name, fn: Fn, g: Name, gn: Fn, h: Name, hn: Fn)
    requires f != g && f != h && g != h
    ensures Record(Table([], map[]), [Open(f), Close(f, fn)] + [Open(g), Close(g, gn)] + [Open(h), Close(h, hn)]).order == [f, g, h]
  {
    hide Record, Apply;
    NoEvents();
    assert [] + [Open(f), Close(f, fn)] == [Open(f), Close(f, fn)];
    WholeDefinition([], f, fn, Table([], map[]));
    WholeDefinition([Open(f), Close(f, fn)], g, gn, Table([f], map[f := fn]));
    WholeDefinition([Open(f), Close(f, fn)] + [Open(g), Close(g, gn)], h, hn, Table([f, g], map[f := fn, g := gn]));
  }

  lemma NoEvents()
    ensures Record(Table([], map[]), []) == Table([], map[])
  {
  }

  /** In [: f [] [: g [] 1]] [: f [] 2], f is first, and means the second definition. */
  lemma InnerSecond()
    ensures var t := TableOf(Then(Fun("f", Fun("g", Int(1))), Then(Fun("f", Int(2)), Done)));
            t.order == ["f", "g"] && t.fns == map["f" := Body(Int(2)), "g" := Body(Int(1))]
  {
    var g := Fun("g", Int(1));
    var es := Then(Fun("f", g), Then(Fun("f", Int(2)), Done));
    assert SeqEvents(es, {}) == Events(Fun("f", g), {}) + SeqEvents(Then(Fun("f", Int(2)), Done), {});
    hide *;
    TableIs(es);
    SeqOfOne(Fun("f", Int(2)), {});
    FunEvents("f", g, {});
    NumberEvents("g", 1);
    NumberEvents("f", 2);
    NestedDefinition("f", Body(g), Body(Int(2)), "g", Body(Int(1)));
  }

  lemma NestedDefinition(f: Name, fn: Fn, fn': Fn, g: Name, gn: Fn)
    requires f != g
    ensures Record(Table([], map[]), [Open(f)] + [Open(g), Close(g, gn)] + [Close(f, fn)] + [Open(f), Close(f, fn')]) ==
            Table([f, g], map[f := fn', g := gn])
  {
    hide Record;
    NoEvents();
    var o := [Open(f)];
    Another([], Open(f));
    assert [] + [Open(f)] == o;
    WholeDefinition(o, g, gn, Table([f], map[]));
    var n := o + [Open(g), Close(g, gn)];
    Another(n, Close(f, fn));
    WholeDefinition(n + [Close(f, fn)], f, fn', Table([f, g], map[g := gn, f := fn]));
  }
}
