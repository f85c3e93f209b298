/**
 The references that objects hold to their types. The collector does not follow them: a type is a string object that
 the program holds for as long as it runs, and every object of the type adds one to its count.
 */
module CollectorTypes {
  import opened RefGraph
  import opened Refcount
  import opened TrialDeletion
  import opened CollectorTheory
  import opened CollectorExactness

  type Types = map<Ref, Ref>

  /** Type references as a graph of their own. */
  function TypeGraph(types: Types): (g: Graph)
    ensures g.Keys == types.Keys
  {
    map r | r in types :: if types[r] == NULL then [] else [types[r]]
  }

  /** Every type is an object that the program itself holds. */
  ghost predicate Typed(types: Types, roots: multiset<Ref>) {
    forall r :: r in types && types[r] != NULL ==> types[r] in types && roots[types[r]] > 0
  }

  /** What counts as external to the collector: the program's own references, and those of objects to their types. */
  ghost function External(roots: multiset<Ref>, types: Types): multiset<Ref> {
    roots + OutRefs(TypeGraph(types), types.Keys)
  }

  lemma ExternalSupport(roots: multiset<Ref>, types: Types, r: Ref)
    requires Typed(types, roots)
    ensures External(roots, types)[r] > 0 <==> roots[r] > 0
  {
    OutRefsHolder(TypeGraph(types), types.Keys, r);
    if r in OutRefs(TypeGraph(types), types.Keys) {
      var x :| x in types.Keys && r in TypeGraph(types)[x];
      assert types[x] == r;
    }
  }

  /** Types keep nothing alive that the program does not hold anyway. */
  lemma SameAnchors(g: Graph, roots: multiset<Ref>, types: Types, registered: set<Ref>)
    requires Typed(types, roots)
    ensures Anchors(g, External(roots, types), registered) == Anchors(g, roots, registered)
  {
    forall r | r in g ensures External(roots, types)[r] > 0 <==> roots[r] > 0 {
      ExternalSupport(roots, types, r);
    }
    hide External, Reach;
  }

  lemma SameDoomed(g: Graph, roots: multiset<Ref>, types: Types, swept: set<Ref>, root: Ref)
    requires Typed(types, roots)
    ensures Doomed(g, External(roots, types), swept, root) == Doomed(g, roots, swept, root)
  {
    var c := Reach(g, {root});
    forall r | r in c ensures External(roots, types)[r] > 0 <==> roots[r] > 0 {
      ExternalSupport(roots, types, r);
    }
    hide External, Reach, Live;
    assert HeldFromOutside(g, External(roots, types), swept, c) == HeldFromOutside(g, roots, swept, c);
  }

  // --------------------------------------------------------- object_delete

  /** The objects gone have left, and each has given up the reference to its type. */
  ghost predicate Released(w: Cells, w': Cells, types: Types, gone: set<Ref>) {
    && gone <= types.Keys && w'.Keys == w.Keys - gone
    && forall r :: r in w' ==>
         var n := OutRefs(TypeGraph(types), gone)[r];
         n <= w[r].rc && w'[r] == w[r].(rc := w[r].rc - n)
  }

  lemma ReleasedNone(w: Cells, types: Types)
    ensures Released(w, w, types, {})
  {
  }

  /** object_delete on the type of obj, then obj itself goes. */
  lemma ReleasedNext(w: Cells, w1: Cells, types: Types, gone: set<Ref>, obj: Ref, w2: Cells)
    requires Released(w, w1, types, gone) && obj in types && obj !in gone
    requires var t := types[obj];
             if t == NULL then w2 == w1 - {obj} else t in w1 && w1[t].rc > 0 && w2 == w1[t := GiveUp(w1[t])] - {obj}
    ensures Released(w, w2, types, gone + {obj})
  {
    hide OutRefs, TypeGraph;
    var t, tg, gone' := types[obj], TypeGraph(types), gone + {obj};
    OneMore(types, gone, obj);
    assert w2.Keys == w.Keys - gone';
    forall r | r in w2
      ensures var n := OutRefs(tg, gone')[r]; n <= w[r].rc && w2[r] == w[r].(rc := w[r].rc - n)
    {
      assert r in w1;
    }
  }

  lemma OneMore(types: Types, gone: set<Ref>, obj: Ref)
    requires gone <= types.Keys && obj in types && obj !in gone
    ensures forall r :: OutRefs(TypeGraph(types), gone + {obj})[r] ==
                        OutRefs(TypeGraph(types), gone)[r] + if r == types[obj] && r != NULL then 1 else 0
  {
    OutRefsAdd(TypeGraph(types), gone, obj);
    var t := types[obj];
    assert multiset(TypeGraph(types)[obj]) == if t == NULL then multiset{} else multiset{t};
    hide OutRefs;
  }

  /** The type of a swept object is not swept itself, and its count does not reach zero. */
  lemma TypesHeld(g: Graph, roots: multiset<Ref>, types: Types, swept: set<Ref>, w: Cells, w1: Cells, gone: set<Ref>, obj: Ref)
    requires Balanced(g, External(roots, types), swept, w) && Typed(types, roots) && types.Keys == g.Keys
    requires Released(w, w1, types, gone) && gone <= swept && obj in swept && obj !in gone && types[obj] != NULL
    ensures types[obj] in w1 && types[obj] != obj && w1[types[obj]].rc > 1
  {
    hide OutRefs, TypeGraph, Successors, Closed;
    var t, tg := types[obj], TypeGraph(types);
    OneMore(types, gone, obj);
    OutRefsBelow(tg, types.Keys, gone + {obj}, t);
  }

  /** Freeing the swept objects leaves a heap that is in balance with nothing swept. */
  lemma FreeBalanced(g: Graph, ext: multiset<Ref>, swept: set<Ref>, w: Cells)
    requires Balanced(g, ext, swept, w)
    ensures Balanced(g - swept, ext, {}, w - swept)
  {
    var h := g - swept;
    var live := Live(g, swept);
    assert h.Keys == live && Live(h, {}) == live;
    OutRefsAgree(g, h, live);
  }

  /** A heap from which the swept objects are gone is in balance again. */
  lemma ReleasedBalanced(g: Graph, roots: multiset<Ref>, types: Types, swept: set<Ref>, w: Cells, w': Cells)
    requires Balanced(g, External(roots, types), swept, w) && types.Keys == g.Keys && Released(w, w', types, swept)
    ensures Balanced(g - swept, External(roots, types - swept), {}, w')
  {
    var rest, ext, ext' := g - swept, External(roots, types), External(roots, types - swept);
    FreeBalanced(g, ext, swept, w);
    TypeRefsLeft(types, swept);
    hide OutRefs, TypeGraph, Balanced;
    Lowered(rest, ext, ext', w - swept, w');
  }

  /** Counts and external references fall together. */
  lemma Lowered(g: Graph, ext: multiset<Ref>, ext': multiset<Ref>, w: Cells, w': Cells)
    requires Balanced(g, ext, {}, w) && w'.Keys == w.Keys
    requires forall r :: r in w ==> ext'[r] <= ext[r] <= w[r].rc + ext'[r] && w'[r] == w[r].(rc := w[r].rc + ext'[r] - ext[r])
    ensures Balanced(g, ext', {}, w')
  {
    hide OutRefs, Closed, Successors;
  }

  lemma TypeRefsLeft(types: Types, gone: set<Ref>)
    requires gone <= types.Keys
    ensures OutRefs(TypeGraph(types), types.Keys) == OutRefs(TypeGraph(types), gone) + OutRefs(TypeGraph(types - gone), (types - gone).Keys)
  {
    var left := types.Keys - gone;
    OutRefsSplit(TypeGraph(types), types.Keys, gone);
    assert (types - gone).Keys == left;
    OutRefsAgree(TypeGraph(types), TypeGraph(types - gone), left);
  }

  lemma TypedRest(types: Types, roots: multiset<Ref>, g: Graph, swept: set<Ref>, w: Cells)
    requires Typed(types, roots) && Balanced(g, External(roots, types), swept, w)
    ensures Typed(types - swept, roots)
  {
    forall r | r in types - swept && types[r] != NULL ensures types[r] in types - swept {
      assert External(roots, types)[types[r]] > 0;
    }
  }

  // -------------------------------------------------------- building a heap

  lemma NoRefsTo(g: Graph, d: set<Ref>, r: Ref)
    requires Closed(g) && d <= g.Keys && r !in g && r != NULL
    ensures OutRefs(g, d)[r] == 0
  {
    OutRefsHolder(g, d, r);
  }

  /** The heap between collections: no marks, and every count as it should be. */
  ghost predicate Steady(g: Graph, ext: multiset<Ref>, w: Cells) {
    && Closed(g) && w.Keys == g.Keys
    && forall r :: r in g ==> w[r] == Cell(ext[r] + OutRefs(g, g.Keys)[r], 0, false) && w[r].rc < MAX_RC
  }

  lemma SteadyIs(g: Graph, ext: multiset<Ref>, w: Cells)
    ensures Balanced(g, ext, {}, w) <==> Steady(g, ext, w)
  {
    hide OutRefs;
    assert Live(g, {}) == g.Keys;
  }

  /** A new object of type t: nothing refers to it, and its type has one reference more. */
  lemma NewExternal(roots: multiset<Ref>, types: Types, obj: Ref, t: Ref)
    requires obj !in types
    ensures External(roots, types[obj := t]) == External(roots, types) + if t == NULL then multiset{} else multiset{t}
  {
    hide OutRefs, TypeGraph;
    TypeRefsMore(types, obj, t);
  }

  lemma TypeRefsMore(types: Types, obj: Ref, t: Ref)
    requires obj !in types
    ensures OutRefs(TypeGraph(types[obj := t]), types[obj := t].Keys) ==
            OutRefs(TypeGraph(types), types.Keys) + if t == NULL then multiset{} else multiset{t}
  {
    var types' := types[obj := t];
    assert types'.Keys == types.Keys + {obj} && TypeGraph(types')[obj] == if t == NULL then [] else [t];
    assert forall r :: r in types ==> TypeGraph(types')[r] == TypeGraph(types)[r];
    assert multiset(TypeGraph(types')[obj]) == if t == NULL then multiset{} else multiset{t};
    hide OutRefs, TypeGraph;
    OutRefsAgree(TypeGraph(types), TypeGraph(types'), types.Keys);
    OutRefsAdd(TypeGraph(types'), types.Keys, obj);
  }

  lemma NewRefs(g: Graph, obj: Ref)
    requires Closed(g) && obj != NULL && obj !in g
    ensures Closed(g[obj := []]) && OutRefs(g[obj := []], g[obj := []].Keys) == OutRefs(g, g.Keys) && OutRefs(g, g.Keys)[obj] == 0
  {
    var h := g[obj := []];
    NoRefsTo(g, g.Keys, obj);
    OutRefsAgree(g, h, g.Keys);
    OutRefsAdd(h, g.Keys, obj);
    assert h.Keys == g.Keys + {obj} && multiset(h[obj]) == multiset{};
    hide OutRefs;
  }

  /** The words of the heap after a new object has been added. */
  ghost function NewCells(w: Cells, obj: Ref, t: Ref): Cells {
    (if t in w then w[t := CountUp(w[t])] else w)[obj := Cell(0, 0, false)]
  }

  lemma NewBalanced(g: Graph, roots: multiset<Ref>, types: Types, w: Cells, obj: Ref, t: Ref)
    requires Balanced(g, External(roots, types), {}, w) && Typed(types, roots) && types.Keys == g.Keys
    requires obj != NULL && obj !in g && roots[obj] == 0 && (t == NULL || (t in g && roots[t] > 0 && w[t].rc + 1 < MAX_RC))
    ensures Typed(types[obj := t], roots) && Balanced(g[obj := []], External(roots, types[obj := t]), {}, NewCells(w, obj, t))
  {
    hide OutRefs, External, Balanced, TypeGraph;
    SteadyIs(g, External(roots, types), w);
    NewExternal(roots, types, obj, t);
    NewRefs(g, obj);
    ExternalSupport(roots, types, obj);
    SteadyIs(g[obj := []], External(roots, types[obj := t]), NewCells(w, obj, t));
  }

  lemma AppendRefs(g: Graph, obj: Ref, data: Ref)
    requires Closed(g) && obj in g && data in g
    ensures var h := g[obj := g[obj] + [data]]; Closed(h) && h.Keys == g.Keys && OutRefs(h, h.Keys) == OutRefs(g, g.Keys) + multiset{data}
  {
    var h := g[obj := g[obj] + [data]];
    OutRefsRemove(g, g.Keys, obj);
    OutRefsRemove(h, g.Keys, obj);
    OutRefsAgree(g, h, g.Keys - {obj});
    assert multiset(h[obj]) == multiset(g[obj]) + multiset{data} && h.Keys == g.Keys;
    hide OutRefs;
  }

  /** One reference more is held, and counted. */
  lemma AppendBalanced(g: Graph, ext: multiset<Ref>, w: Cells, obj: Ref, data: Ref)
    requires Balanced(g, ext, {}, w) && obj in g && data in g && w[data].rc + 1 < MAX_RC
    ensures Balanced(g[obj := g[obj] + [data]], ext, {}, w[data := CountUp(w[data])])
  {
    hide OutRefs, Balanced;
    SteadyIs(g, ext, w);
    AppendRefs(g, obj, data);
    SteadyIs(g[obj := g[obj] + [data]], ext, w[data := CountUp(w[data])]);
  }

  lemma HoldBalanced(g: Graph, roots: multiset<Ref>, types: Types, w: Cells, obj: Ref)
    requires Balanced(g, External(roots, types), {}, w) && Typed(types, roots) && obj in g && w[obj].rc + 1 < MAX_RC
    ensures Balanced(g, External(roots + multiset{obj}, types), {}, w[obj := CountUp(w[obj])])
    ensures Typed(types, roots + multiset{obj})
  {
    hide OutRefs, Balanced, TypeGraph;
    SteadyIs(g, External(roots, types), w);
    SteadyIs(g, External(roots + multiset{obj}, types), w[obj := CountUp(w[obj])]);
  }
}
