/**
 The cycle collector of alloc.c, method by method.  The heap is the set of live
 objects with their contents and packed refcount words; queues and the set of
 refuse are values, since their own storage is not part of the object graph.
 */
module Collector {
  import opened RefGraph
  import opened Refcount
  import opened TrialDeletion
  import opened CollectorTheory
  import opened CollectorExactness
  import opened CollectorTypes
  import opened Bodies

  /** The cells are the refcount words taken apart. */
  ghost predicate Linked(words: map<Ref, Word>, cells: Cells) {
    words.Keys == cells.Keys && forall r {:trigger CellOf(words[r])} :: r in words ==> cells[r] == CellOf(words[r])
  }

  /** _mark_tc in both directions: cond marks and queues, !cond unmarks and leaves the queue alone. */
  ghost function Walk(g: Graph, w: Cells, q: seq<Ref>, wl: seq<Ref>, cond: bool): (s: (Cells, seq<Ref>))
    requires Fits(g, w, wl)
    ensures s.0.Keys == g.Keys && Todo(s.0, cond) <= Todo(w, cond)
  {
    if cond then Mark(g, w, q, wl) else (Unmark(g, w, wl), q)
  }

  /** The objects the walk may still enter. */
  ghost function Todo(w: Cells, cond: bool): set<Ref> {
    if cond then UnmarkedSet(w) else MarkedSet(w)
  }

  lemma WalkConcat(g: Graph, w: Cells, q: seq<Ref>, a: seq<Ref>, b: seq<Ref>, cond: bool)
    requires Fits(g, w, a) && Fits(g, w, b)
    ensures Fits(g, w, a + b)
    ensures Walk(g, w, q, a + b, cond) == Walk(g, Walk(g, w, q, a, cond).0, Walk(g, w, q, a, cond).1, b, cond)
  {
    if cond { MarkConcat(g, w, q, a, b); } else { UnmarkConcat(g, w, a, b); }
  }

  lemma WalkNothing(g: Graph, w: Cells, q: seq<Ref>, cond: bool)
    requires Fits(g, w, [])
    ensures Walk(g, w, q, [], cond) == (w, q)
  {
  }

  lemma WalkNext(g: Graph, w: Cells, q: seq<Ref>, a: seq<Ref>, i: nat, cond: bool)
    requires Fits(g, w, a) && i < |a|
    ensures Fits(g, w, a[..i]) && Fits(g, w, a[..i + 1]) && Fits(g, w, [a[i]])
    ensures Walk(g, w, q, a[..i + 1], cond) ==
            Walk(g, Walk(g, w, q, a[..i], cond).0, Walk(g, w, q, a[..i], cond).1, [a[i]], cond)
  {
    assert a[..i + 1] == a[..i] + [a[i]];
    WalkConcat(g, w, q, a[..i], [a[i]], cond);
  }

  lemma SweepNext(g: Graph, w: Cells, refuse: set<Ref>, a: seq<Ref>, i: nat)
    requires Fits(g, w, a) && i < |a|
    ensures Fits(g, w, a[..i]) && Fits(g, w, a[..i + 1]) && Fits(g, w, [a[i]])
    ensures Sweep(g, w, refuse, a[..i + 1]) ==
            Sweep(g, Sweep(g, w, refuse, a[..i]).0, Sweep(g, w, refuse, a[..i]).1, [a[i]])
  {
    assert a[..i + 1] == a[..i] + [a[i]];
    SweepConcat(g, w, refuse, a[..i], [a[i]]);
  }

  /** Entering an object: what _mark_tc does before it visits the references held. */
  lemma WalkEnter(g: Graph, w: Cells, q: seq<Ref>, r: Ref, cond: bool)
    requires Fits(g, w, [r]) && r in g && w[r].mark != cond
    ensures var w' := w[r := if cond then MarkNew(w[r]) else Unmarked(w[r])];
            && Fits(g, w', g[r]) && Todo(w', cond) < Todo(w, cond)
            && Walk(g, w, q, [r], cond) == Walk(g, w', if cond then [r] + q else q, g[r], cond)
  {
    assert g[r] + [r][1..] == g[r];
    if cond { assert r in UnmarkedSet(w); } else { assert r in MarkedSet(w); }
  }

  lemma WalkPass(g: Graph, w: Cells, q: seq<Ref>, r: Ref, cond: bool)
    requires Fits(g, w, [r])
    ensures r == NULL || (!cond && !w[r].mark) ==> Walk(g, w, q, [r], cond) == (w, q)
    ensures r != NULL && cond && w[r].mark ==> Walk(g, w, q, [r], cond) == (w[r := CountAgain(w[r])], q)
  {
    assert [r][1..] == [];
    if cond {
      var (w', q', wl) := MarkStep(g, w, q, [r]);
      assert wl == [] ==> Mark(g, w', q', wl) == (w', q');
    } else {
      var (w', wl) := UnmarkStep(g, w, [r]);
      assert wl == [] ==> Unmark(g, w', wl) == w';
    }
  }

  /** decrease_refcs then sweep, on one reference. */
  lemma SweepOneRef(g: Graph, w: Cells, refuse: set<Ref>, r: Ref)
    requires Fits(g, w, [r])
    ensures r == NULL ==> Sweep(g, w, refuse, [r]) == (w, refuse)
    ensures r != NULL ==> Sweep(g, w, refuse, [r]) == SweepRoot(g, w[r := GiveUp(w[r])], refuse, r)
  {
    assert [r][1..] == [];
    var (w', refuse', wl) := SweepStep(g, w, refuse, [r]);
    assert wl == [] ==> Sweep(g, w', refuse', wl) == (w', refuse');
    assert r != NULL ==> g[r] + [] == g[r];
  }

  /** m' is m without the objects that are gone. */
  ghost predicate Lost<V>(m: map<Ref, V>, m': map<Ref, V>, gone: set<Ref>) { m' == m - gone }

  ghost predicate LostFrom(s: set<Ref>, s': set<Ref>, gone: set<Ref>) { s' == s - gone }

  lemma LoseNone<V>(m: map<Ref, V>)
    ensures Lost(m, m, {})
  {
  }

  lemma LoseNoneFrom(s: set<Ref>)
    ensures LostFrom(s, s, {})
  {
  }

  lemma LoseAll<V>(m: map<Ref, V>, m': map<Ref, V>, gone: set<Ref>)
    requires Lost(m, m', gone)
    ensures m' == m - gone
  {
  }

  lemma LoseAllFrom(s: set<Ref>, s': set<Ref>, gone: set<Ref>)
    requires LostFrom(s, s', gone)
    ensures s' == s - gone
  {
  }

  lemma LoseOne<V>(m: map<Ref, V>, m': map<Ref, V>, m'': map<Ref, V>, gone: set<Ref>, r: Ref)
    requires Lost(m, m', gone) && m'' == m' - {r}
    ensures Lost(m, m'', gone + {r})
  {
  }

  lemma LoseOneFrom(s: set<Ref>, s': set<Ref>, s'': set<Ref>, gone: set<Ref>, r: Ref)
    requires LostFrom(s, s', gone) && s'' == s' - {r}
    ensures LostFrom(s, s'', gone + {r})
  {
  }

  lemma FreeLinked(bodies: map<Ref, Body>, g: Graph, swept: set<Ref>)
    requires References(bodies, g)
    ensures References(bodies - swept, g - swept)
  {
  }

  lemma NullIsNone(g: Graph)
    requires Closed(g)
    ensures NULL !in g
  {
  }

  lemma CellFields(w: Word)
    ensures CellOf(w) == Cell(GetRc(w), GetTmpRc(w), Visited(w))
  {
  }

  lemma BalancedCell(g: Graph, roots: multiset<Ref>, types: Types, w: Cells, r: Ref)
    requires Balanced(g, External(roots, types), {}, w) && types.Keys == g.Keys && r in g
    ensures w.Keys == g.Keys && w[r] == Cell(roots[r] + OutRefs(TypeGraph(types), types.Keys)[r] + OutRefs(g, g.Keys)[r], 0, false)
  {
    assert Live(g, {}) == g.Keys;
    hide OutRefs, TypeGraph, Successors;
  }

  lemma CellAt(words: map<Ref, Word>, cells: Cells, r: Ref)
    requires Linked(words, cells) && r in words && r in cells
    ensures CellOf(words[r]) == cells[r]
  {
  }

  lemma NewCellsAre(w: Cells, w': Cells, obj: Ref, t: Ref)
    requires if t == NULL then w' == w && NULL !in w else t in w && w' == w[t := CountUp(w[t])]
    ensures NewCells(w, obj, t) == w'[obj := Cell(0, 0, false)]
  {
  }

  lemma LinkedNew(bodies: map<Ref, Body>, words: map<Ref, Word>, cells: Cells, g: Graph, obj: Ref)
    requires Linked(words, cells) && References(bodies, g) && words.Keys == cells.Keys
    ensures Linked(words[obj := 0], cells[obj := Cell(0, 0, false)]) && References(bodies[obj := Cellular([])], g[obj := []])
  {
    EmptyWord();
  }

  lemma LinkedMore(bodies: map<Ref, Body>, g: Graph, obj: Ref, data: Ref)
    requires References(bodies, g) && obj in bodies && bodies[obj].Cellular?
    ensures obj in g && References(bodies[obj := Cellular(bodies[obj].contents + [data])], g[obj := g[obj] + [data]])
  {
    var body := Cellular(bodies[obj].contents + [data]);
    assert Kids(body) == Kids(bodies[obj]) + [data];
    assert bodies[obj := body].Keys == g[obj := g[obj] + [data]].Keys;
  }

  lemma NewKeys(bodies: map<Ref, Body>, types: Types, words: map<Ref, Word>, obj: Ref, t: Ref)
    requires types.Keys == bodies.Keys && words.Keys == bodies.Keys
    ensures bodies[obj := Cellular([])].Keys == bodies.Keys + {obj}
    ensures types[obj := t].Keys == bodies[obj := Cellular([])].Keys && words[obj := 0].Keys == bodies[obj := Cellular([])].Keys
  {
  }

  lemma OneRegistered(gc: set<Ref>, obj: Ref, keys: set<Ref>)
    requires gc <= keys && obj !in gc && obj in keys
    ensures |gc + {obj}| == |gc| + 1 && gc + {obj} <= keys
  {
  }

  lemma StillRegistered(gc: set<Ref>, obj: Ref, keys: set<Ref>)
    requires gc <= keys
    ensures gc <= keys + {obj}
  {
  }

  lemma FreedLinked(words: map<Ref, Word>, cells: Cells, obj: Ref)
    requires Linked(words, cells)
    ensures Linked(words - {obj}, cells - {obj})
  {
  }

  lemma SweptPart(g: Graph, ext: multiset<Ref>, swept: set<Ref>, w: Cells)
    requires Balanced(g, ext, swept, w)
    ensures swept <= g.Keys
  {
  }

  lemma ReleasedKeys(w: Cells, w': Cells, types: Types, gone: set<Ref>)
    requires Released(w, w', types, gone)
    ensures w'.Keys == w.Keys - gone
  {
  }

  lemma LiveIs(g: Graph, swept: set<Ref>)
    ensures Live(g, swept) == g.Keys - swept
  {
  }

  lemma BalancedClosed(g: Graph, ext: multiset<Ref>, w: Cells)
    requires Balanced(g, ext, {}, w)
    ensures Closed(g)
  {
  }

  /** If trial deletion from a root sweeps anything, it sweeps the root. */
  lemma DoomedRoot(g: Graph, ext: multiset<Ref>, swept: set<Ref>, root: Ref)
    requires root in g
    ensures Doomed(g, ext, swept, root) != {} <==> root in Doomed(g, ext, swept, root)
  {
    var c := Reach(g, {root});
    var h := HeldFromOutside(g, ext, swept, c);
    ReachClosed(g, {root});
    ReachClosed(g, h);
    if root in Reach(g, h) {
      ReachLeast(g, {root}, Reach(g, h));
    }
  }

  lemma OneRoot(g: Graph, ext: multiset<Ref>, w: Cells, root: Ref)
    requires Balanced(g, ext, {}, w) && root in g
    ensures RootOrSkip(g, ext, w, {}, root).1 == Doomed(g, ext, {}, root)
    ensures Doomed(g, ext, {}, root) != {} <==> root in Doomed(g, ext, {}, root)
  {
    DoomedRoot(g, ext, {}, root);
    assert {} + Doomed(g, ext, {}, root) == Doomed(g, ext, {}, root);
  }

  lemma KeepRegistered(gc: set<Ref>, bodies: map<Ref, Body>, refuse: set<Ref>)
    requires gc <= bodies.Keys
    ensures gc - refuse == gc * (bodies - refuse).Keys
  {
  }

  lemma SurvivorsAre(bodies: map<Ref, Body>, g: Graph, roots: multiset<Ref>, registered: set<Ref>)
    requires References(bodies, g)
    ensures Survivors(bodies, roots, registered, Reach(g, Anchors(g, roots, registered)))
  {
    hide Reach, Closure, References;
    ReachIsClosure(bodies, g, registered);
    SameKeys(bodies, g);
    assert Anchored(bodies, roots, Reach(g, registered)) == Anchors(g, roots, registered);
    ReachIsClosure(bodies, g, Anchors(g, roots, registered));
  }

  lemma SameKeys(bodies: map<Ref, Body>, g: Graph)
    requires References(bodies, g)
    ensures bodies.Keys == g.Keys
  {
  }

  /** References lead to objects, or nowhere. */
  lemma ClosedBodies(bodies: map<Ref, Body>, g: Graph)
    requires References(bodies, g) && Closed(g)
    ensures forall r, k :: r in bodies && Refers(bodies[r], k) ==> k == NULL || k in bodies
  {
    forall r, k | r in bodies && Refers(bodies[r], k) ensures k == NULL || k in bodies {
      FollowsWhatIsHeld(bodies[r], k);
      assert k in g[r];
    }
  }

  lemma DoomedTaken(bodies: map<Ref, Body>, g: Graph, roots: multiset<Ref>, data: Ref)
    requires References(bodies, g)
    ensures Taken(bodies, roots, data, Doomed(g, roots, {}, data)) && Doomed(g, roots, {}, data) <= bodies.Keys
  {
    var c := Reach(g, {data});
    ReachIsClosure(bodies, g, {data});
    forall x, r | x in bodies ensures r in g[x] <==> Refers(bodies[x], r) {
      FollowsWhatIsHeld(bodies[x], r);
    }
    assert Live(g, {}) - c == g.Keys - c;
    hide Reach, Closure, Refers, Live;
    assert Outside(bodies, roots, c) == HeldFromOutside(g, roots, {}, c);
    ReachIsClosure(bodies, g, HeldFromOutside(g, roots, {}, c));
  }

  lemma LostKeys(bodies: map<Ref, Body>, gone: set<Ref>)
    ensures gone <= bodies.Keys ==> bodies.Keys - (bodies - gone).Keys == gone
  {
  }

  /** Objects, their types and words, with the graph and the cells that they stand for, in balance. */
  ghost predicate Sound(bodies: map<Ref, Body>, types: Types, words: map<Ref, Word>, g: Graph, w: Cells, roots: multiset<Ref>) {
    && References(bodies, g) && words.Keys == bodies.Keys && Linked(words, w) && Closed(g)
    && types.Keys == bodies.Keys && Typed(types, roots) && Balanced(g, External(roots, types), {}, w)
  }

  lemma EmptySound()
    ensures Sound(map[], map[], map[], map[], map[], multiset{})
  {
    hide OutRefs, Reach;
    SteadyIs(map[], External(multiset{}, map[]), map[]);
  }

  /** What has been freed of the refuse, and what is left. */
  ghost predicate Parted(refuse: set<Ref>, gone: set<Ref>, left: set<Ref>) { gone + left == refuse && gone !! left }

  lemma PartedStart(refuse: set<Ref>)
    ensures Parted(refuse, {}, refuse)
  {
  }

  lemma PartedNext(refuse: set<Ref>, gone: set<Ref>, left: set<Ref>, obj: Ref)
    requires Parted(refuse, gone, left) && obj in left
    ensures obj !in gone && obj in refuse && gone <= refuse && Parted(refuse, gone + {obj}, left - {obj}) && |left - {obj}| < |left|
  {
  }

  lemma PartedEnd(refuse: set<Ref>, gone: set<Ref>)
    requires Parted(refuse, gone, {})
    ensures gone == refuse
  {
  }

  /** A new object of type t. */
  lemma NewSound(bodies: map<Ref, Body>, types: Types, words: map<Ref, Word>, words1: map<Ref, Word>, g: Graph, w: Cells, w1: Cells,
                 roots: multiset<Ref>, obj: Ref, t: Ref)
    requires Sound(bodies, types, words, g, w, roots) && obj != NULL && obj !in bodies && roots[obj] == 0
    requires t == NULL || (t in bodies && roots[t] > 0 && w[t].rc + 1 < MAX_RC)
    requires Linked(words1, w1) && words1.Keys == words.Keys && w1 == if t == NULL then w else w[t := CountUp(w[t])]
    ensures Sound(bodies[obj := Cellular([])], types[obj := t], words1[obj := 0], g[obj := []], w1[obj := Cell(0, 0, false)], roots)
  {
    SoundParts(bodies, types, words, g, w, roots);
    hide *;
    NullIsNone(g);
    NewBalanced(g, roots, types, w, obj, t);
    NewCellsAre(w, w1, obj, t);
    NewKeys(bodies, types, words1, obj, t);
    LinkedNew(bodies, words1, w1, g, obj);
    BalancedClosed(g[obj := []], External(roots, types[obj := t]), w1[obj := Cell(0, 0, false)]);
    IsSound(bodies[obj := Cellular([])], types[obj := t], words1[obj := 0], g[obj := []], w1[obj := Cell(0, 0, false)], roots);
  }

  lemma SoundParts(bodies: map<Ref, Body>, types: Types, words: map<Ref, Word>, g: Graph, w: Cells, roots: multiset<Ref>)
    requires Sound(bodies, types, words, g, w, roots)
    ensures References(bodies, g) && words.Keys == bodies.Keys == g.Keys == w.Keys && Linked(words, w) && Closed(g)
    ensures types.Keys == bodies.Keys && Typed(types, roots) && Balanced(g, External(roots, types), {}, w)
  {
  }

  lemma IsSound(bodies: map<Ref, Body>, types: Types, words: map<Ref, Word>, g: Graph, w: Cells, roots: multiset<Ref>)
    requires References(bodies, g) && words.Keys == bodies.Keys && Linked(words, w) && Closed(g)
    requires types.Keys == bodies.Keys && Typed(types, roots) && Balanced(g, External(roots, types), {}, w)
    ensures Sound(bodies, types, words, g, w, roots)
  {
  }

  class Heap {
    var bodies: map<Ref, Body>
    var refcount: map<Ref, Word>
    /** The string object that is the type of each object, null for none. */
    var types: Types
    ghost var graph: Graph
    ghost var cells: Cells
    var gcSet: set<Ref>
    var gcNumAlloced: nat

    ghost predicate Shaped()
      reads this
    {
      References(bodies, graph) && refcount.Keys == bodies.Keys && Linked(refcount, cells) && Closed(graph)
    }

    /** Between collections: counts are the program's references, those to types, and those held; no marks are set. */
    ghost predicate Valid(roots: multiset<Ref>)
      reads this
    {
      && Sound(bodies, types, refcount, graph, cells, roots)
      && gcSet <= bodies.Keys && gcNumAlloced == |gcSet|
    }

    constructor ()
      ensures Valid(multiset{}) && bodies == map[] && gcSet == {}
    {
      hide *;
      bodies, refcount, types, graph, cells, gcSet, gcNumAlloced := map[], map[], map[], map[], map[], {}, 0;
      new;
      EmptySound();
      BecomesValid(multiset{});
    }

    /** object: a new object without contents, of type t, which the program holds. */
    method NewObject(obj: Ref, t: Ref, ghost roots: multiset<Ref>)
      requires Valid(roots) && obj != NULL && obj !in bodies && roots[obj] == 0
      requires t == NULL || (t in bodies && roots[t] > 0 && cells[t].rc + 1 < MAX_RC)
      modifies this
      ensures Valid(roots) && bodies == old(bodies)[obj := Cellular([])] && types == old(types)[obj := t]
      ensures gcSet == old(gcSet)
    {
      hide *;
      ValidParts(roots);
      ghost var was, words := cells, refcount;
      StillRegistered(gcSet, obj, bodies.Keys);
      if t != NULL {
        CountUpCell(refcount[t]);
        CellAt(refcount, cells, t);
        SetWord(t, Increment(refcount[t]), CountUp(cells[t]));
      }
      NewSound(bodies, types, words, refcount, graph, was, cells, roots, obj, t);
      NewKeys(bodies, types, refcount, obj, t);
      bodies, types, refcount := bodies[obj := Cellular([])], types[obj := t], refcount[obj := 0];
      graph, cells := graph[obj := []], cells[obj := Cell(0, 0, false)];
      BecomesValid(roots);
    }

    /** gc_add: the object is registered; refused when it is already. */
    method GcAdd(obj: Ref, ghost roots: multiset<Ref>) returns (refused: bool)
      requires Valid(roots) && obj in bodies
      modifies this`gcSet, this`gcNumAlloced
      ensures Valid(roots) && gcSet == old(gcSet) + {obj} && (refused <==> obj in old(gcSet))
      ensures gcNumAlloced == old(gcNumAlloced) + if refused then 0 else 1
    {
      hide *;
      ValidParts(roots);
      refused := obj in gcSet;
      if refused {
        assert gcSet + {obj} == gcSet;
      } else {
        OneRegistered(gcSet, obj, bodies.Keys);
        gcSet, gcNumAlloced := gcSet + {obj}, gcNumAlloced + 1;
        BecomesValid(roots);
      }
    }

    /** object_append: obj holds one more reference. */
    method AppendRef(obj: Ref, data: Ref, ghost roots: multiset<Ref>)
      requires Valid(roots) && obj in bodies && bodies[obj].Cellular? && data in bodies && cells[data].rc + 1 < MAX_RC
      modifies this
      ensures Valid(roots) && bodies == old(bodies)[obj := Cellular(old(bodies)[obj].contents + [data])]
      ensures types == old(types) && gcSet == old(gcSet)
    {
      hide *;
      ValidParts(roots);
      AppendBalanced(graph, External(roots, types), cells, obj, data);
      CountUpCell(refcount[data]);
      CellAt(refcount, cells, data);
      SetWord(data, Increment(refcount[data]), CountUp(cells[data]));
      LinkedMore(bodies, graph, obj, data);
      bodies := bodies[obj := Cellular(bodies[obj].contents + [data])];
      graph := graph[obj := graph[obj] + [data]];
      BalancedClosed(graph, External(roots, types), cells);
      IsSound(bodies, types, refcount, graph, cells, roots);
      BecomesValid(roots);
    }

    /** The program takes a reference of its own. */
    method Hold(obj: Ref, ghost roots: multiset<Ref>)
      requires Valid(roots) && obj in bodies && cells[obj].rc + 1 < MAX_RC
      modifies this
      ensures Valid(roots + multiset{obj}) && bodies == old(bodies) && types == old(types) && gcSet == old(gcSet)
    {
      hide *;
      ValidParts(roots);
      HoldBalanced(graph, roots, types, cells, obj);
      CountUpCell(refcount[obj]);
      CellAt(refcount, cells, obj);
      SetWord(obj, Increment(refcount[obj]), CountUp(cells[obj]));
      ShapedParts();
      IsSound(bodies, types, refcount, graph, cells, roots + multiset{obj});
      BecomesValid(roots + multiset{obj});
    }

    lemma BecomesValid(roots: multiset<Ref>)
      requires Sound(bodies, types, refcount, graph, cells, roots) && gcSet <= bodies.Keys && gcNumAlloced == |gcSet|
      ensures Valid(roots)
    {
    }

    method SetWord(obj: Ref, w: Word, ghost c: Cell)
      requires Shaped() && obj in bodies && CellOf(w) == c
      modifies this`refcount, this`cells
      ensures Shaped() && cells == old(cells)[obj := c]
      ensures Linked(refcount, cells) && refcount.Keys == old(refcount).Keys
    {
      refcount := refcount[obj := w];
      cells := cells[obj := c];
    }

    method MarkTcTr(q: seq<Ref>, tree: Tree, cond: bool) returns (q': seq<Ref>)
      requires Shaped() && Fits(graph, cells, Preorder(tree))
      modifies this`refcount, this`cells
      ensures Shaped()
      ensures (cells, q') == Walk(graph, old(cells), q, Preorder(tree), cond)
      decreases Todo(cells, cond), 1 + |Preorder(tree)|
    {
      match tree {
        case Leaf => q' := q;
        case Node(data, left, right) =>
          hide Walk, Closed, Linked, References;
          ghost var g, w := graph, cells;
          WalkConcat(g, w, q, [data], Preorder(left), cond);
          WalkConcat(g, w, q, [data] + Preorder(left), Preorder(right), cond);
          q' := MarkTcRec(q, data, cond);
          q' := MarkTcTr(q', left, cond);
          q' := MarkTcTr(q', right, cond);
      }
    }

    method MarkTcRec(q: seq<Ref>, obj: Ref, cond: bool) returns (q': seq<Ref>)
      requires Shaped() && Fits(graph, cells, [obj])
      modifies this`refcount, this`cells
      ensures Shaped()
      ensures (cells, q') == Walk(graph, old(cells), q, [obj], cond)
      decreases Todo(cells, cond), 0
    {
      ghost var g, w := graph, cells;
      WalkPass(g, w, q, obj, cond);
      q' := q;
      if obj == NULL { return; }
      assert obj in [obj];
      assert cells[obj] == CellOf(refcount[obj]);
      var tmpRc := GetTmpRc(refcount[obj]);
      if cond {
        if Visited(refcount[obj]) {
          CountAgainCell(refcount[obj]);
          SetWord(obj, SetTmpRc(refcount[obj], tmpRc + 1), CountAgain(cells[obj]));
          return;
        }
        q' := [obj] + q;
      } else {
        if !Visited(refcount[obj]) { return; }
      }
      MarkNewCell(refcount[obj]);
      UnmarkedCell(refcount[obj]);
      SetWord(obj, SetTmpRc(SetVisited(refcount[obj], cond), if cond then 1 else 0),
              if cond then MarkNew(cells[obj]) else Unmarked(cells[obj]));
      WalkEnter(g, w, q, obj, cond);
      assert Kids(bodies[obj]) == graph[obj];
      q' := MarkContents(q', bodies[obj], cond);
    }

    /** The type dispatch at the end of _mark_tc. */
    method MarkContents(q: seq<Ref>, body: Body, cond: bool) returns (q': seq<Ref>)
      requires Shaped() && Fits(graph, cells, Kids(body))
      modifies this`refcount, this`cells
      ensures Shaped()
      ensures (cells, q') == Walk(graph, old(cells), q, Kids(body), cond)
      decreases Todo(cells, cond), 2 + |Kids(body)|
    {
      q' := q;
      match body {
        case Atom =>
        case SetOf(tree) => q' := MarkTcTr(q', tree, cond);
        case Array(sub) => q' := MarkTcRec(q', sub, cond);
        case Cellular(contents) => q' := MarkAll(q', contents, cond);
      }
    }

    method MarkAll(q: seq<Ref>, contents: seq<Ref>, cond: bool) returns (q': seq<Ref>)
      requires Shaped() && Fits(graph, cells, contents)
      modifies this`refcount, this`cells
      ensures Shaped()
      ensures (cells, q') == Walk(graph, old(cells), q, contents, cond)
      decreases Todo(cells, cond), 1
    {
      hide Walk, Closed, Linked, References;
      ghost var g, w := graph, cells;
      WalkNothing(g, w, q, cond);
      assert contents[..0] == [];
      q' := q;
      for i := 0 to |contents|
        invariant Shaped() && Fits(g, w, contents[..i])
        invariant (cells, q') == Walk(g, w, q, contents[..i], cond)
      {
        WalkNext(g, w, q, contents, i, cond);
        q' := MarkTcRec(q', contents[i], cond);
      }
      assert contents[..|contents|] == contents;
    }

    method MarkTc(q: seq<Ref>, obj: Ref, cond: bool) returns (q': seq<Ref>)
      requires Shaped() && obj in bodies
      modifies this`refcount, this`cells
      ensures Shaped()
      ensures cond && q == [] ==>
                (cells, q') == MarkRoot(graph, old(cells), obj)
      ensures !cond ==> q' == q && cells == Unmark(graph, old(cells), [obj])
    {
      q' := MarkTcRec(q, obj, cond);
      if cond { UncountRoot(obj); }
    }

    method UncountRoot(obj: Ref)
      requires Shaped() && obj in bodies
      modifies this`refcount, this`cells
      ensures Shaped()
      ensures cells == old(cells)[obj := CountLess(old(cells)[obj])]
    {
      var t := GetTmpRc(refcount[obj]);
      CountLessCell(refcount[obj]);
      SetWord(obj, SetTmpRc(refcount[obj], if t == 0 then W64 - 1 else t - 1), CountLess(cells[obj]));
    }

    method DecreaseRefcs(obj: Ref)
      requires Shaped() && (obj == NULL || obj in bodies)
      modifies this`refcount, this`cells
      ensures Shaped()
      ensures cells == if obj == NULL then old(cells)
                                   else old(cells)[obj := GiveUp(old(cells)[obj])]
    {
      if obj == NULL { return; }
      GiveUpCell(refcount[obj]);
      SetWord(obj, Decrement(refcount[obj]), GiveUp(cells[obj]));
    }

    /** decrease_refcs followed by sweep, as every caller but the root loop does. */
    method GiveUpRef(obj: Ref, refuse: set<Ref>) returns (refuse': set<Ref>, n: nat)
      requires Shaped() && Fits(graph, cells, [obj])
      modifies this`refcount, this`cells
      ensures Shaped()
      ensures (cells, refuse') == Sweep(graph, old(cells), refuse, [obj])
      decreases bodies.Keys - refuse, 1
    {
      assert obj in [obj];
      SweepOneRef(graph, cells, refuse, obj);
      DecreaseRefcs(obj);
      refuse', n := SweepObj(obj, refuse);
    }

    /** sweep; the count returned is meaningful only as a truth value. */
    method SweepObj(obj: Ref, refuse: set<Ref>) returns (refuse': set<Ref>, n: nat)
      requires Shaped() && (obj == NULL || obj in bodies)
      modifies this`refcount, this`cells
      ensures Shaped()
      ensures obj == NULL ==> refuse' == refuse && cells == old(cells)
      ensures obj != NULL ==>
                (cells, refuse') == SweepRoot(graph, old(cells), refuse, obj)
      ensures n > 0 <==> refuse' != refuse
      decreases bodies.Keys - refuse, 0
    {
      refuse', n := refuse, 0;
      if obj == NULL { return; }
      assert cells[obj] == CellOf(refcount[obj]);
      if !Visited(refcount[obj]) { return; }
      if obj in refuse { return; }
      assert Kids(bodies[obj]) == graph[obj];
      assert obj in bodies.Keys - refuse && obj !in bodies.Keys - (refuse + {obj});
      refuse', n := SweepContents(bodies[obj], refuse + {obj});
      n := n + 1;
    }

    method SweepContents(body: Body, refuse: set<Ref>) returns (refuse': set<Ref>, n: nat)
      requires Shaped() && Fits(graph, cells, Kids(body))
      modifies this`refcount, this`cells
      ensures Shaped() && refuse <= refuse'
      ensures (cells, refuse') == Sweep(graph, old(cells), refuse, Kids(body))
      decreases bodies.Keys - refuse, 3 + |Kids(body)|
    {
      refuse', n := refuse, 0;
      match body {
        case Atom => n := 1;
        case SetOf(tree) => refuse', n := SweepTr(tree, refuse);
        case Array(sub) => refuse', n := GiveUpRef(sub, refuse);
        case Cellular(contents) => refuse', n := SweepAll(contents, refuse);
      }
    }

    method SweepAll(contents: seq<Ref>, refuse: set<Ref>) returns (refuse': set<Ref>, n: nat)
      requires Shaped() && Fits(graph, cells, contents)
      modifies this`refcount, this`cells
      ensures Shaped()
      ensures (cells, refuse') == Sweep(graph, old(cells), refuse, contents)
      decreases bodies.Keys - refuse, 2
    {
      hide Linked, References, SweepStep, Closed;
      ghost var g, w := graph, cells;
      refuse', n := refuse, 0;
      for i := 0 to |contents|
        invariant Shaped() && Fits(g, w, contents[..i]) && refuse <= refuse'
        invariant (cells, refuse') == Sweep(g, w, refuse, contents[..i])
      {
        SweepNext(g, w, refuse, contents, i);
        var k;
        refuse', k := GiveUpRef(contents[i], refuse');
        n := n + k;
      }
      assert contents[..|contents|] == contents;
    }

    method SweepTr(tree: Tree, refuse: set<Ref>) returns (refuse': set<Ref>, n: nat)
      requires Shaped() && Fits(graph, cells, Preorder(tree))
      modifies this`refcount, this`cells
      ensures Shaped()
      ensures (cells, refuse') == Sweep(graph, old(cells), refuse, Preorder(tree))
      decreases bodies.Keys - refuse, 2 + |Preorder(tree)|
    {
      match tree {
        case Leaf => refuse', n := refuse, 0;
        case Node(data, left, right) =>
          hide Sweep, Closed, Linked, References;
          ghost var g, w := graph, cells;
          SweepConcat(g, w, refuse, [data], Preorder(left));
          SweepConcat(g, w, refuse, [data] + Preorder(left), Preorder(right));
          var k;
          refuse', n := GiveUpRef(data, refuse);
          refuse', k := SweepTr(left, refuse');
          n := n + k;
          refuse', k := SweepTr(right, refuse');
          n := n + k;
      }
    }

    /** Mark from a root, drain the queue, sweep from the root: the body of the loop in gc_collect. */
    method CollectFrom(data: Ref, refuse: set<Ref>) returns (refuse': set<Ref>, n: nat)
      requires Shaped() && data in bodies
      requires Elements(MarkRoot(graph, cells, data).1) <= bodies.Keys
      modifies this`refcount, this`cells
      ensures Shaped()
      ensures (cells, refuse') == CollectRoot(graph, old(cells), refuse, data)
      ensures n > 0 <==> refuse' != refuse
    {
      hide Sweep, Mark, References;
      ghost var g := graph;
      var q := MarkTc([], data, true);
      ghost var w1, q1 := cells, q;
      while q != []
        invariant Shaped() && Elements(q) <= g.Keys
        invariant Drain(g, cells, q) == Drain(g, w1, q1)
        decreases |q|
      {
        var obj := q[0];
        HeadTail(q);
        q := q[1..];
        assert cells[obj] == CellOf(refcount[obj]);
        if GetTmpRc(refcount[obj]) < GetRc(refcount[obj]) {
          q := MarkTc(q, obj, false);
        }
      }
      refuse', n := SweepObj(data, refuse);
    }

    /** object_delete on the type of a swept object: the program holds the type, so that its count stays positive. */
    method ReleaseType(t: Ref)
      requires Linked(refcount, cells) && refcount.Keys == cells.Keys && (t == NULL || (t in cells && cells[t].rc > 1))
      modifies this`refcount, this`cells
      ensures Linked(refcount, cells) && refcount.Keys == cells.Keys
      ensures cells == if t == NULL then old(cells) else old(cells)[t := GiveUp(old(cells)[t])]
    {
      if t == NULL { return; }
      GiveUpCell(refcount[t]);
      refcount := refcount[t := Decrement(refcount[t])];
      cells := cells[t := GiveUp(cells[t])];
    }

    method FreeObj(obj: Ref)
      requires gcNumAlloced == |gcSet|
      modifies this`bodies, this`refcount, this`cells, this`gcSet, this`gcNumAlloced
      ensures bodies == old(bodies) - {obj} && refcount == old(refcount) - {obj} && cells == old(cells) - {obj}
      ensures gcSet == old(gcSet) - {obj} && gcNumAlloced == |gcSet|
    {
      if obj in gcSet {
        gcSet := gcSet - {obj};
        gcNumAlloced := gcNumAlloced - 1;
      }
      bodies := bodies - {obj};
      refcount := refcount - {obj};
      cells := cells - {obj};
    }

    /** One round of that loop. */
    method FreeOne(obj: Ref, ghost g: Graph, ghost roots: multiset<Ref>, ghost w: Cells, ghost gone: set<Ref>, ghost refuse: set<Ref>)
      requires Balanced(g, External(roots, types), refuse, w) && Typed(types, roots) && types.Keys == g.Keys && refuse <= g.Keys
      requires Released(w, cells, types, gone) && gone <= refuse && obj in refuse && obj !in gone
      requires Linked(refcount, cells) && refcount.Keys == cells.Keys && gcNumAlloced == |gcSet|
      modifies this`bodies, this`refcount, this`cells, this`gcSet, this`gcNumAlloced
      ensures bodies == old(bodies) - {obj} && gcSet == old(gcSet) - {obj} && gcNumAlloced == |gcSet|
      ensures Linked(refcount, cells) && refcount.Keys == cells.Keys && Released(w, cells, types, gone + {obj})
    {
      hide *;
      ghost var c := cells;
      if types[obj] != NULL {
        TypesHeld(g, roots, types, refuse, w, cells, gone, obj);
      }
      ReleaseType(types[obj]);
      ghost var c1, r1 := cells, refcount;
      FreeObj(obj);
      FreedLinked(r1, c1, obj);
      ReleasedNext(w, c, types, gone, obj, cells);
    }

    /** The loop that frees what was swept, in whatever order the refuse tree yields it. */
    method FreeAll(refuse: set<Ref>, ghost g: Graph, ghost roots: multiset<Ref>, ghost w: Cells)
      requires Balanced(g, External(roots, types), refuse, w) && Typed(types, roots) && types.Keys == g.Keys && refuse <= g.Keys
      requires Linked(refcount, cells) && refcount.Keys == cells.Keys && w == cells && gcNumAlloced == |gcSet|
      modifies this`bodies, this`refcount, this`cells, this`gcSet, this`gcNumAlloced
      ensures Lost(old(bodies), bodies, refuse) && LostFrom(old(gcSet), gcSet, refuse) && gcNumAlloced == |gcSet|
      ensures Linked(refcount, cells) && refcount.Keys == cells.Keys && Released(w, cells, types, refuse)
    {
      hide *;
      var left := refuse;
      ghost var gone := {};
      LoseNone(bodies);
      LoseNoneFrom(gcSet);
      ReleasedNone(cells, types);
      PartedStart(refuse);
      while left != {}
        invariant Parted(refuse, gone, left) && gcNumAlloced == |gcSet| && refcount.Keys == cells.Keys
        invariant Linked(refcount, cells) && Released(w, cells, types, gone)
        invariant Lost(old(bodies), bodies, gone) && LostFrom(old(gcSet), gcSet, gone)
        decreases |left|
      {
        var obj :| obj in left;
        ghost var b, s := bodies, gcSet;
        PartedNext(refuse, gone, left, obj);
        FreeOne(obj, g, roots, w, gone, refuse);
        LoseOne(old(bodies), b, bodies, gone, obj);
        LoseOneFrom(old(gcSet), s, gcSet, gone, obj);
        left := left - {obj};
        gone := gone + {obj};
      }
      PartedEnd(refuse, gone);
    }

    method FreeRefuse(refuse: set<Ref>, ghost roots: multiset<Ref>)
      requires Shaped() && types.Keys == bodies.Keys && Typed(types, roots) && gcNumAlloced == |gcSet|
      requires Balanced(graph, External(roots, types), refuse, cells)
      modifies this
      ensures bodies == old(bodies) - refuse && types == old(types) - refuse && graph == old(graph) - refuse
      ensures refcount.Keys == bodies.Keys && Linked(refcount, cells) && Released(old(cells), cells, old(types), refuse)
      ensures gcSet == old(gcSet) - refuse && gcNumAlloced == |gcSet|
    {
      hide *;
      ghost var b, s, w := bodies, gcSet, cells;
      ShapedParts();
      SweptPart(graph, External(roots, types), refuse, w);
      FreeAll(refuse, graph, roots, w);
      LoseAll(b, bodies, refuse);
      LoseAllFrom(s, gcSet, refuse);
      ReleasedKeys(w, cells, types, refuse);
      types, graph := types - refuse, graph - refuse;
    }

    lemma ShapedParts()
      requires Shaped()
      ensures Linked(refcount, cells) && refcount.Keys == cells.Keys == bodies.Keys == graph.Keys
      ensures References(bodies, graph) && Closed(graph)
    {
    }

    lemma ValidParts(roots: multiset<Ref>)
      requires Valid(roots)
      ensures Shaped() && Linked(refcount, cells) && References(bodies, graph) && Sound(bodies, types, refcount, graph, cells, roots)
      ensures types.Keys == bodies.Keys == graph.Keys == cells.Keys == refcount.Keys && Typed(types, roots) && Closed(graph)
      ensures Balanced(graph, External(roots, types), {}, cells) && gcSet <= bodies.Keys && gcNumAlloced == |gcSet|
    {
    }

    /**
     Between collections an object's real count is the number of references that the program, the objects, and the
     objects of which it is the type have to it; its mark and its temporary count are clear.
     */
    lemma CountsAre(roots: multiset<Ref>, r: Ref)
      requires Valid(roots) && r in bodies
      ensures r in refcount && types.Keys == bodies.Keys && !Visited(refcount[r]) && GetTmpRc(refcount[r]) == 0
      ensures GetRc(refcount[r]) == roots[r] + AllTimes(bodies, bodies.Keys, r) + Typings(types, types.Keys, r)
    {
      hide *;
      ValidParts(roots);
      NullIsNone(graph);
      CellAt(refcount, cells, r);
      AllTimesCounted(bodies, graph, bodies.Keys, r);
      TypingsCounted(types, types.Keys, r);
      BalancedCell(graph, roots, types, cells, r);
      CellFields(refcount[r]);
    }

    method FinishCollection(refuse: set<Ref>, ghost roots: multiset<Ref>)
      requires Shaped() && types.Keys == bodies.Keys && Typed(types, roots) && Balanced(graph, External(roots, types), refuse, cells)
      requires gcSet <= bodies.Keys && gcNumAlloced == |gcSet|
      modifies this
      ensures Valid(roots) && bodies == old(bodies) - refuse && types == old(types) - refuse && gcSet == old(gcSet) * bodies.Keys
    {
      ghost var g, w, t := graph, cells, types;
      ShapedParts();
      FreeLinked(bodies, graph, refuse);
      KeepRegistered(gcSet, bodies, refuse);
      TypedRest(types, roots, graph, refuse, cells);
      hide Balanced, Released, External, Typed, Linked;
      FreeRefuse(refuse, roots);
      ReleasedBalanced(g, roots, t, refuse, w, cells);
      BalancedClosed(graph, External(roots, types), cells);
    }

    method CollectBalanced(data: Ref, refuse: set<Ref>, ghost ext: multiset<Ref>) returns (refuse': set<Ref>, n: nat)
      requires Shaped() && Balanced(graph, ext, refuse, cells) && data in bodies
      modifies this`refcount, this`cells
      ensures Shaped()
      ensures (cells, refuse') == RootOrSkip(graph, ext, old(cells), refuse, data)
      ensures n > 0 <==> refuse' != refuse
    {
      ghost var s := RootOrSkip(graph, ext, cells, refuse, data);
      refuse', n := CollectFrom(data, refuse);
    }

    /** The first part of gc_del_obj. */
    method CollectOne(data: Ref, ghost ext: multiset<Ref>) returns (refuse: set<Ref>, n: nat)
      requires Shaped() && Balanced(graph, ext, {}, cells) && data in bodies
      modifies this`refcount, this`cells
      ensures Shaped() && Balanced(graph, ext, refuse, cells)
      ensures refuse == Doomed(graph, ext, {}, data)
      ensures n > 0 <==> data in refuse
    {
      OneRoot(graph, ext, cells, data);
      refuse, n := CollectBalanced(data, {}, ext);
    }

    /** The root loop of gc_collect. */
    method CollectRoots(order: seq<Ref>, ghost ext: multiset<Ref>) returns (refuse: set<Ref>)
      requires Shaped() && Balanced(graph, ext, {}, cells)
      requires Elements(order) <= gcSet <= bodies.Keys
      modifies this`refcount, this`cells
      ensures Shaped() && (cells, refuse) == CollectAll(graph, ext, old(cells), {}, order)
    {
      ghost var g := graph;
      refuse := {};
      var q0 := order;
      while q0 != []
        invariant Elements(q0) <= gcSet && Shaped() && Balanced(g, ext, refuse, cells)
        invariant CollectAll(g, ext, cells, refuse, q0) == CollectAll(g, ext, old(cells), {}, order)
        decreases |q0|
      {
        var data := q0[0];
        HeadTail(q0);
        q0 := q0[1..];
        if data in gcSet {
          var n;
          refuse, n := CollectBalanced(data, refuse, ext);
        }
      }
    }

    /** gc_collect.  `order` is the queue of registered, typed objects that _gc_collect filled. */
    method GcCollect(order: seq<Ref>, ghost roots: multiset<Ref>)
      requires Valid(roots) && Elements(order) <= gcSet
      modifies this
      ensures Valid(roots)
      ensures bodies.Keys == Reach(old(graph), Anchors(old(graph), roots, Elements(order)))
      ensures Survivors(old(bodies), roots, Elements(order), bodies.Keys)
      ensures forall r, k :: r in bodies && Refers(bodies[r], k) ==> k == NULL || k in bodies
      ensures forall r :: r in bodies ==> r in old(bodies) && bodies[r] == old(bodies)[r] && types[r] == old(types)[r]
      ensures gcSet == old(gcSet) * bodies.Keys
    {
      hide *;
      ValidParts(roots);
      ghost var g, ext := graph, External(roots, types);
      ghost var b := bodies;
      PassSurvivors(g, ext, cells, order);
      SameAnchors(g, roots, types, Elements(order));
      var refuse := CollectRoots(order, ext);
      LiveIs(g, refuse);
      FinishCollection(refuse, roots);
      ValidParts(roots);
      assert bodies == b - refuse;
      SurvivorsAre(b, g, roots, Elements(order));
      ClosedBodies(bodies, graph);
    }

    /** gc_del_obj on a registered object. */
    method DeleteRegistered(data: Ref, ghost roots: multiset<Ref>) returns (deadCount: nat)
      requires Valid(roots) && data in gcSet
      modifies this
      ensures Valid(roots) && bodies == old(bodies) - Doomed(old(graph), roots, {}, data)
      ensures Taken(old(bodies), roots, data, old(bodies).Keys - bodies.Keys)
      ensures deadCount > 0 <==> data !in bodies
    {
      hide *;
      ValidParts(roots);
      var refuse;
      SameDoomed(graph, roots, types, {}, data);
      DoomedTaken(bodies, graph, roots, data);
      ghost var b := bodies;
      refuse, deadCount := CollectOne(data, External(roots, types));
      FinishCollection(refuse, roots);
      LostKeys(b, refuse);
    }

    /** gc_del_obj: trial deletion from one object, if it is registered. */
    method GcDelObj(data: Ref, ghost roots: multiset<Ref>) returns (deadCount: nat)
      requires Valid(roots)
      modifies this
      ensures Valid(roots)
      ensures data !in old(gcSet) ==> deadCount == 0 && bodies == old(bodies)
      ensures data in old(gcSet) ==> bodies == old(bodies) - Doomed(old(graph), roots, {}, data)
      ensures data in old(gcSet) ==> Taken(old(bodies), roots, data, old(bodies).Keys - bodies.Keys)
      ensures deadCount > 0 <==> data in old(gcSet) && data !in bodies
    {
      deadCount := 0;
      if data in gcSet {
        deadCount := DeleteRegistered(data, roots);
      }
    }
  }
}
