/**
 The main theorems of the cycle collector: what one root sweeps, what the root
 loop of gc_collect sweeps in one pass, and the counts it leaves behind.
 */
module CollectorExactness {
  import opened RefGraph
  import opened Refcount
  import opened TrialDeletion
  import opened CollectorTheory

  /** One iteration of the root loop: mark from the root, drain the queue, sweep from the root. */
  ghost function CollectRoot(g: Graph, w: Cells, refuse: set<Ref>, root: Ref): (s: (Cells, set<Ref>))
    requires Closed(g) && w.Keys == g.Keys && root in g
    requires Elements(MarkRoot(g, w, root).1) <= g.Keys
    ensures s.0.Keys == g.Keys
  {
    var (w1, q) := MarkRoot(g, w, root);
    SweepRoot(g, Drain(g, w1, q), refuse, root)
  }

  /** Objects of the closure c with a reference from outside it: external, or from a live object outside c. */
  ghost function HeldFromOutside(g: Graph, ext: multiset<Ref>, swept: set<Ref>, c: set<Ref>): set<Ref> {
    set r | r in c && (ext[r] > 0 || exists x :: x in Live(g, swept) - c && x in g && r in g[x])
  }

  /** What one root sweeps. */
  ghost function Doomed(g: Graph, ext: multiset<Ref>, swept: set<Ref>, root: Ref): set<Ref> {
    var c := Reach(g, {root});
    c - Reach(g, HeldFromOutside(g, ext, swept, c))
  }

  /** The trial count falls short of the real count exactly for the objects held from outside. */
  lemma HeldIsFromOutside(g: Graph, ext: multiset<Ref>, swept: set<Ref>, w: Cells, c: set<Ref>, w1: Cells, q: seq<Ref>)
    requires Balanced(g, ext, swept, w) && c <= Live(g, swept) && w1.Keys == g.Keys
    requires MarkResult(g, w, c, w1, q)
    ensures Held(w1, c) == HeldFromOutside(g, ext, swept, c)
  {
    forall r | r in c ensures r in Held(w1, c) <==> r in HeldFromOutside(g, ext, swept, c) {
      OutRefsSplit(g, Live(g, swept), c);
      OutRefsHolder(g, Live(g, swept) - c, r);
      assert w1[r] == Cell(w[r].rc, OutRefs(g, c)[r], true);
    }
  }

  lemma SweepsAllMarked(g: Graph, c: set<Ref>, u: set<Ref>, n: set<Ref>, root: Ref)
    requires Closed(g) && c == Reach(g, {root}) && u <= c && Successors(g, u) && Successors(g, c)
    requires root in n && n <= c - u && SweepFrontier(g, c, c - u, n, [])
    ensures n == c - u
  {
    assert Elements([]) == {};
    forall r, k | r in n + u && r in g && k in g[r] && k in g ensures k in n + u {
      if r in n {
        assert k in Elements(g[r]) && k in c;
      }
    }
    ReachLeast(g, {root}, n + u);
  }

  /** The sweep phase, on a closure c of which u has been unmarked. */
  lemma SweepExact(g: Graph, swept: set<Ref>, w2: Cells, c: set<Ref>, u: set<Ref>, root: Ref)
    requires Closed(g) && w2.Keys == g.Keys && c == Reach(g, {root}) && root in g && root in c
    requires c <= g.Keys && u <= c && Successors(g, u) && Successors(g, c) && c !! swept
    requires forall r :: r in c ==> (w2[r].mark <==> r in c - u)
    requires forall r :: r in g ==> OutRefs(g, c)[r] <= w2[r].rc
    ensures var (w3, refuse) := SweepRoot(g, w2, swept, root);
            refuse == swept + (c - u) && SweptCells(g, w2, c - u, w3)
  {
    if root in u {
      ReachLeast(g, {root}, u);
      assert c - u == {};
      assert swept + {} == swept;
      OutRefsNone(g);
    } else {
      SweepDoomed(g, swept, w2, c, u, c - u, root);
    }
  }

  /** Sweeping n keeps marks and trial counts, and takes exactly what n held off the counts. */
  ghost predicate SweptCells(g: Graph, w: Cells, n: set<Ref>, w': Cells)
    requires w.Keys == g.Keys && n <= g.Keys
  {
    w'.Keys == g.Keys && forall r :: r in g ==> w'[r].tmp == w[r].tmp && w'[r].mark == w[r].mark && w'[r].rc + OutRefs(g, n)[r] == w[r].rc
  }

  lemma OutRefsNone(g: Graph)
    ensures OutRefs(g, {}) == multiset{}
  {
  }

  lemma SweepDone(g: Graph, w2: Cells, c: set<Ref>, d: set<Ref>, n: set<Ref>, w3: Cells)
    requires d <= g.Keys && w2.Keys == g.Keys && SweepInv(g, w2, c, d, n, w3, []) && n == d
    ensures SweptCells(g, w2, d, w3)
  {
  }

  lemma SweepDoomed(g: Graph, swept: set<Ref>, w2: Cells, c: set<Ref>, u: set<Ref>, d: set<Ref>, root: Ref)
    requires Closed(g) && w2.Keys == g.Keys && c == Reach(g, {root}) && root in g && root in d && d == c - u
    requires c <= g.Keys && u <= c && Successors(g, u) && Successors(g, c) && c !! swept
    requires forall r :: r in c ==> (w2[r].mark <==> r in d)
    requires forall r :: r in g ==> OutRefs(g, c)[r] <= w2[r].rc
    ensures var (w3, refuse) := SweepRoot(g, w2, swept, root);
            refuse == swept + d && SweptCells(g, w2, d, w3)
  {
    OutRefsBelowAll(g, c, d, w2);
    SweepBegin(g, w2, c, d, root);
    hide Reach, OutRefs, SweepFields, SweptCells, SweepFrontier, Successors, Closed;
    var n := SweepRun(g, w2, swept, c, d, {root}, w2, g[root]);
    SweepsAllMarked(g, c, u, n, root);
    var (w3, refuse) := SweepRoot(g, w2, swept, root);
    SweepDone(g, w2, c, d, n, w3);
  }

  lemma SweepBegin(g: Graph, w2: Cells, c: set<Ref>, d: set<Ref>, root: Ref)
    requires Closed(g) && w2.Keys == g.Keys && d <= c <= g.Keys && root in d && Successors(g, c)
    ensures SweepInv(g, w2, c, d, {root}, w2, g[root])
  {
    OutRefsAdd(g, {}, root);
    assert {} + {root} == {root};
    assert OutRefs(g, {}) == multiset{};
  }

  /** Trial deletion from one live root: exactly the doomed objects are swept, each once, and the
      counts fall by exactly the references they held. */
  lemma RootExact(g: Graph, ext: multiset<Ref>, swept: set<Ref>, w: Cells, root: Ref)
    requires Balanced(g, ext, swept, w) && root in Live(g, swept)
    ensures Elements(MarkRoot(g, w, root).1) <= g.Keys
    ensures Doomed(g, ext, swept, root) <= Live(g, swept)
    ensures var (w', refuse) := CollectRoot(g, w, swept, root);
            && refuse == swept + Doomed(g, ext, swept, root)
            && RootCells(g, swept, w, Reach(g, {root}), Doomed(g, ext, swept, root), w')
  {
    var c := Reach(g, {root});
    MarkExact(g, ext, swept, w, root);
    ReachLive(g, swept, root);
    ReachClosed(g, {root});
    var (w1, q) := MarkRoot(g, w, root);
    var h := HeldFromOutside(g, ext, swept, c);
    HeldIsFromOutside(g, ext, swept, w, c, w1, q);
    DrainExact(g, w1, c, q);
    ReachClosed(g, h);
    DrainedAfterMark(g, w, c, Reach(g, h), w1, q, Drain(g, w1, q));
    ClosureRefsBounded(g, ext, swept, w, c);
    SweepAfterDrain(g, swept, w, c, Reach(g, h), Drain(g, w1, q), root);
  }

  ghost predicate Drained(g: Graph, w: Cells, c: set<Ref>, u: set<Ref>, w2: Cells)
    requires w.Keys == g.Keys && c <= g.Keys
  {
    && w2.Keys == g.Keys
    && (forall r :: r in g ==> w2[r].rc == w[r].rc)
    && (forall r :: r in c - u ==> w2[r].mark && w2[r].tmp == OutRefs(g, c)[r])
    && (forall r :: r in u && r in g ==> !w2[r].mark && w2[r].tmp == 0)
    && (forall r :: r in g && r !in c ==> w2[r] == w[r])
  }

  lemma DrainedAfterMark(g: Graph, w: Cells, c: set<Ref>, u: set<Ref>, w1: Cells, q: seq<Ref>, w2: Cells)
    requires w.Keys == w1.Keys == w2.Keys == g.Keys && u <= c <= g.Keys
    requires MarkResult(g, w, c, w1, q) && UnmarkFields(g, w1, c, u, w2)
    ensures Drained(g, w, c, u, w2)
  {
    forall r | r in g ensures w2[r].rc == w[r].rc {
      assert r in c || r !in c;
    }
  }

  lemma ClosureRefsBounded(g: Graph, ext: multiset<Ref>, swept: set<Ref>, w: Cells, c: set<Ref>)
    requires Balanced(g, ext, swept, w) && c <= Live(g, swept)
    ensures forall r :: r in g ==> OutRefs(g, c)[r] <= w[r].rc
  {
    OutRefsSplit(g, Live(g, swept), c);
  }

  lemma SweepAfterDrain(g: Graph, swept: set<Ref>, w: Cells, c: set<Ref>, u: set<Ref>, w2: Cells, root: Ref)
    requires Closed(g) && w.Keys == g.Keys && c == Reach(g, {root}) && c !! swept && root in c && c <= g.Keys
    requires Successors(g, c) && u <= c && Successors(g, u) && Drained(g, w, c, u, w2)
    requires forall r :: r in g ==> OutRefs(g, c)[r] <= w[r].rc
    ensures var (w3, refuse) := SweepRoot(g, w2, swept, root);
            refuse == swept + (c - u) && RootCells(g, swept, w, c, c - u, w3)
  {
    SweepExact(g, swept, w2, c, u, root);
    assert c - (c - u) == u;
  }

  /** Cells after one root: survivors of the closure are clean, doomed objects keep mark and trial count. */
  ghost predicate RootCells(g: Graph, swept: set<Ref>, w: Cells, c: set<Ref>, d: set<Ref>, w': Cells)
    requires w.Keys == g.Keys && d <= g.Keys && c <= g.Keys
  {
    && w'.Keys == g.Keys
    && (forall r :: r in g ==> w'[r].rc + OutRefs(g, d)[r] == w[r].rc)
    && (forall r :: r in d ==> w'[r].mark && w'[r].tmp == OutRefs(g, c)[r])
    && (forall r :: r in c - d ==> !w'[r].mark && w'[r].tmp == 0)
    && (forall r :: r in g && r !in c ==> w'[r].mark == w[r].mark && w'[r].tmp == w[r].tmp)
  }

  lemma DoomedUnheld(g: Graph, ext: multiset<Ref>, swept: set<Ref>, root: Ref)
    requires Closed(g) && root in Live(g, swept) && Successors(g, Live(g, swept))
    ensures var d := Doomed(g, ext, swept, root);
            && d <= Live(g, swept) && (forall r :: r in d ==> ext[r] == 0)
            && Successors(g, Live(g, swept) - d)
  {
    var c := Reach(g, {root});
    var h := HeldFromOutside(g, ext, swept, c);
    var d := Doomed(g, ext, swept, root);
    ReachLive(g, swept, root);
    ReachClosed(g, {root});
    ReachClosed(g, h);
    forall x, k | x in Live(g, swept) - d && x in g && k in g[x] && k in g ensures k in Live(g, swept) - d {
      if k in c && x !in c { assert k in h; }
    }
  }

  /** The root loop keeps the heap in balance, whichever root it takes next. */
  lemma RootBalanced(g: Graph, ext: multiset<Ref>, swept: set<Ref>, w: Cells, root: Ref)
    requires Balanced(g, ext, swept, w) && root in Live(g, swept)
    ensures Elements(MarkRoot(g, w, root).1) <= g.Keys
    ensures var (w', refuse) := CollectRoot(g, w, swept, root); Balanced(g, ext, refuse, w')
  {
    var d := Doomed(g, ext, swept, root);
    var c := Reach(g, {root});
    RootExact(g, ext, swept, w, root);
    DoomedUnheld(g, ext, swept, root);
    ReachLive(g, swept, root);
    var (w', refuse) := CollectRoot(g, w, swept, root);
    BalanceAfter(g, ext, swept, w, c, d, w');
  }

  lemma BalanceAfter(g: Graph, ext: multiset<Ref>, swept: set<Ref>, w: Cells, c: set<Ref>, d: set<Ref>, w': Cells)
    requires Balanced(g, ext, swept, w) && d <= c <= Live(g, swept) && RootCells(g, swept, w, c, d, w')
    requires forall r :: r in d ==> ext[r] == 0
    requires Successors(g, Live(g, swept) - d)
    ensures Balanced(g, ext, swept + d, w')
  {
    assert Live(g, swept + d) == Live(g, swept) - d;
    OutRefsSplit(g, Live(g, swept), d);
    OutRefsSplit(g, Live(g, swept), c);
  }

  /** A root that was swept earlier in the same pass is left alone. */
  lemma SweptRootSkipped(g: Graph, ext: multiset<Ref>, swept: set<Ref>, w: Cells, root: Ref)
    requires Balanced(g, ext, swept, w) && root in swept
    ensures MarkRoot(g, w, root) == (w, []) && CollectRoot(g, w, swept, root) == (w, swept)
  {
    var w1 := w[root := CountAgain(w[root])];
    assert MarkStep(g, w, [], [root]) == (w1, [], []);
    assert Mark(g, w, [], [root]) == (w1, []);
    assert w1[root := CountLess(w1[root])] == w;
  }

  // ------------------------------------------------------- the root loop

  /** The root loop of gc_collect over the registered objects, in any order. */
  ghost function CollectAll(g: Graph, ext: multiset<Ref>, w: Cells, swept: set<Ref>, roots: seq<Ref>): (s: (Cells, set<Ref>))
    requires Balanced(g, ext, swept, w) && Elements(roots) <= g.Keys
    ensures Balanced(g, ext, s.1, s.0)
    decreases |roots|
  {
    if roots == [] then (w, swept) else
      var root := roots[0];
      assert root in Elements(roots);
      assert Elements(roots[1..]) <= Elements(roots);
      var (w', swept') := RootOrSkip(g, ext, w, swept, root);
      CollectAll(g, ext, w', swept', roots[1..])
  }

  ghost function RootOrSkip(g: Graph, ext: multiset<Ref>, w: Cells, swept: set<Ref>, root: Ref): (s: (Cells, set<Ref>))
    requires Balanced(g, ext, swept, w) && root in g
    ensures Elements(MarkRoot(g, w, root).1) <= g.Keys && s == CollectRoot(g, w, swept, root)
    ensures Balanced(g, ext, s.1, s.0)
    ensures s.1 == if root in swept then swept else swept + Doomed(g, ext, swept, root)
  {
    if root in swept then
      SweptRootSkipped(g, ext, swept, w, root);
      (w, swept)
    else
      RootBalanced(g, ext, swept, w, root);
      RootExact(g, ext, swept, w, root);
      CollectRoot(g, w, swept, root)
  }

  /** Objects that keep others alive: externally referenced, or beyond the reach of every registered object. */
  ghost function Anchors(g: Graph, ext: multiset<Ref>, registered: set<Ref>): set<Ref> {
    set r | r in g && (ext[r] > 0 || r !in Reach(g, registered))
  }

  /** Every live object that no anchor reaches is still reachable from a live root yet to be processed. */
  ghost predicate Pending(g: Graph, alive: set<Ref>, swept: set<Ref>, roots: set<Ref>) {
    Live(g, swept) - alive <= Reach(g, roots * Live(g, swept))
  }

  /** The heart of completeness: an unanchored object that survives one root has another root left. */
  lemma PendingSurvivor(g: Graph, ext: multiset<Ref>, alive: set<Ref>, swept: set<Ref>, root: Ref, rest: set<Ref>, o: Ref)
    requires Closed(g) && Successors(g, Live(g, swept)) && root in Live(g, swept)
    requires Successors(g, alive) && (forall r :: r in g && ext[r] > 0 ==> r in alive)
    requires Pending(g, alive, swept, rest + {root})
    requires o in Live(g, swept) - Doomed(g, ext, swept, root) && o !in alive
    ensures o in Reach(g, rest * (Live(g, swept) - Doomed(g, ext, swept, root)))
  {
    var c := Reach(g, {root});
    var d := Doomed(g, ext, swept, root);
    var live := Live(g, swept);
    ReachLive(g, swept, root);
    ReachClosed(g, {root});
    var t: Ref;
    var y: Ref;
    if o in c {
      var h := HeldFromOutside(g, ext, swept, c);
      var x :| x in h && Reaches(g, x, o);
      var p :| IsPath(g, x, p, o);
      if x in alive { PathStays(g, alive, x, p, o); }
      y :| y in live - c && y in g && x in g[y];
      ReachesStep(g, y, x);
      ReachesTrans(g, y, x, o);
      assert y !in alive;
    } else {
      y := o;
      ReachesSelf(g, o);
    }
    assert y in live - alive && y in Reach(g, (rest + {root}) * live);
    t :| t in (rest + {root}) * live && Reaches(g, t, y);
    if t in c { ReachMember(g, {root}, t, y); }
    ReachesTrans(g, t, y, o);
  }

  lemma PendingStep(g: Graph, ext: multiset<Ref>, alive: set<Ref>, swept: set<Ref>, root: Ref, rest: set<Ref>)
    requires Closed(g) && Successors(g, Live(g, swept)) && root in Live(g, swept)
    requires Successors(g, alive) && (forall r :: r in g && ext[r] > 0 ==> r in alive)
    requires Pending(g, alive, swept, rest + {root})
    ensures Pending(g, alive, swept + Doomed(g, ext, swept, root), rest)
  {
    var d := Doomed(g, ext, swept, root);
    assert Live(g, swept + d) == Live(g, swept) - d;
    forall o | o in Live(g, swept) - d && o !in alive ensures o in Reach(g, rest * (Live(g, swept) - d)) {
      PendingSurvivor(g, ext, alive, swept, root, rest, o);
    }
  }

  lemma PendingNext(g: Graph, ext: multiset<Ref>, alive: set<Ref>, swept: set<Ref>, swept': set<Ref>, roots: seq<Ref>)
    requires Closed(g) && Successors(g, Live(g, swept)) && roots != [] && roots[0] in g
    requires Successors(g, alive) && (forall r :: r in g && ext[r] > 0 ==> r in alive)
    requires Pending(g, alive, swept, Elements(roots))
    requires swept' == if roots[0] in swept then swept else swept + Doomed(g, ext, swept, roots[0])
    ensures Pending(g, alive, swept', Elements(roots[1..]))
  {
    var root := roots[0];
    HeadTail(roots);
    var rest := Elements(roots[1..]);
    if root in swept {
      assert Elements(roots) * Live(g, swept) == rest * Live(g, swept);
    } else {
      assert Elements(roots) == rest + {root};
      PendingStep(g, ext, alive, swept, root, rest);
    }
  }

  lemma {:induction false} PassComplete(g: Graph, ext: multiset<Ref>, alive: set<Ref>, w: Cells, swept: set<Ref>, roots: seq<Ref>)
    requires Balanced(g, ext, swept, w) && Elements(roots) <= g.Keys
    requires Successors(g, alive) && (forall r :: r in g && ext[r] > 0 ==> r in alive)
    requires Pending(g, alive, swept, Elements(roots))
    ensures Live(g, CollectAll(g, ext, w, swept, roots).1) <= alive
    decreases |roots|
  {
    if roots == [] {
      assert Elements(roots) * Live(g, swept) == {};
      assert Live(g, swept) - alive <= Reach(g, {}) == {};
      forall r | r in Live(g, swept) ensures r in alive {
        assert r in alive || r in Live(g, swept) - alive;
      }
    } else {
      HeadTail(roots);
      var (w', swept') := RootOrSkip(g, ext, w, swept, roots[0]);
      PendingNext(g, ext, alive, swept, swept', roots);
      PassComplete(g, ext, alive, w', swept', roots[1..]);
    }
  }

  lemma ReachMonotone(g: Graph, a: set<Ref>, b: set<Ref>)
    requires a <= b
    ensures Reach(g, a) <= Reach(g, b)
  {
  }

  lemma {:induction false} PassSound(g: Graph, ext: multiset<Ref>, keep: set<Ref>, w: Cells, swept: set<Ref>, roots: seq<Ref>)
    requires Balanced(g, ext, swept, w) && Elements(roots) <= g.Keys
    requires keep <= Live(g, swept)
    requires forall r :: r in keep ==> ext[r] > 0 || r !in Reach(g, Elements(roots))
    ensures Reach(g, keep) <= Live(g, CollectAll(g, ext, w, swept, roots).1)
    decreases |roots|
  {
    if roots == [] {
      ReachLeast(g, keep, Live(g, swept));
    } else {
      var root := roots[0];
      HeadTail(roots);
      ReachMonotone(g, {root}, Elements(roots));
      ReachMonotone(g, Elements(roots[1..]), Elements(roots));
      var (w', swept') := RootOrSkip(g, ext, w, swept, root);
      forall r | r in keep ensures r in Live(g, swept') && (ext[r] > 0 || r !in Reach(g, Elements(roots[1..]))) {
        assert ext[r] == 0 ==> r !in Doomed(g, ext, swept, root);
      }
      PassSound(g, ext, keep, w', swept', roots[1..]);
    }
  }

  /** One pass of gc_collect, over the registered objects in any order, sweeps exactly the objects that no
      anchor reaches; every survivor ends clean, with its external references plus those of survivors as
      its count, and every swept object ends with count zero. */
  lemma PassExact(g: Graph, ext: multiset<Ref>, w: Cells, roots: seq<Ref>)
    requires Balanced(g, ext, {}, w) && Elements(roots) <= g.Keys
    ensures var (w', swept) := CollectAll(g, ext, w, {}, roots);
            var alive := Reach(g, Anchors(g, ext, Elements(roots)));
            && swept == g.Keys - alive
            && (forall r :: r in alive ==> w'[r] == Cell(ext[r] + OutRefs(g, alive)[r], 0, false))
            && (forall r :: r in swept ==> w'[r].rc == 0)
  {
    hide *;
    var a := Anchors(g, ext, Elements(roots));
    var (w', swept) := CollectAll(g, ext, w, {}, roots);
    PassSurvivors(g, ext, w, roots);
    SurvivorCells(g, ext, swept, w', Reach(g, a));
  }

  lemma PassSurvivors(g: Graph, ext: multiset<Ref>, w: Cells, roots: seq<Ref>)
    requires Balanced(g, ext, {}, w) && Elements(roots) <= g.Keys
    ensures Live(g, CollectAll(g, ext, w, {}, roots).1) == Reach(g, Anchors(g, ext, Elements(roots)))
  {
    var a := Anchors(g, ext, Elements(roots));
    var alive := Reach(g, a);
    AnchorsPending(g, ext, Elements(roots));
    PassSound(g, ext, a, w, {}, roots);
    PassComplete(g, ext, alive, w, {}, roots);
  }

  lemma AnchorsPending(g: Graph, ext: multiset<Ref>, registered: set<Ref>)
    requires Closed(g) && registered <= g.Keys
    ensures var a := Anchors(g, ext, registered); var alive := Reach(g, a);
            a <= Live(g, {}) && a <= alive <= g.Keys && Successors(g, alive) && Pending(g, alive, {}, registered)
  {
    ReachClosed(g, Anchors(g, ext, registered));
    assert registered * Live(g, {}) == registered;
  }

  lemma SurvivorCells(g: Graph, ext: multiset<Ref>, swept: set<Ref>, w: Cells, alive: set<Ref>)
    requires Balanced(g, ext, swept, w) && alive == Live(g, swept)
    ensures swept == g.Keys - alive
    ensures forall r :: r in alive ==> w[r] == Cell(ext[r] + OutRefs(g, alive)[r], 0, false)
    ensures forall r :: r in swept ==> w[r].rc == 0
  {
    forall r | r in swept ensures w[r].rc == 0 {
      OutRefsHolder(g, Live(g, swept), r);
    }
  }

  /** Nothing reachable from an externally referenced object is ever swept. */
  lemma PassSafe(g: Graph, ext: multiset<Ref>, w: Cells, roots: seq<Ref>, o: Ref, p: Ref)
    requires Balanced(g, ext, {}, w) && Elements(roots) <= g.Keys
    requires o in g && ext[o] > 0 && Reaches(g, o, p)
    ensures p in g && p !in CollectAll(g, ext, w, {}, roots).1
  {
    PassExact(g, ext, w, roots);
    ReachClosed(g, Anchors(g, ext, Elements(roots)));
    var q :| IsPath(g, o, q, p);
    PathStays(g, Reach(g, Anchors(g, ext, Elements(roots))), o, q, p);
  }

  /** If the registered objects reach every externally unreachable object, one pass sweeps exactly those. */
  lemma PassCollectsAllGarbage(g: Graph, ext: multiset<Ref>, w: Cells, roots: seq<Ref>)
    requires Balanced(g, ext, {}, w) && Elements(roots) <= g.Keys
    requires var external := set r | r in g && ext[r] > 0;
             g.Keys - Reach(g, external) <= Reach(g, Elements(roots))
    ensures var external := set r | r in g && ext[r] > 0;
            CollectAll(g, ext, w, {}, roots).1 == g.Keys - Reach(g, external)
  {
    var external := set r | r in g && ext[r] > 0;
    var a := Anchors(g, ext, Elements(roots));
    PassSurvivors(g, ext, w, roots);
    ReachClosed(g, external);
    ReachClosed(g, a);
    ReachLeast(g, a, Reach(g, external));
    ReachLeast(g, external, Reach(g, a));
  }
}
