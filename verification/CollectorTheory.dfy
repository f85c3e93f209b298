/**
 What trial deletion computes.  `ext` counts the references that are not held by
 objects of the graph (stack, registers, type words); a heap is in balance when
 every real count is the number of references held by objects that have not been
 swept plus the external ones.
 */
module CollectorTheory {
  import opened RefGraph
  import opened Refcount
  import opened TrialDeletion

  /** Largest real count for which the temporary count, at most one higher, fits its 31 bits. */
  const MAX_RC: nat := W31 - 1

  ghost function Live(g: Graph, swept: set<Ref>): set<Ref> { g.Keys - swept }

  /** The state between two iterations of the root loop of gc_collect. */
  ghost predicate Balanced(g: Graph, ext: multiset<Ref>, swept: set<Ref>, w: Cells) {
    && Closed(g) && w.Keys == g.Keys && swept <= g.Keys
    && (forall r :: r in g ==> (w[r].mark <==> r in swept))
    && (forall r :: r in g && r !in swept ==> w[r].tmp == 0)
    && (forall r :: r in g ==> w[r].rc == ext[r] + OutRefs(g, Live(g, swept))[r])
    && (forall r :: r in g ==> w[r].rc < MAX_RC)
    && (forall r :: r in swept ==> w[r].tmp < MAX_RC)
    && (forall r :: r in swept ==> ext[r] == 0)
    && Successors(g, Live(g, swept))
  }

  lemma OutRefsBelow(g: Graph, d: set<Ref>, e: set<Ref>, r: Ref)
    requires e <= d <= g.Keys
    ensures OutRefs(g, e)[r] <= OutRefs(g, d)[r]
  {
    OutRefsSplit(g, d, e);
  }

  // ------------------------------------------------------------------ mark

  ghost function Elements(s: seq<Ref>): set<Ref> { set k | k in s }

  /** n is the set of objects marked since w0; nothing else changed, and no real count. */
  ghost predicate MarkFields(g: Graph, swept: set<Ref>, w0: Cells, n: set<Ref>, w: Cells) {
    && w.Keys == g.Keys == w0.Keys && n <= g.Keys && n !! swept
    && (forall r :: r in g ==> w[r].rc == w0[r].rc)
    && (forall r :: r in n ==> w[r].mark)
    && (forall r :: r in g && r !in n ==> w[r] == w0[r])
  }

  /** The marked objects and the worklist lie in c, and what the marked objects hold is met or pending. */
  ghost predicate Frontier(g: Graph, c: set<Ref>, start: set<Ref>, n: set<Ref>, wl: seq<Ref>)
    requires n <= g.Keys
  {
    && n <= c && Elements(wl) <= c + {NULL} && start <= n + Elements(wl)
    && forall r :: r in n ==> Elements(g[r]) <= n + Elements(wl) + {NULL}
  }

  /** Every reference met so far is counted, in a temporary count or in the worklist. */
  ghost predicate MarkCounts(g: Graph, swept: set<Ref>, root: Ref, n: set<Ref>, w: Cells, wl: seq<Ref>)
    requires w.Keys == g.Keys && n <= g.Keys
  {
    forall r :: r in g && r !in swept ==>
      w[r].tmp + multiset(wl)[r] == OutRefs(g, n)[r] + if r == root then 1 else 0
  }

  lemma HeadTail(wl: seq<Ref>)
    requires wl != []
    ensures forall k :: multiset(wl)[k] == multiset(wl[1..])[k] + if k == wl[0] then 1 else 0
    ensures Elements(wl) == {wl[0]} + Elements(wl[1..])
  {
    assert wl == [wl[0]] + wl[1..];
  }

  lemma FrontierVisit(g: Graph, c: set<Ref>, start: set<Ref>, n: set<Ref>, wl: seq<Ref>)
    requires Closed(g) && n <= g.Keys && c <= g.Keys && Frontier(g, c, start, n, wl) && Successors(g, c)
    requires wl != [] && wl[0] != NULL && wl[0] !in n
    ensures Frontier(g, c, start, n + {wl[0]}, g[wl[0]] + wl[1..])
  {
    var r := wl[0];
    HeadTail(wl);
    assert Elements(g[r] + wl[1..]) == Elements(g[r]) + Elements(wl[1..]);
    assert r in c;
  }

  lemma FrontierSkip(g: Graph, c: set<Ref>, start: set<Ref>, n: set<Ref>, wl: seq<Ref>)
    requires n <= g.Keys && Frontier(g, c, start, n, wl) && NULL !in start
    requires wl != [] && (wl[0] == NULL || wl[0] in n)
    ensures Frontier(g, c, start, n, wl[1..])
  {
    HeadTail(wl);
  }

  /** The temporary count never exceeds the real count by more than the root's own visit. */
  lemma MarkBound(g: Graph, ext: multiset<Ref>, swept: set<Ref>, w0: Cells, root: Ref,
                  n: set<Ref>, w: Cells, wl: seq<Ref>)
    requires Balanced(g, ext, swept, w0)
    requires MarkFields(g, swept, w0, n, w) && MarkCounts(g, swept, root, n, w, wl)
    requires wl != [] && wl[0] in n
    ensures w[wl[0]].tmp + 1 < W31
  {
    var r := wl[0];
    HeadTail(wl);
    assert multiset(wl)[r] >= 1;
    OutRefsBelow(g, Live(g, swept), n, r);
  }

  lemma MarkAgainCounts(g: Graph, swept: set<Ref>, root: Ref, n: set<Ref>, w: Cells, wl: seq<Ref>, w': Cells)
    requires w.Keys == g.Keys && n <= g.Keys && MarkCounts(g, swept, root, n, w, wl)
    requires wl != [] && wl[0] in g && wl[0] !in swept && w[wl[0]].tmp + 1 < W31
    requires w' == w[wl[0] := CountAgain(w[wl[0]])]
    ensures MarkCounts(g, swept, root, n, w', wl[1..])
  {
    HeadTail(wl);
  }

  lemma MarkNullCounts(g: Graph, swept: set<Ref>, root: Ref, n: set<Ref>, w: Cells, wl: seq<Ref>)
    requires Closed(g) && w.Keys == g.Keys && n <= g.Keys && MarkCounts(g, swept, root, n, w, wl)
    requires wl != [] && wl[0] == NULL
    ensures MarkCounts(g, swept, root, n, w, wl[1..])
  {
    HeadTail(wl);
    assert forall r :: r in g ==> multiset(wl)[r] == multiset(wl[1..])[r];
  }

  lemma MarkNewCounts(g: Graph, swept: set<Ref>, root: Ref, n: set<Ref>, w: Cells, wl: seq<Ref>, w': Cells)
    requires w.Keys == g.Keys && n <= g.Keys && MarkCounts(g, swept, root, n, w, wl)
    requires wl != [] && wl[0] in g && wl[0] !in swept && wl[0] !in n && w[wl[0]].tmp == 0
    requires w' == w[wl[0] := MarkNew(w[wl[0]])]
    ensures MarkCounts(g, swept, root, n + {wl[0]}, w', g[wl[0]] + wl[1..])
  {
    var r := wl[0];
    HeadTail(wl);
    OutRefsAdd(g, n, r);
  }

  ghost predicate MarkInv(g: Graph, swept: set<Ref>, w0: Cells, c: set<Ref>, root: Ref,
                          n: set<Ref>, w: Cells, q: seq<Ref>, wl: seq<Ref>)
  {
    && Fits(g, w, wl) && MarkFields(g, swept, w0, n, w) && Frontier(g, c, {root}, n, wl)
    && MarkCounts(g, swept, root, n, w, wl) && Elements(q) == n
  }

  lemma MarkSkipInv(g: Graph, swept: set<Ref>, w0: Cells, c: set<Ref>, root: Ref,
                    n: set<Ref>, w: Cells, q: seq<Ref>, wl: seq<Ref>)
    requires MarkInv(g, swept, w0, c, root, n, w, q, wl) && root != NULL
    requires wl != [] && (wl[0] in n ==> w[wl[0]].tmp + 1 < W31)
    requires wl[0] == NULL || wl[0] in n
    ensures var (w', q', wl') := MarkStep(g, w, q, wl); MarkInv(g, swept, w0, c, root, n, w', q', wl')
  {
    var r := wl[0];
    FrontierSkip(g, c, {root}, n, wl);
    if r == NULL {
      MarkNullCounts(g, swept, root, n, w, wl);
    } else {
      var w' := w[r := CountAgain(w[r])];
      MarkAgainCounts(g, swept, root, n, w, wl, w');
      assert MarkStep(g, w, q, wl) == (w', q, wl[1..]);
    }
  }

  lemma MarkNewInv(g: Graph, swept: set<Ref>, w0: Cells, c: set<Ref>, root: Ref,
                   n: set<Ref>, w: Cells, q: seq<Ref>, wl: seq<Ref>)
    requires c <= g.Keys && c !! swept && Successors(g, c)
    requires MarkInv(g, swept, w0, c, root, n, w, q, wl)
    requires wl != [] && wl[0] != NULL && !w[wl[0]].mark && w[wl[0]].tmp == 0
    ensures var (w', q', wl') := MarkStep(g, w, q, wl); MarkInv(g, swept, w0, c, root, n + {wl[0]}, w', q', wl')
  {
    var r := wl[0];
    assert r in Elements(wl) && r in c && r !in n;
    FrontierVisit(g, c, {root}, n, wl);
    MarkNewCounts(g, swept, root, n, w, wl, w[r := MarkNew(w[r])]);
    assert Elements([r] + q) == n + {r};
  }

  lemma MarkStepInv(g: Graph, ext: multiset<Ref>, swept: set<Ref>, w0: Cells, c: set<Ref>, root: Ref,
                    n: set<Ref>, w: Cells, q: seq<Ref>, wl: seq<Ref>) returns (n': set<Ref>)
    requires Balanced(g, ext, swept, w0) && root in g
    requires c <= g.Keys && c !! swept && Successors(g, c)
    requires MarkInv(g, swept, w0, c, root, n, w, q, wl) && wl != []
    ensures var (w', q', wl') := MarkStep(g, w, q, wl); MarkInv(g, swept, w0, c, root, n', w', q', wl')
  {
    var r := wl[0];
    assert r in Elements(wl);
    if r == NULL || w[r].mark {
      assert r == NULL || r in n;
      if r in n { MarkBound(g, ext, swept, w0, root, n, w, wl); }
      MarkSkipInv(g, swept, w0, c, root, n, w, q, wl);
      n' := n;
    } else {
      MarkNewInv(g, swept, w0, c, root, n, w, q, wl);
      n' := n + {r};
    }
  }

  /** The invariant of marking, from any intermediate state to the end. */
  lemma {:induction false} MarkRun(g: Graph, ext: multiset<Ref>, swept: set<Ref>, w0: Cells, c: set<Ref>, root: Ref,
                                   n: set<Ref>, w: Cells, q: seq<Ref>, wl: seq<Ref>) returns (n': set<Ref>)
    requires Balanced(g, ext, swept, w0) && root in g
    requires c <= g.Keys && c !! swept && Successors(g, c)
    requires MarkInv(g, swept, w0, c, root, n, w, q, wl)
    ensures var (w', q') := Mark(g, w, q, wl); MarkInv(g, swept, w0, c, root, n', w', q', [])
    decreases UnmarkedSet(w), |wl|
  {
    if wl == [] {
      n' := n;
    } else {
      var (w', q', wl') := MarkStep(g, w, q, wl);
      var m := MarkStepInv(g, ext, swept, w0, c, root, n, w, q, wl);
      n' := MarkRun(g, ext, swept, w0, c, root, m, w', q', wl');
    }
  }

  /** mark_tc(heap, q, root, 1): mark from the root, then take the root's own visit out again. */
  ghost function MarkRoot(g: Graph, w: Cells, root: Ref): (s: (Cells, seq<Ref>))
    requires Closed(g) && w.Keys == g.Keys && root in g
    ensures s.0.Keys == g.Keys
  {
    var (w', q) := Mark(g, w, [], [root]);
    (w'[root := CountLess(w'[root])], q)
  }

  lemma ReachLive(g: Graph, swept: set<Ref>, root: Ref)
    requires Successors(g, Live(g, swept)) && root in Live(g, swept)
    ensures Reach(g, {root}) <= Live(g, swept) && root in Reach(g, {root})
  {
    ReachLeast(g, {root}, Live(g, swept));
    ReachClosed(g, {root});
  }

  ghost predicate MarkResult(g: Graph, w: Cells, n: set<Ref>, w': Cells, q: seq<Ref>)
    requires w.Keys == w'.Keys == g.Keys && n <= g.Keys
  {
    && Elements(q) == n
    && (forall r :: r in n ==> w'[r] == Cell(w[r].rc, OutRefs(g, n)[r], true))
    && (forall r :: r in g && r !in n ==> w'[r] == w[r])
  }

  lemma MarkStart(g: Graph, ext: multiset<Ref>, swept: set<Ref>, w: Cells, c: set<Ref>, root: Ref)
    requires Balanced(g, ext, swept, w) && root in c && c <= g.Keys
    ensures MarkInv(g, swept, w, c, root, {}, w, [], [root])
  {
    assert Elements([root]) == {root};
    assert OutRefs(g, {}) == multiset{};
    assert multiset([root]) == multiset{root};
  }

  lemma MarkEndCell(g: Graph, swept: set<Ref>, w: Cells, c: set<Ref>, root: Ref, n: set<Ref>, w1: Cells, q: seq<Ref>, r: Ref)
    requires MarkInv(g, swept, w, c, root, n, w1, q, []) && r in n
    ensures w1[r] == Cell(w[r].rc, OutRefs(g, n)[r] + (if r == root then 1 else 0), true)
  {
    assert r in g && r !in swept;
    var t := multiset([])[r];
    assert t == 0;
  }

  lemma MarkEnd(g: Graph, swept: set<Ref>, w: Cells, c: set<Ref>, root: Ref, n: set<Ref>, w1: Cells, q: seq<Ref>)
    requires MarkInv(g, swept, w, c, root, n, w1, q, [])
    ensures root in n && n <= c && Successors(g, n)
    ensures MarkResult(g, w, n, w1[root := CountLess(w1[root])], q)
  {
    assert Elements([]) == {};
    forall r | r in n ensures w1[r] == Cell(w[r].rc, OutRefs(g, n)[r] + (if r == root then 1 else 0), true) {
      MarkEndCell(g, swept, w, c, root, n, w1, q, r);
    }
    forall r, k | r in n && r in g && k in g[r] && k in g ensures k in n {
      assert k in Elements(g[r]);
    }
  }

  lemma MarkWithin(g: Graph, ext: multiset<Ref>, swept: set<Ref>, w: Cells, c: set<Ref>, root: Ref)
    returns (n: set<Ref>)
    requires Balanced(g, ext, swept, w) && root in c && c <= g.Keys && c !! swept && Successors(g, c)
    ensures root in n && n <= c && Successors(g, n)
    ensures var (w', q) := MarkRoot(g, w, root); MarkResult(g, w, n, w', q)
  {
    MarkStart(g, ext, swept, w, c, root);
    n := MarkRun(g, ext, swept, w, c, root, {}, w, [], [root]);
    var (w1, q) := Mark(g, w, [], [root]);
    MarkEnd(g, swept, w, c, root, n, w1, q);
  }

  /** Marking visits exactly the closure of the root and counts exactly the references from inside it. */
  lemma MarkExact(g: Graph, ext: multiset<Ref>, swept: set<Ref>, w: Cells, root: Ref)
    requires Balanced(g, ext, swept, w) && root in Live(g, swept)
    ensures Reach(g, {root}) <= Live(g, swept)
    ensures var (w', q) := MarkRoot(g, w, root); MarkResult(g, w, Reach(g, {root}), w', q)
  {
    hide *;
    LiveParts(g, ext, swept, w);
    var c := Reach(g, {root});
    ReachLive(g, swept, root);
    ReachClosed(g, {root});
    var n := MarkWithin(g, ext, swept, w, c, root);
    ReachLeast(g, {root}, n);
    assert n == c;
  }

  lemma LiveParts(g: Graph, ext: multiset<Ref>, swept: set<Ref>, w: Cells)
    requires Balanced(g, ext, swept, w)
    ensures Closed(g) && w.Keys == g.Keys && Successors(g, Live(g, swept)) && Live(g, swept) <= g.Keys && Live(g, swept) !! swept
  {
    hide Successors, Closed, OutRefs;
  }

  // ---------------------------------------------------------------- unmark

  /** The loop that pops q and unmarks from every object with references from outside the closure. */
  ghost function Drain(g: Graph, w: Cells, q: seq<Ref>): (s: Cells)
    requires Closed(g) && w.Keys == g.Keys && Elements(q) <= g.Keys
    ensures s.Keys == g.Keys
    decreases |q|
  {
    if q == [] then w else
      var r := q[0];
      assert r in Elements(q);
      Drain(g, if w[r].tmp < w[r].rc then Unmark(g, w, [r]) else w, q[1..])
  }

  /** u is the part of the marked closure c that has been unmarked since w0. */
  ghost predicate UnmarkFields(g: Graph, w0: Cells, c: set<Ref>, u: set<Ref>, w: Cells) {
    && w.Keys == g.Keys == w0.Keys && u <= c <= g.Keys
    && (forall r :: r in c ==> w0[r].mark)
    && (forall r :: r in u ==> w[r] == Unmarked(w0[r]))
    && (forall r :: r in g && r !in u ==> w[r] == w0[r])
  }

  lemma {:induction false} UnmarkRun(g: Graph, w0: Cells, c: set<Ref>, b: set<Ref>, start: set<Ref>,
                                     u: set<Ref>, w: Cells, wl: seq<Ref>) returns (u': set<Ref>)
    requires Fits(g, w, wl) && UnmarkFields(g, w0, c, u, w)
    requires b <= c && Successors(g, b) && NULL !in start && Frontier(g, b, start, u, wl)
    ensures UnmarkFields(g, w0, c, u', Unmark(g, w, wl)) && Frontier(g, b, start, u', []) && u <= u'
    decreases MarkedSet(w), |wl|
  {
    if wl == [] {
      u' := u;
    } else {
      var r := wl[0];
      assert r in Elements(wl);
      var (w', wl') := UnmarkStep(g, w, wl);
      if r == NULL || !w[r].mark {
        assert r == NULL || r in u;
        FrontierSkip(g, b, start, u, wl);
        u' := UnmarkRun(g, w0, c, b, start, u, w', wl');
      } else {
        FrontierVisit(g, b, start, u, wl);
        u' := UnmarkRun(g, w0, c, b, start, u + {r}, w', wl');
      }
    }
  }

  /** The objects of c whose temporary count falls short of their real count. */
  ghost function Held(w: Cells, c: set<Ref>): set<Ref> {
    set r | r in c && r in w && w[r].tmp < w[r].rc
  }

  /** An object that is not unmarked yet is held now exactly when it was held. */
  lemma FieldsHeld(g: Graph, w0: Cells, c: set<Ref>, u: set<Ref>, w: Cells, r: Ref)
    requires UnmarkFields(g, w0, c, u, w) && r in c
    ensures w.Keys == g.Keys && r in g && u <= c <= g.Keys && w0.Keys == g.Keys
    ensures r !in u ==> (w[r].tmp < w[r].rc <==> r in Held(w0, c))
  {
  }

  lemma DrainNext(g: Graph, w: Cells, q: seq<Ref>)
    requires Closed(g) && w.Keys == g.Keys && Elements(q) <= g.Keys && q != []
    ensures q[0] in g && Elements(q[1..]) <= g.Keys && Fits(g, w, [q[0]])
    ensures Drain(g, w, q) == Drain(g, if w[q[0]].tmp < w[q[0]].rc then Unmark(g, w, [q[0]]) else w, q[1..])
  {
    HeadTail(q);
    assert q[0] in Elements(q);
    assert Elements([q[0]]) == {q[0]};
  }

  /** Unmarking from one object of the queue. */
  lemma UnmarkOne(g: Graph, w0: Cells, c: set<Ref>, b: set<Ref>, u: set<Ref>, w: Cells, r: Ref) returns (v: set<Ref>)
    requires Closed(g) && UnmarkFields(g, w0, c, u, w) && w.Keys == g.Keys && Fits(g, w, [r])
    requires b <= c && Successors(g, b) && u <= b && Successors(g, u) && r in b
    ensures UnmarkFields(g, w0, c, v, Unmark(g, w, [r])) && u + {r} <= v <= b && Successors(g, v)
  {
    assert Elements([r]) == {r};
    v := UnmarkRun(g, w0, c, b, {r}, u, w, [r]);
  }

  /** b is any successor-closed part of c that contains the held objects. */
  lemma {:induction false} DrainRun(g: Graph, w0: Cells, c: set<Ref>, b: set<Ref>, u: set<Ref>, w: Cells, q: seq<Ref>)
    returns (u': set<Ref>)
    requires Closed(g) && UnmarkFields(g, w0, c, u, w)
    requires Held(w0, c) <= b <= c && Successors(g, b) && u <= b && Successors(g, u)
    requires Elements(q) <= c && Held(w0, c) <= u + Elements(q)
    ensures UnmarkFields(g, w0, c, u', Drain(g, w, q))
    ensures Held(w0, c) <= u' <= b && Successors(g, u')
    decreases |q|
  {
    if q == [] {
      u' := u;
    } else {
      hide Successors, UnmarkFields, Drain, Closed, Held;
      var r := q[0];
      HeadTail(q);
      FieldsHeld(g, w0, c, u, w, r);
      DrainNext(g, w, q);
      if w[r].tmp < w[r].rc {
        var v := UnmarkOne(g, w0, c, b, u, w, r);
        u' := DrainRun(g, w0, c, b, v, Unmark(g, w, [r]), q[1..]);
      } else {
        u' := DrainRun(g, w0, c, b, u, w, q[1..]);
      }
    }
  }

  /** Draining unmarks exactly what is reachable from a held object of the closure. */
  lemma DrainExact(g: Graph, w0: Cells, c: set<Ref>, q: seq<Ref>)
    requires Closed(g) && UnmarkFields(g, w0, c, {}, w0) && Successors(g, c) && Elements(q) == c
    ensures Reach(g, Held(w0, c)) <= c
    ensures UnmarkFields(g, w0, c, Reach(g, Held(w0, c)), Drain(g, w0, q))
  {
    var h := Held(w0, c);
    var b := Reach(g, h);
    ReachClosed(g, h);
    ReachLeast(g, h, c);
    var u := DrainRun(g, w0, c, b, {}, w0, q);
    ReachLeast(g, h, u);
    assert u == b;
  }

  // ----------------------------------------------------------------- sweep

  /** n is the set of objects swept since w0: each gave up every reference it holds that is not pending. */
  ghost predicate SweepFields(g: Graph, w0: Cells, n: set<Ref>, w: Cells, wl: seq<Ref>)
    requires n <= g.Keys && w0.Keys == g.Keys
  {
    && w.Keys == g.Keys
    && (forall r :: r in g ==> w[r].tmp == w0[r].tmp && w[r].mark == w0[r].mark)
    && (forall r :: r in g ==> w[r].rc + OutRefs(g, n)[r] == w0[r].rc + multiset(wl)[r])
  }

  /** d is the part of c still marked; what the swept objects hold in d is swept or pending. */
  ghost predicate SweepFrontier(g: Graph, c: set<Ref>, d: set<Ref>, n: set<Ref>, wl: seq<Ref>)
    requires n <= g.Keys
  {
    n <= d && Elements(wl) <= c + {NULL} && forall r :: r in n ==> Elements(g[r]) * d <= n + Elements(wl)
  }

  lemma SweepOne(g: Graph, w0: Cells, n: set<Ref>, w: Cells, wl: seq<Ref>)
    requires Closed(g) && n <= g.Keys && w0.Keys == g.Keys && SweepFields(g, w0, n, w, wl)
    requires forall r :: r in g ==> OutRefs(g, n)[r] <= w0[r].rc
    requires wl != [] && (wl[0] == NULL || wl[0] in g)
    ensures wl[0] == NULL ==> SweepFields(g, w0, n, w, wl[1..])
    ensures wl[0] != NULL ==> w[wl[0]].rc > 0 && SweepFields(g, w0, n, w[wl[0] := GiveUp(w[wl[0]])], wl[1..])
  {
    HeadTail(wl);
  }

  lemma SweepVisitFields(g: Graph, w0: Cells, n: set<Ref>, w: Cells, wl: seq<Ref>, r: Ref)
    requires n <= g.Keys && w0.Keys == g.Keys && r in g && r !in n && SweepFields(g, w0, n, w, wl)
    ensures SweepFields(g, w0, n + {r}, w, g[r] + wl)
  {
    OutRefsAdd(g, n, r);
  }

  lemma SweepVisitFrontier(g: Graph, c: set<Ref>, d: set<Ref>, n: set<Ref>, wl: seq<Ref>, r: Ref)
    requires Closed(g) && n <= g.Keys && d <= c <= g.Keys && Successors(g, c) && SweepFrontier(g, c, d, n, [r] + wl)
    requires r in d
    ensures SweepFrontier(g, c, d, n + {r}, g[r] + wl)
  {
    assert Elements(g[r] + wl) == Elements(g[r]) + Elements(wl);
    assert Elements([r] + wl) == {r} + Elements(wl);
  }

  lemma OutRefsBelowAll(g: Graph, d: set<Ref>, e: set<Ref>, w: Cells)
    requires e <= d <= g.Keys && w.Keys == g.Keys
    requires forall r :: r in g ==> OutRefs(g, d)[r] <= w[r].rc
    ensures forall r :: r in g ==> OutRefs(g, e)[r] <= w[r].rc
  {
    OutRefsSplit(g, d, e);
  }

  ghost predicate SweepInv(g: Graph, w0: Cells, c: set<Ref>, d: set<Ref>, n: set<Ref>, w: Cells, wl: seq<Ref>)
    requires d <= g.Keys && w0.Keys == g.Keys
  {
    Fits(g, w, wl) && n <= d && SweepFields(g, w0, n, w, wl) && SweepFrontier(g, c, d, n, wl)
  }

  lemma SweepStepInv(g: Graph, w0: Cells, swept: set<Ref>, c: set<Ref>, d: set<Ref>,
                     n: set<Ref>, w: Cells, wl: seq<Ref>) returns (n': set<Ref>)
    requires Closed(g) && w0.Keys == g.Keys && d <= c <= g.Keys && c !! swept && Successors(g, c)
    requires forall r :: r in c ==> (w0[r].mark <==> r in d)
    requires forall r :: r in g ==> OutRefs(g, d)[r] <= w0[r].rc
    requires SweepInv(g, w0, c, d, n, w, wl) && wl != []
    ensures n <= n' <= d
    ensures var (w', refuse', wl') := SweepStep(g, w, swept + n, wl);
            refuse' == swept + n' && SweepInv(g, w0, c, d, n', w', wl')
  {
    hide OutRefs, Successors;
    var r := wl[0];
    HeadTail(wl);
    OutRefsBelowAll(g, d, n, w0);
    SweepOne(g, w0, n, w, wl);
    n' := n;
    if r != NULL && r in d && r !in n {
      assert wl == [r] + wl[1..];
      SweepVisitFrontier(g, c, d, n, wl[1..], r);
      SweepVisitFields(g, w0, n, w[r := GiveUp(w[r])], wl[1..], r);
      n' := n + {r};
    }
  }

  /** The invariant of sweeping: refuse grows by exactly n, and counts fall by exactly what n held. */
  lemma {:induction false} SweepRun(g: Graph, w0: Cells, swept: set<Ref>, c: set<Ref>, d: set<Ref>,
                                    n: set<Ref>, w: Cells, wl: seq<Ref>) returns (n': set<Ref>)
    requires Closed(g) && w0.Keys == g.Keys && d <= c <= g.Keys && c !! swept && Successors(g, c)
    requires forall r :: r in c ==> (w0[r].mark <==> r in d)
    requires forall r :: r in g ==> OutRefs(g, d)[r] <= w0[r].rc
    requires SweepInv(g, w0, c, d, n, w, wl)
    ensures n <= n' <= d
    ensures var (w', refuse') := Sweep(g, w, swept + n, wl);
            refuse' == swept + n' && SweepInv(g, w0, c, d, n', w', [])
    decreases g.Keys - (swept + n), |wl|
  {
    if wl == [] {
      n' := n;
    } else {
      var (w', refuse', wl') := SweepStep(g, w, swept + n, wl);
      var m := SweepStepInv(g, w0, swept, c, d, n, w, wl);
      n' := SweepRun(g, w0, swept, c, d, m, w', wl');
    }
  }
}
