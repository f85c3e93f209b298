/**
 Trial deletion as functions on values: the three traversals of the collector
 (mark, unmark, sweep), each written as a worklist of references still to be
 visited.  The recursive methods of module Collector are proved to compute
 exactly these functions; the lemmas here say what the functions compute.
 */
module TrialDeletion {
  import opened RefGraph
  import opened Refcount

  type Cells = map<Ref, Cell>

  ghost predicate Fits(g: Graph, w: Cells, wl: seq<Ref>) {
    Closed(g) && w.Keys == g.Keys && forall k :: k in wl ==> k == NULL || k in g
  }

  ghost function MarkedSet(w: Cells): set<Ref> {
    set r | r in w && w[r].mark
  }

  ghost function UnmarkedSet(w: Cells): set<Ref> {
    set r | r in w && !w[r].mark
  }

  // ------------------------------------------------------------------ mark

  /** _mark_tc with cond == 1 on the first reference of the worklist; q is a stack. */
  ghost function MarkStep(g: Graph, w: Cells, q: seq<Ref>, wl: seq<Ref>): (s: (Cells, seq<Ref>, seq<Ref>))
    requires Fits(g, w, wl) && wl != []
    ensures Fits(g, s.0, s.2)
    ensures UnmarkedSet(s.0) < UnmarkedSet(w) || (UnmarkedSet(s.0) == UnmarkedSet(w) && |s.2| < |wl|)
  {
    var r := wl[0];
    if r == NULL then (w, q, wl[1..])
    else if w[r].mark then
      var w' := w[r := CountAgain(w[r])];
      assert UnmarkedSet(w') == UnmarkedSet(w);
      (w', q, wl[1..])
    else
      var w' := w[r := MarkNew(w[r])];
      assert r in UnmarkedSet(w) && r !in UnmarkedSet(w');
      (w', [r] + q, g[r] + wl[1..])
  }

  ghost function Mark(g: Graph, w: Cells, q: seq<Ref>, wl: seq<Ref>): (s: (Cells, seq<Ref>))
    requires Fits(g, w, wl)
    ensures s.0.Keys == g.Keys && UnmarkedSet(s.0) <= UnmarkedSet(w)
    decreases UnmarkedSet(w), |wl|
  {
    if wl == [] then (w, q) else
      var (w', q', wl') := MarkStep(g, w, q, wl);
      Mark(g, w', q', wl')
  }

  lemma {:induction false} MarkConcat(g: Graph, w: Cells, q: seq<Ref>, a: seq<Ref>, b: seq<Ref>)
    requires Fits(g, w, a) && Fits(g, w, b)
    ensures Fits(g, w, a + b)
    ensures Mark(g, w, q, a + b) == Mark(g, Mark(g, w, q, a).0, Mark(g, w, q, a).1, b)
    decreases UnmarkedSet(w), |a|
  {
    if a == [] {
      assert a + b == b;
    } else {
      var (w', q', a') := MarkStep(g, w, q, a);
      assert (a + b)[1..] == a[1..] + b;
      assert a[0] != NULL ==> g[a[0]] + (a[1..] + b) == g[a[0]] + a[1..] + b;
      assert MarkStep(g, w, q, a + b) == (w', q', a' + b);
      MarkConcat(g, w', q', a', b);
    }
  }

  // ---------------------------------------------------------------- unmark

  /** _mark_tc with cond == 0 on the first reference of the worklist. */
  ghost function UnmarkStep(g: Graph, w: Cells, wl: seq<Ref>): (s: (Cells, seq<Ref>))
    requires Fits(g, w, wl) && wl != []
    ensures Fits(g, s.0, s.1)
    ensures MarkedSet(s.0) < MarkedSet(w) || (MarkedSet(s.0) == MarkedSet(w) && |s.1| < |wl|)
  {
    var r := wl[0];
    if r == NULL || !w[r].mark then (w, wl[1..])
    else
      var w' := w[r := Unmarked(w[r])];
      assert r in MarkedSet(w) && r !in MarkedSet(w');
      (w', g[r] + wl[1..])
  }

  ghost function Unmark(g: Graph, w: Cells, wl: seq<Ref>): (s: Cells)
    requires Fits(g, w, wl)
    ensures s.Keys == g.Keys && MarkedSet(s) <= MarkedSet(w)
    decreases MarkedSet(w), |wl|
  {
    if wl == [] then w else
      var (w', wl') := UnmarkStep(g, w, wl);
      Unmark(g, w', wl')
  }

  lemma {:induction false} UnmarkConcat(g: Graph, w: Cells, a: seq<Ref>, b: seq<Ref>)
    requires Fits(g, w, a) && Fits(g, w, b)
    ensures Fits(g, w, a + b) && Unmark(g, w, a + b) == Unmark(g, Unmark(g, w, a), b)
    decreases MarkedSet(w), |a|
  {
    if a == [] {
      assert a + b == b;
    } else {
      var (w', a') := UnmarkStep(g, w, a);
      assert (a + b)[1..] == a[1..] + b;
      assert a[0] != NULL ==> g[a[0]] + (a[1..] + b) == g[a[0]] + a[1..] + b;
      assert UnmarkStep(g, w, a + b) == (w', a' + b);
      UnmarkConcat(g, w', a', b);
    }
  }

  // ----------------------------------------------------------------- sweep

  /** decrease_refcs followed by sweep on the first reference of the worklist. */
  ghost function SweepStep(g: Graph, w: Cells, refuse: set<Ref>, wl: seq<Ref>): (s: (Cells, set<Ref>, seq<Ref>))
    requires Fits(g, w, wl) && wl != []
    ensures Fits(g, s.0, s.2) && refuse <= s.1
    ensures g.Keys - s.1 < g.Keys - refuse || (s.1 == refuse && |s.2| < |wl|)
  {
    var r := wl[0];
    if r == NULL then (w, refuse, wl[1..])
    else
      var w' := w[r := GiveUp(w[r])];
      if !w'[r].mark || r in refuse then (w', refuse, wl[1..])
      else
        assert r in g.Keys - refuse;
        (w', refuse + {r}, g[r] + wl[1..])
  }

  ghost function Sweep(g: Graph, w: Cells, refuse: set<Ref>, wl: seq<Ref>): (s: (Cells, set<Ref>))
    requires Fits(g, w, wl)
    ensures s.0.Keys == g.Keys && refuse <= s.1
    decreases g.Keys - refuse, |wl|
  {
    if wl == [] then (w, refuse) else
      var (w', refuse', wl') := SweepStep(g, w, refuse, wl);
      Sweep(g, w', refuse', wl')
  }

  /** sweep called on a root: no reference is given up. */
  ghost function SweepRoot(g: Graph, w: Cells, refuse: set<Ref>, r: Ref): (s: (Cells, set<Ref>))
    requires Closed(g) && w.Keys == g.Keys && r in g
  {
    if !w[r].mark || r in refuse then (w, refuse) else Sweep(g, w, refuse + {r}, g[r])
  }

  lemma {:induction false} SweepConcat(g: Graph, w: Cells, refuse: set<Ref>, a: seq<Ref>, b: seq<Ref>)
    requires Fits(g, w, a) && Fits(g, w, b)
    ensures Fits(g, w, a + b)
    ensures Sweep(g, w, refuse, a + b) == Sweep(g, Sweep(g, w, refuse, a).0, Sweep(g, w, refuse, a).1, b)
    decreases g.Keys - refuse, |a|
  {
    if a == [] {
      assert a + b == b;
    } else {
      var (w', refuse', a') := SweepStep(g, w, refuse, a);
      assert (a + b)[1..] == a[1..] + b;
      assert a[0] != NULL ==> g[a[0]] + (a[1..] + b) == g[a[0]] + a[1..] + b;
      assert SweepStep(g, w, refuse, a + b) == (w', refuse', a' + b);
      SweepConcat(g, w', refuse', a', b);
    }
  }
}
