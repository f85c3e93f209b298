/**
 The object graph of the Lisp heap, as the cycle collector of alloc.c sees it.

 Objects are named by their word address; the null address 0 may occur among the
 references an object holds.  A graph maps each object to the references it
 holds, in the order in which the collector visits them, with repetition: one
 entry for every counted reference.
 */
module RefGraph {
  type Ref = nat
  const NULL: Ref := 0

  type Graph = map<Ref, seq<Ref>>

  /** Every reference held by an object of the graph is null or an object of the graph. */
  ghost predicate Closed(g: Graph) {
    NULL !in g && forall r, k :: r in g && k in g[r] ==> k == NULL || k in g
  }

  /** The references that the objects of d hold, counted with multiplicity. */
  ghost function OutRefs(g: Graph, d: set<Ref>): multiset<Ref>
    requires d <= g.Keys
  {
    if d == {} then multiset{} else
      var r :| r in d;
      multiset(g[r]) + OutRefs(g, d - {r})
  }

  lemma {:induction false} OutRefsRemove(g: Graph, d: set<Ref>, r: Ref)
    requires d <= g.Keys && r in d
    ensures OutRefs(g, d) == multiset(g[r]) + OutRefs(g, d - {r})
    decreases d
  {
    var x :| x in d && OutRefs(g, d) == multiset(g[x]) + OutRefs(g, d - {x});
    if x != r {
      OutRefsRemove(g, d - {x}, r);
      OutRefsRemove(g, d - {r}, x);
      assert d - {x} - {r} == d - {r} - {x};
    }
  }

  lemma OutRefsAdd(g: Graph, d: set<Ref>, r: Ref)
    requires d <= g.Keys && r in g && r !in d
    ensures OutRefs(g, d + {r}) == OutRefs(g, d) + multiset(g[r])
  {
    OutRefsRemove(g, d + {r}, r);
    assert d + {r} - {r} == d;
  }

  lemma {:induction false} OutRefsSplit(g: Graph, d: set<Ref>, e: set<Ref>)
    requires e <= d <= g.Keys
    ensures OutRefs(g, d) == OutRefs(g, e) + OutRefs(g, d - e)
    decreases e
  {
    if e == {} {
      assert d - e == d;
    } else {
      var r :| r in e;
      OutRefsRemove(g, d, r);
      OutRefsRemove(g, e, r);
      OutRefsSplit(g, d - {r}, e - {r});
      assert d - {r} - (e - {r}) == d - e;
    }
  }

  /** A reference is counted from d exactly when some object of d holds it. */
  lemma {:induction false} OutRefsHolder(g: Graph, d: set<Ref>, o: Ref)
    requires d <= g.Keys
    ensures o in OutRefs(g, d) <==> exists r :: r in d && o in g[r]
    decreases d
  {
    if d != {} {
      var r :| r in d;
      OutRefsRemove(g, d, r);
      OutRefsHolder(g, d - {r}, o);
      assert o in multiset(g[r]) <==> o in g[r];
      if x :| x in d && o in g[x] {
        assert x == r || x in d - {r};
      }
    }
  }

  /** OutRefs depends only on what the objects of d hold. */
  lemma {:induction false} OutRefsAgree(g: Graph, h: Graph, d: set<Ref>)
    requires d <= g.Keys && d <= h.Keys
    requires forall r :: r in d ==> g[r] == h[r]
    ensures OutRefs(g, d) == OutRefs(h, d)
    decreases d
  {
    if d != {} {
      var r :| r in d;
      OutRefsRemove(g, d, r);
      OutRefsRemove(h, d, r);
      OutRefsAgree(g, h, d - {r});
    }
  }

  /** p lists the objects after a on a path from a to b. */
  ghost predicate IsPath(g: Graph, a: Ref, p: seq<Ref>, b: Ref)
    decreases |p|
  {
    a in g &&
    if p == [] then a == b else p[0] in g[a] && IsPath(g, p[0], p[1..], b)
  }

  ghost predicate Reaches(g: Graph, a: Ref, b: Ref) {
    exists p :: IsPath(g, a, p, b)
  }

  /** The objects reachable from the objects of d, d itself included. */
  ghost function Reach(g: Graph, d: set<Ref>): set<Ref> {
    set b | b in g && exists a :: a in d && Reaches(g, a, b)
  }

  /** d is closed under following references (inside the graph). */
  ghost predicate Successors(g: Graph, d: set<Ref>) {
    forall r, k :: r in d && r in g && k in g[r] && k in g ==> k in d
  }

  lemma ReachesSelf(g: Graph, a: Ref)
    requires a in g
    ensures Reaches(g, a, a)
  {
    assert IsPath(g, a, [], a);
  }

  lemma {:induction false} PathEnd(g: Graph, a: Ref, p: seq<Ref>, b: Ref)
    requires IsPath(g, a, p, b)
    ensures b in g
    decreases |p|
  {
    if p != [] { PathEnd(g, p[0], p[1..], b); }
  }

  lemma {:induction false} PathAppend(g: Graph, a: Ref, p: seq<Ref>, b: Ref, q: seq<Ref>, c: Ref)
    requires IsPath(g, a, p, b) && IsPath(g, b, q, c)
    ensures IsPath(g, a, p + q, c)
    decreases |p|
  {
    if p == [] {
      assert p + q == q;
    } else {
      PathAppend(g, p[0], p[1..], b, q, c);
      assert (p + q)[1..] == p[1..] + q;
    }
  }

  lemma ReachesTrans(g: Graph, a: Ref, b: Ref, c: Ref)
    requires Reaches(g, a, b) && Reaches(g, b, c)
    ensures Reaches(g, a, c)
  {
    var p :| IsPath(g, a, p, b);
    var q :| IsPath(g, b, q, c);
    PathAppend(g, a, p, b, q, c);
  }

  lemma ReachesStep(g: Graph, a: Ref, b: Ref)
    requires a in g && b in g && b in g[a]
    ensures Reaches(g, a, b)
  {
    assert IsPath(g, b, [b][1..], b);
    assert IsPath(g, a, [b], b);
  }

  lemma {:induction false} PathStays(g: Graph, d: set<Ref>, a: Ref, p: seq<Ref>, b: Ref)
    requires IsPath(g, a, p, b) && a in d && Successors(g, d)
    ensures b in d
    decreases |p|
  {
    if p != [] {
      PathStays(g, d, p[0], p[1..], b);
    }
  }

  /** A successor-closed set contains everything reachable from its members. */
  lemma ReachLeast(g: Graph, a: set<Ref>, d: set<Ref>)
    requires a <= d && Successors(g, d)
    ensures Reach(g, a) <= d
  {
    forall b | b in Reach(g, a) ensures b in d {
      var x :| x in a && Reaches(g, x, b);
      var p :| IsPath(g, x, p, b);
      PathStays(g, d, x, p, b);
    }
  }

  lemma ReachClosed(g: Graph, a: set<Ref>)
    ensures Successors(g, Reach(g, a))
    ensures a * g.Keys <= Reach(g, a) <= g.Keys
  {
    var d := Reach(g, a);
    forall r, k | r in d && r in g && k in g[r] && k in g ensures k in d {
      var x :| x in a && Reaches(g, x, r);
      ReachesStep(g, r, k);
      ReachesTrans(g, x, r, k);
    }
    forall x | x in a && x in g ensures x in d { ReachesSelf(g, x); }
  }

  lemma ReachMember(g: Graph, d: set<Ref>, a: Ref, b: Ref)
    requires a in Reach(g, d) && Reaches(g, a, b)
    ensures b in Reach(g, d)
  {
    var x :| x in d && Reaches(g, x, a);
    ReachesTrans(g, x, a, b);
    var p :| IsPath(g, x, p, b);
    PathEnd(g, x, p, b);
  }
}
