/**
 What objects hold, by their types, and the graph that the collector walks. Which references an object holds is said
 twice: as the list in which they are visited, and by the number of times it holds each one. Survival is stated from
 the second, on the objects alone.
 */
module Bodies {
  import opened RefGraph
  import opened CollectorTypes

  /** The AVL tree inside a set object. */
  datatype Tree = Leaf | Node(data: Ref, left: Tree, right: Tree)

  /** What an object holds, by its type: strings, numbers and byte code hold no references. */
  datatype Body =
    | Atom
    | Cellular(contents: seq<Ref>) // cell, function, subarray
    | Array(sub: Ref)
    | SetOf(tree: Tree)

  function Preorder(t: Tree): seq<Ref> {
    match t
    case Leaf => []
    case Node(d, l, r) => [d] + Preorder(l) + Preorder(r)
  }

  /** The references that are followed, in the order in which they are. */
  function Kids(b: Body): seq<Ref> {
    match b
    case Atom => []
    case Cellular(c) => c
    case Array(s) => [s]
    case SetOf(t) => Preorder(t)
  }

  /** The graph is what the objects hold, taken from their bodies. */
  ghost predicate References(bodies: map<Ref, Body>, g: Graph) {
    bodies.Keys == g.Keys && forall r {:trigger Kids(bodies[r])} :: r in bodies ==> g[r] == Kids(bodies[r])
  }

  // --------------------------------------------------- how often, and whether

  function TimesInTree(t: Tree, k: Ref): nat {
    if t.Leaf? then 0 else TimesInTree(t.left, k) + TimesInTree(t.right, k) + if t.data == k then 1 else 0
  }

  /** How many references to k an object holds: one for each place that has k. */
  function Times(b: Body, k: Ref): nat {
    if b.Cellular? then multiset(b.contents)[k]
    else if b.Array? && b.sub == k then 1
    else if b.SetOf? then TimesInTree(b.tree, k)
    else 0
  }

  predicate InTree(t: Tree, k: Ref) { t.Node? && (t.data == k || InTree(t.left, k) || InTree(t.right, k)) }

  /** An object refers to everything in its contents, its subarray, or its set. */
  predicate Refers(b: Body, k: Ref) {
    (b.Cellular? && k in b.contents) || (b.Array? && k == b.sub) || (b.SetOf? && InTree(b.tree, k))
  }

  lemma {:induction false} TreeVisited(t: Tree, k: Ref)
    ensures multiset(Preorder(t))[k] == TimesInTree(t, k)
    ensures TimesInTree(t, k) > 0 <==> InTree(t, k)
  {
    if t.Node? {
      TreeVisited(t.left, k);
      TreeVisited(t.right, k);
      assert multiset([t.data])[k] == if t.data == k then 1 else 0;
    }
  }

  /** The references that are followed are those that are held, as often as they are. */
  lemma FollowsWhatIsHeld(b: Body, k: Ref)
    ensures multiset(Kids(b))[k] == Times(b, k)
    ensures k in Kids(b) <==> Refers(b, k)
    ensures Times(b, k) > 0 <==> Refers(b, k)
  {
    if b.SetOf? { TreeVisited(b.tree, k); }
    if b.Array? { assert multiset([b.sub])[k] == if b.sub == k then 1 else 0; }
    assert k in multiset(Kids(b)) <==> k in Kids(b);
    if b.Cellular? { assert k in multiset(b.contents) <==> k in b.contents; }
  }

  /** How many references to k the objects of d hold. */
  ghost function AllTimes(bodies: map<Ref, Body>, d: set<Ref>, k: Ref): nat
    requires d <= bodies.Keys
  {
    if d == {} then 0 else
      var r :| r in d;
      Times(bodies[r], k) + AllTimes(bodies, d - {r}, k)
  }

  /** The order of summation does not matter. */
  lemma {:induction false} AllTimesCounted(bodies: map<Ref, Body>, g: Graph, d: set<Ref>, k: Ref)
    requires References(bodies, g) && d <= bodies.Keys
    ensures OutRefs(g, d)[k] == AllTimes(bodies, d, k)
    decreases d
  {
    if d != {} {
      var r :| r in d && AllTimes(bodies, d, k) == Times(bodies[r], k) + AllTimes(bodies, d - {r}, k);
      OutRefsRemove(g, d, r);
      AllTimesCounted(bodies, g, d - {r}, k);
      FollowsWhatIsHeld(bodies[r], k);
    }
  }

  ghost function OfType(types: Types, d: set<Ref>, t: Ref): set<Ref> { set r | r in d && r in types && types[r] == t }

  /** How many objects of d are of type t. */
  ghost function Typings(types: Types, d: set<Ref>, t: Ref): nat { |OfType(types, d, t)| }

  lemma {:induction false} TypingsCounted(types: Types, d: set<Ref>, t: Ref)
    requires d <= types.Keys && t != NULL
    ensures OutRefs(TypeGraph(types), d)[t] == Typings(types, d, t)
    decreases d
  {
    if d == {} {
      NoTypings(types, t);
    } else {
      hide Typings, OutRefs, TypeGraph;
      var r :| r in d;
      TypingsCounted(types, d - {r}, t);
      OutRefsRemove(TypeGraph(types), d, r);
      TypingsRemove(types, d, r, t);
      OneType(types, r, t);
    }
  }

  lemma NoTypings(types: Types, t: Ref)
    ensures Typings(types, {}, t) == 0
  {
    assert OfType(types, {}, t) == {};
  }

  lemma TypingsRemove(types: Types, d: set<Ref>, r: Ref, t: Ref)
    requires d <= types.Keys && r in d
    ensures Typings(types, d, t) == Typings(types, d - {r}, t) + if types[r] == t then 1 else 0
  {
    var s, s' := OfType(types, d, t), OfType(types, d - {r}, t);
    if types[r] == t {
      assert s == s' + {r} && r !in s';
    } else {
      assert s == s';
    }
  }

  lemma OneType(types: Types, r: Ref, t: Ref)
    requires r in types && t != NULL
    ensures multiset(TypeGraph(types)[r])[t] == if types[r] == t then 1 else 0
  {
  }

  // -------------------------------------------------------------- survival

  /** What an object of s refers to, if it is an object, is in s. */
  ghost predicate Follows(bodies: map<Ref, Body>, s: set<Ref>) {
    forall r, k :: r in s && r in bodies && k in bodies && Refers(bodies[r], k) ==> k in s
  }

  /** s has the objects of d, what they refer to, and so on, and nothing that it need not have for that. */
  ghost predicate Closure(bodies: map<Ref, Body>, d: set<Ref>, s: set<Ref>) {
    && d * bodies.Keys <= s <= bodies.Keys && Follows(bodies, s)
    && forall s': set<Ref> :: d * bodies.Keys <= s' && Follows(bodies, s') ==> s <= s'
  }

  /** The objects that the program refers to, and those that nothing registered leads to. */
  ghost function Anchored(bodies: map<Ref, Body>, roots: multiset<Ref>, reached: set<Ref>): set<Ref> {
    set r | r in bodies && (roots[r] > 0 || r !in reached)
  }

  /** What a collection leaves alive. */
  ghost predicate Survivors(bodies: map<Ref, Body>, roots: multiset<Ref>, registered: set<Ref>, alive: set<Ref>) {
    exists reached :: Closure(bodies, registered, reached) && Closure(bodies, Anchored(bodies, roots, reached), alive)
  }

  /** The objects of c that the program or an object outside c refers to. */
  ghost function Outside(bodies: map<Ref, Body>, roots: multiset<Ref>, c: set<Ref>): set<Ref> {
    set r | r in c && (roots[r] > 0 || exists x :: x in bodies && x !in c && Refers(bodies[x], r))
  }

  /** What trial deletion from one object takes: what it leads to, but for what is led to from outside. */
  ghost predicate Taken(bodies: map<Ref, Body>, roots: multiset<Ref>, data: Ref, gone: set<Ref>) {
    exists c, kept :: Closure(bodies, {data}, c) && Closure(bodies, Outside(bodies, roots, c), kept) && gone == c - kept
  }

  lemma FollowsIs(bodies: map<Ref, Body>, g: Graph, s: set<Ref>)
    requires References(bodies, g)
    ensures Follows(bodies, s) <==> Successors(g, s)
  {
    forall r, k | r in bodies ensures k in g[r] <==> Refers(bodies[r], k) {
      FollowsWhatIsHeld(bodies[r], k);
    }
  }

  /** Reachability in the graph is the closure on the objects. */
  lemma ReachIsClosure(bodies: map<Ref, Body>, g: Graph, d: set<Ref>)
    requires References(bodies, g)
    ensures Closure(bodies, d, Reach(g, d))
  {
    var s := Reach(g, d);
    ReachClosed(g, d);
    FollowsIs(bodies, g, s);
    forall s': set<Ref> | d * bodies.Keys <= s' && Follows(bodies, s') ensures s <= s' {
      FollowsIs(bodies, g, s' * bodies.Keys);
      FollowsPart(bodies, s');
      ReachWithin(g, d);
      ReachLeast(g, d * g.Keys, s' * bodies.Keys);
    }
  }

  lemma FollowsPart(bodies: map<Ref, Body>, s: set<Ref>)
    requires Follows(bodies, s)
    ensures Follows(bodies, s * bodies.Keys)
  {
  }

  lemma ReachWithin(g: Graph, d: set<Ref>)
    ensures Reach(g, d) == Reach(g, d * g.Keys)
  {
    forall a, b | Reaches(g, a, b) ensures a in g {
      var p :| IsPath(g, a, p, b);
    }
  }

  /** What survives is determined by the objects, what the program refers to, and what is registered. */
  lemma OneOutcome(bodies: map<Ref, Body>, roots: multiset<Ref>, registered: set<Ref>, alive: set<Ref>, alive': set<Ref>)
    requires Survivors(bodies, roots, registered, alive) && Survivors(bodies, roots, registered, alive')
    ensures alive == alive'
  {
    var x :| Closure(bodies, registered, x) && Closure(bodies, Anchored(bodies, roots, x), alive);
    var y :| Closure(bodies, registered, y) && Closure(bodies, Anchored(bodies, roots, y), alive');
    assert x == y;
  }

  /** A cycle through an array and its subarray, registered but not referred to, does not survive. */
  lemma ArrayCycle(a: Ref, s: Ref, alive: set<Ref>)
    requires Survivors(map[a := Array(s), s := Cellular([a])], multiset{}, {a, s}, alive)
    ensures alive == {}
  {
    var bodies := map[a := Array(s), s := Cellular([a])];
    var reached :| Closure(bodies, {a, s}, reached) && Closure(bodies, Anchored(bodies, multiset{}, reached), alive);
    assert a in {a, s} * bodies.Keys && s in {a, s} * bodies.Keys;
    assert Anchored(bodies, multiset{}, reached) == {};
    assert Follows(bodies, {});
  }
}
