/**
 AVL trees as mathematical objects: what the linked nodes of datastructures.c
 stand for.  A position in a tree is a zipper: the subtree there and the path
 back to the root.
 */
module AvlTrees {
  /** A node's address, stored word and stored balance factor. */
  datatype Tree = Leaf | Node(l: Tree, a: nat, d: nat, bf: int, r: Tree)

  datatype Path =
    | Top
    | InLeft(up: Path, a: nat, d: nat, bf: int, r: Tree)
    | InRight(up: Path, a: nat, d: nat, bf: int, l: Tree)

  datatype Entry = Entry(a: nat, d: nat)

  function Max(x: nat, y: nat): nat { if x < y then y else x }

  function Height(t: Tree): nat {
    match t
    case Leaf => 0
    case Node(l, _, _, _, r) => 1 + Max(Height(l), Height(r))
  }

  /** Stored balance factors are the real height differences, within one. */
  predicate Balanced(t: Tree) {
    match t
    case Leaf => true
    case Node(l, _, _, bf, r) => bf == Height(r) - Height(l) && -1 <= bf <= 1 && Balanced(l) && Balanced(r)
  }

  function Entries(t: Tree): seq<Entry> {
    match t
    case Leaf => []
    case Node(l, a, d, _, r) => Entries(l) + [Entry(a, d)] + Entries(r)
  }

  function Addrs(t: Tree): set<nat> {
    match t
    case Leaf => {}
    case Node(l, a, _, _, r) => Addrs(l) + {a} + Addrs(r)
  }

  /** No address occurs twice. */
  predicate Distinct(t: Tree) {
    match t
    case Leaf => true
    case Node(l, a, _, _, r) =>
      a !in Addrs(l) && a !in Addrs(r) && Addrs(l) !! Addrs(r) && Distinct(l) && Distinct(r)
  }

  function NewLeaf(nd: nat, d: nat): Tree { Node(Leaf, nd, d, 0, Leaf) }

  function Addr(t: Tree): nat { if t.Leaf? then 0 else t.a }

  // ------------------------------------------------------------------ paths

  function Plug(c: Path, t: Tree): Tree {
    match c
    case Top => t
    case InLeft(up, a, d, bf, r) => Plug(up, Node(t, a, d, bf, r))
    case InRight(up, a, d, bf, l) => Plug(up, Node(l, a, d, bf, t))
  }

  function PathAddr(c: Path): nat { if c.Top? then 0 else c.a }

  function PathAddrs(c: Path): set<nat> {
    match c
    case Top => {}
    case InLeft(up, a, _, _, r) => PathAddrs(up) + {a} + Addrs(r)
    case InRight(up, a, _, _, l) => PathAddrs(up) + {a} + Addrs(l)
  }

  predicate PathDistinct(c: Path) {
    match c
    case Top => true
    case InLeft(up, a, _, _, r) =>
      a !in Addrs(r) && a !in PathAddrs(up) && Addrs(r) !! PathAddrs(up) && Distinct(r) && PathDistinct(up)
    case InRight(up, a, _, _, l) =>
      a !in Addrs(l) && a !in PathAddrs(up) && Addrs(l) !! PathAddrs(up) && Distinct(l) && PathDistinct(up)
  }

  /** The tree is balanced if a balanced subtree of height h is plugged in. */
  predicate PathBalanced(c: Path, h: nat) {
    match c
    case Top => true
    case InLeft(up, _, _, bf, r) =>
      bf == Height(r) - h && -1 <= bf <= 1 && Balanced(r) && PathBalanced(up, 1 + Max(h, Height(r)))
    case InRight(up, _, _, bf, l) =>
      bf == h - Height(l) && -1 <= bf <= 1 && Balanced(l) && PathBalanced(up, 1 + Max(h, Height(l)))
  }

  /** The entries to the left of a position, and those to its right. */
  function Before(c: Path): seq<Entry> {
    match c
    case Top => []
    case InLeft(up, _, _, _, _) => Before(up)
    case InRight(up, a, d, _, l) => Before(up) + Entries(l) + [Entry(a, d)]
  }

  function After(c: Path): seq<Entry> {
    match c
    case Top => []
    case InLeft(up, a, d, _, r) => [Entry(a, d)] + Entries(r) + After(up)
    case InRight(up, _, _, _, _) => After(up)
  }

  lemma {:induction false} PlugEntries(c: Path, t: Tree)
    ensures Entries(Plug(c, t)) == Before(c) + Entries(t) + After(c)
  {
    match c {
      case Top =>
      case InLeft(up, a, d, bf, r) =>
        PlugEntries(up, Node(t, a, d, bf, r));
        EntriesLeft(Before(up), Entries(t), Entry(a, d), Entries(r), After(up));
      case InRight(up, a, d, bf, l) =>
        PlugEntries(up, Node(l, a, d, bf, t));
        EntriesRight(Before(up), Entries(l), Entry(a, d), Entries(t), After(up));
    }
  }

  lemma EntriesLeft(b: seq<Entry>, x: seq<Entry>, e: Entry, y: seq<Entry>, z: seq<Entry>)
    ensures b + (x + [e] + y) + z == b + x + ([e] + y + z)
  {
  }

  lemma EntriesRight(b: seq<Entry>, x: seq<Entry>, e: Entry, y: seq<Entry>, z: seq<Entry>)
    ensures b + (x + [e] + y) + z == (b + x + [e]) + y + z
  {
  }

  lemma {:induction false} PlugBalanced(c: Path, t: Tree)
    requires PathBalanced(c, Height(t)) && Balanced(t)
    ensures Balanced(Plug(c, t))
  {
    match c {
      case Top =>
      case InLeft(up, a, d, bf, r) => PlugBalanced(up, Node(t, a, d, bf, r));
      case InRight(up, a, d, bf, l) => PlugBalanced(up, Node(l, a, d, bf, t));
    }
  }

  lemma {:induction false} PlugAddrs(c: Path, t: Tree)
    ensures Addrs(Plug(c, t)) == PathAddrs(c) + Addrs(t)
  {
    match c {
      case Top =>
      case InLeft(up, a, d, bf, r) => PlugAddrs(up, Node(t, a, d, bf, r));
      case InRight(up, a, d, bf, l) => PlugAddrs(up, Node(l, a, d, bf, t));
    }
  }

  ghost predicate HasAddr(s: seq<Entry>, x: nat) { exists i :: 0 <= i < |s| && s[i].a == x }

  lemma HasAddrConcat(s: seq<Entry>, e: Entry, u: seq<Entry>, x: nat)
    ensures HasAddr(s + [e] + u, x) <==> HasAddr(s, x) || e.a == x || HasAddr(u, x)
  {
    var v := s + [e] + u;
    if i :| 0 <= i < |s| && s[i].a == x { assert v[i].a == x; }
    assert v[|s|] == e;
    if i :| 0 <= i < |u| && u[i].a == x { assert v[|s| + 1 + i].a == x; }
    if i :| 0 <= i < |v| && v[i].a == x {
      if i > |s| { assert u[i - |s| - 1].a == x; }
    }
  }

  lemma {:induction false} EntryAddrs(t: Tree, x: nat)
    ensures x in Addrs(t) <==> HasAddr(Entries(t), x)
  {
    match t {
      case Leaf =>
      case Node(l, a, d, _, r) =>
        EntryAddrs(l, x);
        EntryAddrs(r, x);
        HasAddrConcat(Entries(l), Entry(a, d), Entries(r), x);
    }
  }

  // ------------------------------------------------------------ the way down

  /** The leftmost node of a tree, and the path to it. */
  function LeftmostPath(c: Path, t: Tree): Path
    requires t.Node?
    decreases t
  {
    if t.l.Leaf? then c else LeftmostPath(InLeft(c, t.a, t.d, t.bf, t.r), t.l)
  }

  function Leftmost(t: Tree): (first: Tree)
    requires t.Node?
    ensures first.Node? && first.l.Leaf? && first.a in Addrs(t)
  {
    if t.l.Leaf? then t else Leftmost(t.l)
  }

  lemma {:induction false} LeftmostIs(c: Path, t: Tree)
    requires t.Node?
    ensures Plug(LeftmostPath(c, t), Leftmost(t)) == Plug(c, t)
    ensures Before(LeftmostPath(c, t)) == Before(c)
    decreases t
  {
    if !t.l.Leaf? { LeftmostIs(InLeft(c, t.a, t.d, t.bf, t.r), t.l); }
  }

  lemma {:induction false} LeftmostBalanced(c: Path, t: Tree)
    requires t.Node? && PathBalanced(c, Height(t)) && Balanced(t)
    ensures PathBalanced(LeftmostPath(c, t), Height(Leftmost(t))) && Balanced(Leftmost(t))
    decreases t
  {
    if !t.l.Leaf? { LeftmostBalanced(InLeft(c, t.a, t.d, t.bf, t.r), t.l); }
  }

  // ------------------------------------------------- heights are logarithmic

  function Fib(n: nat): nat { if n < 2 then n else Fib(n - 1) + Fib(n - 2) }

  function Size(t: Tree): nat {
    match t
    case Leaf => 0
    case Node(l, _, _, _, r) => 1 + Size(l) + Size(r)
  }

  lemma {:induction false} FibMonotone(m: nat, n: nat)
    requires m <= n
    ensures Fib(m) <= Fib(n)
    decreases n - m
  {
    if m < n {
      FibMonotone(m + 1, n);
      if m >= 1 { assert Fib(m + 1) == Fib(m) + Fib(m - 1); }
    }
  }

  /** A balanced tree of height h has at least Fib(h + 2) - 1 nodes. */
  lemma {:induction false} FibonacciBound(t: Tree)
    requires Balanced(t)
    ensures Fib(Height(t) + 2) <= Size(t) + 1
  {
    hide *;
    match t {
      case Leaf => LeafBound();
      case Node(l, _, _, _, r) =>
        NodeParts(t);
        FibonacciBound(l);
        FibonacciBound(r);
        FibStep(Height(t), Height(l), Height(r));
    }
  }

  lemma LeafBound()
    ensures Fib(Height(Leaf) + 2) <= Size(Leaf) + 1
  {
  }

  lemma NodeParts(t: Tree)
    requires t.Node? && Balanced(t)
    ensures Balanced(t.l) && Balanced(t.r) && Size(t) == 1 + Size(t.l) + Size(t.r)
    ensures Height(t) == 1 + Max(Height(t.l), Height(t.r)) && -1 <= Height(t.r) - Height(t.l) <= 1
  {
  }

  lemma FibStep(h: nat, hl: nat, hr: nat)
    requires h == 1 + Max(hl, hr) && -1 <= hr - hl <= 1
    ensures Fib(h + 2) <= Fib(hl + 2) + Fib(hr + 2)
  {
    FibMonotone(h, hl + 2);
    FibMonotone(h, hr + 2);
  }

  lemma {:induction false} SizeIsEntries(t: Tree)
    ensures Size(t) == |Entries(t)|
  {
    match t {
      case Leaf =>
      case Node(l, _, _, _, r) =>
        SizeIsEntries(l);
        SizeIsEntries(r);
    }
  }

  // -------------------------------------------------------------- rotations

  /** The two shapes that a rotation exchanges. */
  function LeanRight(A: Tree, n: nat, dn: nat, bn: int, B: Tree, r: nat, dr: nat, br: int, C: Tree): Tree {
    Node(A, n, dn, bn, Node(B, r, dr, br, C))
  }

  function LeanLeft(A: Tree, n: nat, dn: nat, bn: int, B: Tree, r: nat, dr: nat, br: int, C: Tree): Tree {
    Node(Node(A, n, dn, bn, B), r, dr, br, C)
  }

  lemma LeanAddrs(A: Tree, n: nat, dn: nat, bn: int, B: Tree, r: nat, dr: nat, br: int, C: Tree, bn': int, br': int)
    ensures Addrs(LeanRight(A, n, dn, bn, B, r, dr, br, C)) == Addrs(LeanLeft(A, n, dn, bn', B, r, dr, br', C))
    ensures Distinct(LeanRight(A, n, dn, bn, B, r, dr, br, C)) <==> Distinct(LeanLeft(A, n, dn, bn', B, r, dr, br', C))
  {
  }

  /** Balance factors after a single rotation: (node, root), from the old factor of the new root. */
  function Levelled(side: int, was: int): (int, int) { if was != 0 then (0, 0) else (side, -side) }

  function RotL(t: Tree): Tree
    requires t.Node? && t.r.Node?
  {
    var b := Levelled(1, t.r.bf);
    LeanLeft(t.l, t.a, t.d, b.0, t.r.l, t.r.a, t.r.d, b.1, t.r.r)
  }

  function RotR(t: Tree): Tree
    requires t.Node? && t.l.Node?
  {
    var b := Levelled(-1, t.l.bf);
    LeanRight(t.l.l, t.l.a, t.l.d, b.1, t.l.r, t.a, t.d, b.0, t.r)
  }

  /** What the two double rotations leave, for the old factor of the grandchild that becomes the root. */
  function RotLR(t: Tree): Tree
    requires t.Node? && t.l.Node? && t.l.r.Node?
  {
    var g := t.l.r;
    Node(Node(t.l.l, t.l.a, t.l.d, if g.bf == 1 then -1 else 0, g.l), g.a, g.d, 0,
         Node(g.r, t.a, t.d, if g.bf == -1 then 1 else 0, t.r))
  }

  function RotRL(t: Tree): Tree
    requires t.Node? && t.r.Node? && t.r.l.Node?
  {
    var g := t.r.l;
    Node(Node(t.l, t.a, t.d, if g.bf == 1 then -1 else 0, g.l), g.a, g.d, 0,
         Node(g.r, t.r.a, t.r.d, if g.bf == -1 then 1 else 0, t.r.r))
  }

  lemma RotAddrs(t: Tree)
    requires t.Node?
    ensures t.r.Node? ==> Addrs(RotL(t)) == Addrs(t) && RotL(t).Node?
    ensures t.l.Node? ==> Addrs(RotR(t)) == Addrs(t) && RotR(t).Node?
  {
  }

  lemma ShapeLR(t: Tree)
    requires t.Node? && t.l.Node? && t.l.r.Node?
    ensures var t1, g := Node(RotL(t.l), t.a, t.d, t.bf, t.r), t.l.r;
            && Addrs(t1) == Addrs(t) && t1.l.Node?
            && var t2 := RotR(t1);
            && Addrs(t2) == Addrs(t) && t2.Node? && t2.l.Node? && t2.r.Node? && t2.l.a == t.l.a && t2.r.a == t.a && t2.a == g.a
            && RotLR(t) == Node(t2.l.(bf := if g.bf == 1 then -1 else 0), t2.a, t2.d, 0, t2.r.(bf := if g.bf == -1 then 1 else 0))
  {
    RotAddrs(t.l);
    RotAddrs(Node(RotL(t.l), t.a, t.d, t.bf, t.r));
  }

  lemma ShapeRL(t: Tree)
    requires t.Node? && t.r.Node? && t.r.l.Node?
    ensures var t1, g := Node(t.l, t.a, t.d, t.bf, RotR(t.r)), t.r.l;
            && Addrs(t1) == Addrs(t) && t1.r.Node?
            && var t2 := RotL(t1);
            && Addrs(t2) == Addrs(t) && t2.Node? && t2.l.Node? && t2.r.Node? && t2.l.a == t.a && t2.r.a == t.r.a && t2.a == g.a
            && RotRL(t) == Node(t2.l.(bf := if g.bf == 1 then -1 else 0), t2.a, t2.d, 0, t2.r.(bf := if g.bf == -1 then 1 else 0))
  {
    RotAddrs(t.r);
    RotAddrs(Node(t.l, t.a, t.d, t.bf, RotR(t.r)));
  }
}
