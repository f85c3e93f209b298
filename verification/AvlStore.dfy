/** The AVL operations of datastructures.c on linked nodes in memory. */
module AvlStore {
  import opened AvlTrees
  import opened AvlMemory
  import opened AvlSearch
  import opened AvlBalance

  /** What the fields of a node and of its parent hold. */
  lemma Fields(mem: Memory, root: nat, c: Path, t: Tree)
    requires Holds(mem, root, c, t) && t.Node?
    ensures t.a in mem && t.a != 0 && mem[t.a].left == Addr(t.l) && mem[t.a].right == Addr(t.r) && mem[t.a].data == t.d
    ensures ParentOf(mem[t.a].prev) == PathAddr(c) && BalanceOf(mem[t.a].prev) == t.bf && -1 <= t.bf <= 1
    ensures mem[t.a].prev == Pack(PathAddr(c), t.bf)
    ensures !c.Top? ==> c.a in mem && c.a != 0 && c.a != t.a && (mem[c.a].left == t.a <==> c.InLeft?)
  {
    PackUnpack(PathAddr(c), t.bf, 0, 0);
    if !c.Top? { Side(mem, root, c, t); }
  }

  lemma Child(mem: Memory, root: nat, c: Path, t: Tree)
    requires Holds(mem, root, c, t) && t.Node?
    ensures t.l.Node? ==> t.l.a in mem && t.l.a != 0 && t.l.a != t.a && t.l.a !in PathAddrs(c) && t.l.a !in Addrs(t.r) && BalanceOf(mem[t.l.a].prev) == t.l.bf
    ensures t.r.Node? ==> t.r.a in mem && t.r.a != 0 && t.r.a != t.a && t.r.a !in PathAddrs(c) && t.r.a !in Addrs(t.l) && BalanceOf(mem[t.r.a].prev) == t.r.bf
    ensures !c.Top? ==> c.a !in Addrs(t)
  {
    if t.l.Node? { DownLeft(mem, root, c, t); Fields(mem, root, InLeft(c, t.a, t.d, t.bf, t.r), t.l); }
    if t.r.Node? { DownRight(mem, root, c, t); Fields(mem, root, InRight(c, t.a, t.d, t.bf, t.l), t.r); }
  }

  /** The cells of a single rotation: subtree b changes parent, the position is redirected, node n and root r are rewritten. */
  ghost predicate RotationCells(m0: Memory, m1: Memory, m2: Memory, m3: Memory, root: nat, root': nat, c: Path,
                                b: Tree, n: nat, cn: Cell, r: nat, cr: Cell) {
    && (b.Leaf? ==> m1 == m0)
    && (b.Node? ==> b.a in m0 && m1 == m0[b.a := m0[b.a].(prev := WithParent(m0[b.a].prev, n))])
    && Redirected(m1, m2, root, root', c, r) && Within(m1, m2, if c.Top? then {} else {c.a})
    && m3 == m2[n := cn][r := cr]
  }

  /** The nodes involved are different nodes, and there is no further link among them. */
  ghost predicate Apart(mem: Memory, c: Path, a: Tree, n: nat, b: Tree, r: nat, k: Tree) {
    && n in mem && r in mem && n != r && n != 0 && r != 0
    && n !in PathAddrs(c) && r !in PathAddrs(c)
    && n !in Addrs(a) && n !in Addrs(b) && n !in Addrs(k) && r !in Addrs(a) && r !in Addrs(b) && r !in Addrs(k)
    && PathAddrs(c) !! Addrs(a) && PathAddrs(c) !! Addrs(b) && PathAddrs(c) !! Addrs(k)
    && Addrs(a) !! Addrs(b) && Addrs(b) !! Addrs(k) && PathAddr(c) in PathAddrs(c) + {0}
    && (b.Node? ==> b.a in Addrs(b) && b.a in mem) && (!c.Top? ==> c.a in PathAddrs(c) && c.a in mem)
  }

  lemma SameCells(m0: Memory, m1: Memory, m2: Memory, root: nat, root': nat, c: Path, b: Tree, n: nat, r: nat)
    requires n in m0 && r in m0 && n !in PathAddrs(c) && r !in PathAddrs(c) && n !in Addrs(b) && r !in Addrs(b) && (!c.Top? ==> c.a in PathAddrs(c))
    requires b.Leaf? ==> m1 == m0
    requires b.Node? ==> b.a in Addrs(b) && b.a in m0 && m1 == m0[b.a := m0[b.a].(prev := WithParent(m0[b.a].prev, n))]
    requires Redirected(m1, m2, root, root', c, r) && Within(m1, m2, if c.Top? then {} else {c.a})
    ensures n in m2 && r in m2 && m2[n] == m0[n] && m2[r] == m0[r]
  {
  }

  lemma RotationKids(m0: Memory, m1: Memory, m2: Memory, m3: Memory, root: nat, root': nat, c: Path,
                     a: Tree, b: Tree, k: Tree, n: nat, cn: Cell, r: nat, cr: Cell)
    requires Apart(m0, c, a, n, b, r, k) && RotationCells(m0, m1, m2, m3, root, root', c, b, n, cn, r, cr)
    ensures Kids(m0, m3, a, b, k, n) && Within(m0, m3, PathAddrs(c) + Addrs(b) + {n, r})
  {
    hide WithParent, Addrs, PathAddrs;
  }

  lemma RotationSame(m0: Memory, m1: Memory, m2: Memory, m3: Memory, root: nat, root': nat, c: Path,
                     a: Tree, b: Tree, k: Tree, n: nat, cn: Cell, r: nat, cr: Cell)
    requires Apart(m0, c, a, n, b, r, k) && RotationCells(m0, m1, m2, m3, root, root', c, b, n, cn, r, cr)
    ensures Same(m0, m3, PathAddrs(c) - {PathAddr(c)}) && Kids(m0, m3, a, b, k, n)
    ensures Redirected(m0, m3, root, root', c, r) && m3[n] == cn && m3[r] == cr
    ensures Within(m0, m3, PathAddrs(c) + Addrs(b) + {n, r})
  {
    RotationKids(m0, m1, m2, m3, root, root', c, a, b, k, n, cn, r, cr);
    hide WithParent, Addrs, PathAddrs, Kids;
  }

  lemma ApartWhenHeld(mem: Memory, root: nat, c: Path, t: Tree)
    requires Holds(mem, root, c, t) && t.Node?
    ensures t.r.Node? ==> Apart(mem, c, t.l, t.a, t.r.l, t.r.a, t.r.r)
    ensures t.l.Node? ==> Apart(mem, c, t.l.l, t.a, t.l.r, t.l.a, t.r)
  {
    PathReprAddrs(mem, c, Addr(t));
    ReprAddrs(mem, t, PathAddr(c));
    match t.r {
      case Leaf =>
      case Node(l, _, _, _, r) => assert Distinct(t.r) && Addrs(t.r) == Addrs(l) + {t.r.a} + Addrs(r);
    }
    match t.l {
      case Leaf =>
      case Node(l, _, _, _, r) => assert Distinct(t.l) && Addrs(t.l) == Addrs(l) + {t.l.a} + Addrs(r);
    }
  }

  lemma RotationReads(mem: Memory, root: nat, c: Path, t: Tree)
    requires Holds(mem, root, c, t) && t.Node?
    ensures t.a in mem && mem[t.a].left == Addr(t.l) && mem[t.a].right == Addr(t.r)
    ensures ParentOf(mem[t.a].prev) == PathAddr(c) && (!c.Top? ==> c.a in mem && c.a != 0 && (mem[c.a].left == t.a <==> c.InLeft?))
    ensures t.r.Node? ==> t.r.a in mem && t.r.a != t.a && mem[t.r.a].left == Addr(t.r.l) && (t.r.l.Node? ==> t.r.l.a in mem && t.r.l.a != 0)
    ensures t.l.Node? ==> t.l.a in mem && t.l.a != t.a && mem[t.l.a].right == Addr(t.l.r) && (t.l.r.Node? ==> t.l.r.a in mem && t.l.r.a != 0)
    ensures t.r.Node? && t.r.l.Node? ==> t.r.l.a != t.a && t.r.l.a != t.r.a && t.r.l.a !in PathAddrs(c)
    ensures t.l.Node? && t.l.r.Node? ==> t.l.r.a != t.a && t.l.r.a != t.l.a && t.l.r.a !in PathAddrs(c)
    ensures !c.Top? ==> c.a in PathAddrs(c) && c.a !in Addrs(t)
    ensures t.r.Node? ==> Addr(t.r) == t.r.a && Addr(t.r.l) == if t.r.l.Node? then t.r.l.a else 0
    ensures t.l.Node? ==> Addr(t.l) == t.l.a && Addr(t.l.r) == if t.l.r.Node? then t.l.r.a else 0
  {
    Fields(mem, root, c, t);
    Child(mem, root, c, t);
    if t.r.Node? {
      DownRight(mem, root, c, t);
      Fields(mem, root, InRight(c, t.a, t.d, t.bf, t.l), t.r);
      Child(mem, root, InRight(c, t.a, t.d, t.bf, t.l), t.r);
    }
    if t.l.Node? {
      DownLeft(mem, root, c, t);
      Fields(mem, root, InLeft(c, t.a, t.d, t.bf, t.r), t.l);
      Child(mem, root, InLeft(c, t.a, t.d, t.bf, t.r), t.l);
    }
  }

  lemma WithinKeys(mem: Memory, mem': Memory, c: Path)
    requires Within(mem, mem', if c.Top? then {} else {c.a})
    ensures mem'.Keys == mem.Keys
  {
  }

  lemma LeftRotated(m0: Memory, m1: Memory, m2: Memory, m3: Memory, root: nat, root': nat, c: Path, t: Tree, parent: nat)
    requires Holds(m0, root, c, t) && t.Node? && t.r.Node?
    requires t.r.l.Leaf? ==> m1 == m0
    requires t.r.l.Node? ==> t.r.l.a in m0 && m1 == m0[t.r.l.a := m0[t.r.l.a].(prev := WithParent(m0[t.r.l.a].prev, t.a))]
    requires t.a in m1 && parent == ParentOf(m1[t.a].prev)
    requires Redirected(m1, m2, root, root', c, t.r.a) && Within(m1, m2, if c.Top? then {} else {c.a})
    requires t.a in m2 && t.r.a in m2
    requires m3 == var even := BalanceOf(m2[t.r.a].prev) == 0;
                   m2[t.a := m2[t.a].(right := m2[t.r.a].left, prev := Pack(t.r.a, if even then 1 else 0))]
                     [t.r.a := m2[t.r.a].(left := t.a, prev := Pack(parent, if even then -1 else 0))]
    ensures Holds(m3, root', c, RotL(t)) && Within(m0, m3, PathAddrs(c) + Addrs(t))
  {
    var n, r, b := t.a, t.r.a, Levelled(1, t.r.bf);
    ApartWhenHeld(m0, root, c, t);
    Fields(m0, root, c, t);
    DownRight(m0, root, c, t);
    Fields(m0, root, InRight(c, t.a, t.d, t.bf, t.l), t.r);
    hide Pack, ParentOf, BalanceOf, WithParent, Holds, Distinct, PathDistinct, Same, Kids;
    SameCells(m0, m1, m2, root, root', c, t.r.l, n, r);
    hide Redirected;
    RotationSame(m0, m1, m2, m3, root, root', c, t.l, t.r.l, t.r.r, n, m3[n], r, m3[r]);
    hide Apart, RotationCells;
    RotatedLeft(m0, m3, root, root', c, t.l, n, t.d, t.bf, t.r.l, r, t.r.d, t.r.bf, t.r.r, b.0, b.1);
  }

  lemma RightRotated(m0: Memory, m1: Memory, m2: Memory, m3: Memory, root: nat, root': nat, c: Path, t: Tree, parent: nat)
    requires Holds(m0, root, c, t) && t.Node? && t.l.Node?
    requires t.l.r.Leaf? ==> m1 == m0
    requires t.l.r.Node? ==> t.l.r.a in m0 && m1 == m0[t.l.r.a := m0[t.l.r.a].(prev := WithParent(m0[t.l.r.a].prev, t.a))]
    requires t.a in m1 && parent == ParentOf(m1[t.a].prev)
    requires Redirected(m1, m2, root, root', c, t.l.a) && Within(m1, m2, if c.Top? then {} else {c.a})
    requires t.a in m2 && t.l.a in m2
    requires m3 == var even := BalanceOf(m2[t.l.a].prev) == 0;
                   m2[t.a := m2[t.a].(left := m2[t.l.a].right, prev := Pack(t.l.a, if even then -1 else 0))]
                     [t.l.a := m2[t.l.a].(right := t.a, prev := Pack(parent, if even then 1 else 0))]
    ensures Holds(m3, root', c, RotR(t)) && Within(m0, m3, PathAddrs(c) + Addrs(t))
  {
    var n, r, b := t.a, t.l.a, Levelled(-1, t.l.bf);
    ApartWhenHeld(m0, root, c, t);
    Fields(m0, root, c, t);
    DownLeft(m0, root, c, t);
    Fields(m0, root, InLeft(c, t.a, t.d, t.bf, t.r), t.l);
    hide Pack, ParentOf, BalanceOf, WithParent, Holds, Distinct, PathDistinct, Same, Kids;
    SameCells(m0, m1, m2, root, root', c, t.l.r, n, r);
    hide Redirected;
    RotationSame(m0, m1, m2, m3, root, root', c, t.l.l, t.l.r, t.r, n, m3[n], r, m3[r]);
    hide Apart, RotationCells;
    RotatedRight(m0, m3, root, root', c, t.l.l, r, t.l.d, t.l.bf, t.l.r, n, t.d, t.bf, t.r, b.1, b.0);
  }

  lemma BalanceLeft(mem: Memory, mem': Memory, root: nat, c: Path, t: Tree, bf: int)
    requires Holds(mem, root, c, t) && t.Node? && t.l.Node? && -1 <= bf <= 1 && t.l.a in mem
    requires mem' == mem[t.l.a := mem[t.l.a].(prev := WithBalance(mem[t.l.a].prev, bf))]
    ensures Holds(mem', root, c, t.(l := t.l.(bf := bf)))
  {
    hide Holds;
    DownLeft(mem, root, c, t);
    Rebalanced(mem, mem', root, InLeft(c, t.a, t.d, t.bf, t.r), t.l, bf);
    Up(mem', root, InLeft(c, t.a, t.d, t.bf, t.r), t.l.(bf := bf));
  }

  lemma BalanceRight(mem: Memory, mem': Memory, root: nat, c: Path, t: Tree, bf: int)
    requires Holds(mem, root, c, t) && t.Node? && t.r.Node? && -1 <= bf <= 1 && t.r.a in mem
    requires mem' == mem[t.r.a := mem[t.r.a].(prev := WithBalance(mem[t.r.a].prev, bf))]
    ensures Holds(mem', root, c, t.(r := t.r.(bf := bf)))
  {
    hide Holds;
    DownRight(mem, root, c, t);
    Rebalanced(mem, mem', root, InRight(c, t.a, t.d, t.bf, t.l), t.r, bf);
    Up(mem', root, InRight(c, t.a, t.d, t.bf, t.l), t.r.(bf := bf));
  }

  lemma ChildParent(mem: Memory, root: nat, c: Path, t: Tree)
    requires Holds(mem, root, c, t) && t.Node?
    ensures t.a in mem && t.a in Addrs(t)
    ensures t.l.Node? ==> t.l.a in mem && ParentOf(mem[t.l.a].prev) == t.a
    ensures t.r.Node? ==> t.r.a in mem && ParentOf(mem[t.r.a].prev) == t.a
  {
    Fields(mem, root, c, t);
    if t.r.Node? {
      DownRight(mem, root, c, t);
      Fields(mem, root, InRight(c, t.a, t.d, t.bf, t.l), t.r);
    }
    if t.l.Node? {
      DownLeft(mem, root, c, t);
      Fields(mem, root, InLeft(c, t.a, t.d, t.bf, t.r), t.l);
    }
  }

  lemma WithinRefl(m: Memory, s: set<nat>)
    ensures Within(m, m, s)
  {
  }

  lemma WithinTrans(m0: Memory, m1: Memory, m2: Memory, s1: set<nat>, s2: set<nat>, s: set<nat>)
    requires Within(m0, m1, s1) && Within(m1, m2, s2) && s1 <= s && s2 <= s
    ensures Within(m0, m2, s)
  {
  }

  lemma WithinOne(m0: Memory, m1: Memory, m2: Memory, s: set<nat>, a: nat, v: Cell)
    requires Within(m0, m1, s) && m2 == m1[a := v] && a in m1 && a in s
    ensures Within(m0, m2, s)
  {
  }

  lemma ChildPathAddrs(c: Path, t: Tree)
    requires t.Node?
    ensures PathAddrs(InLeft(c, t.a, t.d, t.bf, t.r)) + Addrs(t.l) == PathAddrs(c) + Addrs(t)
    ensures PathAddrs(InRight(c, t.a, t.d, t.bf, t.l)) + Addrs(t.r) == PathAddrs(c) + Addrs(t)
    ensures t.a in Addrs(t) && (t.l.Node? ==> t.l.a in Addrs(t)) && (t.r.Node? ==> t.r.a in Addrs(t))
  {
  }

  // ------------------------------------------------- the way back to the root

  /** Memory is focused on a position of a tree with addresses s and entries es. */
  ghost predicate Focus(mem: Memory, root: nat, c: Path, t: Tree, s: set<nat>, es: seq<Entry>) {
    Holds(mem, root, c, t) && PathAddrs(c) + Addrs(t) == s && Before(c) + Entries(t) + After(c) == es
  }

  lemma FocusUp(mem: Memory, root: nat, c: Path, t: Tree, s: set<nat>, es: seq<Entry>)
    requires Focus(mem, root, c, t, s, es) && t.Node? && !c.Top?
    ensures Focus(mem, root, c.up, Joined(c, t, c.bf), s, es)
    ensures c.a in mem && t.a != 0 && (mem[c.a].left == t.a <==> c.InLeft?) && BalanceOf(mem[c.a].prev) == c.bf
    ensures c.a in s && -1 <= c.bf <= 1
    ensures c.InLeft? ==> mem[c.a].right == Addr(c.r) && (c.r.Node? ==> c.r.a in mem && BalanceOf(mem[c.r.a].prev) == c.r.bf)
    ensures c.InRight? ==> mem[c.a].left == Addr(c.l) && (c.l.Node? ==> c.l.a in mem && BalanceOf(mem[c.l.a].prev) == c.l.bf)
    ensures c.InLeft? ==> mem[c.a].left == t.a
    ensures c.InRight? ==> mem[c.a].right == t.a
    ensures t.a in mem && BalanceOf(mem[t.a].prev) == t.bf
  {
    Up(mem, root, c, t);
    JoinedEntries(c, t, c.bf);
    var u := Joined(c, t, c.bf);
    Fields(mem, root, c, t);
    Fields(mem, root, c.up, u);
    Child(mem, root, c.up, u);
    ChildPathAddrs(c.up, u);
  }

  lemma FocusSet(mem: Memory, mem': Memory, root: nat, c: Path, t: Tree, bf: int, s: set<nat>, es: seq<Entry>)
    requires Focus(mem, root, c, t, s, es) && t.Node? && -1 <= bf <= 1 && t.a in mem
    requires mem' == mem[t.a := mem[t.a].(prev := WithBalance(mem[t.a].prev, bf))]
    ensures Focus(mem', root, c, t.(bf := bf), s, es) && ParentOf(mem'[t.a].prev) == PathAddr(c)
  {
    Rebalanced(mem, mem', root, c, t, bf);
    Fields(mem', root, c, t.(bf := bf));
  }

  lemma FocusTurned(mem: Memory, mem': Memory, root: nat, root': nat, c: Path, t: Tree, t': Tree, s: set<nat>, es: seq<Entry>)
    requires Focus(mem, root, c, t, s, es) && Holds(mem', root', c, t') && Entries(t') == Entries(t) && Addrs(t') == Addrs(t)
    ensures Focus(mem', root', c, t', s, es)
  {
  }

  /** A valid tree in memory. */
  ghost predicate Stored(mem: Memory, root: nat, tree: Tree, s: set<nat>, es: seq<Entry>) {
    Holds(mem, root, Top, tree) && Balanced(tree) && Entries(tree) == es && Addrs(tree) == s
  }

  lemma FocusDone(mem: Memory, root: nat, c: Path, t: Tree, s: set<nat>, es: seq<Entry>)
    requires Focus(mem, root, c, t, s, es) && Balanced(t) && PathBalanced(c, Height(t))
    ensures Stored(mem, root, Plug(c, t), s, es)
  {
    ToTop(mem, root, c, t);
    PlugBalanced(c, t);
    PlugEntries(c, t);
    PlugAddrs(c, t);
  }

  lemma NoAddr(mem: Memory, root: nat, c: Path, t: Tree, s: set<nat>, es: seq<Entry>)
    requires Focus(mem, root, c, t, s, es) && PathAddr(c) == 0
    ensures c.Top?
  {
    PathReprAddrs(mem, c, Addr(t));
  }

  lemma GrownTop(t: Tree)
    requires Grown(Top, t)
    ensures Balanced(t) && PathBalanced(Top, Height(t))
  {
  }

  lemma HoldsFrame(mem: Memory, mem': Memory, root: nat, c: Path, t: Tree)
    requires Holds(mem, root, c, t) && Same(mem, mem', PathAddrs(c) + Addrs(t))
    ensures Holds(mem', root, c, t)
  {
    PathFrame(mem, mem', c, Addr(t));
    ReprFrame(mem, mem', t, PathAddr(c));
  }

  /** A new leaf at an empty position. */
  lemma Attached(mem: Memory, mem': Memory, root: nat, root': nat, c: Path, nd: nat, d: nat)
    requires Holds(mem, root, c, Leaf) && nd != 0 && nd !in PathAddrs(c)
    requires nd in mem' && mem'[nd] == Cell(Pack(PathAddr(c), 0), 0, 0, d)
    requires Same(mem, mem', PathAddrs(c) - {PathAddr(c)}) && Redirected(mem, mem', root, root', c, nd)
    ensures Holds(mem', root', c, NewLeaf(nd, d))
  {
    PathAfter(mem, mem', root, root', c, 0, nd);
  }

  lemma LeafAddr(mem: Memory, root: nat, c: Path, t: Tree)
    requires Holds(mem, root, c, t) && Addr(t) == 0
    ensures t.Leaf?
  {
  }

  lemma BalancedDown(c: Path, t: Tree)
    requires PathBalanced(c, Height(t)) && Balanced(t) && t.Node?
    ensures PathBalanced(InLeft(c, t.a, t.d, t.bf, t.r), Height(t.l)) && Balanced(t.l)
    ensures PathBalanced(InRight(c, t.a, t.d, t.bf, t.l), Height(t.r)) && Balanced(t.r)
  {
  }

  /** Where a search for key k in a stored tree has got to. */
  ghost predicate Seeking(mem: Memory, root: nat, byAddr: bool, k: nat, c: Path, t: Tree, tree: Tree) {
    && Holds(mem, root, c, t) && Searching(byAddr, k, c, t, tree) && Sorted(byAddr, Entries(tree))
    && PathBalanced(c, Height(t)) && Balanced(t)
  }

  lemma SeekStep(mem: Memory, root: nat, byAddr: bool, k: nat, c: Path, t: Tree, tree: Tree)
    requires Seeking(mem, root, byAddr, k, c, t, tree) && t.Node?
    ensures t.a in mem && mem[t.a].left == Addr(t.l) && mem[t.a].right == Addr(t.r) && mem[t.a].data == t.d && t.l < t && t.r < t
    ensures var key := Key(byAddr, t.a, t.d);
            && (key > k ==> Seeking(mem, root, byAddr, k, InLeft(c, t.a, t.d, t.bf, t.r), t.l, tree))
            && (key < k ==> Seeking(mem, root, byAddr, k, InRight(c, t.a, t.d, t.bf, t.l), t.r, tree))
            && (key == k ==> HasKey(byAddr, Entries(tree), k))
  {
    hide Searching, Sorted, HasKey, Key, Holds, PathBalanced, Balanced, Height;
    BalancedDown(c, t);
    Fields(mem, root, c, t);
    SearchStep(byAddr, k, c, t, tree);
    DownLeft(mem, root, c, t);
    DownRight(mem, root, c, t);
  }

  lemma SeekEnd(mem: Memory, root: nat, byAddr: bool, k: nat, c: Path, t: Tree, tree: Tree)
    requires Seeking(mem, root, byAddr, k, c, t, tree) && Addr(t) == 0
    ensures t == Leaf && Holds(mem, root, c, Leaf) && Searching(byAddr, k, c, Leaf, tree) && PathBalanced(c, 0)
    ensures !HasKey(byAddr, Entries(tree), k)
  {
    LeafAddr(mem, root, c, t);
    SearchFailed(byAddr, k, c, tree);
  }

  /** s' is s with e added somewhere. */
  ghost predicate Inserted(s: seq<Entry>, s': seq<Entry>, e: Entry) { exists b, f :: s == b + f && s' == b + [e] + f }

  /** The new leaf fits where the search ended. */
  lemma PlaceFound(byAddr: bool, nd: nat, d: nat, c: Path, tree: Tree)
    requires Searching(byAddr, Key(byAddr, nd, d), c, Leaf, tree) && Sorted(byAddr, Entries(tree))
    ensures var es := Before(c) + Entries(NewLeaf(nd, d)) + After(c);
            Inserted(Entries(tree), es, Entry(nd, d)) && Sorted(byAddr, es)
    ensures PathAddrs(c) + Addrs(NewLeaf(nd, d)) == Addrs(tree) + {nd}
  {
    PlugAddrs(c, Leaf);
    SearchFailed(byAddr, Key(byAddr, nd, d), c, tree);
    SortedInsert(byAddr, Before(c), Entry(nd, d), After(c));
    assert Entries(NewLeaf(nd, d)) == [Entry(nd, d)];
  }

  lemma SearchedPlace(byAddr: bool, k: nat, c: Path, t: Tree, tree: Tree)
    requires Searching(byAddr, k, c, t, tree)
    ensures Plug(c, t) == tree
  {
  }

  /** With a sibling present the parent's height stays; otherwise it grows. */
  lemma LeafGrown(c: Path, nd: nat, d: nat)
    requires PathBalanced(c, 0) && !c.Top?
    ensures Sibling(c).Leaf? ==> Grown(c, NewLeaf(nd, d))
    ensures Sibling(c).Node? ==> Balanced(Joined(c, NewLeaf(nd, d), 0)) && PathBalanced(c.up, Height(Joined(c, NewLeaf(nd, d), 0)))
  {
  }

  /** Nodes outside s keep their contents; nd may be new. */
  ghost predicate Beyond(mem: Memory, mem': Memory, s: set<nat>, nd: nat) {
    mem'.Keys == mem.Keys + {nd} && forall x :: x in mem && x !in s && x != nd ==> mem'[x] == mem[x]
  }

  lemma BeyondWithin(m0: Memory, m1: Memory, m2: Memory, s: set<nat>, nd: nat)
    requires Beyond(m0, m1, s, nd) && Within(m1, m2, s + {nd})
    ensures Beyond(m0, m2, s, nd)
  {
  }

  lemma BeyondTwice(m0: Memory, m1: Memory, m2: Memory, s: set<nat>, nd: nat)
    requires m1.Keys == m0.Keys + {nd} && (forall x :: x in m0 && x != nd ==> m1[x] == m0[x]) && Beyond(m1, m2, s, nd)
    ensures Beyond(m0, m2, s, nd)
  {
  }

  lemma LeafIsAttached(m0: Memory, m1: Memory, m2: Memory, root: nat, c: Path, nd: nat, d: nat, s: set<nat>)
    requires Holds(m0, root, c, Leaf) && !c.Top? && nd != 0 && nd !in PathAddrs(c) && PathAddrs(c) <= s
    requires m1 == m0[nd := Cell(Pack(PathAddr(c), 0), 0, 0, d)] && c.a in m1
    requires m2 == m1[c.a := if c.InLeft? then m1[c.a].(left := nd) else m1[c.a].(right := nd)]
    ensures Holds(m2, root, c, NewLeaf(nd, d)) && Beyond(m0, m2, s, nd)
    ensures nd in m2 && m2[nd] == Cell(Pack(c.a, 0), 0, 0, d) && ParentOf(m2[nd].prev) == c.a
  {
    PathReprAddrs(m0, c, 0);
    PackUnpack(c.a, 0, 0, 0);
    Attached(m0, m2, root, root, c, nd, d);
  }

  lemma PathNotTop(c: Path, tree: Tree, byAddr: bool, k: nat)
    requires tree.Node? && Searching(byAddr, k, c, Leaf, tree)
    ensures !c.Top? && PathAddrs(c) == Addrs(tree)
  {
    PlugAddrs(c, Leaf);
  }

  lemma PathMember(mem: Memory, root: nat, c: Path)
    requires Holds(mem, root, c, Leaf) && !c.Top?
    ensures c.a in mem && c.a in PathAddrs(c)
  {
  }

  lemma SiblingSeen(mem: Memory, root: nat, c: Path, t: Tree, s: set<nat>, es: seq<Entry>)
    requires Focus(mem, root, c, t, s, es) && t.Node? && !c.Top?
    ensures c.a in mem && c.a != 0 && c.a in s && ((mem[c.a].left != 0 && mem[c.a].right != 0) <==> Sibling(c).Node?)
  {
    FocusUp(mem, root, c, t, s, es);
    Child(mem, root, c.up, Joined(c, t, c.bf));
    Fields(mem, root, c, t);
  }

  // ----------------------------------------------------------------- deletion

  /** FocusUp for a position that may be empty. */
  lemma FocusParent(mem: Memory, root: nat, c: Path, t: Tree, s: set<nat>, es: seq<Entry>)
    requires Focus(mem, root, c, t, s, es) && !c.Top?
    ensures Focus(mem, root, c.up, Joined(c, t, c.bf), s, es)
    ensures c.a in mem && c.a != 0 && BalanceOf(mem[c.a].prev) == c.bf && ParentOf(mem[c.a].prev) == PathAddr(c.up) && c.a in s
    ensures !c.up.Top? ==> c.up.a in mem && c.up.a != 0 && (mem[c.up.a].left == c.a <==> c.up.InLeft?)
    ensures c.InLeft? ==> mem[c.a].right == Addr(c.r) && (c.r.Node? ==> c.r.a in mem && BalanceOf(mem[c.r.a].prev) == c.r.bf)
    ensures c.InRight? ==> mem[c.a].left == Addr(c.l) && (c.l.Node? ==> c.l.a in mem && BalanceOf(mem[c.l.a].prev) == c.l.bf)
  {
    Up(mem, root, c, t);
    JoinedEntries(c, t, c.bf);
    var u := Joined(c, t, c.bf);
    Fields(mem, root, c.up, u);
    Child(mem, root, c.up, u);
    ChildPathAddrs(c.up, u);
  }

  /** u' is a rotation of u that repairs a shrunk position below c; even when the height stays. */
  ghost predicate Repairs(c: Path, u: Tree, u': Tree, even: bool) {
    && Entries(u') == Entries(u) && Addrs(u') == Addrs(u) && u'.Node?
    && (even ==> Balanced(u') && PathBalanced(c, Height(u'))) && (!even ==> Shrunk(c, u'))
  }

  lemma FocusIs(mem: Memory, root: nat, c: Path, t: Tree, s: set<nat>, es: seq<Entry>)
    requires Focus(mem, root, c, t, s, es)
    ensures Holds(mem, root, c, t) && PathAddrs(c) + Addrs(t) == s
  {
  }

  lemma RightRepairs(mem: Memory, root: nat, c: Path, t: Tree, s: set<nat>, es: seq<Entry>) returns (u: Tree)
    requires Focus(mem, root, c, t, s, es) && Shrunk(c, t) && c.InRight? && c.bf == -1
    ensures Holds(mem, root, c.up, u) && Focus(mem, root, c.up, u, s, es) && u.Node? && u.a == c.a && u.l.Node? && PathAddrs(c.up) + Addrs(u) == s
    ensures u.a in mem && u.l.a in mem && mem[u.a].left == u.l.a && BalanceOf(mem[u.l.a].prev) == u.l.bf
    ensures u.l.bf == 1 ==> u.l.r.Node? && Repairs(c.up, u, RotLR(u), false)
    ensures u.l.bf != 1 ==> Repairs(c.up, u, RotR(u), u.l.bf == 0)
  {
    hide Focus, Shrunk, Balanced, PathBalanced, Height, BalanceOf, Holds, Entries, Addrs, PathAddrs, Before, After, RotL, RotR, RotLR, RotRL;
    u := Joined(c, t, c.bf);
    FocusParent(mem, root, c, t, s, es);
    ShrunkRight(c, t);
    RotEntries(u);
    RotAddrs(u);
    DoubleEntries(u);
    FocusIs(mem, root, c.up, u, s, es);
  }

  lemma LeftRepairs(mem: Memory, root: nat, c: Path, t: Tree, s: set<nat>, es: seq<Entry>) returns (u: Tree)
    requires Focus(mem, root, c, t, s, es) && Shrunk(c, t) && c.InLeft? && c.bf == 1
    ensures Holds(mem, root, c.up, u) && Focus(mem, root, c.up, u, s, es) && u.Node? && u.a == c.a && u.r.Node? && PathAddrs(c.up) + Addrs(u) == s
    ensures u.a in mem && u.r.a in mem && mem[u.a].right == u.r.a && BalanceOf(mem[u.r.a].prev) == u.r.bf
    ensures u.r.bf == -1 ==> u.r.l.Node? && Repairs(c.up, u, RotRL(u), false)
    ensures u.r.bf != -1 ==> Repairs(c.up, u, RotL(u), u.r.bf == 0)
  {
    hide Focus, Shrunk, Balanced, PathBalanced, Height, BalanceOf, Holds, Entries, Addrs, PathAddrs, Before, After, RotL, RotR, RotLR, RotRL;
    u := Joined(c, t, c.bf);
    FocusParent(mem, root, c, t, s, es);
    ShrunkLeft(c, t);
    RotEntries(u);
    RotAddrs(u);
    DoubleEntries(u);
    FocusIs(mem, root, c.up, u, s, es);
  }

  lemma Repaired(mem: Memory, mem': Memory, root: nat, root': nat, c: Path, u: Tree, u': Tree, even: bool, s: set<nat>, es: seq<Entry>)
    requires Focus(mem, root, c, u, s, es) && Holds(mem', root', c, u') && Repairs(c, u, u', even)
    ensures Focus(mem', root', c, u', s, es) && u'.Node?
    ensures even ==> Balanced(u') && PathBalanced(c, Height(u'))
    ensures !even ==> Shrunk(c, u')
  {
  }

  lemma ShrunkTop(t: Tree)
    requires Shrunk(Top, t)
    ensures Balanced(t) && PathBalanced(Top, Height(t))
  {
  }

  lemma NoParent(mem: Memory, root: nat, c: Path, t: Tree, s: set<nat>, es: seq<Entry>)
    requires Focus(mem, root, c, t, s, es)
    ensures PathAddr(c) == 0 <==> c.Top?
  {
    PathReprAddrs(mem, c, Addr(t));
  }

  /** The node at address a, as a position. */
  lemma {:induction false} Locate(mem: Memory, root: nat, c: Path, t: Tree, a: nat) returns (c': Path, t': Tree)
    requires Holds(mem, root, c, t) && Balanced(t) && PathBalanced(c, Height(t)) && a in Addrs(t)
    ensures Holds(mem, root, c', t') && Balanced(t') && PathBalanced(c', Height(t')) && t'.Node? && t'.a == a
    ensures Plug(c', t') == Plug(c, t)
    decreases t
  {
    hide Holds, Balanced, PathBalanced, Height;
    if t.a == a {
      c', t' := c, t;
    } else {
      BalancedDown(c, t);
      if a in Addrs(t.l) {
        DownLeft(mem, root, c, t);
        c', t' := Locate(mem, root, InLeft(c, t.a, t.d, t.bf, t.r), t.l, a);
      } else {
        DownRight(mem, root, c, t);
        c', t' := Locate(mem, root, InRight(c, t.a, t.d, t.bf, t.l), t.r, a);
      }
    }
  }

  lemma DataSet(mem: Memory, mem': Memory, root: nat, c: Path, t: Tree, d: nat)
    requires Holds(mem, root, c, t) && t.Node? && t.a in mem && mem' == mem[t.a := mem[t.a].(data := d)]
    ensures Holds(mem', root, c, Node(t.l, t.a, d, t.bf, t.r))
  {
    PathFrame(mem, mem', c, t.a);
    ReprFrame(mem, mem', t.l, t.a);
    ReprFrame(mem, mem', t.r, t.a);
  }

  /** A node without left child is replaced by its right child. */
  lemma Spliced(mem: Memory, mem': Memory, root: nat, root': nat, c: Path, t: Tree)
    requires Holds(mem, root, c, t) && t.Node? && t.l.Leaf?
    requires Adopted(mem, mem', t.r, PathAddr(c)) && Redirected(mem, mem', root, root', c, Addr(t.r))
    requires Same(mem, mem', PathAddrs(c) - {PathAddr(c)}) && Same(mem, mem', Addrs(t.r) - {Addr(t.r)})
    ensures Holds(mem', root', c, t.r)
  {
    hide Redirected, Adopted, Same, PathRepr;
    PathAfter(mem, mem', root, root', c, t.a, Addr(t.r));
    SplicedChild(mem, mem', t, PathAddr(c));
  }

  lemma SplicedChild(mem: Memory, mem': Memory, t: Tree, up: nat)
    requires t.Node? && Repr(mem, t, up) && Distinct(t)
    requires Adopted(mem, mem', t.r, up) && Same(mem, mem', Addrs(t.r) - {Addr(t.r)})
    ensures Repr(mem', t.r, up)
  {
    Reparent(mem, mem', t.r, t.a, up);
  }

  lemma SpliceCells(m0: Memory, m1: Memory, m2: Memory, root: nat, c: Path, t: Tree)
    requires Holds(m0, root, c, t) && t.Node? && t.l.Leaf? && !c.Top?
    requires t.r.Leaf? ==> m1 == m0
    requires t.r.Node? ==> t.r.a in m0 && m1 == m0[t.r.a := m0[t.r.a].(prev := WithParent(m0[t.r.a].prev, c.a))]
    requires c.a in m1 && m2 == m1[c.a := if c.InLeft? then m1[c.a].(left := Addr(t.r)) else m1[c.a].(right := Addr(t.r))]
    ensures Holds(m2, root, c, t.r) && Within(m0, m2, PathAddrs(c) + Addrs(t))
  {
    Child(m0, root, c, t);
    Fields(m0, root, c, t);
    hide WithParent, Repr, PathRepr, BalanceOf, ParentOf, Pack;
    SpliceSame(m0, m1, m2, root, c, t.r);
    Spliced(m0, m2, root, root, c, t);
  }

  lemma SpliceSame(m0: Memory, m1: Memory, m2: Memory, root: nat, c: Path, b: Tree)
    requires !c.Top? && PathAddrs(c) !! Addrs(b) && PathDistinct(c) && Distinct(b)
    requires b.Leaf? ==> m1 == m0
    requires b.Node? ==> b.a in m0 && m1 == m0[b.a := m0[b.a].(prev := WithParent(m0[b.a].prev, c.a))]
    requires c.a in m0 && c.a in m1 && m2 == m1[c.a := if c.InLeft? then m1[c.a].(left := Addr(b)) else m1[c.a].(right := Addr(b))]
    ensures Adopted(m0, m2, b, c.a) && Redirected(m0, m2, root, root, c, Addr(b))
    ensures Same(m0, m2, PathAddrs(c) - {c.a}) && Same(m0, m2, Addrs(b) - {Addr(b)}) && Within(m0, m2, PathAddrs(c) + Addrs(b))
  {
  }

  /**
   Entries after deleting the node at a, when the memory given up is at x: a's entry is gone,
   and if x is not a, the neighbour stored at x has moved into a's node.
   */
  ghost predicate Removed(s: seq<Entry>, s': seq<Entry>, a: nat, x: nat) {
    exists b, f, d, e :: RemovedBetween(s, s', a, x, b, f, d, e)
  }

  ghost predicate RemovedBetween(s: seq<Entry>, s': seq<Entry>, a: nat, x: nat, b: seq<Entry>, f: seq<Entry>, d: nat, e: nat) {
    || (x == a && s == b + [Entry(a, d)] + f && s' == b + f)
    || (x != a && s == b + [Entry(a, d), Entry(x, e)] + f && s' == b + [Entry(a, e)] + f)
    || (x != a && s == b + [Entry(x, e), Entry(a, d)] + f && s' == b + [Entry(a, e)] + f)
  }

  /** Deletion keeps the order, whichever of the two keys the tree is searched by. */
  lemma RemovedSorted(byAddr: bool, s: seq<Entry>, s': seq<Entry>, a: nat, x: nat)
    requires Removed(s, s', a, x) && Sorted(byAddr, s)
    ensures Sorted(byAddr, s')
  {
    var b, f, d, e :| RemovedBetween(s, s', a, x, b, f, d, e);
    var p := if x == a || (s == b + [Entry(a, d), Entry(x, e)] + f) != byAddr then |b| + 1 else |b|;
    forall i | 0 <= i < |s'|
      ensures var i' := if i < |b| then i else if i == |b| then p else i + 1;
              i' < |s| && Key(byAddr, s'[i].a, s'[i].d) == Key(byAddr, s[i'].a, s[i'].d)
    {
    }
  }

  /** The words stored in a tree. */
  ghost function Datas(s: seq<Entry>): set<nat> { set i | 0 <= i < |s| :: s[i].d }

  lemma DatasConcat(x: seq<Entry>, y: seq<Entry>)
    ensures Datas(x + y) == Datas(x) + Datas(y)
  {
    var s := x + y;
    assert forall i :: 0 <= i < |x| ==> s[i] == x[i];
    assert forall i :: 0 <= i < |y| ==> s[|x| + i] == y[i];
  }

  lemma DatasParts(b: seq<Entry>, m: seq<Entry>, f: seq<Entry>)
    ensures Datas(b + m + f) == Datas(b) + Datas(m) + Datas(f)
    ensures forall e :: Datas([e]) == {e.d} && forall g :: Datas([e, g]) == {e.d, g.d}
  {
    DatasConcat(b + m, f);
    DatasConcat(b, m);
    forall e, g ensures Datas([e]) == {e.d} && Datas([e, g]) == {e.d, g.d} {
      assert [e][0] == e && [e, g][0] == e && [e, g][1] == g;
    }
  }

  /** In a tree sorted by words, a word occurs once. */
  lemma OnceIn(b: seq<Entry>, e: Entry, f: seq<Entry>)
    requires Sorted(false, b + [e] + f)
    ensures e.d !in Datas(b + f)
  {
    SortedParts(false, b, e, f, b + [e] + f);
    BoundsApart(false, b, f, e.d);
  }

  lemma WordOut(s: seq<Entry>, b: seq<Entry>, e: Entry, f: seq<Entry>)
    requires Sorted(false, s) && s == b + [e] + f
    ensures Datas(b + f) == Datas(s) - {e.d} && HasEntry(s, e) && |b + f| + 1 == |s|
  {
    assert s[|b|] == e;
    hide Datas, Sorted;
    OnceIn(b, e, f);
    DatasParts(b, [e], f);
    DatasConcat(b, f);
  }

  /** Datas do not depend on where the words are kept. */
  lemma SameWord(b: seq<Entry>, e: Entry, g: Entry, f: seq<Entry>)
    requires e.d == g.d
    ensures Datas(b + [e] + f) == Datas(b + [g] + f)
  {
    hide *;
    DatasParts(b, [e], f);
    DatasParts(b, [g], f);
  }

  /** Deletion takes out exactly the word at the node. */
  lemma RemovedDatas(s: seq<Entry>, s': seq<Entry>, a: nat, x: nat) returns (d: nat)
    requires Removed(s, s', a, x) && Sorted(false, s)
    ensures HasEntry(s, Entry(a, d)) && Datas(s') == Datas(s) - {d} && |s'| + 1 == |s|
  {
    hide Datas, Sorted, HasEntry;
    var b, f, d', e :| RemovedBetween(s, s', a, x, b, f, d', e);
    d := d';
    if x == a {
      WordOut(s, b, Entry(a, d), f);
    } else {
      SameWord(b, Entry(a, e), Entry(x, e), f);
      if s == b + [Entry(a, d), Entry(x, e)] + f {
        assert s == b + [Entry(a, d)] + ([Entry(x, e)] + f) && b + ([Entry(x, e)] + f) == b + [Entry(x, e)] + f;
        WordOut(s, b, Entry(a, d), [Entry(x, e)] + f);
      } else {
        assert s == (b + [Entry(x, e)]) + [Entry(a, d)] + f;
        WordOut(s, b + [Entry(x, e)], Entry(a, d), f);
      }
    }
  }

  ghost predicate HasEntry(s: seq<Entry>, e: Entry) { exists i :: 0 <= i < |s| && s[i] == e }

  lemma InsertedDatas(s: seq<Entry>, s': seq<Entry>, e: Entry)
    requires Inserted(s, s', e)
    ensures Datas(s') == Datas(s) + {e.d} && |s'| == |s| + 1
  {
    var b, f :| s == b + f && s' == b + [e] + f;
    hide Datas;
    DatasParts(b, [e], f);
    DatasConcat(b, f);
  }

  lemma CancelPrefix(x: seq<Entry>, y: seq<Entry>, z: seq<Entry>)
    requires x + y == x + z
    ensures y == z
  {
    assert y == (x + y)[|x|..] && z == (x + z)[|x|..];
  }

  lemma SuccessorShift(b: seq<Entry>, n: Entry, e: Entry, r: seq<Entry>, after: seq<Entry>, r0: seq<Entry>, after0: seq<Entry>)
    requires (b + [n]) + r0 + after0 == (b + [n]) + ([e] + r) + after
    ensures r0 + after0 == [e] + (r + after)
  {
    assert (b + [n]) + r0 + after0 == (b + [n]) + (r0 + after0);
    assert (b + [n]) + ([e] + r) + after == (b + [n]) + ([e] + (r + after));
    CancelPrefix(b + [n], r0 + after0, [e] + (r + after));
  }

  lemma OldEntries(b0: seq<Entry>, el: seq<Entry>, o: Entry, r0: seq<Entry>, after0: seq<Entry>, e: Entry, f: seq<Entry>)
    requires r0 + after0 == [e] + f
    ensures b0 + (el + [o] + r0) + after0 == (b0 + el) + [o, e] + f
  {
    assert b0 + (el + [o] + r0) + after0 == (b0 + el) + [o] + (r0 + after0);
  }

  /** What stands before and after the right subtree of a node. */
  lemma RightOf(c0: Path, t0: Tree, d: nat)
    requires t0.Node?
    ensures var c1 := InRight(c0, t0.a, d, t0.bf, t0.l);
            Before(c1) == Before(c0) + Entries(t0.l) + [Entry(t0.a, d)] && After(c1) == After(c0)
    ensures Entries(t0) == Entries(t0.l) + [Entry(t0.a, t0.d)] + Entries(t0.r)
  {
  }

  lemma NoLeft(t: Tree)
    requires t.Node? && t.l.Leaf?
    ensures Entries(t) == [Entry(t.a, t.d)] + Entries(t.r)
  {
  }

  /** The successor is the first entry after the node. */
  lemma SuccessorEntries(c0: Path, t0: Tree, c: Path, t: Tree)
    requires t0.Node? && t0.r.Node? && t.Node? && t == Leftmost(t0.r)
    requires c == LeftmostPath(InRight(c0, t0.a, t.d, t0.bf, t0.l), t0.r)
    ensures t.l.Leaf?
    ensures t.a == t0.a || Removed(Before(c0) + Entries(t0) + After(c0), Before(c) + Entries(t.r) + After(c), t0.a, t.a)
  {
    hide *;
    var c1 := InRight(c0, t0.a, t.d, t0.bf, t0.l);
    LeftmostIs(c1, t0.r);
    PlugEntries(c1, t0.r);
    PlugEntries(c, t);
    var b, f, swapped, e := Before(c0) + Entries(t0.l), Entries(t.r) + After(c), Entry(t0.a, t.d), Entry(t.a, t.d);
    RightOf(c0, t0, t.d);
    NoLeft(t);
    SuccessorShift(b, swapped, e, Entries(t.r), After(c), Entries(t0.r), After(c0));
    OldEntries(Before(c0), Entries(t0.l), Entry(t0.a, t0.d), Entries(t0.r), After(c0), e, f);
    NewEntries(b + [swapped], Entries(t.r), After(c));
    ShowRemoved(Before(c0) + Entries(t0) + After(c0), Before(c) + Entries(t.r) + After(c), t0.a, t.a, b, f, t0.d, t.d);
  }

  lemma NewEntries(x: seq<Entry>, y: seq<Entry>, z: seq<Entry>)
    ensures x + y + z == x + (y + z)
  {
  }

  lemma ShowRemoved(s: seq<Entry>, s': seq<Entry>, a: nat, x: nat, b: seq<Entry>, f: seq<Entry>, d: nat, e: nat)
    requires s == b + [Entry(a, d), Entry(x, e)] + f && s' == b + [Entry(a, e)] + f
    ensures x == a || Removed(s, s', a, x)
  {
    if x != a { assert RemovedBetween(s, s', a, x, b, f, d, e); }
  }

  /** Without a right child, the left child is a leaf and is the last entry before the node. */
  lemma PredecessorEntries(c0: Path, t0: Tree)
    requires t0.Node? && t0.r.Leaf? && t0.l.Node? && Balanced(t0)
    ensures t0.l.l.Leaf? && t0.l.r.Leaf?
    ensures var c := InLeft(c0, t0.a, t0.l.d, t0.bf, Leaf);
            t0.l.a == t0.a || Removed(Before(c0) + Entries(t0) + After(c0), Before(c) + Entries(Leaf) + After(c), t0.a, t0.l.a)
  {
    var e, above := Entry(t0.l.a, t0.l.d), Entry(t0.a, t0.d);
    assert Height(t0.l) <= 1;
    assert Entries(t0.l) == [e] && Entries(t0) == [e, above];
    hide Height, Balanced;
    ShowSwapped(Before(c0), After(c0), t0.a, t0.d, t0.l.a, t0.l.d);
  }

  lemma ShowSwapped(b: seq<Entry>, f: seq<Entry>, a: nat, d: nat, x: nat, e: nat)
    ensures x == a || Removed(b + [Entry(x, e), Entry(a, d)] + f, b + [] + ([Entry(a, e)] + [] + f), a, x)
  {
    if x != a {
      assert b + [] + ([Entry(a, e)] + [] + f) == b + [Entry(a, e)] + f;
      assert RemovedBetween(b + [Entry(x, e), Entry(a, d)] + f, b + [Entry(a, e)] + f, a, x, b, f, d, e);
    }
  }

  lemma LeafEntries(c0: Path, t0: Tree)
    requires t0.Node? && t0.r.Leaf? && t0.l.Leaf?
    ensures Removed(Before(c0) + Entries(t0) + After(c0), Before(c0) + Entries(Leaf) + After(c0), t0.a, t0.a)
  {
    assert Entries(t0) == [Entry(t0.a, t0.d)];
    assert Before(c0) + [] + After(c0) == Before(c0) + After(c0);
    assert RemovedBetween(Before(c0) + Entries(t0) + After(c0), Before(c0) + [] + After(c0), t0.a, t0.a, Before(c0), After(c0), t0.d, 0);
  }

  lemma SplicedShrunk(c: Path, t: Tree)
    requires PathBalanced(c, Height(t)) && Balanced(t) && t.Node? && t.l.Leaf?
    ensures Shrunk(c, t.r)
  {
  }

  lemma SplicedAddrs(mem: Memory, root: nat, c: Path, t: Tree)
    requires Holds(mem, root, c, t) && t.Node? && t.l.Leaf?
    ensures PathAddrs(c) + Addrs(t.r) == PathAddrs(c) + Addrs(t) - {t.a}
  {
  }

  lemma FocusIntro(mem: Memory, root: nat, c: Path, t: Tree, s: set<nat>, es: seq<Entry>)
    requires Holds(mem, root, c, t) && PathAddrs(c) + Addrs(t) == s && Before(c) + Entries(t) + After(c) == es
    ensures Focus(mem, root, c, t, s, es)
  {
  }

  lemma WithinLess(m0: Memory, m1: Memory, m2: Memory, s: set<nat>, s': set<nat>)
    requires Within(m0, m1, s) && Within(m1, m2, s') && s' <= s
    ensures Within(m0, m2, s)
  {
  }

  lemma LeftmostPathIs(c: Path, t: Tree)
    requires t.Node?
    ensures PathAddrs(LeftmostPath(c, t)) + Addrs(Leftmost(t)) == PathAddrs(c) + Addrs(t) && (!c.Top? ==> !LeftmostPath(c, t).Top?)
    decreases t
  {
    if t.l.Node? {
      ChildPathAddrs(c, t);
      LeftmostPathIs(InLeft(c, t.a, t.d, t.bf, t.r), t.l);
    }
  }

  /** After the successor's word has been copied into the node: the position of the successor. */
  lemma Rewritten(t: Tree, d: nat)
    requires t.Node? && Balanced(t)
    ensures var u := Node(t.l, t.a, d, t.bf, t.r); Balanced(u) && Height(u) == Height(t) && Addrs(u) == Addrs(t)
  {
  }

  lemma AtSuccessor(mem: Memory, root: nat, c0: Path, t0: Tree, d: nat)
    requires t0.Node? && t0.r.Node? && Balanced(t0) && PathBalanced(c0, Height(t0))
    requires Holds(mem, root, c0, Node(t0.l, t0.a, d, t0.bf, t0.r))
    ensures var t := Leftmost(t0.r); var c := LeftmostPath(InRight(c0, t0.a, d, t0.bf, t0.l), t0.r);
            && Holds(mem, root, c, t) && Balanced(t) && PathBalanced(c, Height(t)) && !c.Top?
            && PathAddrs(c) + Addrs(t) == PathAddrs(c0) + Addrs(t0)
  {
    var u := Node(t0.l, t0.a, d, t0.bf, t0.r);
    var c1 := InRight(c0, t0.a, d, t0.bf, t0.l);
    hide *;
    Rewritten(t0, d);
    BalancedDown(c0, u);
    ChildPathAddrs(c0, u);
    LeftmostPathIs(c1, t0.r);
    LeftmostBalanced(c1, t0.r);
    DownRight(mem, root, c0, u);
    ToLeftmost(mem, root, c1, t0.r);
  }

  lemma AtPredecessor(mem: Memory, root: nat, c0: Path, t0: Tree, d: nat)
    requires t0.Node? && t0.r.Leaf? && t0.l.Node? && Balanced(t0) && PathBalanced(c0, Height(t0))
    requires Holds(mem, root, c0, Node(t0.l, t0.a, d, t0.bf, t0.r))
    ensures var c := InLeft(c0, t0.a, d, t0.bf, Leaf);
            && Holds(mem, root, c, t0.l) && Balanced(t0.l) && PathBalanced(c, Height(t0.l)) && t0.l.l.Leaf? && t0.l.r.Leaf?
            && PathAddrs(c) + Addrs(t0.l) == PathAddrs(c0) + Addrs(t0)
  {
    var u := Node(t0.l, t0.a, d, t0.bf, t0.r);
    BalancedDown(c0, u);
    ChildPathAddrs(c0, u);
    assert Addrs(u) == Addrs(t0);
    DownLeft(mem, root, c0, u);
  }

  lemma Links(mem: Memory, root: nat, c: Path, t: Tree)
    requires Holds(mem, root, c, t) && t.Node?
    ensures t.a in mem && (mem[t.a].right != 0 <==> t.r.Node?) && (mem[t.a].left != 0 <==> t.l.Node?)
    ensures ParentOf(mem[t.a].prev) == 0 <==> c.Top?
  {
    Fields(mem, root, c, t);
    Child(mem, root, c, t);
  }

  /** A tree of one node becomes empty. */
  lemma LastOut(mem: Memory, root: nat, c: Path, t: Tree)
    requires Holds(mem, root, c, t) && t.Node? && t.l.Leaf? && t.r.Leaf? && c.Top?
    ensures Stored(mem, 0, Leaf, PathAddrs(c) + Addrs(t) - {t.a}, Entries(Leaf))
    ensures Before(c) + Entries(Leaf) + After(c) == Entries(Leaf)
  {
  }

  lemma StoredIs(mem: Memory, root: nat, tree: Tree, s: set<nat>, es: seq<Entry>)
    requires Stored(mem, root, tree, s, es)
    ensures Entries(tree) == es && Addrs(tree) == s && Stored(mem, root, tree, Addrs(tree), Entries(tree))
  {
  }

  lemma LeafIn(t: Tree)
    requires t.Node?
    ensures t.a in Addrs(t)
  {
  }

  // ------------------------------------------------------ moving a node

  lemma {:induction false} RootInPath(c: Path, hole: nat)
    requires !c.Top?
    ensures RootOf(c, hole) in PathAddrs(c)
  {
    if !c.up.Top? { RootInPath(c.up, c.a); }
  }

  /** Node t at position c has been copied to address to, and its neighbours' links follow it. */
  lemma Moved(mem: Memory, mem': Memory, root: nat, root': nat, c: Path, t: Tree, to: nat)
    requires Holds(mem, root, c, t) && t.Node? && to != 0 && to !in PathAddrs(c) + Addrs(t)
    requires Adopted(mem, mem', t.l, to) && Adopted(mem, mem', t.r, to) && Redirected(mem, mem', root, root', c, to)
    requires t.a in mem && to in mem' && mem'[to] == mem[t.a]
    requires Same(mem, mem', PathAddrs(c) - {PathAddr(c)})
    requires Same(mem, mem', Addrs(t.l) - {Addr(t.l)}) && Same(mem, mem', Addrs(t.r) - {Addr(t.r)})
    ensures Holds(mem', root', c, Node(t.l, to, t.d, t.bf, t.r))
  {
    hide Redirected, Adopted, Same, Pack;
    PathAfter(mem, mem', root, root', c, t.a, to);
    hide PathRepr;
    Reparented(mem, mem', t.l, t.a, to);
    Reparented(mem, mem', t.r, t.a, to);
  }

  lemma Reparented(mem: Memory, mem': Memory, t: Tree, up: nat, to: nat)
    requires Repr(mem, t, up) && Distinct(t) && Adopted(mem, mem', t, to) && Same(mem, mem', Addrs(t) - {Addr(t)})
    ensures Repr(mem', t, to)
  {
    Reparent(mem, mem', t, up, to);
  }

  /** The cells that avl_move writes, in its order. */
  ghost predicate MoveCells(m0: Memory, m1: Memory, m2: Memory, m3: Memory, m4: Memory, c: Path, t: Tree, to: nat)
    requires t.Node?
  {
    && (c.Top? ==> m1 == m0)
    && (!c.Top? ==> c.a in m0 && m1 == m0[c.a := if c.InLeft? then m0[c.a].(left := to) else m0[c.a].(right := to)])
    && (t.l.Leaf? ==> m2 == m1)
    && (t.l.Node? ==> t.l.a in m1 && m2 == m1[t.l.a := m1[t.l.a].(prev := WithParent(m1[t.l.a].prev, to))])
    && (t.r.Leaf? ==> m3 == m2)
    && (t.r.Node? ==> t.r.a in m2 && m3 == m2[t.r.a := m2[t.r.a].(prev := WithParent(m2[t.r.a].prev, to))])
    && t.a in m3 && m4 == m3[to := m3[t.a]]
  }

  lemma MoveKids(m0: Memory, m1: Memory, m2: Memory, m3: Memory, m4: Memory, c: Path, t: Tree, to: nat)
    requires t.Node? && MoveCells(m0, m1, m2, m3, m4, c, t, to) && PathDistinct(c) && Distinct(t) && PathAddrs(c) !! Addrs(t)
    requires to !in PathAddrs(c) + Addrs(t)
    ensures Adopted(m0, m4, t.l, to) && Same(m0, m4, Addrs(t.l) - {Addr(t.l)})
    ensures Adopted(m0, m4, t.r, to) && Same(m0, m4, Addrs(t.r) - {Addr(t.r)})
  {
    assert !c.Top? ==> c.a in PathAddrs(c);
    assert Addrs(t) == Addrs(t.l) + {t.a} + Addrs(t.r) && Addrs(t.l) !! Addrs(t.r) && t.a !in Addrs(t.l) + Addrs(t.r);
    assert (t.l.Node? ==> t.l.a in Addrs(t.l)) && (t.r.Node? ==> t.r.a in Addrs(t.r));
    hide WithParent, Addrs, PathAddrs, Distinct, PathDistinct;
  }

  lemma MovePath(m0: Memory, m1: Memory, m2: Memory, m3: Memory, m4: Memory, root: nat, root': nat, c: Path, t: Tree, to: nat)
    requires t.Node? && MoveCells(m0, m1, m2, m3, m4, c, t, to) && PathDistinct(c) && Distinct(t) && PathAddrs(c) !! Addrs(t)
    requires to !in PathAddrs(c) + Addrs(t) && root' == (if c.Top? then to else root)
    ensures Redirected(m0, m4, root, root', c, to) && Same(m0, m4, PathAddrs(c) - {PathAddr(c)})
    ensures t.a in m0 && to in m4 && m4[to] == m0[t.a]
  {
    assert !c.Top? ==> c.a in PathAddrs(c);
    assert Addrs(t) == Addrs(t.l) + {t.a} + Addrs(t.r) && Addrs(t.l) !! Addrs(t.r) && t.a !in Addrs(t.l) + Addrs(t.r);
    assert (t.l.Node? ==> t.l.a in Addrs(t.l)) && (t.r.Node? ==> t.r.a in Addrs(t.r));
    hide WithParent, Addrs, PathAddrs, Distinct, PathDistinct;
  }

  lemma MoveBeyond(m0: Memory, m1: Memory, m2: Memory, m3: Memory, m4: Memory, c: Path, t: Tree, to: nat)
    requires t.Node? && MoveCells(m0, m1, m2, m3, m4, c, t, to) && PathDistinct(c) && Distinct(t) && PathAddrs(c) !! Addrs(t)
    requires to !in PathAddrs(c) + Addrs(t)
    ensures Beyond(m0, m4, PathAddrs(c) + Addrs(t), to)
  {
    assert !c.Top? ==> c.a in PathAddrs(c);
    assert Addrs(t) == Addrs(t.l) + {t.a} + Addrs(t.r) && Addrs(t.l) !! Addrs(t.r) && t.a !in Addrs(t.l) + Addrs(t.r);
    assert (t.l.Node? ==> t.l.a in Addrs(t.l)) && (t.r.Node? ==> t.r.a in Addrs(t.r));
    hide WithParent, Addrs, PathAddrs, Distinct, PathDistinct;
  }

  lemma RootAt(mem: Memory, root: nat, c: Path, t: Tree)
    requires Holds(mem, root, c, t) && t.Node?
    ensures root == t.a <==> c.Top?
  {
    if !c.Top? { RootInPath(c, t.a); }
  }

  lemma MoveDone(m0: Memory, m1: Memory, m2: Memory, m3: Memory, m4: Memory, root: nat, root': nat, c: Path, t: Tree, to: nat)
    requires Holds(m0, root, c, t) && t.Node? && to != 0 && to !in PathAddrs(c) + Addrs(t)
    requires MoveCells(m0, m1, m2, m3, m4, c, t, to) && root' == (if c.Top? then to else root)
    ensures Holds(m4, root', c, Node(t.l, to, t.d, t.bf, t.r)) && Beyond(m0, m4, PathAddrs(c) + Addrs(t), to)
  {
    assert PathDistinct(c) && Distinct(t) && PathAddrs(c) !! Addrs(t);
    hide *;
    MoveKids(m0, m1, m2, m3, m4, c, t, to);
    MovePath(m0, m1, m2, m3, m4, root, root', c, t, to);
    MoveBeyond(m0, m1, m2, m3, m4, c, t, to);
    Moved(m0, m4, root, root', c, t, to);
  }

  lemma RootOfStored(mem: Memory, root: nat, tree: Tree)
    requires Stored(mem, root, tree, Addrs(tree), Entries(tree))
    ensures root == Addr(tree) && 0 !in Addrs(tree) && (root == 0 <==> tree.Leaf?) && (tree.Leaf? ==> Addrs(tree) == {})
  {
    ReprAddrs(mem, tree, 0);
  }

  lemma LocateStored(mem: Memory, root: nat, tree: Tree, a: nat) returns (c: Path, t: Tree)
    requires Stored(mem, root, tree, Addrs(tree), Entries(tree)) && a in Addrs(tree)
    ensures Holds(mem, root, c, t) && Balanced(t) && PathBalanced(c, Height(t)) && t.Node? && t.a == a
    ensures Plug(c, t) == tree && Before(c) + Entries(t) + After(c) == Entries(tree) && PathAddrs(c) + Addrs(t) == Addrs(tree)
  {
    c, t := Locate(mem, root, Top, tree, a);
    PlugEntries(c, t);
    PlugAddrs(c, t);
  }

  lemma EntriesAt(c: Path, t: Tree)
    requires t.Node?
    ensures Before(c) + Entries(t) + After(c) == (Before(c) + Entries(t.l)) + [Entry(t.a, t.d)] + (Entries(t.r) + After(c))
  {
  }

  lemma MovedAddrs(mem: Memory, root: nat, c: Path, t: Tree, to: nat)
    requires Holds(mem, root, c, t) && t.Node?
    ensures PathAddrs(c) + Addrs(Node(t.l, to, t.d, t.bf, t.r)) == PathAddrs(c) + Addrs(t) - {t.a} + {to}
  {
  }

  lemma BalanceMoved(c: Path, t: Tree, to: nat)
    requires Balanced(t) && t.Node? && PathBalanced(c, Height(t))
    ensures Balanced(Node(t.l, to, t.d, t.bf, t.r)) && PathBalanced(c, Height(Node(t.l, to, t.d, t.bf, t.r)))
  {
  }

  lemma StoredBalanced(mem: Memory, root: nat, tree: Tree)
    requires Stored(mem, root, tree, Addrs(tree), Entries(tree))
    ensures Balanced(tree)
  {
  }

  /** The fields of a new node are set; the tree is as it was. */
  lemma NewNode(m: Memory, root: nat, tree: Tree, nd: nat, cell: Cell)
    requires Stored(m, root, tree, Addrs(tree), Entries(tree)) && nd !in Addrs(tree)
    ensures Holds(m[nd := cell], root, Top, tree) && Beyond(m, m[nd := cell], Addrs(tree), nd)
  {
    HoldsFrame(m, m[nd := cell], root, Top, tree);
  }

  lemma FirstNode(m: Memory, tree: Tree, nd: nat, data: nat, byAddr: bool)
    requires tree.Leaf? && nd != 0
    ensures var m1, t := m[nd := Cell(3, 0, 0, data)], NewLeaf(nd, data);
            && Stored(m1, nd, t, Addrs(t), Entries(t)) && Sorted(byAddr, Entries(t)) && !HasKey(byAddr, Entries(tree), Key(byAddr, nd, data))
            && Inserted(Entries(tree), Entries(t), Entry(nd, data)) && Addrs(t) == Addrs(tree) + {nd}
  {
    var m1, t := m[nd := Cell(3, 0, 0, data)], NewLeaf(nd, data);
    assert NodeAt(m1, nd, 0, 0, 0, 0, data) && Repr(m1, t, 0);
    assert PathAddr(Top) == 0 && RootOf(Top, nd) == nd && PathAddrs(Top) == {};
    assert Holds(m1, nd, Top, t) && Balanced(t);
    assert Entries(tree) == [] + [] && Entries(t) == [] + [Entry(nd, data)] + [];
  }

  /** Height is logarithmic in the number of entries. */
  lemma Logarithmic(tree: Tree)
    requires Balanced(tree)
    ensures Fib(Height(tree) + 2) <= |Entries(tree)| + 1
  {
    hide Fib, Height, Entries, Balanced;
    FibonacciBound(tree);
    SizeIsEntries(tree);
  }

  lemma HasIsData(s: seq<Entry>, data: nat)
    ensures HasKey(false, s, data) <==> data in Datas(s)
  {
  }

  lemma SeekStart(mem: Memory, root: nat, data: nat, tree: Tree)
    requires Stored(mem, root, tree, Addrs(tree), Entries(tree)) && Sorted(false, Entries(tree))
    ensures Seeking(mem, root, false, data, Top, tree, tree) && root == Addr(tree)
  {
    RootOfStored(mem, root, tree);
  }

  /** A node met on the way down is one of the tree's. */
  lemma SeekNode(mem: Memory, root: nat, data: nat, c: Path, t: Tree, tree: Tree)
    requires Seeking(mem, root, false, data, c, t, tree) && t.Node?
    ensures t.a in Addrs(tree) && HasEntry(Entries(tree), Entry(t.a, t.d)) && t.a != 0
    ensures Key(false, t.a, t.d) == t.d && (t.d == data ==> data in Datas(Entries(tree)))
  {
    PlugAddrs(c, t);
    PlugEntries(c, t);
    PathReprAddrs(mem, c, Addr(t));
    ReprAddrs(mem, t, PathAddr(c));
    var e := Entry(t.a, t.d);
    assert Entries(tree) == Before(c) + (Entries(t.l) + [e] + Entries(t.r)) + After(c);
    assert Entries(tree)[|Before(c)| + |Entries(t.l)|] == e;
  }

  /** Every entry is the word of a node in memory. */
  lemma {:induction false} ReprData(mem: Memory, t: Tree, up: nat, e: Entry)
    requires Repr(mem, t, up) && HasEntry(Entries(t), e)
    ensures e.a in mem && mem[e.a].data == e.d
  {
    var i :| 0 <= i < |Entries(t)| && Entries(t)[i] == e;
    var l, r := t.l, t.r;
    if i < |Entries(l)| {
      assert Entries(l)[i] == e;
      ReprData(mem, l, t.a, e);
    } else if i > |Entries(l)| {
      assert Entries(r)[i - |Entries(l)| - 1] == e;
      ReprData(mem, r, t.a, e);
    }
  }

  /** One address, one word. */
  lemma OneWord(mem: Memory, root: nat, tree: Tree, a: nat, d: nat, d': nat)
    requires Stored(mem, root, tree, Addrs(tree), Entries(tree))
    requires HasEntry(Entries(tree), Entry(a, d)) && HasEntry(Entries(tree), Entry(a, d'))
    ensures d == d'
  {
    hide HasEntry, Entries, Addrs, Balanced;
    ReprData(mem, tree, 0, Entry(a, d));
    ReprData(mem, tree, 0, Entry(a, d'));
  }

  class AvlTree {
    /** *tr, and the memory of the nodes. */
    var root: nat
    var nodes: Memory

    constructor ()
      ensures root == 0 && nodes == map[]
    {
      root, nodes := 0, map[];
    }

    /** Put the address to in place of nd in its parent, or in the root pointer. */
    method Redirect(nd: nat, to: nat, ghost c: Path)
      requires nd in nodes && ParentOf(nodes[nd].prev) == PathAddr(c)
      requires !c.Top? ==> c.a in nodes && c.a != 0 && (nodes[c.a].left == nd <==> c.InLeft?)
      modifies this`root, this`nodes
      ensures Redirected(old(nodes), nodes, old(root), root, c, to)
      ensures Within(old(nodes), nodes, if c.Top? then {} else {c.a})
    {
      var parent := ParentOf(nodes[nd].prev);
      if parent != 0 {
        if nodes[parent].left == nd {
          nodes := nodes[parent := nodes[parent].(left := to)];
        } else {
          nodes := nodes[parent := nodes[parent].(right := to)];
        }
      } else {
        root := to;
      }
    }

    method RotateLeft(nd: nat, ghost c: Path, ghost t: Tree) returns (res: nat)
      requires Holds(nodes, root, c, t) && t.Node? && t.r.Node? && nd == t.a
      modifies this`root, this`nodes
      ensures Holds(nodes, root, c, RotL(t)) && res == t.r.a
      ensures Within(old(nodes), nodes, PathAddrs(c) + Addrs(t))
    {
      hide *;
      RotationReads(nodes, root, c, t);
      res := nodes[nd].right;
      var rl := nodes[res].left;
      if rl != 0 {
        nodes := nodes[rl := nodes[rl].(prev := WithParent(nodes[rl].prev, nd))];
      }
      ghost var m1 := nodes;
      var parent := ParentOf(nodes[nd].prev);
      Redirect(nd, res, c);
      ghost var m2 := nodes;
      WithinKeys(m1, m2, c);
      var even := BalanceOf(nodes[res].prev) == 0;
      nodes := nodes[nd := nodes[nd].(right := nodes[res].left, prev := Pack(res, if even then 1 else 0))]
                    [res := nodes[res].(left := nd, prev := Pack(parent, if even then -1 else 0))];
      LeftRotated(old(nodes), m1, m2, nodes, old(root), root, c, t, parent);
    }

    method RotateRight(nd: nat, ghost c: Path, ghost t: Tree) returns (res: nat)
      requires Holds(nodes, root, c, t) && t.Node? && t.l.Node? && nd == t.a
      modifies this`root, this`nodes
      ensures Holds(nodes, root, c, RotR(t)) && res == t.l.a
      ensures Within(old(nodes), nodes, PathAddrs(c) + Addrs(t))
    {
      hide *;
      RotationReads(nodes, root, c, t);
      res := nodes[nd].left;
      var lr := nodes[res].right;
      if lr != 0 {
        nodes := nodes[lr := nodes[lr].(prev := WithParent(nodes[lr].prev, nd))];
      }
      ghost var m1 := nodes;
      var parent := ParentOf(nodes[nd].prev);
      Redirect(nd, res, c);
      ghost var m2 := nodes;
      WithinKeys(m1, m2, c);
      var even := BalanceOf(nodes[res].prev) == 0;
      nodes := nodes[nd := nodes[nd].(left := nodes[res].right, prev := Pack(res, if even then -1 else 0))]
                    [res := nodes[res].(right := nd, prev := Pack(parent, if even then 1 else 0))];
      RightRotated(old(nodes), m1, m2, nodes, old(root), root, c, t, parent);
    }

    method SetBalance(nd: nat, bf: int)
      requires nd in nodes
      modifies this`nodes
      ensures nodes == old(nodes)[nd := old(nodes)[nd].(prev := WithBalance(old(nodes)[nd].prev, bf))]
    {
      nodes := nodes[nd := nodes[nd].(prev := WithBalance(nodes[nd].prev, bf))];
    }

    /** set_balance_factor on the two children of a node and on the node itself. */
    method SetThree(child: nat, nd: nat, bc: int, bn: int, ghost c: Path, ghost t: Tree, ghost nodeIsRight: bool)
      requires Holds(nodes, root, c, t) && t.Node? && t.l.Node? && t.r.Node? && -1 <= bc <= 1 && -1 <= bn <= 1
      requires child == (if nodeIsRight then t.l.a else t.r.a) && nd == (if nodeIsRight then t.r.a else t.l.a)
      modifies this`nodes
      ensures Holds(nodes, root, c, Node(t.l.(bf := if nodeIsRight then bc else bn), t.a, t.d, 0, t.r.(bf := if nodeIsRight then bn else bc)))
      ensures Within(old(nodes), nodes, Addrs(t))
    {
      hide *;
      RotationReads(nodes, root, c, t);
      ChildPathAddrs(c, t);
      ghost var m0 := nodes;
      WithinRefl(m0, Addrs(t));
      SetBalance(child, bc);
      ghost var m1 := nodes;
      WithinOne(m0, m0, m1, Addrs(t), child, nodes[child]);
      ghost var t1 := if nodeIsRight then t.(l := t.l.(bf := bc)) else t.(r := t.r.(bf := bc));
      if nodeIsRight { BalanceLeft(m0, m1, root, c, t, bc); } else { BalanceRight(m0, m1, root, c, t, bc); }
      SetBalance(nd, bn);
      ghost var m2 := nodes;
      WithinOne(m0, m1, m2, Addrs(t), nd, nodes[nd]);
      ghost var t2 := if nodeIsRight then t1.(r := t.r.(bf := bn)) else t1.(l := t.l.(bf := bn));
      if nodeIsRight { BalanceRight(m1, m2, root, c, t1, bn); } else { BalanceLeft(m1, m2, root, c, t1, bn); }
      ChildParent(m2, root, c, t2);
      var pp := ParentOf(nodes[nd].prev);
      SetBalance(pp, 0);
      Rebalanced(m2, nodes, root, c, t2, 0);
      WithinOne(m0, m2, nodes, Addrs(t), pp, nodes[pp]);
    }

    /** Rotate the left child left, then the node right, then set the three factors. */
    method RotateLR(nd: nat, ghost c: Path, ghost t: Tree) returns (res: nat)
      requires Holds(nodes, root, c, t) && t.Node? && t.l.Node? && t.l.r.Node? && nd == t.a
      modifies this`root, this`nodes
      ensures Holds(nodes, root, c, RotLR(t)) && res == t.l.r.a
      ensures Within(old(nodes), nodes, PathAddrs(c) + Addrs(t))
    {
      RotationReads(nodes, root, c, t);
      DownLeft(nodes, root, c, t);
      ghost var left := InLeft(c, t.a, t.d, t.bf, t.r);
      RotationReads(nodes, root, left, t.l);
      Child(nodes, root, left, t.l);
      ShapeLR(t);
      ChildPathAddrs(c, t);
      hide *;
      var child := nodes[nd].left;
      var bf := BalanceOf(nodes[nodes[child].right].prev);
      ghost var m0 := nodes;
      var _ := RotateLeft(child, left, t.l);
      Up(nodes, root, left, RotL(t.l));
      ghost var m1 := nodes;
      ghost var t1 := Node(RotL(t.l), t.a, t.d, t.bf, t.r);
      res := RotateRight(nd, c, t1);
      WithinTrans(m0, m1, nodes, PathAddrs(c) + Addrs(t), PathAddrs(c) + Addrs(t), PathAddrs(c) + Addrs(t));
      ghost var m2 := nodes;
      SetThree(child, nd, if bf == 1 then -1 else 0, if bf == -1 then 1 else 0, c, RotR(t1), true);
      WithinTrans(m0, m2, nodes, PathAddrs(c) + Addrs(t), Addrs(t), PathAddrs(c) + Addrs(t));
    }

    method RotateRL(nd: nat, ghost c: Path, ghost t: Tree) returns (res: nat)
      requires Holds(nodes, root, c, t) && t.Node? && t.r.Node? && t.r.l.Node? && nd == t.a
      modifies this`root, this`nodes
      ensures Holds(nodes, root, c, RotRL(t)) && res == t.r.l.a
      ensures Within(old(nodes), nodes, PathAddrs(c) + Addrs(t))
    {
      RotationReads(nodes, root, c, t);
      DownRight(nodes, root, c, t);
      ghost var right := InRight(c, t.a, t.d, t.bf, t.l);
      RotationReads(nodes, root, right, t.r);
      Child(nodes, root, right, t.r);
      ShapeRL(t);
      ChildPathAddrs(c, t);
      hide *;
      var child := nodes[nd].right;
      var bf := BalanceOf(nodes[nodes[child].left].prev);
      ghost var m0 := nodes;
      var _ := RotateRight(child, right, t.r);
      Up(nodes, root, right, RotR(t.r));
      ghost var m1 := nodes;
      ghost var t1 := Node(t.l, t.a, t.d, t.bf, RotR(t.r));
      res := RotateLeft(nd, c, t1);
      WithinTrans(m0, m1, nodes, PathAddrs(c) + Addrs(t), PathAddrs(c) + Addrs(t), PathAddrs(c) + Addrs(t));
      ghost var m2 := nodes;
      SetThree(child, nd, if bf == -1 then 1 else 0, if bf == 1 then -1 else 0, c, RotL(t1), false);
      WithinTrans(m0, m2, nodes, PathAddrs(c) + Addrs(t), Addrs(t), PathAddrs(c) + Addrs(t));
    }

    /** The single or double rotation with which the loop of _avl_insert ends. */
    method TurnInsert(node: nat, bf: int, ghost c: Path, ghost t: Tree, ghost s: set<nat>, ghost es: seq<Entry>) returns (ghost tree: Tree)
      requires Focus(nodes, root, c, t, s, es) && Grown(c, t) && t.Node? && !c.Top? && node == c.a && bf == Shifted(c, 1)
      requires bf == -2 || bf == 2
      modifies this`root, this`nodes
      ensures Stored(nodes, root, tree, s, es) && Within(old(nodes), nodes, s)
      ensures AtMostOneTurn(Plug(c, t), tree)
    {
      FocusUp(nodes, root, c, t, s, es);
      GrownUp(c, t);
      ghost var u, was, wasRoot := Joined(c, t, c.bf), nodes, root;
      ghost var u' := u;
      assert Holds(nodes, root, c.up, u) && PathAddrs(c.up) + Addrs(u) == s;
      if c.InLeft? { GrownLeft(c, t); } else { GrownRight(c, t); }
      RotEntries(u);
      RotAddrs(u);
      DoubleEntries(u);
      TurnCases(u);
      hide *;
      if bf == -2 {
        if BalanceOf(nodes[nodes[node].left].prev) == -1 {
          u' := RotR(u);
          var _ := RotateRight(node, c.up, u);
        } else {
          u' := RotLR(u);
          var _ := RotateLR(node, c.up, u);
        }
      } else {
        if BalanceOf(nodes[nodes[node].right].prev) == 1 {
          u' := RotL(u);
          var _ := RotateLeft(node, c.up, u);
        } else {
          u' := RotRL(u);
          var _ := RotateRL(node, c.up, u);
        }
      }
      FocusTurned(was, nodes, wasRoot, root, c.up, u, u', s, es);
      FocusDone(nodes, root, c.up, u', s, es);
      tree := Plug(c.up, u');
      TurnedOnce(c, t, u');
    }

    /** The loop of _avl_insert that walks up from a subtree that has grown. */
    method FixInsert(from: nat, ghost c0: Path, ghost t0: Tree, ghost s: set<nat>, ghost es: seq<Entry>) returns (ghost tree: Tree)
      requires Focus(nodes, root, c0, t0, s, es) && Grown(c0, t0) && t0.Node? && from == t0.a
      requires from in nodes && ParentOf(nodes[from].prev) == PathAddr(c0)
      modifies this`root, this`nodes
      ensures Stored(nodes, root, tree, s, es) && Within(old(nodes), nodes, s)
      ensures AtMostOneTurn(Plug(c0, t0), tree)
    {
      hide Flat, Plug, AtMostOneTurn, Focus, Grown, Within, Stored, Holds, BalanceOf, ParentOf, WithBalance, PathBalanced, Balanced, Height;
      var child := from;
      var node := ParentOf(nodes[child].prev);
      ghost var c, t := c0, t0;
      WithinRefl(nodes, s);
      while node != 0
        invariant Focus(nodes, root, c, t, s, es) && Grown(c, t) && t.Node? && child == t.a
        invariant node == PathAddr(c) && Within(old(nodes), nodes, s) && Flat(Plug(c, t)) == Flat(Plug(c0, t0))
        decreases c
      {
        FocusUp(nodes, root, c, t, s, es);
        GrownUp(c, t);
        ghost var u, was := Joined(c, t, c.bf), nodes;
        var bf := BalanceOf(nodes[node].prev) + if child == nodes[node].left then -1 else 1;
        assert bf == Shifted(c, 1);
        if bf == -2 || bf == 2 {
          tree := TurnInsert(node, bf, c, t, s, es);
          TurnedLater(Plug(c0, t0), Plug(c, t), tree);
          WithinTrans(old(nodes), was, nodes, s, s, s);
          return;
        }
        SetBalance(node, bf);
        FlatJoined(c, t, bf);
        FocusSet(was, nodes, root, c.up, u, bf, s, es);
        WithinOne(old(nodes), was, nodes, s, node, nodes[node]);
        c, t := c.up, Joined(c, t, bf);
        if bf == 0 {
          FocusDone(nodes, root, c, t, s, es);
          tree := Plug(c, t);
          NoTurn(Plug(c0, t0), tree);
          return;
        }
        child := node;
        node := ParentOf(nodes[node].prev);
      }
      NoAddr(nodes, root, c, t, s, es);
      GrownTop(t);
      FocusDone(nodes, root, c, t, s, es);
      tree := Plug(c, t);
      NoTurn(Plug(c0, t0), tree);
    }

    /** Descend to the empty position where key k belongs; found means that the key is there already. */
    method FindPlace(k: nat, byAddr: bool, ghost tree: Tree) returns (found: bool, parent: nat, goLeft: bool, ghost c: Path)
      requires Holds(nodes, root, Top, tree) && Balanced(tree) && Sorted(byAddr, Entries(tree))
      ensures found <==> HasKey(byAddr, Entries(tree), k)
      ensures !found ==> Holds(nodes, root, c, Leaf) && Searching(byAddr, k, c, Leaf, tree) && PathBalanced(c, 0)
      ensures !found ==> parent == PathAddr(c) && goLeft == c.InLeft?
    {
      found, parent, goLeft, c := false, 0, false, Top;
      ghost var t := tree;
      var cur := root;
      assert Seeking(nodes, root, byAddr, k, c, t, tree);
      hide Seeking, Searching, HasKey, Holds, Key, PathBalanced, Height;
      while cur != 0
        invariant Seeking(nodes, root, byAddr, k, c, t, tree)
        invariant cur == Addr(t) && parent == PathAddr(c) && goLeft == c.InLeft?
        decreases t
      {
        SeekStep(nodes, root, byAddr, k, c, t, tree);
        var key := Key(byAddr, cur, nodes[cur].data);
        if key > k {
          goLeft, parent, cur := true, cur, nodes[cur].left;
          c, t := InLeft(c, t.a, t.d, t.bf, t.r), t.l;
        } else if key < k {
          goLeft, parent, cur := false, cur, nodes[cur].right;
          c, t := InRight(c, t.a, t.d, t.bf, t.l), t.r;
        } else {
          return true, 0, false, Top;
        }
      }
      SeekEnd(nodes, root, byAddr, k, c, t, tree);
    }

    /** _avl_insert from its search on, in a tree that is not empty; the new node's fields are set. */
    method InsertBelow(nd: nat, data: nat, byAddr: bool, ghost tree: Tree) returns (failed: bool, ghost tree': Tree)
      requires Holds(nodes, root, Top, tree) && Balanced(tree) && tree.Node? && Sorted(byAddr, Entries(tree))
      requires nd != 0 && nd !in Addrs(tree) && nd in nodes && nodes[nd] == Cell(3, 0, 0, data)
      modifies this`root, this`nodes
      ensures failed <==> HasKey(byAddr, Entries(tree), Key(byAddr, nd, data))
      ensures failed ==> tree' == tree && root == old(root)
      ensures !failed ==> Inserted(Entries(tree), Entries(tree'), Entry(nd, data)) && Addrs(tree') == Addrs(tree) + {nd}
      ensures !failed ==> Grafted(tree, tree', nd, data)
      ensures Stored(nodes, root, tree', Addrs(tree'), Entries(tree')) && Sorted(byAddr, Entries(tree'))
      ensures Beyond(old(nodes), nodes, Addrs(tree), nd)
    {
      var parent, goLeft;
      ghost var c;
      failed, parent, goLeft, c := FindPlace(Key(byAddr, nd, data), byAddr, tree);
      if failed { return true, tree; }
      hide Plug, Flat, AtMostOneTurn, GraftedAt, HasKey, Searching, Balanced, PathBalanced, Sorted, Inserted, Holds, Within, Beyond, Pack;
      PlaceFound(byAddr, nd, data, c, tree);
      SearchedPlace(byAddr, Key(byAddr, nd, data), c, Leaf, tree);
      PathNotTop(c, tree, byAddr, Key(byAddr, nd, data));
      PathMember(nodes, root, c);
      ghost var m := nodes;
      ghost var s, es := Addrs(tree) + {nd}, Before(c) + Entries(NewLeaf(nd, data)) + After(c);
      nodes := nodes[nd := nodes[nd].(prev := Pack(parent, 0))];
      if goLeft {
        nodes := nodes[parent := nodes[parent].(left := nd)];
      } else {
        nodes := nodes[parent := nodes[parent].(right := nd)];
      }
      LeafIsAttached(m, m[nd := Cell(Pack(parent, 0), 0, 0, data)], nodes, root, c, nd, data, Addrs(tree));
      ghost var m1 := nodes;
      LeafGrown(c, nd, data);
      SiblingSeen(nodes, root, c, NewLeaf(nd, data), s, es);
      if nodes[parent].left != 0 && nodes[parent].right != 0 {
        FocusUp(nodes, root, c, NewLeaf(nd, data), s, es);
        SetBalance(parent, 0);
        FocusSet(m1, nodes, root, c.up, Joined(c, NewLeaf(nd, data), c.bf), 0, s, es);
        FocusDone(nodes, root, c.up, Joined(c, NewLeaf(nd, data), 0), s, es);
        tree' := Plug(c.up, Joined(c, NewLeaf(nd, data), 0));
        FlatJoined(c, NewLeaf(nd, data), 0);
        NoTurn(Plug(c, NewLeaf(nd, data)), tree');
        WithinRefl(m1, s);
        WithinOne(m1, m1, nodes, s, parent, nodes[parent]);
      } else {
        tree' := FixInsert(nd, c, NewLeaf(nd, data), s, es);
      }
      GraftedThere(tree, tree', c, nd, data);
      BeyondWithin(m, m1, nodes, Addrs(tree), nd);
    }

    /** _avl_insert: link the node nd, with word data, into the tree; failed when it is null or its key is present. */
    method Insert(nd: nat, data: nat, byAddr: bool, ghost tree: Tree) returns (failed: bool, ghost tree': Tree)
      requires Stored(nodes, root, tree, Addrs(tree), Entries(tree)) && Sorted(byAddr, Entries(tree)) && nd !in Addrs(tree)
      modifies this`root, this`nodes
      ensures failed <==> nd == 0 || HasKey(byAddr, Entries(tree), Key(byAddr, nd, data))
      ensures failed ==> tree' == tree && root == old(root)
      ensures !failed ==> Inserted(Entries(tree), Entries(tree'), Entry(nd, data)) && Addrs(tree') == Addrs(tree) + {nd}
      ensures !failed ==> Grafted(tree, tree', nd, data)
      ensures Stored(nodes, root, tree', Addrs(tree'), Entries(tree')) && Sorted(byAddr, Entries(tree'))
      ensures Fib(Height(tree') + 2) <= |Entries(tree')| + 1
      ensures if nd == 0 then nodes == old(nodes) else Beyond(old(nodes), nodes, Addrs(tree), nd)
    {
      hide *;
      StoredBalanced(nodes, root, tree);
      if nd == 0 {
        Logarithmic(tree);
        return true, tree;
      }
      ghost var m, s := nodes, Addrs(tree);
      RootOfStored(nodes, root, tree);
      NewNode(m, root, tree, nd, Cell(3, 0, 0, data));
      nodes := nodes[nd := Cell(3, 0, 0, data)];
      ghost var m1 := nodes;
      if root == 0 {
        root := nd;
        tree' := NewLeaf(nd, data);
        FirstNode(m, tree, nd, data, byAddr);
        GraftedFirst(tree, nd, data);
        StoredBalanced(nodes, root, tree');
        Logarithmic(tree');
        return false, tree';
      }
      failed, tree' := InsertBelow(nd, data, byAddr, tree);
      BeyondTwice(m, m1, nodes, s, nd);
      StoredBalanced(nodes, root, tree');
      Logarithmic(tree');
    }

    /** The rotation of _avl_delete at a node whose factor has become bf; even tells that the height stays. */
    method TurnDelete(parent: nat, bf: int, ghost c: Path, ghost t: Tree, ghost s: set<nat>, ghost es: seq<Entry>)
      returns (even: bool, ghost u': Tree)
      requires Focus(nodes, root, c, t, s, es) && Shrunk(c, t) && !c.Top? && parent == c.a && bf == Shifted(c, -1)
      requires bf == -2 || bf == 2
      modifies this`root, this`nodes
      ensures Focus(nodes, root, c.up, u', s, es) && Within(old(nodes), nodes, s) && u'.Node?
      ensures even ==> Balanced(u') && PathBalanced(c.up, Height(u'))
      ensures !even ==> Shrunk(c.up, u')
    {
      ShrunkUp(c, t);
      hide *;
      ghost var u, was, wasRoot := t, nodes, root;
      var side;
      if bf == -2 {
        u := RightRepairs(nodes, root, c, t, s, es);
        side := BalanceOf(nodes[nodes[parent].left].prev);
        if side == 1 {
          u' := RotLR(u);
          var _ := RotateLR(parent, c.up, u);
        } else {
          u' := RotR(u);
          var _ := RotateRight(parent, c.up, u);
        }
      } else {
        u := LeftRepairs(nodes, root, c, t, s, es);
        side := BalanceOf(nodes[nodes[parent].right].prev);
        if side == -1 {
          u' := RotRL(u);
          var _ := RotateRL(parent, c.up, u);
        } else {
          u' := RotL(u);
          var _ := RotateLeft(parent, c.up, u);
        }
      }
      even := side == 0;
      Repaired(was, nodes, wasRoot, root, c.up, u, u', even, s, es);
    }

    /** The loop of _avl_delete that walks up from a subtree that has shrunk. */
    method FixDelete(from: nat, dir: int, ghost c0: Path, ghost t0: Tree, ghost s: set<nat>, ghost es: seq<Entry>) returns (ghost tree: Tree)
      requires Focus(nodes, root, c0, t0, s, es) && Shrunk(c0, t0)
      requires from == PathAddr(c0) && (!c0.Top? ==> dir == if c0.InLeft? then -1 else 1)
      modifies this`root, this`nodes
      ensures Stored(nodes, root, tree, s, es) && Within(old(nodes), nodes, s)
    {
      var parent, direction := from, dir;
      ghost var c, t := c0, t0;
      WithinRefl(nodes, s);
      hide Focus, Shrunk, Within, Stored, Holds, BalanceOf, ParentOf, WithBalance, PathBalanced, Balanced, Height;
      while parent != 0
        invariant Focus(nodes, root, c, t, s, es) && Shrunk(c, t) && Within(old(nodes), nodes, s)
        invariant parent == PathAddr(c) && (!c.Top? ==> direction == if c.InLeft? then -1 else 1)
        decreases c
      {
        NoParent(nodes, root, c, t, s, es);
        FocusParent(nodes, root, c, t, s, es);
        ShrunkUp(c, t);
        ghost var u, was := Joined(c, t, c.bf), nodes;
        NoParent(nodes, root, c.up, u, s, es);
        var pp := ParentOf(nodes[parent].prev);
        var bf := BalanceOf(nodes[parent].prev) - direction;
        if pp != 0 {
          direction := if nodes[pp].left == parent then -1 else 1;
        }
        if bf == -2 || bf == 2 {
          ghost var u';
          var even;
          even, u' := TurnDelete(parent, bf, c, t, s, es);
          WithinTrans(old(nodes), was, nodes, s, s, s);
          c, t := c.up, u';
          if even {
            FocusDone(nodes, root, c, t, s, es);
            return Plug(c, t);
          }
        } else {
          SetBalance(parent, bf);
          FocusSet(was, nodes, root, c.up, u, bf, s, es);
          WithinOne(old(nodes), was, nodes, s, parent, nodes[parent]);
          c, t := c.up, Joined(c, t, bf);
          if bf != 0 {
            FocusDone(nodes, root, c, t, s, es);
            return Plug(c, t);
          }
        }
        parent := pp;
      }
      NoParent(nodes, root, c, t, s, es);
      ShrunkTop(t);
      FocusDone(nodes, root, c, t, s, es);
      tree := Plug(c, t);
    }

    /** Unlink a node without left child from its parent; direction is the side it was on. */
    method Splice(nd: nat, ghost c: Path, ghost t: Tree) returns (parent: nat, direction: int)
      requires Holds(nodes, root, c, t) && t.Node? && t.l.Leaf? && !c.Top? && nd == t.a
      modifies this`nodes
      ensures Holds(nodes, root, c, t.r) && Within(old(nodes), nodes, PathAddrs(c) + Addrs(t))
      ensures parent == PathAddr(c) && direction == if c.InLeft? then -1 else 1
    {
      Child(nodes, root, c, t);
      RotationReads(nodes, root, c, t);
      ghost var m0 := nodes;
      hide Holds, Addrs, PathAddrs, WithParent, BalanceOf;
      parent := ParentOf(nodes[nd].prev);
      var child := nodes[nd].right;
      if child != 0 {
        nodes := nodes[child := nodes[child].(prev := WithParent(nodes[child].prev, parent))];
      }
      ghost var m1 := nodes;
      if nodes[parent].left == nd {
        nodes := nodes[parent := nodes[parent].(left := child)];
        direction := -1;
      } else {
        nodes := nodes[parent := nodes[parent].(right := child)];
        direction := 1;
      }
      SpliceCells(m0, m1, nodes, root, c, t);
    }

    /** Take a node without left child out of the tree and rebalance from its parent. */
    method Unlink(nd: nat, ghost c: Path, ghost t: Tree) returns (ghost tree: Tree)
      requires Holds(nodes, root, c, t) && t.Node? && t.l.Leaf? && !c.Top? && nd == t.a
      requires Balanced(t) && PathBalanced(c, Height(t))
      modifies this`root, this`nodes
      ensures Stored(nodes, root, tree, PathAddrs(c) + Addrs(t) - {t.a}, Before(c) + Entries(t.r) + After(c))
      ensures Within(old(nodes), nodes, PathAddrs(c) + Addrs(t))
    {
      SplicedShrunk(c, t);
      SplicedAddrs(nodes, root, c, t);
      ghost var s, es := PathAddrs(c) + Addrs(t.r), Before(c) + Entries(t.r) + After(c);
      hide Holds, Focus, Shrunk, Within, Balanced, PathBalanced, Height, Addrs, PathAddrs, Before, After, Entries;
      var parent, direction := Splice(nd, c, t);
      ghost var m1 := nodes;
      FocusIntro(nodes, root, c, t.r, s, es);
      tree := FixDelete(parent, direction, c, t.r, s, es);
      WithinLess(old(nodes), m1, nodes, PathAddrs(c) + Addrs(t), s);
    }

    /** The leftmost node to the right of nd. */
    method Successor(nd: nat, ghost c: Path, ghost t: Tree) returns (succ: nat)
      requires Holds(nodes, root, c, t) && t.Node? && t.r.Node? && nd == t.a
      ensures succ == Leftmost(t.r).a
      ensures Leftmost(t.r).a in nodes && nodes[succ].data == Leftmost(t.r).d && t.a in nodes && succ != t.a
    {
      Fields(nodes, root, c, t);
      DownRight(nodes, root, c, t);
      ghost var c1, t1 := InRight(c, t.a, t.d, t.bf, t.l), t.r;
      LeftmostIs(c1, t1);
      succ := nodes[nd].right;
      Fields(nodes, root, c1, t1);
      while nodes[succ].left != 0
        invariant Holds(nodes, root, c1, t1) && t1.Node? && succ == t1.a && succ in nodes && Leftmost(t1) == Leftmost(t.r)
        invariant nodes[succ].left == Addr(t1.l) && nodes[succ].data == t1.d
        decreases t1
      {
        hide Holds;
        DownLeft(nodes, root, c1, t1);
        c1, t1 := InLeft(c1, t1.a, t1.d, t1.bf, t1.r), t1.l;
        Fields(nodes, root, c1, t1);
        succ := nodes[succ].left;
      }
      ReprAddrs(nodes, t1, PathAddr(c1));
    }

    /** The node takes over its successor's word, and the successor leaves the tree. */
    method ReplaceBySuccessor(nd: nat, ghost c0: Path, ghost t0: Tree) returns (removed: nat, ghost tree': Tree)
      requires Holds(nodes, root, c0, t0) && t0.Node? && nd == t0.a && Balanced(t0) && PathBalanced(c0, Height(t0))
      requires t0.r.Node?
      modifies this`root, this`nodes
      ensures Removed(Before(c0) + Entries(t0) + After(c0), Entries(tree'), nd, removed) && removed in Addrs(t0)
      ensures Stored(nodes, root, tree', PathAddrs(c0) + Addrs(t0) - {removed}, Entries(tree'))
      ensures Within(old(nodes), nodes, PathAddrs(c0) + Addrs(t0))
    {
      RotationReads(nodes, root, c0, t0);
      ghost var m0, s, root0 := nodes, PathAddrs(c0) + Addrs(t0), root;
      var succ := Successor(nd, c0, t0);
      var d := nodes[succ].data;
      nodes := nodes[nd := nodes[nd].(data := d)];
      ghost var m1 := nodes;
      ghost var t := Leftmost(t0.r);
      ghost var c := LeftmostPath(InRight(c0, t0.a, d, t0.bf, t0.l), t0.r);
      hide *;
      WithinRefl(m0, s);
      ChildPathAddrs(c0, t0);
      DataSet(m0, m1, root0, c0, t0, d);
      WithinOne(m0, m0, m1, s, nd, m1[nd]);
      AtSuccessor(m1, root0, c0, t0, d);
      SuccessorEntries(c0, t0, c, t);
      tree' := Unlink(succ, c, t);
      removed := succ;
      WithinTrans(m0, m1, nodes, s, s, s);
    }

    /** Without a right child, the left child is a leaf whose word the node takes over. */
    method ReplaceByPredecessor(nd: nat, ghost c0: Path, ghost t0: Tree) returns (removed: nat, ghost tree': Tree)
      requires Holds(nodes, root, c0, t0) && t0.Node? && nd == t0.a && Balanced(t0) && PathBalanced(c0, Height(t0))
      requires t0.r.Leaf? && t0.l.Node?
      modifies this`root, this`nodes
      ensures Removed(Before(c0) + Entries(t0) + After(c0), Entries(tree'), nd, removed) && removed in Addrs(t0)
      ensures Stored(nodes, root, tree', PathAddrs(c0) + Addrs(t0) - {removed}, Entries(tree'))
      ensures Within(old(nodes), nodes, PathAddrs(c0) + Addrs(t0))
    {
      RotationReads(nodes, root, c0, t0);
      Child(nodes, root, c0, t0);
      DownLeft(nodes, root, c0, t0);
      Fields(nodes, root, InLeft(c0, t0.a, t0.d, t0.bf, t0.r), t0.l);
      ghost var m0, s, root0 := nodes, PathAddrs(c0) + Addrs(t0), root;
      hide *;
      var pred := nodes[nd].left;
      var d := nodes[pred].data;
      nodes := nodes[nd := nodes[nd].(data := d)];
      ghost var m1 := nodes;
      ghost var c := InLeft(c0, t0.a, d, t0.bf, Leaf);
      WithinRefl(m0, s);
      ChildPathAddrs(c0, t0);
      DataSet(m0, m1, root0, c0, t0, d);
      WithinOne(m0, m0, m1, s, nd, m1[nd]);
      AtPredecessor(m1, root0, c0, t0, d);
      PredecessorEntries(c0, t0);
      tree' := Unlink(pred, c, t0.l);
      removed := pred;
      WithinTrans(m0, m1, nodes, s, s, s);
    }

    method DropLeaf(nd: nat, ghost c0: Path, ghost t0: Tree) returns (removed: nat, ghost tree': Tree)
      requires Holds(nodes, root, c0, t0) && t0.Node? && nd == t0.a && Balanced(t0) && PathBalanced(c0, Height(t0))
      requires t0.r.Leaf? && t0.l.Leaf?
      modifies this`root, this`nodes
      ensures Removed(Before(c0) + Entries(t0) + After(c0), Entries(tree'), nd, removed) && removed in Addrs(t0)
      ensures Stored(nodes, root, tree', PathAddrs(c0) + Addrs(t0) - {removed}, Entries(tree'))
      ensures Within(old(nodes), nodes, PathAddrs(c0) + Addrs(t0))
    {
      hide *;
      assert t0.r == Leaf;
      Links(nodes, root, c0, t0);
      LeafEntries(c0, t0);
      LeafIn(t0);
      removed := nd;
      if ParentOf(nodes[nd].prev) == 0 {
        LastOut(nodes, root, c0, t0);
        WithinRefl(nodes, PathAddrs(c0) + Addrs(t0));
        root := 0;
        tree' := Leaf;
      } else {
        tree' := Unlink(nd, c0, t0);
        assert t0.r == Leaf;
        StoredIs(nodes, root, tree', PathAddrs(c0) + Addrs(t0) - {nd}, Before(c0) + Entries(Leaf) + After(c0));
      }
    }

    /** _avl_delete on a node of the tree; removed is the memory that is no longer in use. */
    method DeleteAt(nd: nat, ghost c0: Path, ghost t0: Tree) returns (removed: nat, ghost tree': Tree)
      requires Holds(nodes, root, c0, t0) && t0.Node? && nd == t0.a && Balanced(t0) && PathBalanced(c0, Height(t0))
      modifies this`root, this`nodes
      ensures Removed(Before(c0) + Entries(t0) + After(c0), Entries(tree'), nd, removed) && removed in Addrs(t0)
      ensures Stored(nodes, root, tree', PathAddrs(c0) + Addrs(t0) - {removed}, Entries(tree'))
      ensures Within(old(nodes), nodes, PathAddrs(c0) + Addrs(t0))
    {
      hide *;
      Links(nodes, root, c0, t0);
      if nodes[nd].right != 0 {
        removed, tree' := ReplaceBySuccessor(nd, c0, t0);
      } else if nodes[nd].left != 0 {
        removed, tree' := ReplaceByPredecessor(nd, c0, t0);
      } else {
        removed, tree' := DropLeaf(nd, c0, t0);
      }
    }

    /** avl_move for a node that stays where it is in the tree but not in memory. */
    method MoveAt(dest: nat, src: nat, ghost c: Path, ghost t: Tree)
      requires Holds(nodes, root, c, t) && t.Node? && src == t.a && dest != 0 && dest !in PathAddrs(c) + Addrs(t)
      modifies this`root, this`nodes
      ensures Holds(nodes, root, c, Node(t.l, dest, t.d, t.bf, t.r))
      ensures Beyond(old(nodes), nodes, PathAddrs(c) + Addrs(t), dest)
    {
      RotationReads(nodes, root, c, t);
      Child(nodes, root, c, t);
      RootAt(nodes, root, c, t);
      ghost var m0, root0 := nodes, root;
      hide Holds, PathAddrs, Addrs, BalanceOf, WithParent, Beyond;
      var parent := ParentOf(nodes[src].prev);
      if parent != 0 {
        if nodes[parent].left == src {
          nodes := nodes[parent := nodes[parent].(left := dest)];
        } else {
          nodes := nodes[parent := nodes[parent].(right := dest)];
        }
      }
      ghost var m1 := nodes;
      var left := nodes[src].left;
      if left != 0 {
        nodes := nodes[left := nodes[left].(prev := WithParent(nodes[left].prev, dest))];
      }
      ghost var m2 := nodes;
      var right := nodes[src].right;
      if right != 0 {
        nodes := nodes[right := nodes[right].(prev := WithParent(nodes[right].prev, dest))];
      }
      ghost var m3 := nodes;
      nodes := nodes[dest := Cell(nodes[src].prev, left, right, nodes[src].data)];
      if root == src { root := dest; }
      MoveDone(m0, m1, m2, m3, nodes, root0, root, c, t, dest);
    }

    /** _avl_delete: nothing to do for a null node or an empty tree. */
    method Delete(nd: nat, ghost tree: Tree) returns (removed: nat, ghost tree': Tree)
      requires Stored(nodes, root, tree, Addrs(tree), Entries(tree)) && (nd == 0 || nd in Addrs(tree))
      modifies this`root, this`nodes
      ensures nd == 0 ==> removed == 0 && tree' == tree && nodes == old(nodes) && root == old(root)
      ensures nd != 0 ==> Removed(Entries(tree), Entries(tree'), nd, removed) && removed in Addrs(tree)
      ensures nd != 0 ==> Stored(nodes, root, tree', Addrs(tree) - {removed}, Entries(tree'))
      ensures forall byAddr :: Sorted(byAddr, Entries(tree)) ==> Sorted(byAddr, Entries(tree'))
      ensures Fib(Height(tree') + 2) <= |Entries(tree')| + 1
      ensures Within(old(nodes), nodes, Addrs(tree))
    {
      hide *;
      RootOfStored(nodes, root, tree);
      WithinRefl(nodes, Addrs(tree));
      StoredBalanced(nodes, root, tree);
      if root == 0 || nd == 0 {
        Logarithmic(tree);
        return 0, tree;
      }
      ghost var c, t := LocateStored(nodes, root, tree, nd);
      ghost var es, s := Entries(tree), Addrs(tree);
      removed, tree' := DeleteAt(nd, c, t);
      StoredIs(nodes, root, tree', s - {removed}, Entries(tree'));
      StoredBalanced(nodes, root, tree');
      Logarithmic(tree');
      forall byAddr | Sorted(byAddr, es) ensures Sorted(byAddr, Entries(tree')) {
        RemovedSorted(byAddr, es, Entries(tree'), nd, removed);
      }
    }

    /** avl_find: the node that holds the word data, null when no node does. */
    method Find(data: nat, ghost tree: Tree) returns (nd: nat)
      requires Stored(nodes, root, tree, Addrs(tree), Entries(tree)) && Sorted(false, Entries(tree))
      ensures nd == 0 <==> data !in Datas(Entries(tree))
      ensures nd != 0 ==> nd in Addrs(tree) && HasEntry(Entries(tree), Entry(nd, data)) && nd in nodes && nodes[nd].data == data
    {
      HasIsData(Entries(tree), data);
      SeekStart(nodes, root, data, tree);
      hide *;
      ghost var c, t := Top, tree;
      nd := root;
      while nd != 0
        invariant Seeking(nodes, root, false, data, c, t, tree) && nd == Addr(t)
        decreases t
      {
        SeekStep(nodes, root, false, data, c, t, tree);
        SeekNode(nodes, root, data, c, t, tree);
        if nodes[nd].data > data {
          nd := nodes[nd].left;
          c, t := InLeft(c, t.a, t.d, t.bf, t.r), t.l;
        } else if nodes[nd].data < data {
          nd := nodes[nd].right;
          c, t := InRight(c, t.a, t.d, t.bf, t.l), t.r;
        } else {
          return nd;
        }
      }
      SeekEnd(nodes, root, false, data, c, t, tree);
    }

    /** avl_delete, up to giving the memory at removed back: the word data leaves the tree; failed when it is not there. */
    method DeleteWord(data: nat, ghost tree: Tree) returns (failed: bool, removed: nat, ghost tree': Tree)
      requires Stored(nodes, root, tree, Addrs(tree), Entries(tree)) && Sorted(false, Entries(tree))
      modifies this`root, this`nodes
      ensures failed <==> data !in Datas(Entries(tree))
      ensures failed ==> tree' == tree && nodes == old(nodes) && root == old(root)
      ensures Datas(Entries(tree')) == Datas(Entries(tree)) - {data} && Sorted(false, Entries(tree'))
      ensures !failed ==> removed in Addrs(tree) && Addrs(tree') == Addrs(tree) - {removed}
      ensures Stored(nodes, root, tree', Addrs(tree'), Entries(tree')) && Fib(Height(tree') + 2) <= |Entries(tree')| + 1
    {
      hide *;
      StoredBalanced(nodes, root, tree);
      var nd := Find(data, tree);
      if nd == 0 {
        Logarithmic(tree);
        return true, 0, tree;
      }
      ghost var s, es, m, r := Addrs(tree), Entries(tree), nodes, root;
      removed, tree' := Delete(nd, tree);
      StoredIs(nodes, root, tree', s - {removed}, Entries(tree'));
      ghost var d := RemovedDatas(es, Entries(tree'), nd, removed);
      OneWord(m, r, tree, nd, d, data);
      failed := false;
    }

    /** avl_move: the node at src continues at dest. */
    method Move(dest: nat, src: nat, ghost tree: Tree)
      returns (ghost tree': Tree, ghost b: seq<Entry>, ghost d: nat, ghost f: seq<Entry>)
      requires Stored(nodes, root, tree, Addrs(tree), Entries(tree)) && src in Addrs(tree)
      requires dest != 0 && (dest == src || dest !in Addrs(tree))
      modifies this`root, this`nodes
      ensures Entries(tree) == b + [Entry(src, d)] + f && Entries(tree') == b + [Entry(dest, d)] + f
      ensures Stored(nodes, root, tree', Addrs(tree) - {src} + {dest}, Entries(tree'))
      ensures if dest == src then nodes == old(nodes) && tree' == tree else Beyond(old(nodes), nodes, Addrs(tree), dest)
    {
      ghost var c, t := LocateStored(nodes, root, tree, src);
      b, d, f := Before(c) + Entries(t.l), t.d, Entries(t.r) + After(c);
      EntriesAt(c, t);
      if dest == src { return tree, b, d, f; }
      ghost var u := Node(t.l, dest, t.d, t.bf, t.r);
      EntriesAt(c, u);
      MovedAddrs(nodes, root, c, t, dest);
      ghost var s, es := Addrs(tree) - {src} + {dest}, b + [Entry(dest, d)] + f;
      hide *;
      MoveAt(dest, src, c, t);
      FocusIntro(nodes, root, c, u, s, es);
      BalanceMoved(c, t, dest);
      FocusDone(nodes, root, c, u, s, es);
      tree' := Plug(c, u);
      StoredIs(nodes, root, tree', s, es);
    }
  }
}
