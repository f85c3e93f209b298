/**
 How the nodes in memory represent a tree: child addresses, and the parent
 address and balance factor packed into one word.
 */
module AvlMemory {
  import opened AvlTrees

  /** An AVL_Node; prev holds the parent's byte address and, in its two low bits, the balance factor. */
  datatype Cell = Cell(prev: nat, left: nat, right: nat, data: nat)

  type Memory = map<nat, Cell>

  // ------------------------------------------------------- the packed word

  /** rev_balance_factor: -1, 0, 1 are stored as 2, 3, 1. */
  function RevBalance(bf: int): nat { if bf == 0 then 3 else if bf == -1 then 2 else 1 }

  function Pack(parent: nat, bf: int): nat { 8 * parent + RevBalance(bf) }

  /** get_parent clears the low two bits; addresses here count words, so the byte address is divided by 8. */
  function ParentOf(prev: nat): nat { (prev - prev % 4) / 8 }

  /** balance_factor: 1 for 1, otherwise the stored code minus 3. */
  function BalanceOf(prev: nat): int { if prev % 4 == 1 then 1 else prev % 4 - 3 }

  function WithBalance(prev: nat, bf: int): nat { prev - prev % 4 + RevBalance(bf) }

  function WithParent(prev: nat, parent: nat): nat { 8 * parent + prev % 4 }

  lemma PackUnpack(parent: nat, bf: int, q: nat, b: int)
    requires -1 <= bf <= 1
    ensures ParentOf(Pack(parent, bf)) == parent && BalanceOf(Pack(parent, bf)) == bf
    ensures WithBalance(Pack(parent, bf), b) == Pack(parent, b) && WithParent(Pack(parent, bf), q) == Pack(q, bf)
  {
    assert Pack(parent, bf) % 4 == RevBalance(bf);
    assert (8 * parent) / 8 == parent;
  }

  // -------------------------------------------------------- representation

  ghost predicate NodeAt(mem: Memory, a: nat, up: nat, bf: int, left: nat, right: nat, d: nat) {
    a != 0 && a in mem && -1 <= bf <= 1 && mem[a] == Cell(Pack(up, bf), left, right, d)
  }

  /** The nodes of t are in memory, the top one having parent up. */
  ghost predicate Repr(mem: Memory, t: Tree, up: nat) {
    match t
    case Leaf => true
    case Node(l, a, d, bf, r) => NodeAt(mem, a, up, bf, Addr(l), Addr(r), d) && Repr(mem, l, a) && Repr(mem, r, a)
  }

  /** The nodes of the path are in memory, and the position it leads to holds the address hole. */
  ghost predicate PathRepr(mem: Memory, c: Path, hole: nat) {
    match c
    case Top => true
    case InLeft(up, a, d, bf, r) => NodeAt(mem, a, PathAddr(up), bf, hole, Addr(r), d) && Repr(mem, r, a) && PathRepr(mem, up, a)
    case InRight(up, a, d, bf, l) => NodeAt(mem, a, PathAddr(up), bf, Addr(l), hole, d) && Repr(mem, l, a) && PathRepr(mem, up, a)
  }

  function RootOf(c: Path, hole: nat): nat {
    match c
    case Top => hole
    case InLeft(up, a, _, _, _) => RootOf(up, a)
    case InRight(up, a, _, _, _) => RootOf(up, a)
  }

  /** Memory, seen from the root pointer, holds the tree Plug(c, t). */
  ghost predicate Holds(mem: Memory, root: nat, c: Path, t: Tree) {
    && PathRepr(mem, c, Addr(t)) && Repr(mem, t, PathAddr(c)) && root == RootOf(c, Addr(t))
    && PathDistinct(c) && Distinct(t) && PathAddrs(c) !! Addrs(t)
  }

  /** Memory agrees on a set of addresses. */
  ghost predicate Same(mem: Memory, mem': Memory, s: set<nat>) {
    forall x :: x in s && x in mem ==> x in mem' && mem'[x] == mem[x]
  }

  lemma {:induction false} ReprFrame(mem: Memory, mem': Memory, t: Tree, up: nat)
    requires Repr(mem, t, up) && Same(mem, mem', Addrs(t))
    ensures Repr(mem', t, up)
  {
    match t {
      case Leaf =>
      case Node(l, a, _, _, r) =>
        ReprFrame(mem, mem', l, a);
        ReprFrame(mem, mem', r, a);
    }
  }

  lemma {:induction false} PathFrame(mem: Memory, mem': Memory, c: Path, hole: nat)
    requires PathRepr(mem, c, hole) && Same(mem, mem', PathAddrs(c))
    ensures PathRepr(mem', c, hole)
  {
    match c {
      case Top =>
      case InLeft(up, a, _, _, r) =>
        ReprFrame(mem, mem', r, a);
        PathFrame(mem, mem', up, a);
      case InRight(up, a, _, _, l) =>
        ReprFrame(mem, mem', l, a);
        PathFrame(mem, mem', up, a);
    }
  }

  lemma {:induction false} ReprAddrs(mem: Memory, t: Tree, up: nat)
    requires Repr(mem, t, up)
    ensures 0 !in Addrs(t) && Addrs(t) <= mem.Keys
  {
    match t {
      case Leaf =>
      case Node(l, a, _, _, r) =>
        ReprAddrs(mem, l, a);
        ReprAddrs(mem, r, a);
    }
  }

  lemma {:induction false} PathReprAddrs(mem: Memory, c: Path, hole: nat)
    requires PathRepr(mem, c, hole)
    ensures 0 !in PathAddrs(c) && PathAddrs(c) <= mem.Keys
  {
    match c {
      case Top =>
      case InLeft(up, a, _, _, r) =>
        ReprAddrs(mem, r, a);
        PathReprAddrs(mem, up, a);
      case InRight(up, a, _, _, l) =>
        ReprAddrs(mem, l, a);
        PathReprAddrs(mem, up, a);
    }
  }

  /** A new parent address in the top node. */
  lemma Reparent(mem: Memory, mem': Memory, t: Tree, up: nat, up': nat)
    requires Repr(mem, t, up) && Distinct(t) && Same(mem, mem', Addrs(t) - {Addr(t)})
    requires t.Node? ==> t.a in mem' && mem'[t.a] == mem[t.a].(prev := WithParent(mem[t.a].prev, up'))
    ensures Repr(mem', t, up')
  {
    if t.Node? {
      PackUnpack(up, t.bf, up', 0);
      ReprFrame(mem, mem', t.l, t.a);
      ReprFrame(mem, mem', t.r, t.a);
    }
  }

  /** A new address in the position a path leads to. */
  lemma Rehole(mem: Memory, mem': Memory, c: Path, hole: nat, hole': nat)
    requires PathRepr(mem, c, hole) && PathDistinct(c) && Same(mem, mem', PathAddrs(c) - {PathAddr(c)})
    requires c.InLeft? ==> c.a in mem' && mem'[c.a] == mem[c.a].(left := hole')
    requires c.InRight? ==> c.a in mem' && mem'[c.a] == mem[c.a].(right := hole')
    ensures PathRepr(mem', c, hole')
  {
    match c {
      case Top =>
      case InLeft(up, a, _, _, r) =>
        ReprFrame(mem, mem', r, a);
        PathFrame(mem, mem', up, a);
      case InRight(up, a, _, _, l) =>
        ReprFrame(mem, mem', l, a);
        PathFrame(mem, mem', up, a);
    }
  }

  // ------------------------------------------------------ moving a position

  lemma DownLeft(mem: Memory, root: nat, c: Path, t: Tree)
    requires Holds(mem, root, c, t) && t.Node?
    ensures Holds(mem, root, InLeft(c, t.a, t.d, t.bf, t.r), t.l)
  {
  }

  lemma DownRight(mem: Memory, root: nat, c: Path, t: Tree)
    requires Holds(mem, root, c, t) && t.Node?
    ensures Holds(mem, root, InRight(c, t.a, t.d, t.bf, t.l), t.r)
  {
  }

  lemma Up(mem: Memory, root: nat, c: Path, t: Tree)
    requires Holds(mem, root, c, t) && !c.Top?
    ensures Holds(mem, root, c.up, if c.InLeft? then Node(t, c.a, c.d, c.bf, c.r) else Node(c.l, c.a, c.d, c.bf, t))
  {
  }

  lemma {:induction false} ToTop(mem: Memory, root: nat, c: Path, t: Tree)
    requires Holds(mem, root, c, t)
    ensures Holds(mem, root, Top, Plug(c, t))
    decreases c
  {
    if !c.Top? {
      Up(mem, root, c, t);
      ToTop(mem, root, c.up, if c.InLeft? then Node(t, c.a, c.d, c.bf, c.r) else Node(c.l, c.a, c.d, c.bf, t));
    }
  }

  lemma {:induction false} ToLeftmost(mem: Memory, root: nat, c: Path, t: Tree)
    requires Holds(mem, root, c, t) && t.Node?
    ensures Holds(mem, root, LeftmostPath(c, t), Leftmost(t))
    decreases t
  {
    if !t.l.Leaf? {
      DownLeft(mem, root, c, t);
      ToLeftmost(mem, root, InLeft(c, t.a, t.d, t.bf, t.r), t.l);
    }
  }

  /** The left and right links of a path's last node tell on which side the position is. */
  lemma Side(mem: Memory, root: nat, c: Path, t: Tree)
    requires Holds(mem, root, c, t) && t.Node? && !c.Top?
    ensures mem[c.a].left == t.a <==> c.InLeft?
  {
    if c.InRight? { ReprAddrs(mem, t, PathAddr(c)); }
  }

  lemma NewBalance(mem: Memory, mem': Memory, a: nat, up: nat, bf: int, bf': int, left: nat, right: nat, d: nat)
    requires NodeAt(mem, a, up, bf, left, right, d) && -1 <= bf' <= 1
    requires a in mem' && mem'[a] == mem[a].(prev := WithBalance(mem[a].prev, bf'))
    ensures NodeAt(mem', a, up, bf', left, right, d)
  {
    PackUnpack(up, bf, 0, bf');
  }

  /** A new balance factor in the node at a position. */
  lemma Rebalanced(mem: Memory, mem': Memory, root: nat, c: Path, t: Tree, bf: int)
    requires Holds(mem, root, c, t) && t.Node? && -1 <= bf <= 1 && t.a in mem
    requires mem' == mem[t.a := mem[t.a].(prev := WithBalance(mem[t.a].prev, bf))]
    ensures Holds(mem', root, c, Node(t.l, t.a, t.d, bf, t.r))
  {
    hide WithBalance, NodeAt;
    NewBalance(mem, mem', t.a, PathAddr(c), t.bf, bf, Addr(t.l), Addr(t.r), t.d);
    PathFrame(mem, mem', c, t.a);
    ReprFrame(mem, mem', t.l, t.a);
    ReprFrame(mem, mem', t.r, t.a);
  }

  // -------------------------------------------------------------- rotations

  lemma RootElsewhere(c: Path, hole: nat, hole': nat)
    requires !c.Top?
    ensures RootOf(c, hole) == RootOf(c, hole')
  {
  }

  /** The position c now holds hole': its last node, or the root pointer, says so. */
  ghost predicate Redirected(mem: Memory, mem': Memory, root: nat, root': nat, c: Path, hole': nat) {
    && (c.Top? ==> root' == hole')
    && (!c.Top? ==> root' == root && c.a in mem && c.a in mem')
    && (c.InLeft? ==> mem'[c.a] == mem[c.a].(left := hole'))
    && (c.InRight? ==> mem'[c.a] == mem[c.a].(right := hole'))
  }

  /** The top node of t has the new parent up. */
  ghost predicate Adopted(mem: Memory, mem': Memory, t: Tree, up: nat) {
    t.Node? ==> t.a in mem && t.a in mem' && mem'[t.a] == mem[t.a].(prev := WithParent(mem[t.a].prev, up))
  }

  /** The three subtrees of a rotation after it. */
  ghost predicate Kids(mem: Memory, mem': Memory, A: Tree, B: Tree, C: Tree, b: nat) {
    && Same(mem, mem', Addrs(A)) && Same(mem, mem', Addrs(C)) && Same(mem, mem', Addrs(B) - {Addr(B)}) && Adopted(mem, mem', B, b)
  }

  lemma KidsRepr(mem: Memory, mem': Memory, A: Tree, B: Tree, C: Tree, a: nat, b: nat, b': nat, c: nat)
    requires Repr(mem, A, a) && Repr(mem, B, b) && Repr(mem, C, c) && Distinct(B) && Kids(mem, mem', A, B, C, b')
    ensures Repr(mem', A, a) && Repr(mem', B, b') && Repr(mem', C, c)
  {
    ReprFrame(mem, mem', A, a);
    Reparent(mem, mem', B, b, b');
    ReprFrame(mem, mem', C, c);
  }

  lemma PathAfter(mem: Memory, mem': Memory, root: nat, root': nat, c: Path, hole: nat, hole': nat)
    requires PathRepr(mem, c, hole) && PathDistinct(c) && Same(mem, mem', PathAddrs(c) - {PathAddr(c)})
    requires root == RootOf(c, hole) && Redirected(mem, mem', root, root', c, hole')
    ensures PathRepr(mem', c, hole') && root' == RootOf(c, hole')
  {
    Rehole(mem, mem', c, hole, hole');
    if !c.Top? { RootElsewhere(c, hole, hole'); }
  }

  lemma RotatedLeft(mem: Memory, mem': Memory, root: nat, root': nat, c: Path,
                    A: Tree, n: nat, dn: nat, bn: int, B: Tree, r: nat, dr: nat, br: int, C: Tree, bn': int, br': int)
    requires Holds(mem, root, c, LeanRight(A, n, dn, bn, B, r, dr, br, C))
    requires NodeAt(mem', n, r, bn', Addr(A), Addr(B), dn) && NodeAt(mem', r, PathAddr(c), br', n, Addr(C), dr)
    requires Redirected(mem, mem', root, root', c, r) && Kids(mem, mem', A, B, C, n)
    requires Same(mem, mem', PathAddrs(c) - {PathAddr(c)})
    ensures Holds(mem', root', c, LeanLeft(A, n, dn, bn', B, r, dr, br', C))
  {
    hide NodeAt, Same, Redirected, Kids, PathRepr, PathDistinct, Addrs, PathAddrs;
    PathAfter(mem, mem', root, root', c, n, r);
    LeanAddrs(A, n, dn, bn, B, r, dr, br, C, bn', br');
    assert Repr(mem, Node(B, r, dr, br, C), n) && Distinct(Node(B, r, dr, br, C));
    KidsRepr(mem, mem', A, B, C, n, r, n, r);
    assert Repr(mem', Node(A, n, dn, bn', B), r);
  }

  lemma RotatedRight(mem: Memory, mem': Memory, root: nat, root': nat, c: Path,
                     A: Tree, r: nat, dr: nat, br: int, B: Tree, n: nat, dn: nat, bn: int, C: Tree, br': int, bn': int)
    requires Holds(mem, root, c, LeanLeft(A, r, dr, br, B, n, dn, bn, C))
    requires NodeAt(mem', n, r, bn', Addr(B), Addr(C), dn) && NodeAt(mem', r, PathAddr(c), br', Addr(A), n, dr)
    requires Redirected(mem, mem', root, root', c, r) && Kids(mem, mem', A, B, C, n)
    requires Same(mem, mem', PathAddrs(c) - {PathAddr(c)})
    ensures Holds(mem', root', c, LeanRight(A, r, dr, br', B, n, dn, bn', C))
  {
    hide NodeAt, Same, Redirected, Kids, PathRepr, PathDistinct, Addrs, PathAddrs;
    PathAfter(mem, mem', root, root', c, n, r);
    LeanAddrs(A, r, dr, br', B, n, dn, bn', C, br, bn);
    assert Repr(mem, Node(A, r, dr, br, B), n) && Distinct(Node(A, r, dr, br, B));
    KidsRepr(mem, mem', A, B, C, r, r, n, n);
    assert Repr(mem', Node(B, n, dn, bn', C), r);
  }

  /** Only addresses in s may differ, and none appears or disappears. */
  ghost predicate Within(mem: Memory, mem': Memory, s: set<nat>) {
    mem'.Keys == mem.Keys && forall x :: x in mem && x !in s ==> mem'[x] == mem[x]
  }
}
