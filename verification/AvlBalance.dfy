/** What insertion and deletion do to heights and balance factors on the way back to the root. */
module AvlBalance {
  import opened AvlTrees

  lemma RotEntries(t: Tree)
    requires t.Node?
    ensures t.r.Node? ==> Entries(RotL(t)) == Entries(t)
    ensures t.l.Node? ==> Entries(RotR(t)) == Entries(t)
  {
    if t.r.Node? {
      Regroup(Entries(t.l), Entry(t.a, t.d), Entries(t.r.l), Entry(t.r.a, t.r.d), Entries(t.r.r));
    }
    if t.l.Node? {
      Regroup(Entries(t.l.l), Entry(t.l.a, t.l.d), Entries(t.l.r), Entry(t.a, t.d), Entries(t.r));
    }
  }

  lemma Regroup(x: seq<Entry>, e: Entry, y: seq<Entry>, f: Entry, z: seq<Entry>)
    ensures x + [e] + (y + [f] + z) == (x + [e] + y) + [f] + z
  {
  }

  lemma DoubleEntries(t: Tree)
    requires t.Node?
    ensures t.l.Node? && t.l.r.Node? ==> Entries(RotLR(t)) == Entries(t) && Addrs(RotLR(t)) == Addrs(t) && RotLR(t).Node?
    ensures t.r.Node? && t.r.l.Node? ==> Entries(RotRL(t)) == Entries(t) && Addrs(RotRL(t)) == Addrs(t) && RotRL(t).Node?
  {
    hide Levelled;
    if t.l.Node? && t.l.r.Node? {
      RotEntries(t.l);
      RotEntries(Node(RotL(t.l), t.a, t.d, t.bf, t.r));
      ShapeLR(t);
    }
    if t.r.Node? && t.r.l.Node? {
      RotEntries(t.r);
      RotEntries(Node(t.l, t.a, t.d, t.bf, RotR(t.r)));
      ShapeRL(t);
    }
  }

  /** The tree one level up from a position. */
  function Joined(c: Path, t: Tree, bf: int): Tree
    requires !c.Top?
  {
    if c.InLeft? then Node(t, c.a, c.d, bf, c.r) else Node(c.l, c.a, c.d, bf, t)
  }

  lemma JoinedEntries(c: Path, t: Tree, bf: int)
    requires !c.Top?
    ensures Before(c) + Entries(t) + After(c) == Before(c.up) + Entries(Joined(c, t, bf)) + After(c.up)
    ensures PathAddrs(c) + Addrs(t) == PathAddrs(c.up) + Addrs(Joined(c, t, bf))
  {
    if c.InLeft? {
      EntriesLeft(Before(c.up), Entries(t), Entry(c.a, c.d), Entries(c.r), After(c.up));
    } else {
      EntriesRight(Before(c.up), Entries(c.l), Entry(c.a, c.d), Entries(t), After(c.up));
    }
  }

  /** The factor the rebalancing loops compute when the subtree at c has grown (step = 1) or shrunk (step = -1). */
  function Shifted(c: Path, step: int): int
    requires !c.Top?
  {
    if c.InLeft? then c.bf - step else c.bf + step
  }

  function Sibling(c: Path): Tree
    requires !c.Top?
  {
    if c.InLeft? then c.r else c.l
  }

  // ------------------------------------------- what each rotation achieves

  lemma RightBalances(u: Tree)
    requires u.Node? && Balanced(u.l) && Balanced(u.r) && u.l.Node? && Height(u.l) == Height(u.r) + 2 && u.l.bf != 1
    ensures Balanced(RotR(u)) && Height(RotR(u)) == Height(u.l) + if u.l.bf == 0 then 1 else 0
  {
    assert Balanced(RotR(u).r);
  }

  lemma LeftBalances(u: Tree)
    requires u.Node? && Balanced(u.l) && Balanced(u.r) && u.r.Node? && Height(u.r) == Height(u.l) + 2 && u.r.bf != -1
    ensures Balanced(RotL(u)) && Height(RotL(u)) == Height(u.r) + if u.r.bf == 0 then 1 else 0
  {
    assert Balanced(RotL(u).l);
  }

  lemma LRBalances(u: Tree)
    requires u.Node? && Balanced(u.l) && Balanced(u.r) && u.l.Node? && Height(u.l) == Height(u.r) + 2 && u.l.bf == 1
    ensures u.l.r.Node? && Balanced(RotLR(u)) && Height(RotLR(u)) == Height(u.l)
  {
    var g := u.l.r;
    assert Balanced(g) && g.Node? && Balanced(g.l) && Balanced(g.r);
    var v := RotLR(u);
    assert Balanced(v.l) && Balanced(v.r);
  }

  lemma RLBalances(u: Tree)
    requires u.Node? && Balanced(u.l) && Balanced(u.r) && u.r.Node? && Height(u.r) == Height(u.l) + 2 && u.r.bf == -1
    ensures u.r.l.Node? && Balanced(RotRL(u)) && Height(RotRL(u)) == Height(u.r)
  {
    var g := u.r.l;
    assert Balanced(g) && g.Node? && Balanced(g.l) && Balanced(g.r);
    var v := RotRL(u);
    assert Balanced(v.l) && Balanced(v.r);
  }

  // ------------------------------------------------------------ going upwards

  /** A position whose subtree has grown by one level. */
  ghost predicate Grown(c: Path, t: Tree) {
    && Balanced(t) && Height(t) >= 1 && PathBalanced(c, Height(t) - 1)
    && (t.bf == 0 ==> Height(t) == 1 && (!c.Top? ==> Sibling(c).Leaf?))
  }

  /** A factor of zero: the parent has not grown; otherwise it has, or needs a rotation. */
  lemma GrownUp(c: Path, t: Tree)
    requires Grown(c, t) && !c.Top?
    ensures var bf := Shifted(c, 1);
            && -2 <= bf <= 2
            && (bf == 0 ==> Balanced(Joined(c, t, 0)) && PathBalanced(c.up, Height(Joined(c, t, 0))))
            && (bf == 1 || bf == -1 ==> Grown(c.up, Joined(c, t, bf)))
            && (bf == -2 ==> c.InLeft? && c.bf == -1) && (bf == 2 ==> c.InRight? && c.bf == 1)
  {
  }

  /** The rotation that insertion chooses restores balance and the old height. */
  lemma GrownLeft(c: Path, t: Tree)
    requires Grown(c, t) && c.InLeft? && c.bf == -1
    ensures var u := Joined(c, t, c.bf);
            && (t.bf == -1 ==> Balanced(RotR(u)) && PathBalanced(c.up, Height(RotR(u))))
            && (t.bf != -1 ==> t.r.Node? && Balanced(RotLR(u)) && PathBalanced(c.up, Height(RotLR(u))))
  {
    if t.bf == -1 { RightBalances(Joined(c, t, c.bf)); } else { LRBalances(Joined(c, t, c.bf)); }
  }

  lemma GrownRight(c: Path, t: Tree)
    requires Grown(c, t) && c.InRight? && c.bf == 1
    ensures var u := Joined(c, t, c.bf);
            && (t.bf == 1 ==> Balanced(RotL(u)) && PathBalanced(c.up, Height(RotL(u))))
            && (t.bf != 1 ==> t.l.Node? && Balanced(RotRL(u)) && PathBalanced(c.up, Height(RotRL(u))))
  {
    if t.bf == 1 { LeftBalances(Joined(c, t, c.bf)); } else { RLBalances(Joined(c, t, c.bf)); }
  }

  /** A position whose subtree has shrunk by one level. */
  ghost predicate Shrunk(c: Path, t: Tree) { Balanced(t) && PathBalanced(c, Height(t) + 1) }

  /** A factor of one: the parent keeps its height; zero: it has shrunk; two: it needs a rotation. */
  lemma ShrunkUp(c: Path, t: Tree)
    requires Shrunk(c, t) && !c.Top?
    ensures var bf := Shifted(c, -1);
            && -2 <= bf <= 2
            && (bf == 0 ==> Shrunk(c.up, Joined(c, t, 0)))
            && (bf == 1 || bf == -1 ==> Balanced(Joined(c, t, bf)) && PathBalanced(c.up, Height(Joined(c, t, bf))))
            && (bf == -2 ==> c.InRight? && c.bf == -1) && (bf == 2 ==> c.InLeft? && c.bf == 1)
  {
  }

  /** The rotation that deletion chooses; the height is unchanged exactly when the taller child was even. */
  lemma ShrunkLeft(c: Path, t: Tree)
    requires Shrunk(c, t) && c.InLeft? && c.bf == 1
    ensures c.r.Node? && -1 <= c.r.bf <= 1
    ensures var u := Joined(c, t, c.bf);
            && (c.r.bf == -1 ==> c.r.l.Node? && Shrunk(c.up, RotRL(u)))
            && (c.r.bf == 1 ==> Shrunk(c.up, RotL(u)))
            && (c.r.bf == 0 ==> Balanced(RotL(u)) && PathBalanced(c.up, Height(RotL(u))))
  {
    if c.r.bf == -1 { RLBalances(Joined(c, t, c.bf)); } else { LeftBalances(Joined(c, t, c.bf)); }
  }

  lemma ShrunkRight(c: Path, t: Tree)
    requires Shrunk(c, t) && c.InRight? && c.bf == -1
    ensures c.l.Node? && -1 <= c.l.bf <= 1
    ensures var u := Joined(c, t, c.bf);
            && (c.l.bf == 1 ==> c.l.r.Node? && Shrunk(c.up, RotLR(u)))
            && (c.l.bf == -1 ==> Shrunk(c.up, RotR(u)))
            && (c.l.bf == 0 ==> Balanced(RotR(u)) && PathBalanced(c.up, Height(RotR(u))))
  {
    if c.l.bf == 1 { LRBalances(Joined(c, t, c.bf)); } else { RightBalances(Joined(c, t, c.bf)); }
  }

  // ---------------------------------------------------------------- rotations

  /** The tree without its balance factors. */
  function Flat(t: Tree): Tree {
    match t
    case Leaf => Leaf
    case Node(l, a, d, _, r) => Node(Flat(l), a, d, 0, Flat(r))
  }

  /** One single or double rotation, at the root. */
  predicate Turned(u: Tree, u': Tree) {
    u.Node? && (
      || (u.r.Node? && u' == RotL(u))
      || (u.l.Node? && u' == RotR(u))
      || (u.l.Node? && u.l.r.Node? && u' == RotLR(u))
      || (u.r.Node? && u.r.l.Node? && u' == RotRL(u)))
  }

  ghost predicate TurnedAt(t: Tree, t': Tree, c: Path, u: Tree, u': Tree) {
    Turned(u, u') && Flat(Plug(c, u)) == Flat(t) && Flat(Plug(c, u')) == Flat(t')
  }

  /** But for balance factors, at most one single or double rotation, somewhere in the tree. */
  ghost predicate AtMostOneTurn(t: Tree, t': Tree) {
    Flat(t) == Flat(t') || exists c, u, u' :: TurnedAt(t, t', c, u, u')
  }

  /** The new node takes the place of a leaf, and then the tree is turned at most once. */
  ghost predicate GraftedAt(tree: Tree, tree': Tree, c: Path, nd: nat, data: nat) {
    Plug(c, Leaf) == tree && AtMostOneTurn(Plug(c, NewLeaf(nd, data)), tree')
  }

  ghost predicate Grafted(tree: Tree, tree': Tree, nd: nat, data: nat) {
    exists c :: GraftedAt(tree, tree', c, nd, data)
  }

  lemma {:induction false} FlatPlug(c: Path, t: Tree, t': Tree)
    requires Flat(t) == Flat(t')
    ensures Flat(Plug(c, t)) == Flat(Plug(c, t'))
    decreases c
  {
    match c {
      case Top =>
      case InLeft(up, a, d, bf, r) => FlatPlug(up, Node(t, a, d, bf, r), Node(t', a, d, bf, r));
      case InRight(up, a, d, bf, l) => FlatPlug(up, Node(l, a, d, bf, t), Node(l, a, d, bf, t'));
    }
  }

  /** Setting a factor on the way up. */
  lemma FlatJoined(c: Path, t: Tree, bf: int)
    requires !c.Top?
    ensures Flat(Plug(c.up, Joined(c, t, bf))) == Flat(Plug(c, t))
  {
    FlatPlug(c.up, Joined(c, t, bf), Joined(c, t, c.bf));
  }

  lemma TurnedOnce(c: Path, t: Tree, u': Tree)
    requires !c.Top? && Turned(Joined(c, t, c.bf), u')
    ensures AtMostOneTurn(Plug(c, t), Plug(c.up, u'))
  {
    FlatJoined(c, t, c.bf);
    assert TurnedAt(Plug(c, t), Plug(c.up, u'), c.up, Joined(c, t, c.bf), u');
  }

  lemma NoTurn(t: Tree, t': Tree)
    requires Flat(t) == Flat(t')
    ensures AtMostOneTurn(t, t')
  {
  }

  /** Turning after factors have been set. */
  lemma TurnedLater(t0: Tree, t: Tree, t': Tree)
    requires Flat(t0) == Flat(t) && AtMostOneTurn(t, t')
    ensures AtMostOneTurn(t0, t')
  {
    hide Flat, Turned, Plug;
    if Flat(t) != Flat(t') {
      var c, u, u' :| TurnedAt(t, t', c, u, u');
      assert TurnedAt(t0, t', c, u, u');
    }
  }

  lemma GraftedThere(tree: Tree, tree': Tree, c: Path, nd: nat, data: nat)
    requires Plug(c, Leaf) == tree && AtMostOneTurn(Plug(c, NewLeaf(nd, data)), tree')
    ensures Grafted(tree, tree', nd, data)
  {
    assert GraftedAt(tree, tree', c, nd, data);
  }

  lemma GraftedFirst(tree: Tree, nd: nat, data: nat)
    requires tree.Leaf?
    ensures Grafted(tree, NewLeaf(nd, data), nd, data)
  {
    assert GraftedAt(tree, NewLeaf(nd, data), Top, nd, data);
  }

  lemma TurnCases(u: Tree)
    requires u.Node?
    ensures u.r.Node? ==> Turned(u, RotL(u))
    ensures u.l.Node? ==> Turned(u, RotR(u))
    ensures u.l.Node? && u.l.r.Node? ==> Turned(u, RotLR(u))
    ensures u.r.Node? && u.r.l.Node? ==> Turned(u, RotRL(u))
  {
  }
}
