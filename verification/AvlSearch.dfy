/** Search order: by address (avl_mem_cmp, the free list) or by stored word (avl_basic_cmp, sets). */
module AvlSearch {
  import opened AvlTrees

  /** avl_mem_cmp compares addresses, avl_basic_cmp the stored words. */
  function Key(byAddr: bool, a: nat, d: nat): nat { if byAddr then a else d }

  ghost predicate Sorted(byAddr: bool, s: seq<Entry>) {
    forall i, j :: 0 <= i < j < |s| ==> Key(byAddr, s[i].a, s[i].d) < Key(byAddr, s[j].a, s[j].d)
  }

  ghost predicate Below(byAddr: bool, s: seq<Entry>, k: nat) { forall i :: 0 <= i < |s| ==> Key(byAddr, s[i].a, s[i].d) < k }

  ghost predicate Above(byAddr: bool, s: seq<Entry>, k: nat) { forall i :: 0 <= i < |s| ==> Key(byAddr, s[i].a, s[i].d) > k }

  ghost predicate HasKey(byAddr: bool, s: seq<Entry>, k: nat) { exists i :: 0 <= i < |s| && Key(byAddr, s[i].a, s[i].d) == k }

  /** In a sorted tree, everything left of a position is below what is at it. */
  lemma SortedParts(byAddr: bool, b: seq<Entry>, e: Entry, f: seq<Entry>, s: seq<Entry>)
    requires Sorted(byAddr, s) && s == b + [e] + f
    ensures Below(byAddr, b, Key(byAddr, e.a, e.d)) && Above(byAddr, f, Key(byAddr, e.a, e.d))
  {
    forall i | 0 <= i < |b| ensures Key(byAddr, b[i].a, b[i].d) < Key(byAddr, e.a, e.d) {
      assert s[i] == b[i] && s[|b|] == e;
    }
    forall i | 0 <= i < |f| ensures Key(byAddr, f[i].a, f[i].d) > Key(byAddr, e.a, e.d) {
      assert s[|b| + 1 + i] == f[i] && s[|b|] == e;
    }
  }

  /** Smaller keys lie to the left of a node of a sorted tree, greater ones to the right. */
  lemma SmallerLeft(byAddr: bool, t: Tree)
    requires t.Node? && Sorted(byAddr, Entries(t))
    ensures forall e :: e in Entries(t.l) ==> (if byAddr then e.a < t.a else e.d < t.d)
    ensures forall e :: e in Entries(t.r) ==> (if byAddr then t.a < e.a else t.d < e.d)
  {
    SortedParts(byAddr, Entries(t.l), Entry(t.a, t.d), Entries(t.r), Entries(t));
    forall e | e in Entries(t.l) ensures Key(byAddr, e.a, e.d) < Key(byAddr, t.a, t.d) {
      var i :| 0 <= i < |Entries(t.l)| && Entries(t.l)[i] == e;
    }
    forall e | e in Entries(t.r) ensures Key(byAddr, t.a, t.d) < Key(byAddr, e.a, e.d) {
      var i :| 0 <= i < |Entries(t.r)| && Entries(t.r)[i] == e;
    }
  }

  lemma SortedInsert(byAddr: bool, b: seq<Entry>, e: Entry, f: seq<Entry>)
    requires Sorted(byAddr, b + f) && Below(byAddr, b, Key(byAddr, e.a, e.d)) && Above(byAddr, f, Key(byAddr, e.a, e.d))
    ensures Sorted(byAddr, b + [e] + f)
  {
    var s, u := b + [e] + f, b + f;
    forall i, j | 0 <= i < j < |s| ensures Key(byAddr, s[i].a, s[i].d) < Key(byAddr, s[j].a, s[j].d) {
      var i', j' := if i < |b| then i else i - 1, if j < |b| then j else j - 1;
      if i == |b| {
        assert s[j] == f[j - |b| - 1];
      } else if j == |b| {
        assert s[i] == b[i];
      } else {
        assert s[i] == u[i'] && s[j] == u[j'];
      }
    }
  }

  lemma BoundsApart(byAddr: bool, b: seq<Entry>, f: seq<Entry>, k: nat)
    requires Below(byAddr, b, k) && Above(byAddr, f, k)
    ensures !HasKey(byAddr, b + f, k)
  {
    var s := b + f;
    forall i | 0 <= i < |s| ensures Key(byAddr, s[i].a, s[i].d) != k {
      if i < |b| { assert s[i] == b[i]; } else { assert s[i] == f[i - |b|]; }
    }
  }

  lemma BelowConcat(byAddr: bool, x: seq<Entry>, y: seq<Entry>, k: nat)
    ensures Below(byAddr, x + y, k) <==> Below(byAddr, x, k) && Below(byAddr, y, k)
    ensures Above(byAddr, x + y, k) <==> Above(byAddr, x, k) && Above(byAddr, y, k)
  {
    var s := x + y;
    assert forall i :: 0 <= i < |x| ==> s[i] == x[i];
    assert forall i :: 0 <= i < |y| ==> s[|x| + i] == y[i];
    assert forall i :: |x| <= i < |s| ==> s[i] == y[i - |x|];
  }

  /** Where the search for key k has got to. */
  ghost predicate Searching(byAddr: bool, k: nat, c: Path, t: Tree, tree: Tree) {
    Plug(c, t) == tree && Below(byAddr, Before(c), k) && Above(byAddr, After(c), k)
  }

  /** One comparison: go left, go right, or the key is there. */
  lemma SearchStep(byAddr: bool, k: nat, c: Path, t: Tree, tree: Tree)
    requires Searching(byAddr, k, c, t, tree) && t.Node? && Sorted(byAddr, Entries(tree))
    ensures Key(byAddr, t.a, t.d) > k ==> Searching(byAddr, k, InLeft(c, t.a, t.d, t.bf, t.r), t.l, tree)
    ensures Key(byAddr, t.a, t.d) < k ==> Searching(byAddr, k, InRight(c, t.a, t.d, t.bf, t.l), t.r, tree)
    ensures Key(byAddr, t.a, t.d) == k ==> HasKey(byAddr, Entries(tree), k)
  {
    var kt, e := Key(byAddr, t.a, t.d), Entry(t.a, t.d);
    var b, f := Before(c) + Entries(t.l), Entries(t.r) + After(c);
    hide Plug, Entries, Sorted, Key, Below, Above, HasKey;
    EntriesAround(c, t, tree);
    SortedParts(byAddr, b, e, f, Entries(tree));
    BelowAll(byAddr, e, k);
    if kt > k {
      RightOfKey(byAddr, Entries(t.r), After(c), e, k);
    } else if kt < k {
      LeftOfKey(byAddr, Before(c), Entries(t.l), e, k);
    } else {
      HasIt(byAddr, b, e, f);
    }
  }

  lemma EntriesAround(c: Path, t: Tree, tree: Tree)
    requires Plug(c, t) == tree && t.Node?
    ensures Entries(tree) == (Before(c) + Entries(t.l)) + [Entry(t.a, t.d)] + (Entries(t.r) + After(c))
    ensures Plug(InLeft(c, t.a, t.d, t.bf, t.r), t.l) == tree && Before(InLeft(c, t.a, t.d, t.bf, t.r)) == Before(c)
    ensures After(InLeft(c, t.a, t.d, t.bf, t.r)) == [Entry(t.a, t.d)] + Entries(t.r) + After(c)
    ensures Plug(InRight(c, t.a, t.d, t.bf, t.l), t.r) == tree && After(InRight(c, t.a, t.d, t.bf, t.l)) == After(c)
    ensures Before(InRight(c, t.a, t.d, t.bf, t.l)) == Before(c) + Entries(t.l) + [Entry(t.a, t.d)]
  {
    hide *;
    PlugEntries(c, t);
    OneStepDown(c, t);
    Regroup(Before(c), Entries(t.l), Entry(t.a, t.d), Entries(t.r), After(c));
  }

  lemma OneStepDown(c: Path, t: Tree)
    requires t.Node?
    ensures Entries(t) == Entries(t.l) + [Entry(t.a, t.d)] + Entries(t.r)
    ensures var p := InLeft(c, t.a, t.d, t.bf, t.r);
            Plug(p, t.l) == Plug(c, t) && Before(p) == Before(c) && After(p) == [Entry(t.a, t.d)] + Entries(t.r) + After(c)
    ensures var p := InRight(c, t.a, t.d, t.bf, t.l);
            Plug(p, t.r) == Plug(c, t) && After(p) == After(c) && Before(p) == Before(c) + Entries(t.l) + [Entry(t.a, t.d)]
  {
  }

  lemma Regroup(b: seq<Entry>, l: seq<Entry>, e: Entry, r: seq<Entry>, f: seq<Entry>)
    ensures b + (l + [e] + r) + f == (b + l) + [e] + (r + f)
  {
  }

  lemma RightOfKey(byAddr: bool, er: seq<Entry>, f: seq<Entry>, e: Entry, k: nat)
    requires Key(byAddr, e.a, e.d) > k && Above(byAddr, er + f, Key(byAddr, e.a, e.d)) && Above(byAddr, [e], k)
    ensures Above(byAddr, [e] + er + f, k)
  {
    var kt := Key(byAddr, e.a, e.d);
    hide *;
    BelowConcat(byAddr, er, f, kt);
    AboveMore(byAddr, er, k, kt);
    AboveMore(byAddr, f, k, kt);
    BelowConcat(byAddr, [e] + er, f, k);
    BelowConcat(byAddr, [e], er, k);
  }

  lemma LeftOfKey(byAddr: bool, b: seq<Entry>, el: seq<Entry>, e: Entry, k: nat)
    requires Key(byAddr, e.a, e.d) < k && Below(byAddr, b + el, Key(byAddr, e.a, e.d)) && Below(byAddr, [e], k)
    ensures Below(byAddr, b + el + [e], k)
  {
    var kt := Key(byAddr, e.a, e.d);
    hide *;
    BelowConcat(byAddr, b, el, kt);
    AboveMore(byAddr, el, kt, k);
    AboveMore(byAddr, b, kt, k);
    BelowConcat(byAddr, b + el, [e], k);
    BelowConcat(byAddr, b, el, k);
  }

  lemma BelowAll(byAddr: bool, e: Entry, k: nat)
    ensures Below(byAddr, [e], k) <==> Key(byAddr, e.a, e.d) < k
    ensures Above(byAddr, [e], k) <==> Key(byAddr, e.a, e.d) > k
  {
    var s := [e];
    assert s[0] == e;
  }

  lemma AboveMore(byAddr: bool, s: seq<Entry>, k: nat, k': nat)
    requires k <= k'
    ensures Above(byAddr, s, k') ==> Above(byAddr, s, k)
    ensures Below(byAddr, s, k) ==> Below(byAddr, s, k')
  {
  }

  lemma HasIt(byAddr: bool, b: seq<Entry>, e: Entry, f: seq<Entry>)
    ensures HasKey(byAddr, b + [e] + f, Key(byAddr, e.a, e.d))
  {
    assert (b + [e] + f)[|b|] == e;
  }

  lemma SearchFailed(byAddr: bool, k: nat, c: Path, tree: Tree)
    requires Searching(byAddr, k, c, Leaf, tree)
    ensures !HasKey(byAddr, Entries(tree), k) && Entries(tree) == Before(c) + After(c)
  {
    PlugEntries(c, Leaf);
    BoundsApart(byAddr, Before(c), After(c), k);
    assert Before(c) + [] + After(c) == Before(c) + After(c);
  }
}
