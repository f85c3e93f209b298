/** The address-keyed use of the AVL tree: the free list, whose nodes are the free blocks. */
module FreeList {
  import opened AvlTrees
  import opened AvlSearch
  import opened AvlBalance
  import opened AvlMemory
  import opened AvlStore

  /** s' is s without the entry at address a. */
  ghost predicate Without(s: seq<Entry>, s': seq<Entry>, a: nat) {
    exists b, f, d :: Splits(s, b, Entry(a, d), f) && s' == b + f
  }

  ghost predicate Splits(s: seq<Entry>, b: seq<Entry>, e: Entry, f: seq<Entry>) { s == b + [e] + f }

  lemma UniquePlace(b: seq<Entry>, e: Entry, f: seq<Entry>, b': seq<Entry>, e': Entry, f': seq<Entry>)
    requires b + [e] + f == b' + [e'] + f' && e.a == e'.a && Sorted(true, b + [e] + f)
    ensures b == b' && e == e' && f == f'
  {
    var s := b + [e] + f;
    assert s[|b|] == e && s[|b'|] == e';
    assert |b| == |b'|;
    assert b == s[..|b|] && b' == s[..|b'|];
    assert f == s[|b| + 1..] && f' == s[|b'| + 1..];
  }

  /** Where a sorted list takes a new entry is determined. */
  lemma UniqueInsert(b: seq<Entry>, e: Entry, f: seq<Entry>, b': seq<Entry>, f': seq<Entry>)
    requires b + f == b' + f' && Sorted(true, b + [e] + f) && Sorted(true, b' + [e] + f')
    ensures b == b' && f == f'
  {
    NotBefore(b, e, f, b', f');
    NotBefore(b', e, f', b, f);
    var s := b + f;
    assert b == s[..|b|] && b' == s[..|b'|];
    assert f == s[|b|..] && f' == s[|b'|..];
  }

  lemma NotBefore(b: seq<Entry>, e: Entry, f: seq<Entry>, b': seq<Entry>, f': seq<Entry>)
    requires b + f == b' + f' && Sorted(true, b + [e] + f) && Sorted(true, b' + [e] + f')
    ensures |b| >= |b'|
  {
    var u, v := b + [e] + f, b' + [e] + f';
    var s := b + f;
    assert u[|b|] == e && v[|b'|] == e;
    assert forall i :: 0 <= i < |u| ==> u[i] == if i < |b| then s[i] else if i == |b| then e else s[i - 1];
    assert forall i :: 0 <= i < |v| ==> v[i] == if i < |b'| then s[i] else if i == |b'| then e else s[i - 1];
    if |b| < |s| {
      assert u[|b| + 1] == s[|b|] && v[|b|] == v[|b|];
    }
  }

  lemma SortedSubst(b: seq<Entry>, e: Entry, g: Entry, f: seq<Entry>)
    requires Sorted(true, b + [e, g] + f)
    ensures forall d :: Sorted(true, b + [Entry(e.a, d)] + f) && Sorted(true, b + [Entry(g.a, d)] + f)
  {
    var s := b + [e, g] + f;
    assert s[|b|] == e && s[|b| + 1] == g;
    forall d ensures Sorted(true, b + [Entry(e.a, d)] + f) && Sorted(true, b + [Entry(g.a, d)] + f) {
      var u, v := b + [Entry(e.a, d)] + f, b + [Entry(g.a, d)] + f;
      forall i, j | 0 <= i < j < |u| ensures u[i].a < u[j].a && v[i].a < v[j].a {
        var i', j' := if i <= |b| then i else i + 1, if j < |b| then j else j + 1;
        assert i > |b| ==> u[i] == v[i] == s[i'];
        assert j > |b| ==> u[j] == v[j] == s[j'];
        assert i < |b| ==> u[i] == v[i] == s[i];
        assert j < |b| ==> u[j] == v[j] == s[j];
      }
    }
  }

  lemma SortedWithout(b: seq<Entry>, e: Entry, f: seq<Entry>)
    requires Sorted(true, b + [e] + f)
    ensures Sorted(true, b + f)
  {
    var s, u := b + [e] + f, b + f;
    forall i, j | 0 <= i < j < |u| ensures u[i].a < u[j].a {
      assert u[i] == s[if i < |b| then i else i + 1] && u[j] == s[if j < |b| then j else j + 1];
    }
  }

  /** Moving the neighbour's word back to the neighbour's address completes the deletion. */
  lemma MovedBack(s: seq<Entry>, s': seq<Entry>, a: nat, x: nat, b': seq<Entry>, e': nat, f': seq<Entry>)
    requires Removed(s, s', a, x) && x != a && Sorted(true, s) && s' == b' + [Entry(a, e')] + f'
    ensures Without(s, b' + [Entry(x, e')] + f', a)
  {
    RemovedSorted(true, s, s', a, x);
    var b, f, d, e :| RemovedBetween(s, s', a, x, b, f, d, e);
    UniquePlace(b, Entry(a, e), f, b', Entry(a, e'), f');
    BackInPlace(s, b, f, a, d, x, e);
  }

  lemma BackInPlace(s: seq<Entry>, b: seq<Entry>, f: seq<Entry>, a: nat, d: nat, x: nat, e: nat)
    requires s == b + [Entry(a, d), Entry(x, e)] + f || s == b + [Entry(x, e), Entry(a, d)] + f
    ensures Without(s, b + [Entry(x, e)] + f, a)
  {
    if s == b + [Entry(a, d), Entry(x, e)] + f {
      assert s == b + [Entry(a, d)] + ([Entry(x, e)] + f);
      assert b + ([Entry(x, e)] + f) == b + [Entry(x, e)] + f;
      assert Splits(s, b, Entry(a, d), [Entry(x, e)] + f);
    } else {
      assert s == (b + [Entry(x, e)]) + [Entry(a, d)] + f;
      assert Splits(s, b + [Entry(x, e)], Entry(a, d), f);
    }
  }

  lemma WithoutSorted(s: seq<Entry>, s': seq<Entry>, a: nat)
    requires Without(s, s', a) && Sorted(true, s)
    ensures Sorted(true, s')
  {
    var b, f, d :| Splits(s, b, Entry(a, d), f) && s' == b + f;
    SortedWithout(b, Entry(a, d), f);
  }
}
