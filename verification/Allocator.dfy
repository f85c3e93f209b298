/** alloc.c: the heap's counters and the allocator on the address-keyed free list. */
module Allocator {
  import opened AvlTrees
  import opened AvlSearch
  import opened AvlBalance
  import opened AvlMemory
  import opened AvlStore
  import opened FreeList
  import opened HeapBlocks

  /** Words of the heap header (hds_sz). */
  const HEAP_HEADER: nat := 8

  // ------------------------------------------------- the search for neighbours

  ghost predicate NoStart(s: seq<Entry>, a: nat) { forall i :: 0 <= i < |s| ==> s[i].a != a }

  ghost predicate NoEnd(s: seq<Entry>, a: nat) { forall i :: 0 <= i < |s| ==> s[i].a + s[i].d != a }

  ghost predicate EndsAt(s: seq<Entry>, x: nat, a: nat) { exists i :: 0 <= i < |s| && s[i].a == x && s[i].a + s[i].d == a }

  /** Free blocks do not overlap each other or the block [lo, hi). */
  ghost predicate Around(s: seq<Entry>, lo: nat, hi: nat) {
    && Spaced(s) && lo < hi
    && forall i :: 0 <= i < |s| ==> s[i].d >= MIN_BLOCK && (s[i].a + s[i].d <= lo || hi <= s[i].a)
  }

  /** What the search has found, and that the rest is not outside the subtree t. */
  ghost predicate Narrowed(c: Path, t: Tree, tree: Tree, lo: nat, hi: nat, left: nat, right: nat) {
    && Plug(c, t) == tree
    && (left == 0 ==> NoEnd(Before(c), lo) && NoEnd(After(c), lo)) && (left != 0 ==> EndsAt(Entries(tree), left, lo))
    && (right == 0 ==> NoStart(Before(c), hi) && NoStart(After(c), hi)) && (right != 0 ==> right == hi && HasAddr(Entries(tree), hi))
  }

  lemma EntryPlaces(b: seq<Entry>, x: seq<Entry>, e: Entry, y: seq<Entry>, f: seq<Entry>, s: seq<Entry>)
    requires s == b + (x + [e] + y) + f
    ensures |b| + |x| < |s| && s[|b| + |x|] == e
    ensures forall i :: 0 <= i < |x| ==> s[|b| + i] == x[i]
    ensures forall i :: 0 <= i < |y| ==> s[|b| + |x| + 1 + i] == y[i]
  {
  }

  lemma NoJoin(x: seq<Entry>, y: seq<Entry>, lo: nat, hi: nat)
    ensures NoEnd(x, lo) && NoEnd(y, lo) ==> NoEnd(x + y, lo)
    ensures NoStart(x, hi) && NoStart(y, hi) ==> NoStart(x + y, hi)
  {
    var s := x + y;
    assert forall i :: 0 <= i < |s| ==> s[i] == if i < |x| then x[i] else y[i - |x|];
  }

  /** At a node that starts at or after hi, nothing of interest lies to its right. */
  lemma NarrowLeft(c: Path, t: Tree, tree: Tree, lo: nat, hi: nat, left: nat, right: nat)
    requires Narrowed(c, t, tree, lo, hi, left, right) && t.Node? && Around(Entries(tree), lo, hi) && t.a >= hi && hi != 0
    ensures Narrowed(InLeft(c, t.a, t.d, t.bf, t.r), t.l, tree, lo, hi, left, if t.a == hi then hi else right)
  {
    var e, er := Entry(t.a, t.d), Entries(t.r);
    PlugEntries(c, t);
    RightPart(Before(c), Entries(t.l), e, er, After(c), Entries(tree), lo, hi);
    hide NoEnd, NoStart, Around, Entries, HasAddr, EndsAt;
    NoJoin([e], er, lo, hi);
    NoJoin([e] + er, After(c), lo, hi);
  }

  lemma RightPart(b: seq<Entry>, x: seq<Entry>, e: Entry, y: seq<Entry>, f: seq<Entry>, s: seq<Entry>, lo: nat, hi: nat)
    requires s == b + (x + [e] + y) + f && Around(s, lo, hi) && e.a >= hi
    ensures NoEnd(y, lo) && NoStart(y, hi) && NoEnd([e], lo)
    ensures if e.a == hi then HasAddr(s, hi) else NoStart([e], hi)
  {
    var k := |b| + |x|;
    EntryPlaces(b, x, e, y, f, s);
    forall i | 0 <= i < |y| ensures y[i].a > hi {
      assert s[k].a + s[k].d <= s[k + 1 + i].a;
    }
  }

  /** At a node that ends at or before lo, nothing of interest lies to its left. */
  lemma NarrowRight(c: Path, t: Tree, tree: Tree, lo: nat, hi: nat, left: nat, right: nat)
    requires Narrowed(c, t, tree, lo, hi, left, right) && t.Node? && Around(Entries(tree), lo, hi) && t.a + t.d <= lo && t.a != 0
    ensures Narrowed(InRight(c, t.a, t.d, t.bf, t.l), t.r, tree, lo, hi, if t.a + t.d == lo then t.a else left, right)
  {
    var e, el := Entry(t.a, t.d), Entries(t.l);
    PlugEntries(c, t);
    LeftPart(Before(c), el, e, Entries(t.r), After(c), Entries(tree), lo, hi);
    hide NoEnd, NoStart, Around, Entries, HasAddr, EndsAt;
    NoJoin(Before(c), el, lo, hi);
    NoJoin(Before(c) + el, [e], lo, hi);
  }

  lemma LeftPart(b: seq<Entry>, x: seq<Entry>, e: Entry, y: seq<Entry>, f: seq<Entry>, s: seq<Entry>, lo: nat, hi: nat)
    requires s == b + (x + [e] + y) + f && Around(s, lo, hi) && e.a + e.d <= lo
    ensures NoEnd(x, lo) && NoStart(x, hi) && NoStart([e], hi)
    ensures if e.a + e.d == lo then EndsAt(s, e.a, lo) else NoEnd([e], lo)
  {
    var k := |b| + |x|;
    EntryPlaces(b, x, e, y, f, s);
    forall i | 0 <= i < |x| ensures x[i].a + x[i].d < lo {
      assert s[|b| + i].a + s[|b| + i].d <= s[k].a;
    }
  }

  lemma NodeAround(c: Path, t: Tree, tree: Tree, lo: nat, hi: nat)
    requires Plug(c, t) == tree && t.Node? && Around(Entries(tree), lo, hi)
    ensures t.a + t.d <= lo || hi <= t.a
    ensures t.d >= MIN_BLOCK
  {
    PlugEntries(c, t);
    EntryPlaces(Before(c), Entries(t.l), Entry(t.a, t.d), Entries(t.r), After(c), Entries(tree));
  }

  lemma SearchOver(c: Path, t: Tree, tree: Tree, lo: nat, hi: nat, left: nat, right: nat)
    requires Narrowed(c, t, tree, lo, hi, left, right) && (t.Leaf? || (left != 0 && right != 0)) && hi != 0
    ensures if left == 0 then NoEnd(Entries(tree), lo) else EndsAt(Entries(tree), left, lo)
    ensures if right == 0 then NoStart(Entries(tree), hi) else right == hi && HasAddr(Entries(tree), hi)
  {
    PlugEntries(c, t);
    if t.Leaf? {
      var b, f, s := Before(c), After(c), Entries(tree);
      assert s == b + f;
      assert forall i :: 0 <= i < |s| ==> s[i] == if i < |b| then b[i] else f[i - |b|];
    }
  }

  // ----------------------------------------------------------------- the heap

  /** The header word of every live block, where a free one has its link to the parent, holds its size. */
  ghost predicate Headers(mem: Memory, bs: seq<Block>) {
    forall i :: 0 <= i < |bs| && bs[i].live ==> bs[i].a in mem && mem[bs[i].a].prev == bs[i].size
  }

  /** A stored free list in address order. */
  ghost predicate Listed(mem: Memory, root: nat, tree: Tree, s: set<nat>, es: seq<Entry>) {
    Stored(mem, root, tree, s, es) && Sorted(true, es)
  }

  lemma NonNull(mem: Memory, root: nat, tree: Tree, a: nat)
    requires Listed(mem, root, tree, Addrs(tree), Entries(tree)) && a in Addrs(tree)
    ensures a != 0 && Stored(mem, root, tree, Addrs(tree), Entries(tree)) && Sorted(true, Entries(tree))
    ensures 0 !in Addrs(tree) && Addrs(tree) <= mem.Keys
  {
    ReprAddrs(mem, tree, 0);
  }

  lemma ShowListed(mem: Memory, root: nat, tree: Tree, s: set<nat>, es: seq<Entry>)
    requires Stored(mem, root, tree, s, es) && Sorted(true, es)
    ensures Listed(mem, root, tree, s, es)
  {
  }

  lemma AddrsAfter(mem: Memory, root: nat, t: Tree, s: set<nat>)
    requires Stored(mem, root, t, s, Entries(t))
    ensures Addrs(t) == s && Stored(mem, root, t, Addrs(t), Entries(t))
  {
  }

  lemma RemovedIsWithout(s: seq<Entry>, s': seq<Entry>, a: nat)
    requires Removed(s, s', a, a)
    ensures Without(s, s', a)
  {
    var b, f, d, e :| RemovedBetween(s, s', a, a, b, f, d, e);
    assert Splits(s, b, Entry(a, d), f);
  }

  lemma BeyondInside(m0: Memory, m1: Memory, m2: Memory, s: set<nat>, x: nat)
    requires Within(m0, m1, s) && Beyond(m1, m2, s - {x}, x) && x in s && s <= m0.Keys
    ensures Within(m0, m2, s)
  {
  }

  lemma SearchStart(mem: Memory, root: nat, tree: Tree, lo: nat, hi: nat)
    requires Listed(mem, root, tree, Addrs(tree), Entries(tree)) && Around(Entries(tree), lo, hi)
    ensures Holds(mem, root, Top, tree) && root == Addr(tree) && Narrowed(Top, tree, tree, lo, hi, 0, 0) && hi != 0
  {
  }

  lemma SearchAt(mem: Memory, root: nat, c: Path, t: Tree, tree: Tree, lo: nat, hi: nat, left: nat, right: nat)
    requires Holds(mem, root, c, t) && Addr(t) != 0 && Narrowed(c, t, tree, lo, hi, left, right) && Around(Entries(tree), lo, hi)
    ensures t.Node? && Addr(t) == t.a && t.a in mem && mem[t.a].left == Addr(t.l) && mem[t.a].right == Addr(t.r) && mem[t.a].data == t.d
    ensures t.l < t && t.r < t && (t.a + t.d <= lo || hi <= t.a) && lo < hi
    ensures var u := InLeft(c, t.a, t.d, t.bf, t.r);
            Holds(mem, root, u, t.l) && (t.a >= hi ==> Narrowed(u, t.l, tree, lo, hi, left, if t.a == hi then hi else right))
    ensures var u := InRight(c, t.a, t.d, t.bf, t.l);
            Holds(mem, root, u, t.r) && (t.a + t.d <= lo ==> Narrowed(u, t.r, tree, lo, hi, if t.a + t.d == lo then t.a else left, right))
  {
    assert Plug(c, t) == tree && lo < hi;
    hide Holds, Narrowed, Around, Entries;
    Fields(mem, root, c, t);
    DownLeft(mem, root, c, t);
    DownRight(mem, root, c, t);
    NodeAround(c, t, tree, lo, hi);
    if t.a >= hi { NarrowLeft(c, t, tree, lo, hi, left, right); }
    if t.a + t.d <= lo { NarrowRight(c, t, tree, lo, hi, left, right); }
  }

  lemma SearchEnd(mem: Memory, root: nat, c: Path, t: Tree, cur: nat)
    requires Holds(mem, root, c, t) && cur == Addr(t)
    ensures cur == 0 ==> t.Leaf?
  {
  }

  // ----------------------------------------------- the blocks around a freed one

  lemma FreeBounds(p: seq<Block>, b: Block, q: seq<Block>, from: nat, to: nat)
    requires Tiles(p + [b] + q, from, to) && b.live
    ensures Around(FreeOf(p) + FreeOf(q), b.a, b.a + b.size) && Sorted(true, FreeOf(p) + FreeOf(q))
    ensures forall i :: 0 <= i < |FreeOf(p)| ==> FreeOf(p)[i].a < b.a + b.size
    ensures forall i :: 0 <= i < |FreeOf(q)| ==> FreeOf(q)[i].a + FreeOf(q)[i].d != b.a
  {
    hide Words, FreeOf, Contiguous, Coalesced, LiveWords, LiveCount;
    Middle(p, b, q, from);
    FreeInside(p, from);
    FreeInside(q, from + Words(p) + b.size);
    FreeInside(p + [b] + q, from);
    SpacedSorted(p + [b] + q, from);
    assert FreeOf(p) + [] + FreeOf(q) == FreeOf(p) + FreeOf(q);
    var s := FreeOf(p) + FreeOf(q);
    forall i | 0 <= i < |s| ensures s[i].d >= MIN_BLOCK && (s[i].a + s[i].d <= b.a || b.a + b.size <= s[i].a) {
      assert s[i] == if i < |FreeOf(p)| then FreeOf(p)[i] else FreeOf(q)[i - |FreeOf(p)|];
    }
  }

  /** Only the last block before lo can end there. */
  lemma LeftNeighbour(p: seq<Block>, from: nat, x: nat)
    requires Contiguous(p, from) && Coalesced(p) && EndsAt(FreeOf(p), x, from + Words(p))
    ensures FreeLast(p) && x == p[|p| - 1].a
  {
    var i :| 0 <= i < |FreeOf(p)| && FreeOf(p)[i].a == x && FreeOf(p)[i].a + FreeOf(p)[i].d == from + Words(p);
    var k := BlockOfEntry(p, FreeOf(p)[i]);
    var last := |p| - 1;
    BlockStart(p, last, from);
    assert p[last + 1..] == [] && Words(p) == Words(p[..last]) + p[last].size;
    if k < last { NoOverlap(p, from, k, last); }
  }

  lemma RightNeighbour(q: seq<Block>, from: nat)
    requires Contiguous(q, from) && HasAddr(FreeOf(q), from)
    ensures FreeFirst(q)
  {
    var i :| 0 <= i < |FreeOf(q)| && FreeOf(q)[i].a == from;
    var k := BlockOfEntry(q, FreeOf(q)[i]);
    if k > 0 { NoOverlap(q, from, 0, k); }
  }

  lemma JoinedEnds(x: seq<Entry>, y: seq<Entry>, l: nat, a: nat)
    ensures EndsAt(x + y, l, a) ==> EndsAt(x, l, a) || EndsAt(y, l, a)
    ensures NoEnd(x + y, a) ==> NoEnd(x, a) && NoEnd(y, a)
    ensures HasAddr(x + y, a) ==> HasAddr(x, a) || HasAddr(y, a)
    ensures NoStart(x + y, a) ==> NoStart(x, a) && NoStart(y, a)
  {
    var s := x + y;
    assert forall i :: 0 <= i < |x| ==> s[i] == x[i];
    assert forall i :: 0 <= i < |y| ==> s[|x| + i] == y[i];
    assert forall i :: 0 <= i < |s| ==> s[i] == if i < |x| then x[i] else y[i - |x|];
  }

  lemma LastEntry(x: seq<Entry>, e: Entry, y: seq<Entry>, s: seq<Entry>)
    requires s == x + [e] + y
    ensures HasAddr(s, e.a) && EndsAt(s, e.a, e.a + e.d)
    ensures !NoEnd(s, e.a + e.d) && !NoStart(s, e.a)
  {
    assert s[|x|] == e;
  }

  /** What the search reports about the free list is what the blocks are. */
  lemma NeighbourLeft(p: seq<Block>, b: Block, q: seq<Block>, from: nat, to: nat, left: nat)
    requires Tiles(p + [b] + q, from, to) && b.live && 0 < from
    requires if left == 0 then NoEnd(FreeOf(p) + FreeOf(q), b.a) else EndsAt(FreeOf(p) + FreeOf(q), left, b.a)
    ensures left != 0 <==> FreeLast(p)
    ensures FreeLast(p) ==> left == p[|p| - 1].a && FreeOf(p) == FreeOf(Front(p)) + [Entry(left, LeftSize(p))] + []
    ensures FreeLast(p) ==> left + LeftSize(p) == b.a
  {
    Middle(p, b, q, from);
    CoalescedMiddle(p, b, q);
    FreeBounds(p, b, q, from, to);
    FrontSplit(p, from);
    hide Words, FreeOf, Contiguous, Coalesced, Around, Sorted, Tiles, LiveWords, LiveCount, NoEnd, EndsAt, Front;
    JoinedEnds(FreeOf(p), FreeOf(q), left, b.a);
    if left != 0 {
      if EndsAt(FreeOf(q), left, b.a) { NotEnding(FreeOf(q), left, b.a); }
      LeftNeighbour(p, from, left);
    } else if FreeLast(p) {
      LastEntry(FreeOf(Front(p)), Entry(p[|p| - 1].a, LeftSize(p)), [], FreeOf(p));
    }
  }

  lemma NotEnding(s: seq<Entry>, x: nat, a: nat)
    requires forall i :: 0 <= i < |s| ==> s[i].a + s[i].d != a
    ensures !EndsAt(s, x, a)
  {
  }

  lemma NeighbourRight(p: seq<Block>, b: Block, q: seq<Block>, from: nat, to: nat, right: nat)
    requires Tiles(p + [b] + q, from, to) && b.live && 0 < from
    requires if right == 0 then NoStart(FreeOf(p) + FreeOf(q), b.a + b.size)
             else right == b.a + b.size && HasAddr(FreeOf(p) + FreeOf(q), right)
    ensures right != 0 <==> FreeFirst(q)
    ensures FreeFirst(q) ==> FreeOf(q) == [] + [Entry(right, RightSize(q))] + FreeOf(Rest(q))
  {
    hide Words, FreeOf, Contiguous, Coalesced, Around, Sorted, LiveWords, LiveCount, NoStart, HasAddr, Rest;
    Middle(p, b, q, from);
    CoalescedMiddle(p, b, q);
    FreeBounds(p, b, q, from, to);
    RestSplit(q, b.a + b.size);
    JoinedEnds(FreeOf(p), FreeOf(q), 0, b.a + b.size);
    if right != 0 {
      if HasAddr(FreeOf(p), right) { NotStarting(FreeOf(p), right); }
      RightNeighbour(q, b.a + b.size);
    } else if FreeFirst(q) {
      LastEntry([], Entry(b.a + b.size, RightSize(q)), FreeOf(Rest(q)), FreeOf(q));
    }
  }

  lemma NotStarting(s: seq<Entry>, a: nat)
    requires forall i :: 0 <= i < |s| ==> s[i].a < a
    ensures !HasAddr(s, a)
  {
  }

  /** Nodes outside s are still there, unchanged. */
  ghost predicate Kept(mem: Memory, mem': Memory, s: set<nat>) {
    mem.Keys <= mem'.Keys <= mem.Keys + s && forall x :: x in mem && x !in s ==> mem'[x] == mem[x]
  }

  /** No list node or header that has been written lies inside block b. */
  ghost predicate Misses(mem: Memory, mem': Memory, b: Block) {
    forall x :: x in mem' && !(x in mem && mem'[x] == mem[x]) ==> x + MIN_BLOCK <= b.a || b.a + b.size <= x
  }

  /** Nor inside any live block of bs, apart from block number except. */
  ghost predicate MissesLive(mem: Memory, mem': Memory, bs: seq<Block>, except: int) {
    forall j :: 0 <= j < |bs| && bs[j].live && j != except ==> Misses(mem, mem', bs[j])
  }

  /** No free block has m words. */
  predicate NoRoom(bs: seq<Block>, m: nat) { forall i :: 0 <= i < |bs| && !bs[i].live ==> bs[i].size < m }

  /** The four words of a node at any address in s miss every live block of bs, apart from block number except. */
  ghost predicate OutsideLive(bs: seq<Block>, except: int, s: set<nat>) {
    forall x, j :: x in s && 0 <= j < |bs| && bs[j].live && j != except ==> x + MIN_BLOCK <= bs[j].a || bs[j].a + bs[j].size <= x
  }

  lemma InsideOne(bs: seq<Block>, from: nat, i: nat, j: nat, x: nat)
    requires Contiguous(bs, from) && i < |bs| && j < |bs| && i != j && bs[i].a <= x && x + MIN_BLOCK <= bs[i].a + bs[i].size
    ensures x + MIN_BLOCK <= bs[j].a || bs[j].a + bs[j].size <= x
  {
    if i < j { NoOverlap(bs, from, i, j); } else { NoOverlap(bs, from, j, i); }
  }

  /** The nodes of the free list lie in free blocks. */
  lemma ListOutsideLive(bs: seq<Block>, from: nat, tree: Tree)
    requires Contiguous(bs, from) && Entries(tree) == FreeOf(bs)
    ensures OutsideLive(bs, -1, Addrs(tree))
  {
    forall x, j | x in Addrs(tree) && 0 <= j < |bs| && bs[j].live ensures x + MIN_BLOCK <= bs[j].a || bs[j].a + bs[j].size <= x {
      EntryAddrs(tree, x);
      var e :| 0 <= e < |Entries(tree)| && Entries(tree)[e].a == x;
      var i := BlockOfEntry(bs, Entries(tree)[e]);
      BlockStart(bs, i, from);
      InsideOne(bs, from, i, j, x);
    }
  }

  lemma TouchedOutsideLive(bs: seq<Block>, from: nat, tree: Tree, k: nat, m: nat)
    requires Contiguous(bs, from) && Entries(tree) == FreeOf(bs) && k < |bs| && !bs[k].live
    ensures OutsideLive(bs, -1, Touched(bs[k], m, tree))
  {
    ListOutsideLive(bs, from, tree);
    BlockStart(bs, k, from);
    var b := bs[k];
    forall x, j | x in Touched(b, m, tree) && 0 <= j < |bs| && bs[j].live ensures x + MIN_BLOCK <= bs[j].a || bs[j].a + bs[j].size <= x {
      if x !in Addrs(tree) { InsideOne(bs, from, k, j, x); }
    }
  }

  lemma FreedOutsideLive(bs: seq<Block>, from: nat, tree: Tree, k: nat)
    requires Contiguous(bs, from) && Entries(tree) == FreeOf(bs) && k < |bs|
    ensures OutsideLive(bs, k, Addrs(tree) + {bs[k].a})
  {
    ListOutsideLive(bs, from, tree);
    BlockStart(bs, k, from);
    forall x, j | x in Addrs(tree) + {bs[k].a} && 0 <= j < |bs| && bs[j].live && j != k
      ensures x + MIN_BLOCK <= bs[j].a || bs[j].a + bs[j].size <= x
    {
      if x !in Addrs(tree) { InsideOne(bs, from, k, j, x); }
    }
  }

  lemma TilesContiguous(bs: seq<Block>, from: nat, to: nat)
    requires Tiles(bs, from, to)
    ensures Contiguous(bs, from)
  {
  }

  lemma KeptMisses(mem: Memory, mem': Memory, s: set<nat>, bs: seq<Block>, except: int)
    requires Kept(mem, mem', s) && OutsideLive(bs, except, s)
    ensures MissesLive(mem, mem', bs, except)
  {
  }

  lemma KeptKeys(mem: Memory, mem': Memory, s: set<nat>)
    requires Kept(mem, mem', s)
    ensures mem.Keys <= mem'.Keys
  {
  }

  lemma KeptRefl(mem: Memory, s: set<nat>)
    ensures Kept(mem, mem, s)
  {
  }

  lemma KeptWithin(m0: Memory, m1: Memory, m2: Memory, s: set<nat>, s': set<nat>)
    requires Kept(m0, m1, s) && Within(m1, m2, s') && s' <= s
    ensures Kept(m0, m2, s)
  {
  }

  lemma KeptBeyond(m0: Memory, m1: Memory, m2: Memory, s: set<nat>, s': set<nat>, x: nat)
    requires Kept(m0, m1, s) && Beyond(m1, m2, s', x) && s' <= s && x in s
    ensures Kept(m0, m2, s)
  {
  }

  lemma ListedIs(mem: Memory, root: nat, tree: Tree, s: set<nat>, es: seq<Entry>)
    requires Listed(mem, root, tree, s, es)
    ensures Entries(tree) == es && Addrs(tree) == s && Listed(mem, root, tree, Addrs(tree), Entries(tree)) && Sorted(true, es)
  {
  }

  /** A listed block is in memory with its size. */
  lemma EntryData(mem: Memory, root: nat, tree: Tree, b: seq<Entry>, e: Entry, f: seq<Entry>)
    requires Listed(mem, root, tree, Addrs(tree), Entries(tree)) && Entries(tree) == b + [e] + f
    ensures e.a in Addrs(tree) && e.a in mem && mem[e.a].data == e.d
  {
    EntryAddrs(tree, e.a);
    LastEntry(b, e, f, Entries(tree));
    var c, t := LocateStored(mem, root, tree, e.a);
    EntriesAt(c, t);
    UniquePlace(b, e, f, Before(c) + Entries(t.l), Entry(t.a, t.d), Entries(t.r) + After(c));
    Fields(mem, root, c, t);
  }

  /** Taking out a known entry. */
  lemma WithoutAt(b: seq<Entry>, e: Entry, f: seq<Entry>, s: seq<Entry>, s': seq<Entry>)
    requires Without(s, s', e.a) && s == b + [e] + f && Sorted(true, s)
    ensures s' == b + f
  {
    var b', f', d :| Splits(s, b', Entry(e.a, d), f') && s' == b' + f';
    UniquePlace(b, e, f, b', Entry(e.a, d), f');
  }

  lemma KeptTrans(m0: Memory, m1: Memory, m2: Memory, s: set<nat>)
    requires Kept(m0, m1, s) && Kept(m1, m2, s)
    ensures Kept(m0, m2, s)
  {
  }

  lemma ListedStored(mem: Memory, root: nat, tree: Tree, es: seq<Entry>)
    requires Listed(mem, root, tree, Addrs(tree), es)
    ensures Stored(mem, root, tree, Addrs(tree), Entries(tree)) && Sorted(true, Entries(tree)) && Stored(mem, root, tree, Addrs(tree), es)
  {
  }

  /** An address that fits between is not there yet. */
  lemma NotYet(x: seq<Entry>, e: Entry, y: seq<Entry>, tree: Tree)
    requires Sorted(true, x + [e] + y) && Entries(tree) == x + y
    ensures e.a !in Addrs(tree) && !HasKey(true, x + y, Key(true, e.a, e.d))
  {
    SortedParts(true, x, e, y, x + [e] + y);
    BoundsApart(true, x, y, e.a);
    EntryAddrs(tree, e.a);
    var s := x + y;
    assert forall i :: 0 <= i < |s| ==> Key(true, s[i].a, s[i].d) != e.a;
  }

  lemma InsertedAt(x: seq<Entry>, e: Entry, y: seq<Entry>, s': seq<Entry>)
    requires Inserted(x + y, s', e) && Sorted(true, s') && Sorted(true, x + [e] + y)
    ensures s' == x + [e] + y
  {
    var b, f :| x + y == b + f && s' == b + [e] + f;
    UniqueInsert(x, e, y, b, f);
  }

  /** How the free list changes as the neighbours leave it and the joined block comes. */
  lemma MergePlan(p: seq<Block>, b: Block, q: seq<Block>, from: nat, to: nat, left: nat, right: nat, tree: Tree)
    returns (el: Entry, eg: Entry)
    requires Tiles(p + [b] + q, from, to) && b.live && 0 < from && Entries(tree) == FreeOf(p) + FreeOf(q)
    requires if left == 0 then NoEnd(FreeOf(p) + FreeOf(q), b.a) else EndsAt(FreeOf(p) + FreeOf(q), left, b.a)
    requires if right == 0 then NoStart(FreeOf(p) + FreeOf(q), b.a + b.size)
             else right == b.a + b.size && HasAddr(FreeOf(p) + FreeOf(q), right)
    ensures if right != 0 then eg.a == right else eg.d == 0
    ensures FreeOf(p) + FreeOf(q) == if right != 0 then FreeOf(p) + [eg] + FreeOf(Rest(q)) else FreeOf(p) + FreeOf(Rest(q))
    ensures if left != 0 then el.a == left && FreeOf(p) + FreeOf(Rest(q)) == FreeOf(Front(p)) + [el] + FreeOf(Rest(q))
            else el.d == 0 && FreeOf(p) + FreeOf(Rest(q)) == FreeOf(Front(p)) + FreeOf(Rest(q))
    ensures el.d < b.a && b.a - el.d in Addrs(tree) + {b.a}
    ensures FreeOf(FreeIn(p, b, q)) == FreeOf(Front(p)) + [Entry(b.a - el.d, b.size + eg.d + el.d)] + FreeOf(Rest(q))
    ensures Sorted(true, FreeOf(Front(p)) + [Entry(b.a - el.d, b.size + eg.d + el.d)] + FreeOf(Rest(q)))
  {
    el, eg := Entry(left, LeftSize(p)), Entry(right, RightSize(q));
    hide *;
    PlanRight(p, b, q, from, to, right);
    PlanLeft(p, b, q, from, to, left, tree);
    JointFits(p, b, q, from, to);
  }

  lemma PlanRight(p: seq<Block>, b: Block, q: seq<Block>, from: nat, to: nat, right: nat)
    requires Tiles(p + [b] + q, from, to) && b.live && 0 < from
    requires if right == 0 then NoStart(FreeOf(p) + FreeOf(q), b.a + b.size)
             else right == b.a + b.size && HasAddr(FreeOf(p) + FreeOf(q), right)
    ensures right == 0 ==> RightSize(q) == 0 && FreeOf(p) + FreeOf(q) == FreeOf(p) + FreeOf(Rest(q))
    ensures right != 0 ==> FreeOf(p) + FreeOf(q) == FreeOf(p) + [Entry(right, RightSize(q))] + FreeOf(Rest(q))
  {
    NeighbourRight(p, b, q, from, to, right);
    hide FreeOf, NoStart, HasAddr, Tiles;
    if right != 0 { JoinRight(FreeOf(p), FreeOf(q), Entry(right, RightSize(q)), FreeOf(Rest(q))); }
  }

  lemma PlanLeft(p: seq<Block>, b: Block, q: seq<Block>, from: nat, to: nat, left: nat, tree: Tree)
    requires Tiles(p + [b] + q, from, to) && b.live && 0 < from && Entries(tree) == FreeOf(p) + FreeOf(q)
    requires if left == 0 then NoEnd(FreeOf(p) + FreeOf(q), b.a) else EndsAt(FreeOf(p) + FreeOf(q), left, b.a)
    ensures left == 0 ==> LeftSize(p) == 0 && FreeOf(p) + FreeOf(Rest(q)) == FreeOf(Front(p)) + FreeOf(Rest(q))
    ensures left != 0 ==> FreeOf(p) + FreeOf(Rest(q)) == FreeOf(Front(p)) + [Entry(left, LeftSize(p))] + FreeOf(Rest(q))
    ensures LeftSize(p) < b.a && b.a - LeftSize(p) in Addrs(tree) + {b.a}
    ensures Joint(p, b, q) == Block(b.a - LeftSize(p), b.size + RightSize(q) + LeftSize(p), false)
  {
    NeighbourLeft(p, b, q, from, to, left);
    Middle(p, b, q, from);
    hide FreeOf, NoEnd, EndsAt, Tiles, Contiguous, Words, LiveWords, LiveCount;
    if left != 0 {
      var el := Entry(left, LeftSize(p));
      JoinLeft(FreeOf(p), FreeOf(Front(p)), el, FreeOf(Rest(q)));
      JoinLeft(FreeOf(p), FreeOf(Front(p)), el, FreeOf(q));
      ListHas(FreeOf(Front(p)), el, FreeOf(q), tree);
    }
  }

  lemma JoinRight(x: seq<Entry>, y: seq<Entry>, e: Entry, r: seq<Entry>)
    requires y == [] + [e] + r
    ensures x + y == x + [e] + r
  {
  }

  lemma JoinLeft(x: seq<Entry>, f: seq<Entry>, e: Entry, y: seq<Entry>)
    requires x == f + [e] + []
    ensures x + y == f + [e] + y
  {
  }

  lemma ListHas(x: seq<Entry>, e: Entry, y: seq<Entry>, tree: Tree)
    requires Entries(tree) == x + [e] + y
    ensures e.a in Addrs(tree)
  {
    LastEntry(x, e, y, Entries(tree));
    EntryAddrs(tree, e.a);
  }

  lemma JointFits(p: seq<Block>, b: Block, q: seq<Block>, from: nat, to: nat)
    requires Tiles(p + [b] + q, from, to) && b.live && 0 < from
    ensures var j := Joint(p, b, q); var es := FreeOf(Front(p)) + [Entry(j.a, j.size)] + FreeOf(Rest(q));
            FreeOf(FreeIn(p, b, q)) == es && Sorted(true, es) && j.a != 0
  {
    FreeTiles(p, b, q, from, to);
    SpacedSorted(FreeIn(p, b, q), from);
    Middle(Front(p), Joint(p, b, q), Rest(q), from);
  }

  ghost predicate TooSmall(s: seq<Entry>, n: nat) { forall i :: 0 <= i < |s| ==> s[i].d < n }

  ghost predicate Fits(s: seq<Entry>, x: nat, n: nat) { exists i :: 0 <= i < |s| && s[i].a == x && s[i].d >= n }

  lemma FitsConcat(x: seq<Entry>, e: Entry, y: seq<Entry>, n: nat)
    ensures forall o :: Fits(x, o, n) || Fits(y, o, n) || (e.a == o && e.d >= n) ==> Fits(x + [e] + y, o, n)
    ensures TooSmall(x, n) && TooSmall(y, n) && e.d < n ==> TooSmall(x + [e] + y, n)
  {
    var s := x + [e] + y;
    assert forall i :: 0 <= i < |x| ==> s[i] == x[i];
    assert forall i :: 0 <= i < |y| ==> s[|x| + 1 + i] == y[i];
    assert s[|x|] == e;
    assert forall i :: 0 <= i < |s| ==> s[i] == if i < |x| then x[i] else if i == |x| then e else y[i - |x| - 1];
  }

  lemma ListedHeap(mem: Memory, root: nat, tree: Tree, bs: seq<Block>, from: nat)
    requires Stored(mem, root, tree, Addrs(tree), FreeOf(bs)) && Contiguous(bs, from)
    ensures Listed(mem, root, tree, Addrs(tree), FreeOf(bs)) && Repr(mem, tree, 0) && root == Addr(tree) && Entries(tree) == FreeOf(bs)
  {
    SpacedSorted(bs, from);
  }

  lemma NoneFits(bs: seq<Block>, n: nat)
    requires TooSmall(FreeOf(bs), n)
    ensures NoRoom(bs, n)
  {
    forall i | 0 <= i < |bs| && !bs[i].live ensures bs[i].size < n {
      EntryOfBlock(bs, i);
    }
  }

  lemma FitBlock(bs: seq<Block>, x: nat, n: nat) returns (k: nat)
    requires Fits(FreeOf(bs), x, n)
    ensures k < |bs| && bs[k].a == x && !bs[k].live && bs[k].size >= n
  {
    var i :| 0 <= i < |FreeOf(bs)| && FreeOf(bs)[i].a == x && FreeOf(bs)[i].d >= n;
    k := BlockOfEntry(bs, FreeOf(bs)[i]);
  }

  /** A block of m words has been taken out of free block k. */
  ghost predicate Allocated(bs: seq<Block>, bs': seq<Block>, k: nat, m: nat, addr: nat) {
    k < |bs| && !bs[k].live && bs[k].size >= m && bs' == AllocAt(bs, k, m) && addr == bs[k].a + HEADER
  }

  lemma CarveApart(mem: Memory, root: nat, tree: Tree, ep: seq<Entry>, x: nat, w: nat, m: nat, eq: seq<Entry>)
    requires Listed(mem, root, tree, Addrs(tree), ep + [Entry(x, w)] + eq) && 0 < m <= w
    ensures x in mem && !HasAddr(ep + eq, x) && !HasAddr(ep + [Entry(x + m, w - m)] + eq, x)
  {
    ListedIs(mem, root, tree, Addrs(tree), ep + [Entry(x, w)] + eq);
    EntryData(mem, root, tree, ep, Entry(x, w), eq);
    SortedParts(true, ep, Entry(x, w), eq, ep + [Entry(x, w)] + eq);
    BoundsApart(true, ep, eq, x);
    var s, u := ep + eq, ep + [Entry(x + m, w - m)] + eq;
    assert forall i :: 0 <= i < |s| ==> Key(true, s[i].a, s[i].d) != x;
    HasAddrConcat(ep, Entry(x + m, w - m), eq, x);
    assert forall i :: 0 <= i < |ep| ==> Key(true, ep[i].a, ep[i].d) < x;
    assert forall i :: 0 <= i < |eq| ==> Key(true, eq[i].a, eq[i].d) > x;
  }

  lemma HeaderWritten(m0: Memory, m2: Memory, m3: Memory, root: nat, tree: Tree, es: seq<Entry>, x: nat, v: nat, s: set<nat>)
    requires Listed(m2, root, tree, Addrs(tree), es) && !HasAddr(es, x) && Kept(m0, m2, s) && x in s && x in m2
    requires m3 == m2[x := m2[x].(prev := v)]
    ensures Listed(m3, root, tree, Addrs(tree), es) && Kept(m0, m3, s)
  {
    EntryAddrs(tree, x);
    HoldsFrame(m2, m3, root, Top, tree);
  }

  /** The nodes that taking m words of b may write. */
  ghost function Touched(b: Block, m: nat, tree: Tree): set<nat> {
    Addrs(tree) + {b.a} + if b.size >= m + MIN_BLOCK then {b.a + m} else {}
  }

  lemma TouchedHas(b: Block, m: nat, tree: Tree)
    ensures Addrs(tree) <= Touched(b, m, tree) && b.a in Touched(b, m, tree)
    ensures b.size >= m + MIN_BLOCK ==> b.a + m in Touched(b, m, tree)
  {
  }

  lemma TiledSorted(bs: seq<Block>, from: nat, to: nat)
    requires Tiles(bs, from, to)
    ensures Sorted(true, FreeOf(bs))
  {
    SpacedSorted(bs, from);
  }

  lemma AllocPlan(p: seq<Block>, b: Block, q: seq<Block>, m: nat, from: nat, to: nat)
    requires Tiles(p + [b] + q, from, to) && !b.live && MIN_BLOCK <= m <= b.size && 0 < from
    ensures b.a != 0 && Tiles(AllocIn(p, b, q, m), from, to)
    ensures b.size >= m + MIN_BLOCK ==> Sorted(true, FreeOf(p) + [Entry(b.a + m, b.size - m)] + FreeOf(q))
    ensures FreeOf(AllocIn(p, b, q, m)) ==
              if b.size >= m + MIN_BLOCK then FreeOf(p) + [Entry(b.a + m, b.size - m)] + FreeOf(q) else FreeOf(p) + FreeOf(q)
  {
    Middle(p, b, q, from);
    hide Contiguous, Coalesced, Words, LiveWords, LiveCount, FreeOf, Sorted, AllocIn;
    AllocTiles(p, b, q, m, from, to);
    hide Tiles;
    TiledSorted(AllocIn(p, b, q, m), from, to);
  }

  lemma TakenIs(b: Block, m: nat)
    ensures Taken(b, m) == if b.size >= m + MIN_BLOCK then m else b.size
  {
  }

  lemma AllocAtIs(bs: seq<Block>, k: nat, m: nat)
    requires k < |bs|
    ensures AllocAt(bs, k, m) == AllocIn(bs[..k], bs[k], bs[k + 1..], m) && bs == bs[..k] + [bs[k]] + bs[k + 1..]
  {
  }

  /** A live block's address is not on the free list. */
  lemma LiveNotListed(bs: seq<Block>, j: nat, from: nat, tree: Tree)
    requires Contiguous(bs, from) && j < |bs| && bs[j].live && Entries(tree) == FreeOf(bs)
    ensures bs[j].a !in Addrs(tree)
  {
    EntryAddrs(tree, bs[j].a);
    if HasAddr(FreeOf(bs), bs[j].a) {
      var i :| 0 <= i < |FreeOf(bs)| && FreeOf(bs)[i].a == bs[j].a;
      var k := BlockOfEntry(bs, FreeOf(bs)[i]);
      BlockStart(bs, k, from);
      BlockStart(bs, j, from);
      if k < j { NoOverlap(bs, from, k, j); }
      if j < k { NoOverlap(bs, from, j, k); }
    }
  }

  lemma AllocHeaders(m0: Memory, m1: Memory, bs: seq<Block>, k: nat, m: nat, from: nat, to: nat, tree: Tree, s: set<nat>)
    requires Tiles(bs, from, to) && k < |bs| && !bs[k].live && MIN_BLOCK <= m <= bs[k].size && Headers(m0, bs)
    requires Entries(tree) == FreeOf(bs) && Kept(m0, m1, s) && s == Touched(bs[k], m, tree)
    requires bs[k].a in m1 && m1[bs[k].a].prev == Taken(bs[k], m)
    ensures Headers(m1, AllocAt(bs, k, m))
  {
    forall j | 0 <= j < |bs| && bs[j].live ensures bs[j].a in m1 && m1[bs[j].a].prev == bs[j].size {
      LiveNotListed(bs, j, from, tree);
      LiveApart(bs, j, k, m, from);
    }
    AllocLive(bs, k, m);
  }

  lemma LiveApart(bs: seq<Block>, j: nat, k: nat, m: nat, from: nat)
    requires Contiguous(bs, from) && j < |bs| && k < |bs| && bs[j].live && !bs[k].live && MIN_BLOCK <= m <= bs[k].size
    ensures bs[j].a != bs[k].a && (bs[k].size >= m + MIN_BLOCK ==> bs[j].a != bs[k].a + m)
  {
    BlockStart(bs, j, from);
    BlockStart(bs, k, from);
    if j < k { NoOverlap(bs, from, j, k); } else { NoOverlap(bs, from, k, j); }
  }

  /** The live blocks after an allocation: those before it, and the new one. */
  lemma AllocLive(bs: seq<Block>, k: nat, m: nat)
    requires k < |bs| && !bs[k].live && MIN_BLOCK <= m <= bs[k].size
    ensures forall i {:trigger AllocAt(bs, k, m)[i]} :: 0 <= i < |AllocAt(bs, k, m)| && AllocAt(bs, k, m)[i].live ==>
              AllocAt(bs, k, m)[i] == Block(bs[k].a, Taken(bs[k], m), true) || exists j :: 0 <= j < |bs| && bs[j] == AllocAt(bs, k, m)[i]
  {
    var cs := AllocAt(bs, k, m);
    AllocParts(bs[..k], bs[k], bs[k + 1..], m);
    hide AllocAt;
    forall i | 0 <= i < |cs| && cs[i].live
      ensures cs[i] == Block(bs[k].a, Taken(bs[k], m), true) || exists j :: 0 <= j < |bs| && bs[j] == cs[i]
    {
      if i < k {
        assert bs[i] == cs[..k][i];
      } else if i > k {
        var z := if bs[k].size >= m + MIN_BLOCK then 1 else 0;
        assert cs[i] == cs[k + 1..][i - k - 1];
        if i - k - 1 >= z { assert bs[i - z] == cs[i]; }
      }
    }
  }

  lemma FreePlan(mem: Memory, bs: seq<Block>, k: nat, from: nat, to: nat, addr: nat)
    requires Tiles(bs, from, to) && k < |bs| && bs[k].live && Headers(mem, bs) && addr == bs[k].a + HEADER
    ensures addr >= HEADER && addr - HEADER == bs[k].a && bs[k].a in mem && mem[bs[k].a].prev == bs[k].size
    ensures bs[k] == Block(bs[k].a, bs[k].size, true) && bs == bs[..k] + [bs[k]] + bs[k + 1..]
    ensures FreeAt(bs, k) == FreeIn(bs[..k], bs[k], bs[k + 1..]) && FreeOf(bs) == FreeOf(bs[..k]) + FreeOf(bs[k + 1..])
    ensures Tiles(FreeAt(bs, k), from, to)
    ensures LiveWords(FreeAt(bs, k)) + bs[k].size == LiveWords(bs) && LiveCount(FreeAt(bs, k)) + 1 == LiveCount(bs)
  {
    assert bs[k] == Block(bs[k].a, bs[k].size, true);
    hide Tiles, FreeIn, FreeAt, FreeOf, LiveWords, LiveCount;
    FreeAtIs(bs, k);
    FreeTiles(bs[..k], bs[k], bs[k + 1..], from, to);
  }

  lemma FreeAtIs(bs: seq<Block>, k: nat)
    requires k < |bs|
    ensures FreeAt(bs, k) == FreeIn(bs[..k], bs[k], bs[k + 1..]) && bs == bs[..k] + [bs[k]] + bs[k + 1..]
  {
  }

  /** The live blocks after a free: those before it, but for the freed one. */
  lemma FreeLive(bs: seq<Block>, k: nat)
    requires k < |bs|
    ensures forall i {:trigger FreeAt(bs, k)[i]} :: 0 <= i < |FreeAt(bs, k)| && FreeAt(bs, k)[i].live ==>
              exists j :: 0 <= j < |bs| && j != k && bs[j] == FreeAt(bs, k)[i]
  {
    var cs, f, r := FreeAt(bs, k), Front(bs[..k]), Rest(bs[k + 1..]);
    forall i | 0 <= i < |cs| && cs[i].live ensures exists j :: 0 <= j < |bs| && j != k && bs[j] == cs[i] {
      if i < |f| {
        assert bs[i] == cs[i];
      } else {
        var z := |bs| - |r|;
        assert cs[i] == r[i - |f| - 1] == bs[z + (i - |f| - 1)];
      }
    }
  }

  lemma FreeHeaders(m0: Memory, m1: Memory, bs: seq<Block>, k: nat, from: nat, to: nat, tree: Tree)
    requires Tiles(bs, from, to) && k < |bs| && bs[k].live && Headers(m0, bs)
    requires Entries(tree) == FreeOf(bs) && Kept(m0, m1, Addrs(tree) + {bs[k].a})
    ensures Headers(m1, FreeAt(bs, k))
  {
    forall j | 0 <= j < |bs| && bs[j].live && j != k ensures bs[j].a in m1 && m1[bs[j].a].prev == bs[j].size {
      LiveNotListed(bs, j, from, tree);
      BlockStart(bs, k, from);
      BlockStart(bs, j, from);
      if j < k { NoOverlap(bs, from, j, k); } else { NoOverlap(bs, from, k, j); }
    }
    FreeLive(bs, k);
    hide FreeAt;
  }

  lemma OneNode(mem: Memory, x: nat, d: nat)
    requires x != 0 && x in mem && mem[x] == Cell(3, 0, 0, d)
    ensures Stored(mem, x, NewLeaf(x, d), Addrs(NewLeaf(x, d)), [Entry(x, d)])
  {
    OneNodeTree(x, d);
    OneNodeRepr(mem, x, d);
    OneNodePath(mem, x);
    hide Repr, PathRepr, Distinct, Balanced, Entries, Addrs, PathDistinct, RootOf, NewLeaf;
    assert Holds(mem, x, Top, NewLeaf(x, d));
  }

  lemma OneNodeTree(x: nat, d: nat)
    ensures Distinct(NewLeaf(x, d)) && Balanced(NewLeaf(x, d)) && Entries(NewLeaf(x, d)) == [Entry(x, d)] && Addr(NewLeaf(x, d)) == x
  {
    assert Entries(Leaf) == [] && Addrs(Leaf) == {} && Height(Leaf) == 0;
  }

  lemma OneNodeRepr(mem: Memory, x: nat, d: nat)
    requires x != 0 && x in mem && mem[x] == Cell(3, 0, 0, d)
    ensures Repr(mem, NewLeaf(x, d), 0)
  {
    assert Pack(0, 0) == 3 && NodeAt(mem, x, 0, 0, 0, 0, d);
  }

  lemma OneNodePath(mem: Memory, x: nat)
    ensures PathRepr(mem, Top, x) && PathAddr(Top) == 0 && PathAddrs(Top) == {} && PathDistinct(Top) && RootOf(Top, x) == x
  {
  }

  function Min(x: int, y: int): int { if x < y then x else y }

  /** The first count words at to are those at src; the others have not changed. */
  ghost predicate Copied(w: seq<nat>, w': seq<nat>, src: nat, to: nat, count: int) {
    && |w'| == |w| && src + count <= |w| && to + count <= |w|
    && (forall x :: to <= x < to + count ==> w'[x] == w[x - to + src])
    && (forall x :: 0 <= x < |w| && !(to <= x < to + count) ==> w'[x] == w[x])
  }

  ghost predicate Reallocated(bs: seq<Block>, cs: seq<Block>, bs': seq<Block>, j: nat, m: nat, newAddr: nat, k: nat, k': nat) {
    Allocated(bs, cs, j, m, newAddr) && k < |bs| && k' < |cs| && cs[k'] == bs[k] && bs' == FreeAt(cs, k')
  }

  lemma StillLive(bs: seq<Block>, j: nat, m: nat, k: nat) returns (k': nat)
    requires j < |bs| && k < |bs| && !bs[j].live && bs[k].live && MIN_BLOCK <= m <= bs[j].size
    ensures k' < |AllocAt(bs, j, m)| && AllocAt(bs, j, m)[k'] == bs[k]
  {
    hide AllocIn;
    var cs := AllocAt(bs, j, m);
    AllocParts(bs[..j], bs[j], bs[j + 1..], m);
    if k < j {
      k' := k;
      assert cs[..j][k] == bs[k];
    } else {
      k' := if bs[j].size >= m + MIN_BLOCK then k + 1 else k;
      assert cs[j + 1..][k' - j - 1] == bs[j + 1..][k - j - 1];
    }
  }

  /** Writes that miss a block, after writes that miss it. */
  lemma MissesTwice(m0: Memory, m1: Memory, m2: Memory, b: Block)
    requires Misses(m0, m1, b) && Misses(m1, m2, b)
    ensures Misses(m0, m2, b)
  {
  }

  /** The list writes of alloc miss every block that is live then, those of free every block live then but the one freed. */
  ghost predicate WritesApart(m0: Memory, m2: Memory, bs: seq<Block>, cs: seq<Block>, k': nat) {
    exists m1 :: Between(m0, m1, m2, bs, cs, k')
  }

  ghost predicate Between(m0: Memory, m1: Memory, m2: Memory, bs: seq<Block>, cs: seq<Block>, k': nat) {
    MissesLive(m0, m1, bs, -1) && MissesLive(m1, m2, cs, k')
  }

  /** So no list write of the two touches a block that is live throughout. */
  lemma ApartThroughout(m0: Memory, m2: Memory, bs: seq<Block>, j: nat, m: nat, from: nat, to: nat, k: nat, k': nat)
    requires Tiles(bs, from, to) && j < |bs| && k < |bs| && !bs[j].live && bs[k].live && MIN_BLOCK <= m <= bs[j].size
    requires k' < |AllocAt(bs, j, m)| && AllocAt(bs, j, m)[k'] == bs[k] && WritesApart(m0, m2, bs, AllocAt(bs, j, m), k')
    ensures MissesLive(m0, m2, bs, k)
  {
    var cs := AllocAt(bs, j, m);
    var m1 :| Between(m0, m1, m2, bs, cs, k');
    hide AllocAt, Misses;
    forall i | 0 <= i < |bs| && bs[i].live && i != k ensures Misses(m0, m2, bs[i]) {
      var i' := StillLive(bs, j, m, i);
      OtherBlock(bs, from, to, i, k);
      MissesTwice(m0, m1, m2, bs[i]);
    }
  }

  lemma OtherBlock(bs: seq<Block>, from: nat, to: nat, i: nat, k: nat)
    requires Tiles(bs, from, to) && i < |bs| && k < |bs| && i != k
    ensures bs[i] != bs[k]
  {
    InsideHeap(bs, i, from, to);
    InsideHeap(bs, k, from, to);
    if i < k { NoOverlap(bs, from, i, k); } else { NoOverlap(bs, from, k, i); }
  }

  /** The words that realloc copies fit into the new block, except for the largest request, when the old block is larger. */
  lemma CopyFits(bs: seq<Block>, j: nat, k: nat, n: nat)
    requires j < |bs| && k < |bs| && BlockSize(n) <= bs[j].size
    requires MIN_BLOCK <= bs[k].size < 0x1_0000_0000_0000_0000 && n < 0x1_0000_0000_0000_0000
    ensures Min(bs[k].size - 1, n) <= Taken(bs[j], BlockSize(n)) - HEADER <==>
            n < 0xffff_ffff_ffff_ffff || bs[k].size <= Taken(bs[j], BlockSize(n))
  {
    RequestFits(n);
    LargestRequest();
  }

  lemma AllocatedIs(bs: seq<Block>, cs: seq<Block>, j: nat, m: nat, addr: nat)
    requires Allocated(bs, cs, j, m, addr)
    ensures j < |bs| && !bs[j].live && bs[j].size >= m && cs == AllocAt(bs, j, m) && addr == bs[j].a + HEADER
  {
  }

  /** A block of m words has been taken, and then block k freed; the list writes of either step miss what is live then. */
  ghost predicate Renewed(bs: seq<Block>, bs': seq<Block>, m0: Memory, m2: Memory, m: nat, newAddr: nat, k: nat) {
    exists j, cs, k' :: Reallocated(bs, cs, bs', j, m, newAddr, k, k') && WritesApart(m0, m2, bs, cs, k')
  }

  lemma RenewedIs(bs: seq<Block>, cs: seq<Block>, bs': seq<Block>, m0: Memory, m1: Memory, m2: Memory, j: nat, m: nat, newAddr: nat,
                  k: nat, k': nat, from: nat, to: nat)
    requires Tiles(bs, from, to) && m >= MIN_BLOCK
    requires Allocated(bs, cs, j, m, newAddr) && k < |bs| && bs[k].live && k' < |cs| && cs[k'] == bs[k] && bs' == FreeAt(cs, k')
    requires MissesLive(m0, m1, bs, -1) && MissesLive(m1, m2, cs, k')
    ensures Renewed(bs, bs', m0, m2, m, newAddr, k)
    ensures MissesLive(m0, m2, bs, k)
  {
    hide MissesLive, Tiles, AllocAt, FreeAt;
    assert Between(m0, m1, m2, bs, cs, k');
    ApartThroughout(m0, m2, bs, j, m, from, to, k, k');
    assert Reallocated(bs, cs, bs', j, m, newAddr, k, k');
  }

  lemma HeaderOf(mem: Memory, bs: seq<Block>, k: nat)
    requires Headers(mem, bs) && k < |bs| && bs[k].live
    ensures bs[k].a in mem && mem[bs[k].a].prev == bs[k].size
  {
  }

  /** The old block's memory and the new one's are inside the heap and apart. */
  lemma ReallocRoom(bs: seq<Block>, j: nat, m: nat, k: nat, n: nat, from: nat, to: nat)
    requires Tiles(bs, from, to) && j < |bs| && k < |bs| && !bs[j].live && bs[k].live
    requires m == BlockSize(n) && m <= bs[j].size && n < 0xffff_ffff_ffff_ffff
    ensures var count := Min(bs[k].size - 1, n);
            && 0 <= count && bs[k].a + HEADER + count <= to && bs[j].a + HEADER + count <= to
            && (bs[k].a + HEADER + count <= bs[j].a + HEADER || bs[j].a + HEADER + count <= bs[k].a + HEADER)
    ensures bs[k].a + HEADER - HEADER == bs[k].a
  {
    InsideHeap(bs, j, from, to);
    InsideHeap(bs, k, from, to);
    if j < k { NoOverlap(bs, from, j, k); } else { NoOverlap(bs, from, k, j); }
  }

  /** The words to move from block b are inside the heap, and so is their new place, which is apart. */
  predicate Room(b: Block, newAddr: nat, n: nat, to: nat) {
    var addr, count := b.a + HEADER, Min(b.size - 1, n);
    0 <= count && addr + count <= to && newAddr + count <= to && (addr + count <= newAddr || newAddr + count <= addr)
  }

  lemma RoomIs(b: Block, newAddr: nat, n: nat, to: nat)
    requires Room(b, newAddr, n, to)
    ensures var addr, count := b.a + HEADER, Min(b.size - 1, n);
            0 <= count && addr + count <= to && newAddr + count <= to && (addr + count <= newAddr || newAddr + count <= addr)
  {
  }

  /** A block for n words has been taken, and then the block that was number k given back. */
  ghost predicate Exchanged(bs: seq<Block>, bs': seq<Block>, k: nat, n: nat, newAddr: nat) {
    exists j, cs, k' :: TakenOut(bs, cs, j, n, newAddr) && k < |bs| && GivenBack(cs, bs', k') && cs[k'] == bs[k]
  }

  lemma ExchangedIs(bs: seq<Block>, cs: seq<Block>, bs': seq<Block>, j: nat, k': nat, k: nat, n: nat, newAddr: nat)
    requires TakenOut(bs, cs, j, n, newAddr) && k < |bs| && GivenBack(cs, bs', k') && k' < |cs| && cs[k'] == bs[k]
    ensures Exchanged(bs, bs', k, n, newAddr)
  {
  }

  lemma NothingWritten(mem: Memory, bs: seq<Block>)
    ensures MissesLive(mem, mem, bs, -1)
  {
  }

  lemma Sizes(n: nat)
    ensures var m := (n + HEADER) % 0x1_0000_0000_0000_0000;
            0 <= m && 0 < MIN_BLOCK && BlockSize(n) == if m < MIN_BLOCK then MIN_BLOCK else m
  {
  }

  lemma RoomFor(bs: seq<Block>, n: nat)
    ensures n < 0xffff_ffff_ffff_ffff ==> (NoneFor(bs, n) <==> NoRoom(bs, BlockSize(n)))
  {
    if n < 0xffff_ffff_ffff_ffff { NoneForIs(bs, n); }
    hide NoneFor, BlockSize;
  }

  /** Block k is the one that has been taken. */
  lemma AllocatedThere(bs: seq<Block>, bs': seq<Block>, k: nat, n: nat, addr: nat)
    requires k < |bs| && !bs[k].live && bs[k].size >= BlockSize(n) && bs' == AllocAt(bs, k, BlockSize(n)) && addr == bs[k].a + HEADER
    ensures Allocated(bs, bs', k, BlockSize(n), addr) && !NoRoom(bs, BlockSize(n)) && addr != 0
    ensures n < 0xffff_ffff_ffff_ffff ==> TakenOut(bs, bs', k, n, addr)
  {
    if n < 0xffff_ffff_ffff_ffff { TakenOutIs(bs, k, n); }
    hide BlockSize, AllocAt, TakenOut;
  }

  /** What alloc has left for realloc: the old block, number k' now, and the new one. */
  lemma ToMove(bs: seq<Block>, cs: seq<Block>, newAddr: nat, k: nat, n: nat, from: nat, to: nat) returns (j: nat, k': nat)
    requires Tiles(bs, from, to) && k < |bs| && bs[k].live && n < 0xffff_ffff_ffff_ffff
    requires exists j :: Allocated(bs, cs, j, BlockSize(n), newAddr)
    ensures k' < |cs| && cs[k'] == bs[k] && Allocated(bs, cs, j, BlockSize(n), newAddr)
    ensures TakenOut(bs, cs, j, n, newAddr)
    ensures Room(bs[k], newAddr, n, to) && BlockSize(n) >= MIN_BLOCK
  {
    hide Allocated, AllocAt, Tiles;
    j :| 0 <= j && Allocated(bs, cs, j, BlockSize(n), newAddr);
    AllocatedIs(bs, cs, j, BlockSize(n), newAddr);
    k' := StillLive(bs, j, BlockSize(n), k);
    TakenOutIs(bs, j, n);
    ReallocRoom(bs, j, BlockSize(n), k, n, from, to);
  }

  lemma InsideHeap(bs: seq<Block>, k: nat, from: nat, to: nat)
    requires Tiles(bs, from, to) && k < |bs|
    ensures from <= bs[k].a && bs[k].size >= MIN_BLOCK && bs[k].a + bs[k].size <= to
  {
    BlockStart(bs, k, from);
  }

  class Heap {
    /** The words [start, end) after the heap header. */
    const start: nat
    const end: nat
    /** fmds_ptr and the block memory. */
    const free: AvlTree
    var trueNumAlloced: nat
    var wordsUsed: nat
    /** The contents of the heap's words, outside block headers and list nodes. */
    var words: seq<nat>
    ghost var tree: Tree
    ghost var blocks: seq<Block>

    ghost predicate Valid()
      reads this, free
    {
      && 0 < start && Tiles(blocks, start, end)
      && Stored(free.nodes, free.root, tree, Addrs(tree), FreeOf(blocks))
      && Headers(free.nodes, blocks)
      && trueNumAlloced == LiveCount(blocks) && wordsUsed == LiveWords(blocks) && |words| == end
    }

    lemma WhenValid()
      requires Valid()
      ensures 0 < start && Tiles(blocks, start, end) && Headers(free.nodes, blocks)
      ensures Listed(free.nodes, free.root, tree, Addrs(tree), FreeOf(blocks)) && Entries(tree) == FreeOf(blocks)
      ensures Stored(free.nodes, free.root, tree, Addrs(tree), FreeOf(blocks))
      ensures trueNumAlloced == LiveCount(blocks) && wordsUsed == LiveWords(blocks) && |words| == end
    {
      ListedHeap(free.nodes, free.root, tree, blocks, start);
    }

    lemma StaysValid()
      requires 0 < start && Tiles(blocks, start, end)
      requires Stored(free.nodes, free.root, tree, Addrs(tree), FreeOf(blocks)) && Headers(free.nodes, blocks)
      requires trueNumAlloced == LiveCount(blocks) && wordsUsed == LiveWords(blocks) && |words| == end
      ensures Valid()
    {
    }

    constructor (start: nat, end: nat)
      requires 0 < start && start + MIN_BLOCK <= end
      ensures Valid() && fresh(free) && this.start == start && this.end == end
      ensures blocks == [Block(start, end - start, false)]
    {
      this.start, this.end := start, end;
      free := new AvlTree();
      trueNumAlloced, wordsUsed := 0, 0;
      words := seq(end, _ => 0);
      tree := NewLeaf(start, end - start);
      blocks := [Block(start, end - start, false)];
      new;
      free.root := start;
      free.nodes := map[start := Cell(3, 0, 0, end - start)];
      One(blocks[0], start);
      OneNode(free.nodes, start, end - start);
    }

    /** init_heap, up to its first allocation: null for a misaligned start or a heap too small for one block. */
    static method InitHeap(heapStart: nat, heapSize: nat) returns (h: Heap?)
      ensures h != null <==> heapStart % 8 == 0 && heapSize >= 12
      ensures h != null ==> h.Valid() && fresh(h) && fresh(h.free)
      ensures h != null ==> h.start == heapStart / 8 + 8 && h.end == heapStart / 8 + heapSize
      ensures h != null ==> h.blocks == [Block(h.start, heapSize - 8, false)]
    {
      if heapStart % 8 != 0 { return null; }
      if heapSize < MIN_BLOCK + HEAP_HEADER { return null; }
      h := new Heap(heapStart / 8 + HEAP_HEADER, heapStart / 8 + heapSize);
    }

    /** _avl_delete and then avl_move: the node nd leaves the list, every other node stays at its own address. */
    method Take(nd: nat, ghost tree: Tree) returns (ghost tree': Tree)
      requires Listed(free.nodes, free.root, tree, Addrs(tree), Entries(tree)) && nd in Addrs(tree)
      modifies free
      ensures Listed(free.nodes, free.root, tree', Addrs(tree) - {nd}, Entries(tree'))
      ensures Without(Entries(tree), Entries(tree'), nd) && Within(old(free.nodes), free.nodes, Addrs(tree))
    {
      NonNull(free.nodes, free.root, tree, nd);
      ghost var es, s := Entries(tree), Addrs(tree);
      hide *;
      ghost var m0 := free.nodes;
      var removed;
      ghost var t1;
      removed, t1 := free.Delete(nd, tree);
      StoredIs(free.nodes, free.root, t1, s - {removed}, Entries(t1));
      ghost var m1 := free.nodes;
      if removed == nd {
        RemovedIsWithout(es, Entries(t1), nd);
        tree' := t1;
      } else {
        ghost var b, d, f;
        AddrsAfter(free.nodes, free.root, t1, s - {removed});
        tree', b, d, f := free.Move(removed, nd, t1);
        MovedBack(es, Entries(t1), nd, removed, b, d, f);
        BeyondInside(m0, m1, free.nodes, s, removed);
        assert s - {removed} - {nd} + {removed} == s - {nd};
      }
      WithoutSorted(es, Entries(tree'), nd);
      ShowListed(free.nodes, free.root, tree', s - {nd}, Entries(tree'));
    }

    /** The loop of avl_merge: the free blocks that end at lo and start at hi, null where there is none. */
    method FindNeighbours(lo: nat, hi: nat, ghost tree: Tree) returns (left: nat, right: nat)
      requires Listed(free.nodes, free.root, tree, Addrs(tree), Entries(tree)) && Around(Entries(tree), lo, hi)
      ensures if left == 0 then NoEnd(Entries(tree), lo) else EndsAt(Entries(tree), left, lo)
      ensures if right == 0 then NoStart(Entries(tree), hi) else right == hi && HasAddr(Entries(tree), hi)
    {
      left, right := 0, 0;
      var cur := free.root;
      ghost var c, t := Top, tree;
      SearchStart(free.nodes, free.root, tree, lo, hi);
      hide *;
      while cur != 0 && (left == 0 || right == 0)
        invariant Holds(free.nodes, free.root, c, t) && cur == Addr(t) && Narrowed(c, t, tree, lo, hi, left, right)
        decreases t
      {
        SearchAt(free.nodes, free.root, c, t, tree, lo, hi, left, right);
        if cur == hi {
          right := cur;
          cur := free.nodes[cur].left;
          c, t := InLeft(c, t.a, t.d, t.bf, t.r), t.l;
        } else if cur + free.nodes[cur].data == lo {
          left := cur;
          cur := free.nodes[cur].right;
          c, t := InRight(c, t.a, t.d, t.bf, t.l), t.r;
        }
        if cur != 0 {
          SearchAt(free.nodes, free.root, c, t, tree, lo, hi, left, right);
          if cur > hi {
            cur := free.nodes[cur].left;
            c, t := InLeft(c, t.a, t.d, t.bf, t.r), t.l;
          } else if cur + free.nodes[cur].data < lo {
            cur := free.nodes[cur].right;
            c, t := InRight(c, t.a, t.d, t.bf, t.l), t.r;
          }
        }
      }
      SearchEnd(free.nodes, free.root, c, t, cur);
      SearchOver(c, t, tree, lo, hi, left, right);
    }

    /** Take a known entry off the list, and say how large it was. */
    method TakeEntry(nd: nat, ghost tree: Tree, ghost x: seq<Entry>, ghost e: Entry, ghost y: seq<Entry>, ghost s: set<nat>)
      returns (size: nat, ghost tree': Tree)
      requires Listed(free.nodes, free.root, tree, Addrs(tree), x + [e] + y) && nd == e.a && Addrs(tree) <= s
      modifies free
      ensures size == e.d && Listed(free.nodes, free.root, tree', Addrs(tree'), x + y) && Addrs(tree') <= s
      ensures Kept(old(free.nodes), free.nodes, s)
    {
      hide *;
      ghost var m := free.nodes;
      ListedIs(m, free.root, tree, Addrs(tree), x + [e] + y);
      EntryData(m, free.root, tree, x, e, y);
      size := free.nodes[nd].data;
      tree' := Take(nd, tree);
      WithoutAt(x, e, y, x + [e] + y, Entries(tree'));
      ListedIs(free.nodes, free.root, tree', Addrs(tree) - {nd}, Entries(tree'));
      KeptRefl(m, s);
      KeptWithin(m, m, free.nodes, s, Addrs(tree));
    }

    /** Put a block on the list where the address order wants it. */
    method PutEntry(nd: nat, size: nat, ghost tree: Tree, ghost x: seq<Entry>, ghost y: seq<Entry>, ghost s: set<nat>)
      returns (ghost tree': Tree)
      requires Listed(free.nodes, free.root, tree, Addrs(tree), x + y) && Sorted(true, x + [Entry(nd, size)] + y)
      requires nd != 0 && Addrs(tree) <= s && nd in s
      modifies free
      ensures Listed(free.nodes, free.root, tree', Addrs(tree'), x + [Entry(nd, size)] + y)
      ensures Kept(old(free.nodes), free.nodes, s) && Addrs(tree') == Addrs(tree) + {nd}
    {
      hide *;
      ghost var m := free.nodes;
      ListedIs(m, free.root, tree, Addrs(tree), x + y);
      NotYet(x, Entry(nd, size), y, tree);
      ListedStored(m, free.root, tree, x + y);
      var failed;
      failed, tree' := free.Insert(nd, size, true, tree);
      InsertedAt(x, Entry(nd, size), y, Entries(tree'));
      ShowListed(free.nodes, free.root, tree', Addrs(tree'), Entries(tree'));
      KeptRefl(m, s);
      KeptBeyond(m, m, free.nodes, s, Addrs(tree), nd);
    }

    /** The second half of avl_merge: take the neighbours off the list, then insert the joined block. */
    method MergeBlocks(addr: nat, size: nat, left: nat, right: nat, ghost tree: Tree,
                       ghost ep: seq<Entry>, ghost ef: seq<Entry>, ghost er: seq<Entry>, ghost el: Entry, ghost eg: Entry, ghost s: set<nat>)
      returns (ghost tree': Tree)
      requires Listed(free.nodes, free.root, tree, Addrs(tree), if right != 0 then ep + [eg] + er else ep + er)
      requires if right != 0 then eg.a == right else eg.d == 0
      requires if left != 0 then el.a == left && ep + er == ef + [el] + er else el.d == 0 && ep + er == ef + er
      requires el.d < addr && Sorted(true, ef + [Entry(addr - el.d, size + eg.d + el.d)] + er)
      requires Addrs(tree) <= s && addr - el.d in s
      modifies free
      ensures Listed(free.nodes, free.root, tree', Addrs(tree'), ef + [Entry(addr - el.d, size + eg.d + el.d)] + er)
      ensures Kept(old(free.nodes), free.nodes, s)
    {
      hide *;
      ghost var m0 := free.nodes;
      ghost var t1 := tree;
      var joined, at := size, addr;
      KeptRefl(m0, s);
      if right != 0 {
        var more;
        more, t1 := TakeEntry(right, t1, ep, eg, er, s);
        joined := joined + more;
      }
      ghost var m1 := free.nodes;
      if left != 0 {
        var more;
        more, t1 := TakeEntry(left, t1, ef, el, er, s);
        at := at - more;
        joined := joined + more;
        KeptTrans(m0, m1, free.nodes, s);
      }
      ghost var m2 := free.nodes;
      tree' := PutEntry(at, joined, t1, ef, er, s);
      KeptTrans(m0, m2, free.nodes, s);
    }

    /** avl_merge: put the block b, between p and q, on the free list, joined with its free neighbours. */
    method Merge(addr: nat, size: nat, ghost tree: Tree, ghost p: seq<Block>, ghost b: Block, ghost q: seq<Block>)
      returns (ghost tree': Tree)
      requires Tiles(p + [b] + q, start, end) && b == Block(addr, size, true) && 0 < start
      requires Listed(free.nodes, free.root, tree, Addrs(tree), FreeOf(p) + FreeOf(q))
      modifies free
      ensures Listed(free.nodes, free.root, tree', Addrs(tree'), FreeOf(FreeIn(p, b, q)))
      ensures Kept(old(free.nodes), free.nodes, Addrs(tree) + {addr})
    {
      hide *;
      ListedIs(free.nodes, free.root, tree, Addrs(tree), FreeOf(p) + FreeOf(q));
      FreeBounds(p, b, q, start, end);
      var left, right := FindNeighbours(addr, addr + size, tree);
      ghost var el, eg := MergePlan(p, b, q, start, end, left, right, tree);
      tree' := MergeBlocks(addr, size, left, right, tree, FreeOf(p), FreeOf(Front(p)), FreeOf(Rest(q)), el, eg, Addrs(tree) + {addr});
    }

    /** avl_min_ge: some listed block of at least n words, null when there is none. */
    method MinGe(ptr: nat, n: nat, ghost t: Tree, ghost up: nat) returns (o: nat)
      requires Repr(free.nodes, t, up) && ptr == Addr(t)
      ensures if o == 0 then TooSmall(Entries(t), n) else Fits(Entries(t), o, n)
      decreases t
    {
      if ptr == 0 { return 0; }
      FitsConcat(Entries(t.l), Entry(t.a, t.d), Entries(t.r), n);
      o := MinGe(free.nodes[ptr].left, n, t.l, t.a);
      if o != 0 { return o; }
      o := MinGe(free.nodes[ptr].right, n, t.r, t.a);
      if o != 0 { return o; }
      if free.nodes[ptr].data >= n { return ptr; }
      return 0;
    }

    /** The rest of alloc once a block is found: take it, give back what is left over, write the header. */
    method Carve(found: nat, request: nat, ghost tree: Tree, ghost ep: seq<Entry>, ghost whole: nat, ghost eq: seq<Entry>, ghost s: set<nat>)
      returns (size: nat, ghost tree': Tree)
      requires Listed(free.nodes, free.root, tree, Addrs(tree), ep + [Entry(found, whole)] + eq)
      requires found != 0 && 0 < request <= whole && Addrs(tree) <= s && found in s
      requires whole >= request + MIN_BLOCK ==> found + request in s && Sorted(true, ep + [Entry(found + request, whole - request)] + eq)
      modifies free
      ensures size == if whole >= request + MIN_BLOCK then request else whole
      ensures Listed(free.nodes, free.root, tree', Addrs(tree'),
                     if whole >= request + MIN_BLOCK then ep + [Entry(found + request, whole - request)] + eq else ep + eq)
      ensures Kept(old(free.nodes), free.nodes, s) && found in free.nodes && free.nodes[found].prev == size
    {
      hide *;
      ghost var m0, t0 := free.nodes, tree;
      CarveApart(m0, free.root, tree, ep, found, whole, request, eq);
      var got;
      got, tree' := TakeEntry(found, tree, ep, Entry(found, whole), eq, s);
      ghost var m1 := free.nodes;
      size := request;
      if got >= size + MIN_BLOCK {
        tree' := PutEntry(found + size, got - size, tree', ep, eq, s);
        KeptTrans(m0, m1, free.nodes, s);
      } else {
        size := got;
      }
      ghost var m2 := free.nodes;
      ghost var es := if whole >= request + MIN_BLOCK then ep + [Entry(found + request, whole - request)] + eq else ep + eq;
      KeptKeys(m0, m2, s);
      free.nodes := free.nodes[found := free.nodes[found].(prev := size)];
      HeaderWritten(m0, m2, free.nodes, free.root, tree', es, found, size, s);
    }

    /** alloc, with free block k found large enough. */
    method AllocFrom(found: nat, size: nat, ghost k: nat) returns (addr: nat)
      requires Valid() && k < |blocks| && !blocks[k].live && found == blocks[k].a && 0 < size && MIN_BLOCK <= size <= blocks[k].size
      modifies this, free
      ensures Valid() && blocks == AllocAt(old(blocks), k, size) && addr == found + HEADER && words == old(words)
      ensures MissesLive(old(free.nodes), free.nodes, old(blocks), -1)
    {
      hide *;
      ghost var bs, m0 := blocks, free.nodes;
      ghost var p, b, q, s := bs[..k], bs[k], bs[k + 1..], Touched(blocks[k], size, tree);
      WhenValid();
      TilesContiguous(bs, start, end);
      TouchedOutsideLive(bs, start, tree, k, size);
      AllocAtIs(bs, k, size);
      TouchedHas(b, size, tree);
      AllocPlan(p, b, q, size, start, end);
      AllocTiles(p, b, q, size, start, end);
      var taken;
      ghost var t1;
      taken, t1 := Carve(found, size, tree, FreeOf(p), b.size, FreeOf(q), s);
      TakenIs(b, size);
      KeptMisses(m0, free.nodes, s, bs, -1);
      AllocHeaders(m0, free.nodes, bs, k, size, start, end, tree, s);
      blocks := AllocAt(bs, k, size);
      tree := t1;
      ListedStored(free.nodes, free.root, t1, FreeOf(blocks));
      trueNumAlloced := trueNumAlloced + 1;
      wordsUsed := wordsUsed + taken;
      addr := found + HEADER;
      StaysValid();
    }

    /**
     alloc: the address of the new block's memory, or null exactly when no free block,
     hence no run of free words, is as large as the request needs.
     */
    method Alloc(n: nat) returns (addr: nat)
      requires Valid()
      modifies this, free
      ensures Valid()
      ensures addr == 0 <==> NoRoom(old(blocks), BlockSize(n))
      ensures addr == 0 ==> blocks == old(blocks)
      ensures words == old(words)
      ensures MissesLive(old(free.nodes), free.nodes, old(blocks), -1)
      ensures addr != 0 ==> exists k :: Allocated(old(blocks), blocks, k, BlockSize(n), addr)
      ensures n < 0xffff_ffff_ffff_ffff ==> (addr == 0 <==> NoneFor(old(blocks), n))
      ensures n < 0xffff_ffff_ffff_ffff && addr != 0 ==> exists k :: TakenOut(old(blocks), blocks, k, n, addr)
    {
      hide *;
      Sizes(n);
      var size := (n + HEADER) % 0x1_0000_0000_0000_0000;
      if size < MIN_BLOCK { size := MIN_BLOCK; }
      WhenValid();
      ListRoot();
      RoomFor(blocks, n);
      var found := MinGe(free.root, size, tree, 0);
      if found == 0 {
        NoneFits(blocks, size);
        NothingWritten(free.nodes, blocks);
        return 0;
      }
      ghost var k := FitBlock(blocks, found, size);
      ghost var bs := blocks;
      addr := AllocFrom(found, size, k);
      AllocatedThere(bs, blocks, k, n, addr);
    }

    lemma ListRoot()
      requires Valid()
      ensures Repr(free.nodes, tree, 0) && free.root == Addr(tree)
    {
      ListedHeap(free.nodes, free.root, tree, blocks, start);
    }

    /** free, of the memory of live block k: joined with the free neighbours, it goes on the list. */
    method Free(addr: nat, ghost k: nat)
      requires Valid() && k < |blocks| && blocks[k].live && addr == blocks[k].a + HEADER
      modifies this, free
      ensures Valid() && blocks == FreeAt(old(blocks), k) && words == old(words)
      ensures GivenBack(old(blocks), blocks, k)
      ensures MissesLive(old(free.nodes), free.nodes, old(blocks), k)
    {
      hide *;
      ghost var bs, m0 := blocks, free.nodes;
      ghost var p, b, q := bs[..k], bs[k], bs[k + 1..];
      WhenValid();
      FreePlan(m0, bs, k, start, end, addr);
      GivenBackIs(bs, k, start, end);
      TilesContiguous(bs, start, end);
      FreedOutsideLive(bs, start, tree, k);
      var freed := addr - HEADER;
      var size := free.nodes[freed].prev;
      ghost var t1 := Merge(freed, size, tree, p, b, q);
      KeptMisses(m0, free.nodes, Addrs(tree) + {freed}, bs, k);
      FreeHeaders(m0, free.nodes, bs, k, start, end, tree);
      blocks := FreeAt(bs, k);
      tree := t1;
      ListedStored(free.nodes, free.root, t1, FreeOf(blocks));
      trueNumAlloced := trueNumAlloced - 1;
      wordsUsed := wordsUsed - size;
      StaysValid();
    }

    /** The loop of realloc that copies words between two blocks. */
    method CopyWords(src: nat, to: nat, count: int)
      requires src + count <= |words| && to + count <= |words| && (src + count <= to || to + count <= src) && 0 <= count
      modifies this`words
      ensures Copied(old(words), words, src, to, count) && |words| == |old(words)|
    {
      for i := 0 to count
        invariant Copied(old(words), words, src, to, i)
      {
        words := words[to + i := words[src + i]];
      }
    }

    /**
     realloc: null, and nothing changed, when alloc fails; otherwise a new block with the words that
     fit of the old one's, which is freed.
     */
    method Realloc(addr: nat, n: nat, ghost k: nat) returns (newAddr: nat)
      requires Valid() && k < |blocks| && blocks[k].live && addr == blocks[k].a + HEADER && n < 0xffff_ffff_ffff_ffff
      modifies this, free
      ensures Valid()
      ensures newAddr == 0 <==> NoRoom(old(blocks), BlockSize(n))
      ensures newAddr == 0 <==> NoneFor(old(blocks), n)
      ensures newAddr == 0 ==> blocks == old(blocks) && words == old(words)
      ensures newAddr != 0 ==> Renewed(old(blocks), blocks, old(free.nodes), free.nodes, BlockSize(n), newAddr, k)
      ensures newAddr != 0 ==> Exchanged(old(blocks), blocks, k, n, newAddr)
      ensures MissesLive(old(free.nodes), free.nodes, old(blocks), k)
      ensures newAddr != 0 ==> Copied(old(words), words, addr, newAddr, Min(old(blocks)[k].size - 1, n))
    {
      ghost var bs, m0, m := blocks, free.nodes, BlockSize(n);
      hide *;
      WhenValid();
      newAddr := Alloc(n);
      if newAddr == 0 { return; }
      ghost var cs, m1 := blocks, free.nodes;
      ghost var j, k' := ToMove(bs, cs, newAddr, k, n, start, end);
      MoveAndFree(addr, newAddr, n, k');
      ExchangedIs(bs, cs, blocks, j, k', k, n, newAddr);
      RenewedIs(bs, cs, blocks, m0, m1, free.nodes, j, m, newAddr, k, k', start, end);
    }

    /** The rest of realloc: copy to the new block, and free the old one. */
    method MoveAndFree(addr: nat, newAddr: nat, n: nat, ghost k: nat)
      requires Valid() && k < |blocks| && blocks[k].live && addr == blocks[k].a + HEADER
      requires Room(blocks[k], newAddr, n, end)
      modifies this, free
      ensures Valid() && blocks == FreeAt(old(blocks), k) && GivenBack(old(blocks), blocks, k)
      ensures MissesLive(old(free.nodes), free.nodes, old(blocks), k)
      ensures Copied(old(words), words, addr, newAddr, Min(old(blocks)[k].size - 1, n))
    {
      hide *;
      WhenValid();
      HeaderOf(free.nodes, blocks, k);
      RoomIs(blocks[k], newAddr, n, end);
      CopyWords(addr, newAddr, Min(free.nodes[addr - HEADER].prev - 1, n));
      StaysValid();
      Free(addr, k);
    }
  }
}
