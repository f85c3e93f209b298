/** The blocks that tile the heap, free and live, and what alloc and free do to them. */
module HeapBlocks {
  import opened AvlTrees
  import opened AvlSearch
  import opened FreeList

  datatype Block = Block(a: nat, size: nat, live: bool)

  /** Words of the block header (umds_sz) and of the smallest block, an AVL node (min_alloc_sz). */
  const HEADER: nat := 1
  const MIN_BLOCK: nat := 4

  function Words(bs: seq<Block>): nat { if bs == [] then 0 else bs[0].size + Words(bs[1..]) }

  function LiveWords(bs: seq<Block>): nat {
    if bs == [] then 0 else (if bs[0].live then bs[0].size else 0) + LiveWords(bs[1..])
  }

  function LiveCount(bs: seq<Block>): nat {
    if bs == [] then 0 else (if bs[0].live then 1 else 0) + LiveCount(bs[1..])
  }

  /** The free blocks, as entries of the free list in address order. */
  function FreeOf(bs: seq<Block>): seq<Entry> {
    if bs == [] then [] else (if bs[0].live then [] else [Entry(bs[0].a, bs[0].size)]) + FreeOf(bs[1..])
  }

  /** Blocks of at least the minimum size, each starting where the one before it ends. */
  predicate Contiguous(bs: seq<Block>, from: nat) {
    bs == [] || (bs[0].a == from && bs[0].size >= MIN_BLOCK && Contiguous(bs[1..], from + bs[0].size))
  }

  /** No two neighbouring blocks are both free. */
  predicate Coalesced(bs: seq<Block>) {
    forall i :: 0 <= i < |bs| - 1 ==> bs[i].live || bs[i + 1].live
  }

  /** The blocks tile [from, to) exactly and are coalesced. */
  predicate Tiles(bs: seq<Block>, from: nat, to: nat) { Contiguous(bs, from) && from + Words(bs) == to && Coalesced(bs) }

  // -------------------------------------------------------- concatenations

  lemma {:induction false} Concat(x: seq<Block>, y: seq<Block>, from: nat)
    ensures Words(x + y) == Words(x) + Words(y) && FreeOf(x + y) == FreeOf(x) + FreeOf(y)
    ensures LiveWords(x + y) == LiveWords(x) + LiveWords(y) && LiveCount(x + y) == LiveCount(x) + LiveCount(y)
    ensures Contiguous(x + y, from) <==> Contiguous(x, from) && Contiguous(y, from + Words(x))
    decreases x
  {
    if x == [] {
      assert x + y == y;
    } else {
      assert (x + y)[1..] == x[1..] + y && (x + y)[0] == x[0];
      Concat(x[1..], y, from + x[0].size);
    }
  }

  lemma One(b: Block, from: nat)
    ensures Words([b]) == b.size && LiveWords([b]) == (if b.live then b.size else 0) && LiveCount([b]) == (if b.live then 1 else 0)
    ensures FreeOf([b]) == if b.live then [] else [Entry(b.a, b.size)]
    ensures Contiguous([b], from) <==> b.a == from && b.size >= MIN_BLOCK
  {
    assert [b][1..] == [];
  }

  /** A list with one block singled out. */
  lemma Middle(p: seq<Block>, b: Block, q: seq<Block>, from: nat)
    ensures Words(p + [b] + q) == Words(p) + b.size + Words(q)
    ensures LiveWords(p + [b] + q) == LiveWords(p) + (if b.live then b.size else 0) + LiveWords(q)
    ensures LiveCount(p + [b] + q) == LiveCount(p) + (if b.live then 1 else 0) + LiveCount(q)
    ensures FreeOf(p + [b] + q) == FreeOf(p) + (if b.live then [] else [Entry(b.a, b.size)]) + FreeOf(q)
    ensures Contiguous(p + [b] + q, from) <==>
              Contiguous(p, from) && b.a == from + Words(p) && b.size >= MIN_BLOCK && Contiguous(q, from + Words(p) + b.size)
  {
    Concat(p + [b], q, from);
    Concat(p, [b], from);
    One(b, from + Words(p));
  }

  // ------------------------------------------------ facts about tiled heaps

  /** Free blocks lie inside the heap, in order, without overlap. */
  lemma {:induction false} FreeInside(bs: seq<Block>, from: nat)
    requires Contiguous(bs, from)
    ensures forall i {:trigger FreeOf(bs)[i]} :: 0 <= i < |FreeOf(bs)| ==>
              from <= FreeOf(bs)[i].a && FreeOf(bs)[i].d >= MIN_BLOCK && FreeOf(bs)[i].a + FreeOf(bs)[i].d <= from + Words(bs)
    ensures Spaced(FreeOf(bs))
    decreases bs
  {
    if bs != [] {
      FreeInside(bs[1..], from + bs[0].size);
      var s, r := FreeOf(bs), FreeOf(bs[1..]);
      var k := if bs[0].live then 0 else 1;
      assert forall i :: k <= i < |s| ==> s[i] == r[i - k];
    }
  }

  /** Each entry ends at or before the start of the next. */
  ghost predicate Spaced(s: seq<Entry>) {
    forall i, j :: 0 <= i < j < |s| ==> s[i].a + s[i].d <= s[j].a
  }

  lemma SpacedSorted(bs: seq<Block>, from: nat)
    requires Contiguous(bs, from)
    ensures Sorted(true, FreeOf(bs))
  {
    FreeInside(bs, from);
    var s := FreeOf(bs);
    forall i, j | 0 <= i < j < |s| ensures s[i].a < s[j].a {
      assert s[i].d >= MIN_BLOCK;
    }
  }

  /** Every free entry is a block. */
  lemma {:induction false} BlockOfEntry(bs: seq<Block>, e: Entry) returns (k: nat)
    requires e in FreeOf(bs)
    ensures k < |bs| && bs[k] == Block(e.a, e.d, false)
    decreases bs
  {
    if !bs[0].live && e == Entry(bs[0].a, bs[0].size) {
      k := 0;
    } else {
      k := BlockOfEntry(bs[1..], e);
      k := k + 1;
    }
  }

  lemma {:induction false} EntryOfBlock(bs: seq<Block>, k: nat)
    requires k < |bs| && !bs[k].live
    ensures Entry(bs[k].a, bs[k].size) in FreeOf(bs)
    decreases bs
  {
    if k > 0 {
      EntryOfBlock(bs[1..], k - 1);
    }
  }

  /** A block starts where those before it end. */
  lemma BlockStart(bs: seq<Block>, k: nat, from: nat)
    requires Contiguous(bs, from) && k < |bs|
    ensures bs[k].a == from + Words(bs[..k]) && bs[k].size >= MIN_BLOCK
    ensures bs == bs[..k] + [bs[k]] + bs[k + 1..] && Contiguous(bs[..k], from) && Contiguous(bs[k + 1..], bs[k].a + bs[k].size)
    ensures Words(bs) == Words(bs[..k]) + bs[k].size + Words(bs[k + 1..])
  {
    assert bs == bs[..k] + [bs[k]] + bs[k + 1..];
    Middle(bs[..k], bs[k], bs[k + 1..], from);
  }

  /** Blocks do not overlap. */
  lemma NoOverlap(bs: seq<Block>, from: nat, i: nat, j: nat)
    requires Contiguous(bs, from) && i < j < |bs|
    ensures bs[i].a + bs[i].size <= bs[j].a
  {
    BlockStart(bs, j, from);
    BlockStart(bs[..j], i, from);
  }

  // ----------------------------------------------------- in plain numbers

  /** No free block is as large as n words and a header need, which is at least four words. */
  predicate NoneFor(bs: seq<Block>, n: nat) {
    forall i :: 0 <= i < |bs| && !bs[i].live ==> bs[i].size < 4 || bs[i].size < n + 1
  }

  /** Free block k has become a live one for n words, whose memory is at addr; four words or more that are left stay free. */
  ghost predicate TakenOut(bs: seq<Block>, bs': seq<Block>, k: nat, n: nat, addr: nat) {
    && k < |bs| && !bs[k].live && k < |bs'| && addr == bs[k].a + 1 && bs'[..k] == bs[..k]
    && var need, b := if n < 3 then 4 else n + 1, bs[k];
       && need <= b.size
       && (b.size < need + 4 ==> bs'[k] == Block(b.a, b.size, true) && bs'[k + 1..] == bs[k + 1..])
       && (b.size >= need + 4 ==> bs'[k] == Block(b.a, need, true) && bs'[k + 1..] == [Block(b.a + need, b.size - need, false)] + bs[k + 1..])
  }

  /** Live block k has become free, in one block with the free ones before and after it. */
  ghost predicate GivenBack(bs: seq<Block>, bs': seq<Block>, k: nat) {
    && k < |bs| && bs[k].live
    && var i := if k > 0 && !bs[k - 1].live then k - 1 else k;
       var j := if k + 1 < |bs| && !bs[k + 1].live then k + 1 else k;
       && bs[i].a <= bs[j].a + bs[j].size
       && bs' == bs[..i] + [Block(bs[i].a, bs[j].a + bs[j].size - bs[i].a, false)] + bs[j + 1..]
  }

  // ----------------------------------------------------------------- alloc

  /** Block size for a request of n words: one word more, wrapping at 2^64, and at least the minimum. */
  function BlockSize(n: nat): (m: nat)
    ensures m >= MIN_BLOCK
  {
    var m := (n + HEADER) % 0x1_0000_0000_0000_0000;
    if m < MIN_BLOCK then MIN_BLOCK else m
  }

  /** A block is one word larger than the request it is made for, but has at least four words, unless the request is the largest word there is. */
  lemma RequestFits(n: nat)
    requires n < 0x1_0000_0000_0000_0000
    ensures BlockSize(n) >= n + 1 <==> n < 0xffff_ffff_ffff_ffff
    ensures n < 0xffff_ffff_ffff_ffff ==> BlockSize(n) == if n < 3 then 4 else n + 1
  {
    if n < 0xffff_ffff_ffff_ffff {
      assert (n + HEADER) % 0x1_0000_0000_0000_0000 == n + HEADER;
    }
  }

  /** That request is met with a block of the least size. */
  lemma LargestRequest()
    ensures BlockSize(0xffff_ffff_ffff_ffff) == MIN_BLOCK < 0xffff_ffff_ffff_ffff + HEADER
  {
  }

  /** Take m words from the front of block k, or all of it when what is left would be too small. */
  function AllocAt(bs: seq<Block>, k: nat, m: nat): seq<Block>
    requires k < |bs|
  {
    AllocIn(bs[..k], bs[k], bs[k + 1..], m)
  }

  function AllocIn(p: seq<Block>, b: Block, q: seq<Block>, m: nat): seq<Block> {
    if b.size >= m + MIN_BLOCK
    then (p + [Block(b.a, m, true)]) + [Block(b.a + m, b.size - m, false)] + q
    else p + [Block(b.a, b.size, true)] + q
  }

  function Taken(b: Block, m: nat): nat { if b.size >= m + MIN_BLOCK then m else b.size }

  /** Coalesced, around one block. */
  lemma CoalescedMiddle(p: seq<Block>, b: Block, q: seq<Block>)
    ensures Coalesced(p + [b] + q) <==>
              && Coalesced(p) && Coalesced(q)
              && (p != [] ==> p[|p| - 1].live || b.live) && (q != [] ==> b.live || q[0].live)
  {
    var s := p + [b] + q;
    assert forall i :: 0 <= i < |p| ==> s[i] == p[i];
    assert forall i :: 0 <= i < |q| ==> s[|p| + 1 + i] == q[i];
    assert s[|p|] == b;
    if Coalesced(p) && Coalesced(q) && (p != [] ==> p[|p| - 1].live || b.live) && (q != [] ==> b.live || q[0].live) {
      forall i | 0 <= i < |s| - 1 ensures s[i].live || s[i + 1].live {
        if i < |p| - 1 {
          assert s[i] == p[i] && s[i + 1] == p[i + 1];
        } else if i > |p| {
          assert s[i] == q[i - |p| - 1] && s[i + 1] == q[i - |p|];
        }
      }
    }
    if Coalesced(s) {
      assert forall i :: 0 <= i < |p| - 1 ==> s[i].live || s[i + 1].live;
      forall i | 0 <= i < |q| - 1 ensures q[i].live || q[i + 1].live {
        assert s[|p| + 1 + i] == q[i] && s[|p| + 1 + (i + 1)] == q[i + 1];
      }
    }
  }

  lemma AllocWhole(p: seq<Block>, b: Block, q: seq<Block>, from: nat, to: nat)
    requires Tiles(p + [b] + q, from, to) && !b.live
    ensures var bs := p + [Block(b.a, b.size, true)] + q;
            && Tiles(bs, from, to) && LiveWords(bs) == LiveWords(p + [b] + q) + b.size && LiveCount(bs) == LiveCount(p + [b] + q) + 1
            && FreeOf(bs) == FreeOf(p) + FreeOf(q)
  {
    var c := Block(b.a, b.size, true);
    Middle(p, b, q, from);
    Middle(p, c, q, from);
    CoalescedMiddle(p, b, q);
    CoalescedMiddle(p, c, q);
    hide Words, LiveWords, LiveCount, FreeOf, Contiguous, Coalesced;
    assert FreeOf(p) + [] + FreeOf(q) == FreeOf(p) + FreeOf(q);
  }

  lemma AllocFront(p: seq<Block>, b: Block, q: seq<Block>, m: nat, from: nat, to: nat)
    requires Tiles(p + [b] + q, from, to) && !b.live && b.size >= m + MIN_BLOCK && m >= MIN_BLOCK
    ensures var bs := (p + [Block(b.a, m, true)]) + [Block(b.a + m, b.size - m, false)] + q;
            && Tiles(bs, from, to) && LiveWords(bs) == LiveWords(p + [b] + q) + m && LiveCount(bs) == LiveCount(p + [b] + q) + 1
            && FreeOf(bs) == FreeOf(p) + [Entry(b.a + m, b.size - m)] + FreeOf(q)
  {
    var x, y := Block(b.a, m, true), Block(b.a + m, b.size - m, false);
    Middle(p, b, q, from);
    Middle(p + [x], y, q, from);
    Concat(p, [x], from);
    One(x, from + Words(p));
    CoalescedMiddle(p, b, q);
    CoalescedMiddle(p + [x], y, q);
    CoalescedMiddle(p, x, []);
    assert p + [x] + [] == p + [x];
    assert FreeOf(p) + [] == FreeOf(p);
    hide Words, LiveWords, LiveCount, FreeOf, Contiguous, Coalesced;
  }

  lemma AllocTiles(p: seq<Block>, b: Block, q: seq<Block>, m: nat, from: nat, to: nat)
    requires Tiles(p + [b] + q, from, to) && !b.live && MIN_BLOCK <= m <= b.size
    ensures Tiles(AllocIn(p, b, q, m), from, to)
    ensures LiveWords(AllocIn(p, b, q, m)) == LiveWords(p + [b] + q) + Taken(b, m)
    ensures LiveCount(AllocIn(p, b, q, m)) == LiveCount(p + [b] + q) + 1
    ensures FreeOf(p + [b] + q) == FreeOf(p) + [Entry(b.a, b.size)] + FreeOf(q)
    ensures b.size >= m + MIN_BLOCK ==> FreeOf(AllocIn(p, b, q, m)) == FreeOf(p) + [Entry(b.a + m, b.size - m)] + FreeOf(q)
    ensures b.size < m + MIN_BLOCK ==> FreeOf(AllocIn(p, b, q, m)) == FreeOf(p) + FreeOf(q)
  {
    Middle(p, b, q, from);
    hide Words, LiveWords, LiveCount, FreeOf, Contiguous, Coalesced, Tiles;
    if b.size >= m + MIN_BLOCK {
      AllocFront(p, b, q, m, from, to);
    } else {
      AllocWhole(p, b, q, from, to);
    }
  }

  // ------------------------------------------------------------------ free

  predicate FreeLast(p: seq<Block>) { p != [] && !p[|p| - 1].live }

  predicate FreeFirst(q: seq<Block>) { q != [] && !q[0].live }

  /** The list before a block, without its last block when that is free; and likewise after it. */
  function Front(p: seq<Block>): seq<Block> { if FreeLast(p) then p[..|p| - 1] else p }

  function Rest(q: seq<Block>): seq<Block> { if FreeFirst(q) then q[1..] else q }

  function LeftSize(p: seq<Block>): nat { if FreeLast(p) then p[|p| - 1].size else 0 }

  function RightSize(q: seq<Block>): nat { if FreeFirst(q) then q[0].size else 0 }

  /** The free block that freeing b between p and q leaves. */
  function Joint(p: seq<Block>, b: Block, q: seq<Block>): Block {
    Block(if FreeLast(p) then p[|p| - 1].a else b.a, LeftSize(p) + b.size + RightSize(q), false)
  }

  /** Turn the live block between p and q into a free one, joined with the free neighbours it has. */
  function FreeIn(p: seq<Block>, b: Block, q: seq<Block>): seq<Block> { Front(p) + [Joint(p, b, q)] + Rest(q) }

  function FreeAt(bs: seq<Block>, k: nat): seq<Block>
    requires k < |bs|
  {
    FreeIn(bs[..k], bs[k], bs[k + 1..])
  }

  /** What stands before a block splits into the free neighbour and the rest. */
  lemma FrontSplit(p: seq<Block>, from: nat)
    requires Contiguous(p, from) && Coalesced(p)
    ensures Contiguous(Front(p), from) && Words(p) == Words(Front(p)) + LeftSize(p) && Coalesced(Front(p)) && !FreeLast(Front(p))
    ensures LiveWords(p) == LiveWords(Front(p)) && LiveCount(p) == LiveCount(Front(p))
    ensures FreeLast(p) ==> p[|p| - 1].a + LeftSize(p) == from + Words(p) && p[|p| - 1].a == from + Words(Front(p)) && LeftSize(p) >= MIN_BLOCK
    ensures FreeLast(p) ==> FreeOf(p) == FreeOf(Front(p)) + [Entry(p[|p| - 1].a, LeftSize(p))] + []
  {
    if FreeLast(p) {
      var f, b := Front(p), p[|p| - 1];
      assert p == f + [b] && p == f + [b] + [];
      Middle(f, b, [], from);
      CoalescedMiddle(f, b, []);
      hide Words, LiveWords, LiveCount, FreeOf, Contiguous, Coalesced;
      Nothing();
    }
  }

  lemma Nothing()
    ensures Words([]) == 0 && LiveWords([]) == 0 && LiveCount([]) == 0 && FreeOf([]) == []
  {
  }

  lemma RestSplit(q: seq<Block>, from: nat)
    requires Contiguous(q, from) && Coalesced(q)
    ensures Contiguous(Rest(q), from + RightSize(q)) && Words(q) == RightSize(q) + Words(Rest(q)) && Coalesced(Rest(q)) && !FreeFirst(Rest(q))
    ensures LiveWords(q) == LiveWords(Rest(q)) && LiveCount(q) == LiveCount(Rest(q))
    ensures FreeFirst(q) ==> q[0].a == from && RightSize(q) >= MIN_BLOCK
    ensures FreeFirst(q) ==> FreeOf(q) == [] + [Entry(from, RightSize(q))] + FreeOf(Rest(q))
  {
    if FreeFirst(q) {
      var r, b := Rest(q), q[0];
      assert q == [] + [b] + r;
      Middle([], b, r, from);
      CoalescedMiddle([], b, r);
      hide Words, LiveWords, LiveCount, FreeOf, Contiguous, Coalesced;
      Nothing();
    }
  }

  lemma FreeTiles(p: seq<Block>, b: Block, q: seq<Block>, from: nat, to: nat)
    requires Tiles(p + [b] + q, from, to) && b.live
    ensures Tiles(FreeIn(p, b, q), from, to)
    ensures LiveWords(FreeIn(p, b, q)) + b.size == LiveWords(p + [b] + q) && LiveCount(FreeIn(p, b, q)) + 1 == LiveCount(p + [b] + q)
    ensures FreeOf(p + [b] + q) == FreeOf(p) + FreeOf(q)
    ensures FreeOf(FreeIn(p, b, q)) == FreeOf(Front(p)) + [Entry(Joint(p, b, q).a, Joint(p, b, q).size)] + FreeOf(Rest(q))
  {
    hide Words, LiveWords, LiveCount, FreeOf, Contiguous, Coalesced, Front, Rest;
    Middle(p, b, q, from);
    CoalescedMiddle(p, b, q);
    FrontSplit(p, from);
    RestSplit(q, from + Words(p) + b.size);
    Middle(Front(p), Joint(p, b, q), Rest(q), from);
    CoalescedMiddle(Front(p), Joint(p, b, q), Rest(q));
    assert FreeOf(p) + [] + FreeOf(q) == FreeOf(p) + FreeOf(q);
  }

  /** Freeing what was just allocated between p and q. */
  lemma FreeTaken(p: seq<Block>, b: Block, q: seq<Block>, m: nat)
    requires !FreeLast(p) && !FreeFirst(q) && !b.live && m <= b.size
    ensures FreeIn(p, Block(b.a, b.size, true), q) == p + [b] + q
    ensures FreeIn(p, Block(b.a, m, true), [Block(b.a + m, b.size - m, false)] + q) == p + [b] + q
  {
    var q' := [Block(b.a + m, b.size - m, false)] + q;
    assert q'[1..] == q && q'[0] == Block(b.a + m, b.size - m, false);
  }

  lemma AllocParts(p: seq<Block>, b: Block, q: seq<Block>, m: nat)
    requires MIN_BLOCK <= m <= b.size
    ensures var cs := AllocIn(p, b, q, m);
            && |p| < |cs| && cs[..|p|] == p && cs[|p|] == Block(b.a, Taken(b, m), true)
            && cs[|p| + 1..] == (if b.size >= m + MIN_BLOCK then [Block(b.a + m, b.size - m, false)] else []) + q
  {
  }

  /** What alloc took, free gives back: the same blocks as before. */
  lemma AllocThenFree(bs: seq<Block>, k: nat, m: nat, from: nat, to: nat)
    requires Tiles(bs, from, to) && k < |bs| && !bs[k].live && MIN_BLOCK <= m <= bs[k].size
    ensures k < |AllocAt(bs, k, m)| && AllocAt(bs, k, m)[k] == Block(bs[k].a, Taken(bs[k], m), true)
    ensures FreeAt(AllocAt(bs, k, m), k) == bs
  {
    var p, b, q := bs[..k], bs[k], bs[k + 1..];
    assert bs == p + [b] + q;
    CoalescedMiddle(p, b, q);
    hide FreeIn, AllocIn, Coalesced, Contiguous, Words;
    FreeTaken(p, b, q, Taken(b, m));
    AllocParts(p, b, q, m);
    assert [] + q == q;
  }

  // ------------------------------------------------------------ whole runs

  function FreeWords(bs: seq<Block>): nat {
    if bs == [] then 0 else (if bs[0].live then 0 else bs[0].size) + FreeWords(bs[1..])
  }

  lemma {:induction false} WordsSplit(bs: seq<Block>)
    ensures LiveWords(bs) + FreeWords(bs) == Words(bs)
    decreases bs
  {
    if bs != [] { WordsSplit(bs[1..]); }
  }

  /** One call: a block of at least m words is taken from a free block, or a live block is freed. */
  ghost predicate Step(bs: seq<Block>, bs': seq<Block>) {
    || (exists k, m {:trigger AllocAt(bs, k, m)} ::
          0 <= k < |bs| && !bs[k].live && MIN_BLOCK <= m <= bs[k].size && bs' == AllocAt(bs, k, m))
    || (exists k {:trigger FreeAt(bs, k)} :: 0 <= k < |bs| && bs[k].live && bs' == FreeAt(bs, k))
  }

  ghost predicate Run(run: seq<seq<Block>>) {
    |run| > 0 && forall i :: 0 <= i < |run| - 1 ==> Step(run[i], run[i + 1])
  }

  lemma StepTiles(bs: seq<Block>, bs': seq<Block>, from: nat, to: nat)
    requires Tiles(bs, from, to) && Step(bs, bs')
    ensures Tiles(bs', from, to)
  {
    hide Tiles, AllocIn, FreeIn, LiveWords, LiveCount, FreeOf;
    if k, m :| 0 <= k < |bs| && !bs[k].live && MIN_BLOCK <= m <= bs[k].size && bs' == AllocAt(bs, k, m) {
      assert bs == bs[..k] + [bs[k]] + bs[k + 1..];
      AllocTiles(bs[..k], bs[k], bs[k + 1..], m, from, to);
    } else {
      var k :| 0 <= k < |bs| && bs[k].live && bs' == FreeAt(bs, k);
      assert bs == bs[..k] + [bs[k]] + bs[k + 1..];
      FreeTiles(bs[..k], bs[k], bs[k + 1..], from, to);
    }
  }

  /**
   Over every run of alloc and free: the blocks tile the heap, no two free ones touch,
   and live words plus free words make up the whole heap.
   */
  lemma {:induction false} RunTiles(run: seq<seq<Block>>, from: nat, to: nat)
    requires Run(run) && Tiles(run[0], from, to)
    ensures forall i :: 0 <= i < |run| ==> Tiles(run[i], from, to) && LiveWords(run[i]) + FreeWords(run[i]) == to - from
    decreases |run|
  {
    hide Tiles, LiveWords, FreeWords, Step;
    WordsTiled(run[0], from, to);
    if |run| > 1 {
      var rest := run[1..];
      assert Step(run[0], run[1]);
      StepTiles(run[0], run[1], from, to);
      assert forall i :: 0 <= i < |rest| - 1 ==> rest[i] == run[i + 1] && Step(run[i + 1], run[i + 2]);
      RunTiles(rest, from, to);
      forall i | 0 <= i < |run| ensures Tiles(run[i], from, to) && LiveWords(run[i]) + FreeWords(run[i]) == to - from {
        if i > 0 { assert run[i] == rest[i - 1]; }
      }
    }
  }

  lemma WordsTiled(bs: seq<Block>, from: nat, to: nat)
    requires Tiles(bs, from, to)
    ensures LiveWords(bs) + FreeWords(bs) == to - from
  {
    WordsSplit(bs);
  }

  // --------------------------------------------------- and in plain numbers

  lemma NoneForIs(bs: seq<Block>, n: nat)
    requires n < 0xffff_ffff_ffff_ffff
    ensures NoneFor(bs, n) <==> forall i :: 0 <= i < |bs| && !bs[i].live ==> bs[i].size < BlockSize(n)
  {
    assert (n + HEADER) % 0x1_0000_0000_0000_0000 == n + 1;
  }

  lemma TakenOutIs(bs: seq<Block>, k: nat, n: nat)
    requires k < |bs| && !bs[k].live && bs[k].size >= BlockSize(n) && n < 0xffff_ffff_ffff_ffff
    ensures TakenOut(bs, AllocAt(bs, k, BlockSize(n)), k, n, bs[k].a + HEADER)
  {
    assert (n + HEADER) % 0x1_0000_0000_0000_0000 == n + 1;
    assert BlockSize(n) == if n < 3 then 4 else n + 1;
    AllocParts(bs[..k], bs[k], bs[k + 1..], BlockSize(n));
    hide BlockSize, AllocIn;
  }

  lemma GivenBackIs(bs: seq<Block>, k: nat, from: nat, to: nat)
    requires Tiles(bs, from, to) && k < |bs| && bs[k].live
    ensures GivenBack(bs, FreeAt(bs, k), k)
  {
    var p, b, q := bs[..k], bs[k], bs[k + 1..];
    var i := if FreeLast(p) then k - 1 else k;
    var j := if FreeFirst(q) then k + 1 else k;
    NextTo(bs, from, k);
    if k > 0 { NextTo(bs, from, k - 1); }
    hide Contiguous, Words, Coalesced;
    assert Front(p) == bs[..i] && Rest(q) == bs[j + 1..];
    assert FreeLast(p) ==> p[|p| - 1] == bs[k - 1];
    assert FreeFirst(q) ==> q[0] == bs[k + 1];
  }

  lemma NextTo(bs: seq<Block>, from: nat, k: nat)
    requires Contiguous(bs, from) && k < |bs|
    ensures k + 1 < |bs| ==> bs[k + 1].a == bs[k].a + bs[k].size
  {
    BlockStart(bs, k, from);
    if k + 1 < |bs| {
      BlockStart(bs, k + 1, from);
      assert bs[..k + 1] == bs[..k] + [bs[k]];
      Concat(bs[..k], [bs[k]], from);
      One(bs[k], 0);
    }
  }
}
