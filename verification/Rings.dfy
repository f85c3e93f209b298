/** The ring buffer of datastructures.c: what its slots, head and tail stand for. */
module Rings {
  import opened Words

  /** item_sz words; in the concurrent queue the first one is the tag. */
  type Item = seq<Word>

  datatype Ring = Ring(slots: seq<Item>, head: nat, tail: nat)

  predicate ValidRing(r: Ring) { |r.slots| >= 2 && r.head < |r.slots| && r.tail < |r.slots| }

  predicate IsEmpty(r: Ring) { r.head == r.tail }

  predicate IsFull(r: Ring)
    requires ValidRing(r)
  {
    (r.tail + (|r.slots| - 1)) % |r.slots| == r.head
  }

  function Count(r: Ring): nat
    requires ValidRing(r)
  {
    if r.head >= r.tail then r.head - r.tail else r.head + |r.slots| - r.tail
  }

  function Index(r: Ring, i: nat): nat {
    if r.tail + i < |r.slots| then r.tail + i else r.tail + i - |r.slots|
  }

  /** The stored items, oldest first. */
  function Contents(r: Ring): seq<Item>
    requires ValidRing(r)
  {
    seq(Count(r), i requires 0 <= i < Count(r) => r.slots[Index(r, i)])
  }

  function Advance(r: Ring, at: nat): nat { if at + 1 >= |r.slots| then 0 else at + 1 }

  function Put(r: Ring, item: Item): Ring
    requires ValidRing(r)
  {
    Ring(r.slots[r.head := item], Advance(r, r.head), r.tail)
  }

  function Drop(r: Ring): Ring { r.(tail := Advance(r, r.tail)) }

  /** One slot always stays free. */
  lemma FullIsCount(r: Ring)
    requires ValidRing(r)
    ensures IsFull(r) <==> Count(r) == |r.slots| - 1
    ensures IsEmpty(r) <==> Count(r) == 0
    ensures Count(r) < |r.slots|
  {
    var n := |r.slots|;
    if r.tail >= 1 {
      assert (r.tail + (n - 1)) % n == (r.tail - 1 + n) % n == r.tail - 1 by { WrapOnce(r.tail - 1, n); }
    } else {
      assert (r.tail + (n - 1)) % n == n - 1;
    }
  }

  lemma WrapOnce(x: nat, n: nat)
    requires x < n
    ensures (x + n) % n == x
  {
    var q, m := (x + n) / n, (x + n) % n;
    assert x + n == q * n + m;
    Multiples(q - 1, n);
    assert (q - 1) * n == x - m;
  }

  lemma Multiples(k: int, n: nat)
    ensures k >= 1 ==> k * n >= n
    ensures k <= -1 ==> k * n <= 0 - n
  {
    if k >= 1 { assert k * n == n + (k - 1) * n; }
    if k <= -1 { assert k * n == (k + 1) * n - n; }
  }

  /** Adding to a ring that is not full appends. */
  lemma PutAppends(r: Ring, item: Item)
    requires ValidRing(r) && !IsFull(r)
    ensures ValidRing(Put(r, item)) && Contents(Put(r, item)) == Contents(r) + [item]
  {
    FullIsCount(r);
    var r' := Put(r, item);
    assert Count(r') == Count(r) + 1;
    forall i | 0 <= i < Count(r') ensures Contents(r')[i] == (Contents(r) + [item])[i] {
      if i < Count(r) { assert Index(r, i) != r.head; }
    }
  }

  /** Dropping from a ring that is not empty removes the oldest item. */
  lemma DropRemoves(r: Ring)
    requires ValidRing(r) && !IsEmpty(r)
    ensures ValidRing(Drop(r)) && Contents(r) != [] && Contents(Drop(r)) == Contents(r)[1..] && Contents(r)[0] == r.slots[r.tail]
  {
    FullIsCount(r);
    var r' := Drop(r);
    assert Count(r') == Count(r) - 1;
    forall i | 0 <= i < Count(r') ensures Contents(r')[i] == Contents(r)[1..][i] {
      assert Index(r', i) == Index(r, i + 1);
    }
  }
}
