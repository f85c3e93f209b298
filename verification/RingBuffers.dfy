/** ring_buf_add, ring_buf_pop, concurrent_fifo_add and concurrent_fifo_pop, in place on the buffers. */
module RingBuffers {
  import opened Words
  import opened Rings
  import CF = ConcurrentFifo

  /** Slots of an array of words. */
  ghost function Slot(words: seq<Word>, k: nat, n: nat): Item
    requires k * n <= (k + 1) * n <= |words|
  {
    words[k * n..(k + 1) * n]
  }

  lemma SlotRange(k: nat, n: nat, size: nat)
    requires k < size
    ensures 0 <= k * n <= (k + 1) * n <= size * n && (k + 1) * n == k * n + n
  {
    assert (size - k - 1) * n >= 0;
    assert size * n == (k + 1) * n + (size - k - 1) * n;
  }

  lemma SlotsApart(j: nat, k: nat, n: nat)
    requires j < k
    ensures (j + 1) * n <= k * n
  {
    assert k * n == (j + 1) * n + (k - j - 1) * n;
    assert (k - j - 1) * n >= 0;
  }

  ghost function Slots(words: seq<Word>, n: nat, size: nat): (s: seq<Item>)
    requires |words| == size * n
    ensures |s| == size
  {
    seq(size, k requires 0 <= k < size => SlotRange(k, n, size); Slot(words, k, n))
  }

  /** The first i words from at have been overwritten with those of the item. */
  ghost predicate Overwritten(w: seq<Word>, w': seq<Word>, at: nat, item: Item, i: nat) {
    && |w'| == |w| && i <= |item| && at + i <= |w|
    && (forall x :: at <= x < at + i ==> w'[x] == item[x - at])
    && (forall x :: 0 <= x < |w| && !(at <= x < at + i) ==> w'[x] == w[x])
  }

  lemma OverwrittenSlots(w: seq<Word>, w': seq<Word>, h: nat, n: nat, size: nat, item: Item)
    requires |w| == size * n && h < size && |item| == n && Overwritten(w, w', h * n, item, n)
    ensures |w'| == |w| && Slots(w', n, size) == Slots(w, n, size)[h := item]
  {
    SlotRange(h, n, size);
    forall k | 0 <= k < size ensures Slots(w', n, size)[k] == Slots(w, n, size)[h := item][k] {
      SlotRange(k, n, size);
      if k < h { SlotsApart(k, h, n); }
      if h < k { SlotsApart(h, k, n); }
      assert Slot(w', k, n) == if k == h then item else Slot(w, k, n);
    }
  }

  class RingBuffer {
    const size: nat
    const itemSize: nat
    const buf: array<Word>
    var head: nat
    var tail: nat

    /** While its oldest item is being removed, the tail may be one past the end. */
    ghost predicate Sized()
      reads this
    {
      buf.Length == size * itemSize && itemSize > 0 && size >= 2 && head < size && tail <= size
    }

    ghost predicate Shaped()
      reads this
    {
      Sized() && tail < size
    }

    ghost function Value(): Ring
      requires Sized()
      reads this, buf
    {
      Ring(Slots(buf[..], itemSize, size), head, tail)
    }

    constructor (size: nat, itemSize: nat)
      requires size >= 2 && itemSize > 0
      ensures Shaped() && fresh(buf) && this.size == size && this.itemSize == itemSize
      ensures ValidRing(Value()) && Contents(Value()) == []
    {
      this.size, this.itemSize := size, itemSize;
      buf := new Word[size * itemSize](_ => 0);
      head, tail := 0, 0;
    }

    method IsEmpty() returns (b: bool)
      requires Shaped()
      ensures b == Rings.IsEmpty(Value())
    {
      b := head == tail;
    }

    method IsFull() returns (b: bool)
      requires Shaped()
      ensures b == Rings.IsFull(Value())
    {
      b := (tail + (size - 1)) % size == head;
    }

    /** The first word at the tail: in the concurrent queue, the tag of the oldest item. */
    method Tag() returns (w: Word)
      requires Shaped()
      ensures Value().slots[tail] != [] && w == Value().slots[tail][0]
    {
      SlotRange(tail, itemSize, size);
      w := buf[itemSize * tail];
    }

    /** ring_buf_add; adding to a full ring is the caller's mistake, and empties it. */
    method Add(item: Item)
      requires Shaped() && |item| == itemSize
      modifies buf, this`head
      ensures Shaped() && Value() == Put(old(Value()), item)
    {
      ghost var w, r := buf[..], Value();
      SlotRange(head, itemSize, size);
      CopyIn(itemSize * head, item);
      OverwrittenSlots(w, buf[..], head, itemSize, size, item);
      hide Slots;
      head := head + 1;
      if head >= size { head := 0; }
    }

    /** The loop of ring_buf_add. */
    method CopyIn(at: nat, item: Item)
      requires at + |item| <= buf.Length
      modifies buf
      ensures Overwritten(old(buf[..]), buf[..], at, item, |item|)
    {
      for i := 0 to |item|
        invariant Overwritten(old(buf[..]), buf[..], at, item, i)
      {
        buf[at + i] := item[i];
      }
    }

    /** ring_buf_pop: the oldest item, by words; on an empty ring, whatever stands at the tail. */
    method Pop() returns (item: Item)
      requires Shaped()
      modifies this`tail
      ensures Shaped() && Value() == Drop(old(Value())) && item == old(Value()).slots[old(tail)]
    {
      SlotRange(tail, itemSize, size);
      item := [];
      for i := 0 to itemSize
        invariant item == buf[itemSize * tail..itemSize * tail + i]
      {
        item := item + [buf[itemSize * tail + i]];
      }
      tail := tail + 1;
      if tail >= size { tail := 0; }
    }
  }

  class Fifo {
    const a: RingBuffer
    const b: RingBuffer
    var aLck: bool
    var bLck: bool
    var tag: Word
    var currTag: Word

    ghost predicate Shaped()
      reads this, a, b
    {
      && a.Sized() && b.Sized() && a != b && a.buf != b.buf && a.itemSize == b.itemSize
      && (!aLck ==> a.Shaped()) && (!bLck ==> b.Shaped())
    }

    ghost function Value(): CF.Queue
      requires Shaped()
      reads this, a, a.buf, b, b.buf
    {
      CF.Queue(a.Value(), b.Value(), aLck, bLck, tag, currTag)
    }

    constructor (primary: nat, secondary: nat, itemSize: nat)
      requires primary >= 2 && secondary >= 2
      ensures Shaped() && fresh(a) && fresh(b) && fresh(a.buf) && fresh(b.buf) && a.itemSize == itemSize + 1
      ensures !aLck && !bLck && tag == 0 && currTag == 0
      ensures Contents(a.Value()) == [] && Contents(b.Value()) == []
    {
      var ra := new RingBuffer(primary, itemSize + 1);
      var rb := new RingBuffer(secondary, itemSize + 1);
      a, b := ra, rb;
      aLck, bLck, tag, currTag := false, false, 0, 0;
    }

    /** concurrent_fifo_add, as the handler runs it: it leaves the queue as the model's producer does. */
    method Add(item: seq<Word>, ghost s: CF.State) returns (failed: bool)
      requires Shaped() && |item| + 1 == a.itemSize && s.q == Value()
      modifies this`tag, a`head, a.buf, b`head, b.buf
      ensures Shaped() && Value() == CF.Add(s, item).q
      ensures failed <==> CF.Add(s, item).added == s.added
      ensures failed <==> !old(CF.Room(a.Value(), aLck)) && !old(CF.Room(b.Value(), bLck))
    {
      CF.AddFails(s, item);
      var tagged := [tag] + item;
      tag := Words.Add(tag, 1);
      if !aLck {
        var full := a.IsFull();
        if !full {
          a.Add(tagged);
          return false;
        }
      }
      if !bLck {
        var full := b.IsFull();
        if !full {
          b.Add(tagged);
          return false;
        }
      }
      tag := Sub(tag, 1);
      return true;
    }

    /** concurrent_fifo_pop with no handler in between; PopAlone says that this is what its steps do. */
    method Pop() returns (failed: bool, item: seq<Word>)
      requires Shaped() && !aLck && !bLck
      modifies this`aLck, this`bLck, this`currTag, a`tail, b`tail
      ensures Shaped() && !aLck && !bLck && Value() == CF.Popped(old(Value()))
      ensures failed <==> CF.Ready(old(Value())).None?
      ensures !failed ==> item == CF.Oldest(old(Value()), CF.Ready(old(Value())).value)[1..]
    {
      ghost var q := Value();
      var tagged := [];
      var ofA := a.Tag();
      var ofB := b.Tag();
      var noneA := a.IsEmpty();
      var noneB := b.IsEmpty();
      if !noneA && currTag == ofA {
        aLck := true;
        tagged := a.Pop();
        aLck := false;
      } else if !noneB && currTag == ofB {
        bLck := true;
        tagged := b.Pop();
        bLck := false;
      } else {
        return true, [];
      }
      item := [];
      for i := 1 to |tagged|
        invariant item == tagged[1..i]
      {
        item := item + [tagged[i]];
      }
      currTag := Words.Add(currTag, 1);
      return false, item;
    }
  }
}
