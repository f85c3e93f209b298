/**
 The packed refcount word of an object (alloc.c): the low 32 bits hold the real
 reference count, bit 63 the visited mark, and bits 32 to 62 the temporary count
 that trial deletion builds.  Masks and shifts are written as arithmetic on
 64-bit words; the setters keep the carry of an over-long temporary count into
 the visited bit, as the bitwise OR in the source does.

 A Cell is the word taken apart.  The lemmas show that every packed operation of
 the collector is the same operation on the cell, borrow and carry included, so
 that the rest of the proof can work on cells.
 */
module Refcount {
  const W31: nat := 0x8000_0000
  const W32: nat := 0x1_0000_0000
  const W63: nat := 0x8000_0000_0000_0000
  const W64: nat := 0x1_0000_0000_0000_0000

  type Word = w: nat | w < 0x1_0000_0000_0000_0000

  function GetRc(w: Word): nat { w % W32 }

  function GetTmpRc(w: Word): nat { (w % W63) / W32 }

  predicate Visited(w: Word) { w / W63 != 0 }

  function SetTmpRc(w: Word, val: Word): Word {
    var mark := if Visited(w) || (val / W31) % 2 == 1 then W63 else 0;
    w % W32 + (val % W31) * W32 + mark
  }

  function SetVisited(w: Word, val: bool): Word {
    w % W63 + if val then W63 else 0
  }

  /** The C statement --o->refcount on the whole word. */
  function Decrement(w: Word): Word {
    if w == 0 then W64 - 1 else w - 1
  }

  datatype Cell = Cell(rc: nat, tmp: nat, mark: bool)

  function CellOf(w: Word): Cell { Cell(GetRc(w), GetTmpRc(w), Visited(w)) }

  function MarkNew(c: Cell): Cell { Cell(c.rc, 1, true) }

  function Unmarked(c: Cell): Cell { Cell(c.rc, 0, false) }

  /** One more reference to an object already marked. */
  function CountAgain(c: Cell): Cell {
    if c.tmp + 1 < W31 then Cell(c.rc, c.tmp + 1, c.mark) else Cell(c.rc, 0, true)
  }

  /** mark_tc takes the root's own visit out of its temporary count. */
  function CountLess(c: Cell): Cell {
    if c.tmp > 0 then Cell(c.rc, c.tmp - 1, c.mark) else Cell(c.rc, W31 - 1, true)
  }

  /** One reference given up; a zero count borrows from the temporary count, then from the mark. */
  function GiveUp(c: Cell): Cell {
    if c.rc > 0 then Cell(c.rc - 1, c.tmp, c.mark)
    else if c.tmp > 0 then Cell(W32 - 1, c.tmp - 1, c.mark)
    else Cell(W32 - 1, W31 - 1, !c.mark)
  }

  lemma Unpack(w: Word)
    ensures GetRc(w) < W32 && GetTmpRc(w) < W31
    ensures w == GetRc(w) + GetTmpRc(w) * W32 + (if Visited(w) then W63 else 0)
  {
    assert w % W63 == w - (if Visited(w) then W63 else 0);
  }

  lemma Pack(rc: nat, tmp: nat, mark: bool, w: nat)
    requires rc < W32 && tmp < W31
    requires w == rc + tmp * W32 + if mark then W63 else 0
    ensures w < W64 && CellOf(w) == Cell(rc, tmp, mark)
  {
    assert w % W63 == rc + tmp * W32;
  }

  /** The cell determines the word. */
  lemma CellInjective(v: Word, w: Word)
    requires CellOf(v) == CellOf(w)
    ensures v == w
  {
    Unpack(v);
    Unpack(w);
  }

  lemma MarkNewCell(w: Word)
    ensures CellOf(SetTmpRc(SetVisited(w, true), 1)) == MarkNew(CellOf(w))
  {
    Unpack(w);
    var v := SetVisited(w, true);
    Pack(GetRc(w), GetTmpRc(w), true, v);
    Pack(GetRc(w), 1, true, SetTmpRc(v, 1));
  }

  lemma UnmarkedCell(w: Word)
    ensures CellOf(SetTmpRc(SetVisited(w, false), 0)) == Unmarked(CellOf(w))
  {
    Unpack(w);
    var v := SetVisited(w, false);
    Pack(GetRc(w), GetTmpRc(w), false, v);
    Pack(GetRc(w), 0, false, SetTmpRc(v, 0));
  }

  /** Clearing a word whose real count stands restores it bit for bit, whatever marking has done to the rest. */
  lemma ClearedWord(w: Word, marked: Word)
    requires GetTmpRc(w) == 0 && !Visited(w) && GetRc(marked) == GetRc(w)
    ensures SetTmpRc(SetVisited(marked, false), 0) == w
  {
    UnmarkedCell(marked);
    CellInjective(SetTmpRc(SetVisited(marked, false), 0), w);
  }

  lemma CountAgainCell(w: Word)
    ensures GetTmpRc(w) + 1 < W64 && CellOf(SetTmpRc(w, GetTmpRc(w) + 1)) == CountAgain(CellOf(w))
  {
    Unpack(w);
    var t := GetTmpRc(w) + 1;
    if t < W31 {
      Pack(GetRc(w), t, Visited(w), SetTmpRc(w, t));
    } else {
      Pack(GetRc(w), 0, true, SetTmpRc(w, t));
    }
  }

  lemma CountLessCell(w: Word)
    ensures CellOf(SetTmpRc(w, if GetTmpRc(w) == 0 then W64 - 1 else GetTmpRc(w) - 1)) == CountLess(CellOf(w))
  {
    Unpack(w);
    if GetTmpRc(w) > 0 {
      Pack(GetRc(w), GetTmpRc(w) - 1, Visited(w), SetTmpRc(w, GetTmpRc(w) - 1));
    } else {
      Pack(GetRc(w), W31 - 1, true, SetTmpRc(w, W64 - 1));
    }
  }

  /** The decrement touches only the real count exactly when that count is positive. */
  lemma GiveUpCell(w: Word)
    ensures CellOf(Decrement(w)) == GiveUp(CellOf(w))
    ensures CellOf(Decrement(w)).(rc := 0) == CellOf(w).(rc := 0) <==> GetRc(w) > 0
  {
    Unpack(w);
    if GetRc(w) > 0 {
      Pack(GetRc(w) - 1, GetTmpRc(w), Visited(w), w - 1);
    } else if GetTmpRc(w) > 0 {
      Pack(W32 - 1, GetTmpRc(w) - 1, Visited(w), w - 1);
    } else if Visited(w) {
      Pack(W32 - 1, W31 - 1, false, w - 1);
    } else {
      Pack(W32 - 1, W31 - 1, true, W64 - 1);
    }
  }

  /** The C statement ++o->refcount on the whole word. */
  function Increment(w: Word): Word {
    if w == W64 - 1 then 0 else w + 1
  }

  /** One reference more; a full count would carry into the temporary count, and on into the mark. */
  function CountUp(c: Cell): Cell {
    if c.rc + 1 < W32 then Cell(c.rc + 1, c.tmp, c.mark)
    else if c.tmp + 1 < W31 then Cell(0, c.tmp + 1, c.mark)
    else Cell(0, 0, !c.mark)
  }

  lemma CountUpCell(w: Word)
    ensures CellOf(Increment(w)) == CountUp(CellOf(w))
  {
    Unpack(w);
    if GetRc(w) + 1 < W32 {
      Pack(GetRc(w) + 1, GetTmpRc(w), Visited(w), w + 1);
    } else if GetTmpRc(w) + 1 < W31 {
      Pack(0, GetTmpRc(w) + 1, Visited(w), w + 1);
    } else if Visited(w) {
      Pack(0, 0, false, 0);
    } else {
      Pack(0, 0, true, w + 1);
    }
  }

  lemma EmptyWord()
    ensures CellOf(0) == Cell(0, 0, false)
  {
  }
}
