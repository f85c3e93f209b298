/**
 64-bit machine words as naturals below 2^64, with the operators of the C code
 written out: wrap-around addition and multiplication, two's-complement
 readings, bitwise operators bit by bit, and logical shifts.
 */
module Words {
  const W64: nat := 0x1_0000_0000_0000_0000
  const W63: nat := 0x8000_0000_0000_0000

  type Word = w: nat | w < 0x1_0000_0000_0000_0000

  datatype Option<+T> = None | Some(value: T)

  /** The word that represents an integer. */
  function ToWord(i: int): Word { i % W64 }

  /** The two's-complement reading of a word (the C cast to sword). */
  function Signed(w: Word): int { if w < W63 then w else w - W64 }

  function Add(a: Word, b: Word): Word { ToWord(a + b) }

  function Sub(a: Word, b: Word): Word { ToWord(a - b) }

  /** The C quotient, rounded towards zero. */
  function Quotient(a: int, b: int): int
    requires b != 0
  {
    if (a >= 0) == (b > 0) || a == 0 then Abs(a) / Abs(b) else -(Abs(a) / Abs(b))
  }

  function Abs(a: int): nat { if a < 0 then -a else a }

  /** The C operator ~. */
  function Complement(x: Word): Word { W64 - 1 - x }

  datatype BitOp = BitAnd | BitOr | BitXor | BitNor

  function Pow2(n: nat): nat { if n == 0 then 1 else 2 * Pow2(n - 1) }

  function OneBit(op: BitOp, a: nat, b: nat): nat
    requires a < 2 && b < 2
  {
    match op
    case BitAnd => if a == 1 && b == 1 then 1 else 0
    case BitOr => if a == 1 || b == 1 then 1 else 0
    case BitXor => if a != b then 1 else 0
    case BitNor => if a == 0 && b == 0 then 1 else 0
  }

  /** op on the low n bits of a and b. */
  function BitsOf(op: BitOp, n: nat, a: nat, b: nat): (r: nat)
    ensures r < Pow2(n)
  {
    if n == 0 then 0 else OneBit(op, a % 2, b % 2) + 2 * BitsOf(op, n - 1, a / 2, b / 2)
  }

  lemma Pow2At64()
    ensures Pow2(64) == W64 && Pow2(63) == W63
  {
    assert Pow2(8) == 256 && Pow2(7) == 128;
    Pow2Add(8, 8);
    Pow2Add(8, 7);
    Pow2Add(16, 16);
    Pow2Add(16, 15);
    Pow2Add(32, 32);
    Pow2Add(32, 31);
  }

  lemma {:induction false} Pow2Add(a: nat, b: nat)
    ensures Pow2(a + b) == Pow2(a) * Pow2(b)
  {
    if a > 0 {
      Pow2Add(a - 1, b);
      Twice(Pow2(a - 1), Pow2(b));
    }
  }

  lemma Twice(x: nat, y: nat)
    ensures 2 * x * y == 2 * (x * y)
  {
  }

  function Bitwise(op: BitOp, a: Word, b: Word): Word {
    Pow2At64();
    BitsOf(op, 64, a, b)
  }

  lemma {:induction false} XorSelf(n: nat, a: nat)
    ensures BitsOf(BitXor, n, a, a) == 0
  {
    if n > 0 { XorSelf(n - 1, a / 2); }
  }

  lemma {:induction false} NorSelf(n: nat, a: nat)
    requires a < Pow2(n)
    ensures BitsOf(BitNor, n, a, a) == Pow2(n) - 1 - a
  {
    if n > 0 { NorSelf(n - 1, a / 2); }
  }

  lemma {:induction false} AndZero(n: nat, a: nat)
    ensures BitsOf(BitAnd, n, a, 0) == 0
  {
    if n > 0 { AndZero(n - 1, a / 2); }
  }

  lemma AndOne(n: nat, a: nat)
    requires n > 0
    ensures BitsOf(BitAnd, n, a, 1) == a % 2
  {
    AndZero(n - 1, a / 2);
  }

  /** The condition code of if and loop: the complement's lowest bit. */
  lemma NotLowBit(a: Word)
    ensures Bitwise(BitXor, a, a) == 0
    ensures Bitwise(BitAnd, Bitwise(BitNor, a, a), 1) == 1 - a % 2
  {
    XorSelf(64, a);
    Pow2At64();
    NorSelf(64, a);
    AndOne(64, Bitwise(BitNor, a, a));
  }
}
