/**
 What each instruction leaves, said of the numbers and the bits of its operands: sums and products up to a multiple of
 2^64, quotients and remainders by the division that they satisfy, bits one by one, shifts by powers of two.
 */
module Arithmetic {
  import opened Bits
  import opened Words
  import opened Machine

  /** Bit k of a word. */
  predicate BitAt(w: nat, k: nat) {
    Pow2Positive(k);
    w / Pow2(k) % 2 == 1
  }

  /** v is the word of the integer i: they differ by a multiple of 2^64. */
  ghost predicate WordOfInt(v: Word, i: int) { exists k: int :: v == i + k * 0x1_0000_0000_0000_0000 }

  /** q is the quotient of x and y rounded towards zero, r the remainder: of the sign of x, and smaller than y. */
  predicate Divides(x: int, y: int, q: int, r: int) {
    y != 0 && x == q * y + r && Size(r) < Size(y) && (r > 0 ==> x > 0) && (r < 0 ==> x < 0)
  }

  function Size(i: int): nat { if i < 0 then 0 - i else i }

  /** What an operation means. */
  ghost predicate Computes(op: Opcode, x: Word, y: Word, v: Word) {
    match op
    case Ads => WordOfInt(v, x + y)
    case Sbs => WordOfInt(v, x - y)
    case Mls => WordOfInt(v, Signed(x) * Signed(y))
    case Mlu => WordOfInt(v, x * y)
    case Dvs => exists r: Word :: Divides(Signed(x), Signed(y), Signed(v), Signed(r))
    case Dvu => exists r: Word :: Divides(x, y, v, r)
    case And => forall k :: 0 <= k < 64 ==> (BitAt(v, k) <==> BitAt(x, k) && BitAt(y, k))
    case Orr => forall k :: 0 <= k < 64 ==> (BitAt(v, k) <==> BitAt(x, k) || BitAt(y, k))
    case Xor => forall k :: 0 <= k < 64 ==> (BitAt(v, k) <==> BitAt(x, k) != BitAt(y, k))
    case Nor => forall k :: 0 <= k < 64 ==> (BitAt(v, k) <==> !BitAt(x, k) && !BitAt(y, k))
    case Shf => if Signed(y) < 0 then Signed(y) > -64 && WordOfInt(v, x * Pow2(0 - Signed(y)))
                else Signed(y) < 64 && v * Pow2(Signed(y)) <= x < (v + 1) * Pow2(Signed(y))
    case _ => false
  }

  /** What C leaves undefined: a division by zero, the one quotient that is too large, and shifts by a whole word. */
  predicate Undefined(op: Opcode, x: Word, y: Word) {
    || ((op == Dvs || op == Dvu) && y == 0)
    || (op == Dvs && x == 0x8000_0000_0000_0000 && y == 0xffff_ffff_ffff_ffff)
    || (op == Shf && (Signed(y) >= 64 || Signed(y) <= -64))
  }

  predicate IsArithmetic(op: Opcode) {
    op == Ads || op == Sbs || op == Mls || op == Mlu || op == Dvs || op == Dvu ||
    op == And || op == Orr || op == Xor || op == Nor || op == Shf
  }

  /** Signed and unsigned readings differ by the place of the highest bit. */
  lemma SignedIs(w: Word)
    ensures Signed(w) == w - if BitAt(w, 63) then 0x1_0000_0000_0000_0000 else 0
    ensures -0x8000_0000_0000_0000 <= Signed(w) < 0x8000_0000_0000_0000
  {
    Pow2At64();
    hide Pow2;
    if w >= W63 { DivMod(w, W63, 1, w - W63); } else { DivMod(w, W63, 0, w); }
  }

  // ------------------------------------------------------------------ words

  lemma ToWordIs(i: int)
    ensures WordOfInt(ToWord(i), i)
  {
    var k := 0 - i / W64;
    assert ToWord(i) == i + k * 0x1_0000_0000_0000_0000;
  }

  /** There is one word for an integer. */
  lemma OneWord(v: Word, w: Word, i: int)
    requires WordOfInt(v, i) && WordOfInt(w, i)
    ensures v == w
  {
    var j :| v == i + j * 0x1_0000_0000_0000_0000;
    var k :| w == i + k * 0x1_0000_0000_0000_0000;
    assert v - w == (j - k) * 0x1_0000_0000_0000_0000;
  }

  /** An integer in range is what its word reads as. */
  lemma InRange(v: Word, i: int)
    requires WordOfInt(v, i)
    ensures 0 <= i < 0x1_0000_0000_0000_0000 ==> v == i
    ensures -0x8000_0000_0000_0000 <= i < 0x8000_0000_0000_0000 ==> Signed(v) == i
  {
    var k :| v == i + k * 0x1_0000_0000_0000_0000;
  }

  // --------------------------------------------------------------- division

  lemma QuotientDivides(x: int, y: int)
    requires y != 0
    ensures var q := Quotient(x, y); Divides(x, y, q, x - q * y)
  {
    var a, b := Abs(x), Abs(y);
    DivNat(a, b);
    Euclid(a, b);
    NoneOfNone(b);
    var d: int := a / b;
    assert Quotient(x, y) == if (x >= 0) == (y > 0) || x == 0 then d else 0 - d;
    SignedDivides(x, y, Quotient(x, y), d, a % b);
  }

  lemma Euclid(a: nat, b: nat)
    requires b > 0
    ensures a == (a / b) * b + a % b && a % b < b
  {
  }

  lemma NoneOfNone(b: nat)
    requires b > 0
    ensures 0 / b == 0
  {
    DivMod(0, b, 0, 0);
  }

  lemma SignedDivides(x: int, y: int, q: int, d: nat, m: nat)
    requires y != 0 && Abs(x) == d * Abs(y) + m && m < Abs(y) && (x == 0 ==> d == 0)
    requires q == if (x >= 0) == (y > 0) || x == 0 then d else 0 - d
    ensures Divides(x, y, q, x - q * y)
  {
    SignedProduct(x, y, q, d, Abs(y));
  }

  lemma SignedProduct(x: int, y: int, q: int, d: nat, b: nat)
    requires b == Abs(y) && y != 0 && q == if (x >= 0) == (y > 0) || x == 0 then d else 0 - d
    requires x == 0 ==> d == 0
    ensures q * y == if x >= 0 then d * b else 0 - d * b
  {
    if y < 0 { assert q * y == (0 - q) * b; }
  }

  lemma RemainderWord(x: Word, y: Word)
    requires y != 0
    ensures Signed(Remainder(Dvs, x, y)) == Signed(x) - Quotient(Signed(x), Signed(y)) * Signed(y)
    ensures Remainder(Dvu, x, y) == x - (x / y) * y
  {
    var r := Signed(x) - Quotient(Signed(x), Signed(y)) * Signed(y);
    QuotientDivides(Signed(x), Signed(y));
    ToWordIs(r);
    InRange(ToWord(r), r);
    assert x == (x / y) * y + x % y;
    hide Quotient;
  }

  lemma QuotientSmall(x: int, y: int)
    requires y != 0
    ensures Abs(Quotient(x, y)) <= Abs(x) && (y != -1 && y != 1 ==> 2 * Abs(Quotient(x, y)) <= Abs(x))
    ensures y == -1 ==> Quotient(x, y) == 0 - x
  {
    var a, b := Abs(x), Abs(y);
    DivNat(a, b);
    assert a == (a / b) * b + a % b;
    MulMono(1, b, a / b);
    if b >= 2 { MulMono(2, b, a / b); }
    Commute(b, a / b);
  }

  lemma DvsComputes(x: Word, y: Word)
    requires y != 0 && !Undefined(Dvs, x, y)
    ensures Alu(Dvs, x, y).Some? && Computes(Dvs, x, y, Alu(Dvs, x, y).value)
    ensures Divides(Signed(x), Signed(y), Signed(Alu(Dvs, x, y).value), Signed(Remainder(Dvs, x, y)))
  {
    var q := Quotient(Signed(x), Signed(y));
    QuotientDivides(Signed(x), Signed(y));
    QuotientSmall(Signed(x), Signed(y));
    RemainderWord(x, y);
    ToWordIs(q);
    InRange(ToWord(q), q);
    hide Quotient, Remainder;
  }

  lemma DvuComputes(x: Word, y: Word)
    requires y != 0
    ensures Alu(Dvu, x, y).Some? && Computes(Dvu, x, y, Alu(Dvu, x, y).value)
    ensures Divides(x, y, Alu(Dvu, x, y).value, Remainder(Dvu, x, y))
  {
    DivBound(x, y);
    RemainderWord(x, y);
    assert x == (x / y) * y + x % y;
    hide Remainder;
    assert Divides(x, y, x / y, Remainder(Dvu, x, y));
  }

  /** Quotient and remainder are determined. */
  lemma OneQuotient(x: int, y: int, q: int, r: int, q': int, r': int)
    requires Divides(x, y, q, r) && Divides(x, y, q', r')
    ensures q == q' && r == r'
  {
    assert (q - q') * y == r' - r;
    var d := q - q';
    if d > 0 { MulMono(1, d, Size(y)); ProductSize(d, y); }
    if d < 0 { MulMono(1, 0 - d, Size(y)); ProductSize(d, y); }
  }

  lemma ProductSize(d: int, y: int)
    ensures Size(d * y) == Size(d) * Size(y)
  {
    if d >= 0 && y < 0 { assert d * y == 0 - d * Size(y); }
    if d < 0 && y >= 0 { assert d * y == 0 - Size(d) * y; }
    if d < 0 && y < 0 { assert d * y == Size(d) * Size(y); }
  }

  // ------------------------------------------------------------------- bits

  predicate OneBitOf(op: BitOp, a: bool, b: bool) {
    match op
    case BitAnd => a && b
    case BitOr => a || b
    case BitXor => a != b
    case BitNor => !a && !b
  }

  lemma {:induction false} BitOfBits(op: BitOp, n: nat, a: nat, b: nat, k: nat)
    requires k < n
    ensures BitAt(BitsOf(op, n, a, b), k) <==> OneBitOf(op, BitAt(a, k), BitAt(b, k))
    decreases n
  {
    var d, r := OneBit(op, a % 2, b % 2), BitsOf(op, n - 1, a / 2, b / 2);
    assert BitsOf(op, n, a, b) == d + 2 * r;
    if k == 0 {
      LowestBit(d, r);
      assert Pow2(0) == 1;
    } else {
      BitOfBits(op, n - 1, a / 2, b / 2, k - 1);
      BitHalf(d + 2 * r, k);
      BitHalf(a, k);
      BitHalf(b, k);
      assert (d + 2 * r) / 2 == r;
      hide BitsOf, BitAt, OneBit;
    }
  }

  lemma LowestBit(d: nat, r: nat)
    requires d < 2
    ensures (d + 2 * r) / 1 % 2 == d
  {
  }

  lemma BitHalf(a: nat, k: nat)
    requires k > 0
    ensures BitAt(a, k) <==> BitAt(a / 2, k - 1)
  {
    Pow2Positive(k - 1);
    HalfAgain(a, Pow2(k - 1));
  }

  lemma HalfAgain(a: nat, p: nat)
    requires p > 0
    ensures a / (2 * p) == (a / 2) / p
  {
    var h, b := a / 2, a % 2;
    var q, r := h / p, h % p;
    HalvesAre(a, h, b, p, q, r);
  }

  lemma HalvesAre(a: nat, h: nat, b: nat, p: nat, q: int, r: nat)
    requires p > 0 && a == 2 * h + b && b < 2 && h == p * q + r && r < p
    ensures a / (2 * p) == q
  {
    Assoc(2, p, q);
    DivMod(a, 2 * p, q, b + 2 * r);
  }

  /** Words with the same bits are the same. */
  lemma {:induction false} SameBits(n: nat, a: nat, b: nat)
    requires a < Pow2(n) && b < Pow2(n) && forall k :: 0 <= k < n ==> (BitAt(a, k) <==> BitAt(b, k))
    ensures a == b
  {
    if n > 0 {
      forall k | 0 <= k < n - 1 ensures BitAt(a / 2, k) <==> BitAt(b / 2, k) {
        BitHalf(a, k + 1);
        BitHalf(b, k + 1);
      }
      assert BitAt(a, 0) <==> BitAt(b, 0);
      assert Pow2(0) == 1;
      assert a % 2 == b % 2;
      SameBits(n - 1, a / 2, b / 2);
    }
  }

  lemma BitwiseComputes(op: Opcode, b: BitOp, x: Word, y: Word)
    requires (op == And && b == BitAnd) || (op == Orr && b == BitOr) || (op == Xor && b == BitXor) || (op == Nor && b == BitNor)
    ensures Alu(op, x, y).Some? && Computes(op, x, y, Alu(op, x, y).value)
  {
    forall k | 0 <= k < 64 ensures BitAt(Bitwise(b, x, y), k) <==> OneBitOf(b, BitAt(x, k), BitAt(y, k)) {
      BitOfBits(b, 64, x, y, k);
    }
    hide BitAt, BitsOf, Bitwise;
  }

  lemma ShfComputes(x: Word, y: Word)
    requires !Undefined(Shf, x, y)
    ensures Alu(Shf, x, y).Some? && Computes(Shf, x, y, Alu(Shf, x, y).value)
  {
    var s := Signed(y);
    if s < 0 {
      ToWordIs(x * Pow2(0 - s));
    } else {
      var p := Pow2(s);
      Pow2Positive(s);
      DivBound(x, p);
      hide Pow2;
      QuotientBounds(x, p);
    }
  }

  lemma QuotientBounds(x: nat, p: nat)
    requires p > 0
    ensures x / p * p <= x < (x / p + 1) * p
  {
    assert x == (x / p) * p + x % p;
  }

  // ------------------------------------------------------------- all of them

  /** An operation is defined unless C leaves it undefined, and then leaves what it means. */
  lemma AluComputes(op: Opcode, x: Word, y: Word)
    requires IsArithmetic(op)
    ensures Alu(op, x, y).Some? <==> !Undefined(op, x, y)
    ensures Alu(op, x, y).Some? ==> Computes(op, x, y, Alu(op, x, y).value)
  {
    if !Undefined(op, x, y) {
      match op {
        case Ads => ToWordIs(x + y);
        case Sbs => ToWordIs(x - y);
        case Mls => ToWordIs(Signed(x) * Signed(y));
        case Mlu => ToWordIs(x * y);
        case Dvs => DvsComputes(x, y);
        case Dvu => DvuComputes(x, y);
        case And => BitwiseComputes(And, BitAnd, x, y);
        case Orr => BitwiseComputes(Orr, BitOr, x, y);
        case Xor => BitwiseComputes(Xor, BitXor, x, y);
        case Nor => BitwiseComputes(Nor, BitNor, x, y);
        case Shf => ShfComputes(x, y);
      }
    }
    hide Quotient, Bitwise, Divides, WordOfInt, BitAt;
  }

  /** That determines the result. */
  lemma OneResult(op: Opcode, x: Word, y: Word, v: Word, w: Word)
    requires Computes(op, x, y, v) && Computes(op, x, y, w)
    ensures v == w
  {
    match op {
      case Ads => OneWord(v, w, x + y);
      case Sbs => OneWord(v, w, x - y);
      case Mls => OneWord(v, w, Signed(x) * Signed(y));
      case Mlu => OneWord(v, w, x * y);
      case Dvs =>
        var r: Word :| Divides(Signed(x), Signed(y), Signed(v), Signed(r));
        var r': Word :| Divides(Signed(x), Signed(y), Signed(w), Signed(r'));
        OneQuotient(Signed(x), Signed(y), Signed(v), Signed(r), Signed(w), Signed(r'));
      case Dvu =>
        var r: Word :| Divides(x, y, v, r);
        var r': Word :| Divides(x, y, w, r');
        OneQuotient(x, y, v, r, w, r');
      case Shf =>
        if Signed(y) < 0 { OneWord(v, w, x * Pow2(0 - Signed(y))); } else { OneShifted(x, Pow2(Signed(y)), v, w); }
      case And => SameWord(v, w);
      case Orr => SameWord(v, w);
      case Xor => SameWord(v, w);
      case Nor => SameWord(v, w);
      case _ =>
    }
  }

  lemma SameWord(v: Word, w: Word)
    requires forall k :: 0 <= k < 64 ==> (BitAt(v, k) <==> BitAt(w, k))
    ensures v == w
  {
    Pow2At64();
    hide Pow2, BitAt;
    SameBits(64, v, w);
  }

  lemma OneShifted(x: nat, p: nat, v: nat, w: nat)
    requires v * p <= x < (v + 1) * p && w * p <= x < (w + 1) * p
    ensures v == w
  {
    if v < w { MulMono(v + 1, w, p); }
    if w < v { MulMono(w + 1, v, p); }
  }

  /** A signed product in range is the product of the signed readings; an unsigned one that of the words. */
  lemma Products(x: Word, y: Word)
    ensures var p := Signed(x) * Signed(y);
            -0x8000_0000_0000_0000 <= p < 0x8000_0000_0000_0000 ==>
              Alu(Mls, x, y).Some? && Signed(Alu(Mls, x, y).value) == p
    ensures x * y < 0x1_0000_0000_0000_0000 ==> Alu(Mlu, x, y) == Some(x * y)
  {
    hide *;
    ProductMeans(x, y, 0);
    AluComputes(Mls, x, y);
    AluComputes(Mlu, x, y);
    ProductMeans(x, y, Alu(Mls, x, y).value);
    ProductMeans(x, y, Alu(Mlu, x, y).value);
    InRange(Alu(Mls, x, y).value, Signed(x) * Signed(y));
    InRange(Alu(Mlu, x, y).value, x * y);
  }

  lemma ProductMeans(x: Word, y: Word, v: Word)
    ensures IsArithmetic(Mls) && IsArithmetic(Mlu) && !Undefined(Mls, x, y) && !Undefined(Mlu, x, y)
    ensures Computes(Mls, x, y, v) ==> WordOfInt(v, Signed(x) * Signed(y))
    ensures Computes(Mlu, x, y, v) ==> WordOfInt(v, x * y)
  {
    hide WordOfInt;
  }

  // ------------------------------------------------------------ instructions

  /** The value of a last operand: the register, or the word of the immediate. */
  ghost predicate OperandIs(c: Operand, regs: Regs, y: Word) {
    match c
    case Reg(r) => r < 32 && y == regs[r]
    case Imm(i) => WordOfInt(y, i)
  }

  /** Memory goes on to the next instruction, and only register a may have changed. */
  predicate Advances(s: State, s': State, a: nat) {
    && s'.regs[30] == (if s.regs[30] == 0xffff_ffff_ffff_ffff then 0 else s.regs[30] + 1)
    && forall r :: 0 <= r < 32 && r != a && r != 30 ==> s'.regs[r] == s.regs[r]
  }

  lemma ValueIs(c: Operand, regs: Regs)
    requires match c case Reg(r) => r < 32 case Imm(_) => true
    ensures OperandIs(c, regs, Value(c, regs))
  {
    if c.Imm? { ToWordIs(c.i); }
  }

  /**
   An arithmetic instruction puts what it means into its first register, and after a division the remainder into r29,
   unless that is the first register; it has no next state exactly when C leaves it undefined.
   */
  lemma ArithmeticStep(i: Instr, s: State, y: Word)
    requires WellFormed(i) && IsArithmetic(i.op) && OperandIs(i.c, s.regs, y) && i.a != 30
    ensures Exec(i, s).Some? <==> !Undefined(i.op, s.regs[i.b], y)
    ensures Exec(i, s).Some? ==>
              var s' := Exec(i, s).value;
              && Computes(i.op, s.regs[i.b], y, s'.regs[i.a]) && s'.mem == s.mem
              && (i.op != Dvs && i.op != Dvu ==> Advances(s, s', i.a))
              && (i.op == Dvs || i.op == Dvu ==> Advances(s.(regs := s.regs[29 := s'.regs[29]]), s', i.a))
              && (i.op == Dvs && i.a != 29 ==> Divides(Signed(s.regs[i.b]), Signed(y), Signed(s'.regs[i.a]), Signed(s'.regs[29])))
              && (i.op == Dvu && i.a != 29 ==> Divides(s.regs[i.b], y, s'.regs[i.a], s'.regs[29]))
  {
    ValueIs(i.c, s.regs);
    if i.c.Imm? { OneWord(y, Value(i.c, s.regs), i.c.i); }
    assert y == Value(i.c, s.regs);
    var x := s.regs[i.b];
    AluComputes(i.op, x, y);
    NextIs(s.regs[30]);
    if i.op == Dvs && !Undefined(i.op, x, y) { DvsComputes(x, y); }
    if i.op == Dvu && !Undefined(i.op, x, y) { DvuComputes(x, y); }
    hide Alu, Computes, Undefined, Divides, Remainder, Value, Add;
  }

  lemma NextIs(pc: Word)
    ensures Add(pc, 1) == if pc == 0xffff_ffff_ffff_ffff then 0 else pc + 1
  {
  }

  /** ldr reads the word at the sum of its operands, as byte addresses wrap at 2^64. */
  lemma LoadStep(i: Instr, s: State, y: Word)
    requires WellFormed(i) && i.op == Ldr && OperandIs(i.c, s.regs, y) && i.a != 30
    ensures var p := (s.regs[i.b] + y) % 0x2000_0000_0000_0000;
            && (Exec(i, s).Some? <==> p < |s.mem|)
            && (p < |s.mem| ==> var s' := Exec(i, s).value; s'.mem == s.mem && s'.regs[i.a] == s.mem[p] && Advances(s, s', i.a))
  {
    ValueIs(i.c, s.regs);
    if i.c.Imm? { OneWord(y, Value(i.c, s.regs), i.c.i); }
    NextIs(s.regs[30]);
    hide Value, Add;
  }

  /** str writes its first register there, and nothing else. */
  lemma StoreStep(i: Instr, s: State, y: Word)
    requires WellFormed(i) && i.op == Str && OperandIs(i.c, s.regs, y)
    ensures var p := (s.regs[i.b] + y) % 0x2000_0000_0000_0000;
            && (Exec(i, s).Some? <==> p < |s.mem|)
            && (p < |s.mem| ==>
                  var s' := Exec(i, s).value;
                  && |s'.mem| == |s.mem| && s'.mem[p] == s.regs[i.a] && Advances(s, s', 30)
                  && forall q :: 0 <= q < |s.mem| && q != p ==> s'.mem[q] == s.mem[q])
  {
    ValueIs(i.c, s.regs);
    if i.c.Imm? { OneWord(y, Value(i.c, s.regs), i.c.i); }
    NextIs(s.regs[30]);
    hide Value, Add;
  }

  /** acx compares the word at its first register with the second one, replaces it by the operand if they are equal, and leaves what was there in the second. */
  lemma ExchangeStep(i: Instr, s: State, y: Word)
    requires WellFormed(i) && i.op == Acx && OperandIs(i.c, s.regs, y) && i.b != 30
    ensures var p := s.regs[i.a] % 0x2000_0000_0000_0000;
            && (Exec(i, s).Some? <==> p < |s.mem|)
            && (p < |s.mem| ==>
                  var s' := Exec(i, s).value;
                  && |s'.mem| == |s.mem| && s'.regs[i.b] == s.mem[p] && Advances(s, s', i.b)
                  && s'.mem[p] == (if s.mem[p] == s.regs[i.b] then y else s.mem[p])
                  && forall q :: 0 <= q < |s.mem| && q != p ==> s'.mem[q] == s.mem[q])
  {
    ValueIs(i.c, s.regs);
    if i.c.Imm? { OneWord(y, Value(i.c, s.regs), i.c.i); }
    NextIs(s.regs[30]);
    hide Value, Add;
  }

  /** jnc goes to the sum of its last two operands unless its first register is zero. */
  lemma JumpStep(i: Instr, s: State, y: Word)
    requires WellFormed(i) && i.op == Jnc && OperandIs(i.c, s.regs, y)
    ensures Exec(i, s).Some? && Exec(i, s).value.mem == s.mem
    ensures s.regs[i.a] == 0 ==> Advances(s, Exec(i, s).value, 30)
    ensures s.regs[i.a] != 0 ==>
              var s' := Exec(i, s).value;
              WordOfInt(s'.regs[30], s.regs[i.b] + y) && forall r :: 0 <= r < 32 && r != 30 ==> s'.regs[r] == s.regs[r]
  {
    ValueIs(i.c, s.regs);
    if i.c.Imm? { OneWord(y, Value(i.c, s.regs), i.c.i); }
    NextIs(s.regs[30]);
    ToWordIs(s.regs[i.b] + y);
    hide Value;
  }

  /** exc only goes on. */
  lemma ExceptionStep(i: Instr, s: State)
    requires WellFormed(i) && i.op == Exc
    ensures Exec(i, s).Some? && Exec(i, s).value.mem == s.mem && Advances(s, Exec(i, s).value, 30)
  {
    NextIs(s.regs[30]);
    hide Add;
  }

  /** The machine runs while the highest bit of r31 is set. */
  lemma RunningIs(s: State)
    ensures Running(s) <==> BitAt(s.regs[31], 63)
  {
    SignedIs(s.regs[31]);
    hide BitAt;
  }
}
