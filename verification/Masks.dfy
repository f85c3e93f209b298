/** The constants of an instruction word, as shifts and masks (x86_64/asm.c and its header), and the fields they select. */
module Masks {
  import opened Bits
  import opened Words
  import opened Machine
  import opened Encoding

  const BITS: nat := 64
  const OPCODE_LEN: nat := 8
  const ARG_SIZE: nat := 5
  const OPCODE_START: nat := BITS - OPCODE_LEN

  /** Every instruction has three arguments. */
  const N_ARGS: nat := 3

  /** The C operators & and |. */
  function Masked(a: Word, b: Word): Word { Bitwise(BitAnd, a, b) }

  function Combined(a: Word, b: Word): Word { Bitwise(BitOr, a, b) }

  function ShiftLeft(x: Word, n: nat): Word
    requires n < BITS
  {
    ToWord(x * Pow2(n))
  }

  function ShiftRight(x: Word, n: nat): Word
    requires n < BITS
  {
    Pow2Positive(n);
    Quotients(x, Pow2(n));
    x / Pow2(n)
  }

  lemma Quotients(x: nat, d: nat)
    requires d > 0
    ensures 0 <= x / d <= x
  {
    DivNat(x, d);
    MulMono(1, d, x / d);
    Commute(d, x / d);
  }

  function ArgMask(): Word { Sub(ShiftLeft(1, ARG_SIZE), 1) }

  function InstMask(): Word { ShiftLeft(Sub(ShiftLeft(1, OPCODE_LEN - 1), 1), OPCODE_START) }

  function FlagBit(): Word { ShiftLeft(1, BITS - 1) }

  /** get_flx_op_mask: the bits of an immediate in the place of the last of n arguments. */
  function FlxOpMask(n: nat): Word
    requires n <= N_ARGS
  {
    ShiftRight(Sub(0, 1), OPCODE_LEN + (if n > 0 then n - 1 else 0) * ARG_SIZE)
  }

  // ---------------------------------------------------------- what masks select

  /** A mask of the k lowest bits takes the remainder. */
  lemma {:induction false} LowBits(n: nat, k: nat, a: nat)
    requires k <= n
    ensures Pow2(k) > 0 && BitsOf(BitAnd, n, a, Pow2(k) - 1) == a % Pow2(k)
    decreases k
  {
    hide *;
    Pow2Positive(k);
    if k == 0 {
      NoBits(n, a);
      RemainderOfOne(a);
    } else {
      OneBitMore(n, k, a);
      LowBits(n - 1, k - 1, a / 2);
      HalfRemainder(a, Pow2(k - 1));
    }
  }

  lemma {:induction false} NoBits(n: nat, a: nat)
    ensures BitsOf(BitAnd, n, a, 0) == 0
  {
    if n > 0 { NoBits(n - 1, a / 2); }
  }

  lemma RemainderOfOne(a: nat)
    ensures Pow2(0) == 1 && a % 1 == 0
  {
  }

  lemma OneBitMore(n: nat, k: nat, a: nat)
    requires n > 0 && k > 0
    ensures Pow2(k - 1) > 0 && Pow2(k) == 2 * Pow2(k - 1)
    ensures BitsOf(BitAnd, n, a, 2 * Pow2(k - 1) - 1) == a % 2 + 2 * BitsOf(BitAnd, n - 1, a / 2, Pow2(k - 1) - 1)
  {
    Pow2Positive(k - 1);
    OddHalf(Pow2(k - 1));
  }

  lemma OddHalf(p: nat)
    requires p > 0
    ensures (2 * p - 1) % 2 == 1 && (2 * p - 1) / 2 == p - 1
  {
  }

  lemma HalfRemainder(a: nat, p: nat)
    requires p > 0
    ensures a % (2 * p) == a % 2 + 2 * ((a / 2) % p) && (a / 2) / p == a / (2 * p)
  {
    Halved(a, p, a / 2, a % 2, (a / 2) / p, (a / 2) % p);
  }

  lemma Halved(a: nat, p: nat, h: nat, b: nat, q: int, r: nat)
    requires p > 0 && a == 2 * h + b && b < 2 && h == p * q + r && r < p
    ensures a % (2 * p) == b + 2 * r && a / (2 * p) == q
  {
    Assoc(2, p, q);
    DivMod(a, 2 * p, q, b + 2 * r);
  }

  /** A mask that starts at bit k. */
  lemma {:induction false} HighBits(n: nat, k: nat, a: nat, m: nat)
    requires k <= n
    ensures Pow2(k) > 0 && a / Pow2(k) >= 0 && BitsOf(BitAnd, n, a, m * Pow2(k)) == BitsOf(BitAnd, n - k, a / Pow2(k), m) * Pow2(k)
  {
    Pow2Positive(k);
    DivNat(a, Pow2(k));
    if k > 0 {
      var p := Pow2(k - 1);
      Pow2Positive(k - 1);
      DivNat(a / 2, p);
      HighBits(n - 1, k - 1, a / 2, m);
      assert m * Pow2(k) == 2 * (m * p) by { Assoc(m, 2, p); Commute(m, 2); Assoc(2, m, p); }
      HalfQuotient(a, p);
      var b := BitsOf(BitAnd, n - k, a / Pow2(k), m);
      assert b * Pow2(k) == 2 * (b * p) by { Assoc(b, 2, p); Commute(b, 2); Assoc(2, b, p); }
    }
  }

  lemma HalfQuotient(a: nat, p: nat)
    requires p > 0
    ensures (a / 2) / p == a / (2 * p)
  {
    HalfRemainder(a, p);
  }

  /** A mask of k bits that starts at bit j. */
  lemma FieldMask(w: Word, j: nat, k: nat, m: Word)
    requires j + k <= 64 && Pow2(j) > 0 && Pow2(k) > 0 && m == (Pow2(k) - 1) * Pow2(j)
    ensures w / Pow2(j) >= 0 && Masked(w, m) == (w / Pow2(j) % Pow2(k)) * Pow2(j)
  {
    HighBits(64, j, w, Pow2(k) - 1);
    LowBits(64 - j, k, w / Pow2(j));
    hide Pow2, BitsOf;
  }

  lemma Powers()
    ensures Pow2(0) == 1 && Pow2(1) == 2 && Pow2(5) == 32 && Pow2(7) == 0x80 && Pow2(18) == 0x4_0000
    ensures Pow2(41) == P41 && Pow2(45) == IMM_LIMIT && Pow2(46) == P46 && Pow2(51) == P51 && Pow2(56) == P56
    ensures Pow2(63) == W63 && Pow2(64) == W64
  {
    assert Pow2(1) == 2 && Pow2(5) == 32 && Pow2(7) == 0x80 && Pow2(8) == 0x100 && Pow2(9) == 0x200;
    Pow2At64();
    hide Pow2;
    Pow2Add(9, 9);
    Pow2Add(56, 8);
    Pow2Add(51, 5);
    Pow2Add(46, 5);
    Pow2Add(41, 5);
    Pow2Add(45, 1);
  }

  lemma MaskValues()
    ensures ArgMask() == 31 && InstMask() == 127 * P56 && FlagBit() == W63 && FlxOpMask(N_ARGS) == P46 - 1
    ensures ShiftRight(FlagBit(), OPCODE_LEN + 2 * ARG_SIZE) == IMM_LIMIT && ShiftRight(FlxOpMask(N_ARGS), 1) == IMM_LIMIT - 1
  {
    Powers();
    hide Pow2;
  }

  lemma OpcodeField(w: Word)
    ensures w / P56 >= 0 && ShiftRight(Masked(w, InstMask()), OPCODE_START) == w / P56 % 128
  {
    Powers();
    MaskValues();
    hide Pow2, Masked, InstMask;
    FieldMask(w, 56, 7, InstMask());
    Commute(P56, w / P56 % 128);
    MultipleOf(P56, w / P56 % 128);
  }

  lemma FlagField(w: Word)
    ensures Masked(w, FlagBit()) != 0 <==> w >= W63
  {
    Powers();
    MaskValues();
    hide Pow2, Masked, FlagBit;
    FieldMask(w, 63, 1, FlagBit());
  }

  lemma LowField(w: Word)
    ensures Masked(w, FlxOpMask(N_ARGS)) == w % P46
  {
    Powers();
    MaskValues();
    hide Pow2, Masked, FlxOpMask;
    FieldMask(w, 0, 46, FlxOpMask(N_ARGS));
  }

  lemma RegisterBits(w: Word)
    ensures Masked(w, ArgMask()) == w % 32
  {
    Powers();
    MaskValues();
    hide Pow2, Masked, ArgMask;
    FieldMask(w, 0, 5, ArgMask());
  }

  lemma SignField(imm: Word)
    requires imm < P46
    ensures Masked(imm, ShiftRight(FlagBit(), OPCODE_LEN + 2 * ARG_SIZE)) != 0 <==> imm >= IMM_LIMIT
  {
    Powers();
    MaskValues();
    hide Pow2, Masked, FlagBit, ShiftRight;
    FieldMask(imm, 45, 1, ShiftRight(FlagBit(), OPCODE_LEN + 2 * ARG_SIZE));
  }

  /** The bits above an immediate. */
  lemma SignExtension(imm: Word)
    requires imm < P46
    ensures imm + (W64 - P46) < W64 && Combined(imm, ShiftLeft(Sub(0, 1), BITS - (OPCODE_LEN + 2 * ARG_SIZE))) == imm + (W64 - P46)
  {
    Powers();
    hide Pow2;
    assert ShiftLeft(Sub(0, 1), 46) == W64 - P46;
    assert (W64 - P46) % P46 == 0;
    hide ShiftLeft, Sub, Bitwise;
    BitwiseOr(imm, W64 - P46, 46);
  }

  /** Two shifts are one. */
  lemma ShiftAgain(w: Word, m: nat, n: nat)
    requires m + n < 64
    ensures ShiftRight(ShiftRight(w, m), n) == ShiftRight(w, m + n)
  {
    Pow2Add(m, n);
    Pow2Positive(m);
    Pow2Positive(n);
    QuotientTwice(w, Pow2(m), Pow2(n));
    hide Pow2;
  }

  lemma QuotientTwice(w: nat, p: nat, q: nat)
    requires p > 0 && q > 0
    ensures p * q > 0 && (w / p) / q == w / (p * q)
  {
    MulMono(1, p, q);
    DivNat(w, p);
    DivNat(w / p, q);
    TwoRemainders(w, p, q, w / p, w % p, w / p / q, w / p % q);
  }

  lemma TwoRemainders(w: nat, p: nat, q: nat, x: nat, r: nat, y: nat, s: nat)
    requires p > 0 && q > 0 && p * q > 0 && w == p * x + r && x == q * y + s && r < p && s < q
    ensures w / (p * q) == y
  {
    Distribute(p, x, s);
    Assoc(p, q, y);
    RowLess(p, q, s, r);
    DivMod(w, p * q, y, p * s + r);
  }

  lemma RowLess(p: nat, q: nat, s: nat, r: nat)
    requires s < q && r < p
    ensures 0 <= p * s && p * s + r < p * q
  {
    MulMono(s + 1, q, p);
    Commute(p, s);
    Commute(p, q);
  }

  /** Moving a field into place. */
  lemma ShiftedField(x: Word, n: nat, p: nat)
    requires n < 64 && p == Pow2(n) && x * p < W64
    ensures ShiftLeft(x, n) == x * p
  {
  }
}
