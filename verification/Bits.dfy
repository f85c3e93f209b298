/** Products, quotients and the bitwise or of words that share no bit. */
module Bits {
  import opened Words

  lemma Assoc(x: int, y: int, z: int)
    ensures (x * y) * z == x * (y * z)
  {
  }

  lemma Commute(x: int, y: int)
    ensures x * y == y * x
  {
  }

  lemma MulMono(x: nat, y: nat, p: nat)
    requires x <= y
    ensures x * p <= y * p
  {
    assert y * p == x * p + (y - x) * p;
  }

  lemma {:induction false} Pow2Positive(n: nat)
    ensures Pow2(n) > 0
  {
    if n > 0 { Pow2Positive(n - 1); }
  }

  /** Or of words without a common bit is their sum. */
  lemma {:induction false} OrIsSum(n: nat, s: nat, a: nat, b: nat)
    requires s <= n && a < Pow2(s) && b < Pow2(n) && b % Pow2(s) == 0
    ensures BitsOf(BitOr, n, a, b) == a + b
  {
    if n > 0 {
      if s == 0 {
        OrIsSum(n - 1, 0, 0, b / 2);
      } else {
        HalfMultiple(b, Pow2(s - 1));
        OrIsSum(n - 1, s - 1, a / 2, b / 2);
      }
    }
  }

  lemma HalfMultiple(b: nat, p: nat)
    requires p > 0 && b % (2 * p) == 0
    ensures b % 2 == 0 && (b / 2) % p == 0
  {
    var k := b / (2 * p);
    assert b == 2 * (p * k);
    MultipleOf(p, k);
  }

  lemma MultipleOf(p: nat, k: nat)
    requires p > 0
    ensures (p * k) % p == 0 && (p * k) / p == k
  {
    DivMod(p * k, p, k, 0);
  }

  lemma DivMod(x: int, p: nat, q: int, r: nat)
    requires p > 0 && r < p && x == p * q + r
    ensures x / p == q && x % p == r
  {
    var q', r' := x / p, x % p;
    assert x == p * q' + r';
    assert p * (q - q') == r' - r by { Distribute(p, q, q'); }
    if q > q' { MulMono(1, q - q', p); Commute(p, q - q'); }
    if q < q' { MulMono(1, q' - q, p); Commute(p, q' - q); Distribute(p, q', q); }
  }

  lemma DivNat(x: nat, d: nat)
    requires d > 0
    ensures x / d >= 0
  {
  }

  lemma Distribute(p: int, x: int, y: int)
    ensures p * (x - y) == p * x - p * y
  {
  }

  lemma BitwiseOr(a: Word, b: Word, s: nat)
    requires s <= 64 && Pow2(s) > 0 && a < Pow2(s) && b % Pow2(s) == 0
    ensures Bitwise(BitOr, a, b) == a + b
  {
    Pow2At64();
    hide Pow2;
    OrIsSum(64, s, a, b);
  }

  /** A hexadecimal digit shifted in from the right. */
  lemma OrDigit(d: nat, c: nat)
    requires d < 16 && c * 16 < W64
    ensures Bitwise(BitOr, d, ToWord(c * 16)) == c * 16 + d
  {
    assert Pow2(4) == 16;
    assert ToWord(c * 16) == c * 16;
    hide *;
    BitwiseOr(d, c * 16, 4);
  }
}
