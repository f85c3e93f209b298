/** num_mul as a whole: signs, operands that share an object, and exactly when the result is the product. */
module BignumMultiply {
  import opened Bits
  import opened Words
  import opened WordSeqs
  import opened Bignums
  import opened BignumProducts

  /**
   When num_mul is right, for a shorter and a longer factor: no negative number times its own object (its sign
   would be changed twice), and no least number whose magnitude the loops or the early test do not see, unless
   the other factor is zero.
   */
  predicate MultipliableInOrder(shorter: seq<Word>, longer: seq<Word>, same: bool)
    requires Canonical(shorter) && Canonical(longer)
  {
    && (same ==> Top(shorter) == 0)
    && (Least(longer) ==> Int(shorter) == 0)
    && (Least(shorter) && |shorter| == 2 ==> Int(longer) == 0)
  }

  predicate Multipliable(s1: seq<Word>, s2: seq<Word>, same: bool)
    requires Canonical(s1) && Canonical(s2)
  {
    if |s1| > |s2| then MultipliableInOrder(s2, s1, same) else MultipliableInOrder(s1, s2, same)
  }

  // ------------------------------------------------- distinct or non-negative

  lemma ProductBound(x: nat, y: nat, p: nat, q: nat)
    requires x <= p && y < q && p > 0
    ensures x * y < p * q
  {
    MulMono(x, p, y);
    MulMono(y + 1, q, p);
    Commute(p, y);
    Commute(p, q);
  }

  lemma AbsTimes(x: int, y: int)
    ensures x * y == if (x < 0) != (y < 0) then 0 - Abs(x) * Abs(y) else Abs(x) * Abs(y)
    ensures Abs(x) * Abs(y) == 0 <==> x == 0 || y == 0
  {
    if x != 0 && y != 0 { MulMono(1, Abs(x), Abs(y)); }
  }

  /** The result of the loops on two magnitudes, with its sign. */
  lemma ProductOf(s1: seq<Word>, s2: seq<Word>, a: seq<Word>, b: seq<Word>, r: seq<Word>, u: seq<Word>)
    requires Canonical(s1) && Canonical(s2) && IsMagnitude(s1, a) && IsMagnitude(s2, b)
    requires |r| == |a| + |b| - 1 && Val(r) == Val(a) * Val(b[..|b| - 1])
    requires if Top(s1) != Top(s2) then Negated(r, u) else u == r
    ensures Canonical(u) && Int(u) == if Least(s2) then 0 else Int(s1) * Int(s2)
    ensures (if Top(s1) != Top(s2) then ONES else 0) != Top(u) ==> forall j :: 0 <= j < |u| ==> u[j] == 0
  {
    hide *;
    SignWords(s1);
    SignWords(s2);
    Magnitude(s1, a);
    Magnitude(s2, b);
    var n, m := |s1| - 1, |s2| - 1;
    ValBound(b[..m]);
    ProductBound(Val(a), Val(b[..m]), Pow(n), Pow(m));
    PowAdd(n, m);
    MagnitudeVal(s1, a);
    MagnitudeVal(s2, b);
    AbsTimes(Int(s1), Int(s2));
    SignedResult(r, u, Top(s1) != Top(s2));
  }

  // ------------------------------------------------ a negative number, squared

  /** The number of zero words at the bottom. */
  function LowZeros(s: seq<Word>): (k: nat)
    ensures k <= |s| && (forall j :: 0 <= j < k ==> s[j] == 0) && (k < |s| ==> s[k] != 0)
  {
    if s == [] || s[0] != 0 then 0 else
      var k := LowZeros(s[1..]);
      assert forall j :: 1 <= j < k + 1 ==> s[j] == s[1..][j - 1];
      assert k + 1 < |s| ==> s[k + 1] == s[1..][k];
      k + 1
  }

  lemma {:induction false} ZeroTail(s: seq<Word>, n: nat)
    requires n <= |s| && forall j :: n <= j < |s| ==> s[j] == 0
    ensures Val(s) == Val(s[..n])
  {
    ZeroVal(s[n..]);
    assert s == s[..n] + s[n..];
    ValConcat(s[..n], s[n..]);
  }

  /** Whatever the stripping loop makes of a result, its value stays the same below the last word. */
  lemma StrippedCongruent(r: seq<Word>, size: nat) returns (z: int)
    requires 2 <= size <= |r| && (size < |r| ==> forall j :: size - 1 <= j < |r| - 1 ==> r[j] == 0)
    ensures Int(r[..size]) == Val(r) + z * Pow(|r| - 1)
  {
    TopSplit(r);
    var t, p := r[..size], Pow(|r| - 1);
    if size == |r| {
      assert t == r;
      z := if Top(r) >= W63 then 0 - W64 else 0;
      hide Val, Pow;
    } else {
      var low := r[..|r| - 1];
      assert low[..size] == t;
      ZeroTail(low, size);
      assert Top(t) == r[size - 1] == 0;
      hide Val, Pow;
      z := 0 - Top(r);
      assert z * p == 0 - Top(r) * p;
    }
  }

  /** The low words as a multiple of a power of 2^64, the quotient not divisible once more. */
  lemma LowFactor(s: seq<Word>, n: nat, k: nat) returns (l: nat)
    requires k < n <= |s| && s[k] != 0 && forall j :: 0 <= j < k ==> s[j] == 0
    ensures Val(s[..n]) == Pow(k) * l && l % W64 != 0
  {
    var t := s[..n];
    assert t == t[..k] + t[k..];
    ZeroVal(t[..k]);
    ValConcat(t[..k], t[k..]);
    l := Val(t[k..]);
    assert l == s[k] + W64 * Val(t[k..][1..]);
    hide Val, Pow;
    DivMod(l, W64, Val(t[k + 1..]), s[k]) by { assert t[k..][1..] == t[k + 1..]; }
  }

  /**
   The arithmetic of the missed square: with p = 2^64 to the n - 1 = f * g * W64, f for the zero words,
   a result congruent to the square would make l divisible by 2^64.
   */
  lemma NoSquare(p: nat, f: nat, g: nat, l: nat, y: int)
    requires f > 0 && p > 0 && p == f * (W64 * g) && l % W64 != 0
    ensures (W64 * p - (p - f * l)) * (f * l) != (p - f * l) * (p - f * l) + y * (f * p * W64)
  {
    if (W64 * p - (p - f * l)) * (f * l) == (p - f * l) * (p - f * l) + y * (f * p * W64) {
      SquareQuotient(p, f, g, l, y);
      DivMod(l, W64, y + g - l, 0);
    }
  }

  lemma SquareQuotient(p: nat, f: nat, g: nat, l: nat, y: int)
    requires f > 0 && p > 0 && p == f * (W64 * g)
    requires (W64 * p - (p - f * l)) * (f * l) == (p - f * l) * (p - f * l) + y * (f * p * W64)
    ensures l == W64 * (y + g - l)
  {
    var m := p - f * l;
    assert (W64 * p - m) * (p - m) == W64 * p * (p - m) - m * p + m * m;
    assert W64 * p * (f * l) - m * p == y * (f * p * W64);
    assert p * (W64 * f * l - m - y * f * W64) == 0;
    assert W64 * f * l - m - y * f * W64 == 0;
    assert f * (W64 * l - (W64 * g - l) - y * W64) == 0;
  }

  /** What the loops make of a negative number and itself, its sign changed twice, is never the square. */
  lemma SquareMissed(s: seq<Word>, r: seq<Word>, e: nat, k: nat, size: nat)
    requires Canonical(s) && Top(s) == ONES && k == LowZeros(s)
    requires |r| == 2 * |s| - 1 && Val(r) + e * Pow(|s| + k) == Val(s) * Val(s[..|s| - 1])
    requires 2 <= size <= |r| && (size < |r| ==> forall j :: size - 1 <= j < |r| - 1 ==> r[j] == 0)
    ensures Int(r[..size]) != Int(s) * Int(s)
  {
    hide *;
    SignWords(s);
    var n := |s|;
    if k >= n - 1 {
      SquareOfLeast(s, r, e, k, size);
    } else {
      var z := StrippedCongruent(r, size);
      var l := LowFactor(s, n - 1, k);
      SquareSetting(s, k, l);
      PowAdd(n + k, n - 2 - k);
      SquareClash(Int(r[..size]), Val(r), Int(s), Val(s), Pow(n - 1), Pow(k), Pow(n - 2 - k), l, e, z, Pow(n + k));
    }
  }

  lemma SquareClash(u: int, x: int, i: int, v: int, p: nat, f: nat, g: nat, l: nat, e: int, z: int, q: int)
    requires f > 0 && p > 0 && p == f * (W64 * g) && l % W64 != 0 && q == f * p * W64
    requires v == W64 * p + i && i == f * l - p && x + e * q == v * (f * l) && u == x + z * (q * g)
    ensures u != i * i
  {
    NoSquare(p, f, g, l, e - z * g);
    assert i * i == (p - f * l) * (p - f * l);
    assert z * (q * g) == (z * g) * q by { Commute(q, g); Assoc(z, g, q); }
    assert (e - z * g) * q == e * q - (z * g) * q;
  }

  lemma SquareOfLeast(s: seq<Word>, r: seq<Word>, e: nat, k: nat, size: nat)
    requires Canonical(s) && Top(s) == ONES && k == LowZeros(s) && k >= |s| - 1
    requires Val(r) + e * Pow(|s| + k) == Val(s) * Val(s[..|s| - 1]) && 0 < size <= |r|
    ensures Int(r[..size]) == 0 && Int(s) * Int(s) > 0
  {
    ZeroVal(s[..|s| - 1]);
    ZeroVal(r);
    ZeroVal(r[..size]);
    CanonicalRange(s);
    var i, v := Int(s), Val(s);
    hide Val, Pow, Int, Canonical;
    assert v * 0 == 0;
    AbsTimes(i, i);
  }

  /** The powers in the square of s, s having k zero words below l. */
  lemma SquareSetting(s: seq<Word>, k: nat, l: nat)
    requires Canonical(s) && Top(s) == ONES && k + 2 <= |s| && Val(s[..|s| - 1]) == Pow(k) * l
    ensures Pow(|s| - 1) == Pow(k) * (W64 * Pow(|s| - 2 - k)) && Pow(|s| + k) == Pow(k) * Pow(|s| - 1) * W64
    ensures Int(s) == Pow(k) * l - Pow(|s| - 1) && Val(s) == W64 * Pow(|s| - 1) + Int(s)
  {
    LeastInt(s);
    NegativeVal(s);
    hide *;
    PowAdd(k, |s| - 1 - k);
    PowNext(|s| - 2 - k);
    PowAdd(k, |s|);
    PowNext(|s| - 1);
    Commute(W64, Pow(|s| - 1));
    Assoc(Pow(k), Pow(|s| - 1), W64);
  }

  lemma NegativeVal(s: seq<Word>)
    requires Canonical(s) && Top(s) == ONES
    ensures Val(s) == W64 * Pow(|s| - 1) + Int(s) && |s| >= 2
  {
    PowNext(|s| - 1);
    hide Val, Pow;
  }

  // ----------------------------------------------------------------- num_mul

  lemma {:induction false} XorZero(n: nat, a: nat)
    requires a < Pow2(n)
    ensures BitsOf(BitXor, n, a, 0) == a && BitsOf(BitXor, n, 0, a) == a
  {
    if n > 0 { XorZero(n - 1, a / 2); }
  }

  lemma XorSigns(a: Word, b: Word)
    requires (a == 0 || a == ONES) && (b == 0 || b == ONES)
    ensures Bitwise(BitXor, a, b) == if a == b then 0 else ONES
  {
    XorSelf(64, a);
    Pow2At64();
    XorZero(64, a);
    XorZero(64, b);
  }

  lemma SignWords(s: seq<Word>)
    requires Canonical(s)
    ensures |s| >= 2 && Top(s) == s[|s| - 1] && (Top(s) == 0 || Top(s) == ONES)
  {
  }

  ghost predicate Flipped(s: seq<Word>, sgn: Word, t: seq<Word>) { if sgn != 0 then Negated(s, t) else t == s }

  /** The two conditional negations: on one object they undo each other. */
  method FlipSigns(n1: array<Word>, n2: array<Word>, sgn1: Word, sgn2: Word)
    requires n1 == n2 ==> sgn1 == sgn2
    modifies n1, n2
    ensures n1 == n2 ==> n1[..] == old(n1[..])
    ensures n1 != n2 ==> Flipped(old(n1[..]), sgn1, n1[..]) && Flipped(old(n2[..]), sgn2, n2[..])
  {
    ghost var s := n1[..];
    if sgn1 != 0 { Negate(n1); }
    ghost var t := n1[..];
    if sgn2 != 0 { Negate(n2); }
    if n1 == n2 && sgn1 != 0 { NegateTwice(s, t, n1[..]); }
  }

  method FlipSign(n: array<Word>, sgn: Word)
    modifies n
    ensures Flipped(old(n[..]), sgn, n[..])
  {
    if sgn != 0 { Negate(n); }
  }

  lemma FlipTwice(s: seq<Word>, sgn: Word, t: seq<Word>, u: seq<Word>)
    requires Flipped(s, sgn, t) && Flipped(t, sgn, u)
    ensures u == s
  {
    if sgn != 0 { NegateTwice(s, t, u); }
  }

  /** The early test: a two-word operand with an empty lower word gives zero. */
  lemma EarlyZero(t1: seq<Word>, t2: seq<Word>, same: bool)
    requires Canonical(t1) && Canonical(t2) && (same ==> t1 == t2) && |t1| == 2 && t1[0] == 0
    ensures Canonical([0, 0]) && Int([0, 0]) == 0
    ensures Int(t1) * Int(t2) == 0 <==> MultipliableInOrder(t1, t2, same)
  {
    LeastInt(t1);
    LeastInt(t2);
    assert t1[..1] == [0];
    ZeroVal(t1[..1]);
    ZeroVal([0, 0]);
    AbsTimes(Int(t1), Int(t2));
    hide Val, Pow;
  }

  /** The product of magnitudes, signed and stripped, is right exactly when the longer factor is not least, or the product zero. */
  lemma LateProduct(t1: seq<Word>, t2: seq<Word>, x: int)
    requires Canonical(t1) && Canonical(t2) && !(|t1| == 2 && t1[0] == 0)
    requires x == if Least(t2) then 0 else Int(t1) * Int(t2)
    ensures x == Int(t1) * Int(t2) <==> MultipliableInOrder(t1, t2, false)
    ensures MultipliableInOrder(t1, t2, true) <==> Top(t1) == 0 && MultipliableInOrder(t1, t2, false)
  {
    LeastInt(t2);
    AbsTimes(Int(t1), Int(t2));
    hide Val, Int, Pow;
  }

  /** Stripping a signed product. */
  lemma Stripped(u: seq<Word>, last: Word, size: nat)
    requires Canonical(u) && 2 <= size <= |u|
    requires last == Top(u) ==> Canonical(u[..size]) && Int(u[..size]) == Int(u)
    requires last != Top(u) ==> forall j :: 0 <= j < |u| ==> u[j] == 0
    requires size < |u| ==> forall j :: size - 1 <= j < |u| - 1 ==> u[j] == last
    ensures Canonical(u[..size]) && Int(u[..size]) == Int(u)
  {
    hide Int;
    assert u[..|u|] == u;
    assert size < |u| ==> u[size - 1] == last;
  }

  /** r came out of the loops, run on the magnitudes of two numbers or, if they are one object, on its own words. */
  ghost predicate LoopsGave(r: seq<Word>, t1: seq<Word>, t2: seq<Word>, same: bool, a: seq<Word>, b: seq<Word>, e: nat) {
    && |a| >= 2 && |b| >= 2 && |t1| >= 2 && |t2| >= 2 && |r| == |a| + |b| - 1
    && (if same then a == b == t1 == t2 else Flipped(t1, Top(t1), a) && Flipped(t2, Top(t2), b))
    && Val(r) + e * Pow(|a| + LowZeros(b)) == Val(a) * Val(b[..|b| - 1])
    && (Val(a) <= Pow(|a| - 1) ==> e == 0)
  }

  /** The loops between the two changes of sign. */
  method MultiplyMagnitudes(n1: array<Word>, n2: array<Word>, n1_sgn: Word, n2_sgn: Word)
    returns (res: array<Word>, ghost a: seq<Word>, ghost b: seq<Word>, ghost e: nat)
    requires Canonical(n1[..]) && Canonical(n2[..]) && n1_sgn == Top(n1[..]) && n2_sgn == Top(n2[..])
    modifies n1, n2
    ensures n1[..] == old(n1[..]) && n2[..] == old(n2[..]) && fresh(res)
    ensures LoopsGave(res[..], n1[..], n2[..], n1 == n2, a, b, e)
  {
    ghost var t1, t2 := n1[..], n2[..];
    SignWords(t1);
    SignWords(t2);
    hide *;
    FlipSigns(n1, n2, n1_sgn, n2_sgn);
    a, b := n1[..], n2[..];
    res, e := Multiply(n1[..], n2[..], LowZeros(b));
    FlipSigns(n1, n2, n1_sgn, n2_sgn);
    if n1 != n2 {
      FlipTwice(t1, n1_sgn, a, n1[..]);
      FlipTwice(t2, n2_sgn, b, n2[..]);
    }
    LoopsMade(res[..], t1, t2, n1 == n2, a, b, e);
  }

  lemma LoopsMade(r: seq<Word>, t1: seq<Word>, t2: seq<Word>, same: bool, a: seq<Word>, b: seq<Word>, e: nat)
    requires |a| >= 2 && |b| >= 2 && |t1| >= 2 && |t2| >= 2 && |r| == |a| + |b| - 1
    requires if same then a == b == t1 == t2 else Flipped(t1, Top(t1), a) && Flipped(t2, Top(t2), b)
    requires Val(r) + e * Pow(|a| + LowZeros(b)) == Val(a) * Val(b[..|b| - 1])
    requires Val(a) <= Pow(|a| - 1) ==> e == 0
    ensures LoopsGave(r, t1, t2, same, a, b, e)
  {
    hide Val, Pow, LowZeros, Flipped, Top;
  }

  /** The body of num_mul after the swap and the early test. */
  method MultiplySigned(n1: array<Word>, n2: array<Word>) returns (result: seq<Word>)
    requires Canonical(n1[..]) && Canonical(n2[..]) && !(n1.Length == 2 && n1[0] == 0)
    modifies n1, n2
    ensures n1[..] == old(n1[..]) && n2[..] == old(n2[..]) && result != []
    ensures Int(result) == Int(n1[..]) * Int(n2[..]) <==> MultipliableInOrder(n1[..], n2[..], n1 == n2)
    ensures n1 != n2 || Top(n1[..]) == 0 ==> Canonical(result)
    ensures n1 != n2 && !MultipliableInOrder(n1[..], n2[..], false) ==> Int(result) == 0
  {
    hide *;
    SignWords(n1[..]);
    SignWords(n2[..]);
    var n1_sgn, n2_sgn := n1[n1.Length - 1], n2[n2.Length - 1];
    XorSigns(n1_sgn, n2_sgn);
    var res_sgn := Bitwise(BitXor, n1_sgn, n2_sgn);
    var res, a, b, e := MultiplyMagnitudes(n1, n2, n1_sgn, n2_sgn);
    ghost var r := res[..];
    LoopsLength(r, n1[..], n2[..], n1 == n2, a, b, e);
    FlipSign(res, res_sgn);
    ghost var u := res[..];
    var size := Trim(res[..], res_sgn);
    result := res[..size];
    Outcome(n1[..], n2[..], n1 == n2, a, b, e, r, u, res_sgn, size);
  }

  lemma LoopsLength(r: seq<Word>, t1: seq<Word>, t2: seq<Word>, same: bool, a: seq<Word>, b: seq<Word>, e: nat)
    requires LoopsGave(r, t1, t2, same, a, b, e)
    ensures |r| >= 2
  {
  }

  /** What that amounts to. */
  lemma Outcome(t1: seq<Word>, t2: seq<Word>, same: bool, a: seq<Word>, b: seq<Word>, e: nat, r: seq<Word>, u: seq<Word>,
                res_sgn: Word, size: nat)
    requires Canonical(t1) && Canonical(t2) && !(|t1| == 2 && t1[0] == 0) && res_sgn == if Top(t1) == Top(t2) then 0 else ONES
    requires LoopsGave(r, t1, t2, same, a, b, e) && Flipped(r, res_sgn, u) && 2 <= size <= |u|
    requires Canonical(u) && res_sgn == Top(u) ==> Canonical(u[..size]) && Int(u[..size]) == Int(u)
    requires size < |u| ==> forall j :: size - 1 <= j < |u| - 1 ==> u[j] == res_sgn
    ensures Int(u[..size]) == Int(t1) * Int(t2) <==> MultipliableInOrder(t1, t2, same)
    ensures !same || Top(t1) == 0 ==> Canonical(u[..size])
    ensures !same && !MultipliableInOrder(t1, t2, same) ==> Int(u[..size]) == 0
  {
    if same && Top(t1) != 0 {
      SquareMissed(t1, u, e, LowZeros(b), size);
    } else {
      Magnitude(t1, a);
      hide Val, Pow, Int, Least, LowZeros, Negated;
      assert e * Pow(|a| + LowZeros(b)) == 0;
      ProductOf(t1, t2, a, b, r, u);
      hide *;
      Stripped(u, res_sgn, size);
      LateProduct(t1, t2, Int(u));
    }
  }

  /**
   num_mul: both operands come back unchanged, and the result is the product exactly when Multipliable
   says so, whether or not the operands are one object.
   */
  method NumMul(num1: array<Word>, num2: array<Word>) returns (result: seq<Word>)
    requires Canonical(num1[..]) && Canonical(num2[..])
    modifies num1, num2
    ensures num1[..] == old(num1[..]) && num2[..] == old(num2[..]) && result != []
    ensures Int(result) == Int(num1[..]) * Int(num2[..]) <==> Multipliable(num1[..], num2[..], num1 == num2)
    ensures num1 != num2 || Top(num1[..]) == 0 ==> Canonical(result)
    ensures num1 != num2 && !Multipliable(num1[..], num2[..], false) ==> Int(result) == 0
  {
    var n1, n2 := num1, num2;
    if n1.Length > n2.Length { n1, n2 := n2, n1; }
    Commute(Int(n1[..]), Int(n2[..]));
    if n1.Length == 2 && n1[0] == 0 {
      EarlyZero(n1[..], n2[..], n1 == n2);
      hide Int, Top, Least;
      result := [0, 0];
    } else {
      hide Canonical, Int, Top, Least, MultipliableInOrder;
      result := MultiplySigned(n1, n2);
    }
  }

  // ------------------------------------------------------------ where it fails

  /** -2^64 times 1, in either order of the operands: not the product, so by NumMul's contract 0. */
  lemma LeastTimesOne()
    ensures var least, one := [0, ONES], [1, 0];
            && Canonical(least) && Canonical(one) && Int(least) * Int(one) == 0 - W64
            && !Multipliable(least, one, false) && !Multipliable(one, least, false)
  {
    TwoWords(0, ONES);
    TwoWords(1, 0);
    LeastInt([0, ONES]);
  }

  /** -1 times its own object. */
  lemma MinusOneSquared()
    ensures var m := [ONES, ONES]; Canonical(m) && Int(m) * Int(m) == 1 && !Multipliable(m, m, true)
  {
    TwoWords(ONES, ONES);
  }
}
