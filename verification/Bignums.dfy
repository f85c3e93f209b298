/** The arbitrary-size integers of datastructures.c: words in two's complement with a sign word on top. */
module Bignums {
  import opened Bits
  import opened Words
  import opened WordSeqs

  // -------------------------------------------------------------- one word

  /** adc: the sum modulo 2^64, and the carry, computed from the three sign bits. */
  method Adc(x: Word, y: Word) returns (carry: nat, result: Word)
    ensures carry <= 1 && result + W64 * carry == x + y
  {
    result := Add(x, y);
    var z := (x % W63 + y % W63) / W63;
    var sx, sy := x / W63, y / W63;
    carry := if (sx == 1 && sy == 1) || (sx == 1 && z == 1) || (sy == 1 && z == 1) then 1 else 0;
    HalfSplit(x);
    HalfSplit(y);
    WrappedSum(x, y);
  }

  lemma HalfSplit(x: Word)
    ensures x / W63 == (if x >= W63 then 1 else 0) && x % W63 == if x >= W63 then x - W63 else x
  {
  }

  lemma WrappedSum(x: Word, y: Word)
    ensures Add(x, y) == if x + y >= W64 then x + y - W64 else x + y
  {
  }

  // -------------------------------------------------------------- negation

  /** t holds the two's complement of s. */
  ghost predicate Negated(s: seq<Word>, t: seq<Word>) {
    |t| == |s| && Val(t) == if Val(s) == 0 then 0 else Pow(|s|) - Val(s)
  }

  /** Negating twice gives the same words back, at every size. */
  lemma NegateTwice(s: seq<Word>, t: seq<Word>, u: seq<Word>)
    requires Negated(s, t) && Negated(t, u)
    ensures u == s
  {
    ValBound(s);
    ValBound(t);
    ValInjective(u, s);
  }

  /** Where the value fits, it changes its sign. */
  lemma NegatedInt(s: seq<Word>, t: seq<Word>)
    requires Bounded(s) && Negated(s, t)
    ensures Bounded(t) && Int(t) == 0 - Int(s)
  {
    TopSplit(s);
    ValBound(s);
    TopHalf(s);
    var p, q := Pow(|s|), Pow(|s| - 1);
    hide Pow, Val;
    if Val(s) == 0 {
      IntIs(t, 0, 0);
    } else if Top(s) >= W63 {
      IntIs(t, 0 - Int(s), 0);
    } else {
      IntIs(t, 0 - Int(s), 1);
    }
  }

  lemma CanonicalBounded(s: seq<Word>)
    requires Canonical(s)
    ensures Bounded(s)
  {
    CanonicalRange(s);
  }

  /** The first i words have been negated, with a carry still to add. */
  ghost predicate Negating(n: seq<Word>, s: seq<Word>, i: nat, carry: nat) {
    && |n| == |s| && i <= |s| && carry <= 1 && n[i..] == s[i..]
    && Val(n[..i]) + Val(s[..i]) + carry * Pow(i) == Pow(i)
  }

  lemma NegatingNext(n: seq<Word>, s: seq<Word>, i: nat, carry: nat, c: nat, r: Word)
    requires Negating(n, s, i, carry) && i < |s| && c <= 1
    requires r + W64 * c == Complement(n[i]) + carry
    ensures Negating(n[i := r], s, i + 1, c)
  {
    var m := n[i := r];
    assert n[i] == n[i..][0] == s[i];
    assert m[..i] == n[..i] && m[i + 1..] == n[i..][1..] == s[i + 1..];
    ValNext(m, i);
    ValNext(s, i);
    var p, y := Pow(i), s[i];
    assert Pow(i + 1) == W64 * p;
    hide Pow, Val;
    Weigh(r, y, c, carry, p);
    OnesTimes(p);
  }

  /** One column of a negation, weighted. */
  lemma Weigh(x: int, y: int, c: int, carry: int, p: int)
    requires x + W64 * c == (ONES - y) + carry
    ensures x * p + y * p + c * (W64 * p) == ONES * p + carry * p
  {
    assert (x + y + W64 * c) * p == (ONES + carry) * p;
  }

  lemma NegatingDone(n: seq<Word>, s: seq<Word>, carry: nat)
    requires Negating(n, s, |s|, carry)
    ensures Negated(s, n)
  {
    assert n[..|s|] == n && s[..|s|] == s;
    ValBound(n);
    ValBound(s);
    hide Pow, Val;
    if carry == 1 { assert carry * Pow(|s|) == Pow(|s|); }
  }

  /** num_negate, in place. */
  method Negate(n: array<Word>)
    modifies n
    ensures Negated(old(n[..]), n[..])
  {
    ghost var s := n[..];
    var carry := 1;
    assert Negating(n[..], s, 0, 1);
    for i := 0 to n.Length
      invariant Negating(n[..], s, i, carry)
    {
      hide Negating;
      ghost var m := n[..];
      var c, r := Adc(Complement(n[i]), carry);
      NegatingCarry(m, s, i, carry);
      NegatingNext(m, s, i, carry, c, r);
      n[i] := r;
      assert n[..] == m[i := r];
      carry := c;
    }
    NegatingDone(n[..], s, carry);
  }

  lemma NegatingCarry(n: seq<Word>, s: seq<Word>, i: nat, carry: nat)
    requires Negating(n, s, i, carry)
    ensures carry <= 1 && |n| == |s|
  {
  }

  // -------------------------------------------------------------- addition

  function Negative(s: seq<Word>): bool
    requires s != []
  {
    Top(s) >= W63
  }

  /** The word that a number is padded with on top. */
  function Padding(s: seq<Word>): Word
    requires s != []
  {
    if Negative(s) then ONES else 0
  }

  function Extend(s: seq<Word>, n: nat): seq<Word>
    requires s != [] && n >= |s|
    decreases n
  {
    if n == |s| then s else Extend(s, n - 1) + [Padding(s)]
  }

  lemma {:induction false} ExtendVal(s: seq<Word>, n: nat)
    requires s != [] && n >= |s|
    ensures |Extend(s, n)| == n && Extend(s, n)[..|s|] == s
    ensures forall i :: |s| <= i < n ==> Extend(s, n)[i] == Padding(s)
    ensures Val(Extend(s, n)) == Int(s) + if Negative(s) then Pow(n) else 0
    decreases n
  {
    if n > |s| {
      ExtendVal(s, n - 1);
      ValAppend(Extend(s, n - 1), Padding(s));
      assert Pow(n) == W64 * Pow(n - 1);
      hide Pow, Val, Int;
      SignWord(Padding(s), Pow(n - 1));
    }
  }

  /** The first i columns of a sum. */
  ghost predicate Adding(r: seq<Word>, a: seq<Word>, b: seq<Word>, i: nat, carry: nat) {
    |r| == |a| == |b| && i <= |a| && carry <= 1 && Val(r[..i]) + carry * Pow(i) == Val(a[..i]) + Val(b[..i])
  }

  lemma AddingNext(r: seq<Word>, a: seq<Word>, b: seq<Word>, i: nat, carry: nat, c: nat, w: Word)
    requires Adding(r, a, b, i, carry) && i < |a| && w + W64 * c == a[i] + carry + b[i]
    ensures c <= 1 && Adding(r[i := w], a, b, i + 1, c)
  {
    var r' := r[i := w];
    assert r'[..i] == r[..i];
    ValNext(r', i);
    ValNext(a, i);
    ValNext(b, i);
    var p := Pow(i);
    assert Pow(i + 1) == W64 * p;
    hide Pow, Val;
    WeighSum(w, c, a[i], b[i], carry, p);
  }

  lemma AddingCarry(r: seq<Word>, a: seq<Word>, b: seq<Word>, i: nat, carry: nat)
    requires Adding(r, a, b, i, carry)
    ensures carry <= 1 && |r| == |a| == |b|
  {
  }

  lemma WeighSum(w: int, c: int, x: int, y: int, carry: int, p: int)
    requires w + W64 * c == x + carry + y
    ensures w * p + c * (W64 * p) == x * p + y * p + carry * p
  {
    assert (w + W64 * c) * p == (x + carry + y) * p;
  }

  lemma {:induction false} PowMono(m: nat, n: nat)
    requires m <= n
    ensures Pow(m) <= Pow(n)
    decreases n
  {
    if m < n { PowMono(m, n - 1); }
  }

  /** The columns add up to the sum, before the sign word is seen to. */
  lemma SumIs(r: seq<Word>, n1: seq<Word>, n2: seq<Word>, carry: nat)
    requires Bounded(n1) && Bounded(n2) && |n1| >= |n2| && Adding(r, n1, Extend(n2, |n1|), |n1|, carry)
    ensures Int(r) == Int(n1) + Int(n2)
  {
    var n := |n1|;
    var k := (if Negative(n1) then 1 else 0) + (if Negative(n2) then 1 else 0) - carry;
    SumCongruent(r, n1, n2, carry, k);
    BoundedHalf(n1, n);
    BoundedHalf(n2, n);
    hide *;
    IntIs(r, Int(n1) + Int(n2), k);
  }

  lemma SumCongruent(r: seq<Word>, n1: seq<Word>, n2: seq<Word>, carry: nat, k: int)
    requires n1 != [] && n2 != [] && |n1| >= |n2| && Adding(r, n1, Extend(n2, |n1|), |n1|, carry)
    requires k == (if Negative(n1) then 1 else 0) + (if Negative(n2) then 1 else 0) - carry
    ensures |r| == |n1| && Val(r) == Int(n1) + Int(n2) + k * Pow(|n1|)
  {
    var n, e := |n1|, Extend(n2, |n1|);
    ExtendVal(n2, n);
    assert r[..n] == r && n1[..n] == n1 && e[..n] == e;
    hide Pow, Val, Extend;
    SignTimes(Negative(n1), Negative(n2), carry, k, Pow(n));
  }

  lemma BoundedHalf(s: seq<Word>, n: nat)
    requires Bounded(s) && |s| <= n
    ensures 0 - Pow(n) <= 4 * Int(s) < Pow(n)
  {
    PowMono(|s| - 1, n - 1);
    assert Pow(n) == W64 * Pow(n - 1);
    hide Pow, Int;
  }

  lemma SignTimes(a: bool, b: bool, carry: int, k: int, p: int)
    requires k == (if a then 1 else 0) + (if b then 1 else 0) - carry
    ensures k * p == (if a then p else 0) + (if b then p else 0) - carry * p
  {
  }

  /** The sum with the sign word it needs. */
  lemma SumSigned(r: seq<Word>, n1: seq<Word>, n2: seq<Word>)
    requires Bounded(n1) && Bounded(n2) && |r| == |n1| >= |n2| && Int(r) == Int(n1) + Int(n2)
    ensures Negative(n1) && Negative(n2) && Top(r) != ONES ==> Canonical(r + [ONES]) && Int(r + [ONES]) == Int(r)
    ensures !Negative(n1) && !Negative(n2) && Top(r) != 0 ==> Canonical(r + [0]) && Int(r + [0]) == Int(r)
    ensures !(Negative(n1) && Negative(n2) && Top(r) != ONES) && !(!Negative(n1) && !Negative(n2) && Top(r) != 0) ==> Canonical(r)
  {
    CanonicalRange(r);
    CanonicalRange(n1);
    CanonicalRange(n2);
    PowMono(|n2| - 1, |n1| - 1);
    AddSign(r, 0);
    AddSign(r, ONES);
    hide Pow, Val;
  }

  /** The loop that drops words equal to last from the top, down to two words. */
  method Trim(r: seq<Word>, last: Word) returns (size: nat)
    requires |r| >= 2
    ensures 2 <= size <= |r|
    ensures Canonical(r) && last == Top(r) ==> Canonical(r[..size]) && Int(r[..size]) == Int(r)
    ensures size == 2 || r[size - 2] != last
    ensures size < |r| ==> forall j :: size - 1 <= j < |r| - 1 ==> r[j] == last
  {
    size := |r|;
    assert r[..size] == r;
    var i := |r| - 1;
    while i > 1 && r[i - 1] == last
      invariant 1 <= i && size == i + 1 <= |r|
      invariant Canonical(r) && last == Top(r) ==> Canonical(r[..size]) && Int(r[..size]) == Int(r) && r[i] == last
      invariant size < |r| ==> forall j :: size - 1 <= j < |r| - 1 ==> r[j] == last
    {
      if Canonical(r) && last == Top(r) {
        assert r[..size][..size - 1] == r[..size - 1];
        DropSign(r[..size]);
      }
      size := size - 1;
      i := i - 1;
    }
  }

  /** The two column loops of num_add: the second number is padded with its sign. */
  method AddColumns(n1: seq<Word>, n2: seq<Word>) returns (r: seq<Word>)
    requires Bounded(n1) && Bounded(n2) && |n1| >= |n2|
    ensures |r| == |n1| && Int(r) == Int(n1) + Int(n2)
  {
    r := seq(|n1|, _ => 0);
    ghost var e := Extend(n2, |n1|);
    ExtendVal(n2, |n1|);
    var carry := 0;
    var padding: Word := if Top(n2) >= W63 then ONES else 0;
    for i := 0 to |n1|
      invariant Adding(r, n1, e, i, carry)
    {
      AddingCarry(r, n1, e, i, carry);
      hide Adding, Extend, Pow, Val, Int;
      var y := if i < |n2| then n2[i] else padding;
      assert e[i] == y by { if i < |n2| { assert e[..|n2|][i] == n2[i]; } }
      var c1, x := Adc(n1[i], carry);
      var c2, w := Adc(x, y);
      AddingNext(r, n1, e, i, carry, c1 + c2, w);
      r := r[i := w];
      carry := c1 + c2;
    }
    SumIs(r, n1, n2, carry);
    AddingCarry(r, n1, e, |n1|, carry);
  }

  /** num_add: the sum of two numbers of any lengths, with a sign word and no word to spare. */
  method NumAdd(num1: seq<Word>, num2: seq<Word>) returns (result: seq<Word>)
    requires Bounded(num1) && Bounded(num2)
    ensures Canonical(result) && Int(result) == Int(num1) + Int(num2)
    ensures |result| == 2 || result[|result| - 2] != Top(result)
  {
    var n1, n2 := num1, num2;
    if |n1| < |n2| { n1, n2 := n2, n1; }
    var r := AddColumns(n1, n2);
    SumSigned(r, n1, n2);
    hide Int, Pow, Val, Bounded;
    if Top(n1) >= W63 && Top(n2) >= W63 && Top(r) != ONES {
      return r + [ONES];
    } else if Top(n1) < W63 && Top(n2) < W63 && Top(r) != 0 {
      return r + [0];
    } else {
      var size := Trim(r, Top(r));
      return r[..size];
    }
  }

  // ------------------------------------------------------------ comparison

  lemma SignOf(s: seq<Word>)
    requires Canonical(s)
    ensures |s| > 0 && (s[|s| - 1] != 0 <==> Int(s) < 0)
  {
    CanonicalRange(s);
    hide Int;
  }

  /** When num_le is right: two objects, or one that is not positive. */
  predicate Comparable(num1: seq<Word>, same: bool)
    requires num1 != []
  {
    same ==> Int(num1) <= 0
  }

  lemma ComparableIs(num1: seq<Word>, same: bool)
    requires num1 != []
    ensures Comparable(num1, same) <==> (same ==> Int(num1) <= 0)
  {
  }

  /** A positive number compared with its own object comes out below itself. */
  lemma OneBelowItself()
    ensures Canonical([1, 0]) && Int([1, 0]) == 1 && !Comparable([1, 0], true)
  {
    var s := [1, 0];
    assert s[1..] == [0] && [0][1..] == [] && Val([0]) == 0;
  }

  /**
   num_le: it negates num2 in place and back, and is non-zero exactly when num1 < num2 if and only if they are
   Comparable. A number compared with its own object is negated on both sides.
   */
  method NumLe(num1: array<Word>, num2: array<Word>) returns (r: Word)
    requires Canonical(num1[..]) && Canonical(num2[..])
    modifies num2
    ensures num1[..] == old(num1[..]) && num2[..] == old(num2[..])
    ensures num1 != num2 ==> (r != 0 <==> Int(num1[..]) < Int(num2[..]))
    ensures num1 == num2 ==> (r != 0 <==> Int(num1[..]) > 0)
    ensures (r != 0 <==> Int(num1[..]) < Int(num2[..])) <==> Comparable(num1[..], num1 == num2)
  {
    ComparableIs(num1[..], num1 == num2);
    hide *;
    ghost var s1, s2 := num1[..], num2[..];
    Negate(num2);
    ghost var t := num2[..];
    CanonicalBounded(s1);
    CanonicalBounded(s2);
    NegatedInt(s2, t);
    var num3 := NumAdd(num1[..], num2[..]);
    Negate(num2);
    NegateTwice(s2, t, num2[..]);
    SignOf(num3);
    r := num3[|num3| - 1];
  }
}
