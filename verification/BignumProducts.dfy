/** num_mul: shift and add, over magnitudes, in a window that moves up the result. */
module BignumProducts {
  import opened Bits
  import opened Words
  import opened WordSeqs
  import opened Bignums

  // -------------------------------------------------------- one shifted word

  /** The bits of w that a shift by nsh moves out. */
  function High(w: Word, nsh: nat): nat
    requires nsh < 64
  {
    Pow2Positive(64 - nsh);
    DivNat(w, Pow2(64 - nsh));
    w / Pow2(64 - nsh)
  }

  /** The word at one place of a number shifted left, as the C code puts it together. */
  function ShiftedWord(prev: Word, curr: Word, nsh: nat): Word
    requires nsh < 64
  {
    Pow2Positive(64 - nsh);
    Bitwise(BitOr, if nsh == 0 then 0 else ToWord(prev / Pow2(64 - nsh)), ToWord(curr * Pow2(nsh)))
  }

  /** Shifting one word left: what stays, and what goes over to the next word. */
  lemma ShiftSplit(curr: Word, nsh: nat)
    requires nsh < 64
    ensures High(curr, nsh) < Pow2(nsh) && Pow2(nsh) > 0
    ensures curr * Pow2(nsh) == ToWord(curr * Pow2(nsh)) + W64 * High(curr, nsh)
    ensures ToWord(curr * Pow2(nsh)) % Pow2(nsh) == 0
  {
    Pow2At64();
    Pow2Add(nsh, 64 - nsh);
    Pow2Positive(nsh);
    Pow2Positive(64 - nsh);
    hide Pow2;
    SplitAt(curr, Pow2(nsh), Pow2(64 - nsh));
  }

  lemma SplitAt(c: Word, p: nat, q: nat)
    requires p > 0 && q > 0 && p * q == W64
    ensures c / q < p && c * p == (c * p) % W64 + W64 * (c / q) && (c * p) % W64 % p == 0
  {
    var h, l := c / q, c % q;
    assert c == q * h + l;
    SplitProduct(c, p, q, h, l);
    DivMod(c * p, W64, h, l * p);
    Commute(l, p);
    MultipleOf(p, l);
  }

  lemma SplitProduct(c: Word, p: nat, q: nat, h: nat, l: nat)
    requires p > 0 && q > 0 && p * q == W64 && c == q * h + l && l < q
    ensures h < p && c * p == W64 * h + l * p && l * p < W64
  {
    if h >= p {
      MulMono(p, h, q);
      Commute(q, h);
      assert false;
    }
    MulMono(l + 1, q, p);
    Commute(p, q);
    SplitTimes(p, q, h, l);
  }

  lemma SplitTimes(p: nat, q: nat, h: nat, l: nat)
    requires p * q == W64
    ensures (q * h + l) * p == W64 * h + l * p
  {
    assert (q * h + l) * p == (q * h) * p + l * p;
    Commute(q * h, p);
    Assoc(p, q, h);
  }

  lemma ShiftedWordIs(prev: Word, curr: Word, nsh: nat)
    requires nsh < 64
    ensures ShiftedWord(prev, curr, nsh) + W64 * High(curr, nsh) == curr * Pow2(nsh) + High(prev, nsh)
  {
    ShiftSplit(curr, nsh);
    ShiftSplit(prev, nsh);
    ShiftedParts(prev, curr, nsh);
    hide *;
    BitwiseOr(High(prev, nsh), ToWord(curr * Pow2(nsh)), nsh);
  }

  lemma ShiftedParts(prev: Word, curr: Word, nsh: nat)
    requires nsh < 64
    ensures High(prev, nsh) < W64
    ensures ShiftedWord(prev, curr, nsh) == Bitwise(BitOr, High(prev, nsh), ToWord(curr * Pow2(nsh)))
  {
    Pow2At64();
    Pow2Positive(64 - nsh);
    hide Pow2, Bitwise;
    if nsh == 0 { DivMod(prev, W64, 0, prev); } else { WordQuotient(prev, Pow2(64 - nsh)); }
    WordQuotient(prev, Pow2(64 - nsh));
  }

  lemma WordQuotient(w: Word, q: nat)
    requires q > 0
    ensures ToWord(w / q) == w / q
  {
    assert w == q * (w / q) + w % q;
    MulMono(1, q, w / q);
    DivMod(w / q, W64, 0, w / q);
  }

  // ----------------------------------------------------- one shifted addition

  /** The bits that the last of the first j words of a shifts out. */
  function Over(a: seq<Word>, j: nat, nsh: nat): nat
    requires j <= |a| && nsh < 64
  {
    if j == 0 then 0 else High(a[j - 1], nsh)
  }

  /** The first j words of a, shifted, have been added to the words of r from i on. */
  ghost predicate Shifting(r: seq<Word>, r0: seq<Word>, a: seq<Word>, i: nat, nsh: nat, j: nat, carry: nat) {
    && nsh < 64 && |r| == |r0| && j <= |a| && i + j <= |r| && carry <= 1 && r[i + j..] == r0[i + j..]
    && Val(r[..i + j]) + (carry + Over(a, j, nsh)) * Pow(i + j) == Val(r0[..i + j]) + Val(a[..j]) * Pow2(nsh) * Pow(i)
  }

  lemma {:induction false} PowAdd(m: nat, n: nat)
    ensures Pow(m + n) == Pow(m) * Pow(n)
  {
    if m > 0 {
      PowAdd(m - 1, n);
      Assoc(W64, Pow(m - 1), Pow(n));
    }
  }

  lemma ShiftingNext(r: seq<Word>, r0: seq<Word>, a: seq<Word>, i: nat, nsh: nat, j: nat, carry: nat, c: nat, w: Word)
    requires Shifting(r, r0, a, i, nsh, j, carry) && j < |a| && i + j < |r|
    requires w + W64 * c == r[i + j] + carry + ShiftedWord(if j == 0 then 0 else a[j - 1], a[j], nsh)
    ensures Shifting(r[i + j := w], r0, a, i, nsh, j + 1, c)
  {
    hide *;
    ShiftingIs(r, r0, a, i, nsh, j, carry);
    var prev: Word := if j == 0 then 0 else a[j - 1];
    var r', k, o, h := r[i + j := w], i + j, Over(a, j, nsh), High(a[j], nsh);
    OverNext(a, j, nsh);
    ShiftingShape(r, r0, k, w);
    ShiftedWordIs(prev, a[j], nsh);
    ShiftingValue(r', r0, a, i, j, w, Pow2(nsh), o, carry, ShiftedWord(prev, a[j], nsh), h, c);
    CarryBit(w, c, r0[k], carry, ShiftedWord(prev, a[j], nsh));
    ShiftingHolds(r', r0, a, i, nsh, j + 1, c);
  }

  lemma ShiftingIs(r: seq<Word>, r0: seq<Word>, a: seq<Word>, i: nat, nsh: nat, j: nat, carry: nat)
    requires Shifting(r, r0, a, i, nsh, j, carry)
    ensures nsh < 64 && |r| == |r0| && j <= |a| && i + j <= |r| && carry <= 1 && r[i + j..] == r0[i + j..]
    ensures Val(r[..i + j]) + (carry + Over(a, j, nsh)) * Pow(i + j) == Val(r0[..i + j]) + Val(a[..j]) * Pow2(nsh) * Pow(i)
  {
  }

  lemma ShiftingHolds(r: seq<Word>, r0: seq<Word>, a: seq<Word>, i: nat, nsh: nat, j: nat, carry: nat)
    requires nsh < 64 && |r| == |r0| && j <= |a| && i + j <= |r| && carry <= 1 && r[i + j..] == r0[i + j..]
    requires Val(r[..i + j]) + (carry + Over(a, j, nsh)) * Pow(i + j) == Val(r0[..i + j]) + Val(a[..j]) * Pow2(nsh) * Pow(i)
    ensures Shifting(r, r0, a, i, nsh, j, carry)
  {
  }

  lemma OverNext(a: seq<Word>, j: nat, nsh: nat)
    requires j < |a| && nsh < 64
    ensures Over(a, j, nsh) == High(if j == 0 then 0 else a[j - 1], nsh) && Over(a, j + 1, nsh) == High(a[j], nsh)
  {
    HighZero(nsh);
    hide High;
  }

  lemma ShiftingShape(r: seq<Word>, r0: seq<Word>, k: nat, w: Word)
    requires k < |r| == |r0| && r[k..] == r0[k..]
    ensures r[k := w][..k] == r[..k] && r[k := w][k + 1..] == r0[k + 1..] && r[k] == r0[k]
  {
    assert r[k] == r[k..][0];
    assert r[k + 1..] == r[k..][1..] == r0[k + 1..];
  }

  lemma ShiftingValue(r: seq<Word>, r0: seq<Word>, a: seq<Word>, i: nat, j: nat, w: Word, t: nat, o: nat, carry: nat,
                      sw: nat, h: nat, c: nat)
    requires j < |a| && i + j < |r| == |r0| && r[i + j] == w
    requires w + W64 * c == r0[i + j] + carry + sw && sw + W64 * h == a[j] * t + o
    requires Val(r[..i + j]) + (carry + o) * Pow(i + j) == Val(r0[..i + j]) + Val(a[..j]) * t * Pow(i)
    ensures Val(r[..i + j + 1]) + (c + h) * Pow(i + j + 1) == Val(r0[..i + j + 1]) + Val(a[..j + 1]) * t * Pow(i)
  {
    PowNext(i + j);
    hide Val, Pow;
    ValNext(r, i + j);
    ValNext(r0, i + j);
    ValNext(a, j);
    PowAdd(i, j);
    ShiftedColumn(w, c, r0[i + j], carry, sw, a[j], o, h, t, Pow(i), Pow(j), Val(a[..j]));
  }

  lemma HighZero(nsh: nat)
    requires nsh < 64
    ensures High(0, nsh) == 0
  {
    Pow2Positive(64 - nsh);
    hide Pow2;
    DivMod(0, Pow2(64 - nsh), 0, 0);
  }

  lemma CarryBit(w: Word, c: nat, x: Word, carry: nat, y: Word)
    requires w + W64 * c == x + carry + y && carry <= 1
    ensures c <= 1
  {
  }

  /** One column of a shifted addition, weighted. */
  lemma ShiftedColumn(w: int, c: int, x: int, carry: int, sw: int, y: int, o: int, h: int, t: int, pi: int, pj: int, v: int)
    requires w + W64 * c == x + carry + sw && sw + W64 * h == y * t + o
    ensures w * (pi * pj) + (c + h) * (W64 * (pi * pj)) == x * (pi * pj) + (carry + o) * (pi * pj) + ((v + y * pj) * t * pi - v * t * pi)
  {
    var p := pi * pj;
    assert w + W64 * (c + h) == x + carry + o + y * t;
    assert (w + W64 * (c + h)) * p == (x + carry + o + y * t) * p;
    assert (v + y * pj) * t == v * t + (y * pj) * t;
    assert (v * t + (y * pj) * t) * pi == v * t * pi + (y * pj) * t * pi;
    assert (y * pj) * t * pi == (y * t) * p by {
      Assoc(y, pj, t); Commute(pj, t); Assoc(y, t, pj); Assoc(y * t, pj, pi); Commute(pj, pi);
    }
  }

  /** What a finished row did to the whole result, d being what ran out of the window. */
  lemma ShiftingDone(r: seq<Word>, r0: seq<Word>, a: seq<Word>, i: nat, nsh: nat, carry: nat) returns (d: nat)
    requires Shifting(r, r0, a, i, nsh, |a|, carry)
    ensures d == carry + Over(a, |a|, nsh)
    ensures Val(r) + d * Pow(i + |a|) == Val(r0) + Val(a) * Pow2(nsh) * Pow(i)
  {
    var k := i + |a|;
    d := carry + Over(a, |a|, nsh);
    assert r[..k] + r[k..] == r && r0[..k] + r0[k..] == r0 && a[..|a|] == a;
    hide Val, Pow, Pow2, Over;
    ValConcat(r[..k], r[k..]);
    ValConcat(r0[..k], r0[k..]);
  }

  lemma ShiftingStart(r: seq<Word>, a: seq<Word>, i: nat, nsh: nat)
    requires nsh < 64 && i <= |r|
    ensures Shifting(r, r, a, i, nsh, 0, 0)
  {
    assert a[..0] == [];
    hide Pow, Pow2;
  }

  lemma ShiftingCarry(r: seq<Word>, r0: seq<Word>, a: seq<Word>, i: nat, nsh: nat, j: nat, carry: nat)
    requires Shifting(r, r0, a, i, nsh, j, carry)
    ensures carry <= 1 && |r| == |r0|
  {
  }

  /** The inner loop of num_mul: a shifted left by nsh bits is added to the words of result from i on. */
  method AddShifted(result: array<Word>, a: seq<Word>, i: nat, nsh: nat) returns (ghost d: nat)
    requires nsh < 64 && i + |a| <= result.Length
    modifies result
    ensures Val(result[..]) + d * Pow(i + |a|) == old(Val(result[..])) + Val(a) * Pow2(nsh) * Pow(i)
  {
    ghost var r0 := result[..];
    var carry := 0;
    var prev: Word := 0;
    ShiftingStart(r0, a, i, nsh);
    hide *;
    for j := 0 to |a|
      invariant Shifting(result[..], r0, a, i, nsh, j, carry) && prev == if j == 0 then 0 else a[j - 1]
    {
      ghost var r := result[..];
      ShiftingCarry(r, r0, a, i, nsh, j, carry);
      var c1, x := Adc(result[i + j], carry);
      var c2, w := Adc(x, ShiftedWord(prev, a[j], nsh));
      ShiftingNext(r, r0, a, i, nsh, j, carry, c1 + c2, w);
      result[i + j] := w;
      assert result[..] == r[i + j := w];
      carry := c1 + c2;
      prev := a[j];
    }
    d := ShiftingDone(result[..], r0, a, i, nsh, carry);
  }

  // ------------------------------------------------------------- the product

  /** Rows 0 to i - 1 and the multiple q of row i have been added; e is what ran out of a window, in units from word k on. */
  ghost predicate Multiplied(r: seq<Word>, a: seq<Word>, b: seq<Word>, k: nat, i: nat, q: nat, e: nat) {
    && i < |b| && q <= b[i] && (forall j :: 0 <= j < k && j < |b| ==> b[j] == 0)
    && Val(r) + e * Pow(|a| + k) == Val(a) * (Val(b[..i]) + q * Pow(i))
    && (a != [] && Val(a) <= Pow(|a| - 1) ==> e == 0)
  }

  /** A magnitude of |a| - 1 words never runs out of the window. */
  lemma WindowHolds(v: nat, y: nat, t: nat, z: nat, p: nat, pi: nat, x: nat, x': nat, d: nat)
    requires v <= p && z < pi && y + t < W64 && p > 0
    requires x' + d * (p * (W64 * pi)) == x + v * t * pi && x == v * (z + y * pi)
    ensures d == 0
  {
    RowSum(v, y, t, z, pi);
    RowFits(y + t, z, pi);
    NoneLost(v, z + (y + t) * pi, p, W64 * pi, x', d);
  }

  lemma RowFits(y: nat, z: nat, pi: nat)
    requires y < W64 && z < pi
    ensures 0 <= z + y * pi < W64 * pi
  {
    MulMono(y + 1, W64, pi);
    MulMono(0, y, pi);
  }

  lemma NoneLost(v: nat, w: nat, p: nat, c: nat, x': nat, d: nat)
    requires v <= p && w < c && p > 0 && x' + d * (p * c) == v * w
    ensures d == 0
  {
    LessProduct(v, w, p, c);
    if d > 0 { MulMono(1, d, p * c); }
  }

  lemma RowSum(v: nat, y: nat, t: nat, z: nat, pi: nat)
    ensures v * (z + y * pi) + v * t * pi == v * (z + (y + t) * pi)
  {
    Assoc(v, t, pi);
    assert (y + t) * pi == y * pi + t * pi;
    Distribute(v, z + (y + t) * pi, t * pi);
  }

  lemma LessProduct(v: nat, w: nat, p: nat, c: nat)
    requires v <= p && w < c && p > 0
    ensures v * w < p * c
  {
    MulMono(v, p, w);
    MulMono(w + 1, c, p);
    Commute(p, w);
    Commute(p, c);
  }

  lemma MultipliedNext(r: seq<Word>, r': seq<Word>, a: seq<Word>, b: seq<Word>, k: nat, i: nat, q: nat, e: nat, nsh: nat, d: nat)
    requires Multiplied(r, a, b, k, i, q, e) && a != [] && q + Pow2(nsh) <= b[i] && nsh < 64
    requires Val(r') + d * Pow(i + |a|) == Val(r) + Val(a) * Pow2(nsh) * Pow(i)
    ensures i >= k && Multiplied(r', a, b, k, i, q + Pow2(nsh), e + d * Pow(i - k))
  {
    Pow2Positive(nsh);
    NothingLost(Val(r), Val(r'), a, b, i, q, nsh, d);
    PowAdd(|a| + k, i - k);
    hide Val, Pow, Pow2;
    LostRow(Val(r), Val(r'), e, d, Pow(|a| + k), Pow(i - k), Val(a), Val(b[..i]), q, Pow2(nsh), Pow(i));
  }

  lemma NothingLost(x: nat, x': nat, a: seq<Word>, b: seq<Word>, i: nat, q: nat, nsh: nat, d: nat)
    requires a != [] && i < |b| && q + Pow2(nsh) <= b[i]
    requires x' + d * Pow(i + |a|) == x + Val(a) * Pow2(nsh) * Pow(i)
    ensures Val(a) <= Pow(|a| - 1) && x == Val(a) * (Val(b[..i]) + q * Pow(i)) ==> d == 0
  {
    ValBound(b[..i]);
    PowNext(i);
    PowAdd(|a| - 1, i + 1);
    hide Val, Pow, Pow2;
    if Val(a) <= Pow(|a| - 1) && x == Val(a) * (Val(b[..i]) + q * Pow(i)) {
      WindowHolds(Val(a), q, Pow2(nsh), Val(b[..i]), Pow(|a| - 1), Pow(i), x, x', d);
    }
  }

  lemma LostRow(x: int, x': int, e: int, d: int, m: int, u: int, v: int, z: int, q: int, t: int, p: int)
    requires x + e * m == v * (z + q * p) && x' + d * (m * u) == x + v * t * p
    ensures x' + (e + d * u) * m == v * (z + (q + t) * p)
  {
    assert (e + d * u) * m == e * m + d * (m * u) by { Assoc(d, u, m); Commute(u, m); }
    Assoc(v, t, p);
    assert v * (z + q * p) + v * (t * p) == v * (z + q * p + t * p);
    assert (q + t) * p == q * p + t * p;
  }

  lemma MultipliedRow(r: seq<Word>, a: seq<Word>, b: seq<Word>, k: nat, i: nat, e: nat)
    requires i + 1 < |b| && Multiplied(r, a, b, k, i, b[i], e)
    ensures Multiplied(r, a, b, k, i + 1, 0, e)
  {
    hide Val, Pow;
    ValNext(b, i);
  }

  lemma ShiftBound(w: nat, nsh: nat)
    requires w > 0 && w * Pow2(nsh) < W64
    ensures nsh < 64
  {
    Pow2At64();
    if nsh >= 64 {
      Pow2Add(64, nsh - 64);
      Pow2Positive(nsh - 64);
      hide Pow2;
      MulMono(1, Pow2(nsh - 64), W64);
      Commute(W64, Pow2(nsh - 64));
      MulMono(1, w, Pow2(nsh));
      assert false;
    }
  }

  lemma RowStart(w: Word)
    ensures 0 + w * Pow2(0) == w
  {
    assert Pow2(0) == 1;
  }

  lemma RowDone(w: nat, nsh: nat)
    ensures w == 0 ==> w * Pow2(nsh) == 0
  {
  }

  lemma ShiftWithin(w: nat, nsh: nat, q: nat, b: Word)
    requires w > 0 && q + w * Pow2(nsh) == b
    ensures nsh < 64 && 0 <= w / 2 < w && (w % 2 == 1 ==> q + Pow2(nsh) <= b)
  {
    ShiftBound(w, nsh);
    hide Pow2;
    MulMono(1, w, Pow2(nsh));
  }

  lemma HalfStep(w: nat, nsh: nat)
    ensures w * Pow2(nsh) == (w / 2) * Pow2(nsh + 1) + if w % 2 == 1 then Pow2(nsh) else 0
  {
    var h, p := w / 2, Pow2(nsh);
    assert w == 2 * h + w % 2;
    assert Pow2(nsh + 1) == 2 * p;
    hide Pow2;
    assert (2 * h + w % 2) * p == 2 * h * p + (w % 2) * p;
  }

  lemma MultipliedStart(r: seq<Word>, a: seq<Word>, b: seq<Word>, k: nat)
    requires b != [] && Val(r) == 0 && forall j :: 0 <= j < k && j < |b| ==> b[j] == 0
    ensures Multiplied(r, a, b, k, 0, 0, 0)
  {
  }

  lemma {:induction false} ZeroVal(s: seq<Word>)
    ensures Val(s) == 0 <==> forall j :: 0 <= j < |s| ==> s[j] == 0
    decreases |s|
  {
    if s != [] {
      ZeroVal(s[1..]);
      assert forall j :: 0 <= j < |s| ==> s[j] == if j == 0 then s[0] else s[1..][j - 1];
      if Val(s) == 0 { assert s[0] == 0 && Val(s[1..]) == 0; }
    }
  }

  /** One row: a is added once for every bit of b[i], shifted to its place. */
  method AddRow(result: array<Word>, a: seq<Word>, b: seq<Word>, ghost k: nat, i: nat, ghost e: nat) returns (ghost e': nat)
    requires a != [] && i + 1 < |b| && i + |a| <= result.Length && Multiplied(result[..], a, b, k, i, 0, e)
    modifies result
    ensures Multiplied(result[..], a, b, k, i + 1, 0, e')
  {
    hide *;
    RowStart(b[i]);
    var n2_i: nat := b[i];
    var nsh := 0;
    ghost var q: nat := 0;
    e' := e;
    while n2_i != 0
      invariant q + n2_i * Pow2(nsh) == b[i] && Multiplied(result[..], a, b, k, i, q, e')
      decreases n2_i
    {
      HalfStep(n2_i, nsh);
      ShiftWithin(n2_i, nsh, q, b[i]);
      if n2_i % 2 == 1 {
        ghost var r := result[..];
        ghost var d := AddShifted(result, a, i, nsh);
        MultipliedNext(r, result[..], a, b, k, i, q, e', nsh, d);
        e', q := e' + d * Pow(i - k), q + Pow2(nsh);
      }
      nsh := nsh + 1;
      n2_i := n2_i / 2;
    }
    RowDone(n2_i, nsh);
    MultipliedRow(result[..], a, b, k, i, e');
  }

  /** What the three loops of num_mul leave: the product, less whatever ran out of a window. */
  method Multiply(a: seq<Word>, b: seq<Word>, ghost k: nat) returns (result: array<Word>, ghost e: nat)
    requires |a| >= 2 && |b| >= 2 && forall j :: 0 <= j < k && j < |b| ==> b[j] == 0
    ensures fresh(result) && result.Length == |a| + |b| - 1
    ensures Val(result[..]) + e * Pow(|a| + k) == Val(a) * Val(b[..|b| - 1])
    ensures Val(a) <= Pow(|a| - 1) ==> e == 0
  {
    result := new Word[|a| + |b| - 1](_ => 0);
    e := 0;
    ZeroVal(result[..]);
    hide *;
    MultipliedStart(result[..], a, b, k);
    for i := 0 to |b| - 1
      invariant Multiplied(result[..], a, b, k, i, 0, e)
    {
      e := AddRow(result, a, b, k, i, e);
    }
    MultipliedEnd(result[..], a, b, k, e);
  }

  lemma MultipliedEnd(r: seq<Word>, a: seq<Word>, b: seq<Word>, k: nat, e: nat)
    requires a != [] && b != [] && Multiplied(r, a, b, k, |b| - 1, 0, e)
    ensures Val(r) + e * Pow(|a| + k) == Val(a) * Val(b[..|b| - 1])
    ensures Val(a) <= Pow(|a| - 1) ==> e == 0
  {
  }

  // ------------------------------------------------------------------- signs

  /** The most negative number of its size: its magnitude reaches into the sign word. */
  predicate Least(s: seq<Word>)
    requires Canonical(s)
  {
    Top(s) == ONES && forall j :: 0 <= j < |s| - 1 ==> s[j] == 0
  }

  lemma LeastInt(s: seq<Word>)
    requires Canonical(s)
    ensures Least(s) <==> Int(s) == 0 - Pow(|s| - 1)
    ensures Int(s) == if Top(s) == 0 then Val(s[..|s| - 1]) else Val(s[..|s| - 1]) - Pow(|s| - 1)
    ensures Val(s[..|s| - 1]) < Pow(|s| - 1)
    ensures Top(s) == 0 ==> Val(s) == Val(s[..|s| - 1])
  {
    TopSplit(s);
    ZeroVal(s[..|s| - 1]);
    hide Val, Pow;
    SignWord(Top(s), Pow(|s| - 1));
  }

  /** t holds the magnitude of s. */
  ghost predicate IsMagnitude(s: seq<Word>, t: seq<Word>)
    requires s != []
  {
    if Top(s) == 0 then t == s else Negated(s, t)
  }

  lemma Magnitude(s: seq<Word>, t: seq<Word>)
    requires Canonical(s) && IsMagnitude(s, t)
    ensures |t| == |s| && Val(t) == Abs(Int(s)) <= Pow(|s| - 1)
    ensures Val(t[..|s| - 1]) == if Least(s) then 0 else Val(t)
  {
    hide Val, Pow, Least, Int, Top, IsMagnitude;
    LeastInt(s);
    MagnitudeVal(s, t);
    TopSplit(t);
    LowPart(Val(t[..|s| - 1]), Top(t), Pow(|s| - 1));
  }

  lemma MagnitudeVal(s: seq<Word>, t: seq<Word>)
    requires Canonical(s) && IsMagnitude(s, t)
    ensures |t| == |s| && Val(t) == Abs(Int(s))
    ensures Top(s) == 0 <==> Int(s) >= 0
  {
    CanonicalRange(s);
    ValBound(s);
    hide Val, Pow;
    if Top(s) != 0 { assert Val(s) == Pow(|s|) + Int(s); }
  }

  lemma LowPart(l: nat, t: nat, p: nat)
    requires l < p
    ensures l + t * p < p ==> t == 0
    ensures l + t * p == p ==> l == 0
  {
    if t >= 1 { MulMono(1, t, p); }
  }

  /** A product below the sign word, with the sign put back. */
  lemma SignedResult(r: seq<Word>, u: seq<Word>, negative: bool)
    requires |r| >= 2 && Val(r) < Pow(|r| - 1)
    requires if negative then Negated(r, u) else u == r
    ensures Canonical(u) && Int(u) == if negative then 0 - Val(r) else Val(r)
    ensures Top(u) == if negative && Val(r) > 0 then ONES else 0
    ensures Val(r) == 0 ==> forall j :: 0 <= j < |u| ==> u[j] == 0
  {
    TopSplit(r);
    LowPart(Val(r[..|r| - 1]), Top(r), Pow(|r| - 1));
    ZeroVal(u);
    TopSplit(u);
    CanonicalRange(r);
    CanonicalRange(u);
    if negative { NegatedInt(r, u); }
    hide Val, Pow;
  }
}
