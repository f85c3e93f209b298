/** Little-endian sequences of words as natural numbers and as two's-complement integers. */
module WordSeqs {
  import opened Bits
  import opened Words

  /** 2^64 to the n. */
  function Pow(n: nat): (p: nat)
    ensures p > 0
  {
    if n == 0 then 1 else W64 * Pow(n - 1)
  }

  function Val(s: seq<Word>): nat { if s == [] then 0 else s[0] + W64 * Val(s[1..]) }

  lemma {:induction false} ValConcat(a: seq<Word>, b: seq<Word>)
    ensures Val(a + b) == Val(a) + Pow(|a|) * Val(b)
    decreases |a|
  {
    if a == [] {
      assert a + b == b;
    } else {
      ValConcat(a[1..], b);
      assert (a + b)[1..] == a[1..] + b;
      Assoc(W64, Pow(|a| - 1), Val(b));
    }
  }

  lemma ValAppend(s: seq<Word>, x: Word)
    ensures Val(s + [x]) == Val(s) + x * Pow(|s|)
  {
    ValConcat(s, [x]);
    assert Val([x]) == x + W64 * Val([]);
    hide Val, Pow;
    Commute(Pow(|s|), x);
  }

  lemma ValNext(s: seq<Word>, i: nat)
    requires i < |s|
    ensures Val(s[..i + 1]) == Val(s[..i]) + s[i] * Pow(i)
  {
    assert s[..i + 1] == s[..i] + [s[i]];
    ValAppend(s[..i], s[i]);
  }

  lemma {:induction false} ValBound(s: seq<Word>)
    ensures Val(s) < Pow(|s|)
    decreases |s|
  {
    if s != [] {
      ValBound(s[1..]);
      MulMono(Val(s[1..]) + 1, Pow(|s| - 1), W64);
    }
  }

  lemma {:induction false} ValInjective(s: seq<Word>, t: seq<Word>)
    requires |s| == |t| && Val(s) == Val(t)
    ensures s == t
    decreases |s|
  {
    if s != [] {
      LowWord(s[0], Val(s[1..]), t[0], Val(t[1..]));
      ValInjective(s[1..], t[1..]);
      assert s == [s[0]] + s[1..] && t == [t[0]] + t[1..];
    }
  }

  lemma LowWord(x: Word, m: nat, y: Word, n: nat)
    requires x + W64 * m == y + W64 * n
    ensures x == y && m == n
  {
    DivMod(x + W64 * m, W64, m, x);
    DivMod(y + W64 * n, W64, n, y);
  }

  // ----------------------------------------------------- signed numbers

  /** The sign word of a number. */
  function Top(s: seq<Word>): Word
    requires s != []
  {
    s[|s| - 1]
  }

  /** The two's-complement value of all the words. */
  function Int(s: seq<Word>): int
    requires s != []
  {
    if Top(s) >= W63 then Val(s) - Pow(|s|) else Val(s)
  }

  const ONES: Word := 0xffff_ffff_ffff_ffff

  /** At least two words, the last one a sign word. */
  predicate Canonical(s: seq<Word>) { |s| >= 2 && (Top(s) == 0 || Top(s) == ONES) }

  /** The value and its negation fit below the sign word, but for one power of 2^64. */
  predicate Bounded(s: seq<Word>) { |s| >= 2 && 0 - Pow(|s| - 1) <= Int(s) <= Pow(|s| - 1) }

  lemma TopSplit(s: seq<Word>)
    requires s != []
    ensures Val(s) == Val(s[..|s| - 1]) + Top(s) * Pow(|s| - 1) && Val(s[..|s| - 1]) < Pow(|s| - 1)
    ensures Pow(|s|) == W64 * Pow(|s| - 1)
  {
    hide Pow, Val;
    PowNext(|s| - 1);
    assert s[..|s|] == s;
    ValNext(s, |s| - 1);
    ValBound(s[..|s| - 1]);
  }

  lemma PowNext(n: nat)
    ensures Pow(n + 1) == W64 * Pow(n)
  {
  }

  /** The sign word of a number is zero or all ones exactly when its value fits below it. */
  lemma CanonicalRange(s: seq<Word>)
    requires |s| >= 2
    ensures Canonical(s) <==> 0 - Pow(|s| - 1) <= Int(s) < Pow(|s| - 1)
    ensures Canonical(s) ==> (Int(s) < 0 <==> Top(s) == ONES)
    ensures Int(s) < 0 <==> Top(s) >= W63
  {
    TopSplit(s);
    hide Pow, Val;
    TopRange(Top(s), Val(s[..|s| - 1]), Pow(|s| - 1));
  }

  lemma TopRange(t: Word, l: nat, p: nat)
    requires l < p
    ensures var x := l + t * p - if t >= W63 then W64 * p else 0;
            && ((t == 0 || t == ONES) <==> 0 - p <= x < p) && (x < 0 <==> t >= W63)
  {
    if t >= W63 {
      assert l + t * p - W64 * p == l - (W64 - t) * p;
      MulMono(1, W64 - t, p);
      if t < ONES { MulMono(2, W64 - t, p); }
    } else if t > 0 {
      MulMono(1, t, p);
    }
  }

  /** The sign bit says in which half of the range the words lie. */
  lemma TopHalf(s: seq<Word>)
    requires s != []
    ensures Top(s) >= W63 <==> 2 * Val(s) >= Pow(|s|)
  {
    hide Pow, Val, Top;
    TopSplit(s);
    HalfOrMore(Pow(|s| - 1), Top(s), Val(s[..|s| - 1]));
  }

  lemma HalfOrMore(q: nat, t: Word, l: nat)
    requires l < q
    ensures t >= W63 <==> 2 * (l + t * q) >= W64 * q
  {
    if t >= W63 { MulMono(W63, t, q); } else { MulMono(t + 1, W63, q); }
  }

  lemma Residue(v: int, x: int, k: int, p: int)
    requires 0 <= v < p && v == x + k * p && 0 - p <= 2 * x < p
    ensures x == if 2 * v >= p then v - p else v
  {
    if k >= 2 { MulMono(2, k, p); }
    if k <= -1 { MulMono(1, 0 - k, p); Assoc(-1, 0 - k, p); }
    assert k == 1 ==> k * p == p;
    assert k == 0 ==> k * p == 0;
  }

  /** What determines the value: congruence and range. */
  lemma IntIs(s: seq<Word>, x: int, k: int)
    requires s != [] && Val(s) == x + k * Pow(|s|)
    requires 0 - Pow(|s|) <= 2 * x < Pow(|s|)
    ensures Int(s) == x
  {
    TopHalf(s);
    ValBound(s);
    hide Pow, Val;
    Residue(Val(s), x, k, Pow(|s|));
  }

  /** Dropping a word that repeats the sign word. */
  lemma DropSign(s: seq<Word>)
    requires Canonical(s) && |s| >= 3 && s[|s| - 2] == Top(s)
    ensures Canonical(s[..|s| - 1]) && Int(s[..|s| - 1]) == Int(s)
  {
    var t := s[..|s| - 1];
    TopSplit(s);
    TopSplit(t);
    assert t[..|t| - 1] == s[..|s| - 2];
    if Top(s) == ONES {
      assert ONES * Pow(|t|) == W64 * Pow(|t|) - Pow(|t|);
    }
  }

  /** Adding a sign word. */
  lemma AddSign(s: seq<Word>, w: Word)
    requires s != [] && (w == 0 || w == ONES)
    ensures Int(s + [w]) == Val(s) - if w == 0 then 0 else Pow(|s|)
    ensures Canonical(s + [w])
  {
    ValAppend(s, w);
    assert Pow(|s| + 1) == W64 * Pow(|s|);
    hide Pow, Val;
    SignWord(w, Pow(|s|));
  }

  lemma SignWord(w: Word, p: nat)
    requires w == 0 || w == ONES
    ensures w * p == if w == 0 then 0 else W64 * p - p
  {
  }

  lemma OnesTimes(p: nat)
    ensures ONES * p == W64 * p - p
  {
  }

  lemma TwoWords(x: Word, y: Word)
    ensures Val([x, y]) == x + W64 * y && Val([x]) == x && Pow(2) == W64 * W64 && Pow(1) == W64
  {
    assert [x, y][1..] == [y] && [y][1..] == [] && [x][1..] == [];
    assert Val([y]) == y + W64 * Val([]) && Val([x]) == x + W64 * Val([]);
    PowNext(0);
    PowNext(1);
  }
}
