/** Numbers as text: uintn_to_str of util.c, str_to_num and num_to_str of datastructures.c. Characters are words. */
module BignumTexts {
  import opened Bits
  import opened Words
  import opened WordSeqs
  import opened Bignums
  import opened BignumProducts

  const MINUS: Word := 45
  const ZERO: Word := 48

  // ------------------------------------------------------------- one word

  /** The character of a digit: 0-9, then A-Z, then a-z. */
  function DigitChar(d: nat): Word
    requires d < 62
  {
    var digit := d + 48;
    if digit < 58 then digit else if digit + 7 < 91 then digit + 7 else digit + 13
  }

  /** The digits of a number, most significant first, none for zero. */
  function Significant(num: nat, base: nat): seq<Word>
    requires 2 <= base <= 62
  {
    if num == 0 then [] else Significant(num / base, base) + [DigitChar(num % base)]
  }

  function Digits(num: nat, base: nat): seq<Word>
    requires 2 <= base <= 62
  {
    if num == 0 then [ZERO] else Significant(num, base)
  }

  function Reverse(s: seq<Word>): seq<Word> { if s == [] then [] else Reverse(s[1..]) + [s[0]] }

  lemma {:induction false} ReverseAt(s: seq<Word>)
    ensures |Reverse(s)| == |s| && forall k :: 0 <= k < |s| ==> Reverse(s)[k] == s[|s| - 1 - k]
    decreases |s|
  {
    if s != [] { ReverseAt(s[1..]); }
  }

  lemma ReverseAppend(s: seq<Word>, c: Word)
    ensures Reverse(s + [c]) == [c] + Reverse(s)
  {
    ReverseAt(s + [c]);
    ReverseAt(s);
  }

  /** The second loop of uintn_to_str: the first n words in reverse, in place. */
  method ReverseInPlace(buf: array<Word>, n: nat)
    requires 0 < n <= buf.Length && forall k :: 0 <= k < n ==> buf[k] < 0x1_0000
    modifies buf
    ensures buf[..n] == Reverse(old(buf[..n])) && buf[n..] == old(buf[n..])
  {
    ghost var s := buf[..];
    var i := n - 1;
    var j := 0;
    while j < i
      invariant 0 <= j <= i + 1 && i == n - 1 - j
      invariant forall k :: 0 <= k < j || i < k < n ==> buf[k] == s[n - 1 - k]
      invariant forall k :: j <= k <= i || n <= k < buf.Length ==> buf[k] == s[k]
    {
      var tmp: Word := buf[j] % 0x1_0000;
      buf[j] := buf[i];
      buf[i] := tmp;
      j := j + 1;
      i := i - 1;
    }
    ReverseAt(s[..n]);
    assert old(buf[..n]) == s[..n];
  }

  /** uintn_to_str: the digits and a final zero, or -1 when the buffer is too small for both. */
  method UintToStr(buf: array<Word>, num: Word, base: Word) returns (len: Word)
    requires 2 <= base <= 62 && buf.Length < W64
    modifies buf
    ensures |Digits(num, base)| >= buf.Length ==> len == ONES
    ensures |Digits(num, base)| < buf.Length ==> len == |Digits(num, base)| && buf[..len] == Digits(num, base) && buf[len] == 0
  {
    if buf.Length < 2 {
      DigitsNonEmpty(num, base);
      return ONES;
    }
    if num == 0 {
      buf[0], buf[1] := ZERO, 0;
      return 1;
    }
    var n: nat := num;
    var i := 0;
    assert Reverse(buf[..0]) == [];
    while n != 0
      invariant i < buf.Length && forall k :: 0 <= k < i ==> buf[k] < 0x1_0000
      invariant Significant(num, base) == Significant(n, base) + Reverse(buf[..i])
      invariant n == 0 ==> i > 0
      decreases n
    {
      ReverseAt(buf[..i]);
      DigitNext(n, base, Reverse(buf[..i]));
      if i >= buf.Length - 1 {
        return ONES;
      }
      hide *;
      var digit := DigitChar(n % base);
      ghost var before := buf[..i];
      buf[i] := digit;
      ReverseAppend(before, digit);
      assert buf[..i + 1] == before + [digit];
      n := n / base;
      i := i + 1;
    }
    ReverseAt(buf[..i]);
    len := i;
    buf[i] := 0;
    ReverseInPlace(buf, i);
    assert buf[len] == buf[i..][0];
  }

  lemma DigitNext(n: nat, base: nat, low: seq<Word>)
    requires 2 <= base <= 62 && n > 0
    ensures 0 <= n / base < n && 0 <= n % base < 62 && DigitChar(n % base) < 0x1_0000
    ensures |Significant(n, base)| > 0
    ensures Significant(n, base) + low == Significant(n / base, base) + ([DigitChar(n % base)] + low)
  {
    hide *;
    QuotientLess(n, base);
    SignificantStep(n, base, n / base, n % base);
    DigitCharSmall(n % base);
    var s, d := Significant(n / base, base), [DigitChar(n % base)];
    assert (s + d) + low == s + (d + low);
  }

  lemma SignificantStep(n: nat, base: nat, q: nat, r: nat)
    requires 2 <= base <= 62 && n > 0 && q == n / base && r == n % base < 62
    ensures Significant(n, base) == Significant(q, base) + [DigitChar(r)]
  {
  }

  lemma DigitCharSmall(d: nat)
    requires d < 62
    ensures DigitChar(d) < 0x1_0000
  {
  }

  lemma QuotientLess(n: nat, base: nat)
    requires 2 <= base && n > 0
    ensures 0 <= n / base < n && 0 <= n % base < base
  {
    var q := n / base;
    assert n == base * q + n % base;
    if q < 0 { MulMono(1, 0 - q, base); Assoc(-1, 0 - q, base); Commute(base, q); }
    else { MulMono(2, base, q); }
  }

  lemma DigitsNonEmpty(num: nat, base: nat)
    requires 2 <= base <= 62
    ensures |Digits(num, base)| >= 1
  {
  }

  // -------------------------------------------------------------- reading

  /** The value of a hexadecimal digit in either case. */
  function HexDigit(chr: Word): Option<nat> {
    if 102 >= chr >= 97 then Some(chr - 87)
    else if 70 >= chr >= 65 then Some(chr - 55)
    else if 57 >= chr >= 48 then Some(chr - 48)
    else None
  }

  /** The value of a string of hexadecimal digits; None when there is another character in it. */
  function HexValue(s: seq<Word>): Option<nat> {
    if s == [] then Some(0) else
      var high, d := HexValue(s[..|s| - 1]), HexDigit(s[|s| - 1]);
      if high.Some? && d.Some? then Some(high.value * 16 + d.value) else None
  }

  /** The integer a text stands for: an optional sign, then at least one digit. */
  function Meaning(text: seq<Word>): Option<int> {
    if text == [] then None
    else if text[0] != MINUS then (match HexValue(text) case None => None case Some(v) => Some(v))
    else if |text| == 1 then None
    else match HexValue(text[1..]) case None => None case Some(v) => Some(0 - v)
  }

  function Pow16(n: nat): (p: nat)
    ensures p > 0
  {
    if n == 0 then 1 else 16 * Pow16(n - 1)
  }

  lemma {:induction false} Pow16Add(m: nat, n: nat)
    ensures Pow16(m + n) == Pow16(m) * Pow16(n)
  {
    if m > 0 {
      Pow16Add(m - 1, n);
      Assoc(16, Pow16(m - 1), Pow16(n));
    }
  }

  lemma {:induction false} Pow16Words(n: nat)
    ensures Pow16(16 * n) == Pow(n) && Pow16(16) == W64
  {
    assert Pow16(4) == 0x1_0000;
    Pow16Add(4, 4);
    Pow16Add(8, 8);
    if n > 0 {
      Pow16Words(n - 1);
      Pow16Add(16, 16 * (n - 1));
    }
  }

  lemma {:induction false} HexBound(s: seq<Word>)
    requires HexValue(s).Some?
    ensures HexValue(s).value < Pow16(|s|)
    decreases |s|
  {
    if s != [] { HexBound(s[..|s| - 1]); }
  }

  lemma {:induction false} HexConcat(a: seq<Word>, b: seq<Word>)
    ensures HexValue(a + b) == if HexValue(a).Some? && HexValue(b).Some? then Some(HexValue(a).value * Pow16(|b|) + HexValue(b).value) else None
    decreases |b|
  {
    if b == [] {
      assert a + b == a;
    } else {
      var b' := b[..|b| - 1];
      HexConcat(a, b');
      assert (a + b)[..|a + b| - 1] == a + b';
      if HexValue(a).Some? {
        var x, p := HexValue(a).value, Pow16(|b'|);
        Assoc(16, p, x);
        Commute(p, x);
        Commute(16 * p, x);
      }
    }
  }

  lemma {:induction false} HexBad(s: seq<Word>, k: nat)
    requires k < |s| && HexDigit(s[k]).None?
    ensures HexValue(s).None?
    decreases |s|
  {
    if k < |s| - 1 { HexBad(s[..|s| - 1], k); }
  }

  /** One digit more, as the C code shifts it in. */
  lemma DigitIn(s: seq<Word>, chr: Word, c: Word)
    requires HexValue(s) == Some(c) && |s| < 16 && HexDigit(chr).Some?
    ensures HexDigit(chr).value < 16
    ensures HexValue(s + [chr]) == Some(Bitwise(BitOr, HexDigit(chr).value, ToWord(c * 16)))
  {
    HexBound(s);
    Pow16Mono(|s|);
    HexAppend(s, chr);
    HexDigitBound(chr);
    hide *;
    MulMono(c + 1, Pow16(|s|), 16);
    OrDigit(HexDigit(chr).value, c);
  }

  lemma HexAppend(s: seq<Word>, chr: Word)
    requires HexValue(s).Some? && HexDigit(chr).Some?
    ensures HexValue(s + [chr]) == Some(HexValue(s).value * 16 + HexDigit(chr).value)
  {
    assert (s + [chr])[..|s|] == s;
  }

  lemma HexDigitBound(chr: Word)
    ensures HexDigit(chr).Some? ==> HexDigit(chr).value < 16
  {
  }

  lemma Pow16Mono(n: nat)
    requires n < 16
    ensures 16 * Pow16(n) <= W64
  {
    Pow16Words(0);
    Pow16Add(n + 1, 15 - n);
    hide Pow16;
    assert 16 * Pow16(n) == Pow16(n + 1) by { Pow16Step(n); }
    MulMono(1, Pow16(15 - n), Pow16(n + 1));
    Commute(Pow16(15 - n), Pow16(n + 1));
  }

  lemma Pow16Step(n: nat)
    ensures Pow16(n + 1) == 16 * Pow16(n)
  {
  }

  /** The inner loops of str_to_num: at most 16 digits into one word, or a refusal. */
  method ReadWord(arr: seq<Word>, start: nat, end: nat) returns (r: Option<Word>)
    requires start <= end <= |arr| && end - start <= 16
    ensures match r case Some(w) => HexValue(arr[start..end]) == Some(w) case None => HexValue(arr).None?
  {
    var c: Word := 0;
    for os := start to end
      invariant HexValue(arr[start..os]) == Some(c)
    {
      var d := HexDigit(arr[os]);
      if d.None? {
        HexBad(arr, os);
        return None;
      }
      DigitIn(arr[start..os], arr[os], c);
      assert arr[start..os + 1] == arr[start..os] + [arr[os]];
      hide *;
      c := Bitwise(BitOr, d.value, ToWord(c * 16));
    }
    return Some(c);
  }

  lemma HexJoin(a: seq<Word>, b: seq<Word>, w: Word, words: seq<Word>)
    requires HexValue(a) == Some(w) && HexValue(b) == Some(Val(words)) && |b| == 16 * |words|
    ensures HexValue(a + b) == Some(Val(words + [w]))
  {
    HexConcat(a, b);
    hide *;
    Pow16Words(|words|);
    ValAppend(words, w);
  }

  /** One word more from the low end. */
  lemma WordIn(arr: seq<Word>, from: nat, words: seq<Word>, w: Word)
    requires 16 <= from <= |arr| && |arr| - from == 16 * |words|
    requires HexValue(arr[from..]) == Some(Val(words)) && HexValue(arr[from - 16..from]) == Some(w)
    ensures HexValue(arr[from - 16..]) == Some(Val(words + [w]))
  {
    hide *;
    assert arr[from - 16..] == arr[from - 16..from] + arr[from..];
    HexJoin(arr[from - 16..from], arr[from..], w, words);
  }

  /** No word between the sign word and the highest significant one, but for the two words every number has. */
  ghost predicate Minimal(s: seq<Word>)
    requires s != []
  {
    |s| <= 2 || Pow(|s| - 2) <= Abs(Int(s))
  }

  /** The digits of a text, without its sign. */
  function Unsigned(text: seq<Word>): seq<Word> { if text != [] && text[0] == MINUS then text[1..] else text }

  /** A text is read as r: a canonical number of its value, and a minimal one when it has no leading zero. */
  ghost predicate ReadAs(text: seq<Word>, r: Option<seq<Word>>) {
    match Meaning(text)
    case None => r.None?
    case Some(x) =>
      && r.Some? && Canonical(r.value) && Int(r.value) == x && !Least(r.value)
      && (|Unsigned(text)| <= 16 ==> |r.value| == 2)
      && (Unsigned(text) != [] && Unsigned(text)[0] != ZERO ==> Minimal(r.value))
  }

  lemma {:induction false} LeadingDigit(s: seq<Word>)
    requires s != [] && s[0] != ZERO && HexValue(s).Some?
    ensures HexValue(s).value >= Pow16(|s| - 1)
    decreases |s|
  {
    if |s| == 1 {
      assert HexValue(s[..0]) == Some(0);
    } else {
      LeadingDigit(s[..|s| - 1]);
    }
  }

  lemma {:induction false} Pow16Le(m: nat, n: nat)
    requires m <= n
    ensures Pow16(m) <= Pow16(n)
    decreases n
  {
    if m < n { Pow16Le(m, n - 1); }
  }

  /** The number of words read is the least that holds the value. */
  lemma LeadingWord(arr: seq<Word>, n: nat)
    requires arr != [] && arr[0] != ZERO && HexValue(arr).Some? && 16 * n < |arr|
    ensures Pow(n) <= HexValue(arr).value
  {
    LeadingDigit(arr);
    Pow16Words(n);
    Pow16Le(16 * n, |arr| - 1);
  }

  /** The sign word, and the sign. */
  method WithSign(words: seq<Word>, neg: bool) returns (r: seq<Word>)
    requires words != []
    ensures Canonical(r) && |r| == |words| + 1 && Int(r) == if neg then 0 - Val(words) else Val(words)
    ensures !Least(r)
  {
    r := words + [0];
    AddSign(words, 0);
    ValBound(words);
    LeastInt(r);
    if neg {
      var a := new Word[|r|](i requires 0 <= i < |r| => r[i]);
      assert a[..] == r;
      Negate(a);
      ValAppend(words, 0);
      SignedResult(r, a[..], true);
      r := a[..];
      LeastInt(r);
    }
  }

  lemma UnsignedMeaning(text: seq<Word>)
    ensures Unsigned(text) == [] || HexValue(Unsigned(text)).None? ==> Meaning(text).None?
    ensures Unsigned(text) != [] && HexValue(Unsigned(text)).Some? ==>
      text != [] && Meaning(text) == Some(if text[0] == MINUS then 0 - HexValue(Unsigned(text)).value else HexValue(Unsigned(text)).value)
  {
  }

  lemma Read(text: seq<Word>, words: seq<Word>, r: seq<Word>)
    requires Unsigned(text) != [] && HexValue(Unsigned(text)) == Some(Val(words)) && Canonical(r)
    requires Int(r) == if text != [] && text[0] == MINUS then 0 - Val(words) else Val(words)
    requires !Least(r) && (|r| == 2 || 16 * (|r| - 2) < |Unsigned(text)|)
    ensures ReadAs(text, Some(r))
  {
    UnsignedMeaning(text);
    var arr := Unsigned(text);
    if arr[0] != ZERO && |r| > 2 { LeadingWord(arr, |r| - 2); }
  }

  /** The word loop of str_to_num: 16 digits a word, from the low end. */
  method ReadWords(arr: seq<Word>, os: nat) returns (r: Option<seq<Word>>)
    requires os <= |arr| && (|arr| - os) % 16 == 0
    ensures match r
            case Some(words) => 16 * |words| == |arr| - os && HexValue(arr[os..]) == Some(Val(words))
            case None => HexValue(arr).None?
  {
    var size := (|arr| - os) / 16;
    var final_num: seq<Word> := [];
    assert HexValue(arr[|arr|..]) == Some(Val(final_num));
    for i := 0 to size
      invariant |final_num| == i && HexValue(arr[|arr| - 16 * i..]) == Some(Val(final_num))
    {
      hide *;
      var from := (size - i - 1) * 16 + os;
      var current := ReadWord(arr, from, from + 16);
      if current.None? {
        return None;
      }
      WordIn(arr, from + 16, final_num, current.value);
      final_num := final_num + [current.value];
    }
    return Some(final_num);
  }

  /** str_to_num: a canonical number with the value the text stands for, or a refusal when it stands for none. */
  method StrToNum(num: seq<Word>) returns (r: Option<seq<Word>>)
    ensures ReadAs(num, r)
  {
    hide *;
    Refusal(num);
    SignOff(num);
    var neg, arr := false, num;
    if |num| == 0 {
      return None;
    }
    if arr[0] == MINUS {
      neg := true;
      arr := arr[1..];
    }
    if |arr| == 0 {
      return None;
    }
    assert arr == Unsigned(num);
    var length := |arr|;
    var size := length / 16;
    var os := length % 16;
    var head := ReadWord(arr, 0, os);
    if head.None? {
      return None;
    }
    var c := head.value;
    var words := ReadWords(arr, os);
    if words.None? {
      return None;
    }
    var final_num := words.value;
    WholeValue(arr, os, c, final_num);
    NoHead(arr, c);
    if c != 0 || size == 0 {
      final_num := final_num + [c];
    }
    var number := WithSign(final_num, neg);
    Read(num, final_num, number);
    return Some(number);
  }

  /** Without a head there is nothing in it. */
  lemma NoHead(arr: seq<Word>, c: Word)
    ensures HexValue(arr[..0]) == Some(c) ==> c == 0
  {
  }

  lemma SignOff(text: seq<Word>)
    ensures Unsigned(text) == if text != [] && text[0] == MINUS then text[1..] else text
  {
  }

  lemma Refusal(text: seq<Word>)
    ensures Unsigned(text) == [] || HexValue(Unsigned(text)).None? ==> ReadAs(text, None)
  {
    UnsignedMeaning(text);
  }

  /** The head and the words, put together. */
  lemma WholeValue(arr: seq<Word>, os: nat, c: Word, words: seq<Word>)
    requires os <= |arr| && |arr| - os == 16 * |words|
    requires HexValue(arr[..os]) == Some(c) && HexValue(arr[os..]) == Some(Val(words))
    ensures HexValue(arr) == Some(Val(words + [c])) && (c == 0 ==> Val(words + [c]) == Val(words))
  {
    hide *;
    assert arr == arr[..os] + arr[os..];
    HexJoin(arr[..os], arr[os..], c, words);
    ValAppend(words, c);
    assert c == 0 ==> c * Pow(|words|) == 0;
  }

  // --------------------------------------------------------------- writing

  function Zeros(n: nat): (s: seq<Word>)
    ensures |s| == n
  {
    seq(n, _ => ZERO)
  }

  lemma {:induction false} SignificantValue(num: nat)
    ensures HexValue(Significant(num, 16)) == Some(num)
    decreases num
  {
    if num > 0 {
      QuotientLess(num, 16);
      SignificantValue(num / 16);
      var s, d := Significant(num / 16, 16), num % 16;
      assert HexDigit(DigitChar(d)) == Some(d);
      assert Significant(num, 16) == s + [DigitChar(d)] && (s + [DigitChar(d)])[..|s|] == s;
      hide Significant;
    }
  }

  lemma {:induction false} SignificantLength(num: nat, n: nat)
    ensures |Significant(num, 16)| <= n <==> num < Pow16(n)
    ensures num > 0 ==> |Significant(num, 16)| > 0 && Significant(num, 16)[0] != ZERO && Significant(num, 16)[0] != MINUS
    decreases num
  {
    if num > 0 {
      QuotientLess(num, 16);
      SignificantLength(num / 16, if n > 0 then n - 1 else 0);
    }
  }

  /** The digits of a word: its value, at most 16 of them, and no zero in front but for zero itself. */
  lemma WordDigits(w: Word)
    ensures HexValue(Digits(w, 16)) == Some(w) && 1 <= |Digits(w, 16)| <= 16
    ensures w > 0 ==> Digits(w, 16)[0] != ZERO
  {
    SignificantValue(w);
    SignificantLength(w, 16);
    Pow16Words(0);
    hide Significant, Pow16;
    assert [ZERO][..0] == [];
  }

  function Padded(w: Word): (s: seq<Word>)
    ensures |s| == 16
  {
    WordDigits(w);
    Zeros(16 - |Digits(w, 16)|) + Digits(w, 16)
  }

  lemma {:induction false} ZerosValue(n: nat)
    ensures HexValue(Zeros(n)) == Some(0)
  {
    if n > 0 {
      ZerosValue(n - 1);
      assert Zeros(n)[..n - 1] == Zeros(n - 1);
    }
  }

  lemma PaddedValue(w: Word)
    ensures HexValue(Padded(w)) == Some(w)
  {
    WordDigits(w);
    var d := Digits(w, 16);
    ZerosValue(16 - |d|);
    HexConcat(Zeros(16 - |d|), d);
    hide HexValue, Pow16, Digits, Zeros;
  }

  /** The layout of a magnitude: its highest word as it is, the others with all their 16 digits. */
  function HexText(words: seq<Word>): seq<Word>
    requires words != []
  {
    if |words| == 1 then Digits(words[0], 16) else HexText(words[1..]) + Padded(words[0])
  }

  lemma {:induction false} HexTextValue(words: seq<Word>)
    requires words != []
    ensures HexValue(HexText(words)) == Some(Val(words)) && |HexText(words)| > 16 * (|words| - 1)
    ensures words[|words| - 1] != 0 ==> HexText(words)[0] != ZERO
    decreases |words|
  {
    if |words| == 1 {
      WordDigits(words[0]);
      assert Val(words[1..]) == 0;
      hide HexValue, Digits;
    } else {
      var t := words[1..];
      assert HexText(words) == HexText(t) + Padded(words[0]) && Val(words) == words[0] + W64 * Val(t);
      hide HexText, Padded, HexValue, Val;
      HexTextValue(t);
      PaddedAfter(HexText(t), Val(t), words[0]);
    }
  }

  lemma PaddedAfter(text: seq<Word>, v: nat, w: Word)
    requires HexValue(text) == Some(v)
    ensures HexValue(text + Padded(w)) == Some(v * W64 + w)
  {
    PaddedValue(w);
    hide *;
    HexConcat(text, Padded(w));
    Pow16Words(0);
  }

  /** The text of a number: a sign, and the magnitude, of which the layout leaves out what lies in the sign word. */
  ghost predicate Shows(text: seq<Word>, s: seq<Word>)
    requires Canonical(s)
  {
    exists t | IsMagnitude(s, t) :: |t| == |s| && text == (if Top(s) == 0 then [] else [MINUS]) + HexText(t[..|s| - 1])
  }

  lemma BufferFits()
    ensures 17 < W64
  {
  }

  /** The words below the sign word, appended from the highest down. */
  method AppendDigits(num: array<Word>, sign: seq<Word>) returns (text: seq<Word>)
    requires num.Length >= 2
    ensures text == sign + HexText(num[..num.Length - 1])
  {
    hide *;
    BufferFits();
    var n := num.Length;
    var buf := new Word[17];
    ghost var t := num[..];
    WordDigits(num[n - 2]);
    var l := UintToStr(buf, num[n - 2], 16);
    text := sign + buf[..l];
    TopDigits(t, n - 2, sign, text, num[n - 2]);
    var i := n - 2;
    while i > 0
      invariant 0 <= i <= n - 2 && num[..] == t && text == sign + HexText(t[i..n - 1])
    {
      WordDigits(num[i - 1]);
      l := UintToStr(buf, num[i - 1], 16);
      text := text + Zeros(16 - l) + buf[..l];
      TextNext(t, i, sign, text, num[i - 1]);
      i := i - 1;
    }
    assert t[0..n - 1] == num[..n - 1];
  }

  lemma Showing(s: seq<Word>, t: seq<Word>, text: seq<Word>)
    requires Canonical(s) && IsMagnitude(s, t) && |t| == |s|
    requires text == (if Top(s) == 0 then [] else [MINUS]) + HexText(t[..|s| - 1])
    ensures Shows(text, s)
  {
  }

  lemma FlippedMagnitude(s: seq<Word>, t: seq<Word>)
    requires Canonical(s) && if s[|s| - 1] != 0 then Negated(s, t) else t == s
    ensures IsMagnitude(s, t) && |t| == |s| && Top(s) == s[|s| - 1]
  {
  }

  /** num_to_str: the number is negated in place and back; the text is its value in base 16. */
  method NumToStr(num: array<Word>) returns (text: seq<Word>)
    requires Canonical(num[..])
    modifies num
    ensures num[..] == old(num[..]) && Shows(text, num[..])
  {
    ghost var s := num[..];
    assert num.Length >= 2;
    hide *;
    var last := num[num.Length - 1];
    text := [];
    if last != 0 {
      text := text + [MINUS];
      Negate(num);
    }
    ghost var t := num[..];
    FlippedMagnitude(s, t);
    text := AppendDigits(num, text);
    if last != 0 {
      Negate(num);
      NegateTwice(s, t, num[..]);
    }
    assert num[..] == s;
    Showing(s, t, text);
  }

  lemma TopDigits(t: seq<Word>, i: nat, sign: seq<Word>, text: seq<Word>, w: Word)
    requires |t| == i + 2 && w == t[i] && text == sign + Digits(w, 16)
    ensures text == sign + HexText(t[i..|t| - 1])
    ensures t[0..|t| - 1] == t[..|t| - 1]
  {
    assert t[i..|t| - 1] == [w];
    hide Digits;
  }

  lemma TextNext(t: seq<Word>, i: nat, sign: seq<Word>, text: seq<Word>, w: Word)
    requires 0 < i < |t| - 1 && w == t[i - 1] && |Digits(w, 16)| <= 16
    requires text == (sign + HexText(t[i..|t| - 1])) + Zeros(16 - |Digits(w, 16)|) + Digits(w, 16)
    ensures text == sign + HexText(t[i - 1..|t| - 1])
  {
    assert t[i - 1..|t| - 1][1..] == t[i..|t| - 1];
    assert HexText(t[i - 1..|t| - 1]) == HexText(t[i..|t| - 1]) + Padded(w);
    hide HexText, Digits, Zeros;
  }

  lemma MeaningOf(text: seq<Word>, body: seq<Word>, neg: bool, v: nat)
    requires body != [] && HexValue(body) == Some(v) && text == (if neg then [MINUS] else []) + body
    ensures Unsigned(text) == body && Meaning(text) == Some(if neg then 0 - v else v)
  {
    if body[0] == MINUS { HexBad(body, 0); }
    hide HexValue;
  }

  /** Of a minimal number, the highest word below the sign word is not zero. */
  lemma HighWord(t: seq<Word>, n: nat)
    requires 2 <= n < |t| && Val(t[..n]) >= Pow(n - 1)
    ensures t[n - 1] != 0
  {
    var w, p := t[n - 1], Pow(n - 1);
    ValNext(t, n - 1);
    ValBound(t[..n - 1]);
    hide Val, Pow;
    ZeroTimes(w, p);
  }

  lemma ZeroTimes(w: nat, p: nat)
    ensures w == 0 ==> w * p == 0
  {
  }

  /** The text of a number means its value, but for the least numbers, which are shown as zero. */
  lemma ShownMeaning(s: seq<Word>, text: seq<Word>)
    requires Canonical(s) && Shows(text, s)
    ensures Meaning(text) == Some(if Least(s) then 0 else Int(s))
    ensures !Least(s) && Minimal(s) && |s| > 2 ==> Unsigned(text) != [] && Unsigned(text)[0] != ZERO
    ensures |s| == 2 ==> |Unsigned(text)| <= 16
  {
    var t :| IsMagnitude(s, t) && |t| == |s| && text == (if Top(s) == 0 then [] else [MINUS]) + HexText(t[..|s| - 1]);
    assert |s| == 2 ==> HexText(t[..1]) == Digits(t[0], 16);
    hide *;
    ShownBy(s, t, text);
    ShownFront(s, t, text);
  }

  lemma ShownBy(s: seq<Word>, t: seq<Word>, text: seq<Word>)
    requires Canonical(s) && IsMagnitude(s, t) && |t| == |s| > 1
    requires text == (if Top(s) == 0 then [] else [MINUS]) + HexText(t[..|s| - 1])
    ensures Meaning(text) == Some(if Least(s) then 0 else Int(s)) && Unsigned(text) == HexText(t[..|s| - 1])
  {
    AbsSign(Int(s));
    hide *;
    var low := t[..|s| - 1];
    MagnitudeVal(s, t);
    Magnitude(s, t);
    HexTextValue(low);
    assert HexText(low) != [];
    MeaningOf(text, HexText(low), Top(s) != 0, Val(low));
  }

  lemma AbsSign(x: int)
    ensures x == if x >= 0 then Abs(x) else 0 - Abs(x)
  {
  }

  lemma MinimalIs(s: seq<Word>)
    requires s != []
    ensures Minimal(s) <==> |s| <= 2 || Pow(|s| - 2) <= Abs(Int(s))
  {
  }

  lemma ShownFront(s: seq<Word>, t: seq<Word>, text: seq<Word>)
    requires Canonical(s) && IsMagnitude(s, t) && |t| == |s| > 1 && Unsigned(text) == HexText(t[..|s| - 1])
    requires |s| == 2 ==> Unsigned(text) == Digits(t[0], 16)
    ensures !Least(s) && Minimal(s) && |s| > 2 ==> Unsigned(text) != [] && Unsigned(text)[0] != ZERO
    ensures |s| == 2 ==> |Unsigned(text)| <= 16
  {
    hide *;
    var n := |s| - 1;
    MinimalIs(s);
    Magnitude(s, t);
    HexTextValue(t[..n]);
    WordDigits(t[0]);
    if !Least(s) && Minimal(s) && |s| > 2 {
      HighWord(t, n);
    }
  }

  lemma SizesAgree(s: seq<Word>, t: seq<Word>)
    requires |s| >= 2 && |t| >= 2 && Int(s) == Int(t) && Abs(Int(s)) < Pow(|s| - 1)
    requires Minimal(t) || |s| == |t|
    ensures |s| >= |t|
  {
    if |s| < |t| { PowMono(|s| - 1, |t| - 2); }
    hide Int;
  }

  /** Two minimal numbers of one value are the same words. */
  lemma SameWords(s: seq<Word>, t: seq<Word>)
    requires Canonical(s) && Canonical(t) && Int(s) == Int(t) && !Least(s) && !Least(t)
    requires (Minimal(s) && Minimal(t)) || |s| == |t|
    ensures s == t
  {
    LeastInt(s);
    LeastInt(t);
    CanonicalRange(s);
    CanonicalRange(t);
    SizesAgree(s, t);
    SizesAgree(t, s);
    hide Val, Pow;
    ValInjective(s, t);
  }

  /**
   Reading back what was written gives the value exactly when the number is not a least one; a minimal
   number comes back word for word.
   */
  lemma RoundTrip(s: seq<Word>, text: seq<Word>, r: Option<seq<Word>>)
    requires Canonical(s) && Shows(text, s) && ReadAs(text, r)
    ensures r.Some? && Canonical(r.value) && (Int(r.value) == Int(s) <==> !Least(s))
    ensures !Least(s) && Minimal(s) ==> r.value == s
  {
    ShownMeaning(s, text);
    LeastInt(s);
    if !Least(s) && Minimal(s) {
      SameWords(s, r.value);
    }
  }

  /** -2^64 is shown as "-0". */
  lemma LeastShownAsZero()
    ensures var least := [0, ONES];
            Canonical(least) && Int(least) == 0 - W64 && Shows([MINUS, ZERO], least) && Meaning([MINUS, ZERO]) == Some(0)
  {
    var least, t: seq<Word> := [0, ONES], [0, 1];
    TwoWords(0, ONES);
    TwoWords(0, 1);
    assert IsMagnitude(least, t);
    assert t[..1] == [0] && HexText([0]) == [ZERO];
    assert [MINUS, ZERO] == [MINUS] + HexText(t[..1]);
    Showing(least, t, [MINUS, ZERO]);
    assert least[..1] == [0];
    ShownMeaning(least, [MINUS, ZERO]);
    ZeroVal(least[..1]);
    LeastInt(least);
  }
}
