/** The characters of numbers, and that texts and numbers agree by the places of the digits. */
module BignumDigits {
  import opened Bits
  import opened Words
  import opened Numerals
  import opened BignumTexts

  /** The digits of a base up to 62: decimal digits, capital letters, small letters. */
  function Letter(d: nat): nat
    requires d < 62
  {
    if d < 10 then '0' as nat + d else if d < 36 then 'A' as nat + (d - 10) else 'a' as nat + (d - 36)
  }

  lemma DigitCharIs(d: nat)
    requires d < 62
    ensures DigitChar(d) == Letter(d)
  {
  }

  /** A hexadecimal digit is read in either case. */
  predicate IsHex(c: Word, d: nat) {
    d < 16 && if d < 10 then c == '0' as nat + d else c == 'A' as nat + (d - 10) || c == 'a' as nat + (d - 10)
  }

  lemma HexDigitIs(c: Word, d: nat)
    ensures HexDigit(c) == Some(d) <==> IsHex(c, d)
  {
  }

  /** The text spells these digits. */
  predicate Spells(text: seq<Word>, ds: seq<nat>, base: nat) {
    base <= 62 && |text| == |ds| && forall k :: 0 <= k < |ds| ==> ds[k] < base && text[k] == Letter(ds[k])
  }

  /** The digits written for a number have its value, and the first of them is not zero. */
  lemma {:induction false} SignificantMeans(num: nat, base: nat) returns (ds: seq<nat>)
    requires 2 <= base <= 62
    ensures Spells(Significant(num, base), ds, base) && Sum(ds, base) == num && (ds != [] ==> ds[0] != 0)
  {
    if num == 0 {
      ds := [];
    } else {
      LastPlace(num, base);
      var high := SignificantMeans(num / base, base);
      DigitCharIs(num % base);
      ds := high + [num % base];
      SumAppend(high, num % base, base);
      assert high == [] ==> num / base == 0;
      hide Letter, DigitChar, Power;
    }
  }

  /** The text of a number has its value, at least one digit, and no zero in front of another digit. */
  lemma DigitsMean(num: nat, base: nat) returns (ds: seq<nat>)
    requires 2 <= base <= 62
    ensures ds != [] && Spells(Digits(num, base), ds, base) && Sum(ds, base) == num && (|ds| > 1 ==> ds[0] != 0)
  {
    if num == 0 {
      ds := [0];
      assert Sum([0][1..], base) == 0;
    } else {
      ds := SignificantMeans(num, base);
    }
  }

  lemma LastPlace(num: nat, base: nat)
    requires 2 <= base && num > 0
    ensures 0 <= num / base < num && num % base < base && num / base * base + num % base == num
    ensures num / base == 0 ==> num % base != 0
  {
    DivNat(num, base);
    assert num == (num / base) * base + num % base;
    MulMono(2, base, num / base);
    Commute(base, num / base);
  }

  /** The text consists of these hexadecimal digits, in any case. */
  predicate ReadsAs(text: seq<Word>, ds: seq<nat>) { |text| == |ds| && forall k :: 0 <= k < |ds| ==> IsHex(text[k], ds[k]) }

  lemma {:induction false} HexValueIs(text: seq<Word>, ds: seq<nat>)
    requires ReadsAs(text, ds)
    ensures HexValue(text) == Some(Sum(ds, 16))
  {
    if text != [] {
      var n := |text| - 1;
      HexValueIs(text[..n], ds[..n]);
      HexDigitIs(text[n], ds[n]);
      SumAppend(ds[..n], ds[n], 16);
      assert ds[..n] + [ds[n]] == ds;
      hide IsHex, HexDigit, Sum;
    }
  }

  lemma {:induction false} HexValueReads(text: seq<Word>) returns (ds: seq<nat>)
    requires HexValue(text).Some?
    ensures ReadsAs(text, ds)
  {
    ds := [];
    if text != [] {
      var n := |text| - 1;
      var high := HexValueReads(text[..n]);
      var d := HexDigit(text[n]).value;
      HexDigitIs(text[n], d);
      ds := high + [d];
      hide IsHex, HexDigit;
    }
  }

  /** What a text stands for: an optional minus sign and at least one digit, the sum of the digits times their places. */
  ghost predicate StandsFor(text: seq<Word>, x: int) {
    exists ds | ds != [] ::
      || (ReadsAs(text, ds) && x == Sum(ds, 16))
      || (text != [] && text[0] == '-' as nat && ReadsAs(text[1..], ds) && x == 0 - Sum(ds, 16))
  }

  /** A text that str_to_num accepts stands for exactly one integer, its meaning; the others stand for none. */
  lemma MeaningIs(text: seq<Word>, x: int)
    ensures Meaning(text) == Some(x) <==> StandsFor(text, x)
  {
    if Meaning(text) == Some(x) {
      if text[0] == MINUS {
        var ds := HexValueReads(text[1..]);
        HexValueIs(text[1..], ds);
        assert ds != [];
      } else {
        var ds := HexValueReads(text);
        HexValueIs(text, ds);
        assert ds != [];
      }
    }
    if StandsFor(text, x) {
      var ds :| ds != [] && ((ReadsAs(text, ds) && x == Sum(ds, 16))
                             || (text != [] && text[0] == '-' as nat && ReadsAs(text[1..], ds) && x == 0 - Sum(ds, 16)));
      if ReadsAs(text, ds) && x == Sum(ds, 16) {
        HexValueIs(text, ds);
        assert IsHex(text[0], ds[0]);
      } else {
        HexValueIs(text[1..], ds);
      }
    }
  }
}
