/**
 Hexadecimal digits by their places in two strings, one for each letter case, and that it does not matter to the
 assembler which of the two a number or a register is written in.
 */
module LetterCase {
  import opened Words
  import opened Machine
  import opened Encoding
  import opened Numerals
  import opened Scanner
  import opened Assembler

  const LOWER: string := "0123456789abcdef"
  const UPPER: string := "0123456789ABCDEF"

  /** ch is the digit d, in one case or the other. */
  predicate IsDigit(ch: char, d: nat) { d < 16 && |LOWER| == |UPPER| == 16 && (LOWER[d] == ch || UPPER[d] == ch) }

  /** The scanner reads exactly these digits, each with the value of its place. */
  lemma DigitPlace(ch: char, d: nat)
    ensures HexDigitOf(ch) == Some(d) <==> IsDigit(ch, d)
  {
    if d < 16 { DigitAt(d); }
  }

  lemma DigitAt(d: nat)
    requires d < 16
    ensures |LOWER| == |UPPER| == 16
    ensures LOWER[d] as nat == (if d < 10 then '0' as nat + d else 'a' as nat + (d - 10))
    ensures UPPER[d] as nat == (if d < 10 then '0' as nat + d else 'A' as nat + (d - 10))
  {
  }

  /** What stands between the words of a text: blank, newline, tab, and the zero character. */
  lemma BlankIs(ch: char)
    ensures Whitespace(ch) <==> ch as nat in {32, 10, 9, 0}
  {
  }

  // ------------------------------------------------------------------ numbers

  /** The digits of s, in any case. */
  predicate Spells(s: string, ds: seq<nat>) { |s| == |ds| && forall k :: 0 <= k < |s| ==> IsDigit(s[k], ds[k]) }

  lemma {:induction false} NumberOfDigits(s: string, ds: seq<nat>)
    requires Spells(s, ds)
    ensures AllHex(s) && HexNumber(s) == Sum(ds, 16)
  {
    forall k | 0 <= k < |s| ensures HexDigitOf(s[k]) == Some(ds[k]) { DigitPlace(s[k], ds[k]); }
    if s != [] {
      var n := |s| - 1;
      NumberOfDigits(s[..n], ds[..n]);
      SumAppend(ds[..n], ds[n], 16);
      assert ds[..n] + [ds[n]] == ds;
      hide IsDigit, HexDigitOf, Sum;
    }
  }

  /** Some row of digits, 1 to 16 of them, has this value, which is not above max. */
  ghost predicate ReadsAs(s: string, v: nat, max: nat) {
    1 <= |s| <= 16 && v <= max && exists ds :: Spells(s, ds) && v == Sum(ds, 16)
  }

  /** A token is read as a number exactly when it consists of 1 to 16 digits whose sum is not above the limit. */
  lemma NumberIs(s: string, v: nat, max: nat)
    ensures Hex(s, max) == Some(v) <==> ReadsAs(s, v, max)
  {
    if Hex(s, max) == Some(v) {
      var ds := seq(|s|, k requires 0 <= k < |s| => HexDigitOf(s[k]).value);
      forall k | 0 <= k < |s| ensures IsDigit(s[k], ds[k]) { DigitPlace(s[k], ds[k]); }
      NumberOfDigits(s, ds);
    }
    if ReadsAs(s, v, max) {
      var ds :| Spells(s, ds) && v == Sum(ds, 16);
      NumberOfDigits(s, ds);
    }
  }

  /** A register is the letter r and a number up to 31; an immediate a number below 2^45, perhaps with a minus sign. */
  lemma RegisterIs(s: string, v: nat)
    ensures AsReg(s) == Some(v) <==> s != "" && s[0] == 'r' && ReadsAs(s[1..], v, 31)
  {
    if s != "" { NumberIs(s[1..], v, 31); }
    hide Hex, ReadsAs;
  }

  lemma ImmediateIs(s: string, i: int)
    ensures AsImm(s) == Some(i) <==>
            s != "" && if s[0] == '-' then i <= 0 && ReadsAs(s[1..], 0 - i, 0x1fff_ffff_ffff) else 0 <= i && ReadsAs(s, i, 0x1fff_ffff_ffff)
  {
    if s != "" && i <= 0 { NumberIs(s[1..], 0 - i, 0x1fff_ffff_ffff); }
    if i >= 0 { NumberIs(s, i, 0x1fff_ffff_ffff); }
    hide Hex, ReadsAs;
  }

  /** The same character, or the same digit. */
  ghost predicate TwinChar(a: char, b: char) { a == b || exists d :: IsDigit(a, d) && IsDigit(b, d) }

  /** The same but for the case of hexadecimal digits. */
  ghost predicate Twin(s: string, t: string) { |s| == |t| && forall k :: 0 <= k < |s| ==> TwinChar(s[k], t[k]) }

  lemma TwinDigit(a: char, b: char)
    requires TwinChar(a, b)
    ensures HexDigitOf(a) == HexDigitOf(b) && (HexDigitOf(a).None? ==> a == b)
  {
    if a != b {
      var d :| IsDigit(a, d) && IsDigit(b, d);
      DigitPlace(a, d);
      DigitPlace(b, d);
    }
  }

  lemma {:induction false} TwinNumber(s: string, t: string)
    requires Twin(s, t)
    ensures AllHex(s) <==> AllHex(t)
    ensures AllHex(s) ==> HexNumber(s) == HexNumber(t)
    decreases |s|
  {
    forall k | 0 <= k < |s| ensures HexDigitOf(s[k]) == HexDigitOf(t[k]) { TwinDigit(s[k], t[k]); }
    if s != [] && AllHex(s) {
      hide HexDigitOf, TwinChar;
      TwinNumber(s[..|s| - 1], t[..|s| - 1]);
    }
  }

  lemma TwinHex(s: string, t: string, max: nat)
    requires Twin(s, t)
    ensures Hex(s, max) == Hex(t, max)
  {
    TwinNumber(s, t);
    hide HexNumber, AllHex, Twin;
  }

  /** Registers and immediates, signs included. */
  lemma TwinArgument(s: string, t: string)
    requires Twin(s, t)
    ensures AsReg(s) == AsReg(t) && AsImm(s) == AsImm(t)
  {
    if s != [] {
      TwinDigit(s[0], t[0]);
      NoDigitSigns();
      assert s[0] == 'r' <==> t[0] == 'r';
      assert s[0] == '-' <==> t[0] == '-';
      TwinHex(s[1..], t[1..], NUM_REGS - 1);
      TwinHex(s[1..], t[1..], IMM_LIMIT - 1);
      TwinHex(s, t, IMM_LIMIT - 1);
    }
    hide Hex, TwinChar;
  }

  lemma NoDigitSigns()
    ensures HexDigitOf('r').None? && HexDigitOf('-').None?
  {
  }

  ghost predicate TwinToken(t: Token, t': Token) { t.closed == t'.closed && Twin(t.s, t'.s) }

  // -------------------------------------------------------------------- texts

  /** The last argument of a line: the same label, or a register or number that may be in the other case. */
  ghost predicate AlikeLast(t: Token, t': Token) { TwinToken(t, t') && (LastOf(t).LRef? ==> t == t') }

  /** The same tokens, but for the case of digits in numbers and in the registers of lines. */
  ghost predicate Alike(ts: seq<Token>, ts': seq<Token>)
    decreases |ts|
  {
    |ts| == |ts'| && (ts == [] ||
      if Hex(ts[0].s, W64 - 1).Some? then TwinToken(ts[0], ts'[0]) && Alike(ts[1..], ts'[1..])
      else if NameNumber(ts[0].s, 0).Some? && ts[0].closed then
        && ts[0] == ts'[0]
        && (forall k :: 1 <= k <= 2 && k < |ts| ==> TwinToken(ts[k], ts'[k]))
        && (|ts| > 3 ==> AlikeLast(ts[3], ts'[3]))
        && (|ts| > 3 ==> Alike(AfterLast(ts[3..]), AfterLast(ts'[3..])))
      else ts[0] == ts'[0] && Alike(ts[1..], ts'[1..]))
  }

  lemma AlikeLine(op: Opcode, ts: seq<Token>, ts': seq<Token>)
    requires |ts| == |ts'| >= 1 && forall k :: 1 <= k <= 2 && k < |ts| ==> TwinToken(ts[k], ts'[k])
    requires |ts| > 3 ==> AlikeLast(ts[3], ts'[3])
    ensures LineOf(op, ts[1..]) == LineOf(op, ts'[1..])
  {
    if |ts| >= 3 {
      assert ts[1..][0] == ts[1] && ts[1..][1] == ts[2] && ts'[1..][0] == ts'[1] && ts'[1..][1] == ts'[2];
      TwinArgument(ts[1].s, ts'[1].s);
      TwinArgument(ts[2].s, ts'[2].s);
      if |ts| > 3 {
        assert ts[1..][2] == ts[3] && ts'[1..][2] == ts'[3];
        TwinArgument(ts[3].s, ts'[3].s);
      }
    }
    hide AsReg, AsImm, Twin;
  }

  /** Tokens that differ only in the case of digits are read as the same listing. */
  lemma {:induction false} AlikeParse(ts: seq<Token>, ts': seq<Token>, l: Listing)
    requires Alike(ts, ts')
    ensures Parse(ts, l) == Parse(ts', l)
    decreases |ts|
  {
    if ts != [] {
      hide NameNumber, AsReg, AsImm, LastOf, Twin, AfterLast, HexNumber;
      if Hex(ts[0].s, W64 - 1).Some? {
        TwinHex(ts[0].s, ts'[0].s, W64 - 1);
        AlikeParse(ts[1..], ts'[1..], l.(items := l.items + [Literal(Hex(ts[0].s, W64 - 1).value)]));
      } else if NameNumber(ts[0].s, 0).Some? && ts[0].closed {
        var op := OpcodeOf(NameNumber(ts[0].s, 0).value).value;
        AlikeLine(op, ts, ts');
        ParseStep(ts, l);
        ParseStep(ts', l);
        var line := LineOf(op, ts[1..]);
        if line.Some? {
          if |ts| > 3 {
            ShorterAfter(ts);
            AlikeParse(AfterLast(ts[3..]), AfterLast(ts'[3..]), l.(items := l.items + [line.value]));
          } else {
            assert ts[3..] == [] && ts'[3..] == [];
          }
        }
      } else {
        AlikeParse(ts[1..], ts'[1..], l.(marks := l.marks + [Mark(ts[0], |l.items|)]));
      }
    }
  }

  lemma ShorterAfter(ts: seq<Token>)
    requires |ts| > 3
    ensures |AfterLast(ts[3..])| < |ts|
  {
  }

  /** So texts that differ only in that assemble to the same words, or are both refused. */
  lemma CaseDoesNotMatter(code: string, code': string)
    requires Alike(Tokens(code), Tokens(code'))
    ensures Assembled(code) == Assembled(code')
  {
    AlikeParse(Tokens(code), Tokens(code'), Listing([], []));
    hide Parse, Tokens, Alike, Translate;
  }
}
