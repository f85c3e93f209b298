/** The scanner helpers of x86_64/asm.c, and what they mean for the whitespace-separated tokens of a text. */
module Scanner {
  import opened Bits
  import opened Words

  predicate Whitespace(ch: char) { ch == ' ' || ch == '\n' || ch == '\t' || ch == '\0' }

  /** A maximal run of other characters; it is closed when whitespace follows, and open at the end of the text. */
  datatype Token = Token(s: string, closed: bool)

  function WordLength(s: string): (n: nat)
    ensures n <= |s| && (forall k :: 0 <= k < n ==> !Whitespace(s[k])) && (n < |s| ==> Whitespace(s[n]))
  {
    if s == [] || Whitespace(s[0]) then 0 else 1 + WordLength(s[1..])
  }

  function Tokens(s: string): seq<Token>
    decreases |s|
  {
    if s == [] then []
    else if Whitespace(s[0]) then Tokens(s[1..])
    else
      var n := WordLength(s);
      assert n > 0;
      [Token(s[..n], n < |s|)] + Tokens(s[n..])
  }

  /** Position i of the text is the start of a token, or the end. */
  predicate AtToken(code: string, i: nat) { i <= |code| && (i < |code| ==> !Whitespace(code[i])) }

  /** The token that starts at i; at the end of the text an empty, open one. */
  function TokenAt(code: string, i: nat): Token
    requires i <= |code|
  {
    var n := WordLength(code[i..]);
    Token(code[i..i + n], i + n < |code|)
  }

  /** From i, whitespace only up to j, where the next token starts. */
  ghost predicate Gap(code: string, i: nat, j: nat) {
    i <= j && AtToken(code, j) && forall k :: i <= k < j ==> Whitespace(code[k])
  }

  /** Positions j to e are the rest of a token. */
  ghost predicate Rest(code: string, j: nat, e: nat) {
    j <= e <= |code| && (forall k :: j <= k < e ==> !Whitespace(code[k])) && (e < |code| ==> Whitespace(code[e]))
  }

  lemma {:induction false} TokensGap(code: string, i: nat, j: nat)
    requires Gap(code, i, j)
    ensures Tokens(code[i..]) == Tokens(code[j..])
    decreases j - i
  {
    if i < j {
      assert code[i..][1..] == code[i + 1..];
      TokensGap(code, i + 1, j);
    }
  }

  lemma TokensStep(code: string, i: nat)
    requires i < |code| && AtToken(code, i)
    ensures var n := |TokenAt(code, i).s|; n > 0 && i + n <= |code| && Tokens(code[i..]) == [TokenAt(code, i)] + Tokens(code[i + n..])
  {
    var n := WordLength(code[i..]);
    assert code[i..][0] == code[i];
    assert code[i..][..n] == code[i..i + n] && code[i..][n..] == code[i + n..];
  }

  lemma TokenChars(code: string, i: nat)
    requires i <= |code|
    ensures var n := |TokenAt(code, i).s|;
            && i + n <= |code| && TokenAt(code, i).s == code[i..i + n] && TokenAt(code, i).closed == (i + n < |code|)
            && (forall k :: i <= k < i + n ==> !Whitespace(code[k])) && (i + n < |code| ==> Whitespace(code[i + n]))
  {
    var n := WordLength(code[i..]);
    forall k | i <= k < i + n ensures !Whitespace(code[k]) {
      assert code[k] == code[i..][k - i];
    }
  }

  predicate Plain(s: string) { s != [] && forall k :: 0 <= k < |s| ==> !Whitespace(s[k]) }

  lemma WordToken(w: string, ch: char, rest: string)
    requires Plain(w) && Whitespace(ch)
    ensures Tokens(w + [ch] + rest) == [Token(w, true)] + Tokens(rest)
  {
    var s := w + [ch] + rest;
    var n := WordLength(s);
    assert forall k :: 0 <= k < |w| ==> s[k] == w[k];
    assert s[|w|] == ch;
    assert n == |w|;
    assert s[..n] == w && s[n..] == [ch] + rest && ([ch] + rest)[1..] == rest;
  }

  // --------------------------------------------------------------- skipping

  method IgnoreWhitespace(code: string, idx: nat) returns (i: nat)
    requires idx <= |code|
    ensures Gap(code, idx, i)
  {
    i := idx;
    while i < |code| && Whitespace(code[i])
      invariant idx <= i <= |code| && forall k :: idx <= k < i ==> Whitespace(code[k])
    {
      i := i + 1;
    }
  }

  method IgnoreNonWhitespace(code: string, idx: nat) returns (i: nat)
    requires idx <= |code|
    ensures Rest(code, idx, i)
  {
    i := idx;
    while i < |code| && !Whitespace(code[i])
      invariant idx <= i <= |code| && forall k :: idx <= k < i ==> !Whitespace(code[k])
    {
      i := i + 1;
    }
  }

  method ExpectWhitespace(code: string, idx: nat) returns (err: bool, i: nat)
    requires idx <= |code|
    ensures err <==> idx == |code| || !Whitespace(code[idx])
    ensures if err then i == idx else Gap(code, idx, i) && i > idx
  {
    if idx >= |code| || !Whitespace(code[idx]) {
      return true, idx;
    }
    i := IgnoreWhitespace(code, idx);
    return false, i;
  }

  method ExpectWhitespaceOrEnd(code: string, idx: nat) returns (err: bool, i: nat)
    requires idx <= |code|
    ensures err <==> idx < |code| && !Whitespace(code[idx])
    ensures if err then i == idx else Gap(code, idx, i)
  {
    err, i := ExpectWhitespace(code, idx);
    if !err || i >= |code| {
      return false, i;
    }
    return true, i;
  }

  lemma NotPrefix(s: string, t: string, j: nat)
    requires j < |s| && (j >= |t| || t[j] != s[j])
    ensures !(s <= t)
  {
  }

  method ExpectStr(code: string, idx: nat, str: string) returns (err: bool, i: nat)
    requires idx <= |code|
    ensures err <==> !(str <= code[idx..])
    ensures i == if err then idx else idx + |str|
  {
    var j := 0;
    while j < |str|
      invariant 0 <= j <= |str| && idx + j <= |code| && code[idx..idx + j] == str[..j]
    {
      if idx + j >= |code| || code[idx + j] != str[j] {
        NotPrefix(str, code[idx..], j);
        return true, idx;
      }
      assert code[idx..idx + j + 1] == code[idx..idx + j] + [code[idx + j]];
      j := j + 1;
    }
    assert code[idx..][..j] == code[idx..idx + j];
    return false, idx + j;
  }

  // ------------------------------------------------------------ hexadecimal

  function HexDigitOf(ch: char): Option<nat> {
    if '0' <= ch <= '9' then Some(ch as nat - '0' as nat)
    else if 'a' <= ch <= 'f' then Some(ch as nat - 'a' as nat + 10)
    else if 'A' <= ch <= 'F' then Some(ch as nat - 'A' as nat + 10)
    else None
  }

  predicate AllHex(s: string) { forall k :: 0 <= k < |s| ==> HexDigitOf(s[k]).Some? }

  function HexNumber(s: string): nat
    requires AllHex(s)
  {
    if s == [] then 0 else HexNumber(s[..|s| - 1]) * 16 + HexDigitOf(s[|s| - 1]).value
  }

  /** A whole token as a number: 1 to 16 digits, not above max. */
  function Hex(s: string, max: nat): Option<nat> {
    if 1 <= |s| <= 16 && AllHex(s) && HexNumber(s) <= max then Some(HexNumber(s)) else None
  }

  /** The length of the number at the front: at most limit digits. */
  function HexRun(s: string, limit: nat): (n: nat)
    ensures n <= |s| && n <= limit && forall k :: 0 <= k < n ==> HexDigitOf(s[k]).Some?
    ensures n < |s| && n < limit ==> HexDigitOf(s[n]).None?
    decreases limit
  {
    if s == [] || limit == 0 || HexDigitOf(s[0]).None? then 0 else
      var n := 1 + HexRun(s[1..], limit - 1);
      assert forall k :: 1 <= k < n ==> s[k] == s[1..][k - 1];
      n
  }

  lemma {:induction false} HexNumberBound(s: string)
    requires AllHex(s)
    ensures HexNumber(s) < Pow2(4 * |s|)
    decreases |s|
  {
    if s == [] {
      assert Pow2(0) == 1;
    } else {
      var t, d := s[..|s| - 1], HexDigitOf(s[|s| - 1]).value;
      assert d < 16 && HexNumber(s) == HexNumber(t) * 16 + d;
      HexNumberBound(t);
      DigitBound(HexNumber(t), d, |t|);
    }
  }

  lemma DigitBound(x: nat, d: nat, n: nat)
    requires x < Pow2(4 * n) && d < 16
    ensures x * 16 + d < Pow2(4 * (n + 1))
  {
    Pow2Add(4, 4 * n);
    assert Pow2(4) == 16;
    hide Pow2;
  }

  lemma {:induction false} Pow2Le(m: nat, n: nat)
    requires m <= n
    ensures Pow2(m) <= Pow2(n)
    decreases n
  {
    if m < n { Pow2Le(m, n - 1); }
  }

  lemma {:induction false} HexPrefix(s: string, n: nat)
    requires AllHex(s) && n <= |s|
    ensures HexNumber(s[..n]) <= HexNumber(s)
    decreases |s|
  {
    if n < |s| {
      var t := s[..|s| - 1];
      assert t[..n] == s[..n];
      HexPrefix(t, n);
    } else {
      assert s[..n] == s;
    }
  }

  /** One more digit, as the C code shifts it in. */
  lemma HexShift(s: string, ch: char)
    requires AllHex(s) && |s| < 16 && HexDigitOf(ch).Some?
    ensures AllHex(s + [ch]) && HexNumber(s + [ch]) < W64
    ensures HexNumber(s) < W64 && Bitwise(BitOr, HexDigitOf(ch).value, ToWord(HexNumber(s) * 16)) == HexNumber(s + [ch])
  {
    var u, d := s + [ch], HexDigitOf(ch).value;
    assert u[..|s|] == s && HexNumber(u) == HexNumber(s) * 16 + d && d < 16;
    HexNumberBound(u);
    hide *;
    Pow2Le(4 * |u|, 64);
    Pow2At64();
    OrDigit(d, HexNumber(s));
  }

  lemma HexNext(rest: string, k: nat, n: nat)
    requires n == HexRun(rest, 16) && k < 16 && k <= n && k < |rest| && HexDigitOf(rest[k]).Some? && AllHex(rest[..k])
    ensures k < n && AllHex(rest[..k + 1]) && HexNumber(rest[..k]) < W64 && HexNumber(rest[..k + 1]) <= HexNumber(rest[..n])
    ensures HexNumber(rest[..k + 1]) == Bitwise(BitOr, HexDigitOf(rest[k]).value, ToWord(HexNumber(rest[..k]) * 16)) < W64
  {
    hide HexNumber, Bitwise, HexDigitOf, HexRun, ToWord;
    assert rest[..k + 1] == rest[..k] + [rest[k]];
    assert rest[..n][..k + 1] == rest[..k + 1];
    HexShift(rest[..k], rest[k]);
    HexPrefix(rest[..n], k + 1);
  }

  lemma NoDigit()
    ensures AllHex("") && HexNumber("") == 0
  {
  }

  lemma DigitSmall(ch: char)
    ensures HexDigitOf(ch).Some? ==> HexDigitOf(ch).value < 16
  {
  }

  method ExpectHex(code: string, idx: nat, max: Word) returns (err: bool, i: nat, output: Word)
    requires idx <= |code|
    ensures var n := HexRun(code[idx..], 16);
            && (err <==> n == 0 || HexNumber(code[idx..][..n]) > max)
            && (if err then i == idx else i == idx + n && output == HexNumber(code[idx..][..n]))
  {
    hide Bitwise, ToWord, HexNumber, HexRun, HexDigitOf;
    ghost var rest := code[idx..];
    ghost var n := HexRun(rest, 16);
    NoDigit();
    var res: Word := 0;
    var k := 0;
    while k < 16 && idx + k < |code|
      invariant 0 <= k <= n && idx + k <= |code| && AllHex(rest[..k]) && res == HexNumber(rest[..k]) <= max
    {
      assert code[idx + k] == rest[k];
      var tmp := HexDigitOf(code[idx + k]);
      if tmp.None? {
        break;
      }
      DigitSmall(code[idx + k]);
      var pval := Bitwise(BitOr, tmp.value, ToWord(res * 16));
      HexNext(rest, k, n);
      if pval > max {
        return true, idx, 0;
      }
      res := pval;
      k := k + 1;
    }
    if k == 0 {
      return true, idx, 0;
    }
    return false, idx + k, res;
  }
}
