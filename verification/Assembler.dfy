/**
 The assembler of x86_64/asm.c: what a text means, read token by token, and the one-pass routine with its list
 of label references that computes it.
 */
module Assembler {
  import opened Bits
  import opened Words
  import opened Machine
  import opened Encoding
  import opened Masks
  import opened Scanner

  // ---------------------------------------------------------------- meaning

  /** The last argument of a line; a reference is resolved when all labels are known. */
  datatype Last = LReg(r: nat) | LImm(i: int) | LRef(t: Token)

  datatype Item = Literal(w: Word) | Line(op: Opcode, a: nat, b: nat, last: Last)

  /** A label and the index of the word after it. */
  datatype Mark = Mark(name: Token, addr: nat)

  /** Each item is one word. */
  datatype Listing = Listing(items: seq<Item>, marks: seq<Mark>)

  const NAMES: seq<string> :=
    ["acx", "ads", "sbs", "mls", "mlu", "dvs", "dvu", "and", "orr", "xor", "nor", "shf", "ldr", "str", "jnc", "exc"]

  /** The first opcode from the k-th on with this name. */
  function NameNumber(s: string, k: nat): (r: Option<nat>)
    requires k <= 16
    ensures r.Some? ==> k <= r.value < 16 && NAMES[r.value] == s
    decreases 16 - k
  {
    if k == 16 then None else if NAMES[k] == s then Some(k) else NameNumber(s, k + 1)
  }

  function AsReg(s: string): (r: Option<nat>)
    ensures r.Some? ==> r.value < NUM_REGS
  {
    if s != [] && s[0] == 'r' then Hex(s[1..], NUM_REGS - 1) else None
  }

  function AsImm(s: string): (r: Option<int>)
    ensures r.Some? ==> 0 - IMM_LIMIT < r.value < IMM_LIMIT
  {
    if s != [] && s[0] == '-' then
      match Hex(s[1..], IMM_LIMIT - 1) case None => None case Some(v) => Some(0 - v)
    else
      match Hex(s, IMM_LIMIT - 1) case None => None case Some(v) => Some(v)
  }

  function LastOf(t: Token): Last {
    if AsImm(t.s).Some? then LImm(AsImm(t.s).value)
    else if AsReg(t.s).Some? then LReg(AsReg(t.s).value)
    else LRef(t)
  }

  /** The line that starts with an opcode: the third argument may be missing at the end of the text. */
  function LineOf(op: Opcode, args: seq<Token>): Option<Item> {
    if |args| < 2 || !args[1].closed then None else
      var a, b := AsReg(args[0].s), AsReg(args[1].s);
      if a.None? || b.None? then None else
        Some(Line(op, a.value, b.value, LastOf(if |args| == 2 then Token("", false) else args[2])))
  }

  /** The tokens after a line. The label r as an argument takes the next token with it. */
  function AfterLast(ts: seq<Token>): seq<Token> {
    if |ts| > 1 && ts[0].s == "r" then ts[2..] else if ts != [] then ts[1..] else []
  }

  /** Reading the tokens one item after the other, with what came before. */
  function Parse(ts: seq<Token>, l: Listing): Option<Listing>
    decreases |ts|
  {
    if ts == [] then Some(l)
    else if Hex(ts[0].s, W64 - 1).Some? then
      Parse(ts[1..], l.(items := l.items + [Literal(Hex(ts[0].s, W64 - 1).value)]))
    else if NameNumber(ts[0].s, 0).Some? && ts[0].closed then
      match LineOf(OpcodeOf(NameNumber(ts[0].s, 0).value).value, ts[1..])
      case None => None
      case Some(line) => Parse(AfterLast(ts[3..]), l.(items := l.items + [line]))
    else
      Parse(ts[1..], l.(marks := l.marks + [Mark(ts[0], |l.items|)]))
  }

  /** Labels are compared up to whitespace, or up to the end of the text. */
  predicate SameLabel(r: Token, d: Token) {
    (r.closed && d.closed && r.s == d.s) || (!r.closed && r.s <= d.s) || (!d.closed && d.s <= r.s)
  }

  /** The address of the first label that matches. */
  function Find(marks: seq<Mark>, t: Token): Option<nat> {
    if marks == [] then None else if SameLabel(t, marks[0].name) then Some(marks[0].addr) else Find(marks[1..], t)
  }

  function OperandOf(last: Last, marks: seq<Mark>): Option<Operand> {
    match last
    case LReg(r) => Some(Reg(r))
    case LImm(i) => Some(Imm(i))
    case LRef(t) => match Find(marks, t) case None => None case Some(addr) => Some(Imm(addr))
  }

  function WordOf(it: Item, marks: seq<Mark>): Option<Word> {
    match it
    case Literal(w) => Some(w)
    case Line(op, a, b, last) =>
      var c := OperandOf(last, marks);
      if c.Some? && WellFormed(Instr(op, a, b, c.value)) then Some(Encode(Instr(op, a, b, c.value))) else None
  }

  function Translate(l: Listing): Option<seq<Word>> {
    if forall k :: 0 <= k < |l.items| ==> WordOf(l.items[k], l.marks).Some?
    then Some(seq(|l.items|, k requires 0 <= k < |l.items| => WordOf(l.items[k], l.marks).value)) else None
  }

  /** What compile makes of a non-empty text. */
  function Assembled(code: string): Option<seq<Word>> {
    match Parse(Tokens(code), Listing([], [])) case None => None case Some(l) => Translate(l)
  }

  // ------------------------------------------------------ tokens in the text

  lemma BlankIsNoDigit(ch: char)
    requires Whitespace(ch)
    ensures HexDigitOf(ch).None?
  {
  }

  lemma HexWhole(rest: string, u: string, n: nat)
    requires n == HexRun(rest, 16) <= |u| && u <= rest
    ensures AllHex(rest[..n]) && (n == |u| <==> AllHex(u) && |u| <= 16) && (n == |u| ==> rest[..n] == u)
  {
    if n < |u| && n < 16 {
      assert rest[n] == u[n];
    }
  }

  /** Digits up to the end e of a token are the number that the rest of the token is. */
  lemma HexToken(code: string, j: nat, e: nat, max: nat)
    requires Rest(code, j, e)
    ensures var n := HexRun(code[j..], 16);
            && j + n <= e
            && (n > 0 && HexNumber(code[j..][..n]) <= max && j + n == e <==> Hex(code[j..e], max).Some?)
            && (j + n == e ==> code[j..][..n] == code[j..e])
  {
    var rest, n := code[j..], HexRun(code[j..], 16);
    if e < |code| {
      BlankIsNoDigit(code[e]);
      assert rest[e - j] == code[e];
    }
    assert j + n == e ==> rest[..n] == code[j..e];
    HexWhole(rest, code[j..e], n);
    hide HexNumber, HexRun, HexDigitOf;
  }

  /** A number, and after it whitespace or the end: the rest of the token must be the number. */
  method ExpectNumber(code: string, j: nat, ghost e: nat, max: Word) returns (err: bool, i: nat, output: Word)
    requires Rest(code, j, e)
    ensures err <==> Hex(code[j..e], max).None?
    ensures !err ==> output == Hex(code[j..e], max).value && Gap(code, e, i)
    ensures err ==> if j == e then Gap(code, e, i) else j <= i <= e
  {
    HexToken(code, j, e, max);
    hide HexRun, HexNumber, AllHex, Hex;
    err, i, output := ExpectHex(code, j, max);
    assert i <= e && (i < e ==> i < |code| && !Whitespace(code[i]));
    var err2: bool;
    err2, i := ExpectWhitespaceOrEnd(code, i);
    err := err || err2;
  }

  lemma TokenRest(code: string, idx: nat)
    requires AtToken(code, idx)
    ensures var e := idx + |TokenAt(code, idx).s|;
            && Rest(code, idx, e) && (idx < e ==> Rest(code, idx + 1, e)) && code[idx..e] == TokenAt(code, idx).s
            && TokenAt(code, idx).closed == (e < |code|)
  {
    TokenChars(code, idx);
  }

  method NumberToken(code: string, idx: nat) returns (err: bool, i: nat, w: Word)
    requires AtToken(code, idx) && idx < |code|
    ensures var t := TokenAt(code, idx);
            && (err <==> Hex(t.s, W64 - 1).None?)
            && (!err ==> w == Hex(t.s, W64 - 1).value && Gap(code, idx + |t.s|, i))
  {
    assert W64 - 1 == 0xffff_ffff_ffff_ffff;
    hide *;
    TokenRest(code, idx);
    err, i, w := ExpectNumber(code, idx, idx + |TokenAt(code, idx).s|, 0xffff_ffff_ffff_ffff);
  }

  /** A number with whitespace after it. */
  method ExpectClosedNumber(code: string, j: nat, ghost e: nat, max: Word) returns (err: bool, i: nat, output: Word)
    requires Rest(code, j, e)
    ensures err <==> Hex(code[j..e], max).None? || e == |code|
    ensures !err ==> output == Hex(code[j..e], max).value && Gap(code, e, i) && j < i
  {
    HexToken(code, j, e, max);
    hide HexRun, HexNumber, AllHex, Hex;
    err, i, output := ExpectHex(code, j, max);
    if err {
      return;
    }
    assert i <= e && (i < e ==> i < |code| && !Whitespace(code[i]));
    err, i := ExpectWhitespace(code, i);
  }

  lemma AtBounds(code: string, idx: nat)
    requires AtToken(code, idx)
    ensures idx <= |code|
  {
  }

  method ExpectRegister(code: string, idx: nat) returns (err: bool, i: nat, r: Word)
    requires AtToken(code, idx)
    ensures var t := TokenAt(code, idx);
            && (err <==> AsReg(t.s).None? || !t.closed)
            && (!err ==> r == AsReg(t.s).value && Gap(code, idx + |t.s|, i) && idx < i)
  {
    hide *;
    AtBounds(code, idx);
    ghost var t := TokenAt(code, idx);
    AsRegIs(t.s);
    TokenRest(code, idx);
    ArgumentStarts();
    TokenFront(code, idx, 'r');
    r := 0;
    err, i := ExpectStr(code, idx, "r");
    if err {
      return;
    }
    err, i, r := ExpectClosedNumber(code, i, idx + |t.s|, NUM_REGS - 1);
  }

  /** A token starts with ch exactly when the text goes on with ch. */
  lemma TokenFront(code: string, idx: nat, ch: char)
    requires AtToken(code, idx) && !Whitespace(ch)
    ensures var s := TokenAt(code, idx).s;
            && ([ch] <= code[idx..] <==> s != [] && s[0] == ch)
            && (s != [] ==> idx + |s| <= |code| && s[1..] == code[idx + 1..idx + |s|])
  {
    TokenChars(code, idx);
    var s := TokenAt(code, idx).s;
    if idx < |code| {
      assert code[idx..][0] == code[idx];
      assert |s| > 0;
      assert s[1..] == code[idx + 1..idx + |s|];
      assert [ch] <= code[idx..] <==> code[idx] == ch;
    }
  }

  // ----------------------------------------------------------------- opcodes

  /** The inner loop of match_opcode: one name, until a difference or the end of the text. */
  method MatchName(code: string, idx: nat, name: string) returns (ended: bool, same: bool)
    requires idx <= |code| && |name| == 3
    ensures ended ==> idx + 3 > |code|
    ensures !ended ==> (same <==> idx + 3 <= |code| && code[idx..idx + 3] == name)
  {
    var j := 0;
    while j < 3
      invariant 0 <= j <= 3 && idx + j <= |code| && name[..j] == code[idx..idx + j]
    {
      if idx + j >= |code| {
        return true, false;
      }
      if name[j] != code[idx + j] {
        assert idx + 3 <= |code| ==> code[idx..idx + 3][j] == code[idx + j];
        return false, false;
      }
      assert name[..j + 1] == name[..j] + [name[j]] && code[idx..idx + j + 1] == code[idx..idx + j] + [code[idx + j]];
      j := j + 1;
    }
    assert name == name[..3];
    return false, true;
  }

  /** match_opcode: the first opcode whose name the text goes on with. */
  method MatchOpcode(code: string, idx: nat) returns (err: bool, i: nat, op: nat)
    requires idx <= |code|
    ensures if idx + 3 <= |code| && NameNumber(code[idx..idx + 3], 0).Some?
            then !err && i == idx + 3 && op == NameNumber(code[idx..idx + 3], 0).value else err && i == idx
  {
    for k := 0 to 16
      invariant idx + 3 <= |code| ==> NameNumber(code[idx..idx + 3], 0) == NameNumber(code[idx..idx + 3], k)
    {
      NameChars(k);
      var ended, same := MatchName(code, idx, NAMES[k]);
      if ended {
        return true, idx, 0;
      }
      if same {
        return false, idx + 3, k;
      }
    }
    return true, idx, 0;
  }

  /** An opcode and the whitespace after it. */
  method OpcodeToken(code: string, idx: nat) returns (err: bool, i: nat, op: nat)
    requires AtToken(code, idx) && idx < |code|
    ensures var t := TokenAt(code, idx);
            && (err <==> NameNumber(t.s, 0).None? || !t.closed)
            && (!err ==> op == NameNumber(t.s, 0).value && Gap(code, idx + |t.s|, i))
  {
    TokenChars(code, idx);
    ghost var t := TokenAt(code, idx);
    NamesAreWords(t.s);
    err, i, op := MatchOpcode(code, idx);
    if !err {
      NamesAreWords(code[idx..idx + 3]);
      var err2: bool;
      err2, i := ExpectWhitespace(code, i);
      err := err2;
      OpcodeEnds(code, idx);
    } else {
      OpcodeEnds(code, idx);
    }
  }

  lemma NamesAreWords(s: string)
    ensures NameNumber(s, 0).Some? ==> |s| == 3 && forall k :: 0 <= k < 3 ==> !Whitespace(s[k])
  {
    hide *;
    if NameNumber(s, 0).Some? {
      NameChars(NameNumber(s, 0).value);
      LettersAreNoBlank(s);
    }
  }

  lemma LettersAreNoBlank(s: string)
    requires |s| == 3 && 'a' <= s[0] <= 'z' && 'a' <= s[1] <= 'z' && 'a' <= s[2] <= 'z'
    ensures forall k :: 0 <= k < 3 ==> !Whitespace(s[k])
  {
  }

  lemma NameChars(n: nat)
    requires n < 16
    ensures |NAMES[n]| == 3 && 'a' <= NAMES[n][0] <= 'z' && 'a' <= NAMES[n][1] <= 'z' && 'a' <= NAMES[n][2] <= 'z'
  {
  }

  /** Three characters that are a name are the whole token exactly when whitespace follows them. */
  lemma OpcodeEnds(code: string, idx: nat)
    requires AtToken(code, idx) && idx < |code|
    ensures var t := TokenAt(code, idx);
            NameNumber(t.s, 0).Some? && t.closed <==>
              idx + 3 < |code| && NameNumber(code[idx..idx + 3], 0).Some? && Whitespace(code[idx + 3])
    ensures idx + 3 < |code| && NameNumber(code[idx..idx + 3], 0).Some? && Whitespace(code[idx + 3]) ==>
              TokenAt(code, idx).s == code[idx..idx + 3]
  {
    TokenChars(code, idx);
    var t := TokenAt(code, idx);
    NamesAreWords(t.s);
    if idx + 3 < |code| && NameNumber(code[idx..idx + 3], 0).Some? && Whitespace(code[idx + 3]) {
      NamesAreWords(code[idx..idx + 3]);
      assert forall k :: idx <= k < idx + 3 ==> code[k] == code[idx..idx + 3][k - idx];
      assert |t.s| == 3;
    }
  }

  // ------------------------------------------------------------- instructions

  lemma FieldPowers()
    ensures Pow2(41) == P41 && Pow2(46) == P46 && Pow2(51) == P51 && Pow2(56) == P56
  {
    assert Pow2(5) == 32 && Pow2(8) == 256;
    Pow2At64();
    Pow2Add(56, 8);
    Pow2Add(51, 5);
    Pow2Add(46, 5);
    Pow2Add(41, 5);
  }

  /** Putting a field under what is there already. */
  lemma OrField(w: Word, f: nat, at: nat)
    requires at <= 64 && f < Pow2(at) && Pow2(at) > 0 && w % Pow2(at) == 0
    ensures f < W64 && Bitwise(BitOr, f, w) == w + f
  {
    Pow2Le(at, 64);
    Pow2At64();
    hide Pow2, Bitwise;
    BitwiseOr(f, w, at);
  }

  /** The fields before the last argument. */
  function Fixed(op: nat, a: nat, b: nat): nat { op * P56 + a * P51 + b * P46 }

  lemma Pack(op: nat, a: nat, b: nat)
    requires op < 16 && a < 32 && b < 32
    ensures Fixed(op, a, b) < W63 && op * P56 < W64 && a * P51 < W64 && b * P46 < W64
    ensures op * P56 + a * P51 < W64
    ensures Combined(a * P51, op * P56) == op * P56 + a * P51
    ensures Combined(b * P46, op * P56 + a * P51) == Fixed(op, a, b)
  {
    FieldPowers();
    hide Pow2, Bitwise;
    OrField(op * P56, a * P51, 56);
    OrField(op * P56 + a * P51, b * P46, 51);
  }

  /** The places that the fields are shifted to. */
  lemma PackShifts(op: nat, a: nat, b: nat, r: nat)
    requires op < 16 && a < 32 && b < 32 && r < 32
    ensures ShiftLeft(op, OPCODE_START) == op * P56 && ShiftLeft(a, OPCODE_START - ARG_SIZE) == a * P51
    ensures ShiftLeft(b, OPCODE_START - 2 * ARG_SIZE) == b * P46 && ShiftLeft(r, OPCODE_START - 3 * ARG_SIZE) == r * P41
  {
    FieldPowers();
    hide ShiftLeft, Pow2;
    ShiftedField(op, 56, P56);
    ShiftedField(a, 51, P51);
    ShiftedField(b, 46, P46);
    ShiftedField(r, 41, P41);
  }

  /** The opcode and the register arguments, moved into place one after the other. */
  method PackArgs(op: nat, r1: Word, r2: Word) returns (instr: Word)
    requires op < 16 && r1 < 32 && r2 < 32
    ensures instr == Fixed(op, r1, r2)
  {
    hide *;
    ImmediateLimit();
    PackShifts(op, r1, r2, 0);
    Pack(op, r1, r2);
    var instr_idx := OPCODE_START;
    instr := ShiftLeft(op, instr_idx);
    instr_idx := instr_idx - ARG_SIZE;
    instr := Combined(ShiftLeft(r1, instr_idx), instr);
    instr_idx := instr_idx - ARG_SIZE;
    instr := Combined(ShiftLeft(r2, instr_idx), instr);
  }

  lemma PackLast(op: nat, a: nat, b: nat, low: nat)
    requires op < 16 && a < 32 && b < 32 && low < P46
    ensures Fixed(op, a, b) + low < W63 && Combined(low, Fixed(op, a, b)) == Fixed(op, a, b) + low
  {
    FieldPowers();
    hide Pow2, Bitwise;
    assert Fixed(op, a, b) % P46 == 0;
    OrField(Fixed(op, a, b), low, 46);
  }

  lemma PackFlag(w: Word)
    requires w < W63
    ensures Combined(w, W63) == w + W63
  {
    Pow2At64();
    hide Pow2, Bitwise;
    BitwiseOr(w, W63, 63);
  }

  // ---------------------------------------------------------- last argument

  /** An immediate: a sign, digits, and whitespace or the end. */
  method ImmediateArg(code: string, idx: nat) returns (err: bool, i: nat, not_neg: bool, output: Word)
    requires AtToken(code, idx)
    ensures var t := TokenAt(code, idx);
            && (err <==> AsImm(t.s).None?)
            && (!err ==> AsImm(t.s).value == (if not_neg then output else 0 - output) && Gap(code, idx + |t.s|, i))
  {
    ghost var t := TokenAt(code, idx);
    ghost var e := idx + |t.s|;
    AsImmIs(t.s);
    hide *;
    TokenFront(code, idx, '-');
    TokenRest(code, idx);
    ArgumentStarts();
    not_neg, i := ExpectStr(code, idx, "-");
    MaskValues();
    ImmediateLimit();
    err, i, output := ExpectNumber(code, i, e, ShiftRight(FlxOpMask(N_ARGS), 1));
  }

  lemma ImmediateLimit()
    ensures N_ARGS == 3 && BITS == 64 && OPCODE_START == 56 && ARG_SIZE == 5
  {
  }

  lemma AsImmIs(s: string)
    ensures if s != [] && s[0] == '-'
            then AsImm(s) == (match Hex(s[1..], IMM_LIMIT - 1) case None => None case Some(v) => Some(0 - v))
            else AsImm(s) == (match Hex(s, IMM_LIMIT - 1) case None => None case Some(v) => Some(v))
  {
  }

  lemma ArgumentStarts()
    ensures !Whitespace('-') && !Whitespace('r') && NUM_REGS == 32
  {
  }

  /** A register; where it fails, the scan has moved on, past the token when that is a lone r. */
  method RegisterArg(code: string, idx: nat) returns (err: bool, i: nat, output: Word)
    requires AtToken(code, idx) && AsImm(TokenAt(code, idx).s).None?
    ensures var t := TokenAt(code, idx); var e := idx + |t.s|;
            && (err <==> AsReg(t.s).None?)
            && (!err ==> AsReg(t.s).value == output && Gap(code, e, i))
            && (err ==> if t.s == "r" && t.closed then Gap(code, e, i) else idx <= i <= e)
  {
    ghost var t := TokenAt(code, idx);
    ghost var e := idx + |t.s|;
    AsRegIs(t.s);
    hide *;
    ArgumentStarts();
    TokenFront(code, idx, 'r');
    NoDigits(t.s);
    TokenRest(code, idx);
    var err1: bool;
    err1, i := ExpectStr(code, idx, "r");
    err, i, output := ExpectNumber(code, i, e, NUM_REGS - 1);
    err := err1 || err;
  }

  lemma AsRegIs(s: string)
    ensures AsReg(s) == if s != [] && s[0] == 'r' then Hex(s[1..], NUM_REGS - 1) else None
    ensures s == "r" <==> s != [] && s[0] == 'r' && |s| == 1
  {
  }

  lemma NoDigits(s: string)
    requires AsImm(s).None?
    ensures Hex(s, NUM_REGS - 1).None? && Hex("", NUM_REGS - 1).None?
  {
    if s != [] && s[0] == '-' {
      assert HexDigitOf(s[0]).None?;
    }
  }

  // ------------------------------------------------------------- after a token

  lemma AfterToken(code: string, idx: nat, i: nat)
    requires AtToken(code, idx) && Gap(code, idx + |TokenAt(code, idx).s|, i)
    ensures Tokens(code[idx..]) == if idx == |code| then [] else [TokenAt(code, idx)] + Tokens(code[i..])
    ensures i == |code| || AtToken(code, i)
  {
    TokenChars(code, idx);
    TokensGap(code, idx + |TokenAt(code, idx).s|, i);
    if idx < |code| { TokensStep(code, idx); }
  }

  /** Past a label that is the last argument: from inside its token, or from the start of the next. */
  method SkipReference(code: string, idx: nat, at: nat) returns (i: nat)
    requires AtToken(code, idx) && LastOf(TokenAt(code, idx)).LRef?
    requires var t := TokenAt(code, idx);
             if t.s == "r" && t.closed then Gap(code, idx + |t.s|, at) else idx <= at <= idx + |t.s|
    ensures AtToken(code, i) && idx <= i && Tokens(code[i..]) == AfterLast(Tokens(code[idx..]))
  {
    hide *;
    SkipBounds(code, idx, at);
    var mid := IgnoreNonWhitespace(code, at);
    i := IgnoreWhitespace(code, mid);
    if TokenAt(code, idx).s == "r" && TokenAt(code, idx).closed {
      SkippedNext(code, idx, at, mid, i);
    } else {
      SkippedRest(code, idx, at, mid, i);
    }
  }

  lemma SkipBounds(code: string, idx: nat, at: nat)
    requires AtToken(code, idx)
    requires var t := TokenAt(code, idx);
             if t.s == "r" && t.closed then Gap(code, idx + |t.s|, at) else idx <= at <= idx + |t.s|
    ensures idx <= |code| && at <= |code|
  {
    TokenRest(code, idx);
  }

  /** Past the token after a lone r. */
  lemma SkippedNext(code: string, idx: nat, at: nat, mid: nat, i: nat)
    requires AtToken(code, idx) && TokenAt(code, idx).s == "r" && TokenAt(code, idx).closed && Gap(code, idx + |TokenAt(code, idx).s|, at)
    requires Rest(code, at, mid) && Gap(code, mid, i)
    ensures AtToken(code, i) && idx <= i && Tokens(code[i..]) == AfterLast(Tokens(code[idx..]))
  {
    hide Tokens, TokenAt;
    TokenRest(code, idx);
    AfterToken(code, idx, at);
    TokenRest(code, at);
    assert mid == at + |TokenAt(code, at).s|;
    AfterToken(code, at, i);
  }

  /** Past the rest of the token. */
  lemma SkippedRest(code: string, idx: nat, at: nat, mid: nat, i: nat)
    requires AtToken(code, idx) && !(TokenAt(code, idx).s == "r" && TokenAt(code, idx).closed)
    requires idx <= at <= idx + |TokenAt(code, idx).s| && Rest(code, at, mid) && Gap(code, mid, i)
    ensures AtToken(code, i) && idx <= i && Tokens(code[i..]) == AfterLast(Tokens(code[idx..]))
  {
    hide Tokens, TokenAt;
    TokenRest(code, idx);
    assert mid == idx + |TokenAt(code, idx).s|;
    AfterToken(code, idx, i);
    OpenIsLast(code, idx);
  }

  lemma RIsNoReference(t: Token)
    ensures t.s == "r" ==> LastOf(t).LRef?
  {
  }

  /** The word of a line before labels are resolved. */
  function Unresolved(op: nat, a: nat, b: nat, last: Last): int {
    match last
    case LReg(r) => Fixed(op, a, b) + r * P41 + W63
    case LImm(i) => Fixed(op, a, b) + if i < 0 then P46 + i else i
    case LRef(_) => Fixed(op, a, b)
  }

  lemma PackRegister(op: nat, a: nat, b: nat, r: nat)
    requires op < 16 && a < 32 && b < 32 && r < 32
    ensures r * P41 < W64 && Fixed(op, a, b) + r * P41 < W63 && Fixed(op, a, b) + r * P41 + W63 < W64
    ensures Combined(r * P41, Fixed(op, a, b)) == Fixed(op, a, b) + r * P41
    ensures Combined(Fixed(op, a, b) + r * P41, W63) == Fixed(op, a, b) + r * P41 + W63
  {
    PackLast(op, a, b, r * P41);
    hide Bitwise, Fixed;
    PackFlag(Fixed(op, a, b) + r * P41);
  }

  /** Masking the two's complement to 46 bits. */
  lemma NegativeImmediate(v: Word)
    requires v < IMM_LIMIT
    ensures Masked(Add(Complement(v), 1), FlxOpMask(N_ARGS)) == if v == 0 then 0 else P46 - v
  {
    hide Masked, FlxOpMask;
    var x := Add(Complement(v), 1);
    LowField(x);
    if v == 0 {
      assert x == 0;
    } else {
      assert x == W64 - v;
      DivMod(x, P46, 0x3_ffff, P46 - v);
    }
  }

  method PackRegisterArg(instr: Word, r: Word, ghost op: nat, ghost a: nat, ghost b: nat) returns (word: Word)
    requires op < 16 && a < 32 && b < 32 && r < 32 && instr == Fixed(op, a, b)
    ensures word == Unresolved(op, a, b, LReg(r))
  {
    hide *;
    PackShifts(op, a, b, r);
    PackRegister(op, a, b, r);
    UnresolvedIs(op, a, b, r, 0);
    MaskValues();
    ImmediateLimit();
    word := Combined(ShiftLeft(r, OPCODE_START - N_ARGS * ARG_SIZE), instr);
    word := Combined(word, FlagBit());
  }

  method PackImmediateArg(instr: Word, not_neg: bool, v: Word, ghost op: nat, ghost a: nat, ghost b: nat) returns (word: Word)
    requires op < 16 && a < 32 && b < 32 && v < IMM_LIMIT && instr == Fixed(op, a, b)
    ensures word == Unresolved(op, a, b, LImm(if not_neg then v else 0 - v))
  {
    hide *;
    NegativeImmediate(v);
    UnresolvedIs(op, a, b, 0, if not_neg then v else 0 - v);
    var output := v;
    if !not_neg {
      output := Masked(Add(Complement(output), 1), FlxOpMask(N_ARGS));
    }
    PackLast(op, a, b, output);
    word := Combined(output, instr);
  }

  lemma UnresolvedIs(op: nat, a: nat, b: nat, r: nat, i: int)
    ensures Unresolved(op, a, b, LReg(r)) == Fixed(op, a, b) + r * P41 + W63
    ensures Unresolved(op, a, b, LImm(i)) == Fixed(op, a, b) + if i < 0 then P46 + i else i
    ensures IMM_LIMIT < P46
  {
  }

  /** The last argument goes into the word; that of a reference stays zero for now. */
  method LastArgument(code: string, idx: nat, instr: Word, ghost op: nat, ghost a: nat, ghost b: nat)
    returns (i: nat, word: Word, reference: bool)
    requires AtToken(code, idx) && op < 16 && a < 32 && b < 32 && instr == Fixed(op, a, b)
    ensures AtToken(code, i) && idx <= i && Tokens(code[i..]) == AfterLast(Tokens(code[idx..]))
    ensures word == Unresolved(op, a, b, LastOf(TokenAt(code, idx)))
    ensures reference <==> LastOf(TokenAt(code, idx)).LRef?
  {
    ghost var t := TokenAt(code, idx);
    LastCases(code, idx);
    assert forall u :: Unresolved(op, a, b, LRef(u)) == Fixed(op, a, b);
    hide *;
    word, reference := instr, false;
    var err, j, not_neg, output := ImmediateArg(code, idx);
    if err {
      err, j, output := RegisterArg(code, idx);
      if err {
        reference := true;
        i := SkipReference(code, idx, j);
        return;
      }
      word := PackRegisterArg(instr, output, op, a, b);
    } else {
      word := PackImmediateArg(instr, not_neg, output, op, a, b);
    }
    i := IgnoreWhitespace(code, j);
    GapGap(code, idx + |t.s|, j, i);
    AfterToken(code, idx, i);
  }

  lemma GapGap(code: string, e: nat, i: nat, j: nat)
    requires Gap(code, e, i) && Gap(code, i, j)
    ensures Gap(code, e, j) && e <= j
  {
  }

  /** How the last argument is read, and what comes after it. */
  lemma LastCases(code: string, idx: nat)
    requires AtToken(code, idx)
    ensures var t, last := TokenAt(code, idx), LastOf(TokenAt(code, idx));
            && (if AsImm(t.s).Some? then last == LImm(AsImm(t.s).value) && 0 - IMM_LIMIT < AsImm(t.s).value < IMM_LIMIT
                else if AsReg(t.s).Some? then last == LReg(AsReg(t.s).value) && AsReg(t.s).value < 32
                else last == LRef(t))
            && (last.LRef? || t.s != "r")
    ensures AfterLast(Tokens(code[idx..])) ==
              if |Tokens(code[idx..])| > 1 && Tokens(code[idx..])[0].s == "r" then Tokens(code[idx..])[2..]
              else if Tokens(code[idx..]) != [] then Tokens(code[idx..])[1..] else []
  {
    RIsNoReference(TokenAt(code, idx));
  }

  /** Only the last token can be open. */
  lemma OpenIsLast(code: string, idx: nat)
    requires AtToken(code, idx)
    ensures idx == |code| ==> Tokens(code[idx..]) == []
    ensures idx < |code| ==> Tokens(code[idx..]) != [] && Tokens(code[idx..])[0] == TokenAt(code, idx)
    ensures !TokenAt(code, idx).closed ==> |Tokens(code[idx..])| <= 1
  {
    TokenRest(code, idx);
    if idx < |code| {
      TokensStep(code, idx);
    }
  }

  lemma TokenAtEnd(code: string)
    ensures TokenAt(code, |code|) == Token("", false) && AtToken(code, |code|)
  {
  }

  /** The arguments start with two registers. */
  predicate Registers(args: seq<Token>) { |args| >= 2 && AsReg(args[0].s).Some? && AsReg(args[1].s).Some? && args[1].closed }

  lemma NextTokens(code: string, idx: nat, i: nat)
    requires AtToken(code, idx) && idx < |code| && Gap(code, idx + |TokenAt(code, idx).s|, i)
    ensures AtToken(code, i) && idx <= i && Tokens(code[idx..]) == [TokenAt(code, idx)] + Tokens(code[i..])
    ensures TokenAt(code, i) == if i == |code| then Token("", false) else Tokens(code[i..])[0]
    ensures Tokens(code[i..]) == [] <==> i == |code|
  {
    AfterToken(code, idx, i);
    OpenIsLast(code, i);
    TokenAtEnd(code);
  }

  lemma EmptyIsNoRegister(code: string)
    ensures AsReg(TokenAt(code, |code|).s).None?
  {
    TokenAtEnd(code);
  }

  /** The register arguments: all but the last one. */
  method RegisterArgs(code: string, idx: nat) returns (err: bool, i: nat, r1: Word, r2: Word)
    requires AtToken(code, idx)
    ensures var args := Tokens(code[idx..]);
            && (err <==> !Registers(args))
            && (!err ==> |args| >= 2 && AsReg(args[0].s) == Some(r1) && AsReg(args[1].s) == Some(r2) && r1 < 32 && r2 < 32)
            && (!err ==> AtToken(code, i) && idx <= i && Tokens(code[i..]) == args[2..])
            && (!err ==> TokenAt(code, i) == if |args| == 2 then Token("", false) else args[2])
  {
    hide Tokens, TokenAt, AsReg, Gap, Whitespace;
    OpenIsLast(code, idx);
    EmptyIsNoRegister(code);
    r2 := 0;
    err, i, r1 := ExpectRegister(code, idx);
    if err {
      return;
    }
    ghost var i1 := i;
    NextTokens(code, idx, i1);
    OpenIsLast(code, i1);
    err, i, r2 := ExpectRegister(code, i);
    if err {
      return;
    }
    NextTokens(code, i1, i);
  }

  lemma LineIs(op: Opcode, args: seq<Token>, last: Token)
    requires Registers(args) ==> last == if |args| == 2 then Token("", false) else args[2]
    ensures LineOf(op, args) ==
              if Registers(args) then Some(Line(op, AsReg(args[0].s).value, AsReg(args[1].s).value, LastOf(last))) else None
    ensures Registers(args) ==> |args| >= 2
  {
  }

  predicate InRange(last: Last) {
    match last
    case LReg(r) => r < NUM_REGS
    case LImm(i) => 0 - IMM_LIMIT < i < IMM_LIMIT
    case LRef(_) => true
  }

  /** A line whose fields are in the word, a reference still zero. */
  predicate Packed(line: Item, op: nat, instr: Word) {
    && op < 16 && line.Line? && OpcodeOf(op) == Some(line.op) && line.a < 32 && line.b < 32 && InRange(line.last)
    && instr == Unresolved(op, line.a, line.b, line.last)
  }

  lemma PackedIs(line: Item, op: nat, instr: Word)
    requires op < 16 && line.Line? && OpcodeOf(op) == Some(line.op) && line.a < 32 && line.b < 32 && InRange(line.last)
    requires instr == Unresolved(op, line.a, line.b, line.last)
    ensures Packed(line, op, instr)
  {
  }

  /** The arguments of an instruction, packed after its opcode. */
  method Instruction(code: string, idx: nat, op: nat)
    returns (err: bool, i: nat, instr: Word, reference: bool, start: nat, ghost line: Item)
    requires AtToken(code, idx) && op < 16
    ensures err <==> LineOf(OpcodeOf(op).value, Tokens(code[idx..])).None?
    ensures !err ==> Some(line) == LineOf(OpcodeOf(op).value, Tokens(code[idx..])) && Packed(line, op, instr)
    ensures !err ==> AtToken(code, start) && if reference then line.last == LRef(TokenAt(code, start)) else !line.last.LRef?
    ensures !err ==> AtToken(code, i) && idx <= i && |Tokens(code[idx..])| >= 2
    ensures !err ==> Tokens(code[i..]) == AfterLast(Tokens(code[idx..])[2..])
  {
    assert OpcodeOf(op).Some?;
    ghost var o := OpcodeOf(op).value;
    instr, reference, line := 0, false, Literal(0);
    hide *;
    var r1, r2: Word;
    err, start, r1, r2 := RegisterArgs(code, idx);
    i := start;
    LineIs(o, Tokens(code[idx..]), if err then Token("", false) else TokenAt(code, start));
    if err {
      return;
    }
    instr := PackArgs(op, r1, r2);
    ReferenceToken(TokenAt(code, start));
    line := Line(o, r1, r2, LastOf(TokenAt(code, start)));
    i, instr, reference := LastArgument(code, start, instr, op, r1, r2);
    PackedIs(line, op, instr);
  }

  lemma ReferenceToken(t: Token)
    ensures LastOf(t).LRef? ==> LastOf(t) == LRef(t)
    ensures InRange(LastOf(t))
  {
  }

  // -------------------------------------------------------------- references

  /** lbl_streq, at two positions of the text. */
  method LblStrEq(code: string, s1: nat, s2: nat) returns (same: bool)
    requires AtToken(code, s1) && AtToken(code, s2)
    ensures same == SameLabel(TokenAt(code, s1), TokenAt(code, s2))
  {
    hide *;
    SameSoFar(code, s1, s2);
    var j := 0;
    while s1 + j < |code| && s2 + j < |code|
      invariant SameFront(code, s1, s2, j)
      decreases |code| - s1 - j
    {
      SameNext(code, s1, s2, j);
      if Whitespace(code[s1 + j]) {
        if !Whitespace(code[s2 + j]) {
          return false;
        }
        return true;
      }
      if code[s1 + j] != code[s2 + j] {
        return false;
      }
      j := j + 1;
    }
    SameAtEnd(code, s1, s2, j);
    return true;
  }

  /** The first j characters of the tokens at s1 and s2 are the same. */
  ghost predicate SameFront(code: string, s1: nat, s2: nat, j: nat) {
    && AtToken(code, s1) && AtToken(code, s2)
    && j <= |TokenAt(code, s1).s| && j <= |TokenAt(code, s2).s| && TokenAt(code, s1).s[..j] == TokenAt(code, s2).s[..j]
  }

  lemma SameSoFar(code: string, s1: nat, s2: nat)
    requires AtToken(code, s1) && AtToken(code, s2)
    ensures s1 <= |code| && s2 <= |code| && SameFront(code, s1, s2, 0)
  {
  }

  /** What the characters at position j tell. */
  lemma SameNext(code: string, s1: nat, s2: nat, j: nat)
    requires SameFront(code, s1, s2, j) && s1 + j < |code| && s2 + j < |code|
    ensures s1 <= |code| && s2 <= |code|
    ensures Whitespace(code[s1 + j]) ==> (Whitespace(code[s2 + j]) <==> SameLabel(TokenAt(code, s1), TokenAt(code, s2)))
    ensures !Whitespace(code[s1 + j]) && code[s1 + j] != code[s2 + j] ==> !SameLabel(TokenAt(code, s1), TokenAt(code, s2))
    ensures !Whitespace(code[s1 + j]) && code[s1 + j] == code[s2 + j] ==> SameFront(code, s1, s2, j + 1)
  {
    var t1, t2 := TokenAt(code, s1), TokenAt(code, s2);
    hide *;
    FrontsSame(code, s1, s2, j);
    TokenRest(code, s1);
    TokenRest(code, s2);
    TokenEnds(code, s1, t1, j);
    TokenEnds(code, s2, t2, j);
    FrontsMeet(t1, t2, j, code[s1 + j], code[s2 + j]);
    if !Whitespace(code[s1 + j]) && code[s1 + j] == code[s2 + j] { SameFrontIs(code, s1, s2, j + 1); }
  }

  lemma FrontsSame(code: string, s1: nat, s2: nat, j: nat)
    requires SameFront(code, s1, s2, j)
    ensures AtToken(code, s1) && AtToken(code, s2) && s1 <= |code| && s2 <= |code|
    ensures j <= |TokenAt(code, s1).s| && j <= |TokenAt(code, s2).s| && TokenAt(code, s1).s[..j] == TokenAt(code, s2).s[..j]
  {
  }

  lemma SameFrontIs(code: string, s1: nat, s2: nat, j: nat)
    requires AtToken(code, s1) && AtToken(code, s2)
    requires j <= |TokenAt(code, s1).s| && j <= |TokenAt(code, s2).s| && TokenAt(code, s1).s[..j] == TokenAt(code, s2).s[..j]
    ensures SameFront(code, s1, s2, j)
  {
  }

  /** Two tokens with the same first j characters, and the characters of the text that follow those. */
  lemma FrontsMeet(t1: Token, t2: Token, j: nat, c1: char, c2: char)
    requires j <= |t1.s| && j <= |t2.s| && t1.s[..j] == t2.s[..j]
    requires (Whitespace(c1) <==> j == |t1.s|) && (j < |t1.s| ==> c1 == t1.s[j]) && (j == |t1.s| ==> t1.closed)
    requires (Whitespace(c2) <==> j == |t2.s|) && (j < |t2.s| ==> c2 == t2.s[j]) && (j == |t2.s| ==> t2.closed)
    ensures Whitespace(c1) ==> (Whitespace(c2) <==> SameLabel(t1, t2))
    ensures !Whitespace(c1) && c1 != c2 ==> !SameLabel(t1, t2)
    ensures !Whitespace(c1) && c1 == c2 ==> j < |t1.s| && j < |t2.s| && t1.s[..j + 1] == t2.s[..j + 1]
  {
    hide Whitespace;
    if j == |t1.s| {
      assert t1.s[..j] == t1.s;
      if j == |t2.s| { assert t2.s[..j] == t2.s; }
    }
  }

  lemma SameAtEnd(code: string, s1: nat, s2: nat, j: nat)
    requires SameFront(code, s1, s2, j) && (s1 + j >= |code| || s2 + j >= |code|)
    ensures s1 <= |code| && s2 <= |code| && SameLabel(TokenAt(code, s1), TokenAt(code, s2))
  {
    var t1, t2 := TokenAt(code, s1), TokenAt(code, s2);
    TokenRest(code, s1);
    TokenRest(code, s2);
    hide TokenAt, AtToken;
    assert s1 + j >= |code| ==> t1.s[..j] == t1.s && !t1.closed;
    assert s2 + j >= |code| ==> t2.s[..j] == t2.s && !t2.closed;
  }

  lemma TokenEnds(code: string, i: nat, t: Token, j: nat)
    requires Rest(code, i, i + |t.s|) && code[i..i + |t.s|] == t.s && t.closed == (i + |t.s| < |code|)
    requires j <= |t.s| && i + j < |code|
    ensures Whitespace(code[i + j]) <==> j == |t.s|
    ensures j < |t.s| ==> code[i + j] == t.s[j]
    ensures j == |t.s| ==> t.closed
  {
  }

  /** array_find over the labels: the first that matches. */
  method FindLabel(code: string, lbls: seq<(nat, nat)>, ref: nat, ghost marks: seq<Mark>) returns (addr: Option<nat>)
    requires AtToken(code, ref) && Named(code, lbls, marks)
    ensures addr == Find(marks, TokenAt(code, ref))
  {
    assert marks[0..] == marks;
    for k := 0 to |lbls|
      invariant Find(marks, TokenAt(code, ref)) == Find(marks[k..], TokenAt(code, ref))
    {
      FindStep(marks, k, TokenAt(code, ref));
      assert marks[k] == Mark(TokenAt(code, lbls[k].0), lbls[k].1);
      hide Find, SameLabel, TokenAt, AtToken;
      var same := LblStrEq(code, ref, lbls[k].0);
      if same {
        return Some(lbls[k].1);
      }
    }
    return None;
  }

  lemma FindStep(marks: seq<Mark>, k: nat, t: Token)
    requires k < |marks|
    ensures Find(marks[k..], t) == if SameLabel(t, marks[k].name) then Some(marks[k].addr) else Find(marks[k + 1..], t)
  {
    assert marks[k..][1..] == marks[k + 1..];
  }

  /** The label list of the C code, by position in the text, stands for the marks. */
  ghost predicate Named(code: string, lbls: seq<(nat, nat)>, marks: seq<Mark>) {
    |lbls| == |marks| && forall j :: 0 <= j < |lbls| ==> AtToken(code, lbls[j].0) && marks[j] == Mark(TokenAt(code, lbls[j].0), lbls[j].1)
  }

  // ----------------------------------------------------------------- compile

  predicate IsReference(it: Item) { it.Line? && it.last.LRef? }

  /** The word of an item before labels are resolved. */
  predicate Placed(it: Item, w: Word) {
    match it
    case Literal(v) => w == v
    case Line(op, _, _, _) => Packed(it, Number(op), w)
  }

  /** The reference list: the references of the items, in order, with the position of the label in the text. */
  ghost predicate Pending(code: string, refs: seq<(nat, nat)>, items: seq<Item>) {
    && (forall j :: 0 <= j < |refs| ==> refs[j].1 < |items| && AtToken(code, refs[j].0) && IsReference(items[refs[j].1])
                                        && items[refs[j].1].last == LRef(TokenAt(code, refs[j].0)))
    && (forall j, k :: 0 <= j < k < |refs| ==> refs[j].1 < refs[k].1)
    && (forall k :: 0 <= k < |items| && IsReference(items[k]) ==> exists j :: 0 <= j < |refs| && refs[j].1 == k)
  }

  ghost predicate AllPlaced(items: seq<Item>, arr: seq<Word>) {
    |arr| == |items| && forall k :: 0 <= k < |arr| ==> Placed(items[k], arr[k])
  }

  /** No label is further on than the words so far. */
  ghost predicate Near(marks: seq<Mark>, n: nat) { forall j :: 0 <= j < |marks| ==> marks[j].addr <= n }

  lemma PendingNext(code: string, refs: seq<(nat, nat)>, items: seq<Item>, it: Item)
    requires Pending(code, refs, items) && !IsReference(it)
    ensures Pending(code, refs, items + [it])
  {
  }

  lemma PendingMore(code: string, refs: seq<(nat, nat)>, items: seq<Item>, it: Item, start: nat)
    requires Pending(code, refs, items) && IsReference(it) && AtToken(code, start) && it.last == LRef(TokenAt(code, start))
    ensures Pending(code, refs + [(start, |items|)], items + [it])
  {
    var r, m := refs + [(start, |items|)], items + [it];
    forall k | 0 <= k < |m| && IsReference(m[k]) ensures exists j :: 0 <= j < |r| && r[j].1 == k {
      if k < |items| {
        var j :| 0 <= j < |refs| && refs[j].1 == k;
        assert r[j].1 == k;
      } else {
        assert r[|refs|].1 == k;
      }
    }
  }

  lemma NumberOf(op: nat)
    requires op < 16
    ensures OpcodeOf(op).Some? && Number(OpcodeOf(op).value) == op
  {
  }

  lemma ParseStep(ts: seq<Token>, l: Listing)
    requires ts != []
    ensures Hex(ts[0].s, W64 - 1).Some? ==>
              Parse(ts, l) == Parse(ts[1..], l.(items := l.items + [Literal(Hex(ts[0].s, W64 - 1).value)]))
    ensures Hex(ts[0].s, W64 - 1).None? && NameNumber(ts[0].s, 0).Some? && ts[0].closed ==>
              var line := LineOf(OpcodeOf(NameNumber(ts[0].s, 0).value).value, ts[1..]);
              if line.None? then Parse(ts, l) == None
              else |ts| >= 3 && Parse(ts, l) == Parse(AfterLast(ts[3..]), l.(items := l.items + [line.value]))
    ensures Hex(ts[0].s, W64 - 1).None? && !(NameNumber(ts[0].s, 0).Some? && ts[0].closed) ==>
              Parse(ts, l) == Parse(ts[1..], l.(marks := l.marks + [Mark(ts[0], |l.items|)]))
  {
  }

  /** The state of compile's loop: what is still to be read, on top of l, gives what the whole text gives. */
  ghost predicate Scanned(code: string, idx: nat, arr: seq<Word>, refs: seq<(nat, nat)>, lbls: seq<(nat, nat)>, l: Listing) {
    && AtToken(code, idx) && Parse(Tokens(code), Listing([], [])) == Parse(Tokens(code[idx..]), l)
    && AllPlaced(l.items, arr) && Pending(code, refs, l.items) && Named(code, lbls, l.marks)
    && Near(l.marks, |arr|) && |arr| <= idx
  }

  lemma ScanStart(code: string, idx: nat)
    requires Gap(code, 0, idx)
    ensures Scanned(code, idx, [], [], [], Listing([], []))
  {
    TokensGap(code, 0, idx);
    assert code[0..] == code;
  }

  lemma ScanEnd(code: string, idx: nat, arr: seq<Word>, refs: seq<(nat, nat)>, lbls: seq<(nat, nat)>, l: Listing)
    requires Scanned(code, idx, arr, refs, lbls, l) && idx >= |code|
    ensures Parse(Tokens(code), Listing([], [])) == Some(l)
    ensures AllPlaced(l.items, arr) && Pending(code, refs, l.items) && Named(code, lbls, l.marks) && Near(l.marks, |arr|) && |arr| <= |code|
  {
    assert code[idx..] == [];
  }

  lemma ScanAt(code: string, idx: nat, arr: seq<Word>, refs: seq<(nat, nat)>, lbls: seq<(nat, nat)>, l: Listing)
    requires Scanned(code, idx, arr, refs, lbls, l)
    ensures AtToken(code, idx) && idx <= |code|
  {
  }

  lemma GapBounds(code: string, i: nat, j: nat)
    requires Gap(code, i, j)
    ensures i <= j <= |code|
  {
  }

  /** The loop of compile over the text. */
  method Scan(code: string) returns (ok: bool, arr: seq<Word>, refs: seq<(nat, nat)>, lbls: seq<(nat, nat)>, ghost l: Listing)
    ensures ok ==> Parse(Tokens(code), Listing([], [])) == Some(l)
    ensures !ok ==> Parse(Tokens(code), Listing([], [])) == None
    ensures ok ==> AllPlaced(l.items, arr) && Pending(code, refs, l.items) && Named(code, lbls, l.marks)
    ensures ok ==> Near(l.marks, |arr|) && |arr| <= |code|
  {
    hide *;
    arr, refs, lbls, l := [], [], [], Listing([], []);
    var idx := IgnoreWhitespace(code, 0);
    ScanStart(code, idx);
    while idx < |code|
      invariant Scanned(code, idx, arr, refs, lbls, l)
      decreases |code| - idx
    {
      ScanAt(code, idx, arr, refs, lbls, l);
      var err, i, output := NumberToken(code, idx);
      if !err {
        ScanLiteral(code, idx, i, arr, refs, lbls, l, output);
        arr, l := arr + [output], l.(items := l.items + [Literal(output)]);
        idx := i;
        continue;
      }
      var op: nat;
      err, i, op := OpcodeToken(code, idx);
      if err {
        i := SkipLabel(code, idx);
        ScanMark(code, idx, i, arr, refs, lbls, l);
        lbls, l := lbls + [(idx, |arr|)], l.(marks := l.marks + [Mark(TokenAt(code, idx), |arr|)]);
        idx := i;
        continue;
      }
      var at := i;
      StepArgs(code, idx, at, op);
      var instr, reference, start;
      ghost var line: Item;
      err, i, instr, reference, start, line := Instruction(code, at, op);
      if err {
        ScanRefused(code, idx, at, op, arr, refs, lbls, l);
        return false, arr, refs, lbls, l;
      }
      ScanLine(code, idx, at, i, arr, refs, lbls, l, line, op, instr, reference, start);
      if reference {
        refs := refs + [(start, |arr|)];
      }
      arr, l := arr + [instr], l.(items := l.items + [line]);
      idx := i;
    }
    ScanEnd(code, idx, arr, refs, lbls, l);
    return true, arr, refs, lbls, l;
  }

  /** A label: past its token and the whitespace after it. */
  method SkipLabel(code: string, idx: nat) returns (i: nat)
    requires AtToken(code, idx) && idx < |code|
    ensures Gap(code, idx + |TokenAt(code, idx).s|, i)
  {
    TokenRest(code, idx);
    hide TokenAt;
    i := IgnoreNonWhitespace(code, idx);
    i := IgnoreWhitespace(code, i);
  }

  lemma ScanLiteral(code: string, idx: nat, i: nat, arr: seq<Word>, refs: seq<(nat, nat)>, lbls: seq<(nat, nat)>, l: Listing, w: Word)
    requires Scanned(code, idx, arr, refs, lbls, l) && idx < |code| && Gap(code, idx + |TokenAt(code, idx).s|, i)
    requires Hex(TokenAt(code, idx).s, W64 - 1) == Some(w)
    ensures Scanned(code, i, arr + [w], refs, lbls, l.(items := l.items + [Literal(w)])) && idx < i
  {
    PendingNext(code, refs, l.items, Literal(w));
    NextTokens(code, idx, i);
    TokensStep(code, idx);
    GapBounds(code, idx + |TokenAt(code, idx).s|, i);
    hide Pending, Tokens, TokenAt, Parse, Named, Hex;
    ParseStep(Tokens(code[idx..]), l);
    assert Tokens(code[idx..])[1..] == Tokens(code[i..]);
  }

  lemma ScanMark(code: string, idx: nat, i: nat, arr: seq<Word>, refs: seq<(nat, nat)>, lbls: seq<(nat, nat)>, l: Listing)
    requires Scanned(code, idx, arr, refs, lbls, l) && idx < |code| && Gap(code, idx + |TokenAt(code, idx).s|, i)
    requires var t := TokenAt(code, idx); Hex(t.s, W64 - 1).None? && !(NameNumber(t.s, 0).Some? && t.closed)
    ensures Scanned(code, i, arr, refs, lbls + [(idx, |arr|)], l.(marks := l.marks + [Mark(TokenAt(code, idx), |arr|)])) && idx < i
  {
    hide *;
    ScanAt(code, idx, arr, refs, lbls, l);
    NextTokens(code, idx, i);
    GapBounds(code, idx + |TokenAt(code, idx).s|, i);
    ParseStep(Tokens(code[idx..]), l);
    assert Tokens(code[idx..])[1..] == Tokens(code[i..]);
    TokenLength(code, idx);
    OneWordEach(code, idx, arr, refs, lbls, l);
    MarkNamed(code, idx, i, arr, refs, lbls, l, l.(marks := l.marks + [Mark(TokenAt(code, idx), |arr|)]));
  }

  lemma OneWordEach(code: string, idx: nat, arr: seq<Word>, refs: seq<(nat, nat)>, lbls: seq<(nat, nat)>, l: Listing)
    requires Scanned(code, idx, arr, refs, lbls, l)
    ensures |arr| == |l.items|
  {
  }

  lemma TokenLength(code: string, idx: nat)
    requires AtToken(code, idx) && idx < |code|
    ensures |TokenAt(code, idx).s| > 0
  {
    TokensStep(code, idx);
  }

  lemma MarkNamed(code: string, idx: nat, i: nat, arr: seq<Word>, refs: seq<(nat, nat)>, lbls: seq<(nat, nat)>, l: Listing, l': Listing)
    requires Scanned(code, idx, arr, refs, lbls, l) && l' == l.(marks := l.marks + [Mark(TokenAt(code, idx), |arr|)])
    requires idx < i <= |code| && AtToken(code, i) && Parse(Tokens(code[i..]), l') == Parse(Tokens(code[idx..]), l)
    ensures Scanned(code, i, arr, refs, lbls + [(idx, |arr|)], l')
  {
    hide Pending, Tokens, TokenAt, Parse, AtToken, AllPlaced;
  }

  /** The token at idx is an opcode with its arguments after it. */
  lemma OpcodeAt(code: string, idx: nat, at: nat, op: nat, arr: seq<Word>, refs: seq<(nat, nat)>, lbls: seq<(nat, nat)>, l: Listing)
    requires Scanned(code, idx, arr, refs, lbls, l) && idx < |code| && Gap(code, idx + |TokenAt(code, idx).s|, at)
    requires var t := TokenAt(code, idx); Hex(t.s, W64 - 1).None? && NameNumber(t.s, 0) == Some(op) && t.closed
    ensures op < 16 && OpcodeOf(op).Some?
    ensures var line := LineOf(OpcodeOf(op).value, Tokens(code[at..]));
            && (line.None? ==> Parse(Tokens(code[idx..]), l) == None)
            && (line.Some? ==> |Tokens(code[at..])| >= 2)
            && (line.Some? ==>
                  Parse(Tokens(code[idx..]), l) == Parse(AfterLast(Tokens(code[at..])[2..]), l.(items := l.items + [line.value])))
  {
    NextTokens(code, idx, at);
    NumberOf(op);
    hide Pending, Tokens, TokenAt, Parse, Hex, LineOf, AfterLast;
    var ts := Tokens(code[idx..]);
    ParseStep(ts, l);
    assert ts[1..] == Tokens(code[at..]);
    assert |ts| >= 3 ==> ts[3..] == Tokens(code[at..])[2..];
  }

  lemma ScanRefused(code: string, idx: nat, at: nat, op: nat, arr: seq<Word>, refs: seq<(nat, nat)>, lbls: seq<(nat, nat)>, l: Listing)
    requires Scanned(code, idx, arr, refs, lbls, l) && idx < |code| && Gap(code, idx + |TokenAt(code, idx).s|, at)
    requires var t := TokenAt(code, idx); Hex(t.s, W64 - 1).None? && NameNumber(t.s, 0) == Some(op) && t.closed
    requires op < 16 && LineOf(OpcodeOf(op).value, Tokens(code[at..])).None?
    ensures Parse(Tokens(code), Listing([], [])) == None
  {
    OpcodeAt(code, idx, at, op, arr, refs, lbls, l);
    hide Tokens, TokenAt, Parse, LineOf;
  }

  lemma ScanLine(code: string, idx: nat, at: nat, i: nat, arr: seq<Word>, refs: seq<(nat, nat)>, lbls: seq<(nat, nat)>, l: Listing,
                 line: Item, op: nat, instr: Word, reference: bool, start: nat)
    requires Scanned(code, idx, arr, refs, lbls, l) && idx < |code| && Gap(code, idx + |TokenAt(code, idx).s|, at)
    requires var t := TokenAt(code, idx); Hex(t.s, W64 - 1).None? && NameNumber(t.s, 0) == Some(op) && t.closed
    requires op < 16 && LineOf(OpcodeOf(op).value, Tokens(code[at..])) == Some(line) && Packed(line, op, instr) && idx < at <= i
    requires AtToken(code, start) && if reference then line.last == LRef(TokenAt(code, start)) else !line.last.LRef?
    requires AtToken(code, i) && |Tokens(code[at..])| >= 2 && Tokens(code[i..]) == AfterLast(Tokens(code[at..])[2..])
    ensures Scanned(code, i, arr + [instr], if reference then refs + [(start, |arr|)] else refs, lbls, l.(items := l.items + [line]))
    ensures idx < i
  {
    OpcodeAt(code, idx, at, op, arr, refs, lbls, l);
    hide Tokens, TokenAt, Parse, LineOf, Pending, AllPlaced, Near, Named, Packed, AtToken, Gap, Hex, AfterLast;
    PlacedSize(l.items, arr);
    StepLine(code, at, i, arr, refs, lbls, l, line, op, instr, reference, start);
  }

  lemma PlacedSize(items: seq<Item>, arr: seq<Word>)
    requires AllPlaced(items, arr)
    ensures |items| == |arr|
  {
  }

  lemma StepArgs(code: string, idx: nat, at: nat, op: nat)
    requires AtToken(code, idx) && idx < |code| && Gap(code, idx + |TokenAt(code, idx).s|, at) && NameNumber(TokenAt(code, idx).s, 0) == Some(op)
    ensures AtToken(code, at) && idx < at && op < 16 && Tokens(code[idx..]) != [] && Tokens(code[idx..])[1..] == Tokens(code[at..])
    ensures |Tokens(code[idx..])| >= 3 ==> Tokens(code[idx..])[3..] == Tokens(code[at..])[2..]
  {
    NextTokens(code, idx, at);
    TokensStep(code, idx);
    hide Tokens, TokenAt;
  }

  lemma StepLine(code: string, at: nat, i: nat, arr: seq<Word>, refs: seq<(nat, nat)>, lbls: seq<(nat, nat)>, l: Listing,
                 line: Item, op: nat, instr: Word, reference: bool, start: nat)
    requires AllPlaced(l.items, arr) && Pending(code, refs, l.items) && Near(l.marks, |arr|) && Packed(line, op, instr)
    requires AtToken(code, start) && if reference then line.last == LRef(TokenAt(code, start)) else !line.last.LRef?
    ensures |arr| == |l.items| && AllPlaced(l.items + [line], arr + [instr]) && Near(l.marks, |arr| + 1)
    ensures Pending(code, if reference then refs + [(start, |arr|)] else refs, l.items + [line])
  {
    NumberOf(op);
    if reference {
      PendingMore(code, refs, l.items, line, start);
    } else {
      PendingNext(code, refs, l.items, line);
    }
    hide Pending, Packed, TokenAt, AtToken;
    assert Placed(line, instr) by { PlacedLine(line, op, instr); }
  }

  lemma PlacedLine(line: Item, op: nat, instr: Word)
    requires Packed(line, op, instr)
    ensures Placed(line, instr)
  {
    NumberOf(op);
  }

  /** Encodings of lines, by their fields. */
  lemma EncodeFixed(op: nat, i: Instr)
    requires op < 16 && OpcodeOf(op) == Some(i.op) && WellFormed(i)
    ensures Encode(i) == Unresolved(op, i.a, i.b, match i.c case Reg(r) => LReg(r) case Imm(v) => LImm(v))
  {
    NumberOf(op);
  }

  lemma PlacedWord(it: Item, w: Word, marks: seq<Mark>)
    requires Placed(it, w) && !IsReference(it)
    ensures WordOf(it, marks) == Some(w)
  {
    if it.Line? {
      var c := OperandOf(it.last, marks).value;
      EncodeFixed(Number(it.op), Instr(it.op, it.a, it.b, c));
      hide Encode, Unresolved;
    }
  }

  lemma ResolvedWord(it: Item, w: Word, marks: seq<Mark>, addr: nat)
    requires Placed(it, w) && IsReference(it) && Find(marks, it.last.t) == Some(addr) && addr < IMM_LIMIT
    ensures WordOf(it, marks) == Some(Bitwise(BitOr, addr, w))
  {
    var op := Number(it.op);
    EncodeFixed(op, Instr(it.op, it.a, it.b, Imm(addr)));
    PackLast(op, it.a, it.b, addr);
    hide Encode, Bitwise, Fixed, Find;
  }

  lemma {:induction false} FoundNear(marks: seq<Mark>, t: Token, n: nat)
    requires Near(marks, n) && Find(marks, t).Some?
    ensures Find(marks, t).value <= n
  {
    if !SameLabel(t, marks[0].name) {
      forall j | 0 <= j < |marks[1..]| ensures marks[1..][j].addr <= n {
        assert marks[1..][j] == marks[j + 1];
      }
      FoundNear(marks[1..], t, n);
    } else {
      assert marks[0].addr <= n;
    }
  }

  /** The first i references are resolved. */
  ghost predicate Resolved(code: string, items: seq<Item>, marks: seq<Mark>, refs: seq<(nat, nat)>, arr: seq<Word>, i: nat) {
    && Pending(code, refs, items) && |arr| == |items| && i <= |refs|
    && (forall j :: 0 <= j < i ==> WordOf(items[refs[j].1], marks) == Some(arr[refs[j].1]))
    && (forall k :: 0 <= k < |items| && (!IsReference(items[k]) || (i < |refs| && refs[i].1 <= k)) ==> Placed(items[k], arr[k]))
  }

  lemma SmallWord(addr: nat, n: nat)
    requires addr <= n < IMM_LIMIT
    ensures addr < W64
  {
  }

  lemma ResolveNext(code: string, items: seq<Item>, marks: seq<Mark>, refs: seq<(nat, nat)>, arr: seq<Word>, i: nat, addr: nat)
    requires Resolved(code, items, marks, refs, arr, i) && i < |refs| && Near(marks, |arr|) && |arr| < IMM_LIMIT
    requires Find(marks, TokenAt(code, refs[i].0)) == Some(addr)
    ensures refs[i].1 < |arr| && addr < W64
    ensures Resolved(code, items, marks, refs, arr[refs[i].1 := Bitwise(BitOr, addr, arr[refs[i].1])], i + 1)
  {
    hide WordOf, Find, Near, TokenAt, Bitwise, Placed;
    FoundNear(marks, TokenAt(code, refs[i].0), |arr|);
    ResolvedWord(items[refs[i].1], arr[refs[i].1], marks, addr);
    SmallWord(addr, |arr|);
  }

  lemma ResolveFails(code: string, items: seq<Item>, marks: seq<Mark>, refs: seq<(nat, nat)>, arr: seq<Word>, i: nat)
    requires Resolved(code, items, marks, refs, arr, i) && i < |refs| && Find(marks, TokenAt(code, refs[i].0)) == None
    ensures Translate(Listing(items, marks)) == None
  {
    var it := items[refs[i].1];
    assert WordOf(it, marks) == None;
    hide WordOf, Find, TokenAt;
  }

  lemma ResolveDone(code: string, items: seq<Item>, marks: seq<Mark>, refs: seq<(nat, nat)>, arr: seq<Word>)
    requires Resolved(code, items, marks, refs, arr, |refs|)
    ensures Translate(Listing(items, marks)) == Some(arr)
  {
    forall k | 0 <= k < |items| ensures WordOf(items[k], marks) == Some(arr[k]) {
      if IsReference(items[k]) {
        var j :| 0 <= j < |refs| && refs[j].1 == k;
        assert WordOf(items[refs[j].1], marks) == Some(arr[refs[j].1]);
      } else {
        PlacedWord(items[k], arr[k], marks);
      }
    }
    hide WordOf, Placed, Pending;
    assert Translate(Listing(items, marks)).value == arr;
  }

  lemma ResolveStart(code: string, items: seq<Item>, marks: seq<Mark>, refs: seq<(nat, nat)>, arr: seq<Word>)
    requires AllPlaced(items, arr) && Pending(code, refs, items)
    ensures Resolved(code, items, marks, refs, arr, 0)
  {
  }

  lemma ResolveAt(code: string, items: seq<Item>, marks: seq<Mark>, refs: seq<(nat, nat)>, arr: seq<Word>, i: nat)
    requires Resolved(code, items, marks, refs, arr, i) && i < |refs|
    ensures AtToken(code, refs[i].0) && |arr| == |items|
  {
  }

  /**
   compile: a non-empty text becomes the words that its tokens mean, or is refused. The bound on its length keeps
   every label within an immediate.
   */
  method Compile(code: string) returns (r: Option<seq<Word>>)
    requires |code| < IMM_LIMIT
    ensures r == if code == [] then None else Assembled(code)
  {
    if |code| == 0 {
      return None;
    }
    var ok, arr: seq<Word>, lbl_refs, lbls, l := Scan(code);
    if !ok {
      return None;
    }
    assert l == Listing(l.items, l.marks) && Assembled(code) == Translate(l);
    hide *;
    ResolveStart(code, l.items, l.marks, lbl_refs, arr);
    for i := 0 to |lbl_refs|
      invariant Resolved(code, l.items, l.marks, lbl_refs, arr, i) && |arr| <= |code| && Near(l.marks, |arr|)
    {
      ResolveAt(code, l.items, l.marks, lbl_refs, arr, i);
      var ref := lbl_refs[i];
      var addr := FindLabel(code, lbls, ref.0, l.marks);
      if addr.None? {
        ResolveFails(code, l.items, l.marks, lbl_refs, arr, i);
        return None;
      }
      ResolveNext(code, l.items, l.marks, lbl_refs, arr, i, addr.value);
      arr := arr[ref.1 := Bitwise(BitOr, addr.value, arr[ref.1])];
    }
    ResolveDone(code, l.items, l.marks, lbl_refs, arr);
    return Some(arr);
  }
}
