/**
 The strings of x86_64/compile.py as it makes them, letter case, spaces and newline counts included, and that the
 assembler reads them as the lines that the rest of the model speaks of.
 */
module CompilerText {
  import opened Words
  import opened Machine
  import opened Encoding
  import opened Source
  import opened Compiler
  import opened WholeProgram
  import opened Scanner
  import opened Assembler
  import opened AssemblerTheory
  import opened VirtualMachine
  import opened ProgramText
  import opened Numerals
  import opened LetterCase

  /** prims: the instructions of the operators. */
  function PrimName(op: Opcode): string {
    match op
    case Ads => "ads" case Sbs => "sbs" case And => "and" case Orr => "orr" case Xor => "xor" case Nor => "nor"
    case Shf => "shf" case Mls => "mls" case Mlu => "mlu" case Dvs => "dvs" case Dvu => "dvu"
    case _ => NAMES[Number(op)]
  }

  /** buf.count('\n') */
  function Newlines(s: string): nat { if s == "" then 0 else Newlines(s[1..]) + if s[0] == '\n' then 1 else 0 }

  /** compile_expr */
  function Code(e: Expr, idx: int, env: Slots): string
    decreases Size(e), 1
  {
    match e
    case Int(n) => "xor r1d r1d r1d\n" + ("ads r1d r1d " + ToHex(n) + "\n")
    case Nil => "xor r1d r1d r1d\n"
    case Var(x) => if x in env then "ldr r1d r19 " + ToHex(env[x]) + "\n" else ""
    case Prim(op, l, r) => PrimText(PrimName(op) + " r1d r0 r1d\n", Code(l, idx + 1, env), Code(r, idx + 2, env), idx)
    case Gt(l, r) => PrimText("sbs r1d r0 r1d\n" + "shf r1d r1d 3f\n", Code(r, idx + 1, env), Code(l, idx + 2, env), idx)
    case Let(binds, body) => if body == Done then "" else LetCode(binds, body, idx, env)
    case Assign(x, e1) => if x in env then Code(e1, idx, env) + ("str r1d r19 " + ToHex(env[x]) + "\n") else ""
    case If(c, yes, no) => IfText(Code(c, idx, env), Code(yes, idx, env), Code(no, idx, env))
    case Loop(c, body) => LoopText(Code(c, idx, env), SeqCode(body, idx, env))
    case Def(f, _, _) => "ads r1d r1a " + ("_" + f) + "\n"
    case Call(f, args) => ArgsCode(args, idx + 1, env) + CallText("_" + f, ToHex(idx + 1 + Length(args)))
    case Blank => ""
  }

  /** builtin_op and compile_gt */
  function PrimText(combine: string, first: string, second: string, idx: int): string {
    ("str r0 r19 " + ToHex(idx + 1) + "\n") + first + ("str r1d r19 " + ToHex(idx + 2) + "\n") + second +
    ("ldr r0 r19 " + ToHex(idx + 2) + "\n") + combine + ("ldr r0 r19 " + ToHex(idx + 1) + "\n")
  }

  function TestText(n: int): string {
    "nor r1d r1d r1d\n" + "and r1d r1d 1\n" + ("jnc r1d r1e " + ToHex(2 + n) + "\n")
  }

  function IfText(c: string, yes: string, no: string): string {
    c + TestText(Newlines(yes)) + yes + ("jnc r1f r1e " + ToHex(1 + Newlines(no)) + "\n") + no
  }

  function LoopText(c: string, body: string): string {
    c + TestText(Newlines(body)) + body + ("jnc r1f r1e -" + ToHex(3 + Newlines(body) + Newlines(c)) + "\n")
  }

  function CallText(m: string, offset: string): string {
    ("ads r18 r18 " + offset + "\n") + "str r1b r18 0\n" + "ads r1b r1e 2\n" + ("jnc r1F r1a " + m + "\n") +
    "ldr r1b r18 0 \n" + ("sbs r18 r18 " + offset + "\n")
  }

  function SeqCode(es: Exprs, idx: int, env: Slots): string
    decreases SeqSize(es), 0
  {
    match es
    case Done => ""
    case Then(e, rest) => Code(e, idx, env) + SeqCode(rest, idx, env)
  }

  function LetCode(binds: Binds, body: Exprs, idx: int, env: Slots): string
    decreases BindsSize(binds) + SeqSize(body), 1
  {
    match binds
    case NoBind => SeqCode(body, idx, env)
    case Bind(x, e, rest) =>
      var env' := env[x := idx + 1];
      Code(e, idx + 1, env') + ("str r1d r19 " + ToHex(idx + 1) + "\n") + LetCode(rest, body, idx + 1, env')
  }

  function ArgsCode(args: Exprs, idx: int, env: Slots): string
    decreases SeqSize(args), 0
  {
    match args
    case Done => ""
    case Then(e, rest) => Code(e, idx, env) + ("str r1d r19 " + ToHex(idx) + "\n") + ArgsCode(rest, idx + 1, env)
  }

  /** compile_function, from the line after the label. */
  function FnCode(fn: Fn): string {
    "str r19 r18 1\n" + "ads r18 r18 1\n" + "ads r19 r18 0\n" + SeqCode(fn.body, 0, ParamSlots(fn.params, |fn.params|)) +
    "sbs r18 r18 1\n" + "ldr r19 r18 1\n" + "jnc r1F r1B 0\n"
  }

  function FnCodes(t: Table, n: nat): string
    requires n <= |t.order|
  {
    if n == 0 then "" else
      var f := t.order[n - 1];
      FnCodes(t, n - 1) + ("\n" + (if f in t.fns then "_" + f + "\n" + FnCode(t.fns[f]) else "") + "\n")
  }

  function PrologueText(): string {
    "ads r1A r1E 0\n" + "ads r18 r1A STACK:\n" + "ads r19 r18 0\n" + "ads r1b r1E 2\n" + "jnc r1f r1a MAIN:\n" + "xor r1F r1F r1F\n"
  }

  /** comp */
  function Comp(es: Exprs): string {
    var t := TableOf(es);
    PrologueText() + FnCodes(t, |t.order|) + "MAIN:\n" + SeqCode(es, 0, map[]) + "jnc r1f r1b 0\n\n" + "STACK: 0"
  }

  // ----------------------------------------------------------- the same lines

  /** The text is read as these lines, whatever follows. */
  ghost predicate Spells(text: string, lines: seq<Asm>) {
    forall rest: string, l: Listing :: Parse(Tokens(text + rest), l) == Parse(Tokens(LinesText(lines) + rest), l)
  }

  /** The text is read as these lines, and has as many newlines. */
  ghost predicate Emits(text: string, lines: seq<Asm>) { Spells(text, lines) && PlainLines(lines) && Newlines(text) == |lines| }

  lemma EmitsTwo(s: string, a: seq<Asm>, t: string, b: seq<Asm>)
    requires Emits(s, a) && Emits(t, b)
    ensures Emits(s + t, a + b)
  {
    SpellsTwo(s, a, t, b);
    CountTwo(s, t);
    hide Spells, PlainLines, Newlines;
  }

  lemma EmitsNothing()
    ensures Emits("", [])
  {
  }

  lemma SpellsTwo(s: string, a: seq<Asm>, t: string, b: seq<Asm>)
    requires Spells(s, a) && Spells(t, b) && PlainLines(a) && PlainLines(b)
    ensures Spells(s + t, a + b) && PlainLines(a + b)
  {
    forall rest: string, l: Listing ensures Parse(Tokens(s + t + rest), l) == Parse(Tokens(LinesText(a + b) + rest), l) {
      hide *;
      SpellsThen(s, a, t, b, rest, l);
    }
    hide *;
    JoinPlain(a, b);
  }

  lemma SpellsThen(s: string, a: seq<Asm>, t: string, b: seq<Asm>, rest: string, l: Listing)
    requires Spells(s, a) && Spells(t, b) && PlainLines(a) && PlainLines(b)
    ensures Parse(Tokens(s + t + rest), l) == Parse(Tokens(LinesText(a + b) + rest), l)
  {
    hide PlainLines, Parse, Tokens, LinesText, ItemsOf;
    assert s + t + rest == s + (t + rest);
    assert Parse(Tokens(s + (t + rest)), l) == Parse(Tokens(LinesText(a) + (t + rest)), l);
    var l1 := l.(items := l.items + ItemsOf(a));
    ReadPlainLines(a, t + rest, l);
    assert Parse(Tokens(t + rest), l1) == Parse(Tokens(LinesText(b) + rest), l1);
    ReadPlainLines(b, rest, l1);
    JoinPlain(a, b);
    ReadPlainLines(a + b, rest, l);
    ItemsConcat(a, b);
    Associative(l.items, ItemsOf(a), ItemsOf(b));
  }

  // ------------------------------------------------------------------- lines

  /** z is read as the argument c. */
  predicate Reads(z: string, c: Arg) { Plain(z) && z != "r" && LastOf(Token(z, true)) == LastOf(Token(ArgText(c), true)) }

  predicate LineEnd(end: string) { end == "\n" || end == " \n" }

  /** x and y are read as the registers of the line, z as its last argument. */
  predicate Spelling(a: Asm, n: string, x: string, y: string, z: string) {
    && PlainLine(a) && |NAMES| == 16 && n == NAMES[Number(a.op)]
    && AsReg(x) == Some(a.a) && AsReg(y) == Some(a.b) && Reads(z, a.c) && Plain(x) && Plain(y)
  }

  /** A line, however its registers are spelled, and with a blank before its end or not. */
  lemma SpellsLine(text: string, a: Asm, n: string, x: string, y: string, z: string, end: string)
    requires Spelling(a, n, x, y, z) && LineEnd(end) && text == n + " " + x + " " + y + " " + z + end
    ensures Emits(text, [a])
  {
    OneLine(a);
    forall rest: string, l: Listing ensures Parse(Tokens(text + rest), l) == Parse(Tokens(LinesText([a]) + rest), l) {
      hide *;
      ReadSpelled(text, a, n, x, y, z, end, rest, l);
      SpellingLine(a, n, x, y, z);
      OneText(a, rest);
      ReadLine(a, rest, l);
    }
    hide *;
    SpellingLine(a, n, x, y, z);
    NamePlain(a.op);
    CountFour(n, x, y, z, end);
  }

  lemma CountFour(n: string, x: string, y: string, z: string, end: string)
    requires Plain(n) && Plain(x) && Plain(y) && Plain(z) && LineEnd(end)
    ensures Newlines(n + " " + x + " " + y + " " + z + end) == 1
  {
    hide *;
    PlainCount(n);
    PlainCount(x);
    PlainCount(y);
    PlainCount(z);
    EndCount(end);
    var s1, s2 := n + " " + x + " ", n + " " + x + " " + y + " ";
    CountTwo(n, " ");
    CountTwo(n + " ", x);
    CountTwo(n + " " + x, " ");
    CountTwo(s1, y);
    CountTwo(s1 + y, " ");
    CountTwo(s2, z);
    CountTwo(s2 + z, end);
  }

  lemma PlainCount(s: string)
    requires Plain(s)
    ensures Newlines(s) == 0 && Newlines(" ") == 0
  {
    assert Whitespace('\n');
    NoNewlines(s);
  }

  lemma EndCount(end: string)
    requires LineEnd(end)
    ensures Newlines(end) == 1
  {
    assert Newlines("\n") == 1;
    assert " \n"[1..] == "\n";
  }

  lemma SpellingLine(a: Asm, n: string, x: string, y: string, z: string)
    requires Spelling(a, n, x, y, z)
    ensures PlainLine(a) && |NAMES| == 16 && n == NAMES[Number(a.op)] && AsReg(x) == Some(a.a) && AsReg(y) == Some(a.b)
    ensures Plain(x) && Plain(y) && Plain(z) && z != "r" && LastOf(Token(z, true)) == LastOf(Token(ArgText(a.c), true))
  {
  }

  lemma OneText(a: Asm, rest: string)
    ensures LinesText([a]) + rest == LineText(a) + rest
  {
    assert LinesText([a]) == LineText(a) + LinesText([]) == LineText(a);
    hide LineText;
  }

  lemma ReadSpelled(text: string, a: Asm, n: string, x: string, y: string, z: string, end: string, rest: string, l: Listing)
    requires Spelling(a, n, x, y, z) && LineEnd(end) && text == n + " " + x + " " + y + " " + z + end
    ensures Parse(Tokens(text + rest), l) == Parse(Tokens(rest), l.(items := l.items + [ItemOf(a)]))
  {
    hide *;
    SpellingLine(a, n, x, y, z);
    NamePlain(a.op);
    NumberRoundTrip(a.op);
    NameFrom(Number(a.op), 0);
    SpelledTokens(text, n, x, y, z, end, rest);
    var ts := [Token(n, true), Token(x, true), Token(y, true), Token(z, true)];
    SpelledLine(a, ts);
    LineTakes(ts, Tokens(rest), l);
  }

  lemma SpelledTokens(text: string, n: string, x: string, y: string, z: string, end: string, rest: string)
    requires Plain(n) && Plain(x) && Plain(y) && Plain(z) && LineEnd(end)
    requires text == n + " " + x + " " + y + " " + z + end
    ensures Tokens(text + rest) == [Token(n, true), Token(x, true), Token(y, true), Token(z, true)] + Tokens(rest)
  {
    hide *;
    Leading(end, rest);
    var after := end[1..] + rest;
    BlankSpace();
    assert text + rest == n + " " + (x + " " + (y + " " + (z + [end[0]] + after)));
    WordToken(n, ' ', x + " " + (y + " " + (z + [end[0]] + after)));
    WordToken(x, ' ', y + " " + (z + [end[0]] + after));
    WordToken(y, ' ', z + [end[0]] + after);
    WordToken(z, end[0], after);
  }

  lemma Leading(end: string, rest: string)
    requires LineEnd(end)
    ensures end != "" && Whitespace(end[0]) && Tokens(end[1..] + rest) == Tokens(rest)
  {
    if end == " \n" {
      assert end[1..] + rest == "\n" + rest && ("\n" + rest)[1..] == rest;
    } else {
      assert end[1..] + rest == rest;
    }
  }

  lemma SpelledLine(a: Asm, ts: seq<Token>)
    requires |ts| == 4 && |NAMES| == 16 && NAMES[Number(a.op)] == ts[0].s && NameNumber(ts[0].s, 0) == Some(Number(a.op)) && ts[0].closed
    requires Hex(ts[0].s, W64 - 1).None? && AsReg(ts[1].s) == Some(a.a) && AsReg(ts[2].s) == Some(a.b) && ts[2].closed
    requires LastOf(ts[3]) == LastOf(Token(ArgText(a.c), true)) && ts[3].s != "r" && OpcodeOf(Number(a.op)) == Some(a.op)
    ensures LineTokens(ts) && LineItem(ts) == ItemOf(a)
  {
    hide NameNumber, Hex, AsReg, LastOf, ArgText, NAMES, Number, OpcodeOf;
  }

  /** A register of two digits. */
  lemma TwoDigits(x: char, y: char, m: nat, n: nat)
    requires HexDigitOf(x) == Some(m) && HexDigitOf(y) == Some(n) && 16 * m + n < 32 && !Whitespace(x) && !Whitespace(y)
    ensures AsReg(['r', x, y]) == Some(16 * m + n) && Plain(['r', x, y])
  {
    var s := ['r', x, y];
    assert s[1..] == [x, y] && [x, y][..1] == [x] && [x][..0] == [];
    assert AllHex([]) && AllHex([x]) && AllHex([x, y]);
    assert HexNumber([x]) == HexNumber([]) * 16 + m == m;
    assert HexNumber([x, y]) == HexNumber([x]) * 16 + n;
    assert !Whitespace('r');
  }

  /** The registers, as the compiler spells them. */
  lemma Spelled()
    ensures AsReg("r0") == Some(0) && AsReg("r18") == Some(SP) && AsReg("r19") == Some(FP) && AsReg("r1d") == Some(RR)
    ensures AsReg("r1a") == Some(BP) && AsReg("r1b") == Some(LR) && AsReg("r1e") == Some(PC) && AsReg("r1f") == Some(SR)
    ensures AsReg("r1A") == Some(BP) && AsReg("r1B") == Some(LR) && AsReg("r1E") == Some(PC) && AsReg("r1F") == Some(SR)
    ensures Plain("r0") && Plain("r18") && Plain("r19") && Plain("r1d") && Plain("r1a") && Plain("r1b") && Plain("r1e") && Plain("r1f")
    ensures Plain("r1A") && Plain("r1B") && Plain("r1E") && Plain("r1F")
    ensures SP < 32 && FP < 32 && RR < 32 && BP < 32 && LR < 32 && PC < 32 && SR < 32
  {
    RegisterZero();
    PlainWords();
    DigitsAre();
    hide HexDigitOf, AsReg, Whitespace, Plain;
    TwoDigits('1', '8', 1, 8);
    TwoDigits('1', '9', 1, 9);
    TwoDigits('1', 'd', 1, 13);
    TwoDigits('1', 'a', 1, 10);
    TwoDigits('1', 'b', 1, 11);
    TwoDigits('1', 'e', 1, 14);
    TwoDigits('1', 'f', 1, 15);
    TwoDigits('1', 'A', 1, 10);
    TwoDigits('1', 'B', 1, 11);
    TwoDigits('1', 'E', 1, 14);
    TwoDigits('1', 'F', 1, 15);
  }

  lemma DigitsAre()
    ensures HexDigitOf('1') == Some(1) && HexDigitOf('8') == Some(8) && HexDigitOf('9') == Some(9) && HexDigitOf('d') == Some(13)
    ensures HexDigitOf('a') == Some(10) && HexDigitOf('b') == Some(11) && HexDigitOf('e') == Some(14) && HexDigitOf('f') == Some(15)
    ensures HexDigitOf('A') == Some(10) && HexDigitOf('B') == Some(11) && HexDigitOf('E') == Some(14) && HexDigitOf('F') == Some(15)
    ensures forall ch :: HexDigitOf(ch).Some? ==> !Whitespace(ch)
  {
  }

  lemma Small()
    ensures ToHex(0) == "0" && ToHex(1) == "1" && ToHex(2) == "2" && ToHex(0x3f) == "3f"
  {
    assert HexLower(3) == "3" && HexLower(0x3f) == HexLower(3) + ['f'];
  }

  lemma NamesAre()
    ensures |NAMES| == 16
    ensures NAMES[Number(Ads)] == "ads" && NAMES[Number(Sbs)] == "sbs" && NAMES[Number(Xor)] == "xor" && NAMES[Number(Nor)] == "nor"
    ensures NAMES[Number(And)] == "and" && NAMES[Number(Shf)] == "shf" && NAMES[Number(Ldr)] == "ldr" && NAMES[Number(Str)] == "str"
    ensures NAMES[Number(Jnc)] == "jnc"
  {
  }

  lemma PrimNames(op: Opcode)
    ensures |NAMES| == 16 && PrimName(op) == NAMES[Number(op)]
  {
  }

  // --------------------------------------------------------- last arguments

  lemma ReadsImm(i: int)
    ensures Reads(ToHex(i), AImm(i))
  {
    HexPlain(i);
    NotTheLabelR(AImm(i));
    hide ToHex, Plain, LastOf;
  }

  lemma ReadsLabel(l: Label)
    requires PlainLabel(l)
    ensures Reads(LabelText(l), ALabel(l))
  {
    LabelPlain(l);
    NotTheLabelR(ALabel(l));
    hide LabelText, Plain, LastOf;
  }

  lemma ReadsReg(z: string, r: nat)
    requires r < 32 && AsReg(z) == Some(r) && Plain(z)
    ensures Reads(z, AReg(r))
  {
    RegRead(r);
    assert HexDigitOf(z[0]).None?;
    NotHex(z, IMM_LIMIT - 1);
    hide Hex, Plain, RegText;
  }

  // -------------------------------------------------------------- line shapes

  /** A line with an immediate; start is all that stands before it. */
  lemma ImmText(start: string, op: Opcode, r: nat, q: nat, k: int, n: string, x: string, y: string, end: string)
    requires r < 32 && q < 32 && AsReg(x) == Some(r) && AsReg(y) == Some(q) && Plain(x) && Plain(y) && LineEnd(end)
    requires |NAMES| == 16 && n == NAMES[Number(op)] && start == n + " " + x + " " + y + " "
    ensures Emits(start + ToHex(k) + end, [Asm(op, r, q, AImm(k))])
  {
    hide *;
    ReadsImm(k);
    ImmSpelling(op, r, q, k, n, x, y);
    SpellsLine(start + ToHex(k) + end, Asm(op, r, q, AImm(k)), n, x, y, ToHex(k), end);
  }

  lemma ImmSpelling(op: Opcode, r: nat, q: nat, k: int, n: string, x: string, y: string)
    requires r < 32 && q < 32 && AsReg(x) == Some(r) && AsReg(y) == Some(q) && Plain(x) && Plain(y) && Reads(ToHex(k), AImm(k))
    requires |NAMES| == 16 && n == NAMES[Number(op)]
    ensures Spelling(Asm(op, r, q, AImm(k)), n, x, y, ToHex(k))
  {
    hide Reads, ToHex, Plain, AsReg, NAMES, Number;
  }

  lemma RegLine(text: string, op: Opcode, r: nat, q: nat, c: nat, n: string, x: string, y: string, z: string)
    requires r < 32 && q < 32 && c < 32 && AsReg(x) == Some(r) && AsReg(y) == Some(q) && AsReg(z) == Some(c)
    requires Plain(x) && Plain(y) && Plain(z)
    requires |NAMES| == 16 && n == NAMES[Number(op)] && text == n + " " + x + " " + y + " " + z + "\n"
    ensures Emits(text, [Asm(op, r, q, AReg(c))])
  {
    hide *;
    ReadsReg(z, c);
    RegSpelling(op, r, q, c, n, x, y, z);
    Ends();
    SpellsLine(text, Asm(op, r, q, AReg(c)), n, x, y, z, "\n");
  }

  lemma RegSpelling(op: Opcode, r: nat, q: nat, c: nat, n: string, x: string, y: string, z: string)
    requires r < 32 && q < 32 && c < 32 && AsReg(x) == Some(r) && AsReg(y) == Some(q) && Plain(x) && Plain(y) && Reads(z, AReg(c))
    requires |NAMES| == 16 && n == NAMES[Number(op)]
    ensures Spelling(Asm(op, r, q, AReg(c)), n, x, y, z)
  {
    hide Reads, Plain, AsReg, NAMES, Number;
  }

  lemma LabelLine(text: string, op: Opcode, r: nat, q: nat, l: Label, n: string, x: string, y: string)
    requires r < 32 && q < 32 && AsReg(x) == Some(r) && AsReg(y) == Some(q) && Plain(x) && Plain(y) && PlainLabel(l)
    requires |NAMES| == 16 && n == NAMES[Number(op)] && text == n + " " + x + " " + y + " " + LabelText(l) + "\n"
    ensures Emits(text, [Asm(op, r, q, ALabel(l))])
  {
    hide *;
    ReadsLabel(l);
    LabelSpelling(op, r, q, l, n, x, y);
    Ends();
    SpellsLine(text, Asm(op, r, q, ALabel(l)), n, x, y, LabelText(l), "\n");
  }

  lemma LabelSpelling(op: Opcode, r: nat, q: nat, l: Label, n: string, x: string, y: string)
    requires r < 32 && q < 32 && AsReg(x) == Some(r) && AsReg(y) == Some(q) && Plain(x) && Plain(y) && PlainLabel(l)
    requires Reads(LabelText(l), ALabel(l)) && |NAMES| == 16 && n == NAMES[Number(op)]
    ensures Spelling(Asm(op, r, q, ALabel(l)), n, x, y, LabelText(l))
  {
    hide Reads, Plain, AsReg, NAMES, Number, LabelText, PlainLabel;
  }

  lemma Ends()
    ensures LineEnd("\n") && LineEnd(" \n")
  {
  }

  // ---------------------------------------------------- the lines of each form

  lemma StoreText(r: nat, x: string, k: int)
    requires (r == 0 && x == "r0") || (r == 29 && x == "r1d")
    ensures Emits("str " + x + " r19 " + ToHex(k) + "\n", [Store(r, k)])
  {
    hide *;
    Spelled();
    NamesAre();
    Ends();
    Places();
    assert "str " + x + " r19 " == "str" + " " + x + " " + "r19" + " ";
    ImmText("str " + x + " r19 ", Str, r, FP, k, "str", x, "r19", "\n");
    StoreIs(r, k);
  }

  lemma Places()
    ensures SP == 24 && FP == 25 && BP == 26 && LR == 27 && RR == 29 && PC == 30 && SR == 31
  {
  }

  lemma StoreIs(r: nat, k: int)
    ensures Store(r, k) == Asm(Str, r, FP, AImm(k)) && Load(r, k) == Asm(Ldr, r, FP, AImm(k))
  {
  }

  lemma AddText(k: int)
    ensures Emits("ads r1d r1d " + ToHex(k) + "\n", [Asm(Ads, RR, RR, AImm(k))])
  {
    hide *;
    Spelled();
    NamesAre();
    Ends();
    Places();
    Small();
    assert "ads r1d r1d " == "ads" + " " + "r1d" + " " + "r1d" + " ";
    ImmText("ads r1d r1d ", Ads, RR, RR, k, "ads", "r1d", "r1d", "\n");
  }

  lemma JumpPast(k: int)
    ensures Emits("jnc r1d r1e " + ToHex(k) + "\n", [Asm(Jnc, RR, PC, AImm(k))])
  {
    hide *;
    Spelled();
    NamesAre();
    Ends();
    Places();
    Small();
    assert "jnc r1d r1e " == "jnc" + " " + "r1d" + " " + "r1e" + " ";
    ImmText("jnc r1d r1e ", Jnc, RR, PC, k, "jnc", "r1d", "r1e", "\n");
  }

  lemma JumpOn(k: int)
    ensures Emits("jnc r1f r1e " + ToHex(k) + "\n", [Asm(Jnc, SR, PC, AImm(k))])
  {
    hide *;
    Spelled();
    NamesAre();
    Ends();
    Places();
    Small();
    assert "jnc r1f r1e " == "jnc" + " " + "r1f" + " " + "r1e" + " ";
    ImmText("jnc r1f r1e ", Jnc, SR, PC, k, "jnc", "r1f", "r1e", "\n");
  }

  lemma Raise(k: int)
    ensures Emits("ads r18 r18 " + ToHex(k) + "\n", [Asm(Ads, SP, SP, AImm(k))])
  {
    hide *;
    Spelled();
    NamesAre();
    Ends();
    Places();
    Small();
    assert "ads r18 r18 " == "ads" + " " + "r18" + " " + "r18" + " ";
    ImmText("ads r18 r18 ", Ads, SP, SP, k, "ads", "r18", "r18", "\n");
  }

  lemma Lower(k: int)
    ensures Emits("sbs r18 r18 " + ToHex(k) + "\n", [Asm(Sbs, SP, SP, AImm(k))])
  {
    hide *;
    Spelled();
    NamesAre();
    Ends();
    Places();
    Small();
    assert "sbs r18 r18 " == "sbs" + " " + "r18" + " " + "r18" + " ";
    ImmText("sbs r18 r18 ", Sbs, SP, SP, k, "sbs", "r18", "r18", "\n");
  }

  lemma ClearText()
    ensures Emits("xor r1d r1d r1d\n", [Asm(Xor, RR, RR, AReg(RR))])
  {
    hide *;
    Spelled();
    NamesAre();
    Places();
    assert "xor r1d r1d r1d\n" == "xor" + " " + "r1d" + " " + "r1d" + " " + "r1d" + "\n";
    RegLine("xor r1d r1d r1d\n", Xor, RR, RR, RR, "xor", "r1d", "r1d", "r1d");
  }

  lemma NorText()
    ensures Emits("nor r1d r1d r1d\n", [Asm(Nor, RR, RR, AReg(RR))])
  {
    hide *;
    Spelled();
    NamesAre();
    Places();
    assert "nor r1d r1d r1d\n" == "nor" + " " + "r1d" + " " + "r1d" + " " + "r1d" + "\n";
    RegLine("nor r1d r1d r1d\n", Nor, RR, RR, RR, "nor", "r1d", "r1d", "r1d");
  }

  lemma HaltText()
    ensures Emits("xor r1F r1F r1F\n", [Asm(Xor, SR, SR, AReg(SR))])
  {
    hide *;
    Spelled();
    NamesAre();
    Places();
    assert "xor r1F r1F r1F\n" == "xor" + " " + "r1F" + " " + "r1F" + " " + "r1F" + "\n";
    RegLine("xor r1F r1F r1F\n", Xor, SR, SR, SR, "xor", "r1F", "r1F", "r1F");
  }

  lemma AndText()
    ensures Emits("and r1d r1d 1\n", [Asm(And, RR, RR, AImm(1))])
  {
    hide *;
    Spelled();
    NamesAre();
    Ends();
    Places();
    Small();
    assert "and r1d r1d " + "1" + "\n" == "and r1d r1d 1\n";
    assert "and r1d r1d " == "and" + " " + "r1d" + " " + "r1d" + " ";
    ImmText("and r1d r1d ", And, RR, RR, 1, "and", "r1d", "r1d", "\n");
  }

  lemma SignText()
    ensures Emits("shf r1d r1d 3f\n", [Asm(Shf, RR, RR, AImm(0x3f))])
  {
    hide *;
    Spelled();
    NamesAre();
    Ends();
    Places();
    Small();
    assert "shf r1d r1d " + "3f" + "\n" == "shf r1d r1d 3f\n";
    assert "shf r1d r1d " == "shf" + " " + "r1d" + " " + "r1d" + " ";
    ImmText("shf r1d r1d ", Shf, RR, RR, 0x3f, "shf", "r1d", "r1d", "\n");
  }

  lemma SaveLink()
    ensures Emits("str r1b r18 0\n", [Asm(Str, LR, SP, AImm(0))])
  {
    hide *;
    Spelled();
    NamesAre();
    Ends();
    Places();
    Small();
    assert "str r1b r18 " + "0" + "\n" == "str r1b r18 0\n";
    assert "str r1b r18 " == "str" + " " + "r1b" + " " + "r18" + " ";
    ImmText("str r1b r18 ", Str, LR, SP, 0, "str", "r1b", "r18", "\n");
  }

  lemma NewLink()
    ensures Emits("ads r1b r1e 2\n", [Asm(Ads, LR, PC, AImm(2))])
  {
    hide *;
    Spelled();
    NamesAre();
    Ends();
    Places();
    Small();
    assert "ads r1b r1e " + "2" + "\n" == "ads r1b r1e 2\n";
    assert "ads r1b r1e " == "ads" + " " + "r1b" + " " + "r1e" + " ";
    ImmText("ads r1b r1e ", Ads, LR, PC, 2, "ads", "r1b", "r1e", "\n");
  }

  lemma OldLink()
    ensures Emits("ldr r1b r18 0 \n", [Asm(Ldr, LR, SP, AImm(0))])
  {
    hide *;
    Spelled();
    NamesAre();
    Ends();
    Places();
    Small();
    assert "ldr r1b r18 " + "0" + " \n" == "ldr r1b r18 0 \n";
    assert "ldr r1b r18 " == "ldr" + " " + "r1b" + " " + "r18" + " ";
    ImmText("ldr r1b r18 ", Ldr, LR, SP, 0, "ldr", "r1b", "r18", " \n");
  }

  lemma SaveFrame()
    ensures Emits("str r19 r18 1\n", [Asm(Str, FP, SP, AImm(1))])
  {
    hide *;
    Spelled();
    NamesAre();
    Ends();
    Places();
    Small();
    assert "str r19 r18 " + "1" + "\n" == "str r19 r18 1\n";
    assert "str r19 r18 " == "str" + " " + "r19" + " " + "r18" + " ";
    ImmText("str r19 r18 ", Str, FP, SP, 1, "str", "r19", "r18", "\n");
  }

  lemma PushFrame()
    ensures Emits("ads r18 r18 1\n", [Asm(Ads, SP, SP, AImm(1))])
  {
    hide *;
    Spelled();
    NamesAre();
    Ends();
    Places();
    Small();
    assert "ads r18 r18 " + "1" + "\n" == "ads r18 r18 1\n";
    assert "ads r18 r18 " == "ads" + " " + "r18" + " " + "r18" + " ";
    ImmText("ads r18 r18 ", Ads, SP, SP, 1, "ads", "r18", "r18", "\n");
  }

  lemma SetFrame()
    ensures Emits("ads r19 r18 0\n", [Asm(Ads, FP, SP, AImm(0))])
  {
    hide *;
    Spelled();
    NamesAre();
    Ends();
    Places();
    Small();
    assert "ads r19 r18 " + "0" + "\n" == "ads r19 r18 0\n";
    assert "ads r19 r18 " == "ads" + " " + "r19" + " " + "r18" + " ";
    ImmText("ads r19 r18 ", Ads, FP, SP, 0, "ads", "r19", "r18", "\n");
  }

  lemma PopFrame()
    ensures Emits("sbs r18 r18 1\n", [Asm(Sbs, SP, SP, AImm(1))])
  {
    hide *;
    Spelled();
    NamesAre();
    Ends();
    Places();
    Small();
    assert "sbs r18 r18 " + "1" + "\n" == "sbs r18 r18 1\n";
    assert "sbs r18 r18 " == "sbs" + " " + "r18" + " " + "r18" + " ";
    ImmText("sbs r18 r18 ", Sbs, SP, SP, 1, "sbs", "r18", "r18", "\n");
  }

  lemma OldFrame()
    ensures Emits("ldr r19 r18 1\n", [Asm(Ldr, FP, SP, AImm(1))])
  {
    hide *;
    Spelled();
    NamesAre();
    Ends();
    Places();
    Small();
    assert "ldr r19 r18 " + "1" + "\n" == "ldr r19 r18 1\n";
    assert "ldr r19 r18 " == "ldr" + " " + "r19" + " " + "r18" + " ";
    ImmText("ldr r19 r18 ", Ldr, FP, SP, 1, "ldr", "r19", "r18", "\n");
  }

  lemma ReturnText()
    ensures Emits("jnc r1F r1B 0\n", [Asm(Jnc, SR, LR, AImm(0))])
  {
    hide *;
    Spelled();
    NamesAre();
    Ends();
    Places();
    Small();
    assert "jnc r1F r1B " + "0" + "\n" == "jnc r1F r1B 0\n";
    assert "jnc r1F r1B " == "jnc" + " " + "r1F" + " " + "r1B" + " ";
    ImmText("jnc r1F r1B ", Jnc, SR, LR, 0, "jnc", "r1F", "r1B", "\n");
  }

  lemma LeaveText()
    ensures Emits("jnc r1f r1b 0\n", [Asm(Jnc, SR, LR, AImm(0))])
  {
    hide *;
    Spelled();
    NamesAre();
    Ends();
    Places();
    Small();
    assert "jnc r1f r1b " + "0" + "\n" == "jnc r1f r1b 0\n";
    assert "jnc r1f r1b " == "jnc" + " " + "r1f" + " " + "r1b" + " ";
    ImmText("jnc r1f r1b ", Jnc, SR, LR, 0, "jnc", "r1f", "r1b", "\n");
  }

  lemma SetBase()
    ensures Emits("ads r1A r1E 0\n", [Asm(Ads, BP, PC, AImm(0))])
  {
    hide *;
    Spelled();
    NamesAre();
    Ends();
    Places();
    Small();
    assert "ads r1A r1E " + "0" + "\n" == "ads r1A r1E 0\n";
    assert "ads r1A r1E " == "ads" + " " + "r1A" + " " + "r1E" + " ";
    ImmText("ads r1A r1E ", Ads, BP, PC, 0, "ads", "r1A", "r1E", "\n");
  }

  lemma FirstLink()
    ensures Emits("ads r1b r1E 2\n", [Asm(Ads, LR, PC, AImm(2))])
  {
    hide *;
    Spelled();
    NamesAre();
    Ends();
    Places();
    Small();
    assert "ads r1b r1E " + "2" + "\n" == "ads r1b r1E 2\n";
    assert "ads r1b r1E " == "ads" + " " + "r1b" + " " + "r1E" + " ";
    ImmText("ads r1b r1E ", Ads, LR, PC, 2, "ads", "r1b", "r1E", "\n");
  }

  lemma LoadText(r: nat, x: string, k: int)
    requires (r == 0 && x == "r0") || (r == 29 && x == "r1d")
    ensures Emits("ldr " + x + " r19 " + ToHex(k) + "\n", [Load(r, k)])
  {
    hide *;
    Spelled();
    NamesAre();
    Ends();
    Places();
    assert "ldr " + x + " r19 " == "ldr" + " " + x + " " + "r19" + " ";
    ImmText("ldr " + x + " r19 ", Ldr, r, FP, k, "ldr", x, "r19", "\n");
    StoreIs(r, k);
  }

  lemma OperateText(op: Opcode)
    ensures Emits(PrimName(op) + " r1d r0 r1d\n", [Operate(op)])
  {
    hide *;
    Spelled();
    PrimNames(op);
    Places();
    var n := PrimName(op);
    assert n + " r1d r0 r1d\n" == n + " " + "r1d" + " " + "r0" + " " + "r1d" + "\n";
    RegLine(n + " r1d r0 r1d\n", op, RR, 0, RR, n, "r1d", "r0", "r1d");
    OperateIs(op);
  }

  lemma OperateIs(op: Opcode)
    ensures Operate(op) == Asm(op, RR, 0, AReg(RR))
  {
  }

  lemma JumpBack(n: nat)
    requires n > 0
    ensures Emits("jnc r1f r1e -" + ToHex(n) + "\n", [Asm(Jnc, SR, PC, AImm(0 - n))])
  {
    hide *;
    Minus(n);
    WithSign(ToHex(n));
    JumpOn(0 - n);
  }

  lemma WithSign(z: string)
    ensures "jnc r1f r1e -" + z + "\n" == "jnc r1f r1e " + ("-" + z) + "\n"
  {
    assert "jnc r1f r1e -" == "jnc r1f r1e " + "-";
  }

  lemma Minus(n: nat)
    requires n > 0
    ensures ToHex(0 - n) == "-" + ToHex(n)
  {
  }

  lemma AddressText(f: Name)
    requires PlainLabel(Mangled(f))
    ensures Emits("ads r1d r1a " + ("_" + f) + "\n", [Asm(Ads, RR, BP, ALabel(Mangled(f)))])
  {
    hide *;
    Spelled();
    NamesAre();
    Places();
    LabelTexts(Mangled(f));
    assert "ads r1d r1a " + ("_" + f) + "\n" == "ads" + " " + "r1d" + " " + "r1a" + " " + ("_" + f) + "\n";
    LabelLine("ads r1d r1a " + ("_" + f) + "\n", Ads, RR, BP, Mangled(f), "ads", "r1d", "r1a");
  }

  lemma CallLine(f: Name)
    requires PlainLabel(Mangled(f))
    ensures Emits("jnc r1F r1a " + ("_" + f) + "\n", [Asm(Jnc, SR, BP, ALabel(Mangled(f)))])
  {
    hide *;
    Spelled();
    NamesAre();
    Places();
    LabelTexts(Mangled(f));
    assert "jnc r1F r1a " + ("_" + f) + "\n" == "jnc" + " " + "r1F" + " " + "r1a" + " " + ("_" + f) + "\n";
    LabelLine("jnc r1F r1a " + ("_" + f) + "\n", Jnc, SR, BP, Mangled(f), "jnc", "r1F", "r1a");
  }

  lemma StackLine()
    ensures Emits("ads r18 r1A STACK:\n", [Asm(Ads, SP, BP, ALabel(StackLabel))])
  {
    hide *;
    Spelled();
    NamesAre();
    Places();
    LabelTexts(StackLabel);
    OwnLabels();
    assert "ads r18 r1A STACK:\n" == "ads" + " " + "r18" + " " + "r1A" + " " + "STACK:" + "\n";
    LabelLine("ads r18 r1A STACK:\n", Ads, SP, BP, StackLabel, "ads", "r18", "r1A");
  }

  lemma MainLine()
    ensures Emits("jnc r1f r1a MAIN:\n", [Asm(Jnc, SR, BP, ALabel(MainLabel))])
  {
    hide *;
    Spelled();
    NamesAre();
    Places();
    LabelTexts(MainLabel);
    OwnLabels();
    assert "jnc r1f r1a MAIN:\n" == "jnc" + " " + "r1f" + " " + "r1a" + " " + "MAIN:" + "\n";
    LabelLine("jnc r1f r1a MAIN:\n", Jnc, SR, BP, MainLabel, "jnc", "r1f", "r1a");
  }

  lemma OwnLabels()
    ensures PlainLabel(MainLabel) && PlainLabel(StackLabel)
  {
  }

  // ----------------------------------------------------------- newline counts

  lemma {:induction false} CountTwo(s: string, t: string)
    ensures Newlines(s + t) == Newlines(s) + Newlines(t)
    decreases |s|
  {
    if s == "" {
      assert s + t == t;
    } else {
      assert (s + t)[1..] == s[1..] + t;
      CountTwo(s[1..], t);
    }
  }

  lemma {:induction false} NoNewlines(s: string)
    requires forall k :: 0 <= k < |s| ==> s[k] != '\n'
    ensures Newlines(s) == 0
    decreases |s|
  {
    if s != "" { NoNewlines(s[1..]); }
  }

  // -------------------------------------------------------------- expressions

  lemma PrimEmits(combine: string, cl: seq<Asm>, first: string, a: seq<Asm>, second: string, b: seq<Asm>, idx: int)
    requires Emits(combine, cl) && Emits(first, a) && Emits(second, b)
    ensures Emits(PrimText(combine, first, second, idx), Binary(a, b, idx, cl))
  {
    hide *;
    Places();
    Beginnings();
    StoreText(0, "r0", idx + 1);
    StoreText(29, "r1d", idx + 2);
    LoadText(0, "r0", idx + 2);
    LoadText(0, "r0", idx + 1);
    var s1, s2 := "str r0 r19 " + ToHex(idx + 1) + "\n", "str r1d r19 " + ToHex(idx + 2) + "\n";
    var s3, s4 := "ldr r0 r19 " + ToHex(idx + 2) + "\n", "ldr r0 r19 " + ToHex(idx + 1) + "\n";
    PrimIs(combine, cl, first, a, second, b, idx, s1, s2, s3, s4);
    PrimChain(combine, cl, first, a, second, b, s1, [Store(0, idx + 1)], s2, [Store(RR, idx + 2)], s3, [Load(0, idx + 2)], s4, [Load(0, idx + 1)]);
  }

  lemma Beginnings()
    ensures "str " + "r0" + " r19 " == "str r0 r19 " && "str " + "r1d" + " r19 " == "str r1d r19 " && "ldr " + "r0" + " r19 " == "ldr r0 r19 "
    ensures "ldr " + "r1d" + " r19 " == "ldr r1d r19 "
  {
  }

  lemma PrimIs(combine: string, cl: seq<Asm>, first: string, a: seq<Asm>, second: string, b: seq<Asm>, idx: int,
               s1: string, s2: string, s3: string, s4: string)
    requires s1 == "str r0 r19 " + ToHex(idx + 1) + "\n" && s2 == "str r1d r19 " + ToHex(idx + 2) + "\n"
    requires s3 == "ldr r0 r19 " + ToHex(idx + 2) + "\n" && s4 == "ldr r0 r19 " + ToHex(idx + 1) + "\n"
    ensures PrimText(combine, first, second, idx) == s1 + first + s2 + second + s3 + combine + s4
    ensures Binary(a, b, idx, cl) ==
            [Store(0, idx + 1)] + a + [Store(RR, idx + 2)] + b + [Load(0, idx + 2)] + cl + [Load(0, idx + 1)]
  {
    hide ToHex, Store, Load;
  }

  lemma PrimChain(combine: string, cl: seq<Asm>, first: string, a: seq<Asm>, second: string, b: seq<Asm>,
                  s1: string, l1: seq<Asm>, s2: string, l2: seq<Asm>, s3: string, l3: seq<Asm>, s4: string, l4: seq<Asm>)
    requires Emits(combine, cl) && Emits(first, a) && Emits(second, b) && Emits(s1, l1) && Emits(s2, l2) && Emits(s3, l3) && Emits(s4, l4)
    ensures Emits(s1 + first + s2 + second + s3 + combine + s4, l1 + a + l2 + b + l3 + cl + l4)
  {
    hide *;
    EmitsTwo(s1, l1, first, a);
    EmitsTwo(s1 + first, l1 + a, s2, l2);
    EmitsTwo(s1 + first + s2, l1 + a + l2, second, b);
    EmitsTwo(s1 + first + s2 + second, l1 + a + l2 + b, s3, l3);
    EmitsTwo(s1 + first + s2 + second + s3, l1 + a + l2 + b + l3, combine, cl);
    EmitsTwo(s1 + first + s2 + second + s3 + combine, l1 + a + l2 + b + l3 + cl, s4, l4);
  }

  lemma TestEmits(n: nat)
    ensures Emits(TestText(n), Branch(n))
  {
    hide Emits, ToHex;
    NorText();
    AndText();
    JumpPast(2 + n);
    EmitsTwo("nor r1d r1d r1d\n", [Asm(Nor, RR, RR, AReg(RR))], "and r1d r1d 1\n", [Asm(And, RR, RR, AImm(1))]);
    EmitsTwo("nor r1d r1d r1d\n" + "and r1d r1d 1\n", [Asm(Nor, RR, RR, AReg(RR))] + [Asm(And, RR, RR, AImm(1))],
             "jnc r1d r1e " + ToHex(2 + n) + "\n", [Asm(Jnc, RR, PC, AImm(2 + n))]);
    assert Branch(n) == [Asm(Nor, RR, RR, AReg(RR))] + [Asm(And, RR, RR, AImm(1))] + [Asm(Jnc, RR, PC, AImm(2 + n))];
  }

  lemma EmitsCount(s: string, a: seq<Asm>)
    requires Emits(s, a)
    ensures Newlines(s) == |a|
  {
  }

  lemma IfEmits(c: string, lc: seq<Asm>, yes: string, ly: seq<Asm>, no: string, ln: seq<Asm>)
    requires Emits(c, lc) && Emits(yes, ly) && Emits(no, ln)
    ensures Emits(IfText(c, yes, no), lc + Branch(|ly|) + ly + [Asm(Jnc, SR, PC, AImm(1 + |ln|))] + ln)
  {
    hide Emits, ToHex, TestText, Branch;
    EmitsCount(yes, ly);
    EmitsCount(no, ln);
    TestEmits(|ly|);
    JumpOn(1 + |ln|);
    var s1, s2 := TestText(|ly|), "jnc r1f r1e " + ToHex(1 + |ln|) + "\n";
    EmitsTwo(c, lc, s1, Branch(|ly|));
    EmitsTwo(c + s1, lc + Branch(|ly|), yes, ly);
    EmitsTwo(c + s1 + yes, lc + Branch(|ly|) + ly, s2, [Asm(Jnc, SR, PC, AImm(1 + |ln|))]);
    EmitsTwo(c + s1 + yes + s2, lc + Branch(|ly|) + ly + [Asm(Jnc, SR, PC, AImm(1 + |ln|))], no, ln);
  }

  lemma LoopEmits(c: string, lc: seq<Asm>, body: string, lb: seq<Asm>)
    requires Emits(c, lc) && Emits(body, lb)
    ensures Emits(LoopText(c, body), lc + Branch(|lb|) + lb + [Asm(Jnc, SR, PC, AImm(-(3 + |lb| + |lc|)))])
  {
    hide Emits, ToHex, TestText, Branch;
    EmitsCount(body, lb);
    EmitsCount(c, lc);
    TestEmits(|lb|);
    JumpBack(3 + |lb| + |lc|);
    var s1, s2 := TestText(|lb|), "jnc r1f r1e -" + ToHex(3 + |lb| + |lc|) + "\n";
    EmitsTwo(c, lc, s1, Branch(|lb|));
    EmitsTwo(c + s1, lc + Branch(|lb|), body, lb);
    EmitsTwo(c + s1 + body, lc + Branch(|lb|) + lb, s2, [Asm(Jnc, SR, PC, AImm(-(3 + |lb| + |lc|)))]);
  }

  lemma CallEmits(f: Name, k: int)
    requires PlainLabel(Mangled(f))
    ensures Emits(CallText("_" + f, ToHex(k)), CallSequence(f, k))
  {
    hide Emits, ToHex, PlainLabel;
    Raise(k);
    SaveLink();
    NewLink();
    CallLine(f);
    OldLink();
    Lower(k);
    var s1, s2, s3 := "ads r18 r18 " + ToHex(k) + "\n", "str r1b r18 0\n", "ads r1b r1e 2\n";
    var s4, s5, s6 := "jnc r1F r1a " + ("_" + f) + "\n", "ldr r1b r18 0 \n", "sbs r18 r18 " + ToHex(k) + "\n";
    var a1, a2, a3 := Asm(Ads, SP, SP, AImm(k)), Asm(Str, LR, SP, AImm(0)), Asm(Ads, LR, PC, AImm(2));
    var a4, a5, a6 := Asm(Jnc, SR, BP, ALabel(Mangled(f))), Asm(Ldr, LR, SP, AImm(0)), Asm(Sbs, SP, SP, AImm(k));
    assert CallText("_" + f, ToHex(k)) == s1 + s2 + s3 + s4 + s5 + s6;
    assert CallSequence(f, k) == [a1] + [a2] + [a3] + [a4] + [a5] + [a6];
    hide *;
    SixLines(s1, a1, s2, a2, s3, a3, s4, a4, s5, a5, s6, a6);
  }

  lemma SixLines(s1: string, a1: Asm, s2: string, a2: Asm, s3: string, a3: Asm, s4: string, a4: Asm, s5: string, a5: Asm, s6: string, a6: Asm)
    requires Emits(s1, [a1]) && Emits(s2, [a2]) && Emits(s3, [a3]) && Emits(s4, [a4]) && Emits(s5, [a5]) && Emits(s6, [a6])
    ensures Emits(s1 + s2 + s3 + s4 + s5 + s6, [a1] + [a2] + [a3] + [a4] + [a5] + [a6])
  {
    hide *;
    EmitsTwo(s1, [a1], s2, [a2]);
    EmitsTwo(s1 + s2, [a1] + [a2], s3, [a3]);
    EmitsTwo(s1 + s2 + s3, [a1] + [a2] + [a3], s4, [a4]);
    EmitsTwo(s1 + s2 + s3 + s4, [a1] + [a2] + [a3] + [a4], s5, [a5]);
    EmitsTwo(s1 + s2 + s3 + s4 + s5, [a1] + [a2] + [a3] + [a4] + [a5], s6, [a6]);
  }

  lemma IntEmits(n: int)
    ensures Emits("xor r1d r1d r1d\n" + ("ads r1d r1d " + ToHex(n) + "\n"), [Asm(Xor, RR, RR, AReg(RR)), Asm(Ads, RR, RR, AImm(n))])
  {
    hide Emits, ToHex;
    ClearText();
    AddText(n);
    EmitsTwo("xor r1d r1d r1d\n", [Asm(Xor, RR, RR, AReg(RR))], "ads r1d r1d " + ToHex(n) + "\n", [Asm(Ads, RR, RR, AImm(n))]);
    assert [Asm(Xor, RR, RR, AReg(RR)), Asm(Ads, RR, RR, AImm(n))] == [Asm(Xor, RR, RR, AReg(RR))] + [Asm(Ads, RR, RR, AImm(n))];
  }

  lemma GtEmits()
    ensures Emits("sbs r1d r0 r1d\n" + "shf r1d r1d 3f\n", [Operate(Sbs), Asm(Shf, RR, RR, AImm(0x3f))])
  {
    hide Emits;
    OperateText(Sbs);
    assert PrimName(Sbs) + " r1d r0 r1d\n" == "sbs r1d r0 r1d\n";
    SignText();
    EmitsTwo("sbs r1d r0 r1d\n", [Operate(Sbs)], "shf r1d r1d 3f\n", [Asm(Shf, RR, RR, AImm(0x3f))]);
    assert [Operate(Sbs), Asm(Shf, RR, RR, AImm(0x3f))] == [Operate(Sbs)] + [Asm(Shf, RR, RR, AImm(0x3f))];
  }

  /** The string of an expression is its lines. */
  lemma {:induction false} CodeEmits(e: Expr, idx: int, env: Slots)
    requires PlainNames(e)
    ensures Emits(Code(e, idx, env), CompileExpr(e, idx, env))
    decreases Size(e), 1
  {
    hide Emits, PrimText, IfText, LoopText, CallText, SeqCode, LetCode, ArgsCode, CompileSeq, CompileLet, CompileArgs, CallSequence, Binary,
         ToHex, PlainSeq, PlainBinds, PlainLabel, PrimName;
    match e {
      case Int(n) => IntEmits(n);
      case Nil => ClearText();
      case Var(x) =>
        EmitsNothing();
        Places();
        Beginnings();
        if x in env { LoadText(29, "r1d", env[x]); }
      case Prim(op, l, r) =>
        CodeEmits(l, idx + 1, env);
        CodeEmits(r, idx + 2, env);
        OperateText(op);
        PrimEmits(PrimName(op) + " r1d r0 r1d\n", [Operate(op)], Code(l, idx + 1, env), CompileExpr(l, idx + 1, env),
                  Code(r, idx + 2, env), CompileExpr(r, idx + 2, env), idx);
      case Gt(l, r) =>
        CodeEmits(r, idx + 1, env);
        CodeEmits(l, idx + 2, env);
        GtEmits();
        PrimEmits("sbs r1d r0 r1d\n" + "shf r1d r1d 3f\n", [Operate(Sbs), Asm(Shf, RR, RR, AImm(0x3f))],
                  Code(r, idx + 1, env), CompileExpr(r, idx + 1, env), Code(l, idx + 2, env), CompileExpr(l, idx + 2, env), idx);
      case Let(binds, body) =>
        EmitsNothing();
        LetEmits(binds, body, idx, env);
      case Assign(x, e1) =>
        EmitsNothing();
        Places();
        Beginnings();
        CodeEmits(e1, idx, env);
        if x in env {
          StoreText(29, "r1d", env[x]);
          EmitsTwo(Code(e1, idx, env), CompileExpr(e1, idx, env), "str r1d r19 " + ToHex(env[x]) + "\n", [Store(RR, env[x])]);
        }
      case If(c, yes, no) =>
        CodeEmits(c, idx, env);
        CodeEmits(yes, idx, env);
        CodeEmits(no, idx, env);
        IfEmits(Code(c, idx, env), CompileExpr(c, idx, env), Code(yes, idx, env), CompileExpr(yes, idx, env), Code(no, idx, env), CompileExpr(no, idx, env));
      case Loop(c, body) =>
        CodeEmits(c, idx, env);
        SeqEmits(body, idx, env);
        LoopEmits(Code(c, idx, env), CompileExpr(c, idx, env), SeqCode(body, idx, env), CompileSeq(body, idx, env));
      case Def(f, _, _) => AddressText(f);
      case Call(f, args) =>
        ArgsEmit(args, idx + 1, env);
        CallEmits(f, idx + 1 + Length(args));
        EmitsTwo(ArgsCode(args, idx + 1, env), CompileArgs(args, idx + 1, env),
                 CallText("_" + f, ToHex(idx + 1 + Length(args))), CallSequence(f, idx + 1 + Length(args)));
      case Blank => EmitsNothing();
    }
  }

  lemma {:induction false} SeqEmits(es: Exprs, idx: int, env: Slots)
    requires PlainSeq(es)
    ensures Emits(SeqCode(es, idx, env), CompileSeq(es, idx, env))
    decreases SeqSize(es), 0
  {
    hide Emits, Code, CompileExpr, PlainNames;
    match es {
      case Done => EmitsNothing();
      case Then(e, rest) =>
        CodeEmits(e, idx, env);
        SeqEmits(rest, idx, env);
        EmitsTwo(Code(e, idx, env), CompileExpr(e, idx, env), SeqCode(rest, idx, env), CompileSeq(rest, idx, env));
    }
  }

  lemma {:induction false} LetEmits(binds: Binds, body: Exprs, idx: int, env: Slots)
    requires PlainBinds(binds) && PlainSeq(body)
    ensures Emits(LetCode(binds, body, idx, env), CompileLet(binds, body, idx, env))
    decreases BindsSize(binds) + SeqSize(body), 1
  {
    hide Emits, Code, CompileExpr, SeqCode, CompileSeq, PlainNames, PlainSeq, ToHex;
    match binds {
      case NoBind => SeqEmits(body, idx, env);
      case Bind(x, e, rest) =>
        var env' := env[x := idx + 1];
        Places();
        Beginnings();
        CodeEmits(e, idx + 1, env');
        StoreText(29, "r1d", idx + 1);
        LetEmits(rest, body, idx + 1, env');
        var s := "str r1d r19 " + ToHex(idx + 1) + "\n";
        EmitsTwo(Code(e, idx + 1, env'), CompileExpr(e, idx + 1, env'), s, [Store(RR, idx + 1)]);
        EmitsTwo(Code(e, idx + 1, env') + s, CompileExpr(e, idx + 1, env') + [Store(RR, idx + 1)],
                 LetCode(rest, body, idx + 1, env'), CompileLet(rest, body, idx + 1, env'));
    }
  }

  lemma {:induction false} ArgsEmit(args: Exprs, idx: int, env: Slots)
    requires PlainSeq(args)
    ensures Emits(ArgsCode(args, idx, env), CompileArgs(args, idx, env))
    decreases SeqSize(args), 0
  {
    hide Emits, Code, CompileExpr, PlainNames, ToHex;
    match args {
      case Done => EmitsNothing();
      case Then(e, rest) =>
        Places();
        Beginnings();
        CodeEmits(e, idx, env);
        StoreText(29, "r1d", idx);
        ArgsEmit(rest, idx + 1, env);
        var s := "str r1d r19 " + ToHex(idx) + "\n";
        EmitsTwo(Code(e, idx, env), CompileExpr(e, idx, env), s, [Store(RR, idx)]);
        EmitsTwo(Code(e, idx, env) + s, CompileExpr(e, idx, env) + [Store(RR, idx)], ArgsCode(rest, idx + 1, env), CompileArgs(rest, idx + 1, env));
    }
  }

  // ------------------------------------------------------------ whole programs

  lemma FnEmits(fn: Fn)
    requires PlainSeq(fn.body)
    ensures Emits(FnCode(fn), CompileFn(fn))
  {
    hide Emits, SeqCode, CompileSeq, PlainSeq, ParamSlots;
    SaveFrame();
    PushFrame();
    SetFrame();
    SeqEmits(fn.body, 0, ParamSlots(fn.params, |fn.params|));
    PopFrame();
    OldFrame();
    ReturnText();
    var b, c := SeqCode(fn.body, 0, ParamSlots(fn.params, |fn.params|)), CompileSeq(fn.body, 0, ParamSlots(fn.params, |fn.params|));
    var a1, a2, a3 := Asm(Str, FP, SP, AImm(1)), Asm(Ads, SP, SP, AImm(1)), Asm(Ads, FP, SP, AImm(0));
    var a4, a5, a6 := Asm(Sbs, SP, SP, AImm(1)), Asm(Ldr, FP, SP, AImm(1)), Asm(Jnc, SR, LR, AImm(0));
    assert CompileFn(fn) == [a1] + [a2] + [a3] + c + [a4] + [a5] + [a6];
    hide *;
    EmitsTwo("str r19 r18 1\n", [a1], "ads r18 r18 1\n", [a2]);
    EmitsTwo("str r19 r18 1\n" + "ads r18 r18 1\n", [a1] + [a2], "ads r19 r18 0\n", [a3]);
    FnChain("str r19 r18 1\n" + "ads r18 r18 1\n" + "ads r19 r18 0\n", [a1] + [a2] + [a3], b, c,
            "sbs r18 r18 1\n", a4, "ldr r19 r18 1\n", a5, "jnc r1F r1B 0\n", a6);
    FnCodeIs(fn);
  }

  lemma FnCodeIs(fn: Fn)
    ensures FnCode(fn) == "str r19 r18 1\n" + "ads r18 r18 1\n" + "ads r19 r18 0\n" +
                          SeqCode(fn.body, 0, ParamSlots(fn.params, |fn.params|)) + "sbs r18 r18 1\n" + "ldr r19 r18 1\n" + "jnc r1F r1B 0\n"
  {
    hide SeqCode, ParamSlots;
  }

  lemma FnChain(s: string, a: seq<Asm>, b: string, c: seq<Asm>, s4: string, a4: Asm, s5: string, a5: Asm, s6: string, a6: Asm)
    requires Emits(s, a) && Emits(b, c) && Emits(s4, [a4]) && Emits(s5, [a5]) && Emits(s6, [a6])
    ensures Emits(s + b + s4 + s5 + s6, a + c + [a4] + [a5] + [a6])
  {
    hide *;
    EmitsTwo(s, a, b, c);
    EmitsTwo(s + b, a + c, s4, [a4]);
    EmitsTwo(s + b + s4, a + c + [a4], s5, [a5]);
    EmitsTwo(s + b + s4 + s5, a + c + [a4] + [a5], s6, [a6]);
  }

  lemma PrologueEmits()
    ensures Emits(PrologueText(), Prologue())
  {
    hide Emits;
    SetBase();
    StackLine();
    SetFrame();
    FirstLink();
    MainLine();
    HaltText();
    var a1, a2, a3 := Asm(Ads, BP, PC, AImm(0)), Asm(Ads, SP, BP, ALabel(StackLabel)), Asm(Ads, FP, SP, AImm(0));
    var a4, a5, a6 := Asm(Ads, LR, PC, AImm(2)), Asm(Jnc, SR, BP, ALabel(MainLabel)), Asm(Xor, SR, SR, AReg(SR));
    assert Prologue() == [a1] + [a2] + [a3] + [a4] + [a5] + [a6];
    hide *;
    SixLines("ads r1A r1E 0\n", a1, "ads r18 r1A STACK:\n", a2, "ads r19 r18 0\n", a3, "ads r1b r1E 2\n", a4,
             "jnc r1f r1a MAIN:\n", a5, "xor r1F r1F r1F\n", a6);
    PrologueIs();
  }

  lemma PrologueIs()
    ensures PrologueText() == "ads r1A r1E 0\n" + "ads r18 r1A STACK:\n" + "ads r19 r18 0\n" + "ads r1b r1E 2\n" +
                              "jnc r1f r1a MAIN:\n" + "xor r1F r1F r1F\n"
  {
  }

  /** A text is read like another, whatever follows. */
  ghost predicate ReadsLike(s: string, t: string) {
    forall rest: string, l: Listing :: Parse(Tokens(s + rest), l) == Parse(Tokens(t + rest), l)
  }

  lemma ReadsLikeHere(s: string, t: string, rest: string, l: Listing)
    requires ReadsLike(s, t)
    ensures Parse(Tokens(s + rest), l) == Parse(Tokens(t + rest), l)
  {
    hide Parse, Tokens;
  }

  lemma EmitsReads(s: string, a: seq<Asm>)
    requires Emits(s, a)
    ensures ReadsLike(s, LinesText(a))
  {
    hide Parse, Tokens, LinesText, PlainLines, Newlines;
  }

  /** One function in the table, in front of a rest that is read alike. */
  lemma FnReads(t: Table, f: Name, rest: string, rest': string, l: Listing)
    requires PlainTable(t) && PlainBodies(t) && f in t.order
    requires forall l': Listing :: Parse(Tokens(rest), l') == Parse(Tokens(rest'), l')
    ensures Parse(Tokens("\n" + (if f in t.fns then "_" + f + "\n" + FnCode(t.fns[f]) else "") + "\n" + rest), l) ==
            Parse(Tokens(FnText(t, f) + rest'), l)
  {
    hide *;
    if f in t.fns {
      BodyPlain(t, f);
      var code, lines := FnCode(t.fns[f]), CompileFn(t.fns[f]);
      FnEmits(t.fns[f]);
      EmitsReads(code, lines);
      FnShape(t, f, lines, rest');
      LabelTexts(Mangled(f));
      var w := LabelText(Mangled(f));
      FnString(w, code, rest);
      ReadBlank(w + "\n" + (code + ("\n" + rest)), l);
      ReadBlank(w + "\n" + (LinesText(lines) + ("\n" + rest')), l);
      ReadLabel(Mangled(f), code + ("\n" + rest), l);
      ReadLabel(Mangled(f), LinesText(lines) + ("\n" + rest'), l);
      var l1 := l.(marks := l.marks + [Mark(ClosedToken(w), |l.items|)]);
      ReadsLikeHere(code, LinesText(lines), "\n" + rest, l1);
      ReadFnLines(lines, rest, l1);
      ReadFnLines(lines, rest', l1);
      LikeHere(rest, rest', l1.(items := l1.items + ItemsOf(lines)));
    } else {
      NoFnText(t, f, rest, rest');
      ReadBlank("\n" + rest, l);
      ReadBlank(rest, l);
      ReadBlank("\n" + rest', l);
      ReadBlank(rest', l);
      LikeHere(rest, rest', l);
    }
  }

  lemma LikeHere(rest: string, rest': string, l: Listing)
    requires forall l': Listing :: Parse(Tokens(rest), l') == Parse(Tokens(rest'), l')
    ensures Parse(Tokens(rest), l) == Parse(Tokens(rest'), l)
  {
    hide Parse, Tokens;
  }

  lemma BodyPlain(t: Table, f: Name)
    requires PlainBodies(t) && f in t.fns
    ensures PlainSeq(t.fns[f].body)
  {
    hide PlainSeq, PlainLabel;
  }

  lemma FnString(w: string, code: string, rest: string)
    ensures "\n" + (w + "\n" + code) + "\n" + rest == "\n" + (w + "\n" + (code + ("\n" + rest)))
  {
  }

  lemma NoFnText(t: Table, f: Name, rest: string, rest': string)
    requires f !in t.fns
    ensures "\n" + "" + "\n" + rest == "\n" + ("\n" + rest) && FnText(t, f) + rest' == "\n" + ("\n" + rest')
  {
  }

  lemma {:induction false} FnsRead(t: Table, n: nat, rest: string, rest': string, l: Listing)
    requires PlainTable(t) && PlainBodies(t) && n <= |t.order|
    requires forall l': Listing :: Parse(Tokens(rest), l') == Parse(Tokens(rest'), l')
    ensures Parse(Tokens(FnCodes(t, n) + rest), l) == Parse(Tokens(FnTexts(t, n) + rest'), l)
    decreases n
  {
    hide *;
    FnsShape(t, n);
    if n == 0 {
      NoFns(t, rest', l);
      assert "" + rest == rest;
      LikeHere(rest, rest', l);
    } else {
      var f := t.order[n - 1];
      assert f in t.order;
      var own := "\n" + (if f in t.fns then "_" + f + "\n" + FnCode(t.fns[f]) else "") + "\n";
      forall l': Listing ensures Parse(Tokens(own + rest), l') == Parse(Tokens(FnText(t, f) + rest'), l') {
        FnReads(t, f, rest, rest', l');
      }
      FnsRead(t, n - 1, own + rest, FnText(t, f) + rest', l);
      Associative(FnCodes(t, n - 1), own, rest);
      Associative(FnTexts(t, n - 1), FnText(t, f), rest');
    }
  }

  lemma FnsShape(t: Table, n: nat)
    requires n <= |t.order|
    ensures n == 0 ==> FnCodes(t, n) == ""
    ensures n > 0 ==>
              var f := t.order[n - 1];
              && FnCodes(t, n) == FnCodes(t, n - 1) + ("\n" + (if f in t.fns then "_" + f + "\n" + FnCode(t.fns[f]) else "") + "\n")
              && FnTexts(t, n) == FnTexts(t, n - 1) + FnText(t, f)
  {
    hide FnCode, FnText;
  }

  lemma MainEmits(es: Exprs)
    requires PlainSeq(es)
    ensures Emits(SeqCode(es, 0, map[]) + "jnc r1f r1b 0\n", MainCode(es))
  {
    SeqEmits(es, 0, map[]);
    LeaveText();
    EmitsTwo(SeqCode(es, 0, map[]), CompileSeq(es, 0, map[]), "jnc r1f r1b 0\n", [Asm(Jnc, SR, LR, AImm(0))]);
    hide Emits, SeqCode, CompileSeq, PlainSeq;
  }

  /** From the label of the main code on. */
  lemma TailReads(es: Exprs, l: Listing)
    requires PlainSeq(es)
    ensures Parse(Tokens(LabelText(MainLabel) + "\n" + ((SeqCode(es, 0, map[]) + "jnc r1f r1b 0\n") + ("\n" + "STACK: 0"))), l) ==
            Parse(Tokens(LabelText(MainLabel) + "\n" + (LinesText(MainCode(es)) + ("\n" + "STACK: 0"))), l)
  {
    hide *;
    OwnLabels();
    MainEmits(es);
    var code, tail := SeqCode(es, 0, map[]) + "jnc r1f r1b 0\n", "\n" + "STACK: 0";
    EmitsReads(code, MainCode(es));
    ReadLabel(MainLabel, code + tail, l);
    ReadLabel(MainLabel, LinesText(MainCode(es)) + tail, l);
    ReadsLikeHere(code, LinesText(MainCode(es)), tail, l.(marks := l.marks + [Mark(ClosedToken(LabelText(MainLabel)), |l.items|)]));
  }

  lemma BodiesPlain(es: Exprs)
    requires PlainSeq(es)
    ensures PlainBodies(TableOf(es))
  {
    SeqEventsPlain(es, {});
    RecordPlain(Table([], map[]), SeqEvents(es, {}));
    hide PlainSeq, PlainLabel, SeqEvents, Record;
  }

  lemma CompShape(es: Exprs)
    ensures var t := TableOf(es);
            Comp(es) == PrologueText() + (FnCodes(t, |t.order|) + (LabelText(MainLabel) + "\n" +
                        ((SeqCode(es, 0, map[]) + "jnc r1f r1b 0\n") + ("\n" + "STACK: 0"))))
  {
    hide PrologueText, FnCodes, SeqCode, TableOf;
    assert "MAIN:\n" == LabelText(MainLabel) + "\n" && "jnc r1f r1b 0\n\n" == "jnc r1f r1b 0\n" + "\n";
  }

  /** What comp returns is read as the lines of the program. */
  lemma CompReads(es: Exprs)
    requires PlainSeq(es)
    ensures Assembled(Comp(es)) == Assembled(Text(es))
  {
    hide *;
    NamesSuffice(es);
    PlainParts(es);
    BodiesPlain(es);
    CompShape(es);
    TextShape(es);
    PrologueEmits();
    EmitsReads(PrologueText(), Prologue());
    ProloguePlain();
    var t, l0 := TableOf(es), Listing([], []);
    var own := LabelText(MainLabel) + "\n" + ((SeqCode(es, 0, map[]) + "jnc r1f r1b 0\n") + ("\n" + "STACK: 0"));
    var plain := LabelText(MainLabel) + "\n" + (LinesText(MainCode(es)) + ("\n" + "STACK: 0"));
    forall l: Listing ensures Parse(Tokens(own), l) == Parse(Tokens(plain), l) { TailReads(es, l); }
    var l1 := l0.(items := l0.items + ItemsOf(Prologue()));
    ReadsLikeHere(PrologueText(), LinesText(Prologue()), FnCodes(t, |t.order|) + own, l0);
    ReadPlainLines(Prologue(), FnCodes(t, |t.order|) + own, l0);
    ReadPlainLines(Prologue(), FnTexts(t, |t.order|) + plain, l0);
    FnsRead(t, |t.order|, own, plain, l1);
    SameReading(Comp(es), Text(es));
  }

  lemma SameReading(code: string, code': string)
    requires Parse(Tokens(code), Listing([], [])) == Parse(Tokens(code'), Listing([], []))
    ensures Assembled(code) == Assembled(code')
  {
    hide Parse, Tokens, Translate;
  }

  /** What comp returns assembles to the words of the program, and is refused exactly when Build refuses the program. */
  lemma CompAssembles(es: Exprs)
    requires PlainSeq(es) && SeqScoped(es, {})
    ensures Build(es).None? ==> Assembled(Comp(es)) == None
    ensures Build(es).Some? ==>
              (forall k :: 0 <= k < |Build(es).value| ==> WellFormed(Build(es).value[k])) &&
              Assembled(Comp(es)) == Some(WordsOf(Build(es).value))
  {
    hide *;
    CompReads(es);
    TextAssembles(es);
  }

  /** And makes run return the meaning of the source. */
  lemma CompRuns(es: Exprs, m: Image, words: seq<Word>, machine: Word, mem: seq<Word>, fuel: nat, o: Out) returns (bound: nat)
    requires PlainSeq(es) && SeqScoped(es, {}) && Assembled(Comp(es)) == Some(words)
    requires Build(es) == Some(m.code) && m.lo == m.base + |m.code| && m.lo + o.need < |mem| <= ADDRESSES
    requires m.base + |words| <= |mem| && mem[m.base..m.base + |words|] == words
    requires EvalSeq(ProgramOf(es, m.base), fuel, es, 0, map[]) == Some(o)
    ensures forall n {:trigger RunFor(Initial(m.base, machine, mem), n)} :: n >= bound ==>
              var end := RunFor(Initial(m.base, machine, mem), n);
              end.Some? && !Running(end.value) && end.value.regs[RR] == o.acc
  {
    hide *;
    CompReads(es);
    bound := TextRuns(es, m, words, machine, mem, fuel, o);
  }

  // ------------------------------------------------------------------ numbers

  /** Digits in lower case, by their places; none but the only one is a leading zero. */
  predicate InLowerCase(s: string, ds: seq<nat>) {
    && |s| == |ds| > 0 && (|ds| > 1 ==> ds[0] != 0) && |LOWER| == 16
    && forall k :: 0 <= k < |s| ==> ds[k] < 16 && s[k] == LOWER[ds[k]]
  }

  lemma {:induction false} LowerDigits(n: nat) returns (ds: seq<nat>)
    ensures InLowerCase(HexLower(n), ds) && Sum(ds, 16) == n && (n > 0 ==> ds[0] > 0)
  {
    DigitAt(n % 16);
    if n < 16 {
      ds := [n];
      assert [n][1..] == [] && Sum([], 16) == 0 && Power(16, 0) == 1;
    } else {
      var high := LowerDigits(n / 16);
      ds := high + [n % 16];
      SumAppend(high, n % 16, 16);
      hide LOWER, Sum;
    }
  }

  /** to_hex: a minus sign for a negative number, and the digits of its size. */
  lemma NumberPrinted(i: int) returns (ds: seq<nat>)
    ensures if i < 0 then ToHex(i) != [] && ToHex(i)[0] == '-' && InLowerCase(ToHex(i)[1..], ds) && 0 - Sum(ds, 16) == i
            else InLowerCase(ToHex(i), ds) && Sum(ds, 16) == i
  {
    ds := LowerDigits(if i < 0 then 0 - i else i);
    hide HexLower, InLowerCase, Sum;
  }
}
