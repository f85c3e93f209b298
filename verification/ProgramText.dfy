/**
 The lines of a program printed plainly, one register spelling for all of them, and what the assembler makes of that
 text: exactly the words of the program that WholeProgram.Build describes, and a refusal exactly when Build refuses.
 CompilerText carries this over to the strings of x86_64/compile.py themselves.
 */
module ProgramText {
  import opened Words
  import opened Machine
  import opened Encoding
  import opened Source
  import opened Compiler
  import opened CompilerCorrectness
  import opened WholeProgram
  import opened Scanner
  import opened Assembler
  import opened AssemblerTheory
  import opened VirtualMachine

  // ----------------------------------------------------------------- printing

  function HexChar(d: nat): char
    requires d < 16
  {
    "0123456789abcdef"[d]
  }

  function HexLower(n: nat): string { if n < 16 then [HexChar(n)] else HexLower(n / 16) + [HexChar(n % 16)] }

  /** to_hex: digits without a prefix, after a minus sign for a negative number. */
  function ToHex(i: int): string { if i < 0 then "-" + HexLower(0 - i) else HexLower(i) }

  function RegText(r: nat): string { "r" + HexLower(r) }

  function LabelText(l: Label): string {
    match l
    case Mangled(f) => "_" + f
    case MainLabel => "MAIN:"
    case StackLabel => "STACK:"
  }

  function ArgText(c: Arg): string {
    match c
    case AReg(r) => RegText(r)
    case AImm(i) => ToHex(i)
    case ALabel(l) => LabelText(l)
  }

  function LineText(a: Asm): string {
    NAMES[Number(a.op)] + " " + RegText(a.a) + " " + RegText(a.b) + " " + ArgText(a.c) + "\n"
  }

  function LinesText(lines: seq<Asm>): string { if lines == [] then "" else LineText(lines[0]) + LinesText(lines[1..]) }

  /** A function in the table: its label and its lines between newlines; only the newlines if it was never stored. */
  function FnText(t: Table, f: Name): string {
    "\n" + (if f in t.fns then LabelText(Mangled(f)) + "\n" + LinesText(CompileFn(t.fns[f])) else "") + "\n"
  }

  function FnTexts(t: Table, n: nat): string
    requires n <= |t.order|
  {
    if n == 0 then "" else FnTexts(t, n - 1) + FnText(t, t.order[n - 1])
  }

  function Text(es: Exprs): string {
    var t := TableOf(es);
    LinesText(Prologue()) + (FnTexts(t, |t.order|) + ("MAIN:\n" + (LinesText(MainCode(es)) + ("\n" + "STACK: 0"))))
  }

  // ------------------------------------------------------------ reading digits

  lemma HexCharIs(d: nat)
    requires d < 16
    ensures HexDigitOf(HexChar(d)) == Some(d) && !Whitespace(HexChar(d))
    ensures HexChar(d) != 'r' && HexChar(d) != '-' && HexChar(d) != '_' && HexChar(d) != 'M' && HexChar(d) != 'S'
  {
  }

  lemma {:induction false} HexLowerIs(n: nat)
    ensures AllHex(HexLower(n)) && HexNumber(HexLower(n)) == n && HexLower(n) != []
    ensures forall k :: 0 <= k < |HexLower(n)| ==> !Whitespace(HexLower(n)[k])
    ensures var c := HexLower(n)[0]; c != 'r' && c != '-' && c != '_' && c != 'M' && c != 'S'
    decreases n
  {
    var s := HexLower(n);
    HexCharIs(n % 16);
    if n < 16 {
      assert s[..0] == [];
    } else {
      HexLowerIs(n / 16);
      assert s[..|s| - 1] == HexLower(n / 16);
    }
  }

  lemma {:induction false} HexLowerShort(n: nat, k: nat)
    requires k > 0 && n < Pow2(4 * k)
    ensures |HexLower(n)| <= k
    decreases k
  {
    Pow2Add(4, 4 * k - 4);
    assert Pow2(4) == 16 && Pow2(0) == 1;
    hide Pow2;
    if n >= 16 {
      HexLowerShort(n / 16, k - 1);
    }
  }

  lemma HexOf(n: nat, max: nat)
    requires max < W64
    ensures Hex(HexLower(n), max) == if n <= max then Some(n) else None
  {
    HexLowerIs(n);
    if n <= max {
      Pow2At64();
      HexLowerShort(n, 16);
    }
  }

  lemma NotHex(s: string, max: nat)
    requires s != [] && HexDigitOf(s[0]).None?
    ensures Hex(s, max) == None
  {
  }

  lemma RegRead(r: nat)
    requires r < NUM_REGS
    ensures LastOf(Token(RegText(r), true)) == LReg(r) && AsReg(RegText(r)) == Some(r)
  {
    HexOf(r, NUM_REGS - 1);
    assert RegText(r)[0] == 'r' && RegText(r)[1..] == HexLower(r);
    NotHex(RegText(r), IMM_LIMIT - 1);
  }

  lemma ImmRead(i: int)
    ensures LastOf(Token(ToHex(i), true)) == if 0 - IMM_LIMIT < i < IMM_LIMIT then LImm(i) else LRef(Token(ToHex(i), true))
    ensures ToHex(i) != [] && var c := ToHex(i)[0]; c != '_' && c != 'M' && c != 'S' && c != 'r'
  {
    hide HexLower, Hex, ToHex, AsReg;
    HexLowerIs(Abs(i));
    HexOf(Abs(i), IMM_LIMIT - 1);
    ToHexIs(i);
    NoRegister(ToHex(i));
  }

  lemma NoRegister(s: string)
    ensures s != "" && s[0] != 'r' ==> AsReg(s).None?
  {
  }

  lemma ToHexIs(i: int)
    ensures i < 0 ==> ToHex(i) != [] && ToHex(i)[0] == '-' && ToHex(i)[1..] == HexLower(Abs(i))
    ensures i >= 0 ==> ToHex(i) == HexLower(Abs(i))
  {
    hide HexLower;
  }

  lemma LabelRead(l: Label)
    ensures LastOf(Token(LabelText(l), true)) == LRef(Token(LabelText(l), true)) && LabelText(l) != [] && LabelText(l)[0] != 'r'
    ensures Hex(LabelText(l), W64 - 1) == None && NameNumber(LabelText(l), 0) == None
  {
    var s := LabelText(l);
    NotHex(s, IMM_LIMIT - 1);
    NotHex(s, W64 - 1);
    if NameNumber(s, 0).Some? {
      NameChars(NameNumber(s, 0).value);
    }
    hide Hex, NameNumber;
  }

  // ------------------------------------------------------------ reading lines

  /** The names in a label have no whitespace. */
  predicate PlainLabel(l: Label) { l.Mangled? ==> forall k :: 0 <= k < |l.f| ==> !Whitespace(l.f[k]) }

  predicate PlainLine(a: Asm) {
    && a.a < NUM_REGS && a.b < NUM_REGS
    && match a.c case AReg(r) => r < NUM_REGS case AImm(_) => true case ALabel(l) => PlainLabel(l)
  }

  lemma LabelPlain(l: Label)
    requires PlainLabel(l)
    ensures Plain(LabelText(l))
  {
  }

  lemma ArgPlain(a: Asm)
    requires PlainLine(a)
    ensures Plain(ArgText(a.c)) && Plain(RegText(a.a)) && Plain(RegText(a.b)) && Plain(NAMES[Number(a.op)])
  {
    hide RegText, ToHex, LabelText, Plain, Number, NAMES;
    RegPlain(a.a);
    RegPlain(a.b);
    NamePlain(a.op);
    match a.c {
      case AReg(r) => RegPlain(r);
      case AImm(i) => HexPlain(i);
      case ALabel(l) => LabelPlain(l);
    }
  }

  lemma RegPlain(r: nat)
    ensures Plain(RegText(r))
  {
    HexLowerIs(r);
    hide HexLower, HexNumber;
  }

  lemma HexPlain(i: int)
    ensures Plain(ToHex(i))
  {
    HexLowerIs(Abs(i));
    hide HexLower, HexNumber;
  }

  lemma NamePlain(op: Opcode)
    ensures |NAMES| == 16 && Plain(NAMES[Number(op)])
  {
    NameChars(Number(op));
  }

  function ClosedToken(w: string): Token { Token(w, true) }

  function LineTokensOf(a: Asm): seq<Token> {
    [ClosedToken(NAMES[Number(a.op)]), ClosedToken(RegText(a.a)), ClosedToken(RegText(a.b)), ClosedToken(ArgText(a.c))]
  }

  lemma LineSplit(a: Asm, rest: string)
    requires PlainLine(a)
    ensures Tokens(LineText(a) + rest) == LineTokensOf(a) + Tokens(rest)
  {
    var n, x, y, z := NAMES[Number(a.op)], RegText(a.a), RegText(a.b), ArgText(a.c);
    hide *;
    ArgPlain(a);
    BlankSpace();
    LineShape(a, n, x, y, z, rest);
    LineTokensAre(a);
    FourWords(n, x, y, z, rest);
  }

  lemma FourWords(n: string, x: string, y: string, z: string, rest: string)
    requires Plain(n) && Plain(x) && Plain(y) && Plain(z)
    ensures Tokens(n + " " + (x + " " + (y + " " + (z + "\n" + rest)))) ==
            [Token(n, true), Token(x, true), Token(y, true), Token(z, true)] + Tokens(rest)
  {
    hide *;
    BlankSpace();
    WordToken(n, ' ', x + " " + (y + " " + (z + "\n" + rest)));
    WordToken(x, ' ', y + " " + (z + "\n" + rest));
    WordToken(y, ' ', z + "\n" + rest);
    WordToken(z, '\n', rest);
  }

  lemma BlankSpace()
    ensures Whitespace(' ') && Whitespace('\n')
  {
  }

  lemma LineTokensAre(a: Asm)
    ensures LineTokensOf(a) == [Token(NAMES[Number(a.op)], true), Token(RegText(a.a), true), Token(RegText(a.b), true), Token(ArgText(a.c), true)]
  {
  }

  lemma LineShape(a: Asm, n: string, x: string, y: string, z: string, rest: string)
    requires n == NAMES[Number(a.op)] && x == RegText(a.a) && y == RegText(a.b) && z == ArgText(a.c)
    ensures LineText(a) + rest == n + " " + (x + " " + (y + " " + (z + "\n" + rest)))
  {
  }

  function ItemOf(a: Asm): Item { Line(a.op, a.a, a.b, LastOf(ClosedToken(ArgText(a.c)))) }

  lemma ReadLine(a: Asm, rest: string, l: Listing)
    requires PlainLine(a)
    ensures Parse(Tokens(LineText(a) + rest), l) == Parse(Tokens(rest), l.(items := l.items + [ItemOf(a)]))
  {
    LineSplit(a, rest);
    NumberRoundTrip(a.op);
    NameFrom(Number(a.op), 0);
    RegRead(a.a);
    RegRead(a.b);
    NotTheLabelR(a.c);
    var ts := LineTokensOf(a);
    assert LineTokens(ts) && LineItem(ts) == ItemOf(a);
    hide *;
    LineTokensAre(a);
    LineTakes(ts, Tokens(rest), l);
  }

  lemma NotTheLabelR(c: Arg)
    ensures ArgText(c) != "r"
  {
    match c {
      case AReg(r) => HexLowerIs(r);
      case AImm(i) => ImmRead(i);
      case ALabel(l) => LabelRead(l);
    }
  }

  function ItemsOf(lines: seq<Asm>): seq<Item> { if lines == [] then [] else [ItemOf(lines[0])] + ItemsOf(lines[1..]) }

  lemma {:induction false} ItemsAre(lines: seq<Asm>)
    ensures |ItemsOf(lines)| == |lines| && forall k :: 0 <= k < |lines| ==> ItemsOf(lines)[k] == ItemOf(lines[k])
    decreases |lines|
  {
    hide ItemOf;
    if lines != [] { ItemsAre(lines[1..]); }
  }

  lemma ItemsConcat(a: seq<Asm>, b: seq<Asm>)
    ensures ItemsOf(a + b) == ItemsOf(a) + ItemsOf(b)
  {
    hide ItemOf, ItemsOf;
    ItemsAre(a);
    ItemsAre(b);
    ItemsAre(a + b);
  }

  lemma {:induction false} ReadLines(lines: seq<Asm>, rest: string, l: Listing)
    requires forall k :: 0 <= k < |lines| ==> PlainLine(lines[k])
    ensures Parse(Tokens(LinesText(lines) + rest), l) == Parse(Tokens(rest), l.(items := l.items + ItemsOf(lines)))
    decreases |lines|
  {
    hide PlainLine, Parse, Tokens, LineText, ItemOf;
    if lines == [] {
      assert LinesText(lines) + rest == rest && l.items + ItemsOf(lines) == l.items;
    } else {
      var next := LinesText(lines[1..]) + rest;
      assert LinesText(lines) + rest == LineText(lines[0]) + next;
      ReadLine(lines[0], next, l);
      ReadLines(lines[1..], rest, l.(items := l.items + [ItemOf(lines[0])]));
      assert l.items + [ItemOf(lines[0])] + ItemsOf(lines[1..]) == l.items + ItemsOf(lines);
    }
  }

  lemma ReadBlank(rest: string, l: Listing)
    ensures Parse(Tokens("\n" + rest), l) == Parse(Tokens(rest), l)
  {
    assert ("\n" + rest)[1..] == rest;
  }

  lemma ReadLabel(b: Label, rest: string, l: Listing)
    requires PlainLabel(b)
    ensures Parse(Tokens(LabelText(b) + "\n" + rest), l) ==
            Parse(Tokens(rest), l.(marks := l.marks + [Mark(ClosedToken(LabelText(b)), |l.items|)]))
  {
    LabelPlain(b);
    LabelRead(b);
    BlankSpace();
    hide *;
    var w := LabelText(b);
    WordToken(w, '\n', rest);
    var ts := [Token(w, true)] + Tokens(rest);
    assert ts[1..] == Tokens(rest);
    ParseStep(ts, l);
    ClosedTokenIs(w);
  }

  lemma ClosedTokenIs(w: string)
    ensures ClosedToken(w) == Token(w, true)
  {
  }

  // ------------------------------------------------------------ reading programs

  ghost predicate PlainLines(lines: seq<Asm>) { forall k :: 0 <= k < |lines| ==> PlainLine(lines[k]) }

  ghost predicate PlainTable(t: Table) {
    && (forall f :: f in t.order ==> PlainLabel(Mangled(f)))
    && (forall f :: f in t.fns ==> PlainLines(CompileFn(t.fns[f])))
  }

  function FnMarks(t: Table, n: nat, base: nat): seq<Mark>
    requires n <= |t.order|
  {
    if n == 0 then [] else
      FnMarks(t, n - 1, base) + OwnMark(t, t.order[n - 1], base + |Functions(t, n - 1)|)
  }

  lemma ReadFn(t: Table, f: Name, rest: string, l: Listing)
    requires PlainTable(t) && f in t.order
    ensures Parse(Tokens(FnText(t, f) + rest), l) ==
            Parse(Tokens(rest), Listing(l.items + ItemsOf(Chunk(t, f)), l.marks + OwnMark(t, f, |l.items|)))
  {
    if f in t.fns {
      var b, lines := Mangled(f), CompileFn(t.fns[f]);
      FnShape(t, f, lines, rest);
      assert Chunk(t, f) == lines && OwnMark(t, f, |l.items|) == [Mark(ClosedToken(LabelText(b)), |l.items|)];
      hide *;
      ReadBlank(LabelText(b) + "\n" + (LinesText(lines) + ("\n" + rest)), l);
      ReadLabel(b, LinesText(lines) + ("\n" + rest), l);
      var l1 := l.(marks := l.marks + [Mark(ClosedToken(LabelText(b)), |l.items|)]);
      ReadFnLines(lines, rest, l1);
    } else {
      assert FnText(t, f) + rest == "\n" + ("\n" + rest);
      assert l.items + ItemsOf(Chunk(t, f)) == l.items && l.marks + OwnMark(t, f, |l.items|) == l.marks;
      hide *;
      ReadBlank("\n" + rest, l);
      ReadBlank(rest, l);
    }
  }

  lemma ReadFnLines(lines: seq<Asm>, rest: string, l: Listing)
    requires PlainLines(lines)
    ensures Parse(Tokens(LinesText(lines) + ("\n" + rest)), l) == Parse(Tokens(rest), l.(items := l.items + ItemsOf(lines)))
  {
    hide PlainLine, Parse, Tokens, LinesText, ItemsOf;
    ReadLines(lines, "\n" + rest, l);
    ReadBlank(rest, l.(items := l.items + ItemsOf(lines)));
  }

  lemma FnShape(t: Table, f: Name, lines: seq<Asm>, rest: string)
    requires PlainTable(t) && f in t.order && f in t.fns && lines == CompileFn(t.fns[f])
    ensures FnText(t, f) + rest == "\n" + (LabelText(Mangled(f)) + "\n" + (LinesText(lines) + ("\n" + rest)))
    ensures PlainLabel(Mangled(f)) && PlainLines(lines)
  {
    hide LinesText, LabelText, CompileFn, PlainLabel, PlainLines;
  }

  function OwnMark(t: Table, f: Name, at: nat): seq<Mark> {
    if f in t.fns then [Mark(ClosedToken(LabelText(Mangled(f))), at)] else []
  }

  lemma Associative<T>(a: seq<T>, b: seq<T>, c: seq<T>)
    ensures (a + b) + c == a + (b + c)
  {
  }

  /** What reading the first n functions adds to l. */
  function WithFns(t: Table, n: nat, l: Listing): Listing
    requires n <= |t.order|
  {
    Listing(l.items + ItemsOf(Functions(t, n)), l.marks + FnMarks(t, n, |l.items|))
  }

  lemma WithFnsStep(t: Table, n: nat, l: Listing)
    requires 0 < n <= |t.order|
    ensures FnTexts(t, n) == FnTexts(t, n - 1) + FnText(t, t.order[n - 1])
    ensures var f, l1 := t.order[n - 1], WithFns(t, n - 1, l);
            WithFns(t, n, l) == Listing(l1.items + ItemsOf(Chunk(t, f)), l1.marks + OwnMark(t, f, |l1.items|))
  {
    hide *;
    FnsStep(t, n, |l.items|);
    WithFnsIs(t, n, l);
    WithFnsIs(t, n - 1, l);
    var f := t.order[n - 1];
    Extended(t, f, l, Functions(t, n - 1), Chunk(t, f), FnMarks(t, n - 1, |l.items|));
  }

  lemma Extended(t: Table, f: Name, l: Listing, fs: seq<Asm>, c: seq<Asm>, ms: seq<Mark>)
    ensures Listing(l.items + ItemsOf(fs + c), l.marks + (ms + OwnMark(t, f, |l.items| + |fs|)))
         == Listing((l.items + ItemsOf(fs)) + ItemsOf(c), (l.marks + ms) + OwnMark(t, f, |l.items + ItemsOf(fs)|))
  {
    hide *;
    ItemsConcat(fs, c);
    ItemsAre(fs);
    Joined(l, ItemsOf(fs), ItemsOf(c), ms, OwnMark(t, f, |l.items| + |fs|));
  }

  lemma Joined(l: Listing, a: seq<Item>, b: seq<Item>, m: seq<Mark>, own: seq<Mark>)
    ensures Listing((l.items + a) + b, (l.marks + m) + own) == Listing(l.items + (a + b), l.marks + (m + own))
  {
    Associative(l.items, a, b);
    Associative(l.marks, m, own);
  }

  lemma WithFnsIs(t: Table, n: nat, l: Listing)
    requires n <= |t.order|
    ensures WithFns(t, n, l) == Listing(l.items + ItemsOf(Functions(t, n)), l.marks + FnMarks(t, n, |l.items|))
  {
  }

  lemma FnsStep(t: Table, n: nat, base: nat)
    requires 0 < n <= |t.order|
    ensures var f := t.order[n - 1];
            && FnTexts(t, n) == FnTexts(t, n - 1) + FnText(t, f)
            && Functions(t, n) == Functions(t, n - 1) + Chunk(t, f)
            && FnMarks(t, n, base) == FnMarks(t, n - 1, base) + OwnMark(t, f, base + |Functions(t, n - 1)|)
  {
    hide FnText, Chunk, OwnMark;
  }

  lemma NoFns(t: Table, rest: string, l: Listing)
    ensures FnTexts(t, 0) + rest == rest && WithFns(t, 0, l) == l
  {
    assert l.items + [] == l.items && l.marks + [] == l.marks;
  }

  lemma {:induction false} ReadFns(t: Table, n: nat, rest: string, l: Listing)
    requires PlainTable(t) && n <= |t.order|
    ensures Parse(Tokens(FnTexts(t, n) + rest), l) == Parse(Tokens(rest), WithFns(t, n, l))
  {
    hide *;
    if n == 0 {
      NoFns(t, rest, l);
    } else {
      var f := t.order[n - 1];
      assert f in t.order;
      WithFnsStep(t, n, l);
      Associative(FnTexts(t, n - 1), FnText(t, f), rest);
      ReadFns(t, n - 1, FnText(t, f) + rest, l);
      ReadFn(t, f, rest, WithFns(t, n - 1, l));
    }
  }

  /** The whole text, read: its items and its labels. */
  function ListingOf(es: Exprs): Listing {
    var t := TableOf(es);
    Listing(ItemsOf(Lines(es)) + [Literal(0)],
            FnMarks(t, |t.order|, 6)
            + [Mark(ClosedToken("MAIN:"), 6 + |Functions(t, |t.order|)|), Mark(ClosedToken("STACK:"), |Lines(es)|)])
  }

  ghost predicate PlainProgram(es: Exprs) { PlainTable(TableOf(es)) && PlainLines(MainCode(es)) }

  lemma ReadTail(l: Listing)
    ensures Parse(Tokens("\n" + "STACK: 0"), l) ==
            Some(Listing(l.items + [Literal(0)], l.marks + [Mark(ClosedToken("STACK:"), |l.items|)]))
  {
    hide *;
    LastWord();
    Words0();
    ReadBlank("STACK: 0", l);
    WordToken("STACK:", ' ', "0");
    LabelRead(StackLabel);
    var st, z := Token("STACK:", true), Token("0", false);
    ClosedTokenIs("STACK:");
    var l1 := l.(marks := l.marks + [Mark(st, |l.items|)]);
    var l2 := l1.(items := l1.items + [Literal(0)]);
    assert Tokens("STACK: 0") == [st, z];
    assert [st, z][1..] == [z] && [z][1..] == [];
    ParseStep([st, z], l);
    ParseStep([z], l1);
    ParseEnd(l2);
  }

  lemma ParseEnd(l: Listing)
    ensures Parse([], l) == Some(l)
  {
  }

  lemma LastWord()
    ensures Tokens("0") == [Token("0", false)] && Hex("0", W64 - 1) == Some(0)
  {
    var z := "0";
    assert z[..0] == [] && z[..1] == z && z[1..] == [] && WordLength(z) == 1;
    assert AllHex(z) && HexNumber(z) == 0;
  }

  lemma Words0()
    ensures Plain("STACK:") && Whitespace(' ') && LabelText(StackLabel) == "STACK:" && "STACK:" + [' '] + "0" == "STACK: 0"
  {
  }

  lemma ProloguePlain()
    ensures PlainLines(Prologue()) && |ItemsOf(Prologue())| == 6
  {
    ItemsAre(Prologue());
  }

  lemma TextShape(es: Exprs)
    ensures var t := TableOf(es);
            Text(es) == LinesText(Prologue()) + (FnTexts(t, |t.order|) + (LabelText(MainLabel) + "\n" + (LinesText(MainCode(es)) + ("\n" + "STACK: 0"))))
  {
    hide LinesText, FnTexts, Prologue, MainCode, TableOf;
    assert "MAIN:\n" == LabelText(MainLabel) + "\n";
  }

  lemma ReadText(es: Exprs)
    requires PlainProgram(es)
    ensures Parse(Tokens(Text(es)), Listing([], [])) == Some(ListingOf(es))
  {
    hide *;
    TextShape(es);
    PlainParts(es);
    ProloguePlain();
    var t, main := TableOf(es), MainCode(es);
    var tail := "\n" + "STACK: 0";
    var body := LinesText(main) + tail;
    var rest := LabelText(MainLabel) + "\n" + body;
    var l0 := Listing([], []);
    var l1 := l0.(items := l0.items + ItemsOf(Prologue()));
    ReadPlainLines(Prologue(), FnTexts(t, |t.order|) + rest, l0);
    ReadFns(t, |t.order|, rest, l1);
    var l2 := WithFns(t, |t.order|, l1);
    ReadLabel(MainLabel, body, l2);
    var l3 := l2.(marks := l2.marks + [Mark(ClosedToken(LabelText(MainLabel)), |l2.items|)]);
    ReadPlainLines(main, tail, l3);
    var l4 := l3.(items := l3.items + ItemsOf(main));
    ReadTail(l4);
    WithFnsIs(t, |t.order|, l1);
    ListingIs(es, l1, l2, l3, l4);
  }

  lemma PlainParts(es: Exprs)
    requires PlainProgram(es)
    ensures PlainTable(TableOf(es)) && PlainLines(MainCode(es)) && PlainLabel(MainLabel)
  {
  }

  lemma ReadPlainLines(lines: seq<Asm>, rest: string, l: Listing)
    requires PlainLines(lines)
    ensures Parse(Tokens(LinesText(lines) + rest), l) == Parse(Tokens(rest), l.(items := l.items + ItemsOf(lines)))
  {
    hide PlainLine, Parse, Tokens, LinesText, ItemsOf;
    ReadLines(lines, rest, l);
  }

  lemma ListingIs(es: Exprs, l1: Listing, l2: Listing, l3: Listing, l4: Listing)
    requires l1 == Listing([] + ItemsOf(Prologue()), []) && |ItemsOf(Prologue())| == 6
    requires var t := TableOf(es);
             l2 == Listing(l1.items + ItemsOf(Functions(t, |t.order|)), l1.marks + FnMarks(t, |t.order|, |l1.items|))
    requires l3 == l2.(marks := l2.marks + [Mark(ClosedToken(LabelText(MainLabel)), |l2.items|)])
    requires l4 == l3.(items := l3.items + ItemsOf(MainCode(es)))
    ensures ListingOf(es) == Listing(l4.items + [Literal(0)], l4.marks + [Mark(ClosedToken("STACK:"), |l4.items|)])
  {
    hide *;
    ListingOfIs(es);
    var t := TableOf(es);
    var p, f, m := Prologue(), Functions(t, |t.order|), MainCode(es);
    ItemsConcat(p + f, m);
    ItemsConcat(p, f);
    ItemsAre(p + f + m);
    ItemsAre(f);
    Gathered(l4.items, ItemsOf(p), ItemsOf(f), ItemsOf(m));
    var ms, main, stack := FnMarks(t, |t.order|, 6), Mark(ClosedToken("MAIN:"), 6 + |f|), Mark(ClosedToken("STACK:"), |Lines(es)|);
    assert l4.marks + [stack] == ms + [main, stack] by { Marked(ms, main, stack); }
  }

  lemma Gathered(all: seq<Item>, p: seq<Item>, f: seq<Item>, m: seq<Item>)
    requires all == (([] + p) + f) + m
    ensures all == p + f + m
  {
  }

  lemma Marked(ms: seq<Mark>, main: Mark, stack: Mark)
    ensures (([] + ms) + [main]) + [stack] == ms + [main, stack]
  {
  }

  lemma ListingOfIs(es: Exprs)
    ensures var t := TableOf(es);
            && Lines(es) == Prologue() + Functions(t, |t.order|) + MainCode(es) && LabelText(MainLabel) == "MAIN:"
            && ListingOf(es) == Listing(ItemsOf(Lines(es)) + [Literal(0)],
                                        FnMarks(t, |t.order|, 6)
                                        + [Mark(ClosedToken("MAIN:"), 6 + |Functions(t, |t.order|)|), Mark(ClosedToken("STACK:"), |Lines(es)|)])
  {
    hide ItemsOf, FnMarks, Functions, Prologue, MainCode, TableOf, ClosedToken;
  }

  // ------------------------------------------------------------------ labels

  lemma {:induction false} FindConcat(a: seq<Mark>, b: seq<Mark>, t: Token)
    ensures Find(a + b, t) == if Find(a, t).Some? then Find(a, t) else Find(b, t)
    decreases |a|
  {
    if a == [] {
      assert a + b == b;
    } else {
      assert (a + b)[1..] == a[1..] + b;
      FindConcat(a[1..], b, t);
    }
  }

  /** Labels of the program text are found under their names only. */
  lemma FindOne(name: string, addr: nat, s: string)
    ensures Find([Mark(ClosedToken(name), addr)], Token(s, true)) == if s == name then Some(addr) else None
  {
    assert [Mark(ClosedToken(name), addr)][1..] == [];
  }

  lemma {:induction false} OnlyListed(t: Table, n: nat, f: Name)
    requires n <= |t.order| && Mangled(f) in FnLabels(t, n)
    ensures f in t.order[..n]
  {
    hide Functions;
    if t.order[n - 1] != f { OnlyListed(t, n - 1, f); }
  }

  lemma {:induction false} FindFn(t: Table, n: nat, f: Name)
    requires ValidTable(t) && n <= |t.order|
    ensures Find(FnMarks(t, n, 6), Token("_" + f, true)) ==
            if Mangled(f) in FnLabels(t, n) then Some(FnLabels(t, n)[Mangled(f)]) else None
  {
    hide Functions, ValidTable, SameLabel, ClosedToken, Find;
    FindNone(Token("_" + f, true));
    NotBefore(t, n);
    if n > 0 {
      var g, at := t.order[n - 1], 6 + |Functions(t, n - 1)|;
      FindFn(t, n - 1, f);
      FindConcat(FnMarks(t, n - 1, 6), OwnMark(t, g, at), Token("_" + f, true));
      FindOne("_" + g, at, "_" + f);
      assert "_" + g == "_" + f ==> g == f by { assert ("_" + g)[1..] == g && ("_" + f)[1..] == f; }
      if Mangled(f) in FnLabels(t, n - 1) { OnlyListed(t, n - 1, f); }
    }
  }

  lemma NotBefore(t: Table, n: nat)
    requires ValidTable(t) && n <= |t.order|
    ensures n > 0 ==> t.order[n - 1] !in t.order[..n - 1]
  {
  }

  lemma FindNone(t: Token)
    ensures Find([], t) == None
  {
  }

  /** A token that starts otherwise is no function label. */
  lemma {:induction false} FindOther(t: Table, n: nat, s: string)
    requires n <= |t.order| && s != [] && s[0] != '_'
    ensures Find(FnMarks(t, n, 6), Token(s, true)) == None
  {
    hide Functions, SameLabel, ClosedToken, Find;
    if n > 0 {
      var g, at := t.order[n - 1], 6 + |Functions(t, n - 1)|;
      FindOther(t, n - 1, s);
      FindConcat(FnMarks(t, n - 1, 6), OwnMark(t, g, at), Token(s, true));
      FindOne("_" + g, at, s);
      FindNone(Token(s, true));
    } else {
      FindNone(Token(s, true));
    }
  }

  // ------------------------------------------------------------ plain names

  /** Names of functions without whitespace, which is all that the tokenizer of compile.py makes. */
  predicate PlainNames(e: Expr) {
    match e
    case Prim(_, l, r) => PlainNames(l) && PlainNames(r)
    case Gt(l, r) => PlainNames(l) && PlainNames(r)
    case Let(binds, body) => PlainBinds(binds) && PlainSeq(body)
    case Assign(_, e1) => PlainNames(e1)
    case If(c, yes, no) => PlainNames(c) && PlainNames(yes) && PlainNames(no)
    case Loop(c, body) => PlainNames(c) && PlainSeq(body)
    case Def(f, _, body) => PlainLabel(Mangled(f)) && PlainSeq(body)
    case Call(f, args) => PlainLabel(Mangled(f)) && PlainSeq(args)
    case _ => true
  }

  predicate PlainSeq(es: Exprs) {
    match es
    case Done => true
    case Then(e, rest) => PlainNames(e) && PlainSeq(rest)
  }

  predicate PlainBinds(binds: Binds) {
    match binds
    case NoBind => true
    case Bind(_, e, rest) => PlainNames(e) && PlainBinds(rest)
  }

  lemma JoinPlain(a: seq<Asm>, b: seq<Asm>)
    requires PlainLines(a) && PlainLines(b)
    ensures PlainLines(a + b)
  {
  }

  lemma {:induction false} ExprPlain(e: Expr, idx: int, env: Slots)
    requires PlainNames(e)
    ensures PlainLines(CompileExpr(e, idx, env))
    decreases Size(e), 1
  {
    hide CompileSeq, CompileLet, CompileArgs, PlainSeq, PlainBinds, PlainLabel, PlainLines, Binary;
    match e {
      case Prim(op, l, r) =>
        OneLine(Operate(op));
        BinaryPlain(l, r, idx, env, [Operate(op)]);
      case Gt(l, r) =>
        TwoLines(Operate(Sbs), Asm(Shf, RR, RR, AImm(0x3f)));
        BinaryPlain(r, l, idx, env, [Operate(Sbs), Asm(Shf, RR, RR, AImm(0x3f))]);
      case Let(binds, body) =>
        NoLines();
        LetPlain(binds, body, idx, env);
      case Assign(x, e1) =>
        NoLines();
        ExprPlain(e1, idx, env);
        if x in env {
          OneLine(Store(RR, env[x]));
          JoinPlain(CompileExpr(e1, idx, env), [Store(RR, env[x])]);
        }
      case If(c, yes, no) => IfPlain(c, yes, no, idx, env);
      case Loop(c, body) => LoopPlain(c, body, idx, env);
      case Call(f, args) =>
        ArgsPlain(args, idx + 1, env);
        CallPlain(f, idx + 1 + Length(args));
        JoinPlain(CompileArgs(args, idx + 1, env), CallSequence(f, idx + 1 + Length(args)));
      case Int(n) => TwoLines(Asm(Xor, RR, RR, AReg(RR)), Asm(Ads, RR, RR, AImm(n)));
      case Nil => OneLine(Asm(Xor, RR, RR, AReg(RR)));
      case Var(x) =>
        NoLines();
        if x in env { OneLine(Load(RR, env[x])); }
      case Def(f, _, _) => OneLine(Asm(Ads, RR, BP, ALabel(Mangled(f))));
      case Blank => NoLines();
    }
  }

  lemma OneLine(a: Asm)
    requires PlainLine(a)
    ensures PlainLines([a])
  {
  }

  lemma TwoLines(a: Asm, b: Asm)
    requires PlainLine(a) && PlainLine(b)
    ensures PlainLines([a, b])
  {
  }

  lemma CallPlain(f: Name, offset: int)
    requires PlainLabel(Mangled(f))
    ensures PlainLines(CallSequence(f, offset))
  {
  }

  lemma {:induction false} IfPlain(c: Expr, yes: Expr, no: Expr, idx: int, env: Slots)
    requires PlainNames(c) && PlainNames(yes) && PlainNames(no)
    ensures PlainLines(CompileIf(c, yes, no, idx, env))
    decreases 1 + Size(c) + Size(yes) + Size(no), 0
  {
    hide *;
    ExprPlain(c, idx, env);
    ExprPlain(yes, idx, env);
    ExprPlain(no, idx, env);
    var cc, y, n := CompileExpr(c, idx, env), CompileExpr(yes, idx, env), CompileExpr(no, idx, env);
    IfLines(c, yes, no, idx, env);
    BranchPlain(|y|, 1 + |n|);
    JoinPlain(cc, Branch(|y|));
    JoinPlain(cc + Branch(|y|), y);
    JoinPlain(cc + Branch(|y|) + y, [Asm(Jnc, SR, PC, AImm(1 + |n|))]);
    JoinPlain(cc + Branch(|y|) + y + [Asm(Jnc, SR, PC, AImm(1 + |n|))], n);
  }

  lemma IfLines(c: Expr, yes: Expr, no: Expr, idx: int, env: Slots)
    ensures var y, n := CompileExpr(yes, idx, env), CompileExpr(no, idx, env);
            CompileIf(c, yes, no, idx, env) ==
            CompileExpr(c, idx, env) + Branch(|y|) + y + [Asm(Jnc, SR, PC, AImm(1 + |n|))] + n
  {
    hide CompileExpr, Branch;
  }

  lemma BranchPlain(n: nat, far: int)
    ensures PlainLines(Branch(n)) && PlainLines([Asm(Jnc, SR, PC, AImm(far))])
  {
  }

  lemma {:induction false} LoopPlain(c: Expr, body: Exprs, idx: int, env: Slots)
    requires PlainNames(c) && PlainSeq(body)
    ensures PlainLines(CompileLoop(c, body, idx, env))
    decreases 1 + Size(c) + SeqSize(body), 0
  {
    hide CompileExpr, CompileSeq, PlainNames, PlainSeq;
    ExprPlain(c, idx, env);
    SeqPlain(body, idx, env);
  }

  lemma {:induction false} BinaryPlain(first: Expr, second: Expr, idx: int, env: Slots, combine: seq<Asm>)
    requires PlainNames(first) && PlainNames(second) && PlainLines(combine)
    ensures PlainLines(Binary(CompileExpr(first, idx + 1, env), CompileExpr(second, idx + 2, env), idx, combine))
    decreases Size(first) + Size(second), 2
  {
    ExprPlain(first, idx + 1, env);
    ExprPlain(second, idx + 2, env);
    hide CompileExpr;
  }

  lemma {:induction false} SeqPlain(es: Exprs, idx: int, env: Slots)
    requires PlainSeq(es)
    ensures PlainLines(CompileSeq(es, idx, env))
    decreases SeqSize(es), 0
  {
    hide CompileExpr, PlainNames;
    match es {
      case Done =>
      case Then(e, rest) =>
        ExprPlain(e, idx, env);
        SeqPlain(rest, idx, env);
    }
  }

  lemma {:induction false} LetPlain(binds: Binds, body: Exprs, idx: int, env: Slots)
    requires PlainBinds(binds) && PlainSeq(body)
    ensures PlainLines(CompileLet(binds, body, idx, env))
    decreases BindsSize(binds) + SeqSize(body), 1
  {
    hide CompileExpr, CompileSeq, PlainNames, PlainSeq;
    match binds {
      case NoBind => SeqPlain(body, idx, env);
      case Bind(x, e, rest) =>
        ExprPlain(e, idx + 1, env[x := idx + 1]);
        LetPlain(rest, body, idx + 1, env[x := idx + 1]);
    }
  }

  lemma {:induction false} ArgsPlain(args: Exprs, idx: int, env: Slots)
    requires PlainSeq(args)
    ensures PlainLines(CompileArgs(args, idx, env))
    decreases SeqSize(args), 0
  {
    hide CompileExpr, PlainNames;
    match args {
      case Done =>
      case Then(e, rest) =>
        ExprPlain(e, idx, env);
        ArgsPlain(rest, idx + 1, env);
    }
  }

  predicate PlainEvent(ev: Event) { PlainLabel(Mangled(ev.f)) && (ev.Close? ==> PlainSeq(ev.fn.body)) }

  ghost predicate PlainEvents(evs: seq<Event>) { forall k :: 0 <= k < |evs| ==> PlainEvent(evs[k]) }

  lemma {:induction false} EventsPlain(e: Expr, scope: set<Name>)
    requires PlainNames(e)
    ensures PlainEvents(Events(e, scope))
    decreases e
  {
    hide SeqEvents, BindEvents, PlainSeq, PlainBinds, PlainLabel;
    match e {
      case Prim(_, l, r) =>
        EventsPlain(l, scope);
        EventsPlain(r, scope);
      case Gt(l, r) =>
        EventsPlain(l, scope);
        EventsPlain(r, scope);
      case Let(binds, body) =>
        BindEventsPlain(binds, scope);
        SeqEventsPlain(body, scope + BindNames(binds));
      case Assign(_, e1) => EventsPlain(e1, scope);
      case If(c, yes, no) =>
        EventsPlain(c, scope);
        EventsPlain(yes, scope);
        EventsPlain(no, scope);
      case Loop(c, body) =>
        EventsPlain(c, scope);
        SeqEventsPlain(body, scope);
      case Def(f, params, body) => SeqEventsPlain(body, set x | x in params);
      case Call(_, args) => SeqEventsPlain(args, scope);
      case _ =>
    }
  }

  lemma {:induction false} SeqEventsPlain(es: Exprs, scope: set<Name>)
    requires PlainSeq(es)
    ensures PlainEvents(SeqEvents(es, scope))
    decreases es
  {
    hide Events, PlainNames;
    match es {
      case Done =>
      case Then(e, rest) =>
        EventsPlain(e, scope);
        SeqEventsPlain(rest, scope);
    }
  }

  lemma {:induction false} BindEventsPlain(binds: Binds, scope: set<Name>)
    requires PlainBinds(binds)
    ensures PlainEvents(BindEvents(binds, scope))
    decreases binds
  {
    hide Events, PlainNames;
    match binds {
      case NoBind =>
      case Bind(x, e, rest) =>
        EventsPlain(e, scope + {x});
        BindEventsPlain(rest, scope + {x});
    }
  }

  ghost predicate PlainBodies(t: Table) {
    (forall f :: f in t.order ==> PlainLabel(Mangled(f))) && (forall f :: f in t.fns ==> PlainSeq(t.fns[f].body))
  }

  lemma {:induction false} RecordPlain(t: Table, evs: seq<Event>)
    requires PlainBodies(t) && PlainEvents(evs)
    ensures PlainBodies(Record(t, evs))
    decreases |evs|
  {
    hide PlainLabel, PlainSeq;
    if evs != [] {
      RecordPlain(t, evs[..|evs| - 1]);
      assert PlainEvent(evs[|evs| - 1]);
    }
  }

  lemma FnPlain(fn: Fn)
    requires PlainSeq(fn.body)
    ensures PlainLines(CompileFn(fn))
  {
    SeqPlain(fn.body, 0, ParamSlots(fn.params, |fn.params|));
    hide CompileSeq, PlainSeq, ParamSlots;
  }

  /** A program with plain names prints as a plain program. */
  lemma NamesSuffice(es: Exprs)
    requires PlainSeq(es)
    ensures PlainProgram(es)
  {
    SeqEventsPlain(es, {});
    RecordPlain(Table([], map[]), SeqEvents(es, {}));
    SeqPlain(es, 0, map[]);
    var t := TableOf(es);
    forall f | f in t.fns ensures PlainLines(CompileFn(t.fns[f])) {
      FnPlain(t.fns[f]);
    }
    hide CompileSeq, CompileFn, PlainSeq, PlainLabel, SeqEvents, TableOf;
  }

  // ------------------------------------------------------------------ result

  /** The label list of the text is the label table of the program. */
  lemma FindLabelOf(es: Exprs, l: Label)
    requires ValidTable(TableOf(es))
    ensures Find(ListingOf(es).marks, Token(LabelText(l), true)) == if l in LabelsOf(es) then Some(LabelsOf(es)[l]) else None
  {
    hide *;
    var t, s := TableOf(es), LabelText(l);
    var n := |t.order|;
    var ms, main, stack := FnMarks(t, n, 6), Mark(ClosedToken("MAIN:"), 6 + |Functions(t, n)|), Mark(ClosedToken("STACK:"), |Lines(es)|);
    ListingOfIs(es);
    LabelsOfIs(es);
    LabelTexts(l);
    FindConcat(ms, [main, stack], Token(s, true));
    FindConcat([main], [stack], Token(s, true));
    assert [main] + [stack] == [main, stack];
    FindOne("MAIN:", main.addr, s);
    FindOne("STACK:", stack.addr, s);
    match l {
      case Mangled(f) => FindFn(t, n, f);
      case _ =>
        FindOther(t, n, s);
        FnLabelsOnly(t, n, l);
    }
  }

  lemma LabelsOfIs(es: Exprs)
    ensures var t := TableOf(es);
            LabelsOf(es) == FnLabels(t, |t.order|)[MainLabel := 6 + |Functions(t, |t.order|)|][StackLabel := |Lines(es)|]
  {
    hide FnLabels, Functions, Lines, TableOf;
  }

  lemma LabelTexts(l: Label)
    ensures match l
            case Mangled(f) => LabelText(l) == "_" + f && LabelText(l) != "MAIN:" && LabelText(l) != "STACK:"
            case MainLabel => LabelText(l) == "MAIN:" && LabelText(l) != "STACK:" && LabelText(l)[0] != '_'
            case StackLabel => LabelText(l) == "STACK:" && LabelText(l) != "MAIN:" && LabelText(l)[0] != '_'
  {
    assert LabelText(l)[0] == match l case Mangled(_) => '_' case MainLabel => 'M' case StackLabel => 'S';
  }

  lemma {:induction false} FnLabelsOnly(t: Table, n: nat, l: Label)
    requires n <= |t.order| && !l.Mangled?
    ensures l !in FnLabels(t, n)
  {
    hide Functions;
    if n > 0 { FnLabelsOnly(t, n - 1, l); }
  }

  /** A token that is no label of the program is not found. */
  lemma FirstLetters()
    ensures "MAIN:"[0] == 'M' && "STACK:"[0] == 'S'
  {
  }

  lemma FindNoLabel(es: Exprs, s: string)
    requires s != [] && s[0] != '_' && s[0] != 'M' && s[0] != 'S'
    ensures Find(ListingOf(es).marks, Token(s, true)) == None
  {
    hide *;
    var m, st := "MAIN:", "STACK:";
    FirstLetters();
    var t := TableOf(es);
    var n := |t.order|;
    var main, stack := Mark(ClosedToken(m), 6 + |Functions(t, n)|), Mark(ClosedToken(st), |Lines(es)|);
    ListingOfIs(es);
    FindOther(t, n, s);
    FindConcat(FnMarks(t, n, 6), [main, stack], Token(s, true));
    FindConcat([main], [stack], Token(s, true));
    assert [main] + [stack] == [main, stack];
    FindOne(m, main.addr, s);
    FindOne(st, stack.addr, s);
  }

  /** The word of a line is the word of its instruction, and the line is refused when Build refuses it. */
  lemma LineWord(es: Exprs, a: Asm)
    requires ValidTable(TableOf(es)) && PlainLine(a)
    ensures WordOf(ItemOf(a), ListingOf(es).marks) ==
            if Accepted(a, LabelsOf(es)) then Some(Encode(Resolve(a, LabelsOf(es)))) else None
  {
    hide Encode, LabelsOf, ListingOf, LabelText, ToHex, RegText, Find, TableOf, LastOf, ValidTable;
    match a.c {
      case AReg(r) => RegRead(r);
      case AImm(i) =>
        ImmRead(i);
        FindNoLabel(es, ToHex(i));
      case ALabel(l) =>
        LabelRead(l);
        FindLabelOf(es, l);
    }
  }

  /** The words of a program: its instructions, and the zero word that the stack starts with. */
  function WordsOf(code: seq<Instr>): seq<Word>
    requires forall k :: 0 <= k < |code| ==> WellFormed(code[k])
  {
    seq(|code|, k requires 0 <= k < |code| => Encode(code[k])) + [0]
  }

  lemma BuiltWellFormed(es: Exprs)
    requires Build(es).Some?
    ensures var code := Build(es).value;
            |code| == |Lines(es)| && forall k :: 0 <= k < |code| ==> code[k] == Resolve(Lines(es)[k], LabelsOf(es)) && WellFormed(code[k])
  {
    hide Resolve, LabelsOf, WellFormed;
    forall k | 0 <= k < |Lines(es)| ensures WellFormed(Resolve(Lines(es)[k], LabelsOf(es))) {
      assert Accepted(Lines(es)[k], LabelsOf(es));
    }
  }

  lemma {:induction false} FunctionsPlain(t: Table, n: nat)
    requires PlainTable(t) && n <= |t.order|
    ensures PlainLines(Functions(t, n))
  {
    hide PlainLines, CompileFn;
    NoLines();
    if n > 0 {
      FunctionsPlain(t, n - 1);
      assert Chunk(t, t.order[n - 1]) == [] || t.order[n - 1] in t.fns;
      JoinPlain(Functions(t, n - 1), Chunk(t, t.order[n - 1]));
    }
  }

  lemma NoLines()
    ensures PlainLines([])
  {
  }

  lemma AllPlain(es: Exprs)
    requires PlainProgram(es)
    ensures PlainLines(Lines(es))
  {
    hide *;
    ListingOfIs(es);
    PlainParts(es);
    ProloguePlain();
    var t := TableOf(es);
    FunctionsPlain(t, |t.order|);
    JoinPlain(Prologue(), Functions(t, |t.order|));
    JoinPlain(Prologue() + Functions(t, |t.order|), MainCode(es));
  }

  lemma ItemWord(es: Exprs, k: nat)
    requires ValidTable(TableOf(es)) && PlainLines(Lines(es)) && k <= |Lines(es)|
    ensures |ListingOf(es).items| == |Lines(es)| + 1
    ensures WordOf(ListingOf(es).items[k], ListingOf(es).marks) ==
            if k == |Lines(es)| then Some(0)
            else if Accepted(Lines(es)[k], LabelsOf(es)) then Some(Encode(Resolve(Lines(es)[k], LabelsOf(es)))) else None
  {
    ItemsAre(Lines(es));
    ListingOfIs(es);
    hide Lines, LabelsOf, TableOf, Accepted, Resolve, Encode, ListingOf, ItemsOf, ItemOf;
    if k < |Lines(es)| {
      assert ListingOf(es).items[k] == ItemOf(Lines(es)[k]);
      LineWord(es, Lines(es)[k]);
    } else {
      assert ListingOf(es).items[k] == Literal(0);
    }
  }

  lemma TranslateBuilt(es: Exprs)
    requires ValidTable(TableOf(es)) && PlainLines(Lines(es)) && SeqScoped(es, {})
    ensures Build(es).None? ==> Translate(ListingOf(es)) == None
    ensures Build(es).Some? ==>
              (forall k :: 0 <= k < |Build(es).value| ==> WellFormed(Build(es).value[k])) &&
              Translate(ListingOf(es)) == Some(WordsOf(Build(es).value))
  {
    hide *;
    if Build(es).Some? {
      TranslateAccepted(es);
    } else {
      TranslateRefused(es);
    }
  }

  lemma TranslateRefused(es: Exprs)
    requires ValidTable(TableOf(es)) && PlainLines(Lines(es)) && SeqScoped(es, {}) && Build(es).None?
    ensures Translate(ListingOf(es)) == None
  {
    hide WordOf, Accepted, Resolve, Encode, Lines, LabelsOf, ListingOf, TableOf, ValidTable, PlainLines;
    var k :| 0 <= k < |Lines(es)| && !Accepted(Lines(es)[k], LabelsOf(es));
    ItemWord(es, k);
  }

  lemma TranslateAccepted(es: Exprs)
    requires ValidTable(TableOf(es)) && PlainLines(Lines(es)) && Build(es).Some?
    ensures forall k :: 0 <= k < |Build(es).value| ==> WellFormed(Build(es).value[k])
    ensures Translate(ListingOf(es)) == Some(WordsOf(Build(es).value))
  {
    hide WordOf, Accepted, Resolve, Encode, Lines, LabelsOf, ListingOf, TableOf, ValidTable, PlainLines, Build, WellFormed;
    var n, l := |Lines(es)|, ListingOf(es);
    BuiltWellFormed(es);
    AllAccepted(es);
    ItemWord(es, n);
    var words := WordsOf(Build(es).value);
    forall k | 0 <= k < |l.items| ensures WordOf(l.items[k], l.marks) == Some(words[k]) {
      ItemWord(es, k);
    }
    assert Translate(l).value == words;
  }

  lemma AllAccepted(es: Exprs)
    requires Build(es).Some?
    ensures forall k :: 0 <= k < |Lines(es)| ==> Accepted(Lines(es)[k], LabelsOf(es))
  {
    hide Accepted, LabelsOf, Lines;
  }

  /**
   The text of a program, assembled, is its instructions packed into words and a zero word for the stack;
   and the assembler refuses the text exactly when Build refuses the program.
   */
  lemma TextAssembles(es: Exprs)
    requires PlainSeq(es) && SeqScoped(es, {})
    ensures Build(es).None? ==> Assembled(Text(es)) == None
    ensures Build(es).Some? ==>
              (forall k :: 0 <= k < |Build(es).value| ==> WellFormed(Build(es).value[k])) &&
              Assembled(Text(es)) == Some(WordsOf(Build(es).value))
  {
    hide *;
    NamesSuffice(es);
    ReadText(es);
    AllPlain(es);
    TableValid(es);
    TranslateBuilt(es);
    AssembledBy(Text(es), ListingOf(es));
  }

  lemma TableValid(es: Exprs)
    ensures ValidTable(TableOf(es))
  {
    RecordValid(Table([], map[]), SeqEvents(es, {}));
  }

  /**
   The whole way: what the assembler makes of the compiler's text, placed in memory with enough stack behind it,
   makes run return the meaning of the source.
   */
  lemma TextRuns(es: Exprs, m: Image, words: seq<Word>, machine: Word, mem: seq<Word>, fuel: nat, o: Out) returns (bound: nat)
    requires PlainSeq(es) && SeqScoped(es, {}) && Assembled(Text(es)) == Some(words)
    requires Build(es) == Some(m.code) && m.lo == m.base + |m.code| && m.lo + o.need < |mem| <= ADDRESSES
    requires m.base + |words| <= |mem| && mem[m.base..m.base + |words|] == words
    requires EvalSeq(ProgramOf(es, m.base), fuel, es, 0, map[]) == Some(o)
    ensures forall n {:trigger RunFor(Initial(m.base, machine, mem), n)} :: n >= bound ==>
              var end := RunFor(Initial(m.base, machine, mem), n);
              end.Some? && !Running(end.value) && end.value.regs[RR] == o.acc
  {
    hide *;
    TextAssembles(es);
    WordsLoaded(m, words, mem);
    bound := CompiledProgramReturns(es, m, machine, mem, fuel, o);
  }

  lemma WordsLoaded(m: Image, words: seq<Word>, mem: seq<Word>)
    requires forall k :: 0 <= k < |m.code| ==> WellFormed(m.code[k])
    requires words == WordsOf(m.code) && m.lo == m.base + |m.code| && m.lo < |mem| <= ADDRESSES
    requires m.base + |words| <= |mem| && mem[m.base..m.base + |words|] == words
    ensures Loaded(m, mem)
  {
    hide WellFormed, Encode;
    forall k | 0 <= k < |m.code| ensures mem[m.base + k] == Encode(m.code[k]) {
      assert words[k] == Encode(m.code[k]) && mem[m.base..m.base + |words|][k] == mem[m.base + k];
    }
  }
}
