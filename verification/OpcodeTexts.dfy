/** Each opcode in a text, with the word that it assembles to and what the machine takes that word for. */
module OpcodeTexts {
  import opened Words
  import opened Machine
  import opened Encoding
  import opened Scanner
  import opened Assembler
  import opened AssemblerTheory
  import opened AssemblerTexts
  import opened LetterCase

  /** The text assembles to this one word, which run decodes as this instruction. */
  predicate Means(text: string, w: Word, i: Instr) { Assembled(text) == Some([w]) && Decode(w) == Some(i) }

  lemma OneDigit(ch: char, d: nat)
    requires HexDigitOf(ch) == Some(d) && !Whitespace(ch)
    ensures AsReg(['r', ch]) == Some(d) && Plain(['r', ch]) && Hex([ch], W64 - 1) == Some(d) && Hex([ch], IMM_LIMIT - 1) == Some(d)
  {
    var s := ['r', ch];
    assert s[1..] == [ch] && [ch][..0] == [];
    assert AllHex([]) && AllHex([ch]) && HexNumber([ch]) == HexNumber([]) * 16 + d;
    assert !Whitespace('r');
  }

  lemma Arguments()
    ensures AsReg("r1") == Some(1) && AsReg("r2") == Some(2) && AsReg("r3") == Some(3)
    ensures Plain("r1") && Plain("r2") && Plain("r3") && Plain("-5") && Whitespace(' ')
    ensures LastOf(Token("r3", true)) == LReg(3) && LastOf(Token("-5", true)) == LImm(-5)
  {
    OneDigit('1', 1);
    OneDigit('2', 2);
    OneDigit('3', 3);
    OneDigit('5', 5);
    assert "-5"[1..] == ['5'] && HexDigitOf('r').None?;
    hide HexNumber;
  }

  lemma FourTokens(n: string, z: string)
    requires Plain(n) && Plain("r1") && Plain("r2") && Plain(z) && Whitespace(' ')
    ensures Tokens(n + " r1 r2 " + z + " ") == [Token(n, true), Token("r1", true), Token("r2", true), Token(z, true)]
  {
    hide *;
    assert n + " r1 r2 " + z + " " == n + [' '] + ("r1" + [' '] + ("r2" + [' '] + (z + [' '] + "")));
    WordToken(n, ' ', "r1" + [' '] + ("r2" + [' '] + (z + [' '] + "")));
    WordToken("r1", ' ', "r2" + [' '] + (z + [' '] + ""));
    WordToken("r2", ' ', z + [' '] + "");
    WordToken(z, ' ', "");
    NoTokens();
  }

  lemma NoTokens()
    ensures Tokens("") == []
  {
  }

  /** A line with registers 1 and 2. */
  lemma LineMeans(n: nat, z: string, c: Operand, w: Word)
    requires n < 16 && |NAMES| == 16 && ((z == "r3" && c == Reg(3)) || (z == "-5" && c == Imm(-5)))
    requires WellFormed(Instr(OpcodeOf(n).value, 1, 2, c)) && w == Encode(Instr(OpcodeOf(n).value, 1, 2, c))
    ensures Means(NAMES[n] + " r1 r2 " + z + " ", w, Instr(OpcodeOf(n).value, 1, 2, c))
  {
    var i, text := Instr(OpcodeOf(n).value, 1, 2, c), NAMES[n] + " r1 r2 " + z + " ";
    hide *;
    Arguments();
    NamePlainAt(n);
    FourTokens(NAMES[n], z);
    var ts := [Token(NAMES[n], true), Token("r1", true), Token("r2", true), Token(z, true)];
    var l := Listing([Line(i.op, 1, 2, LastOf(ts[3]))], []);
    ReadOne(n, ts, l);
    ReadAndTranslated(text, l);
    OneWord(i, LastOf(ts[3]), w);
    DecodeEncode(i);
    MeansIs(text, w, i);
  }

  lemma MeansIs(text: string, w: Word, i: Instr)
    requires Assembled(text) == Some([w]) && Decode(w) == Some(i)
    ensures Means(text, w, i)
  {
    hide Assembled, Decode;
  }

  lemma NamePlainAt(n: nat)
    requires n < 16
    ensures |NAMES| == 16 && Plain(NAMES[n]) && NameNumber(NAMES[n], 0) == Some(n) && Hex(NAMES[n], W64 - 1).None? && OpcodeOf(n).Some?
  {
    NameFrom(n, 0);
    NameLetters(n);
    hide NameNumber, Hex, NAMES;
  }

  lemma NameLetters(n: nat)
    requires n < 16
    ensures |NAMES| == 16 && Plain(NAMES[n])
  {
  }

  lemma ReadOne(n: nat, ts: seq<Token>, l: Listing)
    requires n < 16 && |ts| == 4 && NameNumber(ts[0].s, 0) == Some(n) && Hex(ts[0].s, W64 - 1).None? && OpcodeOf(n).Some?
    requires ts[0].closed && ts[2].closed && AsReg(ts[1].s) == Some(1) && AsReg(ts[2].s) == Some(2) && ts[3].s != "r"
    requires l == Listing([Line(OpcodeOf(n).value, 1, 2, LastOf(ts[3]))], [])
    ensures Parse(ts, Listing([], [])) == Some(l)
  {
    hide NameNumber, Hex, AsReg, LastOf, OpcodeOf, Parse;
    assert LineTokens(ts);
    LineTakes(ts, [], Listing([], []));
    assert ts + [] == ts && [] + [LineItem(ts)] == [LineItem(ts)];
    NothingLeft(l);
  }

  lemma OneWord(i: Instr, last: Last, w: Word)
    requires WellFormed(i) && w == Encode(i) && match i.c case Reg(r) => last == LReg(r) case Imm(v) => last == LImm(v)
    ensures Translate(Listing([Line(i.op, i.a, i.b, last)], [])) == Some([w])
  {
    var l := Listing([Line(i.op, i.a, i.b, last)], []);
    hide Encode;
    assert WordOf(l.items[0], l.marks) == Some(w);
    assert Translate(l).value == [w];
  }

  /** A register line with opcode n: the flag, the opcode and the registers 1, 2 and 3 in their places. */
  lemma RegisterLine(n: nat, name: string, op: Opcode)
    requires n < 16 && |NAMES| == 16 && NAMES[n] == name && OpcodeOf(n) == Some(op)
    ensures Means(name + " r1 r2 r3 ", 0x8008_8600_0000_0000 + n * 0x100_0000_0000_0000, Instr(op, 1, 2, Reg(3)))
  {
    hide *;
    RegisterWord(n, op);
    LineMeans(n, "r3", Reg(3), Encode(Instr(op, 1, 2, Reg(3))));
    assert name + " r1 r2 " + "r3" + " " == name + " r1 r2 r3 ";
  }

  lemma RegisterWord(n: nat, op: Opcode)
    requires OpcodeOf(n) == Some(op)
    ensures WellFormed(Instr(op, 1, 2, Reg(3)))
    ensures Encode(Instr(op, 1, 2, Reg(3))) == 0x8008_8600_0000_0000 + n * 0x100_0000_0000_0000
  {
    hide Number, OpcodeOf;
    NumberOf(n, op);
  }

  lemma NumberOf(n: nat, op: Opcode)
    requires OpcodeOf(n) == Some(op)
    ensures Number(op) == n
  {
  }

  lemma ByNumber()
    ensures |NAMES| == 16
    ensures NAMES[0] == "acx" && NAMES[1] == "ads" && NAMES[2] == "sbs" && NAMES[3] == "mls" && NAMES[4] == "mlu" && NAMES[5] == "dvs"
    ensures NAMES[6] == "dvu" && NAMES[7] == "and" && NAMES[8] == "orr" && NAMES[9] == "xor" && NAMES[10] == "nor" && NAMES[11] == "shf"
    ensures NAMES[12] == "ldr" && NAMES[13] == "str" && NAMES[14] == "jnc" && NAMES[15] == "exc"
    ensures OpcodeOf(0) == Some(Acx) && OpcodeOf(1) == Some(Ads) && OpcodeOf(2) == Some(Sbs) && OpcodeOf(3) == Some(Mls)
    ensures OpcodeOf(4) == Some(Mlu) && OpcodeOf(5) == Some(Dvs) && OpcodeOf(6) == Some(Dvu) && OpcodeOf(7) == Some(And)
    ensures OpcodeOf(8) == Some(Orr) && OpcodeOf(9) == Some(Xor) && OpcodeOf(10) == Some(Nor) && OpcodeOf(11) == Some(Shf)
    ensures OpcodeOf(12) == Some(Ldr) && OpcodeOf(13) == Some(Str) && OpcodeOf(14) == Some(Jnc) && OpcodeOf(15) == Some(Exc)
  {
  }

  lemma FirstOpcodes()
    ensures Means("acx" + " r1 r2 r3 ", 0x8008_8600_0000_0000, Instr(Acx, 1, 2, Reg(3)))
    ensures Means("ads" + " r1 r2 r3 ", 0x8108_8600_0000_0000, Instr(Ads, 1, 2, Reg(3)))
    ensures Means("sbs" + " r1 r2 r3 ", 0x8208_8600_0000_0000, Instr(Sbs, 1, 2, Reg(3)))
    ensures Means("mls" + " r1 r2 r3 ", 0x8308_8600_0000_0000, Instr(Mls, 1, 2, Reg(3)))
    ensures Means("mlu" + " r1 r2 r3 ", 0x8408_8600_0000_0000, Instr(Mlu, 1, 2, Reg(3)))
    ensures Means("dvs" + " r1 r2 r3 ", 0x8508_8600_0000_0000, Instr(Dvs, 1, 2, Reg(3)))
    ensures Means("dvu" + " r1 r2 r3 ", 0x8608_8600_0000_0000, Instr(Dvu, 1, 2, Reg(3)))
    ensures Means("and" + " r1 r2 r3 ", 0x8708_8600_0000_0000, Instr(And, 1, 2, Reg(3)))
  {
    hide *;
    ByNumber();
    RegisterLine(0, "acx", Acx);
    RegisterLine(1, "ads", Ads);
    RegisterLine(2, "sbs", Sbs);
    RegisterLine(3, "mls", Mls);
    RegisterLine(4, "mlu", Mlu);
    RegisterLine(5, "dvs", Dvs);
    RegisterLine(6, "dvu", Dvu);
    RegisterLine(7, "and", And);
  }

  lemma LastOpcodes()
    ensures Means("orr" + " r1 r2 r3 ", 0x8808_8600_0000_0000, Instr(Orr, 1, 2, Reg(3)))
    ensures Means("xor" + " r1 r2 r3 ", 0x8908_8600_0000_0000, Instr(Xor, 1, 2, Reg(3)))
    ensures Means("nor" + " r1 r2 r3 ", 0x8a08_8600_0000_0000, Instr(Nor, 1, 2, Reg(3)))
    ensures Means("shf" + " r1 r2 r3 ", 0x8b08_8600_0000_0000, Instr(Shf, 1, 2, Reg(3)))
    ensures Means("ldr" + " r1 r2 r3 ", 0x8c08_8600_0000_0000, Instr(Ldr, 1, 2, Reg(3)))
    ensures Means("str" + " r1 r2 r3 ", 0x8d08_8600_0000_0000, Instr(Str, 1, 2, Reg(3)))
    ensures Means("jnc" + " r1 r2 r3 ", 0x8e08_8600_0000_0000, Instr(Jnc, 1, 2, Reg(3)))
    ensures Means("exc" + " r1 r2 r3 ", 0x8f08_8600_0000_0000, Instr(Exc, 1, 2, Reg(3)))
  {
    hide *;
    ByNumber();
    RegisterLine(8, "orr", Orr);
    RegisterLine(9, "xor", Xor);
    RegisterLine(10, "nor", Nor);
    RegisterLine(11, "shf", Shf);
    RegisterLine(12, "ldr", Ldr);
    RegisterLine(13, "str", Str);
    RegisterLine(14, "jnc", Jnc);
    RegisterLine(15, "exc", Exc);
  }

  lemma ImmediateWord()
    ensures WellFormed(Instr(Ads, 1, 2, Imm(-5))) && Encode(Instr(Ads, 1, 2, Imm(-5))) == 0x0108_bfff_ffff_fffb
  {
  }

  /** An immediate stands in the low 46 bits, in two's complement. */
  lemma ImmediateLine()
    ensures Means("ads" + " r1 r2 -5 ", 0x0108_bfff_ffff_fffb, Instr(Ads, 1, 2, Imm(-5)))
  {
    hide *;
    ByNumber();
    ImmediateWord();
    LineMeans(1, "-5", Imm(-5), 0x0108_bfff_ffff_fffb);
    assert "ads" + " r1 r2 " + "-5" + " " == "ads" + " r1 r2 -5 ";
  }

  /** A number of up to 16 digits, in any case and up to 2^64 - 1, assembles to itself. */
  lemma NumberText(s: string, v: Word)
    requires ReadsAs(s, v, 0xffff_ffff_ffff_ffff)
    ensures Assembled(s + " ") == Some([v])
  {
    hide *;
    DigitsPlain(s, v);
    WordToken(s, ' ', "");
    NoTokens();
    assert s + [' '] + "" == s + " " && [Token(s, true)] + [] == [Token(s, true)];
    NumberIs(s, v, 0xffff_ffff_ffff_ffff);
    var l := Listing([Literal(v)], []);
    ReadNumber(s, v, l);
    ReadAndTranslated(s + " ", l);
    assert Translate(l) == Some([v]) by { JustOne(l, v); }
  }

  lemma DigitsPlain(s: string, v: Word)
    requires ReadsAs(s, v, 0xffff_ffff_ffff_ffff)
    ensures Plain(s) && Whitespace(' ')
  {
    NumberIs(s, v, 0xffff_ffff_ffff_ffff);
    forall k | 0 <= k < |s| ensures !Whitespace(s[k]) { assert HexDigitOf(s[k]).Some?; }
  }

  lemma ReadNumber(s: string, v: Word, l: Listing)
    requires Hex(s, 0xffff_ffff_ffff_ffff) == Some(v) && l == Listing([Literal(v)], [])
    ensures Parse([Token(s, true)], Listing([], [])) == Some(l)
  {
    hide Hex;
    NothingLeft(l);
    assert [] + [Literal(v)] == [Literal(v)];
  }

  lemma JustOne(l: Listing, v: Word)
    requires l == Listing([Literal(v)], [])
    ensures Translate(l) == Some([v])
  {
    assert WordOf(l.items[0], l.marks) == Some(v);
    assert Translate(l).value == [v];
  }
}
