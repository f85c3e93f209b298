/** What the assembler's words decode to, where its labels point, and the one label it does not read as an argument. */
module AssemblerTheory {
  import opened Words
  import opened Machine
  import opened Encoding
  import opened Scanner
  import opened Assembler

  /** run unpacks from every accepted line the opcode and registers written there, and its last argument. */
  lemma AcceptedDecodes(l: Listing, words: seq<Word>, k: nat)
    requires Translate(l) == Some(words) && k < |l.items|
    ensures |words| == |l.items|
    ensures l.items[k].Literal? ==> words[k] == l.items[k].w
    ensures l.items[k].Line? ==>
              var Line(op, a, b, last) := l.items[k];
              OperandOf(last, l.marks).Some? && Decode(words[k]) == Some(Instr(op, a, b, OperandOf(last, l.marks).value))
  {
    var it := l.items[k];
    assert WordOf(it, l.marks) == Some(words[k]);
    if it.Line? {
      var i := Instr(it.op, it.a, it.b, OperandOf(it.last, l.marks).value);
      hide Encode, Decode, OperandOf;
      DecodeEncode(i);
    }
  }

  /** Where all labels are followed by whitespace, a reference means the first label of the same name, if there is one. */
  lemma {:induction false} FirstDefinition(marks: seq<Mark>, t: Token)
    requires t.closed && forall k :: 0 <= k < |marks| ==> marks[k].name.closed
    ensures Find(marks, t).None? <==> forall k :: 0 <= k < |marks| ==> marks[k].name.s != t.s
    ensures forall k :: 0 <= k < |marks| && marks[k].name.s == t.s && (forall j :: 0 <= j < k ==> marks[j].name.s != t.s)
              ==> Find(marks, t) == Some(marks[k].addr)
  {
    if marks != [] {
      var rest := marks[1..];
      assert forall k :: 0 <= k < |rest| ==> rest[k] == marks[k + 1];
      assert forall k :: 1 <= k < |marks| ==> marks[k] == rest[k - 1];
      FirstDefinition(rest, t);
      if marks[0].name.s != t.s {
        forall k | 0 <= k < |marks| && marks[k].name.s == t.s && (forall j :: 0 <= j < k ==> marks[j].name.s != t.s)
          ensures Find(marks, t) == Some(marks[k].addr)
        {
          assert rest[k - 1] == marks[k];
          assert forall j :: 0 <= j < k - 1 ==> rest[j] == marks[j + 1];
        }
      }
    }
  }

  /** A label stands for the number of words that the text before it becomes. */
  lemma {:induction false} LabelAddress(ts: seq<Token>, before: Listing, l: Listing, k: nat) returns (p: nat, front: Listing)
    requires Parse(ts, before) == Some(l) && |before.marks| <= k < |l.marks|
    ensures p < |ts| && l.marks[k].name == ts[p] && Parse(ts[p..], front) == Some(l)
    ensures |front.marks| == k && l.marks[k].addr == |front.items| && front.items <= l.items && before.items <= front.items
    ensures Parse(ts[..p], before) == Some(front)
    decreases |ts|
  {
    ParseGrows(ts, before);
    ParseStep(ts, before);
    var next, rest := Reads(ts, before);
    if |next.marks| > k {
      p, front := 0, before;
      ParseGrows(rest, next);
      assert ts[0..] == ts && ts[..0] == [];
      assert next.marks[k] == l.marks[k];
    } else {
      var q;
      q, front := LabelAddress(rest, next, l, k);
      p := |ts| - |rest| + q;
      assert ts[p..] == rest[q..] && ts[|ts| - |rest|..p] == rest[..q];
    }
  }

  /** One step of reading: what has been read, and what is left; the step is the same in a part of the text that has it. */
  lemma Reads(ts: seq<Token>, l: Listing) returns (next: Listing, rest: seq<Token>)
    requires ts != [] && Parse(ts, l).Some?
    ensures |rest| < |ts| && rest == ts[|ts| - |rest|..] && Parse(ts, l) == Parse(rest, next)
    ensures l.items <= next.items && l.marks <= next.marks
    ensures next.marks != l.marks ==> next == l.(marks := l.marks + [Mark(ts[0], |l.items|)]) && rest == ts[1..]
    ensures forall p :: |ts| - |rest| <= p <= |ts| ==> Parse(ts[..p], l) == Parse(ts[|ts| - |rest|..p], next)
  {
    ParseStep(ts, l);
    if Hex(ts[0].s, W64 - 1).Some? {
      next, rest := l.(items := l.items + [Literal(Hex(ts[0].s, W64 - 1).value)]), ts[1..];
    } else if NameNumber(ts[0].s, 0).Some? && ts[0].closed {
      var line := LineOf(OpcodeOf(NameNumber(ts[0].s, 0).value).value, ts[1..]);
      next, rest := l.(items := l.items + [line.value]), AfterLast(ts[3..]);
    } else {
      next, rest := l.(marks := l.marks + [Mark(ts[0], |l.items|)]), ts[1..];
    }
    forall p | |ts| - |rest| <= p <= |ts| ensures Parse(ts[..p], l) == Parse(ts[|ts| - |rest|..p], next) {
      StepInPart(ts, l, p, next, rest);
    }
  }

  lemma StepInPart(ts: seq<Token>, l: Listing, p: nat, next: Listing, rest: seq<Token>)
    requires ts != [] && |ts| - |rest| <= p <= |ts| && |rest| < |ts|
    requires if Hex(ts[0].s, W64 - 1).Some? then
               next == l.(items := l.items + [Literal(Hex(ts[0].s, W64 - 1).value)]) && rest == ts[1..]
             else if NameNumber(ts[0].s, 0).Some? && ts[0].closed then
               var line := LineOf(OpcodeOf(NameNumber(ts[0].s, 0).value).value, ts[1..]);
               line.Some? && |ts| >= 3 && next == l.(items := l.items + [line.value]) && rest == AfterLast(ts[3..])
             else
               next == l.(marks := l.marks + [Mark(ts[0], |l.items|)]) && rest == ts[1..]
    ensures Parse(ts[..p], l) == Parse(ts[|ts| - |rest|..p], next)
  {
    var part := ts[..p];
    assert part[0] == ts[0] && part[1..] == ts[1..p];
    hide Hex, NameNumber;
    ParseStep(part, l);
    if Hex(ts[0].s, W64 - 1).None? && NameNumber(ts[0].s, 0).Some? && ts[0].closed {
      LineInPart(OpcodeOf(NameNumber(ts[0].s, 0).value).value, ts, p, rest);
    }
  }

  lemma LineInPart(op: Opcode, ts: seq<Token>, p: nat, rest: seq<Token>)
    requires |ts| >= 3 && rest == AfterLast(ts[3..]) && |ts| - |rest| <= p <= |ts|
    ensures p >= 3 && LineOf(op, ts[..p][1..]) == LineOf(op, ts[1..]) && AfterLast(ts[..p][3..]) == ts[|ts| - |rest|..p]
  {
    var args, args' := ts[1..], ts[..p][1..];
    assert args'[0] == args[0] && args'[1] == args[1] && (|args| > 2 ==> |args'| > 2 && args'[2] == args[2]);
    hide AsReg, LastOf;
    assert |ts| > 3 ==> ts[3..][0] == ts[3] && ts[..p][3..][0] == ts[3];
  }

  /** Reading only adds. */
  lemma {:induction false} ParseGrows(ts: seq<Token>, l: Listing)
    ensures Parse(ts, l).Some? ==> l.items <= Parse(ts, l).value.items && l.marks <= Parse(ts, l).value.marks
    decreases |ts|
  {
    if ts != [] && Parse(ts, l).Some? {
      var next, rest := Reads(ts, l);
      ParseGrows(rest, next);
    }
  }

  /** A line with its three arguments. */
  predicate LineTokens(ts: seq<Token>) {
    && |ts| == 4 && NameNumber(ts[0].s, 0).Some? && ts[0].closed && Hex(ts[0].s, W64 - 1).None?
    && AsReg(ts[1].s).Some? && AsReg(ts[2].s).Some? && ts[2].closed
  }

  function LineItem(ts: seq<Token>): Item
    requires LineTokens(ts)
  {
    Line(OpcodeOf(NameNumber(ts[0].s, 0).value).value, AsReg(ts[1].s).value, AsReg(ts[2].s).value, LastOf(ts[3]))
  }

  /**
   A line takes its four tokens, whatever follows, except when its last argument is the label r: then it takes
   the token after it as well, which is lost.
   */
  lemma LineTakes(ts: seq<Token>, rest: seq<Token>, l: Listing)
    requires LineTokens(ts)
    ensures Parse(ts + rest, l) ==
            Parse(if ts[3].s == "r" && rest != [] then rest[1..] else rest, l.(items := l.items + [LineItem(ts)]))
  {
    var all := ts + rest;
    assert all[0] == ts[0] && all[1..][0] == ts[1] && all[1..][1] == ts[2] && all[1..][2] == ts[3];
    assert all[3..] == [ts[3]] + rest;
    assert all[3..][1..] == rest && (rest != [] ==> all[3..][2..] == rest[1..]);
    hide Hex, NameNumber, AsReg, AsImm;
    ParseStep(all, l);
  }

  /** The three characters of a name as one number. */
  function Spelling(s: string): nat
    requires |s| == 3
  {
    s[0] as nat * 0x10000 + s[1] as nat * 0x100 + s[2] as nat
  }

  const SPELLINGS: seq<nat> :=
    [ 0x616378, 0x616473, 0x736273, 0x6d6c73, 0x6d6c75, 0x647673, 0x647675, 0x616e64,
      0x6f7272, 0x786f72, 0x6e6f72, 0x736866, 0x6c6472, 0x737472, 0x6a6e63, 0x657863 ]

  lemma SpellingOf(n: nat)
    requires n < 16
    ensures |NAMES| == |SPELLINGS| == 16 && |NAMES[n]| == 3 && Spelling(NAMES[n]) == SPELLINGS[n]
    ensures forall k :: 0 <= k < n ==> SPELLINGS[k] != SPELLINGS[n]
    ensures exists j :: 0 <= j < 3 && HexDigitOf(NAMES[n][j]).None?
  {
    var s := NAMES[n];
    assert HexDigitOf(s[0]).None? || HexDigitOf(s[1]).None? || HexDigitOf(s[2]).None?;
  }

  /** Every opcode is the first with its name, and no name is a number. */
  lemma {:induction false} NameFrom(n: nat, k: nat)
    requires k <= n < 16
    ensures NameNumber(NAMES[n], k) == Some(n) && Hex(NAMES[n], W64 - 1).None?
    decreases n - k
  {
    hide *;
    NotNumber(n);
    NameNext(n, k);
    if k < n { NameFrom(n, k + 1); }
  }

  lemma NotNumber(n: nat)
    requires n < 16
    ensures |NAMES| == 16 && Hex(NAMES[n], W64 - 1).None?
  {
    hide NAMES;
    SpellingOf(n);
  }

  lemma NameNext(n: nat, k: nat)
    requires k <= n < 16
    ensures |NAMES| == 16 && NameNumber(NAMES[n], k) == if k == n then Some(n) else NameNumber(NAMES[n], k + 1)
  {
    hide NAMES, SPELLINGS, Spelling;
    SpellingOf(n);
    SpellingOf(k);
  }

  lemma LabelR()
    ensures Hex("r", W64 - 1) == None && NameNumber("r", 0) == None
  {
    assert "r"[0] == 'r' && HexDigitOf('r').None?;
    hide NameNumber;
    if NameNumber("r", 0).Some? { NamesAreWords("r"); }
  }

  /** So a program that defines a label r and jumps to it loses the word after the jump, whatever that is. */
  lemma LabelRLosesAWord(r: Token, jump: seq<Token>, lost: Token)
    requires r.s == "r" && LineTokens(jump) && jump[3].s == "r"
    ensures Parse([r] + jump + [lost], Listing([], [])) == Some(Listing([LineItem(jump)], [Mark(r, 0)]))
  {
    var all := [r] + jump + [lost];
    var end := Listing([LineItem(jump)], [Mark(r, 0)]);
    assert all[0] == r && all[1..] == jump + [lost] && [lost][1..] == [];
    assert Parse([], end) == Some(end);
    LabelR();
    hide *;
    var marked := Listing([], [Mark(r, 0)]);
    assert marked == Listing([], []).(marks := [] + [Mark(r, 0)]);
    ParseStep(all, Listing([], []));
    LineTakes(jump, [lost], marked);
    assert marked.(items := marked.items + [LineItem(jump)]) == end;
  }

  lemma RegisterZero()
    ensures AsReg("r0") == Some(0) && LastOf(Token("r", true)) == LRef(Token("r", true))
  {
    var d := "r0"[1..];
    assert d == "0" && d[..0] == "" && "r"[1..] == "" && HexDigitOf('r').None?;
    assert AllHex(d) && HexNumber(d) == 0;
  }

  /** The tokens of a text that defines r, jumps to it, and goes on with the word 5. */
  lemma JumpTokens()
    ensures Tokens("r jnc r0 r0 r 5 ") == [Token("r", true)] + [Token("jnc", true), Token("r0", true), Token("r0", true), Token("r", true)] + [Token("5", true)]
  {
    hide *;
    PlainWords();
    WordToken("5", ' ', "");
    WordToken("r", ' ', "5 ");
    WordToken("r0", ' ', "r 5 ");
    WordToken("r0", ' ', "r0 r 5 ");
    WordToken("jnc", ' ', "r0 r0 r 5 ");
    WordToken("r", ' ', "jnc r0 r0 r 5 ");
    assert "5" + [' '] + "" == "5 " && "r" + [' '] + "5 " == "r 5 " && "r0" + [' '] + "r 5 " == "r0 r 5 ";
    assert "r0" + [' '] + "r0 r 5 " == "r0 r0 r 5 " && "jnc" + [' '] + "r0 r0 r 5 " == "jnc r0 r0 r 5 ";
    assert "r" + [' '] + "jnc r0 r0 r 5 " == "r jnc r0 r0 r 5 ";
  }

  lemma PlainWords()
    ensures Plain("r") && Plain("jnc") && Plain("r0") && Plain("5") && Whitespace(' ') && Tokens("") == []
  {
  }

  lemma JumpLine(ts: seq<Token>)
    requires ts == [Token(NAMES[14], true), Token("r0", true), Token("r0", true), Token("r", true)]
    ensures LineTokens(ts) && LineItem(ts) == Line(Jnc, 0, 0, LRef(Token("r", true)))
  {
    RegisterZero();
    NameFrom(14, 0);
    hide NameNumber, Hex, AsReg, LastOf;
  }

  /** The word 5 is not in what the assembler returns: only the jump is. */
  lemma WordAfterRIsLost()
    ensures Assembled("r jnc r0 r0 r 5 ") == Some([Encode(Instr(Jnc, 0, 0, Imm(0)))])
  {
    assert NAMES[14] == "jnc";
    var r := Token("r", true);
    var l := Listing([Line(Jnc, 0, 0, LRef(r))], [Mark(r, 0)]);
    hide Encode, Assembled, Parse, Tokens, NAMES;
    assert Find(l.marks, r) == Some(0);
    assert WordOf(l.items[0], l.marks) == Some(Encode(Instr(Jnc, 0, 0, Imm(0))));
    assert Translate(l).value == [Encode(Instr(Jnc, 0, 0, Imm(0)))];
    JumpTokens();
    var jump := [Token("jnc", true), Token("r0", true), Token("r0", true), r];
    JumpLine(jump);
    LabelRLosesAWord(r, jump, Token("5", true));
    AssembledBy("r jnc r0 r0 r 5 ", l);
  }

  lemma AssembledBy(code: string, l: Listing)
    requires Parse(Tokens(code), Listing([], [])) == Some(l)
    ensures Assembled(code) == Translate(l)
  {
  }

  /** A missing last argument, at the end of the text, stands for the first label there is. */
  lemma MissingArgument(marks: seq<Mark>)
    ensures Find(marks, Token("", false)) == if marks == [] then None else Some(marks[0].addr)
  {
  }
}
