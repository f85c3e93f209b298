/** Which word each label operand of an accepted text means, and when that is the first label of its name. */
module AssemblerTexts {
  import opened Words
  import opened Machine
  import opened Encoding
  import opened Scanner
  import opened Assembler
  import opened AssemblerTheory

  /** What a text is read as. */
  function Listed(code: string): Option<Listing> { Parse(Tokens(code), Listing([], [])) }

  /** The text is empty or ends in whitespace. */
  predicate EndsBlank(code: string) { code == "" || Whitespace(code[|code| - 1]) }

  // ------------------------------------------------------------------ tokens

  /** No token is empty, and only the last one may be open. */
  ghost predicate TokensOk(ts: seq<Token>) {
    forall k :: 0 <= k < |ts| ==> ts[k].s != "" && (k < |ts| - 1 ==> ts[k].closed)
  }

  ghost predicate AllClosed(ts: seq<Token>) { forall k :: 0 <= k < |ts| ==> ts[k].closed }

  lemma {:induction false} TokensOfText(code: string)
    ensures TokensOk(Tokens(code)) && (EndsBlank(code) ==> AllClosed(Tokens(code))) && |Tokens(code)| <= |code|
    decreases |code|
  {
    if code != "" {
      if Whitespace(code[0]) {
        TokensOfText(code[1..]);
      } else {
        var n := WordLength(code);
        TokensOfText(code[n..]);
        assert code[n..] == "" ==> Tokens(code[n..]) == [];
      }
    }
  }

  // ---------------------------------------------------------------- listings

  /** Labels have names, and a reference without one is a missing argument. */
  ghost predicate WellNamed(l: Listing) {
    && (forall k :: 0 <= k < |l.marks| ==> l.marks[k].name.s != "")
    && (forall k :: 0 <= k < |l.items| && IsReference(l.items[k]) ==> l.items[k].last.t.s != "" || l.items[k].last.t == Token("", false))
  }

  ghost predicate MarksClosed(l: Listing) { forall k :: 0 <= k < |l.marks| ==> l.marks[k].name.closed }

  ghost predicate RefsClosed(l: Listing) { forall k :: 0 <= k < |l.items| && IsReference(l.items[k]) ==> l.items[k].last.t.closed }

  /** Only what stands at the end of the text is open: a reference, or the last label. */
  ghost predicate OneOpen(l: Listing) {
    || MarksClosed(l)
    || (RefsClosed(l) && forall k :: 0 <= k < |l.marks| - 1 ==> l.marks[k].name.closed)
  }

  /** A reference that is open has no name. */
  ghost predicate OnlyMissing(l: Listing) {
    forall k :: 0 <= k < |l.items| && IsReference(l.items[k]) ==> l.items[k].last.t.closed || l.items[k].last.t == Token("", false)
  }

  /** The fields of each line fit their places in a word. */
  ghost predicate Fits(l: Listing) {
    forall k :: 0 <= k < |l.items| && l.items[k].Line? ==> l.items[k].a < 32 && l.items[k].b < 32 && InRange(l.items[k].last)
  }

  /** Labels stand for words in the order of the text. */
  ghost predicate Rising(l: Listing) {
    && (forall k :: 0 <= k < |l.marks| ==> l.marks[k].addr <= |l.items|)
    && (forall j, k :: 0 <= j < k < |l.marks| ==> l.marks[j].addr <= l.marks[k].addr)
  }

  /** What holds of a listing while more text follows. */
  ghost predicate Clean(l: Listing) { WellNamed(l) && Fits(l) && Rising(l) && MarksClosed(l) && RefsClosed(l) }

  /** What holds of it at the end. */
  ghost predicate Complete(l: Listing, blank: bool) {
    WellNamed(l) && Fits(l) && Rising(l) && OneOpen(l) && (blank ==> MarksClosed(l) && OnlyMissing(l))
  }

  lemma CleanIsComplete(l: Listing, blank: bool)
    requires Clean(l)
    ensures Complete(l, blank)
  {
  }

  lemma AddItem(l: Listing, it: Item, blank: bool)
    requires Clean(l)
    requires IsReference(it) ==> it.last.t.s != "" || it.last.t == Token("", false)
    requires it.Line? ==> it.a < 32 && it.b < 32 && InRange(it.last)
    ensures (IsReference(it) ==> it.last.t.closed) ==> Clean(l.(items := l.items + [it]))
    ensures (IsReference(it) && blank ==> it.last.t.closed || it.last.t == Token("", false)) ==> Complete(l.(items := l.items + [it]), blank)
  {
  }

  lemma AddMark(l: Listing, t: Token, blank: bool)
    requires Clean(l) && t.s != ""
    ensures t.closed ==> Clean(l.(marks := l.marks + [Mark(t, |l.items|)]))
    ensures (blank ==> t.closed)
            ==> Complete(l.(marks := l.marks + [Mark(t, |l.items|)]), blank)
  {
  }

  lemma TokensAfter(ts: seq<Token>, n: nat)
    requires n <= |ts|
    ensures TokensOk(ts) ==> TokensOk(ts[n..])
    ensures AllClosed(ts) ==> AllClosed(ts[n..])
  {
  }

  lemma AfterLastIs(ts: seq<Token>)
    ensures exists n :: 0 <= n <= |ts| && AfterLast(ts) == ts[n..]
  {
    if |ts| > 1 && ts[0].s == "r" {
      assert AfterLast(ts) == ts[2..];
    } else if ts != [] {
      assert AfterLast(ts) == ts[1..];
    } else {
      assert AfterLast(ts) == ts[0..];
    }
  }

  /** One step of reading keeps the listing clean, unless it takes an open token, after which nothing follows. */
  lemma ReadsClean(ts: seq<Token>, l: Listing) returns (next: Listing, rest: seq<Token>)
    requires ts != [] && TokensOk(ts) && Parse(ts, l).Some? && Clean(l)
    ensures |rest| < |ts| && TokensOk(rest) && Parse(ts, l) == Parse(rest, next) && (AllClosed(ts) ==> AllClosed(rest))
    ensures Complete(next, AllClosed(ts)) && (rest == [] || Clean(next)) && |next.items| + |rest| <= |l.items| + |ts|
  {
    hide Clean, Complete, NameNumber;
    ParseStep(ts, l);
    TokensAfter(ts, 1);
    if Hex(ts[0].s, W64 - 1).Some? {
      var it := Literal(Hex(ts[0].s, W64 - 1).value);
      next, rest := l.(items := l.items + [it]), ts[1..];
      AddItem(l, it, AllClosed(ts));
    } else if NameNumber(ts[0].s, 0).Some? && ts[0].closed {
      var it := LineOf(OpcodeOf(NameNumber(ts[0].s, 0).value).value, ts[1..]).value;
      next, rest := l.(items := l.items + [it]), AfterLast(ts[3..]);
      LineEnds(ts, it, rest);
      AddItem(l, it, AllClosed(ts));
    } else {
      next, rest := l.(marks := l.marks + [Mark(ts[0], |l.items|)]), ts[1..];
      AddMark(l, ts[0], AllClosed(ts));
    }
  }

  /** The reference in a line, and the tokens after it. */
  lemma LineEnds(ts: seq<Token>, it: Item, rest: seq<Token>)
    requires |ts| >= 3 && TokensOk(ts) && rest == AfterLast(ts[3..])
    requires exists op :: LineOf(op, ts[1..]) == Some(it)
    ensures |rest| < |ts| && TokensOk(rest) && (AllClosed(ts) ==> AllClosed(rest))
    ensures it.Line? && it.a < 32 && it.b < 32 && InRange(it.last)
    ensures IsReference(it) ==> it.last.t == Token("", false) || it.last.t.s != ""
    ensures IsReference(it) && AllClosed(ts) ==> it.last.t == Token("", false) || it.last.t.closed
    ensures IsReference(it) && !it.last.t.closed ==> rest == []
  {
    hide *;
    TokensAfter(ts, 3);
    AfterLastIs(ts[3..]);
    var n :| 0 <= n <= |ts[3..]| && rest == ts[3..][n..];
    TokensAfter(ts[3..], n);
    LineRefers(ts[1..], it);
    if |ts| > 3 {
      assert ts[1..][2] == ts[3] && ts[3..][0] == ts[3];
      OneToken(ts, 3);
      AfterOne(ts[3..]);
    }
  }

  lemma OneToken(ts: seq<Token>, k: nat)
    requires TokensOk(ts) && k < |ts|
    ensures ts[k].s != "" && (ts[k].closed || k == |ts| - 1) && (AllClosed(ts) ==> ts[k].closed)
  {
  }

  lemma AfterOne(ts: seq<Token>)
    requires ts != []
    ensures |ts| == 1 ==> AfterLast(ts) == []
  {
  }

  lemma LineRefers(args: seq<Token>, it: Item)
    requires exists op :: LineOf(op, args) == Some(it)
    ensures |args| >= 2 && it.Line? && it.a < 32 && it.b < 32 && InRange(it.last)
    ensures |args| >= 2 && (IsReference(it) ==> it.last.t == if |args| == 2 then Token("", false) else args[2])
  {
    hide AsReg, AsImm;
  }

  lemma {:induction false} ParseComplete(ts: seq<Token>, before: Listing, l: Listing)
    requires TokensOk(ts) && Clean(before) && Parse(ts, before) == Some(l)
    ensures Complete(l, AllClosed(ts)) && |l.items| <= |before.items| + |ts|
    decreases |ts|
  {
    if ts == [] {
      CleanIsComplete(l, true);
      CleanIsComplete(l, false);
    } else {
      hide Clean, Complete, TokensOk, AllClosed;
      var next, rest := ReadsClean(ts, before);
      if rest == [] {
        assert l == next by { NothingLeft(next); }
      } else {
        ParseComplete(rest, next, l);
        BlankComplete(l, AllClosed(ts), AllClosed(rest));
      }
    }
  }

  lemma NothingLeft(l: Listing)
    ensures Parse([], l) == Some(l)
  {
  }

  lemma BlankComplete(l: Listing, blank: bool, blank': bool)
    requires Complete(l, blank') && (blank ==> blank')
    ensures Complete(l, blank)
  {
  }

  /** The labels and references of every text that can be read. */
  lemma TextComplete(code: string, l: Listing)
    requires Listed(code) == Some(l)
    ensures Complete(l, EndsBlank(code)) && |l.items| <= |code|
  {
    TokensOfText(code);
    assert Clean(Listing([], []));
    hide Clean, Complete, TokensOk, AllClosed, EndsBlank;
    ParseComplete(Tokens(code), Listing([], []), l);
    BlankComplete(l, EndsBlank(code), AllClosed(Tokens(code)));
  }

  // -------------------------------------------------------------- references

  /** Label m is the first one called name. */
  ghost predicate FirstNamed(marks: seq<Mark>, name: string, m: nat) {
    m < |marks| && marks[m].name.s == name && forall j :: 0 <= j < m ==> marks[j].name.s != name
  }

  /** No label before m that begins with the reference stands for another word; that matters when the text ends with it. */
  ghost predicate Unclaimed(marks: seq<Mark>, t: Token, m: nat)
    requires m < |marks|
  {
    t.closed || forall j :: 0 <= j < m && t.s <= marks[j].name.s ==> marks[j].addr == marks[m].addr
  }

  /** The first label that matches. */
  lemma {:induction false} Match(marks: seq<Mark>, t: Token) returns (f: nat)
    requires Find(marks, t).Some?
    ensures f < |marks| && SameLabel(t, marks[f].name) && Find(marks, t) == Some(marks[f].addr)
    ensures forall j :: 0 <= j < f ==> !SameLabel(t, marks[j].name)
  {
    if SameLabel(t, marks[0].name) {
      f := 0;
    } else {
      var g := Match(marks[1..], t);
      f := g + 1;
      forall j | 0 <= j < f ensures !SameLabel(t, marks[j].name) {
        if j > 0 { assert marks[j] == marks[1..][j - 1]; }
      }
    }
  }

  /** A reference that whitespace follows finds the first label of its name, if there is one. */
  lemma ClosedReference(marks: seq<Mark>, t: Token, m: nat)
    requires t.closed && FirstNamed(marks, t.s, m) && forall k :: 0 <= k < |marks| - 1 ==> marks[k].name.closed
    requires Find(marks, t).Some?
    ensures Find(marks, t) == Some(marks[m].addr)
  {
    var f := Match(marks, t);
    assert t.s <= marks[m].name.s <= t.s;
  }

  /** A reference at the end of the text finds the first label that begins with it. */
  lemma OpenReference(l: Listing, t: Token, m: nat)
    requires !t.closed && FirstNamed(l.marks, t.s, m) && MarksClosed(l) && Rising(l)
    requires Find(l.marks, t).Some?
    ensures Find(l.marks, t) == Some(l.marks[m].addr) <==> Unclaimed(l.marks, t, m)
  {
    var f := Match(l.marks, t);
    assert SameLabel(t, l.marks[m].name);
    if l.marks[f].addr == l.marks[m].addr {
      forall j | 0 <= j < m && t.s <= l.marks[j].name.s ensures l.marks[j].addr == l.marks[m].addr {
        assert SameLabel(t, l.marks[j].name);
      }
    }
  }

  /** Item k, a line with a label operand, jumps to the first label of that name. */
  ghost predicate MeansFirst(words: seq<Word>, l: Listing, k: nat)
    requires k < |words| && k < |l.items| && IsReference(l.items[k])
  {
    exists m: nat :: FirstNamed(l.marks, l.items[k].last.t.s, m) && Targets(words[k], l.items[k], l.marks[m].addr)
  }

  /** The word decodes to the line, with the address as its last operand. */
  predicate Targets(w: Word, it: Item, addr: nat)
    requires it.Line?
  {
    Decode(w) == Some(Instr(it.op, it.a, it.b, Imm(addr)))
  }

  lemma OneTarget(w: Word, it: Item)
    requires it.Line?
    ensures forall a: nat, b: nat :: Targets(w, it, a) && Targets(w, it, b) ==> a == b
  {
    hide Decode;
  }

  /** What an accepted text is read as, and that each word decodes to what is written. */
  lemma AcceptedText(code: string, words: seq<Word>) returns (l: Listing)
    requires Assembled(code) == Some(words)
    ensures Listed(code) == Some(l) && |l.items| == |words| && Complete(l, EndsBlank(code))
    ensures forall k :: 0 <= k < |words| ==> Says(words[k], l.items[k], l.marks)
  {
    l := Listed(code).value;
    TextComplete(code, l);
    hide Complete, Says, Decode;
    assert Translate(l) == Some(words);
    forall k | 0 <= k < |words| ensures k < |l.items| && Says(words[k], l.items[k], l.marks) {
      SaysWhatIsWritten(l, words, k);
    }
  }

  lemma SaysWhatIsWritten(l: Listing, words: seq<Word>, k: nat)
    requires Translate(l) == Some(words) && k < |words|
    ensures k < |l.items| && Says(words[k], l.items[k], l.marks)
  {
    AcceptedDecodes(l, words, k);
    hide Decode;
  }

  /** A word against the item it comes from. */
  ghost predicate Says(w: Word, it: Item, marks: seq<Mark>) {
    match it
    case Literal(v) => w == v
    case Line(op, a, b, LReg(r)) => Decode(w) == Some(Instr(op, a, b, Reg(r)))
    case Line(op, a, b, LImm(i)) => Decode(w) == Some(Instr(op, a, b, Imm(i)))
    case Line(op, a, b, LRef(t)) => Find(marks, t).Some? && Targets(w, it, Find(marks, t).value)
  }

  /**
   A label operand of an accepted text means the first label of its name if and only if there is one that no label
   before it claims: a text may end with the reference, and then every label that begins with it matches.
   */
  lemma ReferenceMeans(code: string, words: seq<Word>, l: Listing, k: nat)
    requires Assembled(code) == Some(words) && Listed(code) == Some(l) && k < |words|
    ensures |l.items| == |words|
    ensures IsReference(l.items[k]) ==>
              var t := l.items[k].last.t;
              MeansFirst(words, l, k) <==> exists m: nat :: FirstNamed(l.marks, t.s, m) && Unclaimed(l.marks, t, m)
  {
    var l' := AcceptedText(code, words);
    if IsReference(l.items[k]) {
      var it := l.items[k];
      var t := it.last.t;
      assert Find(l.marks, t).Some? && Targets(words[k], it, Find(l.marks, t).value);
      hide Decode;
      assert forall a: nat :: Targets(words[k], it, a) <==> Find(l.marks, t) == Some(a) by { OneTarget(words[k], it); }
      forall m: nat | FirstNamed(l.marks, t.s, m)
        ensures Find(l.marks, t) == Some(l.marks[m].addr) <==> Unclaimed(l.marks, t, m)
      {
        if t.closed { ClosedReference(l.marks, t, m); } else { OpenReference(l, t, m); }
      }
    }
  }

  /** In a text that ends in whitespace that is so exactly when the operand is not missing. */
  lemma BlankTextMeans(code: string, words: seq<Word>, l: Listing, k: nat)
    requires Assembled(code) == Some(words) && Listed(code) == Some(l) && k < |words| && EndsBlank(code)
    ensures |l.items| == |words|
    ensures IsReference(l.items[k]) ==> (MeansFirst(words, l, k) <==> l.items[k].last.t != Token("", false))
  {
    ReferenceMeans(code, words, l, k);
    var l' := AcceptedText(code, words);
    if IsReference(l.items[k]) {
      var it := l.items[k];
      var t := it.last.t;
      hide Decode, MeansFirst, EndsBlank;
      if t.closed {
        var f := Match(l.marks, t);
        LeastNamed(l.marks, t.s, f);
      }
    }
  }

  lemma {:induction false} LeastNamed(marks: seq<Mark>, name: string, f: nat)
    requires f < |marks| && marks[f].name.s == name
    ensures exists m: nat :: FirstNamed(marks, name, m)
  {
    if j: nat :| j < f && marks[j].name.s == name {
      LeastNamed(marks, name, j);
    } else {
      assert FirstNamed(marks, name, f);
    }
  }

  /** A missing operand means the first label that there is, which is not one of its name. */
  lemma MissingMeansFirstLabel(code: string, words: seq<Word>, l: Listing, k: nat)
    requires Assembled(code) == Some(words) && Listed(code) == Some(l) && k < |words|
    ensures |l.items| == |words|
    ensures IsReference(l.items[k]) && l.items[k].last.t == Token("", false) ==>
              l.marks != [] && Targets(words[k], l.items[k], l.marks[0].addr) && !MeansFirst(words, l, k)
  {
    var l' := AcceptedText(code, words);
    hide Decode;
    if IsReference(l.items[k]) && l.items[k].last.t == Token("", false) {
      MissingArgument(l.marks);
      forall m: nat ensures !FirstNamed(l.marks, "", m) {
        assert m < |l.marks| ==> l.marks[m].name.s != "";
      }
    }
  }

  /** The text defines what the operand refers to, or any label if the operand is missing. */
  ghost predicate Defined(marks: seq<Mark>, t: Token) {
    if t == Token("", false) then marks != [] else exists m :: 0 <= m < |marks| && marks[m].name.s == t.s
  }

  /** Of the texts that can be read and end in whitespace, those are accepted that define what they refer to. */
  lemma BlankTextAccepted(code: string, l: Listing)
    requires Listed(code) == Some(l) && EndsBlank(code) && |code| < IMM_LIMIT
    ensures Assembled(code).Some? <==> forall k :: 0 <= k < |l.items| && IsReference(l.items[k]) ==> Defined(l.marks, l.items[k].last.t)
  {
    TextComplete(code, l);
    forall k | 0 <= k < |l.items|
      ensures WordOf(l.items[k], l.marks).Some? <==> IsReference(l.items[k]) ==> Defined(l.marks, l.items[k].last.t)
    {
      ItemAccepted(l, k);
    }
    hide WordOf, Complete, Defined, IsReference;
  }

  lemma ItemAccepted(l: Listing, k: nat)
    requires Complete(l, true) && k < |l.items| && |l.items| < IMM_LIMIT
    ensures WordOf(l.items[k], l.marks).Some? <==> IsReference(l.items[k]) ==> Defined(l.marks, l.items[k].last.t)
  {
    var it := l.items[k];
    if IsReference(it) {
      var t := it.last.t;
      if t == Token("", false) { MissingArgument(l.marks); } else { FirstDefinition(l.marks, t); }
      if Find(l.marks, t).Some? { var f := Match(l.marks, t); }
    }
    hide Find, Encode;
  }

  /** Every label of a text stands for the number of words that the tokens before it become. */
  lemma LabelMeans(code: string, l: Listing, m: nat) returns (p: nat, front: Listing)
    requires Listed(code) == Some(l) && m < |l.marks|
    ensures p < |Tokens(code)| && l.marks[m].name == Tokens(code)[p]
    ensures Parse(Tokens(code)[..p], Listing([], [])) == Some(front) && l.marks[m].addr == |front.items|
  {
    p, front := LabelAddress(Tokens(code), Listing([], []), l, m);
  }

  // ------------------------------------------------------------------ inputs

  /** The word of jnc r0 r0 and an address. */
  function JumpWord(addr: nat): Word
    requires addr < 16
  {
    Encode(Instr(Jnc, 0, 0, Imm(addr)))
  }

  lemma OpenToken(w: string)
    requires Plain(w)
    ensures Tokens(w) == [Token(w, false)]
  {
    var n := WordLength(w);
    assert n == |w| && w[..n] == w && w[n..] == "" && Tokens("") == [];
  }

  /** A word that is neither a number nor an opcode. */
  predicate IsName(s: string) { Plain(s) && |s| != 3 && exists k :: 0 <= k < |s| && HexDigitOf(s[k]).None? }

  lemma NameIsLabel(t: Token, rest: seq<Token>, l: Listing)
    requires IsName(t.s)
    ensures Parse([t] + rest, l) == Parse(rest, l.(marks := l.marks + [Mark(t, |l.items|)]))
  {
    assert Hex(t.s, W64 - 1).None?;
    assert ([t] + rest)[1..] == rest;
    hide NameNumber, Hex, IsName;
    if NameNumber(t.s, 0).Some? { NamesAreWords(t.s); }
    hide *;
    ParseStep([t] + rest, l);
  }

  /** Names that do not look like registers or numbers. */
  predicate IsTarget(s: string) { s == "x" || s == "loop" || s == "" }

  lemma TargetIsReference(t: Token)
    requires IsTarget(t.s)
    ensures LastOf(t) == LRef(t)
  {
    assert t.s != "" ==> HexDigitOf(t.s[0]).None?;
  }

  /** The tokens of jnc r0 r0, with its last operand or without, and what comes after. */
  lemma JumpTo(t: Token, args: seq<Token>, rest: seq<Token>, l: Listing)
    requires args == [Token("jnc", true), Token("r0", true), Token("r0", true)]
    requires IsTarget(t.s) && (t == Token("", false) ==> rest == [])
    ensures Parse(args + (if t == Token("", false) then [] else [t]) + rest, l) ==
            Parse(rest, l.(items := l.items + [Line(Jnc, 0, 0, LRef(t))]))
  {
    var last := if t == Token("", false) then [] else [t];
    var ts := args + last + rest;
    assert ts[0] == args[0] && ts[1..][0] == args[1] && ts[1..][1] == args[2] && ts[3..] == last + rest;
    assert last != [] ==> ts[1..][2] == t && (last + rest)[1..] == rest;
    assert |ts[1..]| == 2 <==> last == [];
    assert NAMES[14] == "jnc" && t.s != "r";
    RegisterZero();
    NameFrom(14, 0);
    TargetIsReference(t);
    hide Hex, NameNumber, AsReg, LastOf, NAMES;
    ParseStep(ts, l);
  }

  /** A listing with one reference in it, as words. */
  lemma OneJump(l: Listing, before: seq<Word>, t: Token, addr: nat)
    requires |l.items| == |before| + 1 && l.items[|before|] == Line(Jnc, 0, 0, LRef(t)) && Find(l.marks, t) == Some(addr)
    requires addr < 16 && forall k :: 0 <= k < |before| ==> l.items[k] == Literal(before[k])
    ensures Translate(l) == Some(before + [JumpWord(addr)])
  {
    hide Encode, Find;
    assert WordOf(l.items[|before|], l.marks) == Some(JumpWord(addr));
    var words := before + [JumpWord(addr)];
    assert forall k :: 0 <= k < |l.items| ==> WordOf(l.items[k], l.marks) == Some(words[k]);
    assert Translate(l).value == words;
  }

  lemma Targeted()
    ensures IsTarget("x") && IsTarget("loop") && IsTarget("")
  {
  }

  /** One of two names is the beginning of the other, and stands at the end of the text. */
  lemma OpenMatches(marks: seq<Mark>, t: Token)
    requires marks != []
    requires (!t.closed && t.s <= marks[0].name.s) || (!marks[0].name.closed && marks[0].name.s <= t.s)
    ensures Find(marks, t) == Some(marks[0].addr)
  {
  }

  lemma BlankAtEnd()
    ensures EndsBlank("x jnc r0 r0 ")
  {
    assert "x jnc r0 r0 "[11] == ' ' && |"x jnc r0 r0 "| == 12;
  }

  lemma ReadAndTranslated(code: string, l: Listing)
    requires Parse(Tokens(code), Listing([], [])) == Some(l)
    ensures Listed(code) == Some(l) && Assembled(code) == Translate(l)
  {
  }

  lemma MissingTokens()
    ensures Tokens("x jnc r0 r0 ") == [Token("x", true)] + [Token("jnc", true), Token("r0", true), Token("r0", true)]
  {
    hide *;
    PlainWords();
    Names();
    WordToken("r0", ' ', "");
    WordToken("r0", ' ', "r0 ");
    WordToken("jnc", ' ', "r0 r0 ");
    WordToken("x", ' ', "jnc r0 r0 ");
    assert "r0" + [' '] + "" == "r0 " && "r0" + [' '] + "r0 " == "r0 r0 " && "jnc" + [' '] + "r0 r0 " == "jnc r0 r0 ";
    assert "x" + [' '] + "jnc r0 r0 " == "x jnc r0 r0 ";
  }

  lemma Names()
    ensures IsName("x") && IsName("xy") && IsName("lo") && IsName("loop") && Plain("x") && Plain("xy") && Plain("lo") && Plain("loop")
  {
    assert HexDigitOf("x"[0]).None? && HexDigitOf("xy"[0]).None? && HexDigitOf("lo"[0]).None? && HexDigitOf("loop"[0]).None?;
  }

  /** The three tokens before the operand of a jump. */
  function Jump(): seq<Token> { [Token("jnc", true), Token("r0", true), Token("r0", true)] }

  lemma JumpIs()
    ensures Jump() == [Token("jnc", true), Token("r0", true), Token("r0", true)]
  {
  }

  lemma MissingListing(x: Token, none: Token)
    requires x == Token("x", true) && none == Token("", false)
    ensures Parse([x] + Jump(), Listing([], [])) == Some(Listing([Line(Jnc, 0, 0, LRef(none))], [Mark(x, 0)]))
  {
    hide *;
    var l0, l1 := Listing([], []), Listing([], [Mark(x, 0)]);
    var l := Listing([Line(Jnc, 0, 0, LRef(none))], [Mark(x, 0)]);
    Names();
    Targeted();
    JumpIs();
    NameIsLabel(x, Jump(), l0);
    assert l0.(marks := l0.marks + [Mark(x, 0)]) == l1;
    JumpTo(none, Jump(), [], l1);
    assert Jump() + [] + [] == Jump() && l1.(items := l1.items + [Line(Jnc, 0, 0, LRef(none))]) == l;
    NothingLeft(l);
  }

  /** A jump without a target, at the end of a text that ends in whitespace, goes to the first label. */
  lemma TargetIsMissing()
    ensures EndsBlank("x jnc r0 r0 ")
    ensures Listed("x jnc r0 r0 ") == Some(Listing([Line(Jnc, 0, 0, LRef(Token("", false)))], [Mark(Token("x", true), 0)]))
    ensures Assembled("x jnc r0 r0 ") == Some([JumpWord(0)])
  {
    hide *;
    var x, none := Token("x", true), Token("", false);
    var l := Listing([Line(Jnc, 0, 0, LRef(none))], [Mark(x, 0)]);
    BlankAtEnd();
    MissingTokens();
    MissingListing(x, none);
    JumpIs();
    ReadAndTranslated("x jnc r0 r0 ", l);
    MissingArgument(l.marks);
    OneJump(l, [], none, 0);
    assert [] + [JumpWord(0)] == [JumpWord(0)];
  }

  lemma ClaimedTokens()
    ensures Tokens("xy 5 x jnc r0 r0 x") == [Token("xy", true)] + ([Token("5", true)] + ([Token("x", true)] +
              ([Token("jnc", true), Token("r0", true), Token("r0", true)] + [Token("x", false)])))
  {
    hide *;
    PlainWords();
    Names();
    OpenToken("x");
    WordToken("r0", ' ', "x");
    WordToken("r0", ' ', "r0 x");
    WordToken("jnc", ' ', "r0 r0 x");
    WordToken("x", ' ', "jnc r0 r0 x");
    WordToken("5", ' ', "x jnc r0 r0 x");
    WordToken("xy", ' ', "5 x jnc r0 r0 x");
    assert "r0" + [' '] + "x" == "r0 x" && "r0" + [' '] + "r0 x" == "r0 r0 x" && "jnc" + [' '] + "r0 r0 x" == "jnc r0 r0 x";
    assert "x" + [' '] + "jnc r0 r0 x" == "x jnc r0 r0 x" && "5" + [' '] + "x jnc r0 r0 x" == "5 x jnc r0 r0 x";
    assert "xy" + [' '] + "5 x jnc r0 r0 x" == "xy 5 x jnc r0 r0 x";
  }

  lemma FiveIsNumber(rest: seq<Token>, l: Listing)
    ensures Parse([Token("5", true)] + rest, l) == Parse(rest, l.(items := l.items + [Literal(5)]))
  {
    assert AllHex("5") && HexNumber("5") == 5 by { assert "5"[..0] == "" && HexDigitOf('5') == Some(5); }
    assert ([Token("5", true)] + rest)[1..] == rest && Hex("5", W64 - 1) == Some(5);
    hide Hex;
    ParseStep([Token("5", true)] + rest, l);
  }

  lemma ClaimedListing(xy: Token, five: Token, x: Token, open: Token)
    requires xy == Token("xy", true) && five == Token("5", true) && x == Token("x", true) && open == Token("x", false)
    ensures Parse([xy] + ([five] + ([x] + (Jump() + [open]))), Listing([], [])) ==
            Some(Listing([Literal(5), Line(Jnc, 0, 0, LRef(open))], [Mark(xy, 0), Mark(x, 1)]))
  {
    hide *;
    var l0, l1, l2 := Listing([], []), Listing([], [Mark(xy, 0)]), Listing([Literal(5)], [Mark(xy, 0)]);
    var l3 := Listing([Literal(5)], [Mark(xy, 0), Mark(x, 1)]);
    var l := Listing([Literal(5), Line(Jnc, 0, 0, LRef(open))], [Mark(xy, 0), Mark(x, 1)]);
    Names();
    Targeted();
    JumpIs();
    NameIsLabel(xy, [five] + ([x] + (Jump() + [open])), l0);
    assert l0.(marks := l0.marks + [Mark(xy, 0)]) == l1;
    FiveIsNumber([x] + (Jump() + [open]), l1);
    assert l1.(items := l1.items + [Literal(5)]) == l2;
    NameIsLabel(x, Jump() + [open], l2);
    assert l2.(marks := l2.marks + [Mark(x, 1)]) == l3;
    JumpTo(open, Jump(), [], l3);
    assert Jump() + [open] + [] == Jump() + [open] && l3.(items := l3.items + [Line(Jnc, 0, 0, LRef(open))]) == l;
    NothingLeft(l);
  }

  /** A text that ends with the reference x, which label x at 1 would be, takes label xy at 0 for it. */
  lemma LongerLabelClaims()
    ensures Listed("xy 5 x jnc r0 r0 x") ==
            Some(Listing([Literal(5), Line(Jnc, 0, 0, LRef(Token("x", false)))], [Mark(Token("xy", true), 0), Mark(Token("x", true), 1)]))
    ensures Assembled("xy 5 x jnc r0 r0 x") == Some([5, JumpWord(0)])
  {
    hide *;
    var xy, x, open := Token("xy", true), Token("x", true), Token("x", false);
    var l := Listing([Literal(5), Line(Jnc, 0, 0, LRef(open))], [Mark(xy, 0), Mark(x, 1)]);
    ClaimedTokens();
    ClaimedListing(xy, Token("5", true), x, open);
    JumpIs();
    ReadAndTranslated("xy 5 x jnc r0 r0 x", l);
    assert "x" + "y" == "xy";
    OpenMatches(l.marks, open);
    OneJump(l, [5], open, 0);
    assert [5] + [JumpWord(0)] == [5, JumpWord(0)];
  }

  lemma CaughtTokens()
    ensures Tokens("jnc r0 r0 loop lo") ==
            [Token("jnc", true), Token("r0", true), Token("r0", true)] + [Token("loop", true)] + ([Token("lo", false)] + [])
  {
    hide *;
    PlainWords();
    Names();
    OpenToken("lo");
    WordToken("loop", ' ', "lo");
    WordToken("r0", ' ', "loop lo");
    WordToken("r0", ' ', "r0 loop lo");
    WordToken("jnc", ' ', "r0 r0 loop lo");
    assert "loop" + [' '] + "lo" == "loop lo" && "r0" + [' '] + "loop lo" == "r0 loop lo";
    assert "r0" + [' '] + "r0 loop lo" == "r0 r0 loop lo" && "jnc" + [' '] + "r0 r0 loop lo" == "jnc r0 r0 loop lo";
  }

  lemma CaughtListing(loop: Token, lo: Token)
    requires loop == Token("loop", true) && lo == Token("lo", false)
    ensures Parse(Jump() + [loop] + ([lo] + []), Listing([], [])) == Some(Listing([Line(Jnc, 0, 0, LRef(loop))], [Mark(lo, 1)]))
  {
    hide *;
    var l0, l1 := Listing([], []), Listing([Line(Jnc, 0, 0, LRef(loop))], []);
    var l := Listing([Line(Jnc, 0, 0, LRef(loop))], [Mark(lo, 1)]);
    Names();
    Targeted();
    JumpIs();
    JumpTo(loop, Jump(), [lo] + [], l0);
    assert l0.(items := l0.items + [Line(Jnc, 0, 0, LRef(loop))]) == l1;
    NameIsLabel(lo, [], l1);
    assert l1.(marks := l1.marks + [Mark(lo, 1)]) == l;
    NothingLeft(l);
  }

  /** A text that ends with the label lo takes it for the label loop, which nothing defines. */
  lemma ShorterLabelCatches()
    ensures Listed("jnc r0 r0 loop lo") ==
            Some(Listing([Line(Jnc, 0, 0, LRef(Token("loop", true)))], [Mark(Token("lo", false), 1)]))
    ensures Assembled("jnc r0 r0 loop lo") == Some([JumpWord(1)])
  {
    hide *;
    var loop, lo := Token("loop", true), Token("lo", false);
    var l := Listing([Line(Jnc, 0, 0, LRef(loop))], [Mark(lo, 1)]);
    CaughtTokens();
    CaughtListing(loop, lo);
    JumpIs();
    ReadAndTranslated("jnc r0 r0 loop lo", l);
    assert "lo" + "op" == "loop";
    OpenMatches(l.marks, loop);
    OneJump(l, [], loop, 1);
    assert [] + [JumpWord(1)] == [JumpWord(1)];
  }
}
