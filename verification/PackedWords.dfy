/**
 The bits of packed words.  A refcount word: real count in bits 0 to 31, temporary count in bits 32 to 62, visited mark
 in bit 63.  A tree node's first word: balance factor in bits 0 and 1, word address of the parent from bit 3 on.
 */
module PackedWords {
  import opened Bits
  import opened Refcount
  import M = AvlMemory
  import Words
  import A = Arithmetic

  lemma {:induction false} BitOfSum(a: nat, b: nat, j: nat, k: nat)
    requires a < Words.Pow2(j)
    ensures A.BitAt(a + b * Words.Pow2(j), k) <==> if k < j then A.BitAt(a, k) else A.BitAt(b, k - j)
  {
    hide *;
    Doubled(j);
    if j > 0 {
      var p := Words.Pow2(j - 1);
      Halves(a, b, p);
      if k == 0 {
        LowestBits(a);
        LowestBits(a + b * Words.Pow2(j));
      } else {
        BitOfSum(a / 2, b, j - 1, k - 1);
        A.BitHalf(a + b * Words.Pow2(j), k);
        A.BitHalf(a, k);
      }
    }
  }

  lemma Doubled(j: nat)
    ensures Words.Pow2(j) == if j == 0 then 1 else 2 * Words.Pow2(j - 1)
  {
  }

  lemma Halves(a: nat, b: nat, p: nat)
    ensures (a + b * (2 * p)) / 2 == a / 2 + b * p && (a + b * (2 * p)) % 2 == a % 2
  {
    assert b * (2 * p) == 2 * (b * p);
  }

  lemma LowestBits(a: nat)
    ensures A.BitAt(a, 0) <==> a % 2 == 1
  {
    assert Words.Pow2(0) == 1;
  }

  /** A bit above the highest one. */
  lemma NoBit(a: nat, j: nat, k: nat)
    requires a < Words.Pow2(j) && k >= j
    ensures !A.BitAt(a, k)
  {
    BitOfSum(a, 0, j, k);
    Pow2Positive(k - j);
    DivMod(0, Words.Pow2(k - j), 0, 0);
  }

  lemma Powers()
    ensures Words.Pow2(31) == 0x8000_0000 && Words.Pow2(32) == 0x1_0000_0000
  {
    assert Words.Pow2(8) == 0x100;
    hide Words.Pow2;
    Words.Pow2Add(8, 8);
    Words.Pow2Add(16, 8);
    Words.Pow2Add(24, 7);
    Words.Pow2Add(24, 8);
  }

  lemma WordSplits(w: Word)
    ensures GetRc(w) < 0x1_0000_0000 && GetTmpRc(w) < 0x8000_0000
    ensures w == GetRc(w) + (GetTmpRc(w) + (if Visited(w) then 1 else 0) * 0x8000_0000) * 0x1_0000_0000
  {
    Unpack(w);
    hide GetRc, GetTmpRc, Visited;
  }

  /** The bits of a word are those of its parts. */
  lemma BitsOfParts(w: Word, k: nat)
    ensures A.BitAt(w, k) <==>
            if k < 32 then A.BitAt(GetRc(w), k) else if k < 63 then A.BitAt(GetTmpRc(w), k - 32) else k == 63 && Visited(w)
  {
    hide *;
    Powers();
    WordSplits(w);
    var tmp, m := GetTmpRc(w), if Visited(w) then 1 else 0;
    BitOfSum(GetRc(w), tmp + m * 0x8000_0000, 32, k);
    if k >= 32 { BitOfSum(tmp, m, 31, k - 32); }
    if k >= 63 { MarkBit(Visited(w), k - 63); }
  }

  lemma MarkBit(v: bool, k: nat)
    ensures A.BitAt(if v then 1 else 0, k) <==> k == 0 && v
  {
    LowestBits(if v then 1 else 0);
    if k > 0 {
      PowerOne();
      NoBit(if v then 1 else 0, 1, k);
    }
    hide *;
  }

  lemma PowerOne()
    ensures Words.Pow2(1) == 2
  {
  }

  /** get_rc, get_tmp_rc and visited read these bits. */
  lemma FieldBits(w: Word, k: nat)
    ensures A.BitAt(GetRc(w), k) <==> k < 32 && A.BitAt(w, k)
    ensures A.BitAt(GetTmpRc(w), k) <==> k < 31 && A.BitAt(w, k + 32)
    ensures Visited(w) <==> A.BitAt(w, 63)
  {
    hide *;
    Powers();
    WordSplits(w);
    BitsOfParts(w, k);
    BitsOfParts(w, k + 32);
    BitsOfParts(w, 63);
    if k >= 32 { NoBit(GetRc(w), 32, k); }
    if k >= 31 { NoBit(GetTmpRc(w), 31, k); }
  }

  /** set_tmp_rc replaces bits 32 to 62; a count that is too long can only set the mark. */
  lemma SetTmpRcBits(w: Word, val: Word, k: nat)
    ensures A.BitAt(SetTmpRc(w, val), k) <==>
            if k < 32 then A.BitAt(w, k) else if k < 63 then A.BitAt(val, k - 32) else k == 63 && (A.BitAt(w, 63) || A.BitAt(val, 31))
  {
    hide *;
    SetTmpRcParts(w, val);
    BitsOfParts(SetTmpRc(w, val), k);
    BitsOfParts(w, k);
    BitsOfParts(w, 63);
    CountBits(val, 31);
    if k >= 32 { CountBits(val, k - 32); }
  }

  lemma SetTmpRcParts(w: Word, val: Word)
    ensures GetRc(SetTmpRc(w, val)) == GetRc(w) && GetTmpRc(SetTmpRc(w, val)) == val % 0x8000_0000
    ensures Visited(SetTmpRc(w, val)) <==> Visited(w) || val / 0x8000_0000 % 2 == 1
  {
    Pack(GetRc(w), val % W31, Visited(w) || val / W31 % 2 == 1, SetTmpRc(w, val));
  }

  lemma CountBits(val: Word, k: nat)
    ensures k < 31 ==> (A.BitAt(val % 0x8000_0000, k) <==> A.BitAt(val, k))
    ensures A.BitAt(val, 31) <==> val / 0x8000_0000 % 2 == 1
  {
    var low, high := val % 0x8000_0000, val / 0x8000_0000;
    assert val == low + high * 0x8000_0000;
    hide *;
    Powers();
    BitOfSum(low, high, 31, k);
    BitOfSum(low, high, 31, 31);
    LowestBits(high);
  }

  /** set_visited replaces bit 63. */
  lemma SetVisitedBits(w: Word, val: bool, k: nat)
    ensures A.BitAt(SetVisited(w, val), k) <==> if k < 63 then A.BitAt(w, k) else k == 63 && val
  {
    hide *;
    SetVisitedParts(w, val);
    BitsOfParts(SetVisited(w, val), k);
    BitsOfParts(w, k);
  }

  lemma SetVisitedParts(w: Word, val: bool)
    ensures GetRc(SetVisited(w, val)) == GetRc(w) && GetTmpRc(SetVisited(w, val)) == GetTmpRc(w) && Visited(SetVisited(w, val)) == val
  {
    Unpack(w);
    Pack(GetRc(w), GetTmpRc(w), val, SetVisited(w, val));
  }

  // ------------------------------------------------------------- tree nodes

  /** A balance factor is stored as 3 for 0, as 2 for -1 and as 1 for 1, below the byte address of the parent. */
  lemma PrevBits(parent: nat, bf: int, k: nat)
    requires -1 <= bf <= 1
    ensures A.BitAt(M.Pack(parent, bf), k) <==>
            if k == 0 then bf != -1 else if k == 1 then bf != 1 else k > 2 && A.BitAt(parent, k - 3)
    ensures M.ParentOf(M.Pack(parent, bf)) == parent && M.BalanceOf(M.Pack(parent, bf)) == bf
  {
    hide *;
    M.PackUnpack(parent, bf, 0, 0);
    PowerEight();
    CodeIs(parent, bf);
    BitOfSum(M.RevBalance(bf), parent, 3, k);
    TwoBits(M.RevBalance(bf), k);
  }

  lemma CodeIs(parent: nat, bf: int)
    requires -1 <= bf <= 1
    ensures M.Pack(parent, bf) == M.RevBalance(bf) + parent * 8
    ensures M.RevBalance(bf) == if bf == 0 then 3 else if bf == -1 then 2 else 1
  {
  }

  lemma PowerEight()
    ensures Words.Pow2(3) == 8
  {
  }

  lemma TwoBits(code: nat, k: nat)
    requires code < 4
    ensures k < 3 ==> (A.BitAt(code, k) <==> (k == 0 && code % 2 == 1) || (k == 1 && code >= 2))
  {
    if k < 3 { A.BitHalf(code, 1); A.BitHalf(code, 2); A.BitHalf(code / 2, 1); }
    LowestBits(code);
    LowestBits(code / 2);
    LowestBits(code / 2 / 2);
  }
}
