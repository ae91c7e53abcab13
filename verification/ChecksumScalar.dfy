/** The page checksum one word at a time and four words at a time. */
module ChecksumScalar {
  import opened Bits
  import opened PageEcc
  import opened Parity
  import opened ChecksumPass

  // ----- column code -----

  /** What the columns from j upwards add. */
  ghost function ColumnsFrom(dw: bv32, j: nat): bv32
    requires j <= 32
  {
    Packed(0, WordPos(Shr(j, dw), j, 32 - j), OddBits(Shr(j, dw), 32 - j))
  }

  lemma ColumnsFromDef(dw: bv32, j: nat)
    requires j <= 32
    ensures ColumnsFrom(dw, j) == Packed(0, WordPos(Shr(j, dw), j, 32 - j), OddBits(Shr(j, dw), 32 - j))
  {}

  lemma ColumnsAll(dw: bv32)
    ensures ColumnsFrom(dw, 0) == Packed(0, Col(dw), Odd(dw))
    ensures ColumnsFrom(dw, 32) == 0
  {
    hide *;
    ColumnsFromDef(dw, 0);
    ColumnsFromDef(dw, 32);
    ShrZero(dw);
    ColDef(dw);
    OddDef(dw);
    WordZero(Shr(32, dw), 32, 0);
    OddNone(Shr(32, dw));
    PackedDef(0, 0, false);
    CombNothing(ALL);
    ShlZero(0);
  }

  lemma {:induction false} ShrNext(j: nat, w: bv32)
    ensures Shr(j + 1, w) == Half(Shr(j, w))
    decreases j
  {
    hide *;
    ShrStep(j + 1, w);
    if j == 0 {
      ShrZero(w);
      ShrZero(Half(w));
    } else {
      ShrStep(j, w);
      ShrNext(j - 1, Half(w));
    }
  }

  lemma ColumnsStep(dw: bv32, j: nat)
    requires j < 32
    ensures ColumnsFrom(dw, j) == Xor(Sel(Low(Shr(j, dw)), Packed(0, Num(j), true)), ColumnsFrom(dw, j + 1))
  {
    hide *;
    var w := Shr(j, dw);
    ColumnsFromDef(dw, j);
    ColumnsFromDef(dw, j + 1);
    ShrNext(j, dw);
    WordStep(w, j, 32 - j, 0);
    OddStep(w, 32 - j);
    PackedSel(0, Low(w), Num(j));
    PackedXor(0, Sel(Low(w), Num(j)), Low(w), WordPos(Half(w), j + 1, 31 - j), OddBits(Half(w), 31 - j));
  }

  lemma LowIsBitZero(w: bv32)
    ensures (And(w, 1) != 0) == Low(w)
  {}

  lemma AndDouble(w: bv32, b: bv32)
    ensures (And(w, Dbl(b)) != 0) == (And(Half(w), b) != 0)
  {}

  /** Testing a bit with a shifted one. */
  lemma {:induction false} BitTest(w: bv32, j: nat)
    ensures (And(w, Shl(j, 1)) != 0) == Low(Shr(j, w))
    decreases j
  {
    hide *;
    if j == 0 {
      ShlZero(1);
      ShrZero(w);
      LowIsBitZero(w);
    } else {
      ShlStep(j, 1);
      ShrStep(j, w);
      BitTest(Half(w), j - 1);
      AndDouble(w, Shl(j - 1, 1));
    }
  }

  lemma LastShift()
    ensures Shl(31, 1) == 0x8000_0000 && Shl(32, 1) == 0
  {
    assert Shl(8, 1) == 0x100;
    assert Shl(16, 1) == 0x1_0000;
    assert Shl(24, 1) == 0x100_0000;
  }

  lemma {:induction false} KeepsNonzero(j: nat, k: nat)
    requires j <= k && Shl(k, 1) != 0
    ensures Shl(j, 1) != 0
    decreases k - j
  {
    if j >= k {
    } else {
      KeepsNonzero(j + 1, k);
      DblZero();
      ShlStep(j + 1, 1);
      hide *;
    }
  }

  /** The doubling loop variable runs through exactly 32 nonzero values. */
  lemma OneShifted(j: nat)
    requires j <= 32
    ensures Shl(j, 1) == 0 <==> j == 32
  {
    LastShift();
    if j < 32 { KeepsNonzero(j, 31); }
  }

  lemma IndexStepColumns()
    ensures IndexStep(0, 0xffff_0000, 0xffff_0001)
  {}

  lemma AndComm(a: bv32, b: bv32)
    ensures And(a, b) == And(b, a)
  {}

  lemma AddSelf(a: bv32)
    ensures Add(a, a) == Dbl(a)
  {}

  /** The last loop of the checksum: column numbers, and complements, of the set bits. */
  method ColumnCode(r2: bv32) returns (r: bv32)
    ensures r == Packed(0, Col(r2), Odd(r2))
  {
    hide *;
    r := 0;
    var idxr: bv32 := 0xffff_0000;
    var i: bv32 := 1;
    ghost var j := 0;
    IndexStepColumns();
    IndexWord(0, 0xffff_0000, 0xffff_0001, 0);
    ShlZero(1);
    ColumnsAll(r2);
    XorZero(ColumnsFrom(r2, 0));
    OneShifted(0);
    while i != 0
      invariant j <= 32 && i == Shl(j, 1) && (i == 0 <==> j == 32)
      invariant idxr == Packed(0, Num(j), true)
      invariant Xor(r, ColumnsFrom(r2, j)) == Packed(0, Col(r2), Odd(r2))
      decreases 32 - j
    {
      var mask := MaskOf(And(r2, i) != 0);
      BitTest(r2, j);
      AndMask(idxr, Low(Shr(j, r2)));
      AndComm(mask, idxr);
      ColumnsStep(r2, j);
      XorAssoc(r, And(mask, idxr), ColumnsFrom(r2, j + 1));
      r := Xor(r, And(mask, idxr));
      IndexWord(0, 0xffff_0000, 0xffff_0001, j);
      idxr := Add(idxr, 0xffff_0001);
      ShlStep(j + 1, 1);
      AddSelf(i);
      OneShifted(j + 1);
      i := Add(i, i);
      j := j + 1;
    }
    XorZero(r);
  }

  // ----- four words at a time: ChecksumNewFormatSlowly and ChecksumNewFormatSSE -----

  /** The two word-in-block bits, set after the pass. */
  function WithWordBits(p: bv32, mask01: bv32, mask23: bv32, mask02: bv32, mask13: bv32): bv32 {
    Or(Or(Or(Or(p, And(0x0040_0000, mask01)), And(0x0000_0040, mask23)), And(0x0020_0000, mask02)),
       And(0x0000_0020, mask13))
  }

  function SlowlyEcc(p: bv32, r: bv32, cb: bv32): bv32 {
    Or(And(And(p, 0xffe0_ffe0), CodeMask(cb)), And(r, 0x001f_001f))
  }

  /** The xor of the positions within a block of the words of odd parity. */
  function WordInBlock(o1: bool, o2: bool, o3: bool): bv32 {
    Xor(Xor(Sel(o1, 1), Sel(o2, 2)), Sel(o3, 3))
  }

  lemma WordInBlockDef(o1: bool, o2: bool, o3: bool)
    ensures WordInBlock(o1, o2, o3) == Xor(Xor(Sel(o1, 1), Sel(o2, 2)), Sel(o3, 3))
  {}

  lemma NumThree()
    ensures Num(0) == 0 && Num(1) == 1 && Num(2) == 2 && Num(3) == 3
  {}

  lemma RowXorFour(a: bv32, b: bv32, c: bv32, d: bv32)
    ensures RowXor([a, b, c, d]) == WordInBlock(Odd(b), Odd(c), Odd(d))
  {
    hide *;
    var s := [a, b, c, d];
    assert s[..3] == [a, b, c] && s[..3][..2] == [a, b] && s[..3][..2][..1] == [a] && s[..3][..2][..1][..0] == [];
    PageStep(s, 0);
    PageStep(s[..3], 0);
    PageStep(s[..3][..2], 0);
    PageStep(s[..3][..2][..1], 0);
    RowNothing([]);
    NumThree();
    SelDef(Odd(a), 0);
    XorZero(0);
    XorZero(Sel(Odd(b), 1));
    WordInBlockDef(Odd(b), Odd(c), Odd(d));
  }

  lemma OrAssocRaw(a: bv32, b: bv32, c: bv32)
    ensures Or(a | b, c) == Or(a, b | c)
  {
    calc { Or(a | b, c); (a | b) | c; a | (b | c); Or(a, b | c); }
  }

  lemma OrDef(a: bv32, b: bv32)
    ensures Or(a, b) == a | b
  {}

  lemma OrAssoc(a: bv32, b: bv32, c: bv32)
    ensures Or(Or(a, b), c) == Or(a, Or(b, c))
  {
    hide *;
    OrAssocRaw(a, b, c);
    OrDef(a, b);
    OrDef(b, c);
  }

  lemma OrZero(a: bv32)
    ensures Or(0, a) == a
  {}

  lemma WordBitsDef(p: bv32, m01: bv32, m23: bv32, m02: bv32, m13: bv32)
    ensures WithWordBits(p, m01, m23, m02, m13)
         == Or(Or(Or(Or(p, And(0x0040_0000, m01)), And(0x0000_0040, m23)), And(0x0020_0000, m02)),
               And(0x0000_0020, m13))
  {}

  lemma WordBitsApart(p: bv32, m01: bv32, m23: bv32, m02: bv32, m13: bv32)
    ensures WithWordBits(p, m01, m23, m02, m13) == Or(p, WithWordBits(0, m01, m23, m02, m13))
  {
    hide *;
    var a, b, c, d := And(0x0040_0000, m01), And(0x0000_0040, m23), And(0x0020_0000, m02), And(0x0000_0020, m13);
    WordBitsDef(p, m01, m23, m02, m13);
    WordBitsDef(0, m01, m23, m02, m13);
    OrZero(a);
    OrAssoc(p, a, b);
    OrAssoc(p, Or(a, b), c);
    OrAssoc(p, Or(Or(a, b), c), d);
  }

  lemma WordBitsField(o0: bool, o1: bool, o2: bool, o3: bool)
    ensures WithWordBits(0, MaskOf(o0 != o1), MaskOf(o2 != o3), MaskOf(o0 != o2), MaskOf(o1 != o3))
         == Comb(Lsh5(WordInBlock(o1, o2, o3)), o0 != (o1 != (o2 != o3)), 0x60)
    ensures And(Comb(Lsh5(WordInBlock(o1, o2, o3)), o0 != (o1 != (o2 != o3)), 0x60), 0xff9f_ff9f) == 0
  {}

  lemma SplitWordBits(p: bv32, b: bv32, cb: bv32)
    requires PageSize(cb) && And(p, 0x007f_007f) == 0 && And(b, 0xff9f_ff9f) == 0
    ensures And(And(Or(p, b), 0xffe0_ffe0), CodeMask(cb)) == Xor(And(And(p, 0xff80_ff80), CodeMask(cb)), b)
  {}

  lemma DisjointHalves(u: bv32, r: bv32, cb: bv32)
    requires PageSize(cb)
    ensures Or(And(And(u, 0xffe0_ffe0), CodeMask(cb)), And(r, 0x001f_001f))
         == Xor(And(And(u, 0xffe0_ffe0), CodeMask(cb)), And(r, 0x001f_001f))
  {}

  lemma SlowlyEccDef(p: bv32, r: bv32, cb: bv32)
    ensures SlowlyEcc(p, r, cb) == Or(And(And(p, 0xffe0_ffe0), CodeMask(cb)), And(r, 0x001f_001f))
  {}

  lemma LowSeven(y: bv32, odd: bool, cb: bv32)
    requires PageSize(cb) && And(y, BlockMask(cb, 2)) == y
    ensures And(Lsh7(Comb(y, odd, ALL)), 0x007f_007f) == 0
  {}

  lemma MaskParts(cb: bv32)
    requires PageSize(cb)
    ensures Xor(Xor(UpperMask(cb, 0x7f), 0x60), 0x1f) == PositionMask(cb)
  {}

  /** The scalar tail yields the code of the fields the pass accumulated. */
  lemma SlowlyCode(blocks: bv32, p0: bv32, p1: bv32, p2: bv32, p3: bv32, cb: bv32, odd: bool, c: bv32)
    requires PageSize(cb) && And(blocks, BlockMask(cb, 2)) == blocks && And(c, 0x1f) == c
    requires odd == (Odd(p0) != (Odd(p1) != (Odd(p2) != Odd(p3))))
    ensures SlowlyEcc(WithWordBits(Packed(7, blocks, odd), MaskOf(Odd(p0) != Odd(p1)), MaskOf(Odd(p2) != Odd(p3)),
                                   MaskOf(Odd(p0) != Odd(p2)), MaskOf(Odd(p1) != Odd(p3))), Packed(0, c, odd), cb)
         == Comb(Xor(Xor(Shl(7, blocks), Shl(5, RowXor([p0, p1, p2, p3]))), c), odd, PositionMask(cb))
  {
    hide *;
    var o0, o1, o2, o3 := Odd(p0), Odd(p1), Odd(p2), Odd(p3);
    var m01, m23, m02, m13 := MaskOf(o0 != o1), MaskOf(o2 != o3), MaskOf(o0 != o2), MaskOf(o1 != o3);
    var p, r := Packed(7, blocks, odd), Packed(0, c, odd);
    var w := WordInBlock(o1, o2, o3);
    var bits := WithWordBits(0, m01, m23, m02, m13);
    SlowlyEccDef(WithWordBits(p, m01, m23, m02, m13), r, cb);
    DisjointHalves(WithWordBits(p, m01, m23, m02, m13), r, cb);
    WordBitsApart(p, m01, m23, m02, m13);
    WordBitsField(o0, o1, o2, o3);
    PackedDef(7, blocks, odd);
    ShlBy7(Comb(blocks, odd, ALL));
    LowSeven(blocks, odd, cb);
    SplitWordBits(p, bits, cb);
    BlockField7(blocks, odd, cb);
    PackedDef(0, c, odd);
    ShlZero(Comb(c, odd, ALL));
    ColumnField(c, odd);
    ShlBy7(blocks);
    ShlBy5(w);
    RowXorFour(p0, p1, p2, p3);
    CombFields(Lsh7(blocks), Lsh5(w), odd, UpperMask(cb, 0x7f), 0x60);
    CombFields(Xor(Lsh7(blocks), Lsh5(w)), c, odd, Xor(UpperMask(cb, 0x7f), 0x60), 0x1f);
    MaskParts(cb);
  }

  lemma PageSizeOf(cb: bv32, pdw: seq<bv32>)
    requires ValidPage(cb, pdw)
    ensures PageSize(cb) && |pdw| >= 256 && |pdw| <= 2048 && |pdw| % 32 == 0 && RowBits(cb) >= 8
  {}

  lemma CoveredAt(pdw: seq<bv32>, fHeaderBlock: bool, cb: bv32)
    requires ValidPage(cb, pdw)
    ensures |pdw| >= 2 && |Covered(pdw, fHeaderBlock)| == |pdw| && ValidPage(cb, Covered(pdw, fHeaderBlock))
    ensures forall i :: 0 <= i < |pdw| ==> Covered(pdw, fHeaderBlock)[i] == if fHeaderBlock && i < 2 then 0 else pdw[i]
  {}

  lemma ZeroAccumulator()
    ensures RowXor([0, 0, 0, 0]) == 0 && XorAll([0, 0, 0, 0]) == 0
  {
    hide *;
    RowXorFour(0, 0, 0, 0);
    XorAllFour(0, 0, 0, 0);
    OddZero(32);
    OddDef(0);
    WordInBlockDef(false, false, false);
    SelDef(false, 1);
    SelDef(false, 2);
    SelDef(false, 3);
    XorZero(0);
  }

  lemma IndexStepBlocks()
    ensures IndexStep(7, 0xff80_0000, 0xff80_0080)
    ensures Pow2(2) == 4
  {}

  lemma ZipFour(s: seq<bv32>, t: seq<bv32>)
    requires |s| == |t| == 4
    ensures Zip(s, t) == [Xor(s[0], t[0]), Xor(s[1], t[1]), Xor(s[2], t[2]), Xor(s[3], t[3])]
  {
    hide Xor;
  }

  /** One block of the pass, over four accumulators. */
  lemma FourWordStep(words: seq<bv32>, k: nat, p0: bv32, p1: bv32, p2: bv32, p3: bv32,
                     p: bv32, idx: bv32, t0: bv32, t1: bv32, t2: bv32, t3: bv32, bits: nat)
    requires PassOver(words, 2, 7, k, [p0, p1, p2, p3], p, idx, bits)
    requires k < 1024 && k < Pow2(bits) && 4 * k + 4 <= |words|
    requires words[4 * k] == t0 && words[4 * k + 1] == t1 && words[4 * k + 2] == t2 && words[4 * k + 3] == t3
    ensures PassOver(words, 2, 7, k + 1, [Xor(p0, t0), Xor(p1, t1), Xor(p2, t2), Xor(p3, t3)],
                     Xor(p, And(idx, ParityMask(Xor(Xor(Xor(t0, t1), t2), t3)))), Add(idx, 0xff80_0080), bits)
  {
    hide *;
    var acc, t := [p0, p1, p2, p3], [t0, t1, t2, t3];
    IndexStepBlocks();
    assert words[4 * k..4 * k + 4] == t;
    PassStep(words, 2, 7, k, acc, p, idx, bits, t, 0xff80_0000, 0xff80_0080);
    XorAllFour(t0, t1, t2, t3);
    ParityMaskCorrect(XorAll(t));
    ZipFour(acc, t);
  }

  lemma RowsOfBlocks(cb: bv32, pdw: seq<bv32>)
    requires ValidPage(cb, pdw)
    ensures RowBits(cb) >= 8 && |pdw| == 4 * Pow2(RowBits(cb) - 2) && |pdw| % 8 == 0 && |pdw| <= 2048
  {
    PageBits(cb, pdw);
  }

  lemma SlowlyEccCorrect(blocks: bv32, p0: bv32, p1: bv32, p2: bv32, p3: bv32, cb: bv32)
    requires PageSize(cb) && And(blocks, BlockMask(cb, 2)) == blocks
    ensures var r2 := Xor(Xor(p0, p2), Xor(p1, p3));
            var p := Packed(7, blocks, Odd(r2));
            var p' := WithWordBits(p, ParityMask(Xor(p0, p1)), ParityMask(Xor(p2, p3)), ParityMask(Xor(p0, p2)),
                                   ParityMask(Xor(p1, p3)));
            && XorAll([p0, p1, p2, p3]) == r2
            && SlowlyEcc(p', Packed(0, Col(r2), Odd(r2)), cb)
               == Comb(Xor(Xor(Shl(7, blocks), Shl(5, RowXor([p0, p1, p2, p3]))), Col(r2)), Odd(r2), PositionMask(cb))
  {
    hide *;
    var r2 := Xor(Xor(p0, p2), Xor(p1, p3));
    XorAllFour(p0, p1, p2, p3);
    XorSwap(p0, p2, p1, p3);
    XorAssoc(Xor(p0, p1), p2, p3);
    OddFour(p0, p1, p2, p3);
    ColFits(r2);
    MaskedColumns(Col(r2));
    ParityMaskCorrect(Xor(p0, p1));
    ParityMaskCorrect(Xor(p2, p3));
    ParityMaskCorrect(Xor(p0, p2));
    ParityMaskCorrect(Xor(p1, p3));
    OddXor(p0, p1);
    OddXor(p2, p3);
    SlowlyCode(blocks, p0, p1, p2, p3, cb, Odd(r2), Col(r2));
  }

  lemma PageChecksumDef(pdw: seq<bv32>, cb: bv32, pgno: bv32, fHeaderBlock: bool)
    requires ValidPage(cb, pdw) && |pdw| >= 2
    ensures var words := Covered(pdw, fHeaderBlock);
            var ecc := EccOf(words, PositionMask(cb));
            PageChecksum(pdw, cb, pgno, fHeaderBlock) == MakeChecksumFromECCXORAndPgno(ecc, XorAll(words), pgno)
  {}

  /** What the accumulators hold at the end of the pass determines the checksum. */
  lemma SlowlyResult(pdw: seq<bv32>, cb: bv32, pgno: bv32, fHeaderBlock: bool, k: nat,
                     p0: bv32, p1: bv32, p2: bv32, p3: bv32, p: bv32, idx: bv32)
    requires ValidPage(cb, pdw) && |pdw| >= 2 && RowBits(cb) >= 2
    requires |pdw| == 4 * k && PassOver(Covered(pdw, fHeaderBlock), 2, 7, k, [p0, p1, p2, p3], p, idx, RowBits(cb) - 2)
    ensures var r2 := Xor(Xor(p0, p2), Xor(p1, p3));
            var p' := WithWordBits(p, ParityMask(Xor(p0, p1)), ParityMask(Xor(p2, p3)), ParityMask(Xor(p0, p2)),
                                   ParityMask(Xor(p1, p3)));
            var ecc := SlowlyEcc(p', Packed(0, Col(r2), Odd(r2)), cb);
            MakeChecksumFromECCXORAndPgno(ecc, r2, pgno) == PageChecksum(pdw, cb, pgno, fHeaderBlock)
  {
    hide *;
    var words := Covered(pdw, fHeaderBlock);
    var acc := [p0, p1, p2, p3];
    PageSizeOf(cb, pdw);
    CoveredAt(pdw, fHeaderBlock, cb);
    IndexStepBlocks();
    var blocks := PassEnd(words, 2, 7, k, acc, p, idx, RowBits(cb) - 2);
    PageChecksumDef(pdw, cb, pgno, fHeaderBlock);
    CodeFromBlocks(words, cb, 2, blocks, acc);
    MaskedBlocks(cb, blocks, 2);
    SlowlyEccCorrect(blocks, p0, p1, p2, p3, cb);
  }

  method ChecksumNewFormatSlowly(pdw: seq<bv32>, cb: bv32, pgno: bv32, fHeaderBlock: bool) returns (checksum: bv64)
    requires ValidPage(cb, pdw)
    ensures checksum == PageChecksum(pdw, cb, pgno, fHeaderBlock)
  {
    hide *;
    CoveredAt(pdw, fHeaderBlock, cb);
    RowsOfBlocks(cb, pdw);
    ghost var words, bits := Covered(pdw, fHeaderBlock), RowBits(cb) - 2;
    var cdw := |pdw|;
    var p: bv32 := 0;
    var p0: bv32, p1: bv32, p2: bv32, p3: bv32 := 0, 0, 0, 0;
    var idxp: bv32 := 0xff80_0000;
    var i := 0;
    ghost var k := 0;
    ZeroAccumulator();
    IndexStepBlocks();
    PassStart(words, 2, 7, [p0, p1, p2, p3], idxp, 0xff80_0080, bits);
    while i < cdw
      invariant i == 4 * k <= cdw && k % 2 == 0
      invariant PassOver(words, 2, 7, k, [p0, p1, p2, p3], p, idxp, bits)
    {
      var pT0, pT1 := 0, 0;
      if !(fHeaderBlock && i == 0) {
        pT0 := pdw[i];
        pT1 := pdw[i + 1];
      }
      var pT2, pT3 := pdw[i + 2], pdw[i + 3];
      FourWordStep(words, k, p0, p1, p2, p3, p, idxp, pT0, pT1, pT2, pT3, bits);
      p0 := Xor(p0, pT0);
      p1 := Xor(p1, pT1);
      p2 := Xor(p2, pT2);
      p3 := Xor(p3, pT3);
      p := Xor(p, And(idxp, ParityMask(Xor(Xor(Xor(pT0, pT1), pT2), pT3))));
      idxp := Add(idxp, 0xff80_0080);

      var pT4, pT5, pT6, pT7 := pdw[i + 4], pdw[i + 5], pdw[i + 6], pdw[i + 7];
      FourWordStep(words, k + 1, p0, p1, p2, p3, p, idxp, pT4, pT5, pT6, pT7, bits);
      p0 := Xor(p0, pT4);
      p1 := Xor(p1, pT5);
      p2 := Xor(p2, pT6);
      p3 := Xor(p3, pT7);
      p := Xor(p, And(idxp, ParityMask(Xor(Xor(Xor(pT4, pT5), pT6), pT7))));
      idxp := Add(idxp, 0xff80_0080);
      i := i + 8;
      k := k + 2;
    }
    SlowlyResult(pdw, cb, pgno, fHeaderBlock, k, p0, p1, p2, p3, p, idxp);
    p := WithWordBits(p, ParityMask(Xor(p0, p1)), ParityMask(Xor(p2, p3)), ParityMask(Xor(p0, p2)),
                      ParityMask(Xor(p1, p3)));
    var r2 := Xor(Xor(p0, p2), Xor(p1, p3));
    var r := ColumnCode(r2);
    checksum := MakeChecksumFromECCXORAndPgno(SlowlyEcc(p, r, cb), r2, pgno);
  }

  // ----- one word at a time: ChecksumNewFormat64Bit -----

  function Lsh21(w: bv32): bv32 { w << 21 }

  /** Rows and columns, each with its complement, put in their places. */
  function RowColumnEcc(p: bv32, q: bv32, r: bv32, s: bv32, cb: bv32): bv32 {
    var rowMask := BlockMask(cb, 0);
    Or(Or(Or(Lsh21(And(q, rowMask)), Hi(And(s, 31))), Lsh5(And(p, rowMask))), And(r, 31))
  }

  lemma RowField(p: bv32, odd: bool, cb: bv32)
    requires PageSize(cb) && And(p, BlockMask(cb, 0)) == p
    ensures Or(Lsh21(And(Xor(p, MaskOf(odd)), BlockMask(cb, 0))), Lsh5(And(p, BlockMask(cb, 0))))
         == Comb(Lsh5(p), odd, UpperMask(cb, 0x1f))
    ensures And(Comb(Lsh5(p), odd, UpperMask(cb, 0x1f)), 0xffe0_ffe0) == Comb(Lsh5(p), odd, UpperMask(cb, 0x1f))
  {}

  lemma ColumnPair(c: bv32, odd: bool)
    requires And(c, 0x1f) == c
    ensures Or(Hi(And(Xor(c, MaskOf(odd)), 31)), And(c, 31)) == Comb(c, odd, 0x1f)
    ensures And(Comb(c, odd, 0x1f), 0x001f_001f) == Comb(c, odd, 0x1f)
  {}

  lemma DisjointOr(u: bv32, v: bv32)
    ensures Or(And(u, 0xffe0_ffe0), And(v, 0x001f_001f)) == Xor(And(u, 0xffe0_ffe0), And(v, 0x001f_001f))
  {}

  lemma OrComm(a: bv32, b: bv32)
    ensures Or(a, b) == Or(b, a)
  {}

  lemma RowColumnEccDef(p: bv32, q: bv32, r: bv32, s: bv32, cb: bv32)
    ensures RowColumnEcc(p, q, r, s, cb)
         == Or(Or(Or(Lsh21(And(q, BlockMask(cb, 0))), Hi(And(s, 31))), Lsh5(And(p, BlockMask(cb, 0)))), And(r, 31))
  {}

  lemma RowMaskParts(cb: bv32)
    requires PageSize(cb)
    ensures Xor(UpperMask(cb, 0x1f), 0x1f) == PositionMask(cb)
  {}

  lemma RowColumnCode(p: bv32, c: bv32, odd: bool, cb: bv32)
    requires PageSize(cb) && And(p, BlockMask(cb, 0)) == p && And(c, 0x1f) == c
    ensures RowColumnEcc(p, Xor(p, MaskOf(odd)), c, Xor(c, MaskOf(odd)), cb)
         == Comb(Xor(Shl(5, p), c), odd, PositionMask(cb))
  {
    hide *;
    var rowMask := BlockMask(cb, 0);
    var q, s := Xor(p, MaskOf(odd)), Xor(c, MaskOf(odd));
    var a, b, d, e := Lsh21(And(q, rowMask)), Hi(And(s, 31)), Lsh5(And(p, rowMask)), And(c, 31);
    RowColumnEccDef(p, q, c, s, cb);
    OrAssoc(a, b, d);
    OrComm(b, d);
    OrAssoc(a, d, b);
    OrAssoc(Or(a, d), b, e);
    RowField(p, odd, cb);
    ColumnPair(c, odd);
    DisjointOr(Comb(Lsh5(p), odd, UpperMask(cb, 0x1f)), Comb(c, odd, 0x1f));
    ShlBy5(p);
    CombFields(Lsh5(p), c, odd, UpperMask(cb, 0x1f), 0x1f);
    RowMaskParts(cb);
  }

  lemma NotIsXor(x: bv32)
    ensures Not(x) == Xor(x, 0xffff_ffff)
  {}

  /** Adding an index and its complement to a pair of accumulators. */
  lemma ComplementStep(p: bv32, odd: bool, o: bool, x: bv32)
    ensures Xor(Xor(p, MaskOf(odd)), And(MaskOf(o), Not(x))) == Xor(Xor(p, And(MaskOf(o), x)), MaskOf(odd != o))
  {
    hide *;
    AndComm(MaskOf(o), x);
    AndComm(MaskOf(o), Not(x));
    AndMask(x, o);
    AndMask(Not(x), o);
    NotIsXor(x);
    SelOfXor(o, x, 0xffff_ffff);
    SelDef(o, 0xffff_ffff);
    MaskDef(o);
    MaskXor(odd, o);
    XorSwap(p, MaskOf(odd), Sel(o, x), MaskOf(o));
  }

  lemma RowsStart(words: seq<bv32>, lo: nat)
    requires lo <= |words| && lo <= 2 && forall i :: 0 <= i < lo ==> words[i] == 0
    ensures RowXor(words[..lo]) == 0 && XorAll(words[..lo]) == 0
    decreases lo
  {
    hide *;
    var s := words[..lo];
    if lo == 0 {
      RowNothing(s);
    } else {
      assert s[..lo - 1] == words[..lo - 1];
      RowsStart(words, lo - 1);
      PageStep(s, 0);
      OddZero(32);
      OddDef(0);
      SelDef(false, Num(lo - 1));
      XorZero(0);
    }
  }

  /** One row of the pass. */
  lemma RowStep(words: seq<bv32>, i: nat)
    requires i < |words|
    ensures RowXor(words[..i + 1]) == Xor(RowXor(words[..i]), And(MaskOf(Odd(words[i])), Num(i)))
    ensures XorAll(words[..i + 1]) == Xor(XorAll(words[..i]), words[i])
    ensures Odd(XorAll(words[..i + 1])) == (Odd(XorAll(words[..i])) != Odd(words[i]))
  {
    hide *;
    var s := words[..i + 1];
    assert s[..i] == words[..i];
    PageStep(s, 0);
    AndMask(Num(i), Odd(words[i]));
    AndComm(Num(i), MaskOf(Odd(words[i])));
    OddXor(XorAll(words[..i]), words[i]);
  }

  /** The two column accumulators before column j, with the parity of the columns seen. */
  ghost predicate ColumnsSeen(dw: bv32, j: nat, r: bv32, s: bv32, odd: bool) {
    && j <= 32
    && Xor(r, WordPos(Shr(j, dw), j, 32 - j)) == Col(dw)
    && (odd != OddBits(Shr(j, dw), 32 - j)) == Odd(dw)
    && s == Xor(r, MaskOf(odd))
  }

  lemma ColumnsSeenDef(dw: bv32, j: nat, r: bv32, s: bv32, odd: bool)
    ensures ColumnsSeen(dw, j, r, s, odd)
        <==> && j <= 32
             && Xor(r, WordPos(Shr(j, dw), j, 32 - j)) == Col(dw)
             && (odd != OddBits(Shr(j, dw), 32 - j)) == Odd(dw)
             && s == Xor(r, MaskOf(odd))
  {
    hide Xor, WordPos, Shr, Col, OddBits, Odd, MaskOf;
  }

  lemma ColumnsSeenStart(dw: bv32)
    ensures ColumnsSeen(dw, 0, 0, 0, false)
  {
    hide *;
    ColumnsSeenDef(dw, 0, 0, 0, false);
    ShrZero(dw);
    ColDef(dw);
    OddDef(dw);
    XorZero(Col(dw));
    XorZero(0);
    MaskDef(false);
  }

  lemma ColumnsSeenStep(dw: bv32, j: nat, r: bv32, s: bv32, odd: bool)
    requires j < 32 && ColumnsSeen(dw, j, r, s, odd)
    ensures var mask := MaskOf(And(dw, Shl(j, 1)) != 0);
            ColumnsSeen(dw, j + 1, Xor(r, And(mask, Num(j))), Xor(s, And(mask, Not(Num(j)))), odd != Low(Shr(j, dw)))
  {
    hide *;
    var w, o := Shr(j, dw), Low(Shr(j, dw));
    var mask := MaskOf(o);
    BitTest(dw, j);
    ColumnsSeenDef(dw, j, r, s, odd);
    ColumnsSeenDef(dw, j + 1, Xor(r, And(mask, Num(j))), Xor(s, And(mask, Not(Num(j)))), odd != o);
    ShrNext(j, dw);
    WordStep(w, j, 32 - j, 0);
    OddStep(w, 32 - j);
    AndMask(Num(j), o);
    AndComm(Num(j), mask);
    XorAssoc(r, Sel(o, Num(j)), WordPos(Half(w), j + 1, 31 - j));
    ComplementStep(r, odd, o, Num(j));
  }

  lemma ColumnsSeenAll(dw: bv32, r: bv32, s: bv32, odd: bool)
    requires ColumnsSeen(dw, 32, r, s, odd)
    ensures r == Col(dw) && s == Xor(Col(dw), MaskOf(Odd(dw)))
  {
    hide *;
    ColumnsSeenDef(dw, 32, r, s, odd);
    WordZero(Shr(32, dw), 32, 0);
    OddNone(Shr(32, dw));
    XorZero(r);
  }

  /** Column numbers and complements of the set bits, in two accumulators. */
  method ColumnPairs(dwColumnParity: bv32) returns (r: bv32, s: bv32)
    ensures r == Col(dwColumnParity) && s == Xor(Col(dwColumnParity), MaskOf(Odd(dwColumnParity)))
  {
    hide *;
    r, s := 0, 0;
    ghost var odd := false;
    var iColumn := 0;
    ColumnsSeenStart(dwColumnParity);
    while iColumn < 32
      invariant iColumn <= 32 && ColumnsSeen(dwColumnParity, iColumn, r, s, odd)
    {
      var maskColumn := MaskOf(And(dwColumnParity, Shl(iColumn, 1)) != 0);
      ColumnsSeenStep(dwColumnParity, iColumn, r, s, odd);
      odd := odd != Low(Shr(iColumn, dwColumnParity));
      r := Xor(r, And(maskColumn, Num(iColumn)));
      s := Xor(s, And(maskColumn, Not(Num(iColumn))));
      iColumn := iColumn + 1;
    }
    ColumnsSeenAll(dwColumnParity, r, s, odd);
  }

  lemma RowColumnResult(pdw: seq<bv32>, cb: bv32, pgno: bv32, fHeaderBlock: bool)
    requires ValidPage(cb, pdw) && |pdw| >= 2
    ensures var words := Covered(pdw, fHeaderBlock);
            var p, c := RowXor(words), XorAll(words);
            var ecc := RowColumnEcc(p, Xor(p, MaskOf(Odd(c))), Col(c), Xor(Col(c), MaskOf(Odd(c))), cb);
            MakeChecksumFromECCXORAndPgno(ecc, c, pgno) == PageChecksum(pdw, cb, pgno, fHeaderBlock)
  {
    hide *;
    var words := Covered(pdw, fHeaderBlock);
    var p, c := RowXor(words), XorAll(words);
    CoveredAt(pdw, fHeaderBlock, cb);
    PageSizeOf(cb, pdw);
    PageBits(cb, words);
    PageChecksumDef(pdw, cb, pgno, fHeaderBlock);
    EccRowColumn(words, RowBits(cb) + 5);
    RowXorFits(words, RowBits(cb));
    MaskedBlocks(cb, p, 0);
    ColFits(c);
    MaskedColumns(Col(c));
    RowColumnCode(p, Col(c), Odd(c), cb);
  }

  method ChecksumNewFormat64Bit(rgdwRow: seq<bv32>, cb: bv32, pgno: bv32, fHeaderBlock: bool) returns (checksum: bv64)
    requires ValidPage(cb, rgdwRow)
    ensures checksum == PageChecksum(rgdwRow, cb, pgno, fHeaderBlock)
  {
    hide *;
    CoveredAt(rgdwRow, fHeaderBlock, cb);
    ghost var words := Covered(rgdwRow, fHeaderBlock);
    var cRow := |rgdwRow|;
    var dwColumnParity: bv32, p: bv32, q: bv32 := 0, 0, 0;
    var iRow := if fHeaderBlock then 2 else 0;
    RowsStart(words, iRow);
    OddZero(32);
    OddDef(0);
    MaskDef(false);
    XorZero(0);
    while iRow < cRow
      invariant iRow <= cRow && (fHeaderBlock ==> iRow >= 2)
      invariant p == RowXor(words[..iRow]) && dwColumnParity == XorAll(words[..iRow])
      invariant q == Xor(p, MaskOf(Odd(dwColumnParity)))
    {
      var dwRow := rgdwRow[iRow];
      var maskRow := ParityMask(dwRow);
      ParityMaskCorrect(dwRow);
      RowStep(words, iRow);
      ComplementStep(p, Odd(dwColumnParity), Odd(dwRow), Num(iRow));
      dwColumnParity := Xor(dwColumnParity, dwRow);
      p := Xor(p, And(maskRow, Num(iRow)));
      q := Xor(q, And(maskRow, Not(Num(iRow))));
      iRow := iRow + 1;
    }
    assert words[..iRow] == words;
    var r, s := ColumnPairs(dwColumnParity);
    RowColumnResult(rgdwRow, cb, pgno, fHeaderBlock);
    checksum := MakeChecksumFromECCXORAndPgno(RowColumnEcc(p, q, r, s, cb), dwColumnParity, pgno);
  }
}
