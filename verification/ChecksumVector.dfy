/** The page checksum over vector registers: SSE2, with table or population-count
    parity, and AVX. */
module ChecksumVector {
  import opened Bits
  import opened PageEcc
  import opened Parity
  import opened ChecksumPass
  import opened ChecksumScalar

  datatype ChecksumParityMaskFunc = ParityMaskFuncDefault | ParityMaskFuncPopcnt

  // ----- column code by bytes -----

  function Lsh12(w: bv32): bv32 { w << 12 }

  /** Parity mask of the low byte. */
  function ByteParity(func: ChecksumParityMaskFunc, byteT: bv32): bv32 {
    match func
    case ParityMaskFuncPopcnt => ParityMaskPopcnt(And(byteT, 0xff))
    case ParityMaskFuncDefault => ParityTable(byteT)
  }

  lemma ByteParityDef(func: ChecksumParityMaskFunc, byteT: bv32)
    ensures ByteParity(func, byteT)
         == if func.ParityMaskFuncPopcnt? then ParityMaskPopcnt(And(byteT, 0xff)) else ParityTable(byteT)
  {}

  lemma LowByteParity(x: bv32)
    ensures OddByte(And(x, 0xff)) == OddByte(x)
  {}

  lemma NothingAbove(x: bv32)
    ensures Down8(And(x, 0xff)) == 0
  {}

  lemma LowByteOnly(x: bv32)
    ensures OddByte(And(x, 0xff)) == OddByte(x)
    ensures Shr(8, And(x, 0xff)) == 0
  {
    hide *;
    LowByteParity(x);
    ShrEight(And(x, 0xff));
    NothingAbove(x);
  }

  lemma ByteParityCorrect(func: ChecksumParityMaskFunc, byteT: bv32)
    ensures ByteParity(func, byteT) == MaskOf(OddBits(byteT, 8))
  {
    hide *;
    ByteParityDef(func, byteT);
    OddBitsByte(byteT);
    if func.ParityMaskFuncDefault? {
      ParityTableByte(byteT);
    } else {
      var low := And(byteT, 0xff);
      ParityMaskPopcntCorrect(low);
      OddDef(low);
      OddBitsSplit(low, 8, 24);
      OddBitsByte(low);
      LowByteOnly(byteT);
      OddZero(24);
    }
  }

  /** The xor of the numbers of the set bits of the low byte, written out. */
  function BytePos(x: bv32): bv32 {
    (if (Low(x >> 1) != Low(x >> 3)) != (Low(x >> 5) != Low(x >> 7)) then 1 else 0)
    | (if (Low(x >> 2) != Low(x >> 3)) != (Low(x >> 6) != Low(x >> 7)) then 2 else 0)
    | (if (Low(x >> 4) != Low(x >> 5)) != (Low(x >> 6) != Low(x >> 7)) then 4 else 0)
  }

  /** A table entry: the xor of bit numbers in the low nibble, of their complements in the high. */
  function EccEntry(pos: bv32, odd: bool): bv32 { pos | ((pos ^ (if odd then 7 else 0)) << 4) }

  lemma EccTableQuarter0(x: bv32)
    requires (x >> 6) & 3 == 0
    ensures EccTable(x) == EccEntry(BytePos(x), OddByte(x))
  {}

  lemma EccTableQuarter1(x: bv32)
    requires (x >> 6) & 3 == 1
    ensures EccTable(x) == EccEntry(BytePos(x), OddByte(x))
  {}

  lemma EccTableQuarter2(x: bv32)
    requires (x >> 6) & 3 == 2
    ensures EccTable(x) == EccEntry(BytePos(x), OddByte(x))
  {}

  lemma EccTableQuarter3(x: bv32)
    requires (x >> 6) & 3 == 3
    ensures EccTable(x) == EccEntry(BytePos(x), OddByte(x))
  {}

  /** Every entry of the lookup table. */
  lemma EccTableCorrect(x: bv32)
    ensures EccTable(x) == EccEntry(BytePos(x), OddByte(x))
  {
    hide *;
    var q := (x >> 6) & 3;
    if q == 0 {
      EccTableQuarter0(x);
    } else if q == 1 {
      EccTableQuarter1(x);
    } else if q == 2 {
      EccTableQuarter2(x);
    } else {
      EccTableQuarter3(x);
    }
  }

  lemma BytePosSmall(x: bv32)
    ensures BytePos(x) <= 7
  {}

  lemma MergeEntry(pos: bv32, odd: bool)
    requires pos <= 7
    ensures Or(And(EccEntry(pos, odd), 7), And(Lsh12(EccEntry(pos, odd)), 0x0007_0000)) == Comb(pos, odd, 7)
    ensures And(Comb(pos, odd, 7), 0xfff8_fff8) == 0
  {}

  lemma NumSeven()
    ensures Num(0) == 0 && Num(1) == 1 && Num(2) == 2 && Num(3) == 3
    ensures Num(4) == 4 && Num(5) == 5 && Num(6) == 6 && Num(7) == 7
  {}

  lemma ByteFold(x: bv32)
    ensures var h0 := x;
            var h1 := Half(h0);
            var h2 := Half(h1);
            var h3 := Half(h2);
            var h4 := Half(h3);
            var h5 := Half(h4);
            var h6 := Half(h5);
            var h7 := Half(h6);
            Xor(Sel(Low(h0), 0), Xor(Sel(Low(h1), 1), Xor(Sel(Low(h2), 2), Xor(Sel(Low(h3), 3),
              Xor(Sel(Low(h4), 4), Xor(Sel(Low(h5), 5), Xor(Sel(Low(h6), 6), Xor(Sel(Low(h7), 7), 0))))))))
            == BytePos(x)
  {}

  lemma WordPosByte(x: bv32)
    ensures WordPos(x, 0, 8) == BytePos(x)
  {
    hide *;
    var h0 := x;
    var h1 := Half(h0);
    var h2 := Half(h1);
    var h3 := Half(h2);
    var h4 := Half(h3);
    var h5 := Half(h4);
    var h6 := Half(h5);
    var h7 := Half(h6);
    WordStep(h0, 0, 8, 0);
    WordStep(h1, 1, 7, 0);
    WordStep(h2, 2, 6, 0);
    WordStep(h3, 3, 5, 0);
    WordStep(h4, 4, 4, 0);
    WordStep(h5, 5, 3, 0);
    WordStep(h6, 6, 2, 0);
    WordStep(h7, 7, 1, 0);
    WordZero(Half(h7), 8, 0);
    NumSeven();
    ByteFold(x);
  }

  /** After i bytes: the positions seen so far, from the xor of the numbers of the odd bytes
      and from the xor of the bytes. */
  ghost predicate BytesSeen(dw: bv32, i: nat, rows: bv32, byte0: bv32, r: bv32, idx: bv32) {
    && WordPos(dw, 0, 8 * i) == Xor(Shl(3, rows), WordPos(byte0, 0, 8))
    && OddBits(dw, 8 * i) == OddBits(byte0, 8)
    && r == Packed(3, rows, OddBits(dw, 8 * i))
    && idx == Packed(3, Num(i), true)
    && Fits(rows, 2)
  }

  lemma BytesSeenDef(dw: bv32, i: nat, rows: bv32, byte0: bv32, r: bv32, idx: bv32)
    ensures BytesSeen(dw, i, rows, byte0, r, idx)
        <==> && WordPos(dw, 0, 8 * i) == Xor(Shl(3, rows), WordPos(byte0, 0, 8))
             && OddBits(dw, 8 * i) == OddBits(byte0, 8)
             && r == Packed(3, rows, OddBits(dw, 8 * i))
             && idx == Packed(3, Num(i), true)
             && Fits(rows, 2)
  {
    hide WordPos, Xor, Shl, OddBits, Packed, Num, Fits;
  }

  lemma IndexStepBytes()
    ensures IndexStep(3, 0xfff8_0000, 0xfff8_0008)
    ensures Pow2(2) == 4 && Pow2(3) == 8
  {}

  lemma BytesSeenStart(dw: bv32)
    ensures BytesSeen(dw, 0, 0, 0, 0, 0xfff8_0000)
  {
    hide *;
    BytesSeenDef(dw, 0, 0, 0, 0, 0xfff8_0000);
    IndexStepBytes();
    IndexWord(3, 0xfff8_0000, 0xfff8_0008, 0);
    WordZero(dw, 0, 0);
    ShlOfZero(3);
    ColZero(8, 0);
    XorZero(0);
    OddNone(dw);
    OddZero(8);
    PackedDef(3, 0, false);
    CombNothing(ALL);
    FitsZero(2);
  }

  lemma BytesSeenStep(dw: bv32, i: nat, rows: bv32, byte0: bv32, r: bv32, idx: bv32)
    requires i < 4 && BytesSeen(dw, i, rows, byte0, r, idx)
    ensures var b := Shr(8 * i, dw);
            var o := OddBits(b, 8);
            BytesSeen(dw, i + 1, Xor(rows, Sel(o, Num(i))), Xor(byte0, b), Xor(r, And(idx, MaskOf(o))),
                      Add(idx, 0xfff8_0008))
  {
    hide *;
    var b := Shr(8 * i, dw);
    var o := OddBits(b, 8);
    var odd := OddBits(dw, 8 * i);
    BytesSeenDef(dw, i, rows, byte0, r, idx);
    BytesSeenDef(dw, i + 1, Xor(rows, Sel(o, Num(i))), Xor(byte0, b), Xor(r, And(idx, MaskOf(o))),
                 Add(idx, 0xfff8_0008));
    IndexStepBytes();
    IndexWord(3, 0xfff8_0000, 0xfff8_0008, i);
    BlocksFit(rows, o, i, 2);
    AndMask(idx, o);
    PackedSel(3, o, Num(i));
    PackedXor(3, rows, odd, Sel(o, Num(i)), o);
    OddBitsSplit(dw, 8 * i, 8);
    OddBitsXor(byte0, b, 8);
    WordPosSplit(dw, 0, 8 * i, 8);
    assert i * Pow2(3) + 0 == 8 * i;
    WordPosAligned(b, i, 3, 0, 8);
    WordPosXor(byte0, b, 0, 8);
    ShlXor(3, rows, Sel(o, Num(i)));
    ShlSel(3, o, Num(i));
    XorSwap(Shl(3, rows), WordPos(byte0, 0, 8), Sel(o, Shl(3, Num(i))), WordPos(b, 0, 8));
  }

  lemma SplitByteBits(r: bv32, b: bv32)
    requires And(r, 0x0007_0007) == 0 && And(b, 0xfff8_fff8) == 0
    ensures And(Or(r, b), 0x001f_001f) == Xor(And(r, 0x0018_0018), b)
  {}

  lemma ByteField(rows: bv32, odd: bool)
    requires And(rows, 3) == rows
    ensures And(Lsh3(Comb(rows, odd, ALL)), 0x0018_0018) == Comb(Lsh3(rows), odd, 0x18)
    ensures And(Lsh3(Comb(rows, odd, ALL)), 0x0007_0007) == 0
  {}

  lemma ByteMasks()
    ensures Xor(0x18, 7) == 0x1f && Ones(2) == 3
  {}

  /** The byte loop and the table lookup yield the column field of the code. */
  lemma BytesCode(dw: bv32, rows: bv32, byte0: bv32, r: bv32, idx: bv32)
    requires BytesSeen(dw, 4, rows, byte0, r, idx)
    ensures var bits := EccTable(byte0);
            And(Or(Or(r, And(bits, 7)), And(Lsh12(bits), 0x0007_0000)), 0x001f_001f) == Comb(Col(dw), Odd(dw), 0x1f)
  {
    hide *;
    var bits, odd, pos := EccTable(byte0), Odd(dw), BytePos(byte0);
    BytesSeenDef(dw, 4, rows, byte0, r, idx);
    ColDef(dw);
    OddDef(dw);
    WordPosByte(byte0);
    OddBitsByte(byte0);
    EccTableCorrect(byte0);
    BytePosSmall(byte0);
    MergeEntry(pos, odd);
    OrAssoc(r, And(bits, 7), And(Lsh12(bits), 0x0007_0000));
    PackedDef(3, rows, odd);
    ShlBy3(Comb(rows, odd, ALL));
    ShlBy3(rows);
    FitsOnes(rows, 2);
    ByteMasks();
    ByteField(rows, odd);
    SplitByteBits(r, Comb(pos, odd, 7));
    CombFields(Lsh3(rows), pos, odd, 0x18, 7);
  }

  lemma {:induction false} ShrMore(a: nat, b: nat, w: bv32)
    ensures Shr(a + b, w) == Shr(b, Shr(a, w))
    decreases a
  {
    hide *;
    if a == 0 {
      ShrZero(w);
    } else {
      ShrStep(a + b, w);
      ShrStep(a, w);
      ShrMore(a - 1, b, Half(w));
    }
  }

  method ByteCode(func: ChecksumParityMaskFunc, dw0: bv32) returns (r: bv32)
    ensures And(r, 0x001f_001f) == Comb(Col(dw0), Odd(dw0), 0x1f)
  {
    hide *;
    r := 0;
    var byteT, byte0: bv32 := dw0, 0;
    var idxr: bv32 := 0xfff8_0000;
    ghost var rows: bv32 := 0;
    var i := 0;
    BytesSeenStart(dw0);
    ShrZero(dw0);
    while i < 4
      invariant i <= 4 && byteT == Shr(8 * i, dw0) && BytesSeen(dw0, i, rows, byte0, r, idxr)
    {
      BytesSeenStep(dw0, i, rows, byte0, r, idxr);
      ByteParityCorrect(func, byteT);
      rows := Xor(rows, Sel(OddBits(byteT, 8), Num(i)));
      r := Xor(r, And(idxr, ByteParity(func, byteT)));
      byte0 := Xor(byte0, byteT);
      ShrMore(8 * i, 8, dw0);
      byteT := Shr(8, byteT);
      idxr := Add(idxr, 0xfff8_0008);
      i := i + 1;
    }
    var bits := EccTable(byte0);
    BytesCode(dw0, rows, byte0, r, idxr);
    r := Or(r, And(bits, 7));
    r := Or(r, And(Lsh12(bits), 0x0007_0000));
  }

  // ----- word code of a small array -----

  function WordParity(func: ChecksumParityMaskFunc, dw: bv32): bv32 {
    match func
    case ParityMaskFuncPopcnt => ParityMaskPopcnt(dw)
    case ParityMaskFuncDefault => ParityMask(dw)
  }

  lemma WordParityDef(func: ChecksumParityMaskFunc, dw: bv32)
    ensures WordParity(func, dw) == if func.ParityMaskFuncPopcnt? then ParityMaskPopcnt(dw) else ParityMask(dw)
  {}

  lemma WordParityCorrect(func: ChecksumParityMaskFunc, dw: bv32)
    ensures WordParity(func, dw) == MaskOf(Odd(dw))
  {
    hide *;
    WordParityDef(func, dw);
    ParityMaskCorrect(dw);
    ParityMaskPopcntCorrect(dw);
  }

  lemma OneWord(x: bv32)
    ensures RowXor([x]) == 0 && XorAll([x]) == x
  {
    hide *;
    assert [x][..0] == [];
    PageStep([x], 0);
    RowNothing([]);
    NumSmall();
    SelDef(Odd(x), 0);
    XorZero(0);
    XorZero(x);
  }

  lemma ZipOne(a: bv32, t: bv32)
    ensures Zip([a], [t]) == [Xor(a, t)]
  {
    hide Xor;
  }

  lemma IndexStepWords()
    ensures IndexStep(5, 0xffe0_0000, 0xffe0_0020) && IndexStep(8, 0xff00_0000, 0xff00_0100)
    ensures Pow2(0) == 1 && Pow2(2) == 4 && Pow2(3) == 8 && Pow2(4) == 16
  {}

  /** One word of a pass over single words. */
  lemma WordStepPass(words: seq<bv32>, s: nat, k: nat, a: bv32, q: bv32, idx: bv32, bits: nat, start: bv32, step: bv32)
    requires PassOver(words, 0, s, k, [a], q, idx, bits)
    requires IndexStep(s, start, step) && k < 1024 && k < Pow2(bits) && k < |words|
    ensures PassOver(words, 0, s, k + 1, [Xor(a, words[k])], Xor(q, And(idx, MaskOf(Odd(words[k])))),
                     Add(idx, step), bits)
  {
    hide *;
    IndexStepWords();
    var t := [words[k]];
    assert words[k * Pow2(0)..k * Pow2(0) + Pow2(0)] == t;
    PassStep(words, 0, s, k, [a], q, idx, bits, t, start, step);
    OneWord(words[k]);
    ZipOne(a, words[k]);
  }

  lemma WordEndPass(words: seq<bv32>, s: nat, a: bv32, q: bv32, idx: bv32, bits: nat)
    requires PassOver(words, 0, s, |words|, [a], q, idx, bits)
    ensures a == XorAll(words) && q == Packed(s, RowXor(words), Odd(XorAll(words)))
    ensures Fits(RowXor(words), bits)
  {
    hide *;
    IndexStepWords();
    var blocks := PassEnd(words, 0, s, |words|, [a], q, idx, bits);
    BlockDef(words, 0, blocks, [a]);
    OneWord(a);
    ShlZero(blocks);
    XorZero(blocks);
  }

  /** The second loop: numbers and complements of the words of odd parity, and the xor of all. */
  method WordCode(func: ChecksumParityMaskFunc, pdw: seq<bv32>) returns (dw0: bv32, q: bv32)
    requires |pdw| <= 16
    ensures dw0 == XorAll(pdw) && q == Packed(5, RowXor(pdw), Odd(XorAll(pdw)))
  {
    hide *;
    dw0, q := 0, 0;
    var idxq: bv32 := 0xffe0_0000;
    var i := 0;
    IndexStepWords();
    OneWord(0);
    PassStart(pdw, 0, 5, [dw0], idxq, 0xffe0_0020, 4);
    while i < |pdw|
      invariant i <= |pdw| && PassOver(pdw, 0, 5, i, [dw0], q, idxq, 4)
    {
      var dwT := pdw[i];
      WordParityCorrect(func, dwT);
      WordStepPass(pdw, 5, i, dw0, q, idxq, 4, 0xffe0_0000, 0xffe0_0020);
      dw0 := Xor(dw0, dwT);
      q := Xor(q, And(idxq, WordParity(func, dwT)));
      idxq := Add(idxq, 0xffe0_0020);
      i := i + 1;
    }
    WordEndPass(pdw, 5, dw0, q, idxq, 4);
  }

  // ----- SSE2 -----

  function Load128(pdw: seq<bv32>, i: nat): M128
    requires 4 * i + 4 <= |pdw|
  {
    M128(pdw[4 * i], pdw[4 * i + 1], pdw[4 * i + 2], pdw[4 * i + 3])
  }

  /** Four registers as sixteen words. */
  function Quad(a: M128, b: M128, c: M128, d: M128): seq<bv32> { Lanes(a) + Lanes(b) + Lanes(c) + Lanes(d) }

  lemma QuadDef(a: M128, b: M128, c: M128, d: M128)
    ensures Quad(a, b, c, d) == Lanes(a) + Lanes(b) + Lanes(c) + Lanes(d) && |Quad(a, b, c, d)| == 16
  {}

  function Fold4(a: M128, b: M128, c: M128, d: M128): M128 { Xor128(Xor128(Xor128(a, b), c), d) }

  lemma Fold4Def(a: M128, b: M128, c: M128, d: M128)
    ensures Fold4(a, b, c, d) == Xor128(Xor128(Xor128(a, b), c), d)
  {
    hide Xor128;
  }

  lemma Fold4Correct(a: M128, b: M128, c: M128, d: M128)
    ensures XorAll(Lanes(Fold4(a, b, c, d))) == XorAll(Quad(a, b, c, d))
  {
    hide *;
    Fold4Def(a, b, c, d);
    QuadDef(a, b, c, d);
    Lanes128Xor(a, b);
    Lanes128Xor(Xor128(a, b), c);
    Lanes128Xor(Xor128(Xor128(a, b), c), d);
    ConcatXor(Lanes(a), Lanes(b));
    ConcatXor(Lanes(a) + Lanes(b), Lanes(c));
    ConcatXor(Lanes(a) + Lanes(b) + Lanes(c), Lanes(d));
  }

  lemma ZipConcat(s: seq<bv32>, t: seq<bv32>, s': seq<bv32>, t': seq<bv32>)
    requires |s| == |t| && |s'| == |t'|
    ensures Zip(s + s', t + t') == Zip(s, t) + Zip(s', t')
  {
    hide *;
  }

  lemma QuadZip(a: M128, b: M128, c: M128, d: M128, e: M128, f: M128, g: M128, h: M128)
    ensures |Quad(a, b, c, d)| == |Quad(e, f, g, h)| == 16
    ensures Zip(Quad(a, b, c, d), Quad(e, f, g, h)) == Quad(Xor128(a, e), Xor128(b, f), Xor128(c, g), Xor128(d, h))
  {
    hide *;
    QuadDef(a, b, c, d);
    QuadDef(e, f, g, h);
    QuadDef(Xor128(a, e), Xor128(b, f), Xor128(c, g), Xor128(d, h));
    Lanes128Zip(a, e);
    Lanes128Zip(b, f);
    Lanes128Zip(c, g);
    Lanes128Zip(d, h);
    ZipConcat(Lanes(a), Lanes(e), Lanes(b), Lanes(f));
    ZipConcat(Lanes(a) + Lanes(b), Lanes(e) + Lanes(f), Lanes(c), Lanes(g));
    ZipConcat(Lanes(a) + Lanes(b) + Lanes(c), Lanes(e) + Lanes(f) + Lanes(g), Lanes(d), Lanes(h));
  }

  function Parity128(func: ChecksumParityMaskFunc, dq: M128): bv32 {
    match func
    case ParityMaskFuncPopcnt => ParityMaskPopcnt128(dq)
    case ParityMaskFuncDefault => ParityMask128(dq)
  }

  lemma Parity128Def(func: ChecksumParityMaskFunc, dq: M128)
    ensures Parity128(func, dq) == if func.ParityMaskFuncPopcnt? then ParityMaskPopcnt128(dq) else ParityMask128(dq)
  {
    hide ParityMaskPopcnt128, ParityMask128;
  }

  lemma Parity128Correct(func: ChecksumParityMaskFunc, dq: M128)
    ensures Parity128(func, dq) == MaskOf(Odd(XorAll(Lanes(dq))))
  {
    hide *;
    Parity128Def(func, dq);
    ParityMask128Correct(dq);
  }

  lemma IndexStepQuads()
    ensures IndexStep(9, 0xfe00_0000, 0xfe00_0200) && Pow2(4) == 16
  {}

  /** A register read from the page, with the header's 8 bytes blanked. */
  function LoadCovered(pdw: seq<bv32>, i: nat, fHeaderBlock: bool): M128
    requires 4 * i + 4 <= |pdw|
  {
    if fHeaderBlock && i == 0 then BlankLowHalf(Load128(pdw, i)) else Load128(pdw, i)
  }

  lemma LanesOfPage(pdw: seq<bv32>, fHeaderBlock: bool, i: nat)
    requires |pdw| >= 2 && 4 * i + 4 <= |pdw|
    ensures Covered(pdw, fHeaderBlock)[4 * i..4 * i + 4] == Lanes(LoadCovered(pdw, i, fHeaderBlock))
    ensures i > 0 ==> LoadCovered(pdw, i, fHeaderBlock) == Load128(pdw, i)
  {}

  lemma Slices(w: seq<bv32>, i: nat)
    requires i + 16 <= |w|
    ensures w[i..i + 16] == w[i..i + 4] + w[i + 4..i + 8] + w[i + 8..i + 12] + w[i + 12..i + 16]
  {}

  lemma QuadOfPage(pdw: seq<bv32>, fHeaderBlock: bool, i: nat)
    requires |pdw| >= 2 && 4 * i + 16 <= |pdw|
    ensures |Covered(pdw, fHeaderBlock)| == |pdw|
    ensures Covered(pdw, fHeaderBlock)[4 * i..4 * i + 16]
         == Quad(LoadCovered(pdw, i, fHeaderBlock), Load128(pdw, i + 1), Load128(pdw, i + 2), Load128(pdw, i + 3))
  {
    hide *;
    var w := Covered(pdw, fHeaderBlock);
    LanesOfPage(pdw, fHeaderBlock, i);
    LanesOfPage(pdw, fHeaderBlock, i + 1);
    LanesOfPage(pdw, fHeaderBlock, i + 2);
    LanesOfPage(pdw, fHeaderBlock, i + 3);
    QuadDef(LoadCovered(pdw, i, fHeaderBlock), Load128(pdw, i + 1), Load128(pdw, i + 2), Load128(pdw, i + 3));
    Slices(w, 4 * i);
  }

  /** One block of sixteen words of the page. */
  lemma QuadStep(func: ChecksumParityMaskFunc, pdw: seq<bv32>, fHeaderBlock: bool, i: nat, k: nat,
                 a: M128, b: M128, c: M128, d: M128, p: bv32, idx: bv32, bits: nat)
    requires |pdw| >= 2 && i == 4 * k && 4 * i + 16 <= |pdw| && k < 1024 && k < Pow2(bits)
    requires PassOver(Covered(pdw, fHeaderBlock), 4, 9, k, Quad(a, b, c, d), p, idx, bits)
    ensures var e := LoadCovered(pdw, i, fHeaderBlock);
            var f, g, h := Load128(pdw, i + 1), Load128(pdw, i + 2), Load128(pdw, i + 3);
            PassOver(Covered(pdw, fHeaderBlock), 4, 9, k + 1,
                     Quad(Xor128(a, e), Xor128(b, f), Xor128(c, g), Xor128(d, h)),
                     Xor(p, And(idx, Parity128(func, Fold4(e, f, g, h)))), Add(idx, 0xfe00_0200), bits)
  {
    hide *;
    var e := LoadCovered(pdw, i, fHeaderBlock);
    var f, g, h := Load128(pdw, i + 1), Load128(pdw, i + 2), Load128(pdw, i + 3);
    IndexStepQuads();
    QuadOfPage(pdw, fHeaderBlock, i);
    QuadZip(a, b, c, d, e, f, g, h);
    PassStep(Covered(pdw, fHeaderBlock), 4, 9, k, Quad(a, b, c, d), p, idx, bits, Quad(e, f, g, h),
             0xfe00_0000, 0xfe00_0200);
    Fold4Correct(e, f, g, h);
    Parity128Correct(func, Fold4(e, f, g, h));
  }

  const Zero128: M128 := M128(0, 0, 0, 0)

  lemma ZeroQuad()
    ensures RowXor(Quad(Zero128, Zero128, Zero128, Zero128)) == 0
            && XorAll(Quad(Zero128, Zero128, Zero128, Zero128)) == 0
    ensures |Quad(Zero128, Zero128, Zero128, Zero128)| == 16
  {
    ZeroWords(Quad(Zero128, Zero128, Zero128, Zero128));
  }

  /** The three fields of the code. */
  function Sse2Ecc(p: bv32, q: bv32, r: bv32, cb: bv32): bv32 {
    Or(Or(And(And(p, 0xfe00_fe00), CodeMask(cb)), And(q, 0x01e0_01e0)), And(r, 0x001f_001f))
  }

  lemma Sse2Fields(p: bv32, q: bv32, r: bv32, cb: bv32)
    requires PageSize(cb)
    ensures Or(Or(And(And(p, 0xfe00_fe00), CodeMask(cb)), And(q, 0x01e0_01e0)), And(r, 0x001f_001f))
         == Xor(Xor(And(And(p, 0xfe00_fe00), CodeMask(cb)), And(q, 0x01e0_01e0)), And(r, 0x001f_001f))
  {}

  lemma Sse2EccDef(p: bv32, q: bv32, r: bv32, cb: bv32)
    ensures Sse2Ecc(p, q, r, cb)
         == Or(Or(And(And(p, 0xfe00_fe00), CodeMask(cb)), And(q, 0x01e0_01e0)), And(r, 0x001f_001f))
  {}

  lemma Sse2Masks(cb: bv32)
    requires PageSize(cb)
    ensures Xor(Xor(UpperMask(cb, 0x1ff), 0x01e0), 0x1f) == PositionMask(cb)
    ensures Ones(4) == 0xf
  {}

  lemma Sse2Code(blocks: bv32, a: bv32, c: bv32, odd: bool, r: bv32, cb: bv32)
    requires PageSize(cb) && And(blocks, BlockMask(cb, 4)) == blocks && Fits(a, 4)
    requires And(r, 0x001f_001f) == Comb(c, odd, 0x1f)
    ensures Sse2Ecc(Packed(9, blocks, odd), Packed(5, a, odd), r, cb)
         == Comb(Xor(Xor(Shl(9, blocks), Shl(5, a)), c), odd, PositionMask(cb))
  {
    hide *;
    var p, q := Packed(9, blocks, odd), Packed(5, a, odd);
    Sse2EccDef(p, q, r, cb);
    Sse2Fields(p, q, r, cb);
    PackedDef(9, blocks, odd);
    PackedDef(5, a, odd);
    ShlBy9(Comb(blocks, odd, ALL));
    ShlBy5(Comb(a, odd, ALL));
    ShlBy9(blocks);
    ShlBy5(a);
    Sse2Masks(cb);
    FitsOnes(a, 4);
    BlockField9(blocks, odd, cb);
    WordField5(a, odd);
    CombFields(Lsh9(blocks), Lsh5(a), odd, UpperMask(cb, 0x1ff), 0x01e0);
    CombFields(Xor(Lsh9(blocks), Lsh5(a)), c, odd, Xor(UpperMask(cb, 0x1ff), 0x01e0), 0x1f);
  }

  lemma Sse2Result(pdw: seq<bv32>, cb: bv32, pgno: bv32, fHeaderBlock: bool, k: nat, acc: seq<bv32>, p: bv32,
                   idx: bv32, r: bv32)
    requires ValidPage(cb, pdw) && |pdw| >= 2 && RowBits(cb) >= 4 && |pdw| == 16 * k
    requires PassOver(Covered(pdw, fHeaderBlock), 4, 9, k, acc, p, idx, RowBits(cb) - 4)
    requires And(r, 0x001f_001f) == Comb(Col(XorAll(acc)), Odd(XorAll(acc)), 0x1f)
    ensures var ecc := Sse2Ecc(p, Packed(5, RowXor(acc), Odd(XorAll(acc))), r, cb);
            MakeChecksumFromECCXORAndPgno(ecc, XorAll(acc), pgno) == PageChecksum(pdw, cb, pgno, fHeaderBlock)
  {
    hide *;
    var words := Covered(pdw, fHeaderBlock);
    PageSizeOf(cb, pdw);
    CoveredAt(pdw, fHeaderBlock, cb);
    IndexStepQuads();
    var blocks := PassEnd(words, 4, 9, k, acc, p, idx, RowBits(cb) - 4);
    PageChecksumDef(pdw, cb, pgno, fHeaderBlock);
    CodeFromBlocks(words, cb, 4, blocks, acc);
    MaskedBlocks(cb, blocks, 4);
    RowXorFits(acc, 4);
    Sse2Code(blocks, RowXor(acc), Col(XorAll(acc)), Odd(XorAll(acc)), r, cb);
  }

  lemma RowsOfQuads(cb: bv32, pdw: seq<bv32>)
    requires ValidPage(cb, pdw)
    ensures RowBits(cb) >= 8 && |pdw| == 16 * Pow2(RowBits(cb) - 4) && |pdw| % 32 == 0 && |pdw| <= 2048
  {
    PageBits(cb, pdw);
    assert Pow2(4) == 16 && Pow2(5) == 32 && Pow2(6) == 64 && Pow2(7) == 128;
  }

  method ChecksumNewFormatSSE2(func: ChecksumParityMaskFunc, pdw: seq<bv32>, cb: bv32, pgno: bv32, fHeaderBlock: bool)
    returns (checksum: bv64)
    requires ValidPage(cb, pdw)
    ensures checksum == PageChecksum(pdw, cb, pgno, fHeaderBlock)
  {
    hide *;
    CoveredAt(pdw, fHeaderBlock, cb);
    RowsOfQuads(cb, pdw);
    ghost var words, bits := Covered(pdw, fHeaderBlock), RowBits(cb) - 4;
    var cdq := |pdw| / 4;
    var p: bv32 := 0;
    var dq0, dq1, dq2, dq3 := Zero128, Zero128, Zero128, Zero128;
    var idxp: bv32 := 0xfe00_0000;
    var i := 0;
    ghost var k := 0;
    ZeroQuad();
    IndexStepQuads();
    PassStart(words, 4, 9, Quad(dq0, dq1, dq2, dq3), idxp, 0xfe00_0200, bits);
    while i < cdq
      invariant i == 4 * k <= cdq && k % 2 == 0
      invariant PassOver(words, 4, 9, k, Quad(dq0, dq1, dq2, dq3), p, idxp, bits)
    {
      var dqL0 := LoadCovered(pdw, i, fHeaderBlock);
      var dqL1, dqL2, dqL3 := Load128(pdw, i + 1), Load128(pdw, i + 2), Load128(pdw, i + 3);
      QuadStep(func, pdw, fHeaderBlock, i, k, dq0, dq1, dq2, dq3, p, idxp, bits);
      dq0, dq1, dq2, dq3 := Xor128(dq0, dqL0), Xor128(dq1, dqL1), Xor128(dq2, dqL2), Xor128(dq3, dqL3);
      p := Xor(p, And(idxp, Parity128(func, Fold4(dqL0, dqL1, dqL2, dqL3))));
      idxp := Add(idxp, 0xfe00_0200);

      var dqH0, dqH1, dqH2, dqH3 := Load128(pdw, i + 4), Load128(pdw, i + 5), Load128(pdw, i + 6), Load128(pdw, i + 7);
      LanesOfPage(pdw, fHeaderBlock, i + 4);
      QuadStep(func, pdw, fHeaderBlock, i + 4, k + 1, dq0, dq1, dq2, dq3, p, idxp, bits);
      dq0, dq1, dq2, dq3 := Xor128(dq0, dqH0), Xor128(dq1, dqH1), Xor128(dq2, dqH2), Xor128(dq3, dqH3);
      p := Xor(p, And(idxp, Parity128(func, Fold4(dqH0, dqH1, dqH2, dqH3))));
      idxp := Add(idxp, 0xfe00_0200);
      i := i + 8;
      k := k + 2;
    }
    var arydq := Quad(dq0, dq1, dq2, dq3);
    QuadDef(dq0, dq1, dq2, dq3);
    var dw0, q := WordCode(func, arydq);
    var r := ByteCode(func, dw0);
    Sse2Result(pdw, cb, pgno, fHeaderBlock, k, arydq, p, idxp, r);
    checksum := MakeChecksumFromECCXORAndPgno(Sse2Ecc(p, q, r, cb), dw0, pgno);
  }

  // ----- AVX -----

  function Load256(pdw: seq<bv32>, i: nat): M256
    requires 8 * i + 8 <= |pdw|
  {
    M256(Load128(pdw, 2 * i), Load128(pdw, 2 * i + 1))
  }

  /** The first register of a header block has its low quadword blanked. */
  function LoadCovered256(pdw: seq<bv32>, i: nat, fHeaderBlock: bool): M256
    requires 8 * i + 8 <= |pdw|
  {
    M256(LoadCovered(pdw, 2 * i, fHeaderBlock), Load128(pdw, 2 * i + 1))
  }

  function Quad256(a: M256, b: M256, c: M256, d: M256): seq<bv32> {
    Lanes256(a) + Lanes256(b) + Lanes256(c) + Lanes256(d)
  }

  function Fold256(a: M256, b: M256, c: M256, d: M256): M256 { Xor256(Xor256(Xor256(a, b), c), d) }

  lemma Quad256Def(a: M256, b: M256, c: M256, d: M256)
    ensures Quad256(a, b, c, d) == Lanes256(a) + Lanes256(b) + Lanes256(c) + Lanes256(d)
    ensures |Quad256(a, b, c, d)| == 32
    ensures |Lanes256(a)| == |Lanes256(b)| == |Lanes256(c)| == |Lanes256(d)| == 8
  {}

  lemma Fold256Def(a: M256, b: M256, c: M256, d: M256)
    ensures Fold256(a, b, c, d) == Xor256(Xor256(Xor256(a, b), c), d)
  {
    hide Xor256;
  }

  lemma Xor256Def(a: M256, b: M256)
    ensures Xor256(a, b) == M256(Xor128(a.lo, b.lo), Xor128(a.hi, b.hi))
  {
    hide Xor128;
  }

  lemma Lanes256Zip(a: M256, b: M256)
    ensures |Lanes256(a)| == |Lanes256(b)| == 8
    ensures Lanes256(Xor256(a, b)) == Zip(Lanes256(a), Lanes256(b))
  {
    hide *;
    Xor256Def(a, b);
    Lanes256Def(a);
    Lanes256Def(b);
    Lanes256Def(Xor256(a, b));
    Lanes128Zip(a.lo, b.lo);
    Lanes128Zip(a.hi, b.hi);
    ZipConcat(Lanes(a.lo), Lanes(b.lo), Lanes(a.hi), Lanes(b.hi));
  }

  lemma Quad256Zip(a: M256, b: M256, c: M256, d: M256, e: M256, f: M256, g: M256, h: M256)
    ensures |Quad256(a, b, c, d)| == |Quad256(e, f, g, h)| == 32
    ensures Zip(Quad256(a, b, c, d), Quad256(e, f, g, h))
            == Quad256(Xor256(a, e), Xor256(b, f), Xor256(c, g), Xor256(d, h))
  {
    hide *;
    Quad256Def(a, b, c, d);
    Quad256Def(e, f, g, h);
    Quad256Def(Xor256(a, e), Xor256(b, f), Xor256(c, g), Xor256(d, h));
    Lanes256Zip(a, e);
    Lanes256Zip(b, f);
    Lanes256Zip(c, g);
    Lanes256Zip(d, h);
    ZipConcat(Lanes256(a), Lanes256(e), Lanes256(b), Lanes256(f));
    ZipConcat(Lanes256(a) + Lanes256(b), Lanes256(e) + Lanes256(f), Lanes256(c), Lanes256(g));
    ZipConcat(Lanes256(a) + Lanes256(b) + Lanes256(c), Lanes256(e) + Lanes256(f) + Lanes256(g), Lanes256(d),
              Lanes256(h));
  }

  lemma Fold256Correct(a: M256, b: M256, c: M256, d: M256)
    ensures XorAll(Lanes256(Fold256(a, b, c, d))) == XorAll(Quad256(a, b, c, d))
  {
    hide *;
    Fold256Def(a, b, c, d);
    Quad256Def(a, b, c, d);
    var ab := Xor256(a, b);
    var abc := Xor256(ab, c);
    Lanes256Zip(a, b);
    Lanes256Zip(ab, c);
    Lanes256Zip(abc, d);
    ZipXor(Lanes256(a), Lanes256(b));
    ZipXor(Lanes256(ab), Lanes256(c));
    ZipXor(Lanes256(abc), Lanes256(d));
    ConcatXor(Lanes256(a), Lanes256(b));
    ConcatXor(Lanes256(a) + Lanes256(b), Lanes256(c));
    ConcatXor(Lanes256(a) + Lanes256(b) + Lanes256(c), Lanes256(d));
  }

  lemma IndexStepAvx()
    ensures IndexStep(10, 0xfc00_0000, 0xfc00_0400) && IndexStep(8, 0xff00_0000, 0xff00_0100)
    ensures Pow2(5) == 32 && Pow2(3) == 8 && Pow2(2) == 4
  {}

  lemma LoadDefs(pdw: seq<bv32>, i: nat, fHeaderBlock: bool)
    requires 8 * i + 8 <= |pdw|
    ensures LoadCovered256(pdw, i, fHeaderBlock) == M256(LoadCovered(pdw, 2 * i, fHeaderBlock), Load128(pdw, 2 * i + 1))
    ensures Load256(pdw, i) == M256(Load128(pdw, 2 * i), Load128(pdw, 2 * i + 1))
  {
    hide LoadCovered, Load128;
  }

  lemma Lanes256OfPage(pdw: seq<bv32>, fHeaderBlock: bool, i: nat)
    requires |pdw| >= 2 && 8 * i + 8 <= |pdw|
    ensures |Covered(pdw, fHeaderBlock)| == |pdw|
    ensures Covered(pdw, fHeaderBlock)[8 * i..8 * i + 8] == Lanes256(LoadCovered256(pdw, i, fHeaderBlock))
    ensures i > 0 ==> LoadCovered256(pdw, i, fHeaderBlock) == Load256(pdw, i)
  {
    hide *;
    var w := Covered(pdw, fHeaderBlock);
    LoadDefs(pdw, i, fHeaderBlock);
    LanesOfPage(pdw, fHeaderBlock, 2 * i);
    LanesOfPage(pdw, fHeaderBlock, 2 * i + 1);
    Lanes256Def(LoadCovered256(pdw, i, fHeaderBlock));
    assert w[8 * i..8 * i + 8] == w[8 * i..8 * i + 4] + w[8 * i + 4..8 * i + 8];
  }

  lemma Slices256(w: seq<bv32>, i: nat)
    requires i + 32 <= |w|
    ensures w[i..i + 32] == w[i..i + 8] + w[i + 8..i + 16] + w[i + 16..i + 24] + w[i + 24..i + 32]
  {}

  lemma Quad256OfPage(pdw: seq<bv32>, fHeaderBlock: bool, i: nat)
    requires |pdw| >= 2 && 8 * i + 32 <= |pdw|
    ensures |Covered(pdw, fHeaderBlock)| == |pdw|
    ensures Covered(pdw, fHeaderBlock)[8 * i..8 * i + 32]
         == Quad256(LoadCovered256(pdw, i, fHeaderBlock), Load256(pdw, i + 1), Load256(pdw, i + 2), Load256(pdw, i + 3))
  {
    hide *;
    Lanes256OfPage(pdw, fHeaderBlock, i);
    Lanes256OfPage(pdw, fHeaderBlock, i + 1);
    Lanes256OfPage(pdw, fHeaderBlock, i + 2);
    Lanes256OfPage(pdw, fHeaderBlock, i + 3);
    Quad256Def(LoadCovered256(pdw, i, fHeaderBlock), Load256(pdw, i + 1), Load256(pdw, i + 2), Load256(pdw, i + 3));
    Slices256(Covered(pdw, fHeaderBlock), 8 * i);
  }

  /** One block of thirty-two words of the page. */
  lemma AvxStep(pdw: seq<bv32>, fHeaderBlock: bool, i: nat, k: nat,
                a: M256, b: M256, c: M256, d: M256, p: bv32, idx: bv32, bits: nat)
    requires |pdw| >= 2 && i == 4 * k && 8 * i + 32 <= |pdw| && k < 1024 && k < Pow2(bits)
    requires PassOver(Covered(pdw, fHeaderBlock), 5, 10, k, Quad256(a, b, c, d), p, idx, bits)
    ensures var e := LoadCovered256(pdw, i, fHeaderBlock);
            var f, g, h := Load256(pdw, i + 1), Load256(pdw, i + 2), Load256(pdw, i + 3);
            PassOver(Covered(pdw, fHeaderBlock), 5, 10, k + 1,
                     Quad256(Xor256(a, e), Xor256(b, f), Xor256(c, g), Xor256(d, h)),
                     Xor(p, And(idx, ParityMaskAVX(Fold256(e, f, g, h)))), Add(idx, 0xfc00_0400), bits)
  {
    hide *;
    var e := LoadCovered256(pdw, i, fHeaderBlock);
    var f, g, h := Load256(pdw, i + 1), Load256(pdw, i + 2), Load256(pdw, i + 3);
    IndexStepAvx();
    Quad256OfPage(pdw, fHeaderBlock, i);
    Quad256Zip(a, b, c, d, e, f, g, h);
    PassStep(Covered(pdw, fHeaderBlock), 5, 10, k, Quad256(a, b, c, d), p, idx, bits, Quad256(e, f, g, h),
             0xfc00_0000, 0xfc00_0400);
    Fold256Correct(e, f, g, h);
    ParityMaskAVXCorrect(Fold256(e, f, g, h));
  }

  /** The accumulators' rows, from which register and from which word of the folded register. */
  lemma RowsOfRegisters(a: M256, b: M256, c: M256, d: M256)
    ensures var x := [XorAll(Lanes256(a)), XorAll(Lanes256(b)), XorAll(Lanes256(c)), XorAll(Lanes256(d))];
            RowXor(Quad256(a, b, c, d)) == Xor(Shl(3, RowXor(x)), RowXor(Lanes256(Fold256(a, b, c, d))))
  {
    hide *;
    var la, lb, lc, ld := Lanes256(a), Lanes256(b), Lanes256(c), Lanes256(d);
    var ab := Xor256(a, b);
    var abc := Xor256(ab, c);
    IndexStepAvx();
    Quad256Def(a, b, c, d);
    Fold256Def(a, b, c, d);
    Lanes256Zip(a, b);
    Lanes256Zip(ab, c);
    Lanes256Zip(abc, d);
    BlockDef(la, 3, 0, la);
    ShlOfZero(3);
    XorZero(RowXor(la));
    BlockAdvance(la, 3, 1, 0, la, lb);
    var b1 := Xor(0, Sel(Odd(XorAll(lb)), Num(1)));
    BlockAdvance(la + lb, 3, 2, b1, Lanes256(ab), lc);
    var b2 := Xor(b1, Sel(Odd(XorAll(lc)), Num(2)));
    BlockAdvance(la + lb + lc, 3, 3, b2, Lanes256(abc), ld);
    var b3 := Xor(b2, Sel(Odd(XorAll(ld)), Num(3)));
    BlockDef(la + lb + lc + ld, 3, b3, Lanes256(Fold256(a, b, c, d)));
    RowXorFour(XorAll(la), XorAll(lb), XorAll(lc), XorAll(ld));
    WordInBlockDef(Odd(XorAll(lb)), Odd(XorAll(lc)), Odd(XorAll(ld)));
    NumThree();
    XorZero(Sel(Odd(XorAll(lb)), 1));
  }

  /** The four unrolled steps that accumulate the register numbers. */
  method RegisterCode(qq0: M256, qq1: M256, qq2: M256, qq3: M256) returns (q: bv32)
    ensures var x := [XorAll(Lanes256(qq0)), XorAll(Lanes256(qq1)), XorAll(Lanes256(qq2)), XorAll(Lanes256(qq3))];
            q == Packed(8, RowXor(x), Odd(XorAll(x))) && Fits(RowXor(x), 2)
  {
    hide *;
    ghost var x := [XorAll(Lanes256(qq0)), XorAll(Lanes256(qq1)), XorAll(Lanes256(qq2)), XorAll(Lanes256(qq3))];
    q := 0;
    var idxq: bv32 := 0xff00_0000;
    ghost var acc: bv32 := 0;
    IndexStepWords();
    OneWord(0);
    PassStart(x, 0, 8, [acc], idxq, 0xff00_0100, 2);

    WordStepPass(x, 8, 0, acc, q, idxq, 2, 0xff00_0000, 0xff00_0100);
    ParityMaskAVXCorrect(qq0);
    acc := Xor(acc, x[0]);
    q := Xor(q, And(idxq, ParityMaskAVX(qq0)));
    idxq := Add(idxq, 0xff00_0100);

    WordStepPass(x, 8, 1, acc, q, idxq, 2, 0xff00_0000, 0xff00_0100);
    ParityMaskAVXCorrect(qq1);
    acc := Xor(acc, x[1]);
    q := Xor(q, And(idxq, ParityMaskAVX(qq1)));
    idxq := Add(idxq, 0xff00_0100);

    WordStepPass(x, 8, 2, acc, q, idxq, 2, 0xff00_0000, 0xff00_0100);
    ParityMaskAVXCorrect(qq2);
    acc := Xor(acc, x[2]);
    q := Xor(q, And(idxq, ParityMaskAVX(qq2)));
    idxq := Add(idxq, 0xff00_0100);

    WordStepPass(x, 8, 3, acc, q, idxq, 2, 0xff00_0000, 0xff00_0100);
    ParityMaskAVXCorrect(qq3);
    acc := Xor(acc, x[3]);
    q := Xor(q, And(idxq, ParityMaskAVX(qq3)));
    WordEndPass(x, 8, acc, q, Add(idxq, 0xff00_0100), 2);
  }

  /** The four fields of the code. */
  function AvxEcc(p: bv32, q: bv32, q_: bv32, r: bv32, cb: bv32): bv32 {
    Or(Or(Or(And(And(p, 0xfc00_fc00), CodeMask(cb)), And(q, 0x0300_0300)), And(q_, 0x00e0_00e0)), And(r, 0x001f_001f))
  }

  lemma AvxEccDef(p: bv32, q: bv32, q_: bv32, r: bv32, cb: bv32)
    ensures AvxEcc(p, q, q_, r, cb)
         == Or(Or(Or(And(And(p, 0xfc00_fc00), CodeMask(cb)), And(q, 0x0300_0300)), And(q_, 0x00e0_00e0)),
               And(r, 0x001f_001f))
  {}

  lemma AvxFields(p: bv32, q: bv32, q_: bv32, r: bv32, cb: bv32)
    requires PageSize(cb)
    ensures Or(Or(Or(And(And(p, 0xfc00_fc00), CodeMask(cb)), And(q, 0x0300_0300)), And(q_, 0x00e0_00e0)),
               And(r, 0x001f_001f))
         == Xor(Xor(Xor(And(And(p, 0xfc00_fc00), CodeMask(cb)), And(q, 0x0300_0300)), And(q_, 0x00e0_00e0)),
                And(r, 0x001f_001f))
  {}

  lemma AvxMasks(cb: bv32)
    requires PageSize(cb)
    ensures Xor(Xor(Xor(UpperMask(cb, 0x3ff), 0x0300), 0x00e0), 0x1f) == PositionMask(cb)
    ensures Ones(3) == 7 && Ones(2) == 3
  {}

  lemma AvxCode(blocks: bv32, b: bv32, a: bv32, c: bv32, odd: bool, r: bv32, cb: bv32)
    requires PageSize(cb) && And(blocks, BlockMask(cb, 5)) == blocks && Fits(b, 2) && Fits(a, 3)
    requires And(r, 0x001f_001f) == Comb(c, odd, 0x1f)
    ensures AvxEcc(Packed(10, blocks, odd), Packed(8, b, odd), Packed(5, a, odd), r, cb)
         == Comb(Xor(Xor(Xor(Shl(10, blocks), Shl(8, b)), Shl(5, a)), c), odd, PositionMask(cb))
  {
    hide *;
    AvxEccDef(Packed(10, blocks, odd), Packed(8, b, odd), Packed(5, a, odd), r, cb);
    AvxFields(Packed(10, blocks, odd), Packed(8, b, odd), Packed(5, a, odd), r, cb);
    PackedDef(10, blocks, odd);
    PackedDef(8, b, odd);
    PackedDef(5, a, odd);
    ShlBy10(Comb(blocks, odd, ALL));
    ShlBy8(Comb(b, odd, ALL));
    ShlBy5(Comb(a, odd, ALL));
    ShlBy10(blocks);
    ShlBy8(b);
    ShlBy5(a);
    AvxMasks(cb);
    FitsOnes(b, 2);
    FitsOnes(a, 3);
    BlockField10(blocks, odd, cb);
    WordField8(b, odd);
    WordField5(a, odd);
    var f1 := Xor(UpperMask(cb, 0x3ff), 0x0300);
    CombFields(Lsh10(blocks), Lsh8(b), odd, UpperMask(cb, 0x3ff), 0x0300);
    CombFields(Xor(Lsh10(blocks), Lsh8(b)), Lsh5(a), odd, f1, 0x00e0);
    CombFields(Xor(Xor(Lsh10(blocks), Lsh8(b)), Lsh5(a)), c, odd, Xor(f1, 0x00e0), 0x1f);
  }

  lemma RegistersXor(a: M256, b: M256, c: M256, d: M256)
    ensures XorAll([XorAll(Lanes256(a)), XorAll(Lanes256(b)), XorAll(Lanes256(c)), XorAll(Lanes256(d))])
         == XorAll(Quad256(a, b, c, d))
  {
    hide *;
    Quad256Def(a, b, c, d);
    XorAllFour(XorAll(Lanes256(a)), XorAll(Lanes256(b)), XorAll(Lanes256(c)), XorAll(Lanes256(d)));
    ConcatXor(Lanes256(a), Lanes256(b));
    ConcatXor(Lanes256(a) + Lanes256(b), Lanes256(c));
    ConcatXor(Lanes256(a) + Lanes256(b) + Lanes256(c), Lanes256(d));
  }

  lemma AvxResult(pdw: seq<bv32>, cb: bv32, pgno: bv32, fHeaderBlock: bool, k: nat,
                  a: M256, b: M256, c: M256, d: M256, p: bv32, idx: bv32, q: bv32, r: bv32)
    requires ValidPage(cb, pdw) && |pdw| >= 2 && RowBits(cb) >= 5 && |pdw| == 32 * k
    requires PassOver(Covered(pdw, fHeaderBlock), 5, 10, k, Quad256(a, b, c, d), p, idx, RowBits(cb) - 5)
    requires var x := [XorAll(Lanes256(a)), XorAll(Lanes256(b)), XorAll(Lanes256(c)), XorAll(Lanes256(d))];
             q == Packed(8, RowXor(x), Odd(XorAll(x))) && Fits(RowXor(x), 2)
    requires var acc := XorAll(Lanes256(Fold256(a, b, c, d)));
             And(r, 0x001f_001f) == Comb(Col(acc), Odd(acc), 0x1f)
    ensures var acc := Lanes256(Fold256(a, b, c, d));
            var ecc := AvxEcc(p, q, Packed(5, RowXor(acc), Odd(XorAll(acc))), r, cb);
            MakeChecksumFromECCXORAndPgno(ecc, XorAll(acc), pgno) == PageChecksum(pdw, cb, pgno, fHeaderBlock)
  {
    hide *;
    var words := Covered(pdw, fHeaderBlock);
    var all, acc := Quad256(a, b, c, d), Lanes256(Fold256(a, b, c, d));
    var x := [XorAll(Lanes256(a)), XorAll(Lanes256(b)), XorAll(Lanes256(c)), XorAll(Lanes256(d))];
    PageSizeOf(cb, pdw);
    CoveredAt(pdw, fHeaderBlock, cb);
    IndexStepAvx();
    var blocks := PassEnd(words, 5, 10, k, all, p, idx, RowBits(cb) - 5);
    PageChecksumDef(pdw, cb, pgno, fHeaderBlock);
    CodeFromBlocks(words, cb, 5, blocks, all);
    MaskedBlocks(cb, blocks, 5);
    Fold256Correct(a, b, c, d);
    RowsOfRegisters(a, b, c, d);
    RegistersXor(a, b, c, d);
    Lanes256Zip(Fold256(a, b, c, d), Fold256(a, b, c, d));
    RowXorFits(acc, 3);
    ShlXor(5, Shl(3, RowXor(x)), RowXor(acc));
    ShlAdd(5, 3, RowXor(x));
    XorAssoc(Shl(10, blocks), Shl(8, RowXor(x)), Shl(5, RowXor(acc)));
    AvxCode(blocks, RowXor(x), RowXor(acc), Col(XorAll(acc)), Odd(XorAll(acc)), r, cb);
  }

  const Zero256: M256 := M256(Zero128, Zero128)

  lemma ZeroQuad256()
    ensures RowXor(Quad256(Zero256, Zero256, Zero256, Zero256)) == 0
            && XorAll(Quad256(Zero256, Zero256, Zero256, Zero256)) == 0
    ensures |Quad256(Zero256, Zero256, Zero256, Zero256)| == 32
  {
    ZeroWords(Quad256(Zero256, Zero256, Zero256, Zero256));
  }

  lemma RowsOfAvxBlocks(cb: bv32, pdw: seq<bv32>)
    requires ValidPage(cb, pdw)
    ensures RowBits(cb) >= 8 && |pdw| == 32 * Pow2(RowBits(cb) - 5) && |pdw| % 32 == 0 && |pdw| <= 2048
  {
    PageBits(cb, pdw);
    assert Pow2(3) == 8 && Pow2(4) == 16 && Pow2(5) == 32 && Pow2(6) == 64;
  }

  method ChecksumNewFormatAVX(pdw: seq<bv32>, cb: bv32, pgno: bv32, fHeaderBlock: bool) returns (checksum: bv64)
    requires ValidPage(cb, pdw)
    ensures checksum == PageChecksum(pdw, cb, pgno, fHeaderBlock)
  {
    hide *;
    CoveredAt(pdw, fHeaderBlock, cb);
    RowsOfAvxBlocks(cb, pdw);
    ghost var words, bits := Covered(pdw, fHeaderBlock), RowBits(cb) - 5;
    var cqq := |pdw| / 8;
    var p: bv32 := 0;
    var qq0, qq1, qq2, qq3 := Zero256, Zero256, Zero256, Zero256;
    var idxp: bv32 := 0xfc00_0000;
    var i := 0;
    ghost var k := 0;
    ZeroQuad256();
    IndexStepAvx();
    PassStart(words, 5, 10, Quad256(qq0, qq1, qq2, qq3), idxp, 0xfc00_0400, bits);
    while i < cqq
      invariant i == 4 * k <= cqq
      invariant PassOver(words, 5, 10, k, Quad256(qq0, qq1, qq2, qq3), p, idxp, bits)
    {
      var qqL0 := LoadCovered256(pdw, i, fHeaderBlock);
      var qqL1, qqL2, qqL3 := Load256(pdw, i + 1), Load256(pdw, i + 2), Load256(pdw, i + 3);
      AvxStep(pdw, fHeaderBlock, i, k, qq0, qq1, qq2, qq3, p, idxp, bits);
      qq0, qq1, qq2, qq3 := Xor256(qq0, qqL0), Xor256(qq1, qqL1), Xor256(qq2, qqL2), Xor256(qq3, qqL3);
      p := Xor(p, And(idxp, ParityMaskAVX(Fold256(qqL0, qqL1, qqL2, qqL3))));
      idxp := Add(idxp, 0xfc00_0400);
      i := i + 4;
      k := k + 1;
    }
    var qqAcc := Fold256(qq0, qq1, qq2, qq3);
    var aryqq := Lanes256(qqAcc);
    var q := RegisterCode(qq0, qq1, qq2, qq3);
    Lanes256Zip(qqAcc, qqAcc);
    var dwAcc, q_ := WordCode(ParityMaskFuncPopcnt, aryqq);
    var r := ByteCode(ParityMaskFuncPopcnt, dwAcc);
    AvxResult(pdw, cb, pgno, fHeaderBlock, k, qq0, qq1, qq2, qq3, p, idxp, q, r);
    checksum := MakeChecksumFromECCXORAndPgno(AvxEcc(p, q, q_, r, cb), dwAcc, pgno);
  }
}
