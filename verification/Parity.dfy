/** Parity of a word and of a vector register, by table and by population count. */
module Parity {
  import opened Bits
  import opened PageEcc

  function Pick16(k: bv32,
                  e0: bv32, e1: bv32, e2: bv32, e3: bv32, e4: bv32, e5: bv32, e6: bv32, e7: bv32,
                  e8: bv32, e9: bv32, e10: bv32, e11: bv32, e12: bv32, e13: bv32, e14: bv32, e15: bv32): bv32
  {
    if k == 0 then e0
    else if k == 1 then e1
    else if k == 2 then e2
    else if k == 3 then e3
    else if k == 4 then e4
    else if k == 5 then e5
    else if k == 6 then e6
    else if k == 7 then e7
    else if k == 8 then e8
    else if k == 9 then e9
    else if k == 10 then e10
    else if k == 11 then e11
    else if k == 12 then e12
    else if k == 13 then e13
    else if k == 14 then e14
    else e15
  }

  const N: bv32 := 0xffff_ffff

  /** g_bParityLookupTable, sign extended. */
  function ParityTable(x: bv32): bv32 {
    var k := x & 15;
    match (x >> 4) & 15
    case 0 => Pick16(k, 0, N, N, 0, N, 0, 0, N, N, 0, 0, N, 0, N, N, 0)
    case 1 => Pick16(k, N, 0, 0, N, 0, N, N, 0, 0, N, N, 0, N, 0, 0, N)
    case 2 => Pick16(k, N, 0, 0, N, 0, N, N, 0, 0, N, N, 0, N, 0, 0, N)
    case 3 => Pick16(k, 0, N, N, 0, N, 0, 0, N, N, 0, 0, N, 0, N, N, 0)
    case 4 => Pick16(k, N, 0, 0, N, 0, N, N, 0, 0, N, N, 0, N, 0, 0, N)
    case 5 => Pick16(k, 0, N, N, 0, N, 0, 0, N, N, 0, 0, N, 0, N, N, 0)
    case 6 => Pick16(k, 0, N, N, 0, N, 0, 0, N, N, 0, 0, N, 0, N, N, 0)
    case 7 => Pick16(k, N, 0, 0, N, 0, N, N, 0, 0, N, N, 0, N, 0, 0, N)
    case 8 => Pick16(k, N, 0, 0, N, 0, N, N, 0, 0, N, N, 0, N, 0, 0, N)
    case 9 => Pick16(k, 0, N, N, 0, N, 0, 0, N, N, 0, 0, N, 0, N, N, 0)
    case 10 => Pick16(k, 0, N, N, 0, N, 0, 0, N, N, 0, 0, N, 0, N, N, 0)
    case 11 => Pick16(k, N, 0, 0, N, 0, N, N, 0, 0, N, N, 0, N, 0, 0, N)
    case 12 => Pick16(k, 0, N, N, 0, N, 0, 0, N, N, 0, 0, N, 0, N, N, 0)
    case 13 => Pick16(k, N, 0, 0, N, 0, N, N, 0, 0, N, N, 0, N, 0, 0, N)
    case 14 => Pick16(k, N, 0, 0, N, 0, N, N, 0, 0, N, N, 0, N, 0, 0, N)
    case _ => Pick16(k, 0, N, N, 0, N, 0, 0, N, N, 0, 0, N, 0, N, N, 0)
  }

  /** g_bECCLookupTable. */
  function EccTable(x: bv32): bv32 {
    var k := x & 15;
    match (x >> 4) & 15
    case 0 => Pick16(k, 0x00, 0x70, 0x61, 0x11, 0x52, 0x22, 0x33, 0x43, 0x43, 0x33, 0x22, 0x52, 0x11, 0x61, 0x70, 0x00)
    case 1 => Pick16(k, 0x34, 0x44, 0x55, 0x25, 0x66, 0x16, 0x07, 0x77, 0x77, 0x07, 0x16, 0x66, 0x25, 0x55, 0x44, 0x34)
    case 2 => Pick16(k, 0x25, 0x55, 0x44, 0x34, 0x77, 0x07, 0x16, 0x66, 0x66, 0x16, 0x07, 0x77, 0x34, 0x44, 0x55, 0x25)
    case 3 => Pick16(k, 0x11, 0x61, 0x70, 0x00, 0x43, 0x33, 0x22, 0x52, 0x52, 0x22, 0x33, 0x43, 0x00, 0x70, 0x61, 0x11)
    case 4 => Pick16(k, 0x16, 0x66, 0x77, 0x07, 0x44, 0x34, 0x25, 0x55, 0x55, 0x25, 0x34, 0x44, 0x07, 0x77, 0x66, 0x16)
    case 5 => Pick16(k, 0x22, 0x52, 0x43, 0x33, 0x70, 0x00, 0x11, 0x61, 0x61, 0x11, 0x00, 0x70, 0x33, 0x43, 0x52, 0x22)
    case 6 => Pick16(k, 0x33, 0x43, 0x52, 0x22, 0x61, 0x11, 0x00, 0x70, 0x70, 0x00, 0x11, 0x61, 0x22, 0x52, 0x43, 0x33)
    case 7 => Pick16(k, 0x07, 0x77, 0x66, 0x16, 0x55, 0x25, 0x34, 0x44, 0x44, 0x34, 0x25, 0x55, 0x16, 0x66, 0x77, 0x07)
    case 8 => Pick16(k, 0x07, 0x77, 0x66, 0x16, 0x55, 0x25, 0x34, 0x44, 0x44, 0x34, 0x25, 0x55, 0x16, 0x66, 0x77, 0x07)
    case 9 => Pick16(k, 0x33, 0x43, 0x52, 0x22, 0x61, 0x11, 0x00, 0x70, 0x70, 0x00, 0x11, 0x61, 0x22, 0x52, 0x43, 0x33)
    case 10 => Pick16(k, 0x22, 0x52, 0x43, 0x33, 0x70, 0x00, 0x11, 0x61, 0x61, 0x11, 0x00, 0x70, 0x33, 0x43, 0x52, 0x22)
    case 11 => Pick16(k, 0x16, 0x66, 0x77, 0x07, 0x44, 0x34, 0x25, 0x55, 0x55, 0x25, 0x34, 0x44, 0x07, 0x77, 0x66, 0x16)
    case 12 => Pick16(k, 0x11, 0x61, 0x70, 0x00, 0x43, 0x33, 0x22, 0x52, 0x52, 0x22, 0x33, 0x43, 0x00, 0x70, 0x61, 0x11)
    case 13 => Pick16(k, 0x25, 0x55, 0x44, 0x34, 0x77, 0x07, 0x16, 0x66, 0x66, 0x16, 0x07, 0x77, 0x34, 0x44, 0x55, 0x25)
    case 14 => Pick16(k, 0x34, 0x44, 0x55, 0x25, 0x66, 0x16, 0x07, 0x77, 0x77, 0x07, 0x16, 0x66, 0x25, 0x55, 0x44, 0x34)
    case _ => Pick16(k, 0x00, 0x70, 0x61, 0x11, 0x52, 0x22, 0x33, 0x43, 0x43, 0x33, 0x22, 0x52, 0x11, 0x61, 0x70, 0x00)
  }

  // ----- one word -----

  /** lParityMask: fold the word to a byte, look the byte up. */
  function ParityMask(dw: bv32): bv32 {
    var dw2 := Xor(dw, Shr(16, dw));
    var dw4 := Xor(dw2, Shr(8, dw2));
    ParityTable(dw4)
  }

  /** lParityMaskPopcnt: -( popcnt & 1 ). */
  function ParityMaskPopcnt(dw: bv32): bv32 {
    MaskOf(BitCount(dw, 32) % 2 == 1)
  }

  /** Parity of the eight low bits, written out. */
  predicate OddByte(x: bv32) {
    Low(x) != (Low(x >> 1) != (Low(x >> 2) != (Low(x >> 3)
    != (Low(x >> 4) != (Low(x >> 5) != (Low(x >> 6) != Low(x >> 7)))))))
  }

  lemma ParityTableByte(x: bv32)
    ensures ParityTable(x) == MaskOf(OddByte(x))
  {}

  lemma OddBitsFour(x: bv32)
    ensures OddBits(x, 4) == (Low(x) != (Low(x >> 1) != (Low(x >> 2) != Low(x >> 3))))
  {
    assert OddBits(x, 4) == (Low(x) != OddBits(x >> 1, 3));
    assert OddBits(x >> 1, 3) == (Low(x >> 1) != OddBits(x >> 2, 2));
    assert OddBits(x >> 2, 2) == (Low(x >> 2) != OddBits(x >> 3, 1));
    assert OddBits(x >> 3, 1) == Low(x >> 3);
    hide *;
  }

  lemma OddBitsByte(x: bv32)
    ensures OddBits(x, 8) == OddByte(x)
  {
    OddBitsFour(x);
  }

  lemma ParityMaskDef(dw: bv32)
    ensures var dw2 := Xor(dw, Shr(16, dw));
            ParityMask(dw) == ParityTable(Xor(dw2, Shr(8, dw2)))
  {}

  /** The table-driven mask is all ones exactly on words of odd parity. */
  lemma ParityMaskCorrect(dw: bv32)
    ensures ParityMask(dw) == MaskOf(Odd(dw))
  {
    hide *;
    var dw2 := Xor(dw, Shr(16, dw));
    var dw4 := Xor(dw2, Shr(8, dw2));
    ParityMaskDef(dw);
    OddDef(dw);
    OddBitsSplit(dw, 16, 16);
    OddBitsXor(dw, Shr(16, dw), 16);
    OddBitsSplit(dw2, 8, 8);
    OddBitsXor(dw2, Shr(8, dw2), 8);
    OddBitsByte(dw4);
    ParityTableByte(dw4);
  }

  lemma PopcntDef(dw: bv32)
    ensures ParityMaskPopcnt(dw) == MaskOf(BitCount(dw, 32) % 2 == 1)
  {}

  /** The mask taken from the population count is the parity too. */
  lemma ParityMaskPopcntCorrect(dw: bv32)
    ensures ParityMaskPopcnt(dw) == MaskOf(Odd(dw))
  {
    hide *;
    PopcntDef(dw);
    OddBitsCount(dw, 32);
    OddDef(dw);
  }

  // ----- vector registers -----

  /** __m128i as four words, lowest first. */
  datatype M128 = M128(w0: bv32, w1: bv32, w2: bv32, w3: bv32)

  function Lanes(q: M128): seq<bv32> { [q.w0, q.w1, q.w2, q.w3] }

  function Xor128(a: M128, b: M128): M128 {
    M128(Xor(a.w0, b.w0), Xor(a.w1, b.w1), Xor(a.w2, b.w2), Xor(a.w3, b.w3))
  }

  /** _mm_shuffle_epi32( q, 0x4e ) */
  function SwapHalves(q: M128): M128 { M128(q.w2, q.w3, q.w0, q.w1) }

  /** _mm_shuffle_epi32( q, 0x1b ) */
  function ReverseLanes(q: M128): M128 { M128(q.w3, q.w2, q.w1, q.w0) }

  /** _mm_unpackhi_epi64( zero, q ) */
  function BlankLowHalf(q: M128): M128 { M128(0, 0, q.w2, q.w3) }

  /** lParityMask over a 128-bit register. */
  function ParityMask128(dq: M128): bv32 {
    var dq2 := Xor128(dq, SwapHalves(dq));
    var dq4 := Xor128(dq2, ReverseLanes(dq2));
    ParityMask(dq4.w0)
  }

  /** lParityMaskPopcnt over a 128-bit register: popcnt of the low quadword. */
  function ParityMaskPopcnt128(dq: M128): bv32 {
    var dq2 := Xor128(dq, SwapHalves(dq));
    MaskOf((BitCount(dq2.w0, 32) + BitCount(dq2.w1, 32)) % 2 == 1)
  }

  /** __m256i as two 128-bit halves, lowest first. */
  datatype M256 = M256(lo: M128, hi: M128)

  function Lanes256(q: M256): seq<bv32> { Lanes(q.lo) + Lanes(q.hi) }

  function Xor256(a: M256, b: M256): M256 { M256(Xor128(a.lo, b.lo), Xor128(a.hi, b.hi)) }

  /** lParityMaskAVX */
  function ParityMaskAVX(qq: M256): bv32 {
    var qq1 := M256(qq.hi, qq.lo);
    var dq2 := Xor256(qq1, qq).lo;
    var dq4 := Xor128(SwapHalves(dq2), dq2);
    MaskOf((BitCount(dq4.w0, 32) + BitCount(dq4.w1, 32)) % 2 == 1)
  }

  lemma XorAllFour(a: bv32, b: bv32, c: bv32, d: bv32)
    ensures XorAll([a, b, c, d]) == Xor(Xor(Xor(a, b), c), d)
  {
    hide *;
    var s := [a, b, c, d];
    assert s[..3] == [a, b, c] && s[..3][..2] == [a, b] && s[..3][..2][..1] == [a] && s[..3][..2][..1][..0] == [];
    PageStep(s, 0);
    PageStep(s[..3], 0);
    PageStep(s[..3][..2], 0);
    PageStep(s[..3][..2][..1], 0);
    RowNothing([]);
    XorZero(a);
  }

  lemma LanesDef(q: M128)
    ensures Lanes(q) == [q.w0, q.w1, q.w2, q.w3]
  {}

  lemma OddFour(a: bv32, b: bv32, c: bv32, d: bv32)
    ensures Odd(XorAll([a, b, c, d])) == (Odd(a) != (Odd(b) != (Odd(c) != Odd(d))))
    ensures Odd(Xor(a, c)) == (Odd(a) != Odd(c))
    ensures Odd(Xor(b, d)) == (Odd(b) != Odd(d))
    ensures Odd(Xor(Xor(a, c), Xor(d, b))) == (Odd(a) != (Odd(b) != (Odd(c) != Odd(d))))
  {
    hide *;
    XorAllFour(a, b, c, d);
    OddXor(a, b);
    OddXor(Xor(a, b), c);
    OddXor(Xor(Xor(a, b), c), d);
    OddXor(a, c);
    OddXor(b, d);
    OddXor(d, b);
    OddXor(Xor(a, c), Xor(d, b));
  }

  lemma SumParity(x: nat, y: nat)
    ensures (x + y) % 2 == 1 <==> (x % 2 == 1) != (y % 2 == 1)
  {}

  lemma ParityMask128Def(dq: M128)
    ensures ParityMask128(dq) == ParityMask(Xor(Xor(dq.w0, dq.w2), Xor(dq.w3, dq.w1)))
    ensures ParityMaskPopcnt128(dq)
         == MaskOf((BitCount(Xor(dq.w0, dq.w2), 32) + BitCount(Xor(dq.w1, dq.w3), 32)) % 2 == 1)
  {
    hide Xor, ParityMask, MaskOf, BitCount;
  }

  /** Parity of a register is parity over all its lanes. */
  lemma ParityMask128Correct(dq: M128)
    ensures ParityMask128(dq) == MaskOf(Odd(XorAll(Lanes(dq))))
    ensures ParityMaskPopcnt128(dq) == MaskOf(Odd(XorAll(Lanes(dq))))
  {
    hide *;
    var M128(a, b, c, d) := dq;
    ParityMask128Def(dq);
    LanesDef(dq);
    OddFour(a, b, c, d);
    ParityMaskCorrect(Xor(Xor(a, c), Xor(d, b)));
    OddBitsCount(Xor(a, c), 32);
    OddBitsCount(Xor(b, d), 32);
    OddDef(Xor(a, c));
    OddDef(Xor(b, d));
    SumParity(BitCount(Xor(a, c), 32), BitCount(Xor(b, d), 32));
  }

  lemma Lanes128Zip(a: M128, b: M128)
    ensures |Lanes(a)| == |Lanes(b)| == 4
    ensures Lanes(Xor128(a, b)) == Zip(Lanes(a), Lanes(b))
  {
    hide Xor;
  }

  lemma Lanes128Xor(a: M128, b: M128)
    ensures XorAll(Lanes(Xor128(a, b))) == Xor(XorAll(Lanes(a)), XorAll(Lanes(b)))
  {
    hide *;
    Lanes128Zip(a, b);
    ZipXor(Lanes(a), Lanes(b));
  }

  lemma Lanes256Def(qq: M256)
    ensures Lanes256(qq) == Lanes(qq.lo) + Lanes(qq.hi)
  {}

  lemma AvxDef(qq: M256)
    ensures var dq2 := Xor128(qq.hi, qq.lo);
            var count := BitCount(Xor(dq2.w2, dq2.w0), 32) + BitCount(Xor(dq2.w3, dq2.w1), 32);
            ParityMaskAVX(qq) == MaskOf(count % 2 == 1)
  {
    hide Xor, MaskOf, BitCount;
  }

  /** The AVX fold differs from the SSE2 one only in the order of an xor. */
  lemma AvxIsPopcnt(qq: M256)
    ensures ParityMaskAVX(qq) == ParityMaskPopcnt128(Xor128(qq.hi, qq.lo))
  {
    hide *;
    var dq2 := Xor128(qq.hi, qq.lo);
    XorComm(dq2.w2, dq2.w0);
    XorComm(dq2.w3, dq2.w1);
    AvxDef(qq);
    ParityMask128Def(dq2);
  }

  lemma ParityMaskAVXCorrect(qq: M256)
    ensures ParityMaskAVX(qq) == MaskOf(Odd(XorAll(Lanes256(qq))))
  {
    hide *;
    var dq2 := Xor128(qq.hi, qq.lo);
    AvxIsPopcnt(qq);
    ParityMask128Correct(dq2);
    Lanes128Xor(qq.hi, qq.lo);
    Lanes256Def(qq);
    XorComm(XorAll(Lanes(qq.hi)), XorAll(Lanes(qq.lo)));
    ConcatXor(Lanes(qq.lo), Lanes(qq.hi));
  }
}
