/** The part all block-wise checksums share: one pass over the page that xors the
    blocks together and accumulates, for every block of odd parity, an index word
    holding the block number and its complement.  The index word is never computed
    from the block number; it is stepped by a wrap-around constant. */
module ChecksumPass {
  import opened Bits
  import opened PageEcc

  const ALL: bv32 := 0xffff_ffff

  function Add(a: bv32, b: bv32): bv32 { a + b }

  /** x in the low half and its complement in the high half, shifted left by s; x alone in
      both halves when odd is false. */
  function Packed(s: nat, x: bv32, odd: bool): bv32 { Shl(s, Comb(x, odd, ALL)) }

  /** The constant that steps an index word whose number sits at bit s. */
  predicate IndexStep(s: nat, start: bv32, step: bv32) {
    || (s == 0 && start == 0xffff_0000 && step == 0xffff_0001)
    || (s == 3 && start == 0xfff8_0000 && step == 0xfff8_0008)
    || (s == 5 && start == 0xffe0_0000 && step == 0xffe0_0020)
    || (s == 7 && start == 0xff80_0000 && step == 0xff80_0080)
    || (s == 8 && start == 0xff00_0000 && step == 0xff00_0100)
    || (s == 9 && start == 0xfe00_0000 && step == 0xfe00_0200)
    || (s == 10 && start == 0xfc00_0000 && step == 0xfc00_0400)
  }

  lemma PackedDef(s: nat, x: bv32, odd: bool)
    ensures Packed(s, x, odd) == Shl(s, Comb(x, odd, ALL))
  {}

  lemma PackedXor(s: nat, a: bv32, p: bool, b: bv32, q: bool)
    ensures Packed(s, Xor(a, b), p != q) == Xor(Packed(s, a, p), Packed(s, b, q))
  {
    hide *;
    PackedDef(s, a, p);
    PackedDef(s, b, q);
    PackedDef(s, Xor(a, b), p != q);
    CombXor(a, p, b, q, ALL);
    ShlXor(s, Comb(a, p, ALL), Comb(b, q, ALL));
  }

  lemma PackedSel(s: nat, c: bool, x: bv32)
    ensures Sel(c, Packed(s, x, true)) == Packed(s, Sel(c, x), c)
  {
    hide *;
    PackedDef(s, x, true);
    PackedDef(s, Sel(c, x), c);
    ShlSel(s, c, Comb(x, true, ALL));
    CombSel(c, x, ALL);
  }

  // ----- shifts by the constants in use -----

  function Lsh3(w: bv32): bv32 { w << 3 }

  lemma DblTimes3(w: bv32)
    ensures Dbl(Dbl(Dbl(w))) == Lsh3(w)
  {}

  lemma ShlBy3(w: bv32)
    ensures Shl(3, w) == Lsh3(w)
  {
    hide *;
    ShlZero(w);
    ShlStep(1, w);
    ShlStep(2, w);
    ShlStep(3, w);
    DblTimes3(w);
  }

  function Lsh5(w: bv32): bv32 { w << 5 }

  lemma DblTimes5(w: bv32)
    ensures Dbl(Dbl(Dbl(Dbl(Dbl(w))))) == Lsh5(w)
  {}

  lemma ShlBy5(w: bv32)
    ensures Shl(5, w) == Lsh5(w)
  {
    hide *;
    ShlZero(w);
    ShlStep(1, w);
    ShlStep(2, w);
    ShlStep(3, w);
    ShlStep(4, w);
    ShlStep(5, w);
    DblTimes5(w);
  }

  function Lsh7(w: bv32): bv32 { w << 7 }

  lemma DblTimes7(w: bv32)
    ensures Dbl(Dbl(Dbl(Dbl(Dbl(Dbl(Dbl(w))))))) == Lsh7(w)
  {}

  lemma ShlBy7(w: bv32)
    ensures Shl(7, w) == Lsh7(w)
  {
    hide *;
    ShlZero(w);
    ShlStep(1, w);
    ShlStep(2, w);
    ShlStep(3, w);
    ShlStep(4, w);
    ShlStep(5, w);
    ShlStep(6, w);
    ShlStep(7, w);
    DblTimes7(w);
  }

  function Lsh8(w: bv32): bv32 { w << 8 }

  lemma DblTimes8(w: bv32)
    ensures Dbl(Dbl(Dbl(Dbl(Dbl(Dbl(Dbl(Dbl(w)))))))) == Lsh8(w)
  {}

  lemma ShlBy8(w: bv32)
    ensures Shl(8, w) == Lsh8(w)
  {
    hide *;
    ShlZero(w);
    ShlStep(1, w);
    ShlStep(2, w);
    ShlStep(3, w);
    ShlStep(4, w);
    ShlStep(5, w);
    ShlStep(6, w);
    ShlStep(7, w);
    ShlStep(8, w);
    DblTimes8(w);
  }

  function Lsh9(w: bv32): bv32 { w << 9 }

  lemma DblTimes9(w: bv32)
    ensures Dbl(Dbl(Dbl(Dbl(Dbl(Dbl(Dbl(Dbl(Dbl(w))))))))) == Lsh9(w)
  {}

  lemma ShlBy9(w: bv32)
    ensures Shl(9, w) == Lsh9(w)
  {
    hide *;
    ShlZero(w);
    ShlStep(1, w);
    ShlStep(2, w);
    ShlStep(3, w);
    ShlStep(4, w);
    ShlStep(5, w);
    ShlStep(6, w);
    ShlStep(7, w);
    ShlStep(8, w);
    ShlStep(9, w);
    DblTimes9(w);
  }

  function Lsh10(w: bv32): bv32 { w << 10 }

  lemma DblTimes10(w: bv32)
    ensures Dbl(Dbl(Dbl(Dbl(Dbl(Dbl(Dbl(Dbl(Dbl(Dbl(w)))))))))) == Lsh10(w)
  {}

  lemma ShlBy10(w: bv32)
    ensures Shl(10, w) == Lsh10(w)
  {
    hide *;
    ShlZero(w);
    ShlStep(1, w);
    ShlStep(2, w);
    ShlStep(3, w);
    ShlStep(4, w);
    ShlStep(5, w);
    ShlStep(6, w);
    ShlStep(7, w);
    ShlStep(8, w);
    ShlStep(9, w);
    ShlStep(10, w);
    DblTimes10(w);
  }

  // ----- stepping the index word -----

  lemma Step0(x: bv32, y: bv32)
    requires x < 0xffff && y == Inc(x)
    ensures Add(Comb(x, true, ALL), 0xffff_0001) == Comb(y, true, ALL)
    ensures Comb(0, true, ALL) == 0xffff_0000
  {}

  lemma Step3(x: bv32, y: bv32)
    requires x < 0xffff && y == Inc(x)
    ensures Add(Lsh3(Comb(x, true, ALL)), 0xfff8_0008) == Lsh3(Comb(y, true, ALL))
    ensures Lsh3(Comb(0, true, ALL)) == 0xfff8_0000
  {}

  lemma Step5(x: bv32, y: bv32)
    requires x < 0xffff && y == Inc(x)
    ensures Add(Lsh5(Comb(x, true, ALL)), 0xffe0_0020) == Lsh5(Comb(y, true, ALL))
    ensures Lsh5(Comb(0, true, ALL)) == 0xffe0_0000
  {}

  lemma Step7(x: bv32, y: bv32)
    requires x < 0xffff && y == Inc(x)
    ensures Add(Lsh7(Comb(x, true, ALL)), 0xff80_0080) == Lsh7(Comb(y, true, ALL))
    ensures Lsh7(Comb(0, true, ALL)) == 0xff80_0000
  {}

  lemma Step8(x: bv32, y: bv32)
    requires x < 0xffff && y == Inc(x)
    ensures Add(Lsh8(Comb(x, true, ALL)), 0xff00_0100) == Lsh8(Comb(y, true, ALL))
    ensures Lsh8(Comb(0, true, ALL)) == 0xff00_0000
  {}

  lemma Step9(x: bv32, y: bv32)
    requires x < 0xffff && y == Inc(x)
    ensures Add(Lsh9(Comb(x, true, ALL)), 0xfe00_0200) == Lsh9(Comb(y, true, ALL))
    ensures Lsh9(Comb(0, true, ALL)) == 0xfe00_0000
  {}

  lemma Step10(x: bv32, y: bv32)
    requires x < 0xffff && y == Inc(x)
    ensures Add(Lsh10(Comb(x, true, ALL)), 0xfc00_0400) == Lsh10(Comb(y, true, ALL))
    ensures Lsh10(Comb(0, true, ALL)) == 0xfc00_0000
  {}

  lemma Pow2Ten()
    ensures Pow2(10) == 1024
  {}

  lemma OnesTen()
    ensures Ones(10) == 0x3ff
  {
    assert Ones(5) == 0x1f;
  }

  lemma AndSmall(x: bv32)
    requires And(x, 0x3ff) == x
    ensures x < 0xffff
  {}

  lemma SmallNum(k: nat)
    requires k < 1024
    ensures Num(k) < 0xffff
  {
    hide *;
    Pow2Ten();
    NumFits(k, 10);
    FitsOnes(Num(k), 10);
    OnesTen();
    AndSmall(Num(k));
  }

  lemma IndexStepDef(s: nat, start: bv32, step: bv32)
    requires IndexStep(s, start, step)
    ensures s == 0 || s == 3 || s == 5 || s == 7 || s == 8 || s == 9 || s == 10
    ensures s == 0 ==> start == 0xffff_0000 && step == 0xffff_0001
    ensures s == 3 ==> start == 0xfff8_0000 && step == 0xfff8_0008
    ensures s == 5 ==> start == 0xffe0_0000 && step == 0xffe0_0020
    ensures s == 7 ==> start == 0xff80_0000 && step == 0xff80_0080
    ensures s == 8 ==> start == 0xff00_0000 && step == 0xff00_0100
    ensures s == 9 ==> start == 0xfe00_0000 && step == 0xfe00_0200
    ensures s == 10 ==> start == 0xfc00_0000 && step == 0xfc00_0400
  {}

  /** Starting at the constant and adding the step k times gives block number k and
      its complement, each in its own half. */
  lemma IndexWord(s: nat, start: bv32, step: bv32, k: nat)
    requires IndexStep(s, start, step) && k < 1024
    ensures Packed(s, Num(0), true) == start
    ensures Add(Packed(s, Num(k), true), step) == Packed(s, Num(k + 1), true)
  {
    hide *;
    IndexStepDef(s, start, step);
    var x, y := Num(k), Num(k + 1);
    SmallNum(k);
    NumSucc(k);
    NumSmall();
    PackedDef(s, 0, true);
    PackedDef(s, x, true);
    PackedDef(s, y, true);
    var c, cx, cy := Comb(0, true, ALL), Comb(x, true, ALL), Comb(y, true, ALL);
    if s == 0 {
      ShlZero(c); ShlZero(cx); ShlZero(cy); Step0(x, y);
    } else if s == 3 {
      ShlBy3(c); ShlBy3(cx); ShlBy3(cy); Step3(x, y);
    } else if s == 5 {
      ShlBy5(c); ShlBy5(cx); ShlBy5(cy); Step5(x, y);
    } else if s == 7 {
      ShlBy7(c); ShlBy7(cx); ShlBy7(cy); Step7(x, y);
    } else if s == 8 {
      ShlBy8(c); ShlBy8(cx); ShlBy8(cy); Step8(x, y);
    } else if s == 9 {
      ShlBy9(c); ShlBy9(cx); ShlBy9(cy); Step9(x, y);
    } else {
      ShlBy10(c); ShlBy10(cx); ShlBy10(cy); Step10(x, y);
    }
  }

  // ----- the pass -----

  /** After k blocks of 2^m words: the block form holds, p packs the odd blocks'
      numbers at bit s and idx is the index word of the next block. */
  ghost predicate Pass(done: seq<bv32>, m: nat, s: nat, k: nat, blocks: bv32, acc: seq<bv32>, p: bv32, idx: bv32) {
    && |done| == k * Pow2(m) && |acc| == Pow2(m)
    && BlockForm(done, m, blocks, acc)
    && p == Packed(s, blocks, Odd(XorAll(done)))
    && idx == Packed(s, Num(k), true)
  }

  lemma PassDef(done: seq<bv32>, m: nat, s: nat, k: nat, blocks: bv32, acc: seq<bv32>, p: bv32, idx: bv32)
    ensures Pass(done, m, s, k, blocks, acc, p, idx)
        <==> && |done| == k * Pow2(m) && |acc| == Pow2(m)
             && BlockForm(done, m, blocks, acc)
             && p == Packed(s, blocks, Odd(XorAll(done)))
             && idx == Packed(s, Num(k), true)
  {}

  lemma PassAdvance(done: seq<bv32>, m: nat, s: nat, k: nat, blocks: bv32, acc: seq<bv32>, p: bv32, idx: bv32,
                    t: seq<bv32>, start: bv32, step: bv32)
    requires Pass(done, m, s, k, blocks, acc, p, idx)
    requires |acc| == |t| == Pow2(m) && k < 1024 && IndexStep(s, start, step)
    ensures var o := Odd(XorAll(t));
            Pass(done + t, m, s, k + 1, Xor(blocks, Sel(o, Num(k))), Zip(acc, t),
                 Xor(p, And(idx, MaskOf(o))), Add(idx, step))
  {
    hide *;
    var o := Odd(XorAll(t));
    var blocks' := Xor(blocks, Sel(o, Num(k)));
    PassDef(done, m, s, k, blocks, acc, p, idx);
    PassDef(done + t, m, s, k + 1, blocks', Zip(acc, t), Xor(p, And(idx, MaskOf(o))), Add(idx, step));
    BlockAdvance(done, m, k, blocks, acc, t);
    assert (k + 1) * Pow2(m) == k * Pow2(m) + Pow2(m);
    AndMask(idx, o);
    PackedSel(s, o, Num(k));
    ConcatXor(done, t);
    OddXor(XorAll(done), XorAll(t));
    PackedXor(s, blocks, Odd(XorAll(done)), Sel(o, Num(k)), o);
    IndexWord(s, start, step, k);
  }

  /** The pass over the first k blocks of words, for some xor of odd block numbers below 2^bits. */
  ghost predicate PassOver(words: seq<bv32>, m: nat, s: nat, k: nat, acc: seq<bv32>, p: bv32, idx: bv32, bits: nat) {
    k * Pow2(m) <= |words|
    && exists blocks :: Fits(blocks, bits) && Pass(words[..k * Pow2(m)], m, s, k, blocks, acc, p, idx)
  }

  lemma PassElim(words: seq<bv32>, m: nat, s: nat, k: nat, acc: seq<bv32>, p: bv32, idx: bv32, bits: nat)
    returns (blocks: bv32)
    requires PassOver(words, m, s, k, acc, p, idx, bits)
    ensures k * Pow2(m) <= |words| && Fits(blocks, bits) && Pass(words[..k * Pow2(m)], m, s, k, blocks, acc, p, idx)
  {
    hide Pass, Fits, Pow2;
    blocks :| Fits(blocks, bits) && Pass(words[..k * Pow2(m)], m, s, k, blocks, acc, p, idx);
  }

  lemma PassIntro(words: seq<bv32>, m: nat, s: nat, k: nat, blocks: bv32, acc: seq<bv32>, p: bv32, idx: bv32, bits: nat)
    requires k * Pow2(m) <= |words| && Fits(blocks, bits) && Pass(words[..k * Pow2(m)], m, s, k, blocks, acc, p, idx)
    ensures PassOver(words, m, s, k, acc, p, idx, bits)
  {
    hide Pass, Fits, Pow2;
  }

  lemma PassStart(words: seq<bv32>, m: nat, s: nat, acc: seq<bv32>, start: bv32, step: bv32, bits: nat)
    requires IndexStep(s, start, step)
    requires |acc| == Pow2(m) && RowXor(acc) == 0 && XorAll(acc) == 0
    ensures PassOver(words, m, s, 0, acc, 0, start, bits)
  {
    hide *;
    assert words[..0] == [];
    PassDef([], m, s, 0, 0, acc, 0, start);
    BlockStart([], m, acc);
    IndexWord(s, start, step, 0);
    RowNothing([]);
    OddZero(32);
    OddDef(0);
    PackedDef(s, 0, false);
    CombNothing(ALL);
    ShlOfZero(s);
    FitsZero(bits);
    PassIntro(words, m, s, 0, 0, acc, 0, start, bits);
  }

  lemma FitsSel(c: bool, x: bv32, m: nat)
    requires Fits(x, m)
    ensures Fits(Sel(c, x), m)
  {
    hide *;
    SelDef(c, x);
    FitsZero(m);
  }

  lemma BlocksFit(blocks: bv32, o: bool, k: nat, m: nat)
    requires Fits(blocks, m) && k < Pow2(m)
    ensures Fits(Xor(blocks, Sel(o, Num(k))), m)
  {
    hide *;
    NumFits(k, m);
    FitsSel(o, Num(k), m);
    FitsXor(blocks, Sel(o, Num(k)), m);
  }

  /** One block of the pass: what the accumulators, p and the index word become. */
  lemma PassStep(words: seq<bv32>, m: nat, s: nat, k: nat, acc: seq<bv32>, p: bv32, idx: bv32, bits: nat,
                 t: seq<bv32>, start: bv32, step: bv32)
    requires PassOver(words, m, s, k, acc, p, idx, bits)
    requires IndexStep(s, start, step) && k < 1024 && k < Pow2(bits)
    requires |acc| == |t| == Pow2(m) && k * Pow2(m) + Pow2(m) <= |words|
    requires words[k * Pow2(m)..k * Pow2(m) + Pow2(m)] == t
    ensures PassOver(words, m, s, k + 1, Zip(acc, t), Xor(p, And(idx, MaskOf(Odd(XorAll(t))))), Add(idx, step), bits)
  {
    hide *;
    var i, o := k * Pow2(m), Odd(XorAll(t));
    var blocks := PassElim(words, m, s, k, acc, p, idx, bits);
    PassAdvance(words[..i], m, s, k, blocks, acc, p, idx, t, start, step);
    assert (k + 1) * Pow2(m) == i + Pow2(m);
    assert words[..i] + t == words[..(k + 1) * Pow2(m)];
    BlocksFit(blocks, o, k, bits);
    PassIntro(words, m, s, k + 1, Xor(blocks, Sel(o, Num(k))), Zip(acc, t), Xor(p, And(idx, MaskOf(o))),
              Add(idx, step), bits);
  }

  /** The pass over all words. */
  lemma PassEnd(words: seq<bv32>, m: nat, s: nat, k: nat, acc: seq<bv32>, p: bv32, idx: bv32, bits: nat)
    returns (blocks: bv32)
    requires PassOver(words, m, s, k, acc, p, idx, bits) && |words| == k * Pow2(m)
    ensures Fits(blocks, bits) && BlockForm(words, m, blocks, acc) && p == Packed(s, blocks, Odd(XorAll(acc)))
    ensures XorAll(words) == XorAll(acc) && |acc| == Pow2(m)
  {
    hide *;
    blocks := PassElim(words, m, s, k, acc, p, idx, bits);
    assert words[..k * Pow2(m)] == words;
    PassDef(words, m, s, k, blocks, acc, p, idx);
    BlockDef(words, m, blocks, acc);
  }

  // ----- how wide the accumulated numbers are -----

  lemma {:induction false} RowXorFits(words: seq<bv32>, m: nat)
    requires |words| <= Pow2(m)
    ensures Fits(RowXor(words), m)
  {
    hide *;
    if |words| == 0 {
      RowNothing(words);
      FitsZero(m);
    } else {
      var n := |words| - 1;
      PageStep(words, 0);
      RowXorFits(words[..n], m);
      BlocksFit(RowXor(words[..n]), Odd(words[n]), n, m);
    }
  }

  lemma {:induction false} WordPosFits(w: bv32, base: nat, n: nat, m: nat)
    requires base + n <= Pow2(m)
    ensures Fits(WordPos(w, base, n), m)
    decreases n
  {
    hide *;
    if n == 0 {
      WordZero(w, base, 0);
      FitsZero(m);
    } else {
      var rest := WordPos(Half(w), base + 1, n - 1);
      WordStep(w, base, n, 0);
      WordPosFits(Half(w), base + 1, n - 1, m);
      BlocksFit(rest, Low(w), base, m);
      XorComm(rest, Sel(Low(w), Num(base)));
    }
  }

  lemma ColFits(w: bv32)
    ensures Fits(Col(w), 5)
  {
    hide *;
    Pow2Five();
    WordPosFits(w, 0, 32, 5);
    ColDef(w);
  }

  // ----- from the pass to the code -----

  lemma Pow2Eight()
    ensures Pow2(8) == 256 && Pow2(9) == 512 && Pow2(10) == 1024 && Pow2(11) == 2048
    ensures Pow2(13) == 8192 && Pow2(14) == 16384 && Pow2(15) == 32768 && Pow2(16) == 65536
  {
    Pow2Ten();
  }

  /** The position mask covers the positions of the page, and no more. */
  lemma PageBits(cb: bv32, pdw: seq<bv32>)
    requires ValidPage(cb, pdw)
    ensures |pdw| == Pow2(RowBits(cb)) && 32 * |pdw| == Pow2(RowBits(cb) + 5)
    ensures PositionMask(cb) == Ones(RowBits(cb) + 5)
  {
    Pow2Eight();
    assert Ones(8) == 0xff;
    assert Ones(10) == 0x3ff;
    assert Ones(12) == 0xfff;
    assert Ones(13) == 0x1fff;
    assert Ones(14) == 0x3fff;
    assert Ones(15) == 0x7fff;
    assert Ones(16) == 0xffff;
    assert PositionMask(1024) == 0x1fff && PositionMask(2048) == 0x3fff
        && PositionMask(4096) == 0x7fff && PositionMask(8192) == 0xffff;
  }

  lemma {:induction false} ShlAdd(a: nat, b: nat, w: bv32)
    ensures Shl(a + b, w) == Shl(a, Shl(b, w))
    decreases a
  {
    hide *;
    if a == 0 {
      ShlZero(Shl(b, w));
    } else {
      ShlAdd(a - 1, b, w);
      ShlStep(a + b, w);
      ShlStep(a, Shl(b, w));
    }
  }

  /** After a pass over all words, the code in terms of what the pass accumulated. */
  lemma CodeFromBlocks(words: seq<bv32>, cb: bv32, m: nat, blocks: bv32, acc: seq<bv32>)
    requires ValidPage(cb, words) && BlockForm(words, m, blocks, acc)
    ensures XorAll(words) == XorAll(acc)
    ensures EccOf(words, PositionMask(cb))
         == Comb(Xor(Xor(Shl(m + 5, blocks), Shl(5, RowXor(acc))), Col(XorAll(acc))), Odd(XorAll(acc)),
                 PositionMask(cb))
  {
    hide *;
    BlockDef(words, m, blocks, acc);
    PageBits(cb, words);
    EccRowColumn(words, RowBits(cb) + 5);
    ShlXor(5, Shl(m, blocks), RowXor(acc));
    ShlAdd(5, m, blocks);
  }

  predicate PageSize(cb: bv32) { cb == 1024 || cb == 2048 || cb == 4096 || cb == 8192 }

  /** Mask of a block number when the page is cut into blocks of 2^d words. */
  function BlockMask(cb: bv32, d: nat): bv32 {
    if d == 0 then (cb >> 2) - 1
    else if d == 2 then (cb >> 4) - 1
    else if d == 4 then (cb >> 6) - 1
    else (cb >> 7) - 1
  }

  lemma OnesAreMask(cb: bv32, d: nat)
    requires PageSize(cb) && (d == 0 || d == 2 || d == 4 || d == 5)
    ensures RowBits(cb) >= d && Ones(RowBits(cb) - d) == BlockMask(cb, d)
  {
    assert Ones(3) == 7;
    assert Ones(5) == 0x1f;
    assert Ones(7) == 0x7f;
    assert Ones(9) == 0x1ff;
    assert Ones(11) == 0x7ff;
  }

  lemma MaskedBlocks(cb: bv32, x: bv32, d: nat)
    requires PageSize(cb) && (d == 0 || d == 2 || d == 4 || d == 5)
    requires RowBits(cb) >= d && Fits(x, RowBits(cb) - d)
    ensures And(x, BlockMask(cb, d)) == x
  {
    hide *;
    FitsOnes(x, RowBits(cb) - d);
    OnesAreMask(cb, d);
  }

  lemma OnesFive()
    ensures Ones(5) == 0x1f
  {}

  lemma MaskedColumns(x: bv32)
    requires Fits(x, 5)
    ensures And(x, 0x1f) == x
  {
    hide *;
    FitsOnes(x, 5);
    OnesFive();
  }

  // ----- assembling the code from fields -----

  /** Codes of disjoint fields add up. */
  lemma CombFields(x: bv32, y: bv32, odd: bool, fx: bv32, fy: bv32)
    ensures Comb(Xor(x, y), odd, Xor(fx, fy)) == Xor(Comb(x, odd, fx), Comb(y, odd, fy))
  {
    hide *;
    CombDef(x, odd, fx);
    CombDef(y, odd, fy);
    CombDef(Xor(x, y), odd, Xor(fx, fy));
    var sx, sy := Xor(x, Sel(odd, fx)), Xor(y, Sel(odd, fy));
    SelOfXor(odd, fx, fy);
    XorSwap(x, y, Sel(odd, fx), Sel(odd, fy));
    HiXor(sx, sy);
    XorSwap(x, y, Hi(sx), Hi(sy));
  }

  /** ( cb << 19 ) - 1: all low-half bits, and the high-half bits a position of the page has. */
  function CodeMask(cb: bv32): bv32 { (cb << 19) - 1 }

  /** The bits of a position from bit s upwards. */
  function UpperMask(cb: bv32, low: bv32): bv32 { ((cb << 3) - 1) & !low }

  lemma BlockField7(y: bv32, odd: bool, cb: bv32)
    requires PageSize(cb) && And(y, BlockMask(cb, 2)) == y
    ensures And(And(Lsh7(Comb(y, odd, ALL)), 0xff80_ff80), CodeMask(cb)) == Comb(Lsh7(y), odd, UpperMask(cb, 0x7f))
  {}

  lemma BlockField9(y: bv32, odd: bool, cb: bv32)
    requires PageSize(cb) && And(y, BlockMask(cb, 4)) == y
    ensures And(And(Lsh9(Comb(y, odd, ALL)), 0xfe00_fe00), CodeMask(cb)) == Comb(Lsh9(y), odd, UpperMask(cb, 0x1ff))
  {}

  lemma BlockField10(y: bv32, odd: bool, cb: bv32)
    requires PageSize(cb) && And(y, BlockMask(cb, 5)) == y
    ensures And(And(Lsh10(Comb(y, odd, ALL)), 0xfc00_fc00), CodeMask(cb)) == Comb(Lsh10(y), odd, UpperMask(cb, 0x3ff))
  {}

  lemma WordField5(y: bv32, odd: bool)
    ensures And(y, 0xf) == y ==> And(Lsh5(Comb(y, odd, ALL)), 0x01e0_01e0) == Comb(Lsh5(y), odd, 0x01e0)
    ensures And(y, 0x7) == y ==> And(Lsh5(Comb(y, odd, ALL)), 0x00e0_00e0) == Comb(Lsh5(y), odd, 0x00e0)
  {}

  lemma WordField8(y: bv32, odd: bool)
    requires And(y, 0x3) == y
    ensures And(Lsh8(Comb(y, odd, ALL)), 0x0300_0300) == Comb(Lsh8(y), odd, 0x0300)
  {}

  lemma ColumnField(c: bv32, odd: bool)
    requires And(c, 0x1f) == c
    ensures And(Comb(c, odd, ALL), 0x001f_001f) == Comb(c, odd, 0x1f)
  {}
}
