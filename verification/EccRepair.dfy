/** Deciding whether a checksum mismatch is a single flipped bit, and which one. */
module EccRepair {
  import opened Bits
  import opened PageEcc
  import opened Parity
  import opened ChecksumPass
  import opened ChecksumScalar

  const ulMax: bv32 := 0xffff_ffff

  function DwECCChecksumFromXEChecksum(checksum: bv64): bv32 { (checksum >> 32) as bv32 }

  function DwXORChecksumFromXEChecksum(checksum: bv64): bv32 { (checksum & 0xffff_ffff) as bv32 }

  lemma MakeAndSplit(ecc: bv32, x: bv32, pgno: bv32)
    ensures DwECCChecksumFromXEChecksum(MakeChecksumFromECCXORAndPgno(ecc, x, pgno)) == ecc
    ensures DwXORChecksumFromXEChecksum(MakeChecksumFromECCXORAndPgno(ecc, x, pgno)) == Xor(x, pgno)
  {}

  lemma CountNone(w: bv32)
    ensures BitCount(w, 0) == 0
  {}

  method CbitSet(dw: bv32) returns (cbit: nat)
    ensures cbit == BitCount(dw, 32)
  {
    hide *;
    cbit := 0;
    var ibit := 0;
    ShrZero(dw);
    while ibit < 32
      invariant ibit <= 32 && cbit + BitCount(Shr(ibit, dw), 32 - ibit) == BitCount(dw, 32)
    {
      BitTest(dw, ibit);
      CountStep(Shr(ibit, dw), 32 - ibit);
      ShrNext(ibit, dw);
      if And(dw, Shl(ibit, 1)) != 0 {
        cbit := cbit + 1;
      }
      ibit := ibit + 1;
    }
    CountNone(Shr(32, dw));
  }

  predicate Correctable(cb: bv32, dwEcc: bv32) {
    var ulMask := (cb << 3) - 1;
    var ulX := ((dwEcc >> 16) ^ dwEcc) & ulMask;
    ulMask == ulX
  }

  /** FECCErrorIsCorrectable on the codes alone. */
  predicate EccErrorIsCorrectable(cb: bv32, expected: bv32, actual: bv32) {
    Correctable(cb, Xor(actual, expected))
  }

  /** FECCErrorIsCorrectable on whole checksums. */
  predicate ErrorIsCorrectable(cb: bv32, expected: bv64, actual: bv64) {
    && EccErrorIsCorrectable(cb, DwECCChecksumFromXEChecksum(expected), DwECCChecksumFromXEChecksum(actual))
    && BitCount(Xor(DwXORChecksumFromXEChecksum(actual), DwXORChecksumFromXEChecksum(expected)), 32) == 1
  }

  function IbitOf(cb: bv32, dwEcc: bv32): bv32 {
    if dwEcc == 0 then ulMax
    else
      var ibitCorrupted := dwEcc & 0xffff;
      if ibitCorrupted / 8 >= cb then ulMax else ibitCorrupted
  }

  function IbitCorrupted(cb: bv32, expected: bv64, actual: bv64): bv32 {
    IbitOf(cb, Xor(DwECCChecksumFromXEChecksum(actual), DwECCChecksumFromXEChecksum(expected)))
  }

  // ----- what the difference of two codes says -----

  lemma CorrectableIffOdd(x: bv32, odd: bool, cb: bv32)
    requires PageSize(cb) && And(x, PositionMask(cb)) == x
    ensures Correctable(cb, Comb(x, odd, PositionMask(cb))) == odd
  {}

  lemma IbitIsLowHalf(x: bv32, cb: bv32)
    requires PageSize(cb) && And(x, PositionMask(cb)) == x
    ensures IbitOf(cb, Comb(x, true, PositionMask(cb))) == x
  {}

  lemma {:induction false} FitsShl(x: bv32, m: nat, k: nat)
    requires Fits(x, m)
    ensures Fits(Shl(k, x), m + k)
    decreases k
  {
    hide *;
    if k == 0 {
      ShlZero(x);
    } else {
      FitsShl(x, m, k - 1);
      var y := Shl(k - 1, x);
      ShlStep(k, x);
      HalfOfDouble(y, 0);
      XorZero(Dbl(y));
      FitsSub(y, Half(Dbl(y)), m + k - 1);
      FitsStep(Dbl(y), m + k);
    }
  }

  lemma {:induction false} FitsMore(x: bv32, m: nat, n: nat)
    requires Fits(x, m) && m <= n
    ensures Fits(x, n)
    decreases m
  {
    hide *;
    if m == 0 {
      FitsBase(x);
      FitsZero(n);
    } else {
      FitsStep(x, m);
      FitsStep(x, n);
      FitsMore(Half(x), m - 1, n - 1);
    }
  }

  /** The low half of the code difference: the xor of the positions of the set bits of z. */
  function PositionXor(z: seq<bv32>): bv32 { Xor(Shl(5, RowXor(z)), Col(XorAll(z))) }

  lemma PositionXorDef(z: seq<bv32>)
    ensures PositionXor(z) == Xor(Shl(5, RowXor(z)), Col(XorAll(z)))
  {}

  lemma PositionFits(z: seq<bv32>, cb: bv32)
    requires ValidPage(cb, z)
    ensures PageSize(cb) && And(PositionXor(z), PositionMask(cb)) == PositionXor(z)
    ensures Fits(PositionXor(z), RowBits(cb) + 5)
  {
    hide *;
    var n := RowBits(cb) + 5;
    PageSizeOf(cb, z);
    PageBits(cb, z);
    PositionXorDef(z);
    RowXorFits(z, RowBits(cb));
    FitsShl(RowXor(z), RowBits(cb), 5);
    ColFits(XorAll(z));
    FitsMore(Col(XorAll(z)), 5, n);
    FitsXor(Shl(5, RowXor(z)), Col(XorAll(z)), n);
    FitsOnes(PositionXor(z), n);
  }

  /** The code of a page is additive over word-by-word xor. */
  lemma EccDifference(s: seq<bv32>, t: seq<bv32>, cb: bv32)
    requires ValidPage(cb, s) && ValidPage(cb, t) && |s| == |t|
    ensures var z := Zip(s, t);
            Xor(EccOf(s, PositionMask(cb)), EccOf(t, PositionMask(cb)))
              == Comb(PositionXor(z), Odd(XorAll(z)), PositionMask(cb))
  {
    hide *;
    var z, mask := Zip(s, t), PositionMask(cb);
    PageBits(cb, s);
    PageBits(cb, t);
    EccRowColumn(s, RowBits(cb) + 5);
    EccRowColumn(t, RowBits(cb) + 5);
    ZipXor(s, t);
    PositionXorDef(z);
    OddXor(XorAll(s), XorAll(t));
    ColXor(XorAll(s), XorAll(t));
    ShlXor(5, RowXor(s), RowXor(t));
    var rs, rt, cs, ct := Shl(5, RowXor(s)), Shl(5, RowXor(t)), Col(XorAll(s)), Col(XorAll(t));
    XorSwap(rs, rt, cs, ct);
    CombXor(Xor(rs, cs), Odd(XorAll(s)), Xor(rt, ct), Odd(XorAll(t)), mask);
  }

  // ----- counting differing bits -----

  function SetBits(words: seq<bv32>): nat {
    if |words| == 0 then 0 else SetBits(words[..|words| - 1]) + BitCount(words[|words| - 1], 32)
  }

  lemma SetBitsDef(words: seq<bv32>)
    ensures SetBits(words)
            == if |words| == 0 then 0 else SetBits(words[..|words| - 1]) + BitCount(words[|words| - 1], 32)
  {}

  lemma {:induction false} SetBitsParity(words: seq<bv32>)
    ensures Odd(XorAll(words)) <==> SetBits(words) % 2 == 1
  {
    hide *;
    SetBitsDef(words);
    if |words| == 0 {
      RowNothing(words);
      OddZero(32);
      OddDef(0);
    } else {
      var n := |words| - 1;
      SetBitsParity(words[..n]);
      PageStep(words, 0);
      OddXor(XorAll(words[..n]), words[n]);
      OddBitsCount(words[n], 32);
      OddDef(words[n]);
      SumParity(SetBits(words[..n]), BitCount(words[n], 32));
    }
  }

  /** The covered bits in which two pages differ. */
  function Difference(pdw: seq<bv32>, pdw': seq<bv32>, fHeaderBlock: bool): (z: seq<bv32>)
    requires |pdw| == |pdw'| >= 2
    ensures |z| == |pdw|
  {
    Zip(Covered(pdw', fHeaderBlock), Covered(pdw, fHeaderBlock))
  }

  lemma DifferenceDef(pdw: seq<bv32>, pdw': seq<bv32>, fHeaderBlock: bool)
    requires |pdw| == |pdw'| >= 2
    ensures |Covered(pdw', fHeaderBlock)| == |Covered(pdw, fHeaderBlock)| == |pdw|
    ensures Difference(pdw, pdw', fHeaderBlock) == Zip(Covered(pdw', fHeaderBlock), Covered(pdw, fHeaderBlock))
  {}

  lemma ValidLength(cb: bv32, s: seq<bv32>, t: seq<bv32>)
    requires ValidPage(cb, s) && |s| == |t|
    ensures ValidPage(cb, t) && |s| >= 2
  {}

  /** The code difference of two pages, from the bits in which they differ. */
  lemma DifferenceCode(pdw: seq<bv32>, pdw': seq<bv32>, cb: bv32, pgno: bv32, pgno': bv32, fHeaderBlock: bool)
    requires ValidPage(cb, pdw) && ValidPage(cb, pdw') && |pdw| == |pdw'| >= 2
    ensures var z := Difference(pdw, pdw', fHeaderBlock);
            var e, a := PageChecksum(pdw, cb, pgno, fHeaderBlock), PageChecksum(pdw', cb, pgno', fHeaderBlock);
            && Xor(DwECCChecksumFromXEChecksum(a), DwECCChecksumFromXEChecksum(e))
               == Comb(PositionXor(z), Odd(XorAll(z)), PositionMask(cb))
            && Xor(DwXORChecksumFromXEChecksum(a), DwXORChecksumFromXEChecksum(e)) == Xor(XorAll(z), Xor(pgno', pgno))
  {
    hide *;
    var s, t := Covered(pdw', fHeaderBlock), Covered(pdw, fHeaderBlock);
    CoveredAt(pdw, fHeaderBlock, cb);
    CoveredAt(pdw', fHeaderBlock, cb);
    DifferenceDef(pdw, pdw', fHeaderBlock);
    PageChecksumDef(pdw, cb, pgno, fHeaderBlock);
    PageChecksumDef(pdw', cb, pgno', fHeaderBlock);
    MakeAndSplit(EccOf(t, PositionMask(cb)), XorAll(t), pgno);
    MakeAndSplit(EccOf(s, PositionMask(cb)), XorAll(s), pgno');
    EccDifference(s, t, cb);
    ZipXor(s, t);
    XorSwap(XorAll(s), pgno', XorAll(t), pgno);
  }

  lemma EccCorrectableDef(cb: bv32, expected: bv32, actual: bv32)
    ensures EccErrorIsCorrectable(cb, expected, actual) == Correctable(cb, Xor(actual, expected))
  {}

  /** The test on the code alone accepts exactly the differences of odd size, whatever the
      page numbers: an even-sized corruption is never called correctable. */
  lemma CorrectableIffOddDifference(pdw: seq<bv32>, pdw': seq<bv32>, cb: bv32, pgno: bv32, pgno': bv32,
                                    fHeaderBlock: bool)
    requires ValidPage(cb, pdw) && ValidPage(cb, pdw') && |pdw| == |pdw'| >= 2
    ensures var e, a := PageChecksum(pdw, cb, pgno, fHeaderBlock), PageChecksum(pdw', cb, pgno', fHeaderBlock);
            EccErrorIsCorrectable(cb, DwECCChecksumFromXEChecksum(e), DwECCChecksumFromXEChecksum(a))
            <==> SetBits(Difference(pdw, pdw', fHeaderBlock)) % 2 == 1
  {
    hide *;
    var z := Difference(pdw, pdw', fHeaderBlock);
    var e, a := PageChecksum(pdw, cb, pgno, fHeaderBlock), PageChecksum(pdw', cb, pgno', fHeaderBlock);
    DifferenceCode(pdw, pdw', cb, pgno, pgno', fHeaderBlock);
    DifferenceDef(pdw, pdw', fHeaderBlock);
    ValidLength(cb, pdw, z);
    PositionFits(z, cb);
    CorrectableIffOdd(PositionXor(z), Odd(XorAll(z)), cb);
    SetBitsParity(z);
    EccCorrectableDef(cb, DwECCChecksumFromXEChecksum(e), DwECCChecksumFromXEChecksum(a));
  }

  // ----- a single set bit -----

  predicate Single(x: bv32) { x != 0 && x & (x - 1) == 0 }

  lemma SingleDouble(x: bv32)
    requires Single(x) && Dbl(x) != 0
    ensures Single(Dbl(x)) && Half(Dbl(x)) == x && !Low(Dbl(x))
  {}

  lemma SingleOne()
    ensures Single(1) && Low(1) && Half(1) == 0
  {}

  lemma {:induction false} OneShiftedIsSingle(j: nat)
    requires j < 32
    ensures Single(Shl(j, 1))
    ensures j > 0 ==> Half(Shl(j, 1)) == Shl(j - 1, 1) && !Low(Shl(j, 1))
  {
    hide *;
    if j == 0 {
      ShlZero(1);
      SingleOne();
    } else {
      OneShiftedIsSingle(j - 1);
      ShlStep(j, 1);
      OneShifted(j);
      SingleDouble(Shl(j - 1, 1));
    }
  }

  lemma {:induction false} CountZero(n: nat)
    ensures BitCount(0, n) == 0
  {
    if n > 0 { CountZero(n - 1); }
  }

  /** A word with only bit j set: one position, odd parity, one bit. */
  lemma {:induction false} OneBit(j: nat, base: nat, n: nat)
    requires j < n <= 32
    ensures WordPos(Shl(j, 1), base, n) == Num(base + j)
    ensures OddBits(Shl(j, 1), n) && BitCount(Shl(j, 1), n) == 1
    decreases j
  {
    hide *;
    var w := Shl(j, 1);
    WordStep(w, base, n, 0);
    OddStep(w, n);
    CountStep(w, n);
    OneShiftedIsSingle(j);
    if j == 0 {
      ShlZero(1);
      SingleOne();
      ColZero(n - 1, base + 1);
      OddZero(n - 1);
      CountZero(n - 1);
      SelDef(true, Num(base));
      XorZero(Num(base));
    } else {
      OneBit(j - 1, base + 1, n - 1);
      SelDef(false, Num(base));
      XorZero(Num(base + j));
    }
  }

  lemma {:induction false} OneHot(z: seq<bv32>, i: nat)
    requires i < |z| && forall k :: 0 <= k < |z| && k != i ==> z[k] == 0
    ensures XorAll(z) == z[i] && RowXor(z) == Sel(Odd(z[i]), Num(i))
  {
    hide *;
    var n := |z| - 1;
    PageStep(z, 0);
    if i == n {
      ZeroWords(z[..n]);
      XorZero(z[n]);
      XorZero(Sel(Odd(z[n]), Num(n)));
    } else {
      OneHot(z[..n], i);
      OddZero(32);
      OddDef(0);
      SelDef(false, Num(n));
      XorZero(z[i]);
      XorZero(Sel(Odd(z[i]), Num(i)));
    }
  }

  // ----- flipping a bit -----

  function FlipBit(pdw: seq<bv32>, b: nat): (page: seq<bv32>)
    requires b < 32 * |pdw|
    ensures |page| == |pdw|
  {
    pdw[b / 32 := Xor(pdw[b / 32], Shl(b % 32, 1))]
  }

  lemma FlipBitAt(pdw: seq<bv32>, b: nat)
    requires b < 32 * |pdw|
    ensures FlipBit(pdw, b)[b / 32] == Xor(pdw[b / 32], Shl(b % 32, 1))
    ensures forall k :: 0 <= k < |pdw| && k != b / 32 ==> FlipBit(pdw, b)[k] == pdw[k]
  {}

  lemma FlipTwice(pdw: seq<bv32>, b: nat)
    requires b < 32 * |pdw|
    ensures FlipBit(FlipBit(pdw, b), b) == pdw
  {
    hide *;
    var page, x := FlipBit(pdw, b), Shl(b % 32, 1);
    FlipBitAt(pdw, b);
    FlipBitAt(page, b);
    XorAssoc(pdw[b / 32], x, x);
    XorZero(x);
    XorZero(pdw[b / 32]);
    assert forall k :: 0 <= k < |pdw| ==> FlipBit(page, b)[k] == pdw[k];
  }

  /** A covered position: not among the first 8 bytes of a header block. */
  predicate CoveredBit(pdw: seq<bv32>, b: nat, fHeaderBlock: bool) {
    b < 32 * |pdw| && (fHeaderBlock ==> b >= 64)
  }

  lemma CoveredWord(b: nat, pdw: seq<bv32>, fHeaderBlock: bool)
    requires CoveredBit(pdw, b, fHeaderBlock)
    ensures b / 32 < |pdw| && (fHeaderBlock ==> b / 32 >= 2)
  {}

  lemma DifferenceAt(pdw: seq<bv32>, pdw': seq<bv32>, fHeaderBlock: bool)
    requires |pdw| == |pdw'| >= 2
    ensures var z := Difference(pdw, pdw', fHeaderBlock);
            forall k :: 0 <= k < |pdw| ==> z[k] == if fHeaderBlock && k < 2 then 0 else Xor(pdw'[k], pdw[k])
  {
    XorZero(0);
    hide Xor;
  }

  /** Flipping a covered bit flips that bit in the difference to any other page. */
  lemma FlipDifference(pdw: seq<bv32>, pdw': seq<bv32>, b: nat, fHeaderBlock: bool)
    requires |pdw| == |pdw'| >= 2 && CoveredBit(pdw, b, fHeaderBlock) && b < 32 * |pdw'|
    ensures Difference(pdw, FlipBit(pdw', b), fHeaderBlock) == FlipBit(Difference(pdw, pdw', fHeaderBlock), b)
  {
    hide *;
    var page := FlipBit(pdw', b);
    var z, z' := Difference(pdw, pdw', fHeaderBlock), Difference(pdw, page, fHeaderBlock);
    var i, x := b / 32, Shl(b % 32, 1);
    CoveredWord(b, pdw, fHeaderBlock);
    DifferenceAt(pdw, pdw', fHeaderBlock);
    DifferenceAt(pdw, page, fHeaderBlock);
    FlipBitAt(pdw', b);
    FlipBitAt(z, b);
    XorAssoc(pdw'[i], x, pdw[i]);
    XorComm(x, pdw[i]);
    XorAssoc(pdw'[i], pdw[i], x);
    assert forall k :: 0 <= k < |pdw| ==> z'[k] == FlipBit(z, b)[k];
  }

  /** The xor of positions, when the difference is the one bit b. */
  lemma SinglePosition(z: seq<bv32>, b: nat)
    requires b < 32 * |z| && z[b / 32] == Shl(b % 32, 1) && forall k :: 0 <= k < |z| && k != b / 32 ==> z[k] == 0
    ensures PositionXor(z) == Num(b) && Odd(XorAll(z)) && BitCount(XorAll(z), 32) == 1
    ensures XorAll(z) == Shl(b % 32, 1) && RowXor(z) == Num(b / 32)
  {
    hide *;
    var i, j := b / 32, b % 32;
    OneHot(z, i);
    OneBit(j, 0, 32);
    OddDef(Shl(j, 1));
    ColDef(Shl(j, 1));
    SelDef(true, Num(i));
    PositionXorDef(z);
    Pow2Five();
    assert i * Pow2(5) + j == b;
    NumSplit(i, 5, j);
  }

  lemma CoveredBitDef(pdw: seq<bv32>, b: nat, fHeaderBlock: bool)
    ensures CoveredBit(pdw, b, fHeaderBlock) <==> b < 32 * |pdw| && (fHeaderBlock ==> b >= 64)
  {}

  lemma DifferenceOfFlip(pdw: seq<bv32>, b: nat, fHeaderBlock: bool)
    requires |pdw| >= 2 && CoveredBit(pdw, b, fHeaderBlock) && b < 32 * |pdw|
    ensures var z := Difference(pdw, FlipBit(pdw, b), fHeaderBlock);
            z[b / 32] == Shl(b % 32, 1) && forall k :: 0 <= k < |z| && k != b / 32 ==> z[k] == 0
  {
    hide *;
    var page, i, x := FlipBit(pdw, b), b / 32, Shl(b % 32, 1);
    CoveredWord(b, pdw, fHeaderBlock);
    DifferenceAt(pdw, page, fHeaderBlock);
    FlipBitAt(pdw, b);
    XorComm(pdw[i], x);
    XorAssoc(x, pdw[i], pdw[i]);
    XorZero(pdw[i]);
    XorZero(x);
    forall k | 0 <= k < |pdw| && k != i
      ensures Difference(pdw, page, fHeaderBlock)[k] == 0
    {
      XorZero(pdw[k]);
    }
  }

  lemma ErrorDefs(cb: bv32, e: bv64, a: bv64)
    ensures IbitCorrupted(cb, e, a) == IbitOf(cb, Xor(DwECCChecksumFromXEChecksum(a), DwECCChecksumFromXEChecksum(e)))
    ensures ErrorIsCorrectable(cb, e, a)
        <==> && EccErrorIsCorrectable(cb, DwECCChecksumFromXEChecksum(e), DwECCChecksumFromXEChecksum(a))
             && BitCount(Xor(DwXORChecksumFromXEChecksum(a), DwXORChecksumFromXEChecksum(e)), 32) == 1
  {
    hide IbitOf, Xor, EccErrorIsCorrectable, BitCount, DwECCChecksumFromXEChecksum, DwXORChecksumFromXEChecksum;
  }

  lemma RepairDefs(cb: bv32, e: bv64, a: bv64)
    ensures var d := Xor(DwECCChecksumFromXEChecksum(a), DwECCChecksumFromXEChecksum(e));
            && IbitCorrupted(cb, e, a) == IbitOf(cb, d)
            && (ErrorIsCorrectable(cb, e, a)
                <==> Correctable(cb, d)
                     && BitCount(Xor(DwXORChecksumFromXEChecksum(a), DwXORChecksumFromXEChecksum(e)), 32) == 1)
  {
    hide *;
    ErrorDefs(cb, e, a);
    EccCorrectableDef(cb, DwECCChecksumFromXEChecksum(e), DwECCChecksumFromXEChecksum(a));
  }

  /** One flipped bit is recognised, located and undone. */
  lemma SingleBitRepair(pdw: seq<bv32>, cb: bv32, pgno: bv32, fHeaderBlock: bool, b: nat)
    requires ValidPage(cb, pdw) && CoveredBit(pdw, b, fHeaderBlock)
    ensures |pdw| >= 2 && ValidPage(cb, FlipBit(pdw, b))
    ensures var e := PageChecksum(pdw, cb, pgno, fHeaderBlock);
            var a := PageChecksum(FlipBit(pdw, b), cb, pgno, fHeaderBlock);
            && a != e
            && ErrorIsCorrectable(cb, e, a)
            && IbitCorrupted(cb, e, a) == Num(b)
            && FlipBit(FlipBit(pdw, b), b) == pdw
  {
    hide *;
    CoveredBitDef(pdw, b, fHeaderBlock);
    var page := FlipBit(pdw, b);
    ValidLength(cb, pdw, page);
    var z := Difference(pdw, page, fHeaderBlock);
    var e, a := PageChecksum(pdw, cb, pgno, fHeaderBlock), PageChecksum(page, cb, pgno, fHeaderBlock);
    FlipTwice(pdw, b);
    DifferenceOfFlip(pdw, b, fHeaderBlock);
    SinglePosition(z, b);
    DifferenceCode(pdw, page, cb, pgno, pgno, fHeaderBlock);
    XorZero(pgno);
    XorZero(XorAll(z));
    ValidLength(cb, pdw, z);
    PositionFits(z, cb);
    CorrectableIffOdd(Num(b), true, cb);
    IbitIsLowHalf(Num(b), cb);
    RepairDefs(cb, e, a);
    XorZero(DwXORChecksumFromXEChecksum(e));
    CountZero(32);
  }

  // ----- any accepted difference -----

  /** The exact set of differences the full test accepts: an odd number of bits, whose columns
      xor, together with any difference of the page numbers, to a single bit. */
  lemma AcceptedIff(pdw: seq<bv32>, pdw': seq<bv32>, cb: bv32, pgno: bv32, pgno': bv32, fHeaderBlock: bool)
    requires ValidPage(cb, pdw) && ValidPage(cb, pdw') && |pdw| == |pdw'| >= 2
    ensures var z := Difference(pdw, pdw', fHeaderBlock);
            var e, a := PageChecksum(pdw, cb, pgno, fHeaderBlock), PageChecksum(pdw', cb, pgno', fHeaderBlock);
            ErrorIsCorrectable(cb, e, a)
            <==> SetBits(z) % 2 == 1 && BitCount(Xor(XorAll(z), Xor(pgno', pgno)), 32) == 1
  {
    hide *;
    var e, a := PageChecksum(pdw, cb, pgno, fHeaderBlock), PageChecksum(pdw', cb, pgno', fHeaderBlock);
    DifferenceCode(pdw, pdw', cb, pgno, pgno', fHeaderBlock);
    CorrectableIffOddDifference(pdw, pdw', cb, pgno, pgno', fHeaderBlock);
    ErrorDefs(cb, e, a);
  }

  /** An intact page under a wrong page number is never called correctable. */
  lemma WrongPageNumber(pdw: seq<bv32>, cb: bv32, pgno: bv32, pgno': bv32, fHeaderBlock: bool)
    requires ValidPage(cb, pdw) && |pdw| >= 2
    ensures !ErrorIsCorrectable(cb, PageChecksum(pdw, cb, pgno, fHeaderBlock),
                                PageChecksum(pdw, cb, pgno', fHeaderBlock))
  {
    hide *;
    var z := Difference(pdw, pdw, fHeaderBlock);
    AcceptedIff(pdw, pdw, cb, pgno, pgno', fHeaderBlock);
    DifferenceAt(pdw, pdw, fHeaderBlock);
    forall k | 0 <= k < |z| ensures z[k] == 0 { XorZero(pdw[k]); }
    ZeroWords(z);
    SetBitsParity(z);
    OddZero(32);
    OddDef(0);
  }

  /** The position a confined value denotes. */
  function PositionOf(x: bv32, m: nat): nat
    decreases m
  {
    if m == 0 then 0 else 2 * PositionOf(Half(x), m - 1) + (if Low(x) then 1 else 0)
  }

  lemma PositionOfDef(x: bv32, m: nat)
    ensures PositionOf(x, m) == if m == 0 then 0 else 2 * PositionOf(Half(x), m - 1) + (if Low(x) then 1 else 0)
  {}

  lemma HalfAndLow(x: bv32)
    ensures Xor(Dbl(Half(x)), if Low(x) then 1 else 0) == x
  {}

  lemma {:induction false} PositionOfNum(x: bv32, m: nat)
    requires Fits(x, m)
    ensures Num(PositionOf(x, m)) == x && PositionOf(x, m) < Pow2(m)
    decreases m
  {
    hide *;
    PositionOfDef(x, m);
    Pow2Step(m);
    NumSmall();
    if m == 0 {
      FitsBase(x);
    } else {
      FitsStep(x, m);
      PositionOfNum(Half(x), m - 1);
      NumStep(PositionOf(Half(x), m - 1), if Low(x) then 1 else 0);
      HalfAndLow(x);
    }
  }

  /** The position reported for an accepted difference lies in the page. */
  lemma ReportedPosition(pdw: seq<bv32>, pdw': seq<bv32>, cb: bv32, pgno: bv32, fHeaderBlock: bool) returns (b: nat)
    requires ValidPage(cb, pdw) && ValidPage(cb, pdw') && |pdw| == |pdw'| >= 2
    requires ErrorIsCorrectable(cb, PageChecksum(pdw, cb, pgno, fHeaderBlock),
                                PageChecksum(pdw', cb, pgno, fHeaderBlock))
    ensures b < 32 * |pdw'|
    ensures Num(b) == PositionXor(Difference(pdw, pdw', fHeaderBlock))
    ensures Num(b) == IbitCorrupted(cb, PageChecksum(pdw, cb, pgno, fHeaderBlock),
                                    PageChecksum(pdw', cb, pgno, fHeaderBlock))
  {
    hide *;
    var z := Difference(pdw, pdw', fHeaderBlock);
    var e, a := PageChecksum(pdw, cb, pgno, fHeaderBlock), PageChecksum(pdw', cb, pgno, fHeaderBlock);
    AcceptedIff(pdw, pdw', cb, pgno, pgno, fHeaderBlock);
    SetBitsParity(z);
    DifferenceDef(pdw, pdw', fHeaderBlock);
    ValidLength(cb, pdw, z);
    PositionFits(z, cb);
    PageBits(cb, z);
    b := PositionOf(PositionXor(z), RowBits(cb) + 5);
    PositionOfNum(PositionXor(z), RowBits(cb) + 5);
    DifferenceCode(pdw, pdw', cb, pgno, pgno, fHeaderBlock);
    IbitIsLowHalf(PositionXor(z), cb);
    RepairDefs(cb, e, a);
  }

  /** A page of zeros with bit b set. */
  function UnitPage(n: nat, b: nat): (u: seq<bv32>)
    requires b < 32 * n
    ensures |u| == n
    ensures forall k :: 0 <= k < n ==> u[k] == if k == b / 32 then Shl(b % 32, 1) else 0
  {
    seq(n, k requires 0 <= k < n => if k == b / 32 then Shl(b % 32, 1) else 0)
  }

  lemma FlipIsZip(z: seq<bv32>, b: nat)
    requires b < 32 * |z|
    ensures FlipBit(z, b) == Zip(z, UnitPage(|z|, b))
  {
    hide *;
    FlipBitAt(z, b);
    var u := UnitPage(|z|, b);
    forall k | 0 <= k < |z| ensures FlipBit(z, b)[k] == Zip(z, u)[k] { XorZero(z[k]); }
  }

  lemma XorIsZero(a: bv32, b: bv32)
    ensures Xor(a, b) == 0 <==> a == b
  {
    hide *;
    XorZero(a);
    if Xor(a, b) == 0 {
      XorAssoc(a, b, b);
      XorZero(b);
    }
  }

  lemma CoveredSame(pdw: seq<bv32>, pdw': seq<bv32>, b: nat, fHeaderBlock: bool)
    requires |pdw| == |pdw'| && CoveredBit(pdw', b, fHeaderBlock)
    ensures CoveredBit(pdw, b, fHeaderBlock)
  {}

  lemma FlippedPosition(z: seq<bv32>, u: seq<bv32>)
    requires |z| == |u|
    ensures PositionXor(Zip(z, u)) == Xor(PositionXor(z), PositionXor(u))
    ensures XorAll(Zip(z, u)) == Xor(XorAll(z), XorAll(u))
    ensures Odd(XorAll(Zip(z, u))) == (Odd(XorAll(z)) != Odd(XorAll(u)))
  {
    hide *;
    PositionXorDef(z);
    PositionXorDef(u);
    PositionXorDef(Zip(z, u));
    ZipXor(z, u);
    OddXor(XorAll(z), XorAll(u));
    ColXor(XorAll(z), XorAll(u));
    ShlXor(5, RowXor(z), RowXor(u));
    XorSwap(Shl(5, RowXor(z)), Shl(5, RowXor(u)), Col(XorAll(z)), Col(XorAll(u)));
  }

  lemma HalvesDetermine(r: bv64, e: bv64)
    ensures r == e
            <==> (DwECCChecksumFromXEChecksum(r) == DwECCChecksumFromXEChecksum(e)
                  && DwXORChecksumFromXEChecksum(r) == DwXORChecksumFromXEChecksum(e))
  {}

  lemma CoveredRepair(pdw: seq<bv32>, pdw': seq<bv32>, cb: bv32, pgno: bv32, fHeaderBlock: bool, b: nat)
    requires ValidPage(cb, pdw) && ValidPage(cb, pdw') && |pdw| == |pdw'| >= 2
    requires CoveredBit(pdw', b, fHeaderBlock) && b < 32 * |pdw'| && ValidPage(cb, FlipBit(pdw', b))
    requires SetBits(Difference(pdw, pdw', fHeaderBlock)) % 2 == 1
    requires Num(b) == PositionXor(Difference(pdw, pdw', fHeaderBlock))
    ensures var e := PageChecksum(pdw, cb, pgno, fHeaderBlock);
            var r := PageChecksum(FlipBit(pdw', b), cb, pgno, fHeaderBlock);
            && DwECCChecksumFromXEChecksum(r) == DwECCChecksumFromXEChecksum(e)
            && (r == e <==> XorAll(Difference(pdw, pdw', fHeaderBlock)) == Shl(b % 32, 1))
  {
    hide *;
    var page, z, u := FlipBit(pdw', b), Difference(pdw, pdw', fHeaderBlock), UnitPage(|pdw|, b);
    var z' := Difference(pdw, page, fHeaderBlock);
    var e, r := PageChecksum(pdw, cb, pgno, fHeaderBlock), PageChecksum(page, cb, pgno, fHeaderBlock);
    CoveredSame(pdw, pdw', b, fHeaderBlock);
    FlipDifference(pdw, pdw', b, fHeaderBlock);
    FlipIsZip(z, b);
    SinglePosition(u, b);
    FlippedPosition(z, u);
    SetBitsParity(z);
    XorZero(Num(b));
    CombNothing(PositionMask(cb));
    DifferenceCode(pdw, page, cb, pgno, pgno, fHeaderBlock);
    XorIsZero(DwECCChecksumFromXEChecksum(r), DwECCChecksumFromXEChecksum(e));
    XorIsZero(DwXORChecksumFromXEChecksum(r), DwXORChecksumFromXEChecksum(e));
    XorZero(pgno);
    XorZero(XorAll(z'));
    XorIsZero(XorAll(z), Shl(b % 32, 1));
    HalvesDetermine(r, e);
  }

  lemma FlipOutside(pdw: seq<bv32>, pdw': seq<bv32>, b: nat, fHeaderBlock: bool)
    requires |pdw| == |pdw'| >= 2 && !CoveredBit(pdw', b, fHeaderBlock) && b < 32 * |pdw'|
    ensures fHeaderBlock && b < 64
    ensures Difference(pdw, FlipBit(pdw', b), fHeaderBlock) == Difference(pdw, pdw', fHeaderBlock)
  {
    hide *;
    CoveredBitDef(pdw', b, fHeaderBlock);
    var page := FlipBit(pdw', b);
    DifferenceAt(pdw, pdw', fHeaderBlock);
    DifferenceAt(pdw, page, fHeaderBlock);
    FlipBitAt(pdw', b);
    assert b / 32 < 2;
    assert forall k :: 0 <= k < |pdw| ==>
      Difference(pdw, page, fHeaderBlock)[k] == Difference(pdw, pdw', fHeaderBlock)[k];
  }

  lemma SameCodeRefused(cb: bv32, pdw: seq<bv32>, code: bv32)
    requires ValidPage(cb, pdw)
    ensures !EccErrorIsCorrectable(cb, code, code)
  {}

  /** Outside the covered bits nothing is restored: the difference, and so the code, stays. */
  lemma UncoveredRepair(pdw: seq<bv32>, pdw': seq<bv32>, cb: bv32, pgno: bv32, fHeaderBlock: bool, b: nat)
    requires ValidPage(cb, pdw) && ValidPage(cb, pdw') && |pdw| == |pdw'| >= 2
    requires !CoveredBit(pdw', b, fHeaderBlock) && b < 32 * |pdw'| && ValidPage(cb, FlipBit(pdw', b))
    requires SetBits(Difference(pdw, pdw', fHeaderBlock)) % 2 == 1
    ensures DwECCChecksumFromXEChecksum(PageChecksum(FlipBit(pdw', b), cb, pgno, fHeaderBlock))
            != DwECCChecksumFromXEChecksum(PageChecksum(pdw, cb, pgno, fHeaderBlock))
  {
    hide *;
    var page := FlipBit(pdw', b);
    FlipOutside(pdw, pdw', b, fHeaderBlock);
    CorrectableIffOddDifference(pdw, page, cb, pgno, pgno, fHeaderBlock);
    SameCodeRefused(cb, pdw, DwECCChecksumFromXEChecksum(PageChecksum(pdw, cb, pgno, fHeaderBlock)));
  }

  /** Flipping the reported bit restores the expected code exactly when that bit is covered. It
      restores the whole checksum exactly when, besides, the columns of the corrupted bits xor to
      its column. */
  lemma RepairRestores(pdw: seq<bv32>, pdw': seq<bv32>, cb: bv32, pgno: bv32, fHeaderBlock: bool, b: nat)
    requires ValidPage(cb, pdw) && ValidPage(cb, pdw') && |pdw| == |pdw'| >= 2 && b < 32 * |pdw'|
    requires SetBits(Difference(pdw, pdw', fHeaderBlock)) % 2 == 1
    requires Num(b) == PositionXor(Difference(pdw, pdw', fHeaderBlock))
    ensures ValidPage(cb, FlipBit(pdw', b))
    ensures var e := PageChecksum(pdw, cb, pgno, fHeaderBlock);
            var r := PageChecksum(FlipBit(pdw', b), cb, pgno, fHeaderBlock);
            && (DwECCChecksumFromXEChecksum(r) == DwECCChecksumFromXEChecksum(e) <==> CoveredBit(pdw', b, fHeaderBlock))
            && (r == e <==> CoveredBit(pdw', b, fHeaderBlock)
                            && XorAll(Difference(pdw, pdw', fHeaderBlock)) == Shl(b % 32, 1))
  {
    hide *;
    ValidLength(cb, pdw', FlipBit(pdw', b));
    HalvesDetermine(PageChecksum(FlipBit(pdw', b), cb, pgno, fHeaderBlock), PageChecksum(pdw, cb, pgno, fHeaderBlock));
    if CoveredBit(pdw', b, fHeaderBlock) {
      CoveredRepair(pdw, pdw', cb, pgno, fHeaderBlock, b);
    } else {
      UncoveredRepair(pdw, pdw', cb, pgno, fHeaderBlock, b);
    }
  }

  // ----- three bits repaired wrongly -----

  /** Three bits of a header page whose positions cancel. */
  function ThreeFlips(pdw: seq<bv32>): (page: seq<bv32>)
    requires |pdw| >= 8
    ensures |page| == |pdw|
  {
    FlipBit(FlipBit(FlipBit(pdw, 64), 128), 192)
  }

  lemma Pow2Seven()
    ensures Pow2(7) == 128
  {
    assert Pow2(3) == 8;
  }

  lemma PositionsCancel()
    ensures Xor(Xor(Xor(0, Num(64)), Num(128)), Num(192)) == 0
  {
    hide *;
    var x := Shl(7, Num(1));
    Pow2Seven();
    NumSplit(1, 7, 0);
    NumSplit(1, 7, 64);
    NumSmall();
    XorZero(x);
    XorZero(Num(64));
    XorComm(0, Num(64));
    XorComm(Num(64), x);
    XorZero(Xor(x, Num(64)));
  }

  /** One more flipped bit in a difference. */
  lemma OneMoreFlip(z: seq<bv32>, b: nat)
    requires b < 32 * |z|
    ensures var z' := FlipBit(z, b);
            && PositionXor(z') == Xor(PositionXor(z), Num(b))
            && XorAll(z') == Xor(XorAll(z), Shl(b % 32, 1))
            && Odd(XorAll(z')) == !Odd(XorAll(z))
  {
    hide *;
    var u := UnitPage(|z|, b);
    FlipIsZip(z, b);
    SinglePosition(u, b);
    FlippedPosition(z, u);
  }

  lemma ThreeFlipsDef(pdw: seq<bv32>)
    requires |pdw| >= 8
    ensures ThreeFlips(pdw) == FlipBit(FlipBit(FlipBit(pdw, 64), 128), 192)
  {}

  lemma NoDifference(pdw: seq<bv32>)
    requires |pdw| >= 2
    ensures var z := Difference(pdw, pdw, true);
            PositionXor(z) == 0 && XorAll(z) == 0 && !Odd(XorAll(z))
  {
    hide *;
    var z := Difference(pdw, pdw, true);
    DifferenceAt(pdw, pdw, true);
    forall k | 0 <= k < |z| ensures z[k] == 0 { XorZero(pdw[k]); }
    ZeroWords(z);
    PositionXorDef(z);
    ColDef(0);
    ColZero(32, 0);
    ShlOfZero(5);
    XorZero(0);
    OddZero(32);
    OddDef(0);
  }

  lemma ThreeFlipsDifference(pdw: seq<bv32>)
    requires |pdw| >= 8
    ensures var z := Difference(pdw, ThreeFlips(pdw), true);
            PositionXor(z) == 0 && XorAll(z) == 1 && Odd(XorAll(z))
  {
    hide *;
    var p1, p2 := FlipBit(pdw, 64), FlipBit(FlipBit(pdw, 64), 128);
    var z0, z1, z2 := Difference(pdw, pdw, true), Difference(pdw, p1, true), Difference(pdw, p2, true);
    ThreeFlipsDef(pdw);
    NoDifference(pdw);
    CoveredBitDef(pdw, 64, true);
    CoveredBitDef(pdw, 128, true);
    CoveredBitDef(pdw, 192, true);
    DifferenceDef(pdw, pdw, true);
    DifferenceDef(pdw, p1, true);
    DifferenceDef(pdw, p2, true);
    FlipDifference(pdw, pdw, 64, true);
    FlipDifference(pdw, p1, 128, true);
    FlipDifference(pdw, p2, 192, true);
    OneMoreFlip(z0, 64);
    OneMoreFlip(z1, 128);
    OneMoreFlip(z2, 192);
    PositionsCancel();
    ShlZero(1);
    XorZero(1);
    XorComm(0, 1);
  }

  /** The checksum does not see a bit it does not cover. */
  lemma UncoveredFlip(pdw: seq<bv32>, cb: bv32, pgno: bv32, b: nat)
    requires ValidPage(cb, pdw) && |pdw| >= 2 && b < 64 && ValidPage(cb, FlipBit(pdw, b))
    ensures PageChecksum(FlipBit(pdw, b), cb, pgno, true) == PageChecksum(pdw, cb, pgno, true)
  {
    hide *;
    var page := FlipBit(pdw, b);
    var e, a := PageChecksum(pdw, cb, pgno, true), PageChecksum(page, cb, pgno, true);
    CoveredBitDef(pdw, b, true);
    FlipOutside(pdw, pdw, b, true);
    NoDifference(pdw);
    CombNothing(PositionMask(cb));
    DifferenceCode(pdw, page, cb, pgno, pgno, true);
    XorZero(pgno);
    XorZero(0);
    XorIsZero(DwECCChecksumFromXEChecksum(a), DwECCChecksumFromXEChecksum(e));
    XorIsZero(DwXORChecksumFromXEChecksum(a), DwXORChecksumFromXEChecksum(e));
    HalvesDetermine(a, e);
  }

  lemma PageLength(cb: bv32, pdw: seq<bv32>)
    requires ValidPage(cb, pdw)
    ensures |pdw| >= 8
  {}

  /** Flip bits 64, 128 and 192 of any header page: the full test accepts, the reported position
      is 0, and flipping bit 0, which the checksum does not cover, changes nothing. */
  lemma ThreeFlipsMisrepaired(pdw: seq<bv32>, cb: bv32, pgno: bv32)
    requires ValidPage(cb, pdw)
    ensures |pdw| >= 8 && ValidPage(cb, ThreeFlips(pdw)) && ValidPage(cb, FlipBit(ThreeFlips(pdw), 0))
    ensures var e, a := PageChecksum(pdw, cb, pgno, true), PageChecksum(ThreeFlips(pdw), cb, pgno, true);
            && ErrorIsCorrectable(cb, e, a) && IbitCorrupted(cb, e, a) == 0
            && PageChecksum(FlipBit(ThreeFlips(pdw), 0), cb, pgno, true) == a != e
  {
    hide *;
    PageLength(cb, pdw);
    var page := ThreeFlips(pdw);
    ValidLength(cb, pdw, page);
    ValidLength(cb, pdw, FlipBit(page, 0));
    ThreeFlipsDifference(pdw);
    SetBitsParity(Difference(pdw, page, true));
    XorZero(pgno);
    XorZero(1);
    OneBit(0, 0, 32);
    ShlZero(1);
    AcceptedIff(pdw, page, cb, pgno, pgno, true);
    var b := ReportedPosition(pdw, page, cb, pgno, true);
    CoveredBitDef(page, 0, true);
    NumSmall();
    RepairRestores(pdw, page, cb, pgno, true, 0);
    UncoveredFlip(page, cb, pgno, 0);
  }
}
