/** What the page checksum is meant to be: the xor of all 32-bit words, and an
    error-correcting code whose low half is the xor of the positions of all set
    bits and whose high half is the xor of the complemented positions.  The second
    half of the module rewrites that definition into the row/column form from which
    every implementation is derived. */
module PageEcc {
  import opened Bits

  // ----- the definition -----

  /** A page size the checksum accepts, with the page as 32-bit words. */
  predicate ValidPage(cb: bv32, pdw: seq<bv32>) {
    || (cb == 1024 && |pdw| == 256)
    || (cb == 2048 && |pdw| == 512)
    || (cb == 4096 && |pdw| == 1024)
    || (cb == 8192 && |pdw| == 2048)
  }

  /** The number of bits in a word index of the page. */
  function RowBits(cb: bv32): nat {
    if cb == 1024 then 8 else if cb == 2048 then 9 else if cb == 4096 then 10 else 11
  }

  /** Mask of a bit position within the page. */
  function PositionMask(cb: bv32): bv32 { (cb << 3) - 1 }

  /** The words the checksum covers: a header block ignores its first 8 bytes. */
  function Covered(pdw: seq<bv32>, fHeaderBlock: bool): (s: seq<bv32>)
    requires |pdw| >= 2
    ensures |s| == |pdw|
    ensures forall i :: 0 <= i < |s| ==> s[i] == if fHeaderBlock && i < 2 then 0 else pdw[i]
  {
    if fHeaderBlock then [0, 0] + pdw[2..] else pdw
  }

  /** What one set bit at position b adds to the code. */
  function Contribution(b: nat, mask: bv32): bv32 {
    Xor(Num(b), Hi(And(Not(Num(b)), mask)))
  }

  /** The contributions of the n low bits of w, the lowest being at position base. */
  function WordEcc(w: bv32, base: nat, n: nat, mask: bv32): bv32
    decreases n
  {
    if n == 0 then 0
    else Xor(Sel(Low(w), Contribution(base, mask)), WordEcc(Half(w), base + 1, n - 1, mask))
  }

  /** The contributions of all set bits; bit j of word i is at position 32 i + j. */
  function EccOf(words: seq<bv32>, mask: bv32): bv32 {
    if |words| == 0 then 0
    else
      var n := |words| - 1;
      Xor(EccOf(words[..n], mask), WordEcc(words[n], 32 * n, 32, mask))
  }

  function XorAll(words: seq<bv32>): bv32 {
    if |words| == 0 then 0 else Xor(XorAll(words[..|words| - 1]), words[|words| - 1])
  }

  function MakeChecksumFromECCXORAndPgno(ecc: bv32, xorChecksum: bv32, pgno: bv32): bv64 {
    ((ecc as bv64) << 32) | ((xorChecksum ^ pgno) as bv64)
  }

  /** The checksum of a page. */
  function PageChecksum(pdw: seq<bv32>, cb: bv32, pgno: bv32, fHeaderBlock: bool): bv64
    requires ValidPage(cb, pdw)
  {
    var words := Covered(pdw, fHeaderBlock);
    MakeChecksumFromECCXORAndPgno(EccOf(words, PositionMask(cb)), XorAll(words), pgno)
  }

  // ----- row and column form -----

  /** The xor of the indexes of the words that have odd parity. */
  function RowXor(words: seq<bv32>): bv32 {
    if |words| == 0 then 0
    else
      var n := |words| - 1;
      Xor(RowXor(words[..n]), Sel(Odd(words[n]), Num(n)))
  }

  /** The xor of base + j over the set bits j < n of w. */
  function WordPos(w: bv32, base: nat, n: nat): bv32
    decreases n
  {
    if n == 0 then 0
    else Xor(Sel(Low(w), Num(base)), WordPos(Half(w), base + 1, n - 1))
  }

  /** The xor of the column numbers of the set bits. */
  function Col(w: bv32): bv32 { WordPos(w, 0, 32) }

  /** A code word from its low half and the parity of the number of set bits. */
  function Comb(low: bv32, odd: bool, mask: bv32): bv32 {
    Xor(low, Hi(Xor(low, Sel(odd, mask))))
  }

  lemma CombDef(low: bv32, odd: bool, mask: bv32)
    ensures Comb(low, odd, mask) == Xor(low, Hi(Xor(low, Sel(odd, mask))))
  {}

  lemma CombXor(a: bv32, p: bool, b: bv32, q: bool, mask: bv32)
    ensures Comb(Xor(a, b), p != q, mask) == Xor(Comb(a, p, mask), Comb(b, q, mask))
  {
    CombDef(a, p, mask);
    CombDef(b, q, mask);
    CombDef(Xor(a, b), p != q, mask);
    hide *;
    var sa, sb := Xor(a, Sel(p, mask)), Xor(b, Sel(q, mask));
    SelXor(p, q, mask);
    XorSwap(a, b, Sel(p, mask), Sel(q, mask));
    HiXor(sa, sb);
    XorSwap(a, b, Hi(sa), Hi(sb));
  }

  /** All ones in the m low bits. */
  function Ones(m: nat): bv32 {
    if m == 0 then 0 else Xor(Dbl(Ones(m - 1)), 1)
  }

  lemma FitsBase(x: bv32)
    ensures Fits(x, 0) == (x == 0)
  {}

  lemma OnesStep(m: nat)
    ensures Ones(m) == if m == 0 then 0 else Xor(Dbl(Ones(m - 1)), 1)
  {}

  lemma AndHalf(x: bv32, o: bv32)
    requires And(Half(x), o) == Half(x)
    ensures And(x, Xor(Dbl(o), 1)) == x
  {}

  lemma {:induction false} FitsOnes(x: bv32, m: nat)
    requires Fits(x, m)
    ensures And(x, Ones(m)) == x
    decreases m
  {
    hide *;
    FitsBase(x);
    OnesStep(m);
    if m == 0 {
      AndExtremes(x);
    } else {
      FitsStep(x, m);
      FitsOnes(Half(x), m - 1);
      AndHalf(x, Ones(m - 1));
    }
  }

  lemma ContributionDef(b: nat, mask: bv32)
    ensures Contribution(b, mask) == Xor(Num(b), Hi(And(Not(Num(b)), mask)))
  {}

  lemma NotDef(x: bv32)
    ensures Not(x) == !x
  {}

  lemma ComplementRaw(x: bv32, mask: bv32)
    requires x & mask == x
    ensures !x & mask == x ^ mask
  {}

  lemma Complement(x: bv32, mask: bv32)
    requires And(x, mask) == x
    ensures And(Not(x), mask) == Xor(x, mask)
  {
    hide *;
    AndDef(x, mask);
    NotDef(x);
    AndDef(!x, mask);
    XorDef(x, mask);
    ComplementRaw(x, mask);
  }

  /** A single position's contribution, when the position fits the mask. */
  lemma ContributionIsComb(b: nat, mask: bv32)
    requires And(Num(b), mask) == Num(b)
    ensures Contribution(b, mask) == Comb(Num(b), true, mask)
  {
    ContributionDef(b, mask);
    CombDef(Num(b), true, mask);
    hide *;
    Complement(Num(b), mask);
    SelDef(true, mask);
  }

  // ----- the code of one word -----

  lemma WordZero(w: bv32, base: nat, mask: bv32)
    ensures WordEcc(w, base, 0, mask) == 0 && WordPos(w, base, 0) == 0
  {}

  lemma WordStep(w: bv32, base: nat, n: nat, mask: bv32)
    requires n > 0
    ensures WordEcc(w, base, n, mask)
         == Xor(Sel(Low(w), Contribution(base, mask)), WordEcc(Half(w), base + 1, n - 1, mask))
    ensures WordPos(w, base, n) == Xor(Sel(Low(w), Num(base)), WordPos(Half(w), base + 1, n - 1))
  {}

  lemma CombNothing(mask: bv32)
    ensures Comb(0, false, mask) == 0
  {}

  lemma CombSel(c: bool, x: bv32, mask: bv32)
    ensures Sel(c, Comb(x, true, mask)) == Comb(Sel(c, x), c, mask)
  {
    hide *;
    SelDef(c, x);
    SelDef(c, Comb(x, true, mask));
    CombNothing(mask);
  }

  lemma {:induction false} WordEccIsComb(w: bv32, base: nat, n: nat, bits: nat)
    requires base + n <= Pow2(bits)
    ensures WordEcc(w, base, n, Ones(bits)) == Comb(WordPos(w, base, n), OddBits(w, n), Ones(bits))
    decreases n
  {
    hide *;
    var mask := Ones(bits);
    if n == 0 {
      WordZero(w, base, mask);
      OddNone(w);
      CombNothing(mask);
    } else {
      WordStep(w, base, n, mask);
      OddStep(w, n);
      WordEccIsComb(Half(w), base + 1, n - 1, bits);
      NumFits(base, bits);
      FitsOnes(Num(base), bits);
      ContributionIsComb(base, mask);
      CombSel(Low(w), Num(base), mask);
      CombXor(Sel(Low(w), Num(base)), Low(w), WordPos(Half(w), base + 1, n - 1), OddBits(Half(w), n - 1), mask);
    }
  }

  /** Positions of an aligned word: the word's index, if parity is odd, and the code of
      the positions within it. */
  lemma {:induction false} WordPosAligned(w: bv32, k: nat, m: nat, j: nat, n: nat)
    requires j + n <= Pow2(m)
    ensures WordPos(w, k * Pow2(m) + j, n) == Xor(Sel(OddBits(w, n), Shl(m, Num(k))), WordPos(w, j, n))
    decreases n
  {
    hide *;
    var row := Shl(m, Num(k));
    if n == 0 {
      WordZero(w, k * Pow2(m) + j, 0);
      WordZero(w, j, 0);
      OddNone(w);
      SelDef(false, row);
      XorZero(0);
    } else {
      var rest := WordPos(Half(w), j + 1, n - 1);
      WordStep(w, k * Pow2(m) + j, n, 0);
      WordStep(w, j, n, 0);
      OddStep(w, n);
      WordPosAligned(Half(w), k, m, j + 1, n - 1);
      NumSplit(k, m, j);
      SelOfXor(Low(w), row, Num(j));
      SelXor(Low(w), OddBits(Half(w), n - 1), row);
      XorSwap(Sel(Low(w), row), Sel(Low(w), Num(j)), Sel(OddBits(Half(w), n - 1), row), rest);
    }
  }

  lemma {:induction false} WordPosXor(a: bv32, b: bv32, base: nat, n: nat)
    ensures WordPos(Xor(a, b), base, n) == Xor(WordPos(a, base, n), WordPos(b, base, n))
    decreases n
  {
    hide *;
    if n == 0 {
      WordZero(a, base, 0);
      WordZero(b, base, 0);
      WordZero(Xor(a, b), base, 0);
      XorZero(0);
    } else {
      WordStep(a, base, n, 0);
      WordStep(b, base, n, 0);
      WordStep(Xor(a, b), base, n, 0);
      LowXor(a, b);
      HalfXor(a, b);
      SelXor(Low(a), Low(b), Num(base));
      WordPosXor(Half(a), Half(b), base + 1, n - 1);
      XorSwap(Sel(Low(a), Num(base)), Sel(Low(b), Num(base)),
              WordPos(Half(a), base + 1, n - 1), WordPos(Half(b), base + 1, n - 1));
    }
  }

  lemma {:induction false} WordPosSplit(w: bv32, base: nat, a: nat, b: nat)
    ensures WordPos(w, base, a + b) == Xor(WordPos(w, base, a), WordPos(Shr(a, w), base + a, b))
    decreases a
  {
    hide *;
    if a == 0 {
      WordZero(w, base, 0);
      ShrZero(w);
      XorZero(WordPos(w, base, b));
    } else {
      WordStep(w, base, a + b, 0);
      WordStep(w, base, a, 0);
      ShrStep(a, w);
      WordPosSplit(Half(w), base + 1, a - 1, b);
      XorAssoc(Sel(Low(w), Num(base)), WordPos(Half(w), base + 1, a - 1), WordPos(Shr(a, w), base + a, b));
    }
  }

  lemma ColDef(w: bv32)
    ensures Col(w) == WordPos(w, 0, 32)
  {}

  lemma ColXor(a: bv32, b: bv32)
    ensures Col(Xor(a, b)) == Xor(Col(a), Col(b))
  {
    hide *;
    ColDef(a);
    ColDef(b);
    ColDef(Xor(a, b));
    WordPosXor(a, b, 0, 32);
  }

  // ----- the code of a page -----

  lemma Pow2Five()
    ensures Pow2(5) == 32
  {}

  lemma RowNothing(words: seq<bv32>)
    requires |words| == 0
    ensures RowXor(words) == 0 && XorAll(words) == 0
    ensures forall mask :: EccOf(words, mask) == 0
  {}

  lemma {:induction false} ShlOfZero(m: nat)
    ensures Shl(m, 0) == 0
  {
    if m > 0 { ShlOfZero(m - 1); }
  }

  lemma {:induction false} ColZero(n: nat, base: nat)
    ensures WordPos(0, base, n) == 0
    decreases n
  {
    if n > 0 { ColZero(n - 1, base + 1); }
  }

  lemma EmptyPage(words: seq<bv32>, mask: bv32)
    requires |words| == 0
    ensures EccOf(words, mask) == 0
    ensures Comb(Xor(Shl(5, RowXor(words)), Col(XorAll(words))), Odd(XorAll(words)), mask) == 0
  {
    hide *;
    RowNothing(words);
    ShlOfZero(5);
    ColZero(32, 0);
    ColDef(0);
    OddZero(32);
    OddDef(0);
    XorZero(0);
    CombNothing(mask);
  }

  lemma PageStep(words: seq<bv32>, mask: bv32)
    requires |words| > 0
    ensures var n := |words| - 1;
            && EccOf(words, mask) == Xor(EccOf(words[..n], mask), WordEcc(words[n], 32 * n, 32, mask))
            && RowXor(words) == Xor(RowXor(words[..n]), Sel(Odd(words[n]), Num(n)))
            && XorAll(words) == Xor(XorAll(words[..n]), words[n])
  {}

  /** The row/column form: the code is determined by the xor of the odd rows'
      indexes and by the xor of all words. */
  lemma {:induction false} EccRowColumn(words: seq<bv32>, bits: nat)
    requires 32 * |words| <= Pow2(bits)
    ensures EccOf(words, Ones(bits))
         == Comb(Xor(Shl(5, RowXor(words)), Col(XorAll(words))), Odd(XorAll(words)), Ones(bits))
  {
    hide *;
    var mask := Ones(bits);
    if |words| == 0 {
      EmptyPage(words, mask);
    } else {
      var n := |words| - 1;
      var front, w := words[..n], words[n];
      PageStep(words, mask);
      EccRowColumn(front, bits);
      WordEccIsComb(w, 32 * n, 32, bits);
      OddDef(w);
      Pow2Five();
      assert n * Pow2(5) + 0 == 32 * n;
      WordPosAligned(w, n, 5, 0, 32);
      ColDef(w);
      CombXor(Xor(Shl(5, RowXor(front)), Col(XorAll(front))), Odd(XorAll(front)),
              Xor(Sel(Odd(w), Shl(5, Num(n))), Col(w)), Odd(w), mask);
      XorSwap(Shl(5, RowXor(front)), Col(XorAll(front)), Sel(Odd(w), Shl(5, Num(n))), Col(w));
      ColXor(XorAll(front), w);
      OddXor(XorAll(front), w);
      ShlSel(5, Odd(w), Num(n));
      ShlXor(5, RowXor(front), Sel(Odd(w), Num(n)));
    }
  }

  lemma {:induction false} ZeroWords(words: seq<bv32>)
    requires forall i :: 0 <= i < |words| ==> words[i] == 0
    ensures RowXor(words) == 0 && XorAll(words) == 0
  {
    hide *;
    if |words| == 0 {
      RowNothing(words);
    } else {
      var n := |words| - 1;
      ZeroWords(words[..n]);
      PageStep(words, 0);
      OddZero(32);
      OddDef(0);
      SelDef(false, Num(n));
      XorZero(0);
    }
  }

  // ----- block decomposition -----

  /** Word-by-word xor. */
  function Zip(s: seq<bv32>, t: seq<bv32>): (z: seq<bv32>)
    requires |s| == |t|
    ensures |z| == |s|
    ensures forall i :: 0 <= i < |s| ==> z[i] == Xor(s[i], t[i])
  {
    seq(|s|, i requires 0 <= i < |s| => Xor(s[i], t[i]))
  }

  lemma {:induction false} ZipXor(s: seq<bv32>, t: seq<bv32>)
    requires |s| == |t|
    ensures XorAll(Zip(s, t)) == Xor(XorAll(s), XorAll(t))
    ensures RowXor(Zip(s, t)) == Xor(RowXor(s), RowXor(t))
  {
    hide *;
    var z := Zip(s, t);
    if |s| == 0 {
      RowNothing(s);
      RowNothing(t);
      RowNothing(z);
      XorZero(0);
    } else {
      var n := |s| - 1;
      ZipXor(s[..n], t[..n]);
      assert Zip(s[..n], t[..n]) == z[..n];
      PageStep(s, 0);
      PageStep(t, 0);
      PageStep(z, 0);
      XorSwap(XorAll(s[..n]), XorAll(t[..n]), s[n], t[n]);
      OddXor(s[n], t[n]);
      SelXor(Odd(s[n]), Odd(t[n]), Num(n));
      XorSwap(RowXor(s[..n]), RowXor(t[..n]), Sel(Odd(s[n]), Num(n)), Sel(Odd(t[n]), Num(n)));
    }
  }

  lemma {:induction false} ConcatXor(s: seq<bv32>, t: seq<bv32>)
    ensures XorAll(s + t) == Xor(XorAll(s), XorAll(t))
    decreases |t|
  {
    hide *;
    if |t| == 0 {
      assert s + t == s;
      RowNothing(t);
      XorZero(XorAll(s));
    } else {
      var n, u := |t| - 1, s + t;
      assert u[..|u| - 1] == s + t[..n] && u[|u| - 1] == t[n];
      ConcatXor(s, t[..n]);
      PageStep(u, 0);
      PageStep(t, 0);
      XorAssoc(XorAll(s), XorAll(t[..n]), t[n]);
    }
  }

  /** Appending up to 2^m words after k aligned blocks of 2^m words. */
  lemma {:induction false} AppendBlock(s: seq<bv32>, t: seq<bv32>, k: nat, m: nat)
    requires |s| == k * Pow2(m) && |t| <= Pow2(m)
    ensures RowXor(s + t) == Xor(RowXor(s), Xor(Sel(Odd(XorAll(t)), Shl(m, Num(k))), RowXor(t)))
    decreases |t|
  {
    hide *;
    var base := Shl(m, Num(k));
    if |t| == 0 {
      assert s + t == s;
      RowNothing(t);
      OddZero(32);
      OddDef(0);
      SelDef(false, base);
      XorZero(RowXor(s));
      XorZero(0);
    } else {
      var n := |t| - 1;
      var front, w := t[..n], t[n];
      var u := s + t;
      assert u[..|u| - 1] == s + front && u[|u| - 1] == w;
      AppendBlock(s, front, k, m);
      PageStep(u, 0);
      PageStep(t, 0);
      NumSplit(k, m, n);
      SelOfXor(Odd(w), base, Num(n));
      OddXor(XorAll(front), w);
      SelXor(Odd(XorAll(front)), Odd(w), base);
      XorAssoc(RowXor(s), Xor(Sel(Odd(XorAll(front)), base), RowXor(front)),
               Xor(Sel(Odd(w), base), Sel(Odd(w), Num(n))));
      XorSwap(Sel(Odd(XorAll(front)), base), RowXor(front), Sel(Odd(w), base), Sel(Odd(w), Num(n)));
    }
  }

  /** What a pass over blocks of 2^m words maintains: the rows seen so far, from the
      xor of the indexes of the odd blocks and from the xor of the blocks themselves. */
  ghost predicate BlockForm(done: seq<bv32>, m: nat, blocks: bv32, acc: seq<bv32>) {
    && RowXor(done) == Xor(Shl(m, blocks), RowXor(acc))
    && XorAll(done) == XorAll(acc)
  }

  lemma BlockDef(done: seq<bv32>, m: nat, blocks: bv32, acc: seq<bv32>)
    ensures BlockForm(done, m, blocks, acc)
        <==> && RowXor(done) == Xor(Shl(m, blocks), RowXor(acc))
             && XorAll(done) == XorAll(acc)
  {}

  lemma BlockStart(done: seq<bv32>, m: nat, acc: seq<bv32>)
    requires |done| == 0
    requires RowXor(acc) == 0 && XorAll(acc) == 0
    ensures BlockForm(done, m, 0, acc)
  {
    hide *;
    BlockDef(done, m, 0, acc);
    RowNothing(done);
    ShlOfZero(m);
    XorZero(0);
  }

  lemma BlockAdvance(done: seq<bv32>, m: nat, k: nat, blocks: bv32, acc: seq<bv32>, t: seq<bv32>)
    requires |done| == k * Pow2(m) && |acc| == |t| == Pow2(m)
    requires BlockForm(done, m, blocks, acc)
    ensures BlockForm(done + t, m, Xor(blocks, Sel(Odd(XorAll(t)), Num(k))), Zip(acc, t))
  {
    hide *;
    var o := Odd(XorAll(t));
    BlockDef(done, m, blocks, acc);
    BlockDef(done + t, m, Xor(blocks, Sel(o, Num(k))), Zip(acc, t));
    ConcatXor(done, t);
    AppendBlock(done, t, k, m);
    ZipXor(acc, t);
    ShlXor(m, blocks, Sel(o, Num(k)));
    ShlSel(m, o, Num(k));
    XorSwap(Shl(m, blocks), RowXor(acc), Sel(o, Shl(m, Num(k))), RowXor(t));
  }
}
