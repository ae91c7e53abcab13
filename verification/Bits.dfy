/** Named 32-bit operations and the algebra the page checksum rests on.  Each
    operator has its own small function so that the structural lemmas can hide all
    bodies and argue from the laws below instead of from single bits. */
module Bits {

  // ----- operators -----

  function Xor(a: bv32, b: bv32): bv32 { a ^ b }

  function And(a: bv32, b: bv32): bv32 { a & b }

  function Or(a: bv32, b: bv32): bv32 { a | b }

  function Not(a: bv32): bv32 { !a }

  /** w << 16 */
  function Hi(w: bv32): bv32 { w << 16 }

  function Half(w: bv32): bv32 { w >> 1 }

  function Down8(w: bv32): bv32 { w >> 8 }

  function Dbl(w: bv32): bv32 { w << 1 }

  function Inc(w: bv32): bv32 { w + 1 }

  predicate Low(w: bv32) { w & 1 == 1 }

  /** x when c holds, zero otherwise. */
  function Sel(c: bool, x: bv32): bv32 { if c then x else 0 }

  /** The C idiom -( !!c ). */
  function MaskOf(c: bool): bv32 { if c then 0xffff_ffff else 0 }

  /** w << m */
  function Shl(m: nat, w: bv32): bv32
    decreases m
  {
    if m == 0 then w else Dbl(Shl(m - 1, w))
  }

  /** w >> m */
  function Shr(m: nat, w: bv32): bv32
    decreases m
  {
    if m == 0 then w else Shr(m - 1, Half(w))
  }

  // ----- laws of the operators -----

  lemma XorDef(a: bv32, b: bv32)
    ensures Xor(a, b) == a ^ b
  {}

  lemma XorAssocRaw(a: bv32, b: bv32, c: bv32)
    ensures Xor(a ^ b, c) == Xor(a, b ^ c)
  {
    calc { Xor(a ^ b, c); (a ^ b) ^ c; a ^ (b ^ c); Xor(a, b ^ c); }
  }

  lemma XorAssoc(a: bv32, b: bv32, c: bv32)
    ensures Xor(Xor(a, b), c) == Xor(a, Xor(b, c))
  {
    hide *;
    XorAssocRaw(a, b, c);
    XorDef(a, b);
    XorDef(b, c);
  }

  lemma XorComm(a: bv32, b: bv32)
    ensures Xor(a, b) == Xor(b, a)
  {}

  lemma XorSwap(a: bv32, b: bv32, c: bv32, d: bv32)
    ensures Xor(Xor(a, b), Xor(c, d)) == Xor(Xor(a, c), Xor(b, d))
  {
    hide *;
    XorAssoc(a, b, Xor(c, d));
    XorAssoc(b, c, d);
    XorComm(b, c);
    XorAssoc(c, b, d);
    XorAssoc(a, c, Xor(b, d));
  }

  lemma XorZero(a: bv32)
    ensures Xor(a, 0) == a && Xor(0, a) == a && Xor(a, a) == 0
  {}

  lemma HalfXor(a: bv32, b: bv32)
    ensures Half(Xor(a, b)) == Xor(Half(a), Half(b))
  {}

  lemma DblXor(a: bv32, b: bv32)
    ensures Dbl(Xor(a, b)) == Xor(Dbl(a), Dbl(b))
  {}

  lemma HiXor(a: bv32, b: bv32)
    ensures Hi(Xor(a, b)) == Xor(Hi(a), Hi(b))
  {}

  lemma LowXor(a: bv32, b: bv32)
    ensures Low(Xor(a, b)) == (Low(a) != Low(b))
  {}

  lemma SelDef(c: bool, x: bv32)
    ensures Sel(c, x) == if c then x else 0
  {}

  lemma SelXor(c: bool, d: bool, x: bv32)
    ensures Sel(c != d, x) == Xor(Sel(c, x), Sel(d, x))
  {
    hide *;
    SelDef(c, x);
    SelDef(d, x);
    SelDef(c != d, x);
    XorZero(x);
    XorZero(0);
  }

  lemma SelOfXor(c: bool, x: bv32, y: bv32)
    ensures Sel(c, Xor(x, y)) == Xor(Sel(c, x), Sel(c, y))
  {}

  lemma MaskXor(c: bool, d: bool)
    ensures MaskOf(c != d) == Xor(MaskOf(c), MaskOf(d))
  {}

  lemma AndExtremes(x: bv32)
    ensures And(x, 0xffff_ffff) == x && And(x, 0) == 0
  {}

  lemma MaskDef(c: bool)
    ensures MaskOf(c) == if c then 0xffff_ffff else 0
  {}

  lemma AndMask(x: bv32, c: bool)
    ensures And(x, MaskOf(c)) == Sel(c, x)
  {
    hide *;
    AndExtremes(x);
    MaskDef(c);
    SelDef(c, x);
  }

  lemma HalfEight(w: bv32)
    ensures Half(Half(Half(Half(Half(Half(Half(Half(w)))))))) == Down8(w)
  {}

  lemma ShrEight(w: bv32)
    ensures Shr(8, w) == Down8(w)
  {
    hide Half, Down8;
    HalfEight(w);
    var d := Half(Half(Half(Half(w))));
    assert Shr(8, w) == Shr(6, Half(Half(w))) == Shr(4, d);
    assert Shr(4, d) == Shr(2, Half(Half(d)));
  }

  lemma ShlStep(m: nat, w: bv32)
    requires m > 0
    ensures Shl(m, w) == Dbl(Shl(m - 1, w))
  {}

  lemma {:induction false} ShlXor(m: nat, a: bv32, b: bv32)
    ensures Shl(m, Xor(a, b)) == Xor(Shl(m, a), Shl(m, b))
    decreases m
  {
    if m == 0 {
    } else {
      hide *;
      ShlXor(m - 1, a, b);
      ShlStep(m, Xor(a, b));
      ShlStep(m, a);
      ShlStep(m, b);
      DblXor(Shl(m - 1, a), Shl(m - 1, b));
    }
  }

  lemma DblSel(c: bool, w: bv32)
    ensures Dbl(Sel(c, w)) == Sel(c, Dbl(w))
  {}

  lemma {:induction false} ShlSel(m: nat, c: bool, w: bv32)
    ensures Shl(m, Sel(c, w)) == Sel(c, Shl(m, w))
    decreases m
  {
    if m == 0 {
    } else {
      hide *;
      ShlSel(m - 1, c, w);
      ShlStep(m, Sel(c, w));
      ShlStep(m, w);
      DblSel(c, Shl(m - 1, w));
    }
  }

  lemma ShrStep(m: nat, w: bv32)
    requires m > 0
    ensures Shr(m, w) == Shr(m - 1, Half(w))
  {}

  lemma ShrZero(w: bv32)
    ensures Shr(0, w) == w
  {}

  lemma {:induction false} ShrXor(m: nat, a: bv32, b: bv32)
    ensures Shr(m, Xor(a, b)) == Xor(Shr(m, a), Shr(m, b))
    decreases m
  {
    hide *;
    if m == 0 {
      ShrZero(a);
      ShrZero(b);
      ShrZero(Xor(a, b));
    } else {
      ShrStep(m, Xor(a, b));
      ShrStep(m, a);
      ShrStep(m, b);
      HalfXor(a, b);
      ShrXor(m - 1, Half(a), Half(b));
    }
  }

  // ----- the ULONG loop counter -----

  /** The 32-bit value of a loop counter. */
  function Num(n: nat): bv32 {
    if n == 0 then 0 else if n % 2 == 0 then Dbl(Num(n / 2)) else Xor(Dbl(Num(n / 2)), 1)
  }

  function Pow2(m: nat): (p: nat)
    ensures p > 0
  {
    if m == 0 then 1 else 2 * Pow2(m - 1)
  }

  lemma NumSmall()
    ensures Num(0) == 0 && Num(1) == 1
  {
    assert Num(1) == Xor(Dbl(Num(0)), 1);
  }

  lemma NumUnfold(n: nat, b: nat)
    requires b < 2
    ensures b == 0 && n > 0 ==> Num(2 * n + b) == Dbl(Num(n))
    ensures b == 1 ==> Num(2 * n + b) == Xor(Dbl(Num(n)), 1)
  {
    assert (2 * n + b) / 2 == n;
  }

  lemma DblZero()
    ensures Dbl(0) == 0
  {}

  lemma NumStep(n: nat, b: nat)
    requires b < 2
    ensures Num(2 * n + b) == Xor(Dbl(Num(n)), Num(b))
  {
    hide *;
    NumSmall();
    NumUnfold(n, b);
    DblZero();
    XorZero(Dbl(Num(n)));
  }

  lemma IncEven(x: bv32)
    ensures Xor(Dbl(x), 1) == Inc(Dbl(x))
  {}

  lemma IncOdd(x: bv32, y: bv32)
    requires y == Inc(x)
    ensures Dbl(y) == Inc(Xor(Dbl(x), 1))
  {}

  /** Counting increments: the closed form above is the counter ++ produces. */
  lemma {:induction false} NumSucc(n: nat)
    ensures Num(n + 1) == Inc(Num(n))
  {
    hide *;
    var h := n / 2;
    NumSmall();
    NumStep(h, 0);
    NumStep(h, 1);
    NumStep(h + 1, 0);
    XorZero(Dbl(Num(h)));
    XorZero(Dbl(Num(h + 1)));
    if n % 2 == 0 {
      assert n == 2 * h;
      IncEven(Num(h));
    } else {
      assert n == 2 * h + 1 && n + 1 == 2 * (h + 1);
      NumSucc(h);
      IncOdd(Num(h), Num(h + 1));
    }
  }

  lemma Pow2Step(m: nat)
    ensures if m == 0 then Pow2(m) == 1 else Pow2(m) == 2 * Pow2(m - 1)
  {}

  lemma ShlZero(w: bv32)
    ensures Shl(0, w) == w
  {}

  /** Aligned blocks: the counter splits into block number and offset. */
  lemma {:induction false} NumSplit(k: nat, m: nat, j: nat)
    requires j < Pow2(m)
    ensures Num(k * Pow2(m) + j) == Xor(Shl(m, Num(k)), Num(j))
    decreases m
  {
    hide *;
    Pow2Step(m);
    if m == 0 {
      ShlZero(Num(k));
      NumSmall();
      XorZero(Num(k));
    } else {
      var q := k * Pow2(m - 1) + j / 2;
      assert k * Pow2(m) == 2 * (k * Pow2(m - 1));
      assert k * Pow2(m) + j == 2 * q + j % 2;
      NumSplit(k, m - 1, j / 2);
      NumStep(q, j % 2);
      NumStep(j / 2, j % 2);
      assert j == 2 * (j / 2) + j % 2;
      DblXor(Shl(m - 1, Num(k)), Num(j / 2));
      ShlStep(m, Num(k));
      XorAssoc(Shl(m, Num(k)), Dbl(Num(j / 2)), Num(j % 2));
    }
  }

  // ----- values confined to m low bits -----

  /** w < 2^m */
  predicate Fits(w: bv32, m: nat)
    decreases m
  {
    if m == 0 then w == 0 else Fits(Half(w), m - 1)
  }

  lemma FitsStep(a: bv32, m: nat)
    requires m > 0
    ensures Fits(a, m) == Fits(Half(a), m - 1)
  {}

  lemma {:induction false} FitsXor(a: bv32, b: bv32, m: nat)
    requires Fits(a, m) && Fits(b, m)
    ensures Fits(Xor(a, b), m)
    decreases m
  {
    if m == 0 {
      XorZero(0);
    } else {
      FitsStep(a, m);
      FitsStep(b, m);
      FitsStep(Xor(a, b), m);
      hide *;
      HalfXor(a, b);
      FitsXor(Half(a), Half(b), m - 1);
    }
  }

  lemma {:induction false} FitsZero(m: nat)
    ensures Fits(0, m)
  {
    if m > 0 { FitsZero(m - 1); }
  }

  lemma SubHalf(x: bv32, y: bv32)
    requires And(y, x) == y
    ensures And(Half(y), Half(x)) == Half(y)
  {}

  /** Clearing bits keeps a value confined. */
  lemma {:induction false} FitsSub(x: bv32, y: bv32, m: nat)
    requires Fits(x, m) && And(y, x) == y
    ensures Fits(y, m)
    decreases m
  {
    if m == 0 {
      assert And(y, 0) == 0;
    } else {
      FitsStep(x, m);
      FitsStep(y, m);
      hide *;
      SubHalf(x, y);
      FitsSub(Half(x), Half(y), m - 1);
    }
  }

  lemma DblDef(x: bv32)
    ensures Dbl(x) == x << 1
  {}

  lemma HalfDef(x: bv32)
    ensures Half(x) == x >> 1
  {}

  lemma AndDef(x: bv32, y: bv32)
    ensures And(x, y) == x & y
  {}

  lemma HalfOfDoubleRaw(x: bv32, b: bv32)
    requires b == 0 || b == 1
    ensures (((x << 1) ^ b) >> 1) & x == ((x << 1) ^ b) >> 1
  {}

  lemma HalfOfDouble(x: bv32, b: bv32)
    requires b == 0 || b == 1
    ensures And(Half(Xor(Dbl(x), b)), x) == Half(Xor(Dbl(x), b))
  {
    hide *;
    var d := x << 1;
    var e := d ^ b;
    var h := e >> 1;
    assert Dbl(x) == d by { DblDef(x); }
    XorDef(d, b);
    HalfDef(e);
    AndDef(h, x);
    HalfOfDoubleRaw(x, b);
  }

  lemma NoneFits()
    ensures Pow2(0) == 1 && Fits(Num(0), 0)
  {}

  /** A counter below 2^m fits in m bits. */
  lemma {:induction false} NumFits(n: nat, m: nat)
    requires n < Pow2(m)
    ensures Fits(Num(n), m)
    decreases m
  {
    hide *;
    if m == 0 {
      NoneFits();
    } else {
      var x, b := Num(n / 2), Num(n % 2);
      NumSmall();
      Pow2Step(m);
      NumFits(n / 2, m - 1);
      NumStep(n / 2, n % 2);
      assert n == 2 * (n / 2) + n % 2;
      HalfOfDouble(x, b);
      FitsSub(x, Half(Num(n)), m - 1);
      FitsStep(Num(n), m);
    }
  }

  // ----- parity and population count -----

  /** The number of set bits among the n lowest. */
  function BitCount(w: bv32, n: nat): nat
    decreases n
  {
    if n == 0 then 0 else (if Low(w) then 1 else 0) + BitCount(Half(w), n - 1)
  }

  /** Whether an odd number of the n lowest bits is set. */
  predicate OddBits(w: bv32, n: nat)
    decreases n
  {
    n > 0 && Low(w) != OddBits(Half(w), n - 1)
  }

  predicate Odd(w: bv32) { OddBits(w, 32) }

  lemma OddDef(w: bv32)
    ensures Odd(w) == OddBits(w, 32)
  {}

  lemma OddStep(w: bv32, n: nat)
    requires n > 0
    ensures OddBits(w, n) == (Low(w) != OddBits(Half(w), n - 1))
  {}

  lemma CountStep(w: bv32, n: nat)
    requires n > 0
    ensures BitCount(w, n) == (if Low(w) then 1 else 0) + BitCount(Half(w), n - 1)
  {}

  lemma {:induction false} OddBitsCount(w: bv32, n: nat)
    ensures OddBits(w, n) <==> BitCount(w, n) % 2 == 1
    decreases n
  {
    if n == 0 {
    } else {
      OddBitsCount(Half(w), n - 1);
      CountStep(w, n);
      OddStep(w, n);
      hide *;
    }
  }

  lemma OddNone(w: bv32)
    ensures !OddBits(w, 0)
  {}

  /** Parity is additive over xor. */
  lemma {:induction false} OddBitsXor(a: bv32, b: bv32, n: nat)
    ensures OddBits(Xor(a, b), n) == (OddBits(a, n) != OddBits(b, n))
    decreases n
  {
    hide *;
    if n == 0 {
      OddNone(a);
      OddNone(b);
      OddNone(Xor(a, b));
    } else {
      OddStep(a, n);
      OddStep(b, n);
      OddStep(Xor(a, b), n);
      LowXor(a, b);
      HalfXor(a, b);
      OddBitsXor(Half(a), Half(b), n - 1);
    }
  }

  lemma OddXor(a: bv32, b: bv32)
    ensures Odd(Xor(a, b)) == (Odd(a) != Odd(b))
  {
    hide *;
    OddBitsXor(a, b, 32);
    OddDef(a);
    OddDef(b);
    OddDef(Xor(a, b));
  }

  lemma {:induction false} OddZero(n: nat)
    ensures !OddBits(0, n)
  {
    if n > 0 { OddZero(n - 1); }
  }

  /** Parity of a + b bits: the low a bits and what remains after shifting them out. */
  lemma {:induction false} OddBitsSplit(w: bv32, a: nat, b: nat)
    ensures OddBits(w, a + b) == (OddBits(w, a) != OddBits(Shr(a, w), b))
    decreases a
  {
    hide *;
    if a == 0 {
      ShrZero(w);
      OddNone(w);
    } else {
      OddStep(w, a + b);
      OddStep(w, a);
      ShrStep(a, w);
      OddBitsSplit(Half(w), a - 1, b);
    }
  }
}
