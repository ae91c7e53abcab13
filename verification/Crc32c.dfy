/**
  CRC-32C (lib/cpp/ms/encrypt.cxx; section 12.1 of RFC 3720), computed one bit at a time, by
  table one byte at a time, and by the processor's instruction eight bytes at a time.
*/
module Crc32c {
  import opened Bits

  const POLY: bv32 := 0x82f6_3b78

  function Pick8(k: bv32, e0: bv32, e1: bv32, e2: bv32, e3: bv32, e4: bv32, e5: bv32, e6: bv32, e7: bv32): bv32 {
    if k == 0 then e0 else if k == 1 then e1 else if k == 2 then e2 else if k == 3 then e3
    else if k == 4 then e4 else if k == 5 then e5 else if k == 6 then e6 else e7
  }

  /** dwCRC32_LOOKUP_TABLE, indexed by a byte. */
  function Table(x: bv32): bv32 {
    var k := x & 7;
    match (x >> 3) & 31
    case 0 => Pick8(k, 0x00000000, 0xf26b8303, 0xe13b70f7, 0x1350f3f4, 0xc79a971f, 0x35f1141c, 0x26a1e7e8, 0xd4ca64eb)
    case 1 => Pick8(k, 0x8ad958cf, 0x78b2dbcc, 0x6be22838, 0x9989ab3b, 0x4d43cfd0, 0xbf284cd3, 0xac78bf27, 0x5e133c24)
    case 2 => Pick8(k, 0x105ec76f, 0xe235446c, 0xf165b798, 0x030e349b, 0xd7c45070, 0x25afd373, 0x36ff2087, 0xc494a384)
    case 3 => Pick8(k, 0x9a879fa0, 0x68ec1ca3, 0x7bbcef57, 0x89d76c54, 0x5d1d08bf, 0xaf768bbc, 0xbc267848, 0x4e4dfb4b)
    case 4 => Pick8(k, 0x20bd8ede, 0xd2d60ddd, 0xc186fe29, 0x33ed7d2a, 0xe72719c1, 0x154c9ac2, 0x061c6936, 0xf477ea35)
    case 5 => Pick8(k, 0xaa64d611, 0x580f5512, 0x4b5fa6e6, 0xb93425e5, 0x6dfe410e, 0x9f95c20d, 0x8cc531f9, 0x7eaeb2fa)
    case 6 => Pick8(k, 0x30e349b1, 0xc288cab2, 0xd1d83946, 0x23b3ba45, 0xf779deae, 0x05125dad, 0x1642ae59, 0xe4292d5a)
    case 7 => Pick8(k, 0xba3a117e, 0x4851927d, 0x5b016189, 0xa96ae28a, 0x7da08661, 0x8fcb0562, 0x9c9bf696, 0x6ef07595)
    case 8 => Pick8(k, 0x417b1dbc, 0xb3109ebf, 0xa0406d4b, 0x522bee48, 0x86e18aa3, 0x748a09a0, 0x67dafa54, 0x95b17957)
    case 9 => Pick8(k, 0xcba24573, 0x39c9c670, 0x2a993584, 0xd8f2b687, 0x0c38d26c, 0xfe53516f, 0xed03a29b, 0x1f682198)
    case 10 => Pick8(k, 0x5125dad3, 0xa34e59d0, 0xb01eaa24, 0x42752927, 0x96bf4dcc, 0x64d4cecf, 0x77843d3b, 0x85efbe38)
    case 11 => Pick8(k, 0xdbfc821c, 0x2997011f, 0x3ac7f2eb, 0xc8ac71e8, 0x1c661503, 0xee0d9600, 0xfd5d65f4, 0x0f36e6f7)
    case 12 => Pick8(k, 0x61c69362, 0x93ad1061, 0x80fde395, 0x72966096, 0xa65c047d, 0x5437877e, 0x4767748a, 0xb50cf789)
    case 13 => Pick8(k, 0xeb1fcbad, 0x197448ae, 0x0a24bb5a, 0xf84f3859, 0x2c855cb2, 0xdeeedfb1, 0xcdbe2c45, 0x3fd5af46)
    case 14 => Pick8(k, 0x7198540d, 0x83f3d70e, 0x90a324fa, 0x62c8a7f9, 0xb602c312, 0x44694011, 0x5739b3e5, 0xa55230e6)
    case 15 => Pick8(k, 0xfb410cc2, 0x092a8fc1, 0x1a7a7c35, 0xe811ff36, 0x3cdb9bdd, 0xceb018de, 0xdde0eb2a, 0x2f8b6829)
    case 16 => Pick8(k, 0x82f63b78, 0x709db87b, 0x63cd4b8f, 0x91a6c88c, 0x456cac67, 0xb7072f64, 0xa457dc90, 0x563c5f93)
    case 17 => Pick8(k, 0x082f63b7, 0xfa44e0b4, 0xe9141340, 0x1b7f9043, 0xcfb5f4a8, 0x3dde77ab, 0x2e8e845f, 0xdce5075c)
    case 18 => Pick8(k, 0x92a8fc17, 0x60c37f14, 0x73938ce0, 0x81f80fe3, 0x55326b08, 0xa759e80b, 0xb4091bff, 0x466298fc)
    case 19 => Pick8(k, 0x1871a4d8, 0xea1a27db, 0xf94ad42f, 0x0b21572c, 0xdfeb33c7, 0x2d80b0c4, 0x3ed04330, 0xccbbc033)
    case 20 => Pick8(k, 0xa24bb5a6, 0x502036a5, 0x4370c551, 0xb11b4652, 0x65d122b9, 0x97baa1ba, 0x84ea524e, 0x7681d14d)
    case 21 => Pick8(k, 0x2892ed69, 0xdaf96e6a, 0xc9a99d9e, 0x3bc21e9d, 0xef087a76, 0x1d63f975, 0x0e330a81, 0xfc588982)
    case 22 => Pick8(k, 0xb21572c9, 0x407ef1ca, 0x532e023e, 0xa145813d, 0x758fe5d6, 0x87e466d5, 0x94b49521, 0x66df1622)
    case 23 => Pick8(k, 0x38cc2a06, 0xcaa7a905, 0xd9f75af1, 0x2b9cd9f2, 0xff56bd19, 0x0d3d3e1a, 0x1e6dcdee, 0xec064eed)
    case 24 => Pick8(k, 0xc38d26c4, 0x31e6a5c7, 0x22b65633, 0xd0ddd530, 0x0417b1db, 0xf67c32d8, 0xe52cc12c, 0x1747422f)
    case 25 => Pick8(k, 0x49547e0b, 0xbb3ffd08, 0xa86f0efc, 0x5a048dff, 0x8ecee914, 0x7ca56a17, 0x6ff599e3, 0x9d9e1ae0)
    case 26 => Pick8(k, 0xd3d3e1ab, 0x21b862a8, 0x32e8915c, 0xc083125f, 0x144976b4, 0xe622f5b7, 0xf5720643, 0x07198540)
    case 27 => Pick8(k, 0x590ab964, 0xab613a67, 0xb831c993, 0x4a5a4a90, 0x9e902e7b, 0x6cfbad78, 0x7fab5e8c, 0x8dc0dd8f)
    case 28 => Pick8(k, 0xe330a81a, 0x115b2b19, 0x020bd8ed, 0xf0605bee, 0x24aa3f05, 0xd6c1bc06, 0xc5914ff2, 0x37faccf1)
    case 29 => Pick8(k, 0x69e9f0d5, 0x9b8273d6, 0x88d28022, 0x7ab90321, 0xae7367ca, 0x5c18e4c9, 0x4f48173d, 0xbd23943e)
    case 30 => Pick8(k, 0xf36e6f75, 0x0105ec76, 0x12551f82, 0xe03e9c81, 0x34f4f86a, 0xc69f7b69, 0xd5cf889d, 0x27a40b9e)
    case _ => Pick8(k, 0x79b737ba, 0x8bdcb4b9, 0x988c474d, 0x6ae7c44e, 0xbe2da0a5, 0x4c4623a6, 0x5f16d052, 0xad7d5351)
  }

  // ----- one bit at a time -----

  /** One bit shifted out of the register. */
  function Shift(c: bv32): bv32 {
    if c & 1 == 1 then (c >> 1) ^ 0x82f6_3b78 else c >> 1
  }

  /** Eight bits shifted out. */
  function Shift8(c: bv32): bv32 {
    Shift(Shift(Shift(Shift(Shift(Shift(Shift(Shift(c))))))))
  }

  lemma TableRows0(x: bv32)
    requires (x >> 5) & 7 == 0 && x < 256
    ensures Table(x) == Shift8(x)
  {}

  lemma TableRows1(x: bv32)
    requires (x >> 5) & 7 == 1 && x < 256
    ensures Table(x) == Shift8(x)
  {}

  lemma TableRows2(x: bv32)
    requires (x >> 5) & 7 == 2 && x < 256
    ensures Table(x) == Shift8(x)
  {}

  lemma TableRows3(x: bv32)
    requires (x >> 5) & 7 == 3 && x < 256
    ensures Table(x) == Shift8(x)
  {}

  lemma TableRows4(x: bv32)
    requires (x >> 5) & 7 == 4 && x < 256
    ensures Table(x) == Shift8(x)
  {}

  lemma TableRows5(x: bv32)
    requires (x >> 5) & 7 == 5 && x < 256
    ensures Table(x) == Shift8(x)
  {}

  lemma TableRows6(x: bv32)
    requires (x >> 5) & 7 == 6 && x < 256
    ensures Table(x) == Shift8(x)
  {}

  lemma TableRows7(x: bv32)
    requires (x >> 5) & 7 == 7 && x < 256
    ensures Table(x) == Shift8(x)
  {}

  /** Every entry of the table is what shifting its index out leaves. */
  lemma TableIsShift8(x: bv32)
    requires x < 256
    ensures Table(x) == Shift8(x)
  {
    hide *;
    var q := (x >> 5) & 7;
    if q == 0 {
      TableRows0(x);
    } else if q == 1 {
      TableRows1(x);
    } else if q == 2 {
      TableRows2(x);
    } else if q == 3 {
      TableRows3(x);
    } else if q == 4 {
      TableRows4(x);
    } else if q == 5 {
      TableRows5(x);
    } else if q == 6 {
      TableRows6(x);
    } else {
      TableRows7(x);
    }
  }

  lemma ShiftDef(c: bv32)
    ensures Shift(c) == Xor(Half(c), Sel(Low(c), POLY))
  {}

  /** Shifting is linear. */
  lemma ShiftXor(a: bv32, b: bv32)
    ensures Shift(Xor(a, b)) == Xor(Shift(a), Shift(b))
  {
    hide *;
    ShiftDef(a);
    ShiftDef(b);
    ShiftDef(Xor(a, b));
    HalfXor(a, b);
    LowXor(a, b);
    SelXor(Low(a), Low(b), POLY);
    XorSwap(Half(a), Half(b), Sel(Low(a), POLY), Sel(Low(b), POLY));
  }

  function ShiftN(c: bv32, n: nat): bv32
    decreases n
  {
    if n == 0 then c else ShiftN(Shift(c), n - 1)
  }

  lemma ShiftNStep(c: bv32, n: nat)
    ensures ShiftN(c, n) == if n == 0 then c else ShiftN(Shift(c), n - 1)
  {}

  lemma {:induction false} ShiftNXor(a: bv32, b: bv32, n: nat)
    ensures ShiftN(Xor(a, b), n) == Xor(ShiftN(a, n), ShiftN(b, n))
    decreases n
  {
    hide *;
    ShiftNStep(a, n);
    ShiftNStep(b, n);
    ShiftNStep(Xor(a, b), n);
    if n == 0 {
    } else {
      ShiftXor(a, b);
      ShiftNXor(Shift(a), Shift(b), n - 1);
    }
  }

  // ----- the message as bits -----

  /** The register after one message bit. */
  function FeedBit(crc: bv32, b: bool): bv32 {
    if Low(crc) != b then Xor(Half(crc), POLY) else Half(crc)
  }

  function FeedBits(crc: bv32, bits: seq<bool>): bv32
    decreases |bits|
  {
    if |bits| == 0 then crc else FeedBits(FeedBit(crc, bits[0]), bits[1..])
  }

  /** The n lowest bits of a word, lowest first. */
  function WordBits(w: bv32, n: nat): (bits: seq<bool>)
    ensures |bits| == n
    decreases n
  {
    if n == 0 then [] else [Low(w)] + WordBits(Half(w), n - 1)
  }

  function Word(b: bv8): bv32 { b as bv32 }

  function ByteBits(b: bv8): (bits: seq<bool>)
    ensures |bits| == 8
  {
    WordBits(Word(b), 8)
  }

  /** The bits of a message, in the order they are sent. */
  function MessageBits(bytes: seq<bv8>): (bits: seq<bool>)
    ensures |bits| == 8 * |bytes|
  {
    if |bytes| == 0 then [] else ByteBits(bytes[0]) + MessageBits(bytes[1..])
  }

  /** CRC-32C: ones first, the message one bit at a time, the result complemented. */
  function Crc(bytes: seq<bv8>): bv32 {
    Xor(FeedBits(0xffff_ffff, MessageBits(bytes)), 0xffff_ffff)
  }

  lemma FeedStep(crc: bv32, w: bv32, n: nat)
    requires n > 0
    ensures FeedBits(crc, WordBits(w, n)) == FeedBits(FeedBit(crc, Low(w)), WordBits(Half(w), n - 1))
  {
    hide FeedBit, Low, Half;
    assert WordBits(w, n)[1..] == WordBits(Half(w), n - 1);
  }

  lemma FeedNone(crc: bv32, w: bv32)
    ensures FeedBits(crc, WordBits(w, 0)) == crc
  {}

  lemma FeedBitDef(crc: bv32, b: bool)
    ensures FeedBit(crc, b) == Xor(Half(crc), Sel(Low(crc) != b, POLY))
  {
    hide Half, Low, Xor;
    XorZero(Half(crc));
  }

  /** One message bit is one shift of the register with the message under it. */
  lemma FeedBitIsShift(crc: bv32, w: bv32)
    ensures Xor(FeedBit(crc, Low(w)), Half(w)) == Shift(Xor(crc, w))
  {
    hide *;
    FeedBitDef(crc, Low(w));
    ShiftDef(Xor(crc, w));
    HalfXor(crc, w);
    LowXor(crc, w);
    var s := Sel(Low(crc) != Low(w), POLY);
    XorAssoc(Half(crc), s, Half(w));
    XorComm(s, Half(w));
    XorAssoc(Half(crc), Half(w), s);
  }

  lemma {:induction false} FeedIsShift(crc: bv32, w: bv32, n: nat)
    ensures Xor(FeedBits(crc, WordBits(w, n)), Shr(n, w)) == ShiftN(Xor(crc, w), n)
    decreases n
  {
    hide *;
    ShiftNStep(Xor(crc, w), n);
    if n == 0 {
      FeedNone(crc, w);
      ShrZero(w);
    } else {
      ShrStep(n, w);
      FeedStep(crc, w, n);
      FeedBitIsShift(crc, w);
      FeedIsShift(FeedBit(crc, Low(w)), Half(w), n - 1);
    }
  }

  // ----- a byte at a time -----

  function LowByte(x: bv32): bv32 { x & 0xff }

  function HighBytes(x: bv32): bv32 { x & 0xffff_ff00 }

  lemma WordRange(b: bv8)
    ensures Word(b) < 256
  {}

  lemma Down8Small(x: bv32)
    requires x < 256
    ensures Down8(x) == 0
  {}

  lemma LowByteRange(x: bv32)
    ensures LowByte(x) < 256
  {}

  lemma SplitBytes(x: bv32)
    ensures Xor(LowByte(x), HighBytes(x)) == x
  {}

  /** What is above the low byte only moves down. */
  lemma HighBytesShift(x: bv32)
    ensures Shift8(HighBytes(x)) == Down8(x)
  {}

  lemma ShiftNEight(c: bv32)
    ensures ShiftN(c, 8) == Shift8(c)
  {
    hide Shift;
    assert ShiftN(c, 8) == ShiftN(Shift(Shift(c)), 6);
    assert ShiftN(Shift(Shift(c)), 6) == ShiftN(Shift(Shift(Shift(Shift(c)))), 4);
    var d := Shift(Shift(Shift(Shift(c))));
    assert ShiftN(d, 4) == ShiftN(Shift(Shift(d)), 2);
  }

  /** Eight shifts are one look-up and a move by a byte. */
  lemma Shift8ByTable(x: bv32)
    ensures Shift8(x) == Xor(Table(LowByte(x)), Down8(x))
  {
    hide *;
    SplitBytes(x);
    ShiftNXor(LowByte(x), HighBytes(x), 8);
    ShiftNEight(x);
    ShiftNEight(LowByte(x));
    ShiftNEight(HighBytes(x));
    HighBytesShift(x);
    LowByteRange(x);
    TableIsShift8(LowByte(x));
  }

  lemma {:induction false} Down8Xor(a: bv32, b: bv32)
    ensures Down8(Xor(a, b)) == Xor(Down8(a), Down8(b))
  {
    hide *;
    ShrEight(a);
    ShrEight(b);
    ShrEight(Xor(a, b));
    ShrXor(8, a, b);
  }

  lemma ByteBitsDef(b: bv8)
    ensures ByteBits(b) == WordBits(Word(b), 8)
  {}

  /** Feeding a byte bit by bit is the table step. */
  lemma ByteByTable(crc: bv32, b: bv8)
    ensures FeedBits(crc, ByteBits(b)) == Xor(Table(LowByte(Xor(crc, Word(b)))), Down8(crc))
  {
    hide *;
    var w := Word(b);
    ByteBitsDef(b);
    FeedIsShift(crc, w, 8);
    WordRange(b);
    ShrEight(w);
    Down8Small(w);
    XorZero(FeedBits(crc, ByteBits(b)));
    ShiftNEight(Xor(crc, w));
    Shift8ByTable(Xor(crc, w));
    Down8Xor(crc, w);
    XorZero(Down8(crc));
  }

  /** calc_entry: a table entry from the polynomial. */
  method CalcEntry(crcIn: bv32, indexIn: bv32) returns (crc: bv32)
    ensures crc == FeedBits(crcIn, WordBits(indexIn, 8))
  {
    hide *;
    crc := crcIn;
    var index := indexIn;
    var i: nat := 0;
    while i < 8
      invariant i <= 8
      invariant FeedBits(crc, WordBits(index, 8 - i)) == FeedBits(crcIn, WordBits(indexIn, 8))
    {
      FeedStep(crc, index, 8 - i);
      LowXor(crc, index);
      FeedBitDef(crc, Low(index));
      XorZero(Half(crc));
      SelDef(Low(crc) != Low(index), POLY);
      if Low(Xor(crc, index)) {
        crc := Xor(Half(crc), POLY);
      } else {
        crc := Half(crc);
      }
      index := Half(index);
      i := i + 1;
    }
    FeedNone(crc, index);
  }

  lemma LowByteSmall(x: bv32)
    requires x < 256
    ensures LowByte(x) == x
  {}

  /** The table holds the entries that the polynomial defines. */
  lemma TableFromPolynomial(b: bv8)
    ensures Table(Word(b)) == FeedBits(0, ByteBits(b))
  {
    hide *;
    ByteByTable(0, b);
    XorZero(Word(b));
    XorComm(0, Word(b));
    WordRange(b);
    LowByteSmall(Word(b));
    Down8Small(0);
    XorZero(Table(Word(b)));
  }

  // ----- whole messages -----

  lemma {:induction false} FeedConcat(crc: bv32, a: seq<bool>, b: seq<bool>)
    ensures FeedBits(crc, a + b) == FeedBits(FeedBits(crc, a), b)
    decreases |a|
  {
    hide FeedBit;
    if |a| == 0 {
      assert a + b == b;
    } else {
      FeedConcat(FeedBit(crc, a[0]), a[1..], b);
      assert (a + b)[1..] == a[1..] + b;
    }
  }

  lemma {:induction false} MessageConcat(a: seq<bv8>, b: seq<bv8>)
    ensures MessageBits(a + b) == MessageBits(a) + MessageBits(b)
    decreases |a|
  {
    hide ByteBits;
    if |a| == 0 {
      assert a + b == b;
    } else {
      MessageConcat(a[1..], b);
      assert (a + b)[1..] == a[1..] + b;
    }
  }

  lemma MessageOne(b: bv8)
    ensures MessageBits([b]) == ByteBits(b)
  {
    hide ByteBits;
    assert ByteBits(b) + [] == ByteBits(b);
  }

  /** The register after a part of the message, fed further. */
  lemma FeedMore(crc: bv32, a: seq<bv8>, b: seq<bv8>)
    ensures FeedBits(crc, MessageBits(a + b)) == FeedBits(FeedBits(crc, MessageBits(a)), MessageBits(b))
  {
    hide *;
    MessageConcat(a, b);
    FeedConcat(crc, MessageBits(a), MessageBits(b));
  }

  lemma FeedByte(crc: bv32, bytes: seq<bv8>, i: nat)
    requires i < |bytes|
    ensures FeedBits(crc, MessageBits(bytes[..i + 1]))
            == FeedBits(FeedBits(crc, MessageBits(bytes[..i])), ByteBits(bytes[i]))
  {
    hide *;
    FeedMore(crc, bytes[..i], [bytes[i]]);
    MessageOne(bytes[i]);
    assert bytes[..i + 1] == bytes[..i] + [bytes[i]];
  }

  lemma FeedStart(crc: bv32, bytes: seq<bv8>)
    ensures FeedBits(crc, MessageBits(bytes[..0])) == crc
  {
    hide FeedBit, ByteBits;
  }

  lemma CrcDef(bytes: seq<bv8>)
    ensures Crc(bytes) == Xor(FeedBits(0xffff_ffff, MessageBits(bytes)), 0xffff_ffff)
  {}

  /** The table-driven loop computes CRC-32C. */
  method TableCrc(bytes: seq<bv8>) returns (crc: bv32)
    ensures crc == Crc(bytes)
  {
    hide *;
    crc := 0xffff_ffff;
    FeedStart(crc, bytes);
    var i: nat := 0;
    while i < |bytes|
      invariant i <= |bytes|
      invariant crc == FeedBits(0xffff_ffff, MessageBits(bytes[..i]))
    {
      FeedByte(0xffff_ffff, bytes, i);
      ByteByTable(crc, bytes[i]);
      crc := Xor(Table(LowByte(Xor(crc, Word(bytes[i])))), Down8(crc));
      i := i + 1;
    }
    assert bytes[..i] == bytes;
    CrcDef(bytes);
    crc := Xor(crc, 0xffff_ffff);
  }

  /** The processor's instruction: the bits of its operand, lowest first, fed to the register. */
  function InstructionCrc(crc: bv32, operand: seq<bool>): bv32 {
    FeedBits(crc, operand)
  }

  lemma InstructionDef(crc: bv32, operand: seq<bool>)
    ensures InstructionCrc(crc, operand) == FeedBits(crc, operand)
  {}

  /** The processor form, eight bytes at a time and then the tail byte by byte, computes the same. */
  method ProcessorComputeCRC32(bytes: seq<bv8>) returns (crc: bv32)
    ensures crc == Crc(bytes)
  {
    hide *;
    crc := 0xffff_ffff;
    FeedStart(crc, bytes);
    var at: nat := 0;
    var i: nat := 0;
    while i < |bytes| / 8
      invariant i <= |bytes| / 8 && at == 8 * i
      invariant crc == FeedBits(0xffff_ffff, MessageBits(bytes[..at]))
    {
      var chunk := bytes[at..at + 8];
      FeedMore(0xffff_ffff, bytes[..at], chunk);
      assert bytes[..at] + chunk == bytes[..at + 8];
      InstructionDef(crc, MessageBits(chunk));
      crc := InstructionCrc(crc, MessageBits(chunk));
      at := at + 8;
      i := i + 1;
    }
    i := 0;
    while i < |bytes| % 8
      invariant i <= |bytes| % 8 && at == |bytes| / 8 * 8 + i
      invariant crc == FeedBits(0xffff_ffff, MessageBits(bytes[..at]))
    {
      FeedByte(0xffff_ffff, bytes, at);
      InstructionDef(crc, ByteBits(bytes[at]));
      crc := InstructionCrc(crc, ByteBits(bytes[at]));
      at := at + 1;
      i := i + 1;
    }
    assert bytes[..at] == bytes;
    CrcDef(bytes);
    crc := Xor(crc, 0xffff_ffff);
  }

  /** Whichever way is taken, the result is the CRC of the data. */
  method Crc32Checksum(bytes: seq<bv8>, fProcessorSupportsCRC32: bool) returns (crc: bv32)
    ensures crc == Crc(bytes)
  {
    if fProcessorSupportsCRC32 {
      crc := ProcessorComputeCRC32(bytes);
    } else {
      crc := TableCrc(bytes);
    }
  }
}
