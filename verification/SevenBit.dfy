/**
  Decoding of 7-bit compressed text (lib/cpp/decompress.cpp). The first byte is a header; the
  rest is a stream of bits, lowest bit of each byte first, cut into groups of seven.
*/
module SevenBit {

  type Byte = x: int | 0 <= x < 256
  type Septet = x: int | 0 <= x < 128

  // ----- the stream as a number -----

  /** The value of a byte stream, lowest byte first. */
  function Num(bytes: seq<Byte>): nat {
    if |bytes| == 0 then 0 else bytes[0] + 256 * Num(bytes[1..])
  }

  /** The first m groups of seven bits of a value. */
  function Groups(v: nat, m: nat): (g: seq<Septet>)
    ensures |g| == m
    decreases m
  {
    if m == 0 then [] else [v % 128] + Groups(v / 128, m - 1)
  }

  /** A value without its first i groups. */
  function Dropped(v: nat, i: nat): nat
    decreases i
  {
    if i == 0 then v else Dropped(v / 128, i - 1)
  }

  lemma {:induction false} GroupAt(v: nat, m: nat, i: nat)
    requires i < m
    ensures Groups(v, m)[i] == Dropped(v, i) % 128
    decreases m
  {
    if i == 0 {
    } else {
      GroupAt(v / 128, m - 1, i - 1);
    }
  }

  lemma {:induction false} DroppedStep(v: nat, i: nat)
    ensures Dropped(v, i + 1) == Dropped(v, i) / 128
    decreases i
  {
    if i == 0 {
    } else {
      DroppedStep(v / 128, i - 1);
    }
  }

  // ----- reading one group -----

  /** The power of two of a bit position within a byte. */
  function Pow(b: int): int
    requires 0 <= b < 8
  {
    match b
    case 0 => 1 case 1 => 2 case 2 => 4 case 3 => 8
    case 4 => 16 case 5 => 32 case 6 => 64 case 7 => 128
  }

  /** The group at a bit position, taken from one byte or from two. */
  function GroupRead(data: seq<Byte>, ib: int, ibit: int): Septet
    requires 0 <= ib < |data| && 0 <= ibit < 8 && (ibit > 1 ==> ib + 1 < |data|)
  {
    if ibit <= 1 then (data[ib] / Pow(ibit)) % 128
    else ((data[ib] as int + 256 * (data[ib + 1] as int)) / Pow(ibit)) % 128
  }

  lemma DivOfSum(w: nat, k: nat, ibit: int)
    requires 0 <= ibit < 8
    ensures (w + Pow(ibit) * k) / Pow(ibit) == w / Pow(ibit) + k
  {
    match ibit
    case 0 => case 1 => case 2 => case 3 => case 4 => case 5 => case 6 => case 7 =>
  }

  lemma ModOfSum(x: nat, m: nat)
    ensures (x + 128 * m) % 128 == x % 128
  {}

  lemma LowByte(a: Byte, n: nat, ibit: int)
    requires 0 <= ibit <= 1
    ensures (a + 256 * n) / Pow(ibit) % 128 == a / Pow(ibit) % 128
  {
    var k := if ibit == 0 then 2 * n else n;
    assert Pow(ibit) * (128 * k) == 256 * n;
    DivOfSum(a, 128 * k, ibit);
    ModOfSum(a / Pow(ibit), k);
  }

  lemma TwoBytes(w: nat, n: nat, ibit: int)
    requires 2 <= ibit < 8
    ensures (w + 65536 * n) / Pow(ibit) % 128 == w / Pow(ibit) % 128
  {
    var k := match ibit case 2 => 128 case 3 => 64 case 4 => 32 case 5 => 16 case 6 => 8 case _ => 4;
    assert Pow(ibit) * (128 * (k * n)) == 65536 * n;
    DivOfSum(w, 128 * (k * n), ibit);
    ModOfSum(w / Pow(ibit), k * n);
  }

  /** A group read is the lowest group of what is left of the stream. */
  lemma GroupReadIsLowest(data: seq<Byte>, ib: int, ibit: int)
    requires 0 <= ib < |data| && 0 <= ibit < 8 && (ibit > 1 ==> ib + 1 < |data|)
    ensures GroupRead(data, ib, ibit) == Num(data[ib..]) / Pow(ibit) % 128
  {
    var n := Num(data[ib + 1..]);
    assert data[ib..][1..] == data[ib + 1..];
    assert Num(data[ib..]) == data[ib] + 256 * n;
    if ibit <= 1 {
      LowByte(data[ib], n, ibit);
    } else {
      assert data[ib + 1..][1..] == data[ib + 2..];
      assert n == data[ib + 1] + 256 * Num(data[ib + 2..]);
      var w: nat := (data[ib] as int) + 256 * (data[ib + 1] as int);
      TwoBytes(w, Num(data[ib + 2..]), ibit);
    }
  }

  lemma ShiftOn(a: Byte, n: nat, ibit: int)
    requires 0 <= ibit < 8
    ensures ibit > 0 ==> n / Pow(ibit - 1) == (a + 256 * n) / Pow(ibit) / 128
  {
    if ibit == 1 {
    } else if ibit == 2 {
    } else if ibit == 3 {
    } else if ibit == 4 {
    } else if ibit == 5 {
    } else if ibit == 6 {
    } else {
    }
  }

  /** Moving on by seven bits drops the lowest group. */
  lemma SevenBitsOn(data: seq<Byte>, ib: int, ibit: int)
    requires 0 <= ib < |data| && 0 <= ibit < 8
    ensures if ibit == 0 then Num(data[ib..]) / Pow(7) == Num(data[ib..]) / Pow(0) / 128
            else Num(data[ib + 1..]) / Pow(ibit - 1) == Num(data[ib..]) / Pow(ibit) / 128
  {
    assert data[ib..][1..] == data[ib + 1..];
    ShiftOn(data[ib], Num(data[ib + 1..]), ibit);
  }

  // ----- decoding -----

  /** Division as the code's language does it, towards zero. */
  function TruncatedBy7(n: int): int {
    if n >= 0 then n / 7 else -((-n) / 7)
  }

  function CbitTotal(data: seq<Byte>): int
    requires |data| >= 1
  {
    (|data| - 2) * 8 + (data[0] % 8 + 1)
  }

  /** How many groups a compressed value holds. */
  function CTotal(data: seq<Byte>): int
    requires |data| >= 1
  {
    TruncatedBy7(CbitTotal(data))
  }

  function Natural(n: int): nat {
    if n < 0 then 0 else n
  }

  /** The groups of a compressed value. */
  function Decoded(data: seq<Byte>): (g: seq<Septet>)
    requires |data| >= 1
    ensures |g| == Natural(CTotal(data))
  {
    Groups(Num(data[1..]), Natural(CTotal(data)))
  }

  /** Every group that is read lies within the data. */
  lemma ReadsInBounds(data: seq<Byte>, ib: int, ibit: int, i: int)
    requires |data| >= 1 && 0 <= i < CTotal(data) && 7 * i == 8 * (ib - 1) + ibit && 0 <= ibit < 8
    ensures 1 <= ib < |data| && (ibit > 1 ==> ib + 1 < |data|)
  {}

  /** Where the reading has got to after i groups. */
  predicate At(data: seq<Byte>, ib: int, ibit: int, i: nat)
    requires |data| >= 1
  {
    && 0 <= ibit < 8 && 1 <= ib <= |data| && 7 * i == 8 * (ib - 1) + ibit
    && Num(data[ib..]) / Pow(ibit) == Dropped(Num(data[1..]), i)
  }

  lemma AtStart(data: seq<Byte>)
    requires |data| >= 1
    ensures At(data, 1, 0, 0)
  {}

  lemma AtNext(data: seq<Byte>, ib: int, ibit: int, i: nat)
    requires |data| >= 1 && At(data, ib, ibit, i) && ib < |data|
    ensures if ibit == 0 then At(data, ib, 7, i + 1) else At(data, ib + 1, ibit - 1, i + 1)
  {
    hide Num, Dropped, Pow;
    SevenBitsOn(data, ib, ibit);
    DroppedStep(Num(data[1..]), i);
  }

  lemma GroupHere(data: seq<Byte>, ib: int, ibit: int, i: nat)
    requires |data| >= 1 && i < CTotal(data) && At(data, ib, ibit, i)
    requires ib < |data| && (ibit > 1 ==> ib + 1 < |data|)
    ensures GroupRead(data, ib, ibit) == Decoded(data)[i]
  {
    hide Num, Dropped, Pow, Groups, GroupRead, CTotal;
    GroupReadIsLowest(data, ib, ibit);
    GroupAt(Num(data[1..]), Natural(CTotal(data)), i);
  }

  /** Reads one group and moves on. */
  method ReadGroup(data: seq<Byte>, ib: int, ibit: int, ghost i: nat) returns (g: Septet, ib': int, ibit': int)
    requires |data| >= 1 && i < CTotal(data) && At(data, ib, ibit, i)
    ensures g == Decoded(data)[i] && At(data, ib', ibit', i + 1)
  {
    hide Num, Dropped, Pow, Groups, CTotal, Decoded, GroupRead;
    ReadsInBounds(data, ib, ibit, i);
    GroupHere(data, ib, ibit, i);
    AtNext(data, ib, ibit, i);
    g := GroupRead(data, ib, ibit);
    ib', ibit' := ib, ibit + 7;
    if ibit' >= 8 {
      ibit' := ibit' % 8;
      ib' := ib' + 1;
    }
  }

  /** The number of bytes that go into a buffer. */
  function CbWritten(cbActual: int, cbDataMax: int): nat {
    Natural(if cbActual <= cbDataMax then cbActual else cbDataMax)
  }

  /** Decodes ASCII text into a buffer of any size: the buffer receives exactly the part that
      fits, and the full size is reported either way. */
  method ErrDecompress7BitAscii(data: seq<Byte>, pbData: array?<Byte>, cbDataMax: int)
    returns (fTruncated: bool, cbActual: int)
    requires |data| >= 1 && (pbData != null ==> cbDataMax <= pbData.Length)
    modifies if pbData == null then {} else {pbData}
    ensures cbActual == CTotal(data) && (fTruncated <==> cbActual > cbDataMax)
    ensures pbData != null ==>
              pbData[..CbWritten(cbActual, cbDataMax)] == Decoded(data)[..CbWritten(cbActual, cbDataMax)]
    ensures pbData != null ==>
              pbData[CbWritten(cbActual, cbDataMax)..] == old(pbData[CbWritten(CTotal(data), cbDataMax)..])
  {
    hide At, Decoded, CTotal;
    AtStart(data);
    cbActual := CTotal(data);
    fTruncated := cbActual > cbDataMax;
    if cbDataMax == 0 || pbData == null {
      return;
    }
    var ibDataMax := if cbActual <= cbDataMax then cbActual else cbDataMax;
    var ib, ibit := 1, 0;
    var ibData: nat := 0;
    while ibData < ibDataMax
      invariant ibData <= CbWritten(cbActual, cbDataMax)
      invariant At(data, ib, ibit, ibData)
      invariant forall k :: 0 <= k < ibData ==> pbData[k] == Decoded(data)[k]
      invariant forall k :: ibData <= k < pbData.Length ==> pbData[k] == old(pbData[k])
    {
      var g;
      g, ib, ibit := ReadGroup(data, ib, ibit, ibData);
      pbData[ibData] := g;
      ibData := ibData + 1;
    }
  }

  /** Text of two bytes a character, the second of them zero. */
  function Widened(text: seq<Septet>): (w: seq<Byte>)
    ensures |w| == 2 * |text|
    ensures forall k :: 0 <= k < |text| ==> w[2 * k] == text[k] && w[2 * k + 1] == 0
  {
    seq(2 * |text|, k requires 0 <= k < 2 * |text| => if k % 2 == 0 then text[k / 2] else 0)
  }

  /** Decodes Unicode text the same way; a buffer of odd size ends on half a character. */
  method ErrDecompress7BitUnicode(data: seq<Byte>, pbData: array?<Byte>, cbDataMax: int)
    returns (fTruncated: bool, cbActual: int)
    requires |data| >= 1 && (pbData != null ==> cbDataMax <= pbData.Length)
    modifies if pbData == null then {} else {pbData}
    ensures cbActual == 2 * CTotal(data) && (fTruncated <==> cbActual > cbDataMax)
    ensures pbData != null ==>
              pbData[..CbWritten(cbActual, cbDataMax)] == Widened(Decoded(data))[..CbWritten(cbActual, cbDataMax)]
    ensures pbData != null ==>
              pbData[CbWritten(cbActual, cbDataMax)..] == old(pbData[CbWritten(2 * CTotal(data), cbDataMax)..])
  {
    hide At, Decoded, CTotal, Widened;
    AtStart(data);
    cbActual := 2 * CTotal(data);
    fTruncated := cbActual > cbDataMax;
    if cbDataMax == 0 || pbData == null {
      return;
    }
    ghost var wide := Widened(Decoded(data));
    var ibDataMax := if cbActual <= cbDataMax then cbActual else cbDataMax;
    var ib, ibit := 1, 0;
    var ibData: nat := 0;
    while ibData < ibDataMax
      invariant ibData <= CbWritten(cbActual, cbDataMax)
      invariant ibData < ibDataMax ==> ibData % 2 == 0 && At(data, ib, ibit, ibData / 2)
      invariant forall k :: 0 <= k < ibData ==> pbData[k] == wide[k]
      invariant forall k :: ibData <= k < pbData.Length ==> pbData[k] == old(pbData[k])
    {
      ghost var i := ibData / 2;
      assert wide[2 * i] == Decoded(data)[i] && wide[2 * i + 1] == 0;
      var g;
      g, ib, ibit := ReadGroup(data, ib, ibit, i);
      pbData[ibData] := g;
      ibData := ibData + 1;
      if ibData >= ibDataMax {
        break;
      }
      pbData[ibData] := 0;
      ibData := ibData + 1;
    }
  }

  // ----- round trip -----

  /** The value of a text, first character lowest. */
  function Text(x: seq<Septet>): nat {
    if |x| == 0 then 0 else x[0] + 128 * Text(x[1..])
  }

  lemma {:induction false} GroupsOfText(x: seq<Septet>)
    ensures Groups(Text(x), |x|) == x
  {
    if |x| == 0 {
    } else {
      GroupsOfText(x[1..]);
      assert Text(x) % 128 == x[0] && Text(x) / 128 == Text(x[1..]);
      assert x == [x[0]] + x[1..];
    }
  }

  /** The n lowest bytes of a value. */
  function BytesOf(v: nat, n: nat): (b: seq<Byte>)
    ensures |b| == n
    decreases n
  {
    if n == 0 then [] else [v % 256] + BytesOf(v / 256, n - 1)
  }

  function Power(base: nat, n: nat): nat {
    if n == 0 then 1 else base * Power(base, n - 1)
  }

  lemma {:induction false} NumOfBytes(v: nat, n: nat)
    requires v < Power(256, n)
    ensures Num(BytesOf(v, n)) == v
    decreases n
  {
    if n == 0 {
    } else {
      NumOfBytes(v / 256, n - 1);
      assert BytesOf(v, n)[1..] == BytesOf(v / 256, n - 1);
    }
  }

  lemma {:induction false} TextBound(x: seq<Septet>)
    ensures Text(x) < Power(128, |x|)
  {
    if |x| == 0 {
    } else {
      TextBound(x[1..]);
    }
  }

  lemma PowerZero(base: nat)
    ensures Power(base, 0) == 1
  {}

  lemma PowerStep(base: nat, m: nat)
    requires m > 0
    ensures Power(base, m) == base * Power(base, m - 1)
  {}

  lemma PowerAdds(k: nat)
    ensures Power(2, k + 7) == 128 * Power(2, k) && Power(2, k + 8) == 256 * Power(2, k)
  {
    assert Power(2, k + 2) == 2 * Power(2, k + 1) == 4 * Power(2, k);
    assert Power(2, k + 4) == 2 * Power(2, k + 3) == 4 * Power(2, k + 2);
    assert Power(2, k + 6) == 2 * Power(2, k + 5) == 4 * Power(2, k + 4);
    assert Power(2, k + 8) == 2 * Power(2, k + 7) == 4 * Power(2, k + 6);
  }

  lemma {:induction false} PowerOfTwo(e: nat, m: nat, base: nat)
    requires (e == 7 && base == 128) || (e == 8 && base == 256)
    ensures Power(base, m) == Power(2, e * m)
    decreases m
  {
    hide Power;
    PowerZero(base);
    PowerZero(2);
    if m == 0 {
      assert e * m == 0;
    } else {
      PowerOfTwo(e, m - 1, base);
      PowerAdds(e * (m - 1));
      PowerStep(base, m);
      assert e * m == e * (m - 1) + e;
    }
  }

  lemma {:induction false} PowerGrows(a: nat, b: nat)
    requires a <= b
    ensures Power(2, a) <= Power(2, b)
    decreases b
  {
    if a >= b {
    } else {
      PowerGrows(a, b - 1);
    }
  }

  /** The stream has room: seven bits a character never need more than the bytes taken. */
  lemma {:induction false} RoomFor(m: nat, n: nat)
    requires 7 * m <= 8 * n
    ensures Power(128, m) <= Power(256, n)
  {
    PowerOfTwo(7, m, 128);
    PowerOfTwo(8, n, 256);
    PowerGrows(7 * m, 8 * n);
  }

  /** The compressed form of a text: a header byte with the format and the bits used in the last
      byte, then the packed characters. */
  function Compressed(id: int, x: seq<Septet>): (data: seq<Byte>)
    requires 0 <= id < 32 && |x| > 0
    ensures |data| >= 2
  {
    var n := (7 * |x| + 7) / 8;
    var cbitFinal := 7 * |x| - 8 * (n - 1);
    [id * 8 + (cbitFinal - 1)] + BytesOf(Text(x), n)
  }

  /** Decoding the compressed form of any text gives the text. */
  lemma RoundTrip(id: int, x: seq<Septet>)
    requires 0 <= id < 32 && |x| > 0
    ensures Compressed(id, x)[0] / 8 == id
    ensures CbitTotal(Compressed(id, x)) % 7 == 0
    ensures CTotal(Compressed(id, x)) == |x|
    ensures Decoded(Compressed(id, x)) == x
  {
    var data, n := Compressed(id, x), (7 * |x| + 7) / 8;
    assert data[1..] == BytesOf(Text(x), n);
    TextBound(x);
    RoomFor(|x|, n);
    NumOfBytes(Text(x), n);
    GroupsOfText(x);
  }
}
