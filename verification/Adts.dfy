/** AAC2PCM::getADTSframe (faad/rv1108_aad.cpp:69-103): the scan for an ADTS header
    and the 13-bit aac_frame_length in it (section 6.2 of ISO/IEC 13818-7). */
module Adts {

  const HEADER_SIZE := 7
  const MAX_FRAME := 0x1fff

  // ---- The header as the standard lays it out ----

  /** Bit i of the header, most significant bit of each byte first. */
  predicate HeaderBit(b: seq<bv8>, i: nat)
    requires i / 8 < |b|
  {
    b[i / 8] & (0x80 >> (i % 8)) != 0
  }

  function BitValue(bit: bool): bv16 {
    if bit then 1 else 0
  }

  function Append(v: bv16, bit: bool): bv16 {
    (v << 1) | BitValue(bit)
  }

  /** The n header bits from bit first on, as an unsigned number. */
  function BitField(b: seq<bv8>, first: nat, n: nat): bv16
    requires n > 0 ==> (first + n - 1) / 8 < |b|
  {
    if n == 0 then 0 else Append(BitField(b, first, n - 1), HeaderBit(b, first + n - 1))
  }

  /** syncword: the first twelve bits, all ones. */
  predicate Sync(b: seq<bv8>)
    requires |b| >= 2
  {
    BitField(b, 0, 12) == 0xfff
  }

  /** aac_frame_length: thirteen bits behind the 28 bits of the fixed header and the
      two copyright bits. */
  function FrameLength(b: seq<bv8>): nat
    requires |b| >= HEADER_SIZE
  {
    BitField(b, 30, 13) as nat
  }

  // ---- The tests and shifts of the source agree with it ----

  predicate SyncTest(b0: bv8, b1: bv8) {
    b0 == 0xff && b1 & 0xf0 == 0xf0
  }

  /** size |= ...: the two low bits of one byte, a whole byte, the three high bits of the next. */
  function SizeBits(b3: bv8, b4: bv8, b5: bv8): bv16 {
    ((b3 as bv16 & 0x03) << 11) | ((b4 as bv16) << 3) | ((b5 as bv16 & 0xe0) >> 5)
  }

  lemma TwoLowBits(x: bv8)
    ensures Append(Append(0, x & 0x02 != 0), x & 0x01 != 0) == x as bv16 & 0x03
  {
  }

  lemma Shifts(v: bv16, p: bv16, q: bv16, r: bv16, t: bv16)
    ensures (((((v << 1) | p) << 1) | q) << 1) | r == (v << 3) | ((p << 2) | (q << 1) | r)
    ensures (((((((v << 1) | p) << 1) | q) << 1) | r) << 1) | t == (v << 4) | ((p << 3) | (q << 2) | (r << 1) | t)
  {
  }

  function Append3(v: bv16, p: bool, q: bool, r: bool): bv16 {
    Append(Append(Append(v, p), q), r)
  }

  function Append4(v: bv16, p: bool, q: bool, r: bool, t: bool): bv16 {
    Append(Append3(v, p, q, r), t)
  }

  function Pack3(p: bool, q: bool, r: bool): bv16 {
    (BitValue(p) << 2) | (BitValue(q) << 1) | BitValue(r)
  }

  function Pack4(p: bool, q: bool, r: bool, t: bool): bv16 {
    (BitValue(p) << 3) | (BitValue(q) << 2) | (BitValue(r) << 1) | BitValue(t)
  }

  lemma ThreeBits(v: bv16, p: bool, q: bool, r: bool)
    ensures Append3(v, p, q, r) == (v << 3) | Pack3(p, q, r)
  {
    hide BitValue;
    Shifts(v, BitValue(p), BitValue(q), BitValue(r), 0);
  }

  lemma FourBits(v: bv16, p: bool, q: bool, r: bool, t: bool)
    ensures Append4(v, p, q, r, t) == (v << 4) | Pack4(p, q, r, t)
  {
    hide BitValue;
    Shifts(v, BitValue(p), BitValue(q), BitValue(r), BitValue(t));
  }

  lemma Nibble(x: bv8)
    ensures Pack4(x & 0x80 != 0, x & 0x40 != 0, x & 0x20 != 0, x & 0x10 != 0) == (x as bv16) >> 4
    ensures Pack4(x & 0x08 != 0, x & 0x04 != 0, x & 0x02 != 0, x & 0x01 != 0) == x as bv16 & 0x0f
    ensures Pack3(x & 0x80 != 0, x & 0x40 != 0, x & 0x20 != 0) == (x as bv16 & 0xe0) >> 5
  {
  }

  lemma Nibbles(v: bv16, x: bv16)
    requires x <= 0xff
    ensures (((v << 4) | (x >> 4)) << 4) | (x & 0x0f) == (v << 8) | x
  {
  }

  lemma Join(x: bv16, y: bv16, z: bv16)
    ensures (((x << 8) | y) << 3) | z == (x << 11) | (y << 3) | z
  {
  }

  lemma SyncWord(x: bv8, y: bv8)
    ensures (((x as bv16) << 4) | ((y as bv16) >> 4)) == 0xfff <==> SyncTest(x, y)
    ensures ((0 as bv16) << 8) | (x as bv16) == x as bv16
  {
  }

  lemma MaskOfBit()
    ensures (0x80 as bv8) >> 0 == 0x80 && (0x80 as bv8) >> 1 == 0x40
    ensures (0x80 as bv8) >> 2 == 0x20 && (0x80 as bv8) >> 3 == 0x10
    ensures (0x80 as bv8) >> 4 == 0x08 && (0x80 as bv8) >> 5 == 0x04
    ensures (0x80 as bv8) >> 6 == 0x02 && (0x80 as bv8) >> 7 == 0x01
  {
  }

  lemma HeaderBitIs(b: seq<bv8>, byteIndex: nat, k: nat)
    requires byteIndex < |b| && k < 8
    ensures (8 * byteIndex + k) / 8 == byteIndex
    ensures HeaderBit(b, 8 * byteIndex + k)
       <==> b[byteIndex] & (match k case 0 => 0x80 case 1 => 0x40 case 2 => 0x20 case 3 => 0x10
                                    case 4 => 0x08 case 5 => 0x04 case 6 => 0x02 case _ => 0x01) != 0
  {
    MaskOfBit();
  }

  function HighHalf(v: bv16, x: bv8): bv16 {
    Append4(v, x & 0x80 != 0, x & 0x40 != 0, x & 0x20 != 0, x & 0x10 != 0)
  }

  function LowHalf(v: bv16, x: bv8): bv16 {
    Append4(v, x & 0x08 != 0, x & 0x04 != 0, x & 0x02 != 0, x & 0x01 != 0)
  }

  function HighThree(v: bv16, x: bv8): bv16 {
    Append3(v, x & 0x80 != 0, x & 0x40 != 0, x & 0x20 != 0)
  }

  lemma HighHalfIs(v: bv16, x: bv8)
    ensures HighHalf(v, x) == (v << 4) | ((x as bv16) >> 4)
  {
    var n := Pack4(x & 0x80 != 0, x & 0x40 != 0, x & 0x20 != 0, x & 0x10 != 0);
    assert HighHalf(v, x) == (v << 4) | n by {
      FourBits(v, x & 0x80 != 0, x & 0x40 != 0, x & 0x20 != 0, x & 0x10 != 0);
    }
    assert n == (x as bv16) >> 4 by { Nibble(x); }
  }

  lemma LowHalfIs(v: bv16, x: bv8)
    ensures LowHalf(v, x) == (v << 4) | (x as bv16 & 0x0f)
  {
    var n := Pack4(x & 0x08 != 0, x & 0x04 != 0, x & 0x02 != 0, x & 0x01 != 0);
    assert LowHalf(v, x) == (v << 4) | n by {
      FourBits(v, x & 0x08 != 0, x & 0x04 != 0, x & 0x02 != 0, x & 0x01 != 0);
    }
    assert n == x as bv16 & 0x0f by { Nibble(x); }
  }

  lemma HighThreeIs(v: bv16, x: bv8)
    ensures HighThree(v, x) == (v << 3) | ((x as bv16 & 0xe0) >> 5)
  {
    var n := Pack3(x & 0x80 != 0, x & 0x40 != 0, x & 0x20 != 0);
    assert HighThree(v, x) == (v << 3) | n by {
      ThreeBits(v, x & 0x80 != 0, x & 0x40 != 0, x & 0x20 != 0);
    }
    assert n == (x as bv16 & 0xe0) >> 5 by { Nibble(x); }
  }

  lemma HalvesAreByte(v: bv16, x: bv8)
    ensures LowHalf(HighHalf(v, x), x) == (v << 8) | (x as bv16)
  {
    hide LowHalf, HighHalf;
    HighHalfIs(v, x);
    LowHalfIs(HighHalf(v, x), x);
    Nibbles(v, x as bv16);
  }

  /** The header bits of one byte, behind n bits that end where it begins. */
  lemma ByteField(b: seq<bv8>, first: nat, n: nat, byteIndex: nat)
    requires byteIndex < |b| && first + n == 8 * byteIndex
    ensures BitField(b, first, n + 4) == HighHalf(BitField(b, first, n), b[byteIndex])
    ensures BitField(b, first, n + 8) == LowHalf(HighHalf(BitField(b, first, n), b[byteIndex]), b[byteIndex])
  {
    hide Append, HeaderBit;
    HeaderBitIs(b, byteIndex, 0);
    HeaderBitIs(b, byteIndex, 1);
    HeaderBitIs(b, byteIndex, 2);
    HeaderBitIs(b, byteIndex, 3);
    HeaderBitIs(b, byteIndex, 4);
    HeaderBitIs(b, byteIndex, 5);
    HeaderBitIs(b, byteIndex, 6);
    HeaderBitIs(b, byteIndex, 7);
    assert BitField(b, first, n + 2) == Append(BitField(b, first, n + 1), HeaderBit(b, first + n + 1));
    assert BitField(b, first, n + 4) == Append(BitField(b, first, n + 3), HeaderBit(b, first + n + 3));
    assert BitField(b, first, n + 6) == Append(BitField(b, first, n + 5), HeaderBit(b, first + n + 5));
  }

  /** The syncword test of the scan. */
  lemma SyncIs(b: seq<bv8>)
    requires |b| >= 2
    ensures Sync(b) <==> SyncTest(b[0], b[1])
  {
    hide Append, HighHalf, LowHalf, HeaderBit;
    ByteField(b, 0, 0, 0);
    ByteField(b, 0, 8, 1);
    HalvesAreByte(0, b[0]);
    HighHalfIs(BitField(b, 0, 8), b[1]);
    SyncWord(b[0], b[1]);
  }

  /** The bits the source ors into size are aac_frame_length. */
  lemma SizeIsFrameLength(b: seq<bv8>)
    requires |b| >= HEADER_SIZE
    ensures SizeBits(b[3], b[4], b[5]) as nat == FrameLength(b) <= MAX_FRAME
  {
    hide Append, HeaderBit, HighHalf, LowHalf, HighThree;
    LastFields(b);
    HalvesAreByte(BitField(b, 30, 2), b[4]);
    HighThreeIs(BitField(b, 30, 10), b[5]);
    Join(b[3] as bv16 & 0x03, b[4] as bv16, (b[5] as bv16 & 0xe0) >> 5);
    SizeBound(b[3], b[4], b[5]);
  }

  lemma LastFields(b: seq<bv8>)
    requires |b| >= HEADER_SIZE
    ensures BitField(b, 30, 2) == b[3] as bv16 & 0x03
    ensures BitField(b, 30, 10) == LowHalf(HighHalf(BitField(b, 30, 2), b[4]), b[4])
    ensures BitField(b, 30, 13) == HighThree(BitField(b, 30, 10), b[5])
  {
    hide Append, HeaderBit;
    HeaderBitIs(b, 3, 6);
    HeaderBitIs(b, 3, 7);
    assert BitField(b, 30, 0) == 0;
    assert BitField(b, 30, 1) == Append(BitField(b, 30, 0), HeaderBit(b, 30));
    assert BitField(b, 30, 2) == Append(BitField(b, 30, 1), HeaderBit(b, 31));
    TwoLowBits(b[3]);
    ByteField(b, 30, 2, 4);
    HeaderBitIs(b, 5, 0);
    HeaderBitIs(b, 5, 1);
    HeaderBitIs(b, 5, 2);
    assert BitField(b, 30, 12) == Append(BitField(b, 30, 11), HeaderBit(b, 41));
  }

  lemma SizeBound(b3: bv8, b4: bv8, b5: bv8)
    ensures SizeBits(b3, b4, b5) as nat <= MAX_FRAME
  {
  }

  // ---- The scan ----

  /** A header starts at offset k: seven bytes are left there and the first two hold the syncword. */
  predicate HeaderAt(b: seq<bv8>, k: nat) {
    k + HEADER_SIZE <= |b| && Sync(b[k..])
  }

  ghost predicate FirstHeader(b: seq<bv8>, k: nat) {
    HeaderAt(b, k) && forall j: nat :: j < k ==> !HeaderAt(b, j)
  }

  function LengthAt(b: seq<bv8>, k: nat): nat
    requires HeaderAt(b, k)
  {
    FrameLength(b[k..])
  }

  ghost predicate NoHeader(b: seq<bv8>) {
    forall k: nat :: !HeaderAt(b, k)
  }

  ghost predicate CutShort(b: seq<bv8>) {
    exists k: nat :: FirstHeader(b, k) && |b| - k < LengthAt(b, k)
  }

  /** The frame at the first header, when all of it is there. */
  ghost predicate IsFrame(b: seq<bv8>, f: seq<bv8>) {
    exists k: nat :: FirstHeader(b, k) && k + LengthAt(b, k) <= |b| && f == b[k..k + LengthAt(b, k)]
  }

  /** Of the three outcomes exactly one applies to any buffer, and the frame is unique. */
  lemma OutcomesExclude(b: seq<bv8>, f: seq<bv8>, g: seq<bv8>)
    ensures IsFrame(b, f) && IsFrame(b, g) ==> f == g
    ensures IsFrame(b, f) ==> !CutShort(b) && !NoHeader(b)
    ensures CutShort(b) ==> !NoHeader(b)
    ensures !NoHeader(b) && !CutShort(b) ==> exists h :: IsFrame(b, h)
  {
    forall k: nat, j: nat | FirstHeader(b, k) && FirstHeader(b, j) ensures k == j {
      assert !(k < j) && !(j < k);
    }
    if !NoHeader(b) && !CutShort(b) {
      var k: nat :| HeaderAt(b, k);
      var first := Earliest(b, k);
      assert IsFrame(b, b[first..first + LengthAt(b, first)]);
    }
  }

  lemma Earliest(b: seq<bv8>, k: nat) returns (first: nat)
    requires HeaderAt(b, k)
    ensures FirstHeader(b, first)
  {
    first := 0;
    while !HeaderAt(b, first)
      invariant first <= k
      invariant forall j: nat :: j < first ==> !HeaderAt(b, j)
      decreases k - first
    {
      first := first + 1;
    }
  }

  lemma SyncTestFinds(b: seq<bv8>, k: nat)
    requires k + 7 <= |b|
    ensures HeaderAt(b, k) <==> SyncTest(b[k], b[k + 1])
  {
    hide SyncTest, Sync;
    SyncIs(b[k..]);
  }

  lemma SizeBitsAt(b: seq<bv8>, k: nat)
    requires HeaderAt(b, k)
    ensures SizeBits(b[k + 3], b[k + 4], b[k + 5]) as nat == LengthAt(b, k) <= MAX_FRAME
  {
    hide SizeBits, FrameLength, Sync;
    SizeIsFrameLength(b[k..]);
  }

  lemma ScanEnds(b: seq<bv8>, off: nat)
    requires |b| < off + HEADER_SIZE
    requires forall j: nat :: j < off ==> !HeaderAt(b, j)
    ensures NoHeader(b)
  {
  }

  lemma NoHeaderNotCut(b: seq<bv8>)
    requires NoHeader(b)
    ensures !CutShort(b)
  {
  }

  lemma FoundFirst(b: seq<bv8>, off: nat)
    requires FirstHeader(b, off)
    ensures off <= |b| && HeaderAt(b, off)
    ensures CutShort(b) <==> |b| < off + LengthAt(b, off)
    ensures off + LengthAt(b, off) <= |b| ==> IsFrame(b, b[off..off + LengthAt(b, off)])
  {
    if off + LengthAt(b, off) <= |b| {
      var f := b[off..off + LengthAt(b, off)];
      OutcomesExclude(b, f, f);
    }
  }

  lemma ScanStops(b: seq<bv8>, off: nat)
    requires HeaderAt(b, off)
    requires forall j: nat :: j < off ==> !HeaderAt(b, j)
    ensures FirstHeader(b, off) && !NoHeader(b)
  {
  }

  /** The memcpy of the frame: size bytes from offset off, the rest of data as it was. */
  method CopyFrame(buffer: array<bv8>, off: nat, size: nat, data: array<bv8>)
    requires buffer != data && off + size <= buffer.Length && size <= data.Length
    modifies data
    ensures forall n :: off + size <= n <= buffer.Length ==> data[..size] == buffer[..n][off..off + size]
    ensures data[size..] == old(data[..])[size..]
  {
    forall k | 0 <= k < size {
      data[k] := buffer[off + k];
    }
  }

  /** The scan loop: the offset of the first header and the length read from it. */
  method FindHeader(buffer: array<bv8>, bufSize: nat) returns (found: bool, off: nat, size: nat)
    requires bufSize <= buffer.Length
    ensures found <==> !NoHeader(buffer[..bufSize])
    ensures found ==> FirstHeader(buffer[..bufSize], off) && size == LengthAt(buffer[..bufSize], off) <= MAX_FRAME
  {
    hide SyncTest, SizeBits, LengthAt, HeaderAt, FirstHeader, NoHeader;
    ghost var b := buffer[..bufSize];
    off, size := 0, 0;
    var left: int := bufSize;
    while true
      invariant off + left == bufSize && 0 <= left
      invariant forall j: nat :: j < off ==> !HeaderAt(b, j)
      decreases left
    {
      if left < 7 {
        ScanEnds(b, off);
        return false, off, 0;
      }
      SyncTestFinds(b, off);
      if SyncTest(buffer[off], buffer[off + 1]) {
        ScanStops(b, off);
        SizeBitsAt(b, off);
        size := SizeBits(buffer[off + 3], buffer[off + 4], buffer[off + 5]) as nat;
        return true, off, size;
      }
      left := left - 1;
      off := off + 1;
    }
  }

  /** AAC2PCM::getADTSframe. data and dataSize are the output pointers; the caller
      provides room for the frame and keeps the two byte arrays apart. */
  method GetADTSFrame(buffer: array?<bv8>, bufSize: int, data: array?<bv8>, dataSize: array?<int>)
    returns (code: int)
    requires buffer != null ==> bufSize <= buffer.Length && buffer != data
    requires buffer != null && data != null && 0 <= bufSize ==>
               forall f :: IsFrame(buffer[..bufSize], f) ==> |f| <= data.Length
    requires dataSize != null ==> dataSize.Length == 1 && dataSize as object? != data
    modifies data, dataSize
    ensures code == -1 <==> buffer == null || data == null || dataSize == null
                            || bufSize < 0 || NoHeader(buffer[..bufSize])
    ensures code == 1 <==> buffer != null && data != null && dataSize != null
                           && 0 <= bufSize && CutShort(buffer[..bufSize])
    ensures code == 0 || code == 1 || code == -1
    ensures code == 0 ==> buffer != null && data != null && dataSize != null && 0 <= bufSize
                          && 0 <= dataSize[0] <= MAX_FRAME && dataSize[0] <= data.Length
                          && IsFrame(buffer[..bufSize], data[..dataSize[0]])
                          && data[dataSize[0]..] == old(data[..])[dataSize[0]..]
    ensures code != 0 && data != null ==> data[..] == old(data[..])
    ensures code != 0 && dataSize != null ==> dataSize[0] == old(dataSize[0])
  {
    hide HeaderAt, LengthAt, FirstHeader, NoHeader, CutShort, IsFrame;
    if buffer == null || data == null || dataSize == null {
      return -1;
    }
    if bufSize < 0 {
      return -1;
    }
    ghost var b := buffer[..bufSize];
    var found, off, size := FindHeader(buffer, bufSize);
    if !found {
      NoHeaderNotCut(b);
      return -1;
    }
    FoundFirst(b, off);
    if bufSize - off < size {
      return 1;
    }
    CopyFrame(buffer, off, size, data);
    assert buffer[..bufSize] == b;
    assert data[..size] == b[off..off + size];
    dataSize[0] := size;
    assert buffer[..bufSize] == b;
    return 0;
  }
}
