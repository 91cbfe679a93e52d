/** The bytes of a packet on a TCP stream (socket/Message.h:400-436): a 24-byte
    little-endian header and the payload, and what a reader makes of a prefix of a
    stream of such packets. */
module Framing {
  import opened Types
  import opened Bytes
  import opened Packet

  const TWO64 := 0x1_0000_0000_0000_0000

  function Unsigned64(x: i64): nat {
    if x >= 0 then x else x + TWO64
  }

  function Signed64(n: nat): i64
    requires n < TWO64
  {
    if n < 0x8000_0000_0000_0000 then n else n - TWO64
  }

  function Header(s: Slice): (h: seq<byte>)
    requires |s.data| < 0x1_0000_0000
    ensures |h| == HEAD
  {
    LE(MAGIC, 4) + LE(s.seqNo, 4) + LE(s.typ, 2) + [s.slices, s.cur] + LE(|s.data|, 4) + LE(Unsigned64(s.time), 8)
  }

  function Frame(s: Slice): (f: seq<byte>)
    requires |s.data| < 0x1_0000_0000
    ensures |f| == HEAD + |s.data|
  {
    Header(s) + s.data
  }

  // ---- Reading the fields in place ----

  /** packageData->dataSize */
  function SizeField(b: seq<byte>): (n: nat)
    requires |b| >= HEAD
    ensures n < 0x1_0000_0000
  {
    FromLEBound(b[12..16]);
    Widths();
    FromLE(b[12..16])
  }

  /** The slice at *packageData, its payload being the next dataSize bytes. The
      magic is not looked at. */
  function SliceAt(b: seq<byte>): Slice
    requires |b| >= HEAD && |b| >= HEAD + SizeField(b)
  {
    FromLEBound(b[4..8]);
    FromLEBound(b[8..10]);
    FromLEBound(b[16..24]);
    Widths();
    Slice(FromLE(b[4..8]), FromLE(b[8..10]), b[10], b[11], Signed64(FromLE(b[16..24])),
          b[HEAD..HEAD + SizeField(b)])
  }

  lemma HeaderFields(s: Slice)
    requires |s.data| < 0x1_0000_0000
    ensures var h := Header(s);
            && h[4..8] == LE(s.seqNo, 4) && h[8..10] == LE(s.typ, 2) && h[10] == s.slices && h[11] == s.cur
            && h[12..16] == LE(|s.data|, 4) && h[16..24] == LE(Unsigned64(s.time), 8)
  {
    hide LE;
  }

  /** The layout of struct SocketPackageData, byte by byte: magic, sequence number, type,
      slice count, slice index, payload size, time; 24 bytes, least significant byte first. */
  lemma HeaderLayout(data: seq<byte>)
    requires |data| == 0x0102
    ensures Header(Slice(0x0a0b_0c0d, 0x2002, 3, 2, 0x0102_0304_0506_0708, data))
         == [0x12, 0x00, 0x00, 0x21] + [0x0d, 0x0c, 0x0b, 0x0a] + [0x02, 0x20] + [3, 2]
            + [0x02, 0x01, 0x00, 0x00] + [0x08, 0x07, 0x06, 0x05, 0x04, 0x03, 0x02, 0x01]
    ensures |Header(Slice(0x0a0b_0c0d, 0x2002, 3, 2, 0x0102_0304_0506_0708, data))| == 24
  {
    Word(0x2100_0012, 0x12, 0x00, 0x00, 0x21);
    Word(0x0a0b_0c0d, 0x0d, 0x0c, 0x0b, 0x0a);
    Word(0x0102, 0x02, 0x01, 0x00, 0x00);
    Half(0x2002, 0x02, 0x20);
    Time();
  }

  lemma Low(x: nat, k: nat, a: byte, y: nat)
    requires x == a + 0x100 * y
    ensures LE(x, k + 1) == [a] + LE(y, k)
  {
  }

  lemma Half(x: nat, a: byte, b: byte)
    requires x == a + 0x100 * b
    ensures LE(x, 2) == [a, b]
  {
    hide LE;
    Low(x, 1, a, b);
    Low(b, 0, b, 0);
    NoBytes();
  }

  lemma NoBytes()
    ensures LE(0, 0) == []
  {
  }

  lemma Word(x: nat, a: byte, b: byte, c: byte, d: byte)
    requires x == a + 0x100 * b + 0x1_0000 * c + 0x100_0000 * d
    ensures LE(x, 4) == [a, b, c, d]
  {
    hide LE;
    Low(x, 3, a, b + 0x100 * c + 0x1_0000 * d);
    Low(b + 0x100 * c + 0x1_0000 * d, 2, b, c + 0x100 * d);
    Half(c + 0x100 * d, c, d);
  }

  lemma Time()
    ensures LE(Unsigned64(0x0102_0304_0506_0708), 8) == [0x08, 0x07, 0x06, 0x05, 0x04, 0x03, 0x02, 0x01]
  {
    hide LE;
    Low(0x0102_0304_0506_0708, 7, 8, 0x0001_0203_0405_0607);
    Low(0x0001_0203_0405_0607, 6, 7, 0x0102_0304_0506);
    Low(0x0102_0304_0506, 5, 6, 0x0001_0203_0405);
    Low(0x0001_0203_0405, 4, 5, 0x0102_0304);
    Word(0x0102_0304, 4, 3, 2, 1);
  }

  lemma FieldsRoundTrip(s: Slice)
    requires |s.data| < 0x1_0000_0000
    ensures FromLE(LE(s.seqNo, 4)) == s.seqNo && FromLE(LE(s.typ, 2)) == s.typ
    ensures FromLE(LE(|s.data|, 4)) == |s.data|
    ensures FromLE(LE(Unsigned64(s.time), 8)) == Unsigned64(s.time) < TWO64
    ensures Signed64(Unsigned64(s.time)) == s.time
  {
    hide LE, FromLE;
    Widths();
    RoundTrip(s.seqNo, 4);
    RoundTrip(s.typ, 2);
    RoundTrip(|s.data|, 4);
    RoundTrip(Unsigned64(s.time), 8);
  }

  /** A frame at the head of a stream reads back as the slice, once its header has
      arrived the size, and once all of it has arrived the whole. */
  lemma FrameReadsBack(s: Slice, rest: seq<byte>, b: seq<byte>)
    requires |s.data| < 0x1_0000_0000 && HEAD <= |b| && b <= Frame(s) + rest
    ensures SizeField(b) == |s.data|
    ensures |b| >= HEAD + |s.data| ==> SliceAt(b) == s && b[HEAD + |s.data|..] <= rest
  {
    HeaderFields(s);
    FieldsRoundTrip(s);
    hide LE, FromLE;
    var h := Header(s);
    assert b[..HEAD] == h;
    assert b[4..8] == h[4..8] && b[8..10] == h[8..10] && b[12..16] == h[12..16] && b[16..24] == h[16..24];
    if |b| >= HEAD + |s.data| {
      assert b[HEAD..HEAD + |s.data|] == s.data;
    }
  }

  // ---- Streams ----

  function Stream(f: seq<Slice>): (b: seq<byte>)
    requires forall i | 0 <= i < |f| :: |f[i].data| < 0x1_0000_0000
  {
    if f == [] then [] else Frame(f[0]) + Stream(f[1..])
  }

  lemma {:induction false} StreamConcat(f: seq<Slice>, g: seq<Slice>)
    requires forall i | 0 <= i < |f| :: |f[i].data| < 0x1_0000_0000
    requires forall i | 0 <= i < |g| :: |g[i].data| < 0x1_0000_0000
    ensures Stream(f + g) == Stream(f) + Stream(g)
  {
    if f == [] {
      assert [] + g == g;
    } else {
      assert (f + g)[0] == f[0] && (f + g)[1..] == f[1..] + g;
      StreamConcat(f[1..], g);
    }
  }
}
