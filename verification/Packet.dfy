/** Messages, their slices, and the reference definition of fragmentation
    (socket/Message.h:400-436, socket/native.h:18-22). */
module Packet {
  import opened Types

  const HEAD := 24                        // sizeof(SocketPackageData)
  const UDP_PACKLENGTH := 32 * 1024       // UDP_PACKENGTH
  const TCP_SLICE := 64 * 1024            // MAXSIZE_SENDSOCKPACKAGE
  const MAX_SOCKPACKAGE := 256 * 1024     // MAXSIZE_SOCKPACKAGE
  const MAGIC: u32 := 0x2100_0012         // SOCKMAGIC_HEAD
  const TYPE_VIDEO: u16 := 0x2002
  const TYPE_AUDIO: u16 := 0x2003

  /** One SocketPackageData as it travels: the header fields and its payload,
      whose length is the field dataSize. */
  datatype Slice = Slice(seqNo: u32, typ: u16, slices: byte, cur: byte, time: i64, data: seq<byte>)

  /** A whole message as the sender keeps it: slices is the truncated slice count. */
  datatype Message = Message(seqNo: u32, typ: u16, slices: byte, time: i64, data: seq<byte>)

  function Min(a: int, b: int): int {
    if a <= b then a else b
  }

  /** len <= 0 ? 1 : (len + size - 1) / size */
  function SliceCount(len: nat, size: nat): nat
    requires size > 0
  {
    if len == 0 then 1 else (len + size - 1) / size
  }

  lemma SliceCountIsCeiling(len: nat, size: nat)
    requires size > 0
    ensures SliceCount(len, size) >= 1
    ensures len <= SliceCount(len, size) * size
    ensures len > 0 ==> (SliceCount(len, size) - 1) * size < len
  {
    if len > 0 {
      var n := (len + size - 1) / size;
      assert n * size + (len + size - 1) % size == len + size - 1;
      if n <= 0 {
        MulSign(n, size);
        assert false;
      }
      assert (n - 1) * size == n * size - size;
    }
  }

  lemma MulSign(a: int, b: nat)
    requires a <= 0
    ensures a * b <= 0
  {
  }

  /** Bytes [i*size, min((i+1)*size, len)) of the payload. */
  function Piece(data: seq<byte>, i: nat, size: nat): (p: seq<byte>)
    requires i * size <= |data|
  {
    data[i * size..Min(i * size + size, |data|)]
  }

  predicate HasSlice(m: Message, i: nat, size: nat) {
    i < 256 && i * size <= |m.data|
  }

  function SliceOf(m: Message, i: nat, size: nat): Slice
    requires HasSlice(m, i, size)
  {
    Slice(m.seqNo, m.typ, m.slices, i, m.time, Piece(m.data, i, size))
  }

  /** The message built by a sender for a payload: the header counts slices in one byte. */
  function Packaged(seqNo: u32, typ: u16, time: i64, data: seq<byte>, size: nat): Message
    requires size > 0
  {
    Message(seqNo, typ, SliceCount(|data|, size) % 256, time, data)
  }

  /** A message whose slice count fits the one-byte header field. */
  predicate Sliceable(m: Message, size: nat) {
    size > 0 && SliceCount(|m.data|, size) <= 255 && m.slices == SliceCount(|m.data|, size)
  }

  lemma PackagedSliceable(seqNo: u32, typ: u16, time: i64, data: seq<byte>, size: nat)
    requires size > 0
    ensures Sliceable(Packaged(seqNo, typ, time, data, size), size) <==> |data| <= 255 * size
  {
    SliceCountIsCeiling(|data|, size);
    var n := SliceCount(|data|, size);
    if n <= 255 {
      MulMono(n, 255, size);
    } else {
      MulMono(255, n - 1, size);
    }
  }

  lemma MulMono(a: int, b: int, c: nat)
    requires a <= b
    ensures a * c <= b * c
  {
    MulSign(a - b, c);
    assert (a - b) * c == a * c - b * c;
  }

  lemma SliceExists(m: Message, i: nat, size: nat)
    requires Sliceable(m, size) && i < m.slices
    ensures HasSlice(m, i, size)
    ensures i < m.slices - 1 ==> i * size + size <= |m.data|
    ensures i == m.slices - 1 ==> |m.data| <= i * size + size
  {
    SliceCountIsCeiling(|m.data|, size);
    MulMono(i, m.slices - 1, size);
    if i < m.slices - 1 {
      MulMono(i + 1, m.slices - 1, size);
    }
    assert (m.slices - 1) * size == m.slices * size - size;
    assert (i + 1) * size == i * size + size;
  }

  lemma PieceBounds(m: Message, i: nat, size: nat)
    requires Sliceable(m, size) && i < m.slices
    ensures HasSlice(m, i, size)
    ensures |Piece(m.data, i, size)| <= size
    ensures i < m.slices - 1 ==> |Piece(m.data, i, size)| == size
    ensures Piece(m.data, i, size) == [] ==> m.data == [] && m.slices == 1
  {
    SliceExists(m, i, size);
    SliceCountIsCeiling(|m.data|, size);
  }

  /** All slices, in order: what every sender means to put on the wire. */
  function Fragments(m: Message, size: nat): (f: seq<Slice>)
    requires Sliceable(m, size)
    ensures |f| == m.slices
    ensures forall i | 0 <= i < |f| :: HasSlice(m, i, size) && f[i] == SliceOf(m, i, size)
  {
    assert forall i: nat | i < m.slices :: HasSlice(m, i, size) by {
      forall i: nat | i < m.slices ensures HasSlice(m, i, size) { SliceExists(m, i, size); }
    }
    seq(m.slices, i requires 0 <= i < m.slices => SliceOf(m, i, size))
  }

  function Payloads(f: seq<Slice>): seq<byte> {
    if f == [] then [] else Payloads(f[..|f| - 1]) + f[|f| - 1].data
  }

  lemma PieceExtends(data: seq<byte>, i: nat, size: nat)
    requires i * size <= |data|
    ensures data[..Min(i * size, |data|)] + Piece(data, i, size) == data[..Min((i + 1) * size, |data|)]
  {
    assert (i + 1) * size == i * size + size;
  }

  lemma PieceLength(data: seq<byte>, i: nat, size: nat)
    requires i * size <= |data|
    ensures Min(i * size, |data|) + |Piece(data, i, size)| == Min((i + 1) * size, |data|)
  {
    PieceExtends(data, i, size);
  }

  lemma {:induction false} PayloadsPrefix(m: Message, size: nat, n: nat)
    requires Sliceable(m, size) && n <= m.slices
    ensures Payloads(Fragments(m, size)[..n]) == m.data[..Min(n * size, |m.data|)]
  {
    var f := Fragments(m, size);
    if n == 0 {
      assert f[..0] == [];
    } else {
      SliceExists(m, n - 1, size);
      PayloadsPrefix(m, size, n - 1);
      assert f[..n][..n - 1] == f[..n - 1];
      assert f[..n][n - 1] == SliceOf(m, n - 1, size);
      PieceExtends(m.data, n - 1, size);
    }
  }

  /** Fragmentation partitions the payload. */
  lemma FragmentsPartition(m: Message, size: nat)
    requires Sliceable(m, size)
    ensures Payloads(Fragments(m, size)) == m.data
    ensures forall s <- Fragments(m, size) :: |s.data| <= size
    ensures forall s <- Fragments(m, size) :: s.data == [] ==> m.data == [] && m.slices == 1
  {
    var f := Fragments(m, size);
    assert Payloads(f) == m.data by {
      SliceCountIsCeiling(|m.data|, size);
      PayloadsPrefix(m, size, m.slices);
      assert f[..m.slices] == f;
    }
    forall i | 0 <= i < |f|
      ensures |f[i].data| <= size
      ensures f[i].data == [] ==> m.data == [] && m.slices == 1
    {
      PieceBounds(m, i, size);
    }
  }

  /** A sender can cut the slices below m.slices out of the payload. Every message
      a sender builds is of this kind, its slice count truncated or not. */
  predicate Emittable(m: Message, size: nat) {
    size > 0 && (m.slices <= 1 || HasSlice(m, m.slices - 1, size))
  }

  lemma EarlierSlice(m: Message, i: nat, j: nat, size: nat)
    requires HasSlice(m, j, size) && i <= j
    ensures HasSlice(m, i, size)
  {
    MulMono(i, j, size);
  }

  lemma PackagedEmittable(seqNo: u32, typ: u16, time: i64, data: seq<byte>, size: nat)
    requires size > 0
    ensures Emittable(Packaged(seqNo, typ, time, data, size), size)
  {
    var m := Packaged(seqNo, typ, time, data, size);
    SliceCountIsCeiling(|data|, size);
    if m.slices > 1 {
      MulMono(m.slices - 1, SliceCount(|data|, size) - 1, size);
    }
  }

  lemma SliceableEmittable(m: Message, size: nat)
    requires Sliceable(m, size)
    ensures Emittable(m, size) && m.slices >= 1
  {
    SliceCountIsCeiling(|m.data|, size);
    SliceExists(m, m.slices - 1, size);
  }

  /** The slices below n that a mask selects, in order. */
  function Selected(m: Message, size: nat, mask: set<nat>, n: nat): (f: seq<Slice>)
    requires n > 0 ==> HasSlice(m, n - 1, size)
  {
    if n == 0 then []
    else
      if n > 1 then EarlierSlice(m, n - 2, n - 1, size);
        Selected(m, size, mask, n - 1) + (if n - 1 in mask then [SliceOf(m, n - 1, size)] else [])
      else
        (if 0 in mask then [SliceOf(m, 0, size)] else [])
  }

  lemma SelectedStep(m: Message, size: nat, mask: set<nat>, n: nat)
    requires HasSlice(m, n, size)
    ensures n > 0 ==> HasSlice(m, n - 1, size)
    ensures Selected(m, size, mask, n + 1)
         == Selected(m, size, mask, n) + (if n in mask then [SliceOf(m, n, size)] else [])
  {
    if n > 0 {
      EarlierSlice(m, n - 1, n, size);
    }
  }

  /** The bytes the cutting loops copy: the payload from offset i*size on, at most size of them. */
  lemma PieceAt(data: seq<byte>, i: nat, size: nat, offset: nat, leave: nat)
    requires offset == i * size <= |data|
    requires leave == if |data| - offset >= size then size else |data| - offset
    ensures Piece(data, i, size) == data[offset..offset + leave]
    ensures offset + size == (i + 1) * size
  {
  }

  /** A masked send is the sub-list of the full send picked by the mask:
      exactly those slices, ascending, once each. */
  lemma {:induction false} SelectedIsSublist(m: Message, size: nat, mask: set<nat>, n: nat)
    requires Sliceable(m, size) && n <= m.slices
    ensures n > 0 ==> HasSlice(m, n - 1, size)
    ensures forall i: nat | i < m.slices ::
              Fragments(m, size)[i] in Selected(m, size, mask, n) <==> i in mask && i < n
    ensures forall s <- Selected(m, size, mask, n) :: s.cur < n && s.cur in mask && s == Fragments(m, size)[s.cur]
    ensures forall j, k | 0 <= j < k < |Selected(m, size, mask, n)| ::
              Selected(m, size, mask, n)[j].cur < Selected(m, size, mask, n)[k].cur
  {
    if n > 0 {
      SelectedIsSublist(m, size, mask, n - 1);
      SliceExists(m, n - 1, size);
      var before := Selected(m, size, mask, n - 1);
      var f := Selected(m, size, mask, n);
      assert Fragments(m, size)[n - 1] == SliceOf(m, n - 1, size);
      forall i: nat | i < m.slices
        ensures Fragments(m, size)[i] in f <==> i in mask && i < n
      {
        assert Fragments(m, size)[i].cur == i;
        if i == n - 1 && i in mask {
          assert f[|before|] == Fragments(m, size)[i];
        }
      }
    }
  }

  /** A mask that holds every slice selects the whole list. */
  lemma {:induction false} SelectedAll(m: Message, size: nat, mask: set<nat>, n: nat)
    requires Sliceable(m, size) && n <= m.slices
    requires forall i: nat | i < m.slices :: i in mask
    ensures n > 0 ==> HasSlice(m, n - 1, size)
    ensures Selected(m, size, mask, n) == Fragments(m, size)[..n]
  {
    if n > 0 {
      SliceExists(m, n - 1, size);
      SelectedAll(m, size, mask, n - 1);
    }
  }

  /** What Send_l puts on the wire: a message of one slice goes out whole,
      whatever the mask says. */
  function Emitted(m: Message, size: nat, mask: set<nat>): seq<Slice>
    requires Emittable(m, size)
  {
    if m.slices <= 1 then [Slice(m.seqNo, m.typ, m.slices, 0, m.time, m.data)]
    else Selected(m, size, mask, m.slices)
  }

  /** Slice i as SendDirect and DoThreadSendData build it from the bare payload,
      the number of slices n and the index both cut to a byte in the header. */
  function CutOf(seqNo: u32, typ: u16, time: i64, data: seq<byte>, size: nat, n: nat, i: nat): Slice
    requires i * size <= |data|
  {
    Slice(seqNo, typ, n % 256, i % 256, time, Piece(data, i, size))
  }

  /** The first k of those slices. */
  function Cuts(seqNo: u32, typ: u16, time: i64, data: seq<byte>, size: nat, k: nat): (f: seq<Slice>)
    requires size > 0 && k <= SliceCount(|data|, size)
    ensures |f| == k
  {
    if k == 0 then []
    else
      CutExists(|data|, size, k - 1);
      Cuts(seqNo, typ, time, data, size, k - 1)
      + [CutOf(seqNo, typ, time, data, size, SliceCount(|data|, size), k - 1)]
  }

  lemma CutExists(len: nat, size: nat, i: nat)
    requires size > 0 && i < SliceCount(len, size)
    ensures i * size <= len
    ensures i > 0 ==> i * size < len
  {
    SliceCountIsCeiling(len, size);
    if len > 0 {
      MulMono(i, SliceCount(len, size) - 1, size);
    }
  }

  function AllCuts(seqNo: u32, typ: u16, time: i64, data: seq<byte>, size: nat): seq<Slice>
    requires size > 0
  {
    Cuts(seqNo, typ, time, data, size, SliceCount(|data|, size))
  }

  lemma {:induction false} CutsAreFragments(seqNo: u32, typ: u16, time: i64, data: seq<byte>, size: nat, k: nat)
    requires size > 0 && k <= SliceCount(|data|, size) <= 255
    ensures Sliceable(Packaged(seqNo, typ, time, data, size), size)
    ensures Cuts(seqNo, typ, time, data, size, k) == Fragments(Packaged(seqNo, typ, time, data, size), size)[..k]
  {
    if k > 0 {
      CutsAreFragments(seqNo, typ, time, data, size, k - 1);
      CutExists(|data|, size, k - 1);
      var f := Fragments(Packaged(seqNo, typ, time, data, size), size);
      assert f[k - 1] == SliceOf(Packaged(seqNo, typ, time, data, size), k - 1, size);
      assert f[..k] == f[..k - 1] + [f[k - 1]];
    }
  }

  lemma FullSendIsFragments(m: Message, size: nat, mask: set<nat>)
    requires Sliceable(m, size) && forall i: nat | i < m.slices :: i in mask
    ensures Emittable(m, size)
    ensures Emitted(m, size, mask) == Fragments(m, size)
  {
    SliceableEmittable(m, size);
    var f := Fragments(m, size);
    if m.slices == 1 {
      assert f[0] == SliceOf(m, 0, size);
      SliceExists(m, 0, size);
      assert Piece(m.data, 0, size) == m.data;
    } else {
      SelectedAll(m, size, mask, m.slices);
      assert f[..m.slices] == f;
    }
  }

  /** The fragmenters agree: caching a payload and sending all of it puts the same
      slices on the wire as sending it directly, exactly when its slices can be
      counted in the one-byte header field. */
  lemma FragmentersAgreeIff(seqNo: u32, typ: u16, time: i64, data: seq<byte>, size: nat, mask: set<nat>)
    requires size > 0 && forall i: nat | i < 256 :: i in mask
    ensures Emittable(Packaged(seqNo, typ, time, data, size), size)
    ensures Emitted(Packaged(seqNo, typ, time, data, size), size, mask) == AllCuts(seqNo, typ, time, data, size)
            <==> |data| <= 255 * size
  {
    var m := Packaged(seqNo, typ, time, data, size);
    PackagedEmittable(seqNo, typ, time, data, size);
    PackagedSliceable(seqNo, typ, time, data, size);
    if |data| <= 255 * size {
      var n := SliceCount(|data|, size);
      CutsAreFragments(seqNo, typ, time, data, size, n);
      FullSendIsFragments(m, size, mask);
      assert Fragments(m, size)[..n] == Fragments(m, size);
    } else {
      SliceCountIsCeiling(|data|, size);
      SelectedCount(m, size, mask, m.slices);
    }
  }

  lemma {:induction false} SelectedCount(m: Message, size: nat, mask: set<nat>, n: nat)
    requires n > 0 ==> HasSlice(m, n - 1, size)
    ensures |Selected(m, size, mask, n)| <= n
  {
    if n > 1 {
      EarlierSlice(m, n - 2, n - 1, size);
      SelectedCount(m, size, mask, n - 1);
    }
  }

  // ---- More slices than the header can count ----

  lemma {:induction false} SelectedFull(m: Message, size: nat, mask: set<nat>, n: nat)
    requires n > 0 ==> HasSlice(m, n - 1, size)
    requires forall i: nat | i < n :: i in mask
    ensures |Selected(m, size, mask, n)| == n
    ensures forall i | 0 <= i < n :: HasSlice(m, i, size) && Selected(m, size, mask, n)[i] == SliceOf(m, i, size)
  {
    if n > 1 {
      EarlierSlice(m, n - 2, n - 1, size);
      SelectedFull(m, size, mask, n - 1);
    }
  }

  /** What a full send of a cached message puts on the wire, for payloads of any length: n
      slices are counted modulo 256; a count of 0 or 1 sends the whole payload as one
      packet, any other count that many slices from the front. */
  lemma CountedSend(seqNo: u32, typ: u16, time: i64, data: seq<byte>, size: nat, mask: set<nat>)
    requires size > 0 && forall i: nat | i < 256 :: i in mask
    ensures Emittable(Packaged(seqNo, typ, time, data, size), size)
    ensures var n, f := SliceCount(|data|, size) % 256, Emitted(Packaged(seqNo, typ, time, data, size), size, mask);
            if n <= 1 then f == [Slice(seqNo, typ, n, 0, time, data)]
            else
              && |f| == n
              && forall i | 0 <= i < n ::
                   i * size <= |data| && f[i] == Slice(seqNo, typ, n, i, time, Piece(data, i, size))
  {
    hide Selected, Piece, SliceCount;
    var m := Packaged(seqNo, typ, time, data, size);
    PackagedEmittable(seqNo, typ, time, data, size);
    if m.slices > 1 {
      SelectedFull(m, size, mask, m.slices);
      forall i: nat | i < m.slices
        ensures i * size <= |data|
      {
        InsidePayload(m, i, size);
      }
    }
  }

  lemma InsidePayload(m: Message, i: nat, size: nat)
    requires HasSlice(m, i, size)
    ensures i * size <= |m.data|
  {
  }

  lemma {:induction false} CutsAt(seqNo: u32, typ: u16, time: i64, data: seq<byte>, size: nat, k: nat, i: nat)
    requires size > 0 && i < k <= SliceCount(|data|, size)
    ensures i * size <= |data|
    ensures Cuts(seqNo, typ, time, data, size, k)[i]
         == Slice(seqNo, typ, SliceCount(|data|, size) % 256, i % 256, time, Piece(data, i, size))
  {
    hide Piece, SliceCount;
    CutExists(|data|, size, i);
    if i < k - 1 {
      CutExists(|data|, size, k - 1);
      CutsAt(seqNo, typ, time, data, size, k - 1, i);
    }
  }

  lemma {:induction false} CutsPrefix(seqNo: u32, typ: u16, time: i64, data: seq<byte>, size: nat, k: nat)
    requires size > 0 && k <= SliceCount(|data|, size)
    ensures Payloads(Cuts(seqNo, typ, time, data, size, k)) == data[..Min(k * size, |data|)]
  {
    hide Piece, SliceCount;
    if k == 0 {
      NoPayload(data, size);
    } else {
      CutExists(|data|, size, k - 1);
      CutsPrefix(seqNo, typ, time, data, size, k - 1);
      assert Cuts(seqNo, typ, time, data, size, k)[..k - 1] == Cuts(seqNo, typ, time, data, size, k - 1);
      PieceExtends(data, k - 1, size);
    }
  }

  lemma NoPayload(data: seq<byte>, size: nat)
    ensures 0 * size == 0 && data[..Min(0, |data|)] == []
  {
  }

  /** A direct send partitions a payload of any length; only the two one-byte header fields wrap. */
  lemma DirectSendPartitions(seqNo: u32, typ: u16, time: i64, data: seq<byte>, size: nat)
    requires size > 0
    ensures var f, n := AllCuts(seqNo, typ, time, data, size), SliceCount(|data|, size);
            && |f| == n && Payloads(f) == data
            && forall i | 0 <= i < n ::
                 i * size <= |data| && f[i] == Slice(seqNo, typ, n % 256, i % 256, time, Piece(data, i, size))
  {
    hide Cuts, Piece, SliceCount, Payloads;
    SliceCountIsCeiling(|data|, size);
    var n := SliceCount(|data|, size);
    CutsPrefix(seqNo, typ, time, data, size, n);
    forall i | 0 <= i < n
      ensures i * size <= |data|
      ensures AllCuts(seqNo, typ, time, data, size)[i] == Slice(seqNo, typ, n % 256, i % 256, time, Piece(data, i, size))
    {
      CutsAt(seqNo, typ, time, data, size, n, i);
    }
  }
}
