/** CombinePackage as a value: what InitPackage and PutPackage compute
    (socket/CombinePackage.cpp:49-112), and why the arrival order, repetitions
    and losses of slices do not matter. */
module Reassembly {
  import opened Types
  import opened Packet

  /** The state of one CombinePackage. data is the whole area behind the
      header in mAllBuffers, written or not; got is mSlicesMask as a set. */
  datatype Pack = Pack(seqNo: u32, typ: u16, slices: byte, time: i64, dataSize: nat,
                       one: nat, recv: nat, got: set<nat>, data: seq<byte>)

  const TERMINATOR: seq<byte> := [0, 0, 0, 0]

  predicate IsDone(p: Pack) {
    p.recv >= p.slices
  }

  /** memcpy(d + off, x, |x|) */
  function Overwrite(d: seq<byte>, off: nat, x: seq<byte>): (r: seq<byte>)
    requires off + |x| <= |d|
    ensures |r| == |d|
    ensures forall k | 0 <= k < |d| :: r[k] == if off <= k < off + |x| then x[k - off] else d[k]
  {
    d[..off] + x + d[off + |x|..]
  }

  predicate SamePackage(p: Pack, s: Slice) {
    p.seqNo == s.seqNo && p.slices == s.slices
  }

  /** The writes of PutPackage stay inside the buffer. */
  predicate PutFits(p: Pack, s: Slice) {
    SamePackage(p, s) ==>
      && s.cur * p.one + |s.data| <= |p.data|
      && (s.cur !in p.got && p.recv + 1 >= p.slices ==> p.dataSize + |s.data| + |TERMINATOR| <= |p.data|)
  }

  function Put(p: Pack, s: Slice): (q: Pack)
    requires PutFits(p, s)
    ensures |q.data| == |p.data|
  {
    if !SamePackage(p, s) then p
    else
      var written := p.(data := Overwrite(p.data, s.cur * p.one, s.data));
      if s.cur in p.got then written
      else
        var q := written.(recv := p.recv + 1, got := p.got + {s.cur as nat}, dataSize := p.dataSize + |s.data|);
        if IsDone(q) then q.(data := Overwrite(q.data, q.dataSize, TERMINATOR)) else q
  }

  /** PutPackage apart from the bytes it copies. */
  lemma PutFields(p: Pack, s: Slice)
    requires PutFits(p, s) && SamePackage(p, s)
    ensures var q, isNew := Put(p, s), s.cur !in p.got;
            && q.seqNo == p.seqNo && q.typ == p.typ && q.slices == p.slices && q.time == p.time && q.one == p.one
            && q.got == p.got + {s.cur as nat} && |q.data| == |p.data|
            && (!isNew ==> q.got == p.got)
            && q.recv == p.recv + (if isNew then 1 else 0)
            && q.dataSize == p.dataSize + (if isNew then |s.data| else 0)
  {
    hide Overwrite;
    if s.cur in p.got {
      assert p.got + {s.cur as nat} == p.got;
    }
  }

  lemma PutOther(p: Pack, s: Slice)
    requires PutFits(p, s) && !SamePackage(p, s)
    ensures Put(p, s) == p
  {
  }

  /** A slice goes in exactly when number and slice count are those of the package; any
      other slice changes nothing. */
  lemma PutTakesIff(p: Pack, s: Slice)
    requires PutFits(p, s)
    ensures s.cur !in p.got ==> (Put(p, s) != p <==> p.seqNo == s.seqNo && p.slices == s.slices)
    ensures p.seqNo == s.seqNo && p.slices == s.slices ==> Put(p, s).got == p.got + {s.cur as nat}
    ensures p.seqNo != s.seqNo || p.slices != s.slices ==> Put(p, s) == p
  {
    if SamePackage(p, s) {
      PutFields(p, s);
    }
  }

  /** The fields InitPackage sets before it puts its first slice, over a buffer holding area. */
  function Blank(s: Slice, one: nat, area: seq<byte>): Pack {
    Pack(s.seqNo, s.typ, s.slices, s.time, 0, one, 0, {}, area)
  }

  /** PutFits for a first slice: only the room behind the header matters. */
  predicate StartFits(s: Slice, one: nat, room: int) {
    && s.cur * one + |s.data| <= room
    && (s.slices <= 1 ==> |s.data| + |TERMINATOR| <= room)
  }

  function Start(s: Slice, one: nat, area: seq<byte>): (p: Pack)
    requires StartFits(s, one, |area|)
    ensures |p.data| == |area|
  {
    Put(Blank(s, one, area), s)
  }

  // ---- What a package holds once a given set of slices has arrived ----

  predicate Covered(m: Message, size: nat, got: set<nat>, k: nat)
    requires size > 0
  {
    k < |m.data| && k / size in got
  }

  predicate Complete(m: Message, got: set<nat>) {
    |got| >= m.slices
  }

  /** Sum of the payload lengths of the slices below n that are in got. */
  function Volume(m: Message, size: nat, got: set<nat>, n: nat): nat
    requires Sliceable(m, size) && n <= m.slices
  {
    if n == 0 then 0
    else
      SliceExists(m, n - 1, size);
      Volume(m, size, got, n - 1) + (if n - 1 in got then |Piece(m.data, n - 1, size)| else 0)
  }

  function Contents(m: Message, size: nat, got: set<nat>, area: seq<byte>): (d: seq<byte>)
    requires size > 0
    ensures |d| == |area|
  {
    seq(|area|, k requires 0 <= k < |area| =>
      if Covered(m, size, got, k) then m.data[k]
      else if Complete(m, got) && |m.data| <= k < |m.data| + |TERMINATOR| then 0
      else area[k])
  }

  /** The package after exactly the slices got of m have arrived, in a buffer
      that held area: nothing here depends on order or repetition. */
  function Assembled(m: Message, size: nat, one: nat, got: set<nat>, area: seq<byte>): Pack
    requires Sliceable(m, size)
  {
    Pack(m.seqNo, m.typ, m.slices, m.time, Volume(m, size, got, m.slices), one, |got|, got,
         Contents(m, size, got, area))
  }

  predicate Indices(m: Message, got: set<nat>) {
    forall i <- got :: i < m.slices
  }

  predicate NoneMissing(m: Message, got: set<nat>) {
    forall i: nat | i < m.slices :: i in got
  }

  /** What the buffer must offer for message m: room for it and its terminator. */
  predicate Roomy(m: Message, size: nat, one: nat, area: seq<byte>) {
    && (one == size || m.slices == 1)
    && |m.data| + |TERMINATOR| <= |area|
  }

  lemma QuotientUnique(k: nat, i: nat, q: nat, size: nat)
    requires size > 0
    requires i * size <= k < i * size + size && q * size <= k < q * size + size
    ensures i == q
  {
    if q < i {
      MulMono(q + 1, i, size);
    }
    if i < q {
      MulMono(i + 1, q, size);
    }
    assert (q + 1) * size == q * size + size && (i + 1) * size == i * size + size;
  }

  lemma DivisionOfPiece(k: nat, i: nat, size: nat)
    requires size > 0
    ensures i * size <= k < i * size + size <==> k / size == i
  {
    var q := k / size;
    assert q * size <= k < q * size + size;
    if i * size <= k < i * size + size {
      QuotientUnique(k, i, q, size);
    }
  }

  lemma {:induction false} VolumeAdds(m: Message, size: nat, got: set<nat>, i: nat, n: nat)
    requires Sliceable(m, size) && n <= m.slices && i < m.slices && i !in got
    ensures HasSlice(m, i, size)
    ensures Volume(m, size, got + {i}, n)
         == Volume(m, size, got, n) + (if i < n then |Piece(m.data, i, size)| else 0)
  {
    SliceExists(m, i, size);
    if n > 0 {
      VolumeAdds(m, size, got, i, n - 1);
    }
  }

  lemma SliceStart(m: Message, i: nat, size: nat)
    requires HasSlice(m, i, size)
    ensures i * size <= |m.data|
  {
  }

  lemma {:induction false} VolumeOfPrefix(m: Message, size: nat, got: set<nat>, n: nat)
    requires Sliceable(m, size) && n <= m.slices
    requires forall i: nat | i < n :: i in got
    ensures Volume(m, size, got, n) == Min(n * size, |m.data|)
  {
    hide Piece, Sliceable, HasSlice;
    if n > 0 {
      VolumeOfPrefix(m, size, got, n - 1);
      SliceExists(m, n - 1, size);
      SliceStart(m, n - 1, size);
      PieceLength(m.data, n - 1, size);
    }
  }

  lemma {:induction false} VolumeBound(m: Message, size: nat, got: set<nat>, n: nat)
    requires Sliceable(m, size) && n <= m.slices
    ensures Volume(m, size, got, n) <= Min(n * size, |m.data|)
  {
    if n > 0 {
      VolumeBound(m, size, got, n - 1);
      SliceExists(m, n - 1, size);
      PieceLength(m.data, n - 1, size);
    }
  }

  function Range(n: nat): (r: set<nat>)
    ensures |r| == n
    ensures forall i: nat :: i in r <==> i < n
  {
    if n == 0 then {} else Range(n - 1) + {n - 1}
  }

  lemma SubsetSize(a: set<nat>, b: set<nat>)
    requires a <= b
    ensures |a| <= |b|
    ensures |a| == |b| ==> a == b
  {
    assert b == a + (b - a);
  }

  /** A set of slice numbers is complete exactly when no slice is missing. */
  lemma CompleteMeansAll(m: Message, got: set<nat>)
    requires Indices(m, got)
    ensures |got| <= m.slices
    ensures Complete(m, got) <==> NoneMissing(m, got)
  {
    SubsetSize(got, Range(m.slices));
    if NoneMissing(m, got) {
      SubsetSize(Range(m.slices), got);
    }
  }

  lemma CompleteVolume(m: Message, size: nat, got: set<nat>)
    requires Sliceable(m, size) && Indices(m, got) && Complete(m, got)
    ensures Volume(m, size, got, m.slices) == |m.data|
  {
    CompleteMeansAll(m, got);
    VolumeOfPrefix(m, size, got, m.slices);
    SliceCountIsCeiling(|m.data|, size);
  }

  // ---- One arrival ----

  lemma WholeVolumeMeansRoom(m: Message, size: nat, one: nat, got: set<nat>, i: nat, area: seq<byte>)
    requires Sliceable(m, size) && Indices(m, got) && i < m.slices && Roomy(m, size, one, area)
    ensures HasSlice(m, i, size)
    ensures PutFits(Assembled(m, size, one, got, area), SliceOf(m, i, size))
    ensures i * one == i * size
  {
    SliceExists(m, i, size);
    if i !in got {
      VolumeAdds(m, size, got, i, m.slices);
      VolumeBound(m, size, got + {i}, m.slices);
    }
  }

  /** One byte of the buffer after one more slice has been copied in, before
      the terminator is written. */
  lemma CopiedByte(m: Message, size: nat, got: set<nat>, i: nat, area: seq<byte>, k: nat)
    requires Sliceable(m, size) && HasSlice(m, i, size)
    requires |m.data| + |TERMINATOR| <= |area| && k < |area|
    ensures Overwrite(Contents(m, size, got, area), i * size, Piece(m.data, i, size))[k]
         == if Covered(m, size, got + {i}, k) then m.data[k] else Contents(m, size, got, area)[k]
  {
    DivisionOfPiece(k, i, size);
  }

  lemma CopyCovers(m: Message, size: nat, got: set<nat>, i: nat, area: seq<byte>)
    requires Sliceable(m, size) && HasSlice(m, i, size) && |m.data| + |TERMINATOR| <= |area|
    requires Complete(m, got + {i}) <==> Complete(m, got)
    ensures Overwrite(Contents(m, size, got, area), i * size, Piece(m.data, i, size))
         == Contents(m, size, got + {i}, area)
  {
    var copied := Overwrite(Contents(m, size, got, area), i * size, Piece(m.data, i, size));
    forall k | 0 <= k < |area|
      ensures copied[k] == Contents(m, size, got + {i}, area)[k]
    {
      CopiedByte(m, size, got, i, area, k);
    }
  }

  /** The same byte after the terminator behind a message that has just become complete. */
  lemma TerminatedByte(m: Message, size: nat, got: set<nat>, i: nat, area: seq<byte>, copied: seq<byte>, k: nat)
    requires Sliceable(m, size) && |m.data| + |TERMINATOR| <= |area| == |copied| && k < |area|
    requires Complete(m, got + {i}) && !Complete(m, got)
    requires copied[k] == if Covered(m, size, got + {i}, k) then m.data[k] else Contents(m, size, got, area)[k]
    requires Covered(m, size, got, k) ==> Covered(m, size, got + {i}, k)
    ensures Overwrite(copied, |m.data|, TERMINATOR)[k] == Contents(m, size, got + {i}, area)[k]
  {
  }

  lemma CopyCompletes(m: Message, size: nat, got: set<nat>, i: nat, area: seq<byte>)
    requires Sliceable(m, size) && HasSlice(m, i, size) && |m.data| + |TERMINATOR| <= |area|
    requires Complete(m, got + {i}) && !Complete(m, got)
    ensures Overwrite(Overwrite(Contents(m, size, got, area), i * size, Piece(m.data, i, size)), |m.data|, TERMINATOR)
         == Contents(m, size, got + {i}, area)
  {
    hide Contents, Complete;
    var copied := Overwrite(Contents(m, size, got, area), i * size, Piece(m.data, i, size));
    var after := Overwrite(copied, |m.data|, TERMINATOR);
    forall k | 0 <= k < |area|
      ensures after[k] == Contents(m, size, got + {i}, area)[k]
    {
      CopiedByte(m, size, got, i, area, k);
      TerminatedByte(m, size, got, i, area, copied, k);
    }
  }

  /** The arrival of slice i of m, whatever has arrived before: the set grows by
      i, and nothing changes at all when i had already arrived. */
  lemma PutAssembled(m: Message, size: nat, one: nat, got: set<nat>, i: nat, area: seq<byte>)
    requires Sliceable(m, size) && Indices(m, got) && i < m.slices && Roomy(m, size, one, area)
    ensures HasSlice(m, i, size)
    ensures PutFits(Assembled(m, size, one, got, area), SliceOf(m, i, size))
    ensures Put(Assembled(m, size, one, got, area), SliceOf(m, i, size))
         == Assembled(m, size, one, got + {i}, area)
  {
    WholeVolumeMeansRoom(m, size, one, got, i, area);
    var p := Assembled(m, size, one, got, area);
    if i in got {
      assert got + {i} == got;
      CopyCovers(m, size, got, i, area);
    } else {
      VolumeAdds(m, size, got, i, m.slices);
      assert |got + {i}| == |got| + 1;
      CompleteMeansAll(m, got);
      CompleteMeansAll(m, got + {i});
      if Complete(m, got + {i}) {
        CompleteVolume(m, size, got + {i});
        CopyCompletes(m, size, got, i, area);
      } else {
        CopyCovers(m, size, got, i, area);
      }
    }
  }

  // ---- Arbitrary arrivals ----

  /** s is one of the slices a sender makes of m. */
  predicate IsSliceOf(m: Message, size: nat, s: Slice) {
    Sliceable(m, size) && s.cur < m.slices && HasSlice(m, s.cur, size) && s == SliceOf(m, s.cur, size)
  }

  predicate AllSlicesOf(m: Message, size: nat, arrivals: seq<Slice>) {
    forall s <- arrivals :: IsSliceOf(m, size, s)
  }

  function Arrived(arrivals: seq<Slice>): set<nat> {
    set s <- arrivals :: s.cur as nat
  }

  lemma {:induction false} VolumeOfNone(m: Message, size: nat, n: nat)
    requires Sliceable(m, size) && n <= m.slices
    ensures Volume(m, size, {}, n) == 0
  {
    if n > 0 {
      VolumeOfNone(m, size, n - 1);
    }
  }

  /** InitPackage on whichever slice of m comes first. */
  lemma StartAssembled(m: Message, size: nat, one: nat, s: Slice, area: seq<byte>)
    requires IsSliceOf(m, size, s) && Roomy(m, size, one, area)
    ensures StartFits(s, one, |area|)
    ensures Start(s, one, area) == Assembled(m, size, one, {s.cur as nat}, area)
  {
    VolumeOfNone(m, size, m.slices);
    SliceCountIsCeiling(|m.data|, size);
    assert Contents(m, size, {}, area) == area;
    assert Blank(s, one, area) == Assembled(m, size, one, {}, area);
    PutAssembled(m, size, one, {}, s.cur, area);
    assert {} + {s.cur as nat} == {s.cur as nat};
  }

  /** A buffer already assembled from got, taken as the starting content. */
  lemma AssembledAgain(m: Message, size: nat, one: nat, got: set<nat>, area: seq<byte>)
    requires Sliceable(m, size)
    ensures Assembled(m, size, one, got, Contents(m, size, got, area)) == Assembled(m, size, one, got, area)
  {
    var once := Contents(m, size, got, area);
    assert Contents(m, size, got, once) == once;
  }

  /** PutPackage on a package that is being assembled from m: the invariant of
      every package a receiver holds, stated without naming its history. */
  predicate Holds(p: Pack, m: Message, size: nat) {
    && Sliceable(m, size)
    && Indices(m, p.got)
    && Roomy(m, size, p.one, p.data)
    && p == Assembled(m, size, p.one, p.got, p.data)
  }

  lemma HoldsNumber(p: Pack, m: Message, size: nat)
    requires Holds(p, m, size)
    ensures p.seqNo == m.seqNo
  {
  }

  lemma HoldsAssembled(m: Message, size: nat, one: nat, got: set<nat>, area: seq<byte>)
    requires Sliceable(m, size) && Indices(m, got) && Roomy(m, size, one, area)
    ensures Holds(Assembled(m, size, one, got, area), m, size)
  {
    AssembledAgain(m, size, one, got, area);
  }

  /** One arrival at a package that holds part of m. A repeated slice leaves
      the package unchanged in every byte. */
  lemma PutHolds(p: Pack, m: Message, size: nat, s: Slice)
    requires Holds(p, m, size) && IsSliceOf(m, size, s)
    ensures PutFits(p, s)
    ensures Holds(Put(p, s), m, size)
    ensures Put(p, s).got == p.got + {s.cur as nat}
    ensures s.cur in p.got ==> Put(p, s) == p
  {
    PutAssembled(m, size, p.one, p.got, s.cur, p.data);
    HoldsAssembled(m, size, p.one, p.got + {s.cur as nat}, p.data);
    if s.cur in p.got {
      assert p.got + {s.cur as nat} == p.got;
    }
  }

  /** What DoRecvMessage is handed: the header fields and data[..dataSize],
      followed by four zero bytes. */
  predicate Delivers(p: Pack, m: Message) {
    && p.seqNo == m.seqNo && p.typ == m.typ && p.slices == m.slices && p.time == m.time
    && p.dataSize == |m.data|
    && |m.data| + |TERMINATOR| <= |p.data|
    && p.data[..|m.data| + |TERMINATOR|] == m.data + TERMINATOR
  }

  lemma WholeContents(m: Message, size: nat, got: set<nat>, area: seq<byte>)
    requires Sliceable(m, size) && Complete(m, got) && NoneMissing(m, got)
    requires |m.data| + |TERMINATOR| <= |area|
    ensures Contents(m, size, got, area)[..|m.data| + |TERMINATOR|] == m.data + TERMINATOR
  {
    var d := Contents(m, size, got, area);
    forall k | 0 <= k < |m.data| + |TERMINATOR|
      ensures d[k] == (m.data + TERMINATOR)[k]
    {
      if k < |m.data| {
        LastPiece(m, size, k);
      }
    }
  }

  /** IsDone holds exactly when every slice has arrived, and a done package is
      the message, byte for byte. */
  lemma DoneDelivers(p: Pack, m: Message, size: nat)
    requires Holds(p, m, size)
    ensures IsDone(p) <==> NoneMissing(m, p.got)
    ensures IsDone(p) ==> Delivers(p, m)
  {
    CompleteMeansAll(m, p.got);
    if IsDone(p) {
      hide Contents, Volume;
      CompleteVolume(m, size, p.got);
      WholeContents(m, size, p.got, p.data);
    }
  }

  lemma LastPiece(m: Message, size: nat, k: nat)
    requires Sliceable(m, size) && k < |m.data|
    ensures k / size < m.slices
  {
    SliceCountIsCeiling(|m.data|, size);
    var q := k / size;
    assert q * size <= k;
    if m.slices <= q {
      MulMono(m.slices, q, size);
    }
  }

  /** PutPackage on each arrival in turn. */
  function PutAll(p: Pack, arrivals: seq<Slice>, m: Message, size: nat): (q: Pack)
    requires Holds(p, m, size) && AllSlicesOf(m, size, arrivals)
    ensures Holds(q, m, size)
  {
    if arrivals == [] then p
    else
      var before := PutAll(p, arrivals[..|arrivals| - 1], m, size);
      PutHolds(before, m, size, arrivals[|arrivals| - 1]);
      Put(before, arrivals[|arrivals| - 1])
  }

  lemma ArrivedLast(arrivals: seq<Slice>)
    requires arrivals != []
    ensures Arrived(arrivals) == Arrived(arrivals[..|arrivals| - 1]) + {arrivals[|arrivals| - 1].cur as nat}
  {
    var n := |arrivals| - 1;
    assert arrivals == arrivals[..n] + [arrivals[n]];
  }

  lemma ArrivedIndices(p: Pack, m: Message, size: nat, arrivals: seq<Slice>)
    requires Holds(p, m, size) && AllSlicesOf(m, size, arrivals)
    ensures Indices(m, p.got + Arrived(arrivals))
  {
  }

  /** After any arrivals, in any order and with any repetitions, the package is
      the closed form of the set of slices that arrived. */
  lemma {:induction false} PutAllAssembles(p: Pack, arrivals: seq<Slice>, m: Message, size: nat)
    requires Holds(p, m, size) && AllSlicesOf(m, size, arrivals)
    ensures PutAll(p, arrivals, m, size) == Assembled(m, size, p.one, p.got + Arrived(arrivals), p.data)
  {
    hide Contents, Volume, Holds, IsSliceOf, Indices, Put;
    if arrivals == [] {
      NothingArrived(p, m, size);
    } else {
      var n := |arrivals| - 1;
      var got := p.got + Arrived(arrivals[..n]);
      PutAllAssembles(p, arrivals[..n], m, size);
      ArrivedIndices(p, m, size, arrivals[..n]);
      ArrivedLast(arrivals);
      assert got + {arrivals[n].cur as nat} == p.got + Arrived(arrivals);
      LastPut(p, arrivals, got, m, size);
    }
  }

  lemma NothingArrived(p: Pack, m: Message, size: nat)
    requires Holds(p, m, size)
    ensures p == Assembled(m, size, p.one, p.got + Arrived([]), p.data)
  {
    hide Contents, Volume;
    assert p.got + Arrived([]) == p.got;
  }

  lemma LastPut(p: Pack, arrivals: seq<Slice>, got: set<nat>, m: Message, size: nat)
    requires Holds(p, m, size) && AllSlicesOf(m, size, arrivals) && arrivals != [] && Indices(m, got)
    requires PutAll(p, arrivals[..|arrivals| - 1], m, size) == Assembled(m, size, p.one, got, p.data)
    ensures PutAll(p, arrivals, m, size)
         == Assembled(m, size, p.one, got + {arrivals[|arrivals| - 1].cur as nat}, p.data)
  {
    hide Contents, Volume;
    var s := arrivals[|arrivals| - 1];
    assert IsSliceOf(m, size, s);
    PutAssembled(m, size, p.one, got, s.cur, p.data);
  }

  lemma PutAllGot(p: Pack, arrivals: seq<Slice>, m: Message, size: nat)
    requires Holds(p, m, size) && AllSlicesOf(m, size, arrivals)
    ensures PutAll(p, arrivals, m, size).got == p.got + Arrived(arrivals)
  {
    PutAllAssembles(p, arrivals, m, size);
  }

  /** Reassembly is insensitive to order and duplication: two arrival sequences
      over the same slices leave the very same package. */
  lemma OrderAndDuplicatesDoNotMatter(p: Pack, a: seq<Slice>, b: seq<Slice>, m: Message, size: nat)
    requires Holds(p, m, size) && AllSlicesOf(m, size, a) && AllSlicesOf(m, size, b)
    requires Arrived(a) == Arrived(b)
    ensures PutAll(p, a, m, size) == PutAll(p, b, m, size)
  {
    PutAllAssembles(p, a, m, size);
    PutAllAssembles(p, b, m, size);
  }

  /** A message is delivered exactly when its last missing slice arrives. */
  lemma DeliveredWhenAllArrived(p: Pack, arrivals: seq<Slice>, m: Message, size: nat)
    requires Holds(p, m, size) && AllSlicesOf(m, size, arrivals)
    ensures IsDone(PutAll(p, arrivals, m, size)) <==> NoneMissing(m, p.got + Arrived(arrivals))
    ensures IsDone(PutAll(p, arrivals, m, size)) ==> Delivers(PutAll(p, arrivals, m, size), m)
  {
    var q := PutAll(p, arrivals, m, size);
    PutAllGot(p, arrivals, m, size);
    DoneDelivers(q, m, size);
  }
}
