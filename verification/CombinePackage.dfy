/** The class CombinePackage, updating its buffer and mask in place
    (socket/CombinePackage.cpp, socket/CombinePackage.h). Every method is proved
    to compute what module Reassembly says of its abstract value, the ghost field Model. */
module Combine {
  import opened Types
  import opened Packet
  import opened SliceMask
  import opened Reassembly
  import BufferSize

  lemma BlankFits(s: Slice, one: nat, area: seq<byte>)
    requires StartFits(s, one, |area|)
    ensures PutFits(Blank(s, one, area), s)
  {
  }

  class CombinePackage {
    var mAllBuffers: array?<byte>
    var mAllBufSize: nat
    // the header fields at *mAllPackData, which is the start of mAllBuffers
    var seqNo: u32
    var typ: u16
    var slices: byte
    var time: i64
    var dataSize: nat

    var mOnePackSize: nat
    var mRecvPackages: nat
    const mSlicesMask: array<bv32>

    /** The abstract value. */
    ghost var Model: Pack

    /** A buffer has been allocated, and the fields, the mask and the buffer hold Model. */
    ghost predicate Valid()
      reads this, mSlicesMask, mAllBuffers
    {
      && mSlicesMask.Length == WORDS
      && mAllBuffers != null
      && mAllBuffers.Length == mAllBufSize
      && HEAD <= mAllBufSize
      && Model == Pack(seqNo, typ, slices, time, dataSize, mOnePackSize, mRecvPackages,
                       Members(mSlicesMask[..]), mAllBuffers[HEAD..])
    }

    ghost method Sync()
      requires mSlicesMask.Length == WORDS
      requires mAllBuffers != null && mAllBuffers.Length == mAllBufSize && HEAD <= mAllBufSize
      modifies this`Model
      ensures Valid()
      ensures Model == Pack(seqNo, typ, slices, time, dataSize, mOnePackSize, mRecvPackages,
                            Members(mSlicesMask[..]), mAllBuffers[HEAD..])
    {
      Model := Pack(seqNo, typ, slices, time, dataSize, mOnePackSize, mRecvPackages,
                    Members(mSlicesMask[..]), mAllBuffers[HEAD..]);
    }

    constructor ()
      ensures mAllBuffers == null && mAllBufSize == 0
      ensures fresh(mSlicesMask) && mSlicesMask.Length == WORDS
    {
      mAllBuffers := null;
      mAllBufSize := 0;
      mOnePackSize := 0;
      mRecvPackages := 0;
      mSlicesMask := new bv32[WORDS];
    }

    /** A fresh buffer for size bytes behind the header. Its contents, and the
        other header fields, are whatever the memory held. */
    method AllocBuffer(size: nat)
      requires mSlicesMask.Length == WORDS
      modifies this
      ensures Valid() && fresh(mAllBuffers)
      ensures mAllBufSize == BufferSize.AllocSize(size)
      ensures seqNo == 0xffff_ffff
      ensures mRecvPackages == old(mRecvPackages) && mOnePackSize == old(mOnePackSize)
    {
      mAllBufSize := (size + HEAD + 4096 - 1) / 4096 * 4096;
      mAllBuffers := new byte[mAllBufSize];
      seqNo := 0xffff_ffff;
      Sync();
    }

    function GetSeq(): u32
      reads this
    {
      seqNo
    }

    predicate Done()
      reads this
    {
      mRecvPackages >= slices
    }

    method InitPackage(s: Slice, onePackSize: nat)
      requires Valid()
      requires StartFits(s, onePackSize, BufferSize.AfterInit(mAllBufSize, s.slices * onePackSize) - HEAD)
      modifies this, mSlicesMask, mAllBuffers
      ensures Valid()
      ensures mAllBufSize == BufferSize.AfterInit(old(mAllBufSize), s.slices * onePackSize)
      ensures mAllBuffers == old(mAllBuffers) || fresh(mAllBuffers)
      ensures exists area: seq<byte> ::
                && |area| + HEAD == mAllBufSize
                && (old(mAllBufSize) >= s.slices * onePackSize ==> area == old(Model).data)
                && StartFits(s, onePackSize, |area|)
                && Model == Start(s, onePackSize, area)
    {
      hide Put, PutFits, StartFits, Blank;
      var SIZE := s.slices * onePackSize;
      if mAllBufSize < SIZE {
        AllocBuffer(SIZE);
      }
      ghost var area := Model.data;
      BlankFits(s, onePackSize, area);
      SetFields(s, onePackSize);
      var _ := PutPackage(s);
    }

    /** The assignments of InitPackage. */
    method SetFields(s: Slice, onePackSize: nat)
      requires Valid()
      modifies this, mSlicesMask
      ensures Valid() && mAllBuffers == old(mAllBuffers) && mAllBufSize == old(mAllBufSize)
      ensures Model == Blank(s, onePackSize, old(Model).data)
    {
      mOnePackSize := onePackSize;
      seqNo := s.seqNo;
      typ := s.typ;
      slices := s.slices;
      time := s.time;
      mRecvPackages := 0;
      forall i | 0 <= i < WORDS {
        mSlicesMask[i] := 0;
      }
      dataSize := 0;
      ZeroIsEmpty(mSlicesMask[..]);
      Sync();
    }

    method PutPackage(s: Slice) returns (ok: bool)
      requires Valid() && PutFits(Model, s)
      modifies this, mSlicesMask, mAllBuffers
      ensures Valid() && mAllBuffers == old(mAllBuffers)
      ensures Model == Put(old(Model), s)
      ensures ok <==> old(seqNo) == s.seqNo && old(slices) == s.slices
      ensures !ok ==> Model == old(Model)
    {
      if seqNo != s.seqNo || slices != s.slices {
        return false;
      }
      var offset := s.cur * mOnePackSize;
      CopyIn(offset, s.data);
      var seen := IsSliceMask(s.cur, mSlicesMask);
      if !seen {
        mRecvPackages := mRecvPackages + 1;
        AddSliceMask(s.cur, mSlicesMask);
        dataSize := dataSize + |s.data|;
        if Done() {
          CopyIn(dataSize, [0, 0, 0, 0]);
        }
      }
      Sync();
      return true;
    }

    /** memcpy(mAllPackData->data + offset, x, |x|) */
    method CopyIn(offset: nat, x: seq<byte>)
      requires mAllBuffers != null && HEAD + offset + |x| <= mAllBuffers.Length
      modifies mAllBuffers
      ensures mAllBuffers[HEAD..] == Overwrite(old(mAllBuffers[HEAD..]), offset, x)
    {
      ghost var before := mAllBuffers[HEAD..];
      forall i | 0 <= i < |x| {
        mAllBuffers[HEAD + offset + i] := x[i];
      }
      assert mAllBuffers[HEAD..] == Overwrite(before, offset, x);
    }

    /** What a reader of the returned pointer sees. */
    function GetPackageData(): (p: Pack)
      requires Valid()
      reads this, mSlicesMask, mAllBuffers
      ensures p == Model
    {
      Pack(seqNo, typ, slices, time, dataSize, mOnePackSize, mRecvPackages,
           Members(mSlicesMask[..]), mAllBuffers[HEAD..])
    }

    /** The slices still missing, as the mask sent in a TYPE_UDP_REQUEST. */
    method GetRequestSliceMask(masks: array<bv32>)
      requires Valid() && masks.Length == WORDS && masks != mSlicesMask
      modifies masks
      ensures Valid() && Model == old(Model)
      ensures Members(masks[..]) == Everything() - Model.got
    {
      var i := 0;
      while i < WORDS
        invariant 0 <= i <= WORDS
        invariant forall j | 0 <= j < i :: masks[j] == !mSlicesMask[j]
        invariant Valid() && Model == old(Model)
      {
        masks[i] := !mSlicesMask[i];
        i := i + 1;
      }
      ComplementFlips(mSlicesMask[..], masks[..]);
    }

    /** Forgets which slices arrived; the header, dataSize included, and the bytes stay. */
    method ResetData()
      requires Valid()
      modifies this`mRecvPackages, this`Model, mSlicesMask
      ensures Valid()
      ensures Model == old(Model).(recv := 0, got := {})
    {
      mRecvPackages := 0;
      forall i | 0 <= i < WORDS {
        mSlicesMask[i] := 0;
      }
      ZeroIsEmpty(mSlicesMask[..]);
      Sync();
    }
  }
}
