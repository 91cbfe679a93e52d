/** The class UdpCombinePackage::CombineCache over a list of CombinePackage objects
    (socket/UdpCombinePackage.h:22-70, socket/UdpCombinePackage.cpp:63-220). */
module UdpCombine {
  import opened Types
  import opened Serial
  import opened Packet
  import opened SliceMask
  import opened Reassembly
  import opened Reorder
  import opened Combine
  import BufferSize

  ghost predicate Apart(p: CombinePackage, q: CombinePackage)
    reads p, q
  {
    p != q && p.mSlicesMask != q.mSlicesMask && p.mAllBuffers != q.mAllBuffers
  }

  /** The package lives inside repr and is usable. */
  ghost predicate Owned(p: CombinePackage, repr: set<object?>)
    reads repr
  {
    p in repr && p.mSlicesMask in repr && p.mAllBuffers in repr && p.Valid()
  }

  /** The packages live inside repr and share no object, mask or buffer. */
  ghost predicate Separate(packs: seq<CombinePackage>, repr: set<object?>)
    reads repr
  {
    && (forall i | 0 <= i < |packs| :: Owned(packs[i], repr))
    && (forall i, j | 0 <= i < |packs| && 0 <= j < |packs| && i != j :: Apart(packs[i], packs[j]))
  }

  ghost function Views(packs: seq<CombinePackage>): (v: seq<Pack>)
    reads packs
    ensures |v| == |packs|
    ensures forall i | 0 <= i < |packs| :: v[i] == packs[i].Model
  {
    seq(|packs|, i requires 0 <= i < |packs| reads packs => packs[i].Model)
  }

  ghost function Inserted(packs: seq<CombinePackage>, it: nat, p: CombinePackage): seq<CombinePackage>
    requires it <= |packs|
  {
    packs[..it] + [p] + packs[it..]
  }

  lemma TailSeparate(packs: seq<CombinePackage>, n: nat, repr: set<object?>)
    requires Separate(packs, repr) && n <= |packs|
    ensures Separate(packs[n..], repr)
  {
    hide CombinePackage.Valid;
    var t := packs[n..];
    forall i, j | 0 <= i < |t| && 0 <= j < |t| && i != j
      ensures Apart(t[i], t[j])
    {
      assert Apart(packs[n + i], packs[n + j]);
    }
    forall i | 0 <= i < |t|
      ensures Owned(t[i], repr)
    {
      assert Owned(packs[n + i], repr);
    }
  }

  lemma OwnedAt(packs: seq<CombinePackage>, i: nat, repr: set<object?>)
    requires Separate(packs, repr) && i < |packs|
    ensures Owned(packs[i], repr)
    ensures packs[i].seqNo == packs[i].Model.seqNo
    ensures packs[i].Done() <==> IsDone(packs[i].Model)
  {
  }

  lemma TailViews(packs: seq<CombinePackage>, n: nat)
    requires n <= |packs|
    ensures Views(packs[n..]) == Views(packs)[n..]
  {
    hide Views;
  }

  lemma InsertSeparate(packs: seq<CombinePackage>, it: nat, p: CombinePackage, repr: set<object?>)
    requires Separate(packs, repr) && it <= |packs| && p.Valid()
    requires p !in repr && p.mSlicesMask !in repr && p.mAllBuffers !in repr
    ensures Separate(Inserted(packs, it, p), repr + {p, p.mSlicesMask, p.mAllBuffers})
  {
    hide CombinePackage.Valid;
    var after := Inserted(packs, it, p);
    forall i | 0 <= i < |after|
      ensures after[i] == if i < it then packs[i] else if i == it then p else packs[i - 1]
    {
    }
    forall i | 0 <= i < |packs|
      ensures Apart(packs[i], p) && Apart(p, packs[i])
    {
      assert Owned(packs[i], repr);
    }
    forall i, j | 0 <= i < |after| && 0 <= j < |after| && i != j
      ensures Apart(after[i], after[j])
    {
      if i != it && j != it {
        assert Apart(packs[if i < it then i else i - 1], packs[if j < it then j else j - 1]);
      }
    }
    forall i | 0 <= i < |after|
      ensures Owned(after[i], repr + {p, p.mSlicesMask, p.mAllBuffers})
    {
      if i != it {
        assert Owned(packs[if i < it then i else i - 1], repr);
      }
    }
  }

  lemma InsertViews(packs: seq<CombinePackage>, it: nat, p: CombinePackage)
    requires it <= |packs|
    ensures Views(Inserted(packs, it, p)) == Views(packs)[..it] + [p.Model] + Views(packs)[it..]
  {
    hide Views;
    var after := Inserted(packs, it, p);
    forall i | 0 <= i < |after|
      ensures after[i] == if i < it then packs[i] else if i == it then p else packs[i - 1]
    {
    }
  }

  class CombineCache {
    const dataType: u16
    var packList: seq<CombinePackage>
    var seqReport: u32
    var retryCount: nat
    var resendTimestamp: int

    ghost var Repr: set<object?>

    ghost function View(): Cache
      reads this, packList
    {
      Cache(Views(packList), seqReport, retryCount, resendTimestamp)
    }

    /** The objects are in order; the methods below keep this at all times. */
    ghost predicate Sound()
      reads this, Repr
    {
      this in Repr && dataType == TYPE_VIDEO && Separate(packList, Repr - {this})
    }

    ghost predicate Valid()
      reads this, Repr, packList
    {
      Sound() && Reorder.Valid(View())
    }

    constructor ()
      ensures Valid() && fresh(Repr)
      ensures View() == Reorder.EMPTY
    {
      dataType := TYPE_VIDEO;
      packList := [];
      seqReport := 0;
      retryCount := 0;
      resendTimestamp := 0;
      Repr := {this};
    }

    /** The index of the first complete package, -1 if there is none. */
    method FindFullPackage() returns (index: int)
      requires Sound()
      ensures index == if FirstDone(Views(packList)) < |packList| then FirstDone(Views(packList)) else -1
    {
      index := 0;
      while index < |packList|
        invariant 0 <= index <= |packList|
        invariant forall j | 0 <= j < index :: !IsDone(packList[j].Model)
      {
        if packList[index].Done() {
          return;
        }
        index := index + 1;
      }
      index := -1;
    }

    /** The first half of the call: put the slice into its package, or make room,
        filter stale numbers and insert a new package in order. */
    method Absorb(s: Slice) returns (ignored: bool, ghost area: seq<byte>)
      requires Valid() && WellFormed(s)
      modifies Repr
      ensures Sound() && fresh(Repr - old(Repr))
      ensures |area| == AreaSize(s.slices)
      ensures Views(packList) == Reorder.Absorb(old(View()), s, area).packs
      ensures ignored == Reorder.Absorb(old(View()), s, area).ignored
      ensures seqReport == old(seqReport) && retryCount == old(retryCount)
      ensures resendTimestamp == old(resendTimestamp)
    {
      hide Views, Put, Start, PutFits, StartFits, PackOk, Distinct, Chained, Separate, IndexOf, InsertPos, TimeAfter;
      BufferSize.UdpAllocSize(s.slices);
      area := seq(AreaSize(s.slices), _ => 0);
      ghost var before := Views(packList);
      var i := Find(s.seqNo);
      if i < |packList| {
        PutFitsOk(before[i], s);
        PutInto(i, s);
        return false, area;
      }
      MakeRoom();
      if packList != [] && TimeAfter(seqReport, s.seqNo) {
        return true, area;
      }
      area := Insert(s);
      return false, area;
    }

    /** The index of the package with this number, the length if there is none. */
    method Find(seqNo: u32) returns (i: nat)
      requires Sound()
      ensures i == IndexOf(Views(packList), seqNo)
    {
      i := 0;
      while i < |packList|
        invariant 0 <= i <= |packList|
        invariant forall j | 0 <= j < i :: packList[j].seqNo != seqNo
      {
        if packList[i].GetSeq() == seqNo {
          break;
        }
        i := i + 1;
      }
    }

    method PutInto(i: nat, s: Slice)
      requires Sound() && i < |packList| && PutFits(packList[i].Model, s)
      modifies Repr - {this}
      ensures Sound()
      ensures Views(packList) == old(Views(packList))[i := Put(old(Views(packList))[i], s)]
    {
      hide Put, Views;
      var p := packList[i];
      assert Owned(p, Repr - {this});
      var _ := p.PutPackage(s);
      forall j | 0 <= j < |packList| && j != i
        ensures packList[j].Valid() && packList[j].Model == old(packList[j].Model)
      {
        assert Apart(packList[i], packList[j]);
        assert old(Owned(packList[j], Repr - {this}));
      }
    }

    /** Deletes from the front while 15 or more packages are listed. */
    method MakeRoom()
      requires Sound()
      modifies this`packList
      ensures Sound()
      ensures Views(packList) == old(Views(packList))[Dropped(old(Views(packList)))..]
    {
      hide Views, Separate;
      ghost var before := packList;
      while |packList| >= 15
        invariant Separate(before, Repr - {this})
        invariant |packList| <= |before| && packList == before[|before| - |packList|..]
        invariant |packList| == |before| || |packList| >= 14
      {
        packList := packList[1..];
      }
      TailSeparate(before, |before| - |packList|, Repr - {this});
      TailViews(before, |before| - |packList|);
    }

    /** A new package holding just this slice. */
    method NewPackage(s: Slice) returns (p: CombinePackage, ghost area: seq<byte>)
      requires WellFormed(s)
      ensures p.Valid() && fresh(p) && fresh(p.mSlicesMask) && fresh(p.mAllBuffers)
      ensures |area| == AreaSize(s.slices) && StartFits(s, UDP_PACKLENGTH, |area|)
      ensures p.Model == Start(s, UDP_PACKLENGTH, area)
    {
      hide Start;
      BufferSize.UdpAllocSize(s.slices);
      p := new CombinePackage();
      p.AllocBuffer(s.slices * UDP_PACKLENGTH);
      p.InitPackage(s, UDP_PACKLENGTH);
      area :| |area| == AreaSize(s.slices) && p.Model == Start(s, UDP_PACKLENGTH, area);
    }

    /** Where a package of this number belongs: before the first later one. */
    method Place(seqNo: u32) returns (it: nat)
      requires Sound()
      ensures it == InsertPos(Views(packList), seqNo)
    {
      it := 0;
      while it < |packList|
        invariant 0 <= it <= |packList|
        invariant forall j | 0 <= j < it :: !TimeAfter(packList[j].seqNo, seqNo)
      {
        if TimeAfter(packList[it].GetSeq(), seqNo) {
          break;
        }
        it := it + 1;
      }
    }

    /** Creates the package of the slice and inserts it in order. */
    method Insert(s: Slice) returns (ghost area: seq<byte>)
      requires Sound() && WellFormed(s)
      modifies this`packList, this`Repr
      ensures Sound() && fresh(Repr - old(Repr))
      ensures |area| == AreaSize(s.slices) && StartFits(s, UDP_PACKLENGTH, |area|)
      ensures var j := InsertPos(old(Views(packList)), s.seqNo);
              Views(packList) == old(Views(packList))[..j] + [Start(s, UDP_PACKLENGTH, area)] + old(Views(packList))[j..]
    {
      hide Start, Views, Separate, CombinePackage.Valid, InsertPos;
      var it := Place(s.seqNo);
      var p;
      p, area := NewPackage(s);
      InsertSeparate(packList, it, p, Repr - {this});
      InsertViews(packList, it, p);
      packList := packList[..it] + [p] + packList[it..];
      assert Repr + {p, p.mSlicesMask, p.mAllBuffers} - {this}
          == (Repr - {this}) + {p, p.mSlicesMask, p.mAllBuffers};
      Repr := Repr + {p, p.mSlicesMask, p.mAllBuffers};
    }
 
    /** TYPE_UDP_REQUEST: the slices to send again; no mask means all of them. */
    method RequestSend(typ: u16, seqNo: u32, slicesMask: array?<bv32>) returns (request: Request)
      requires slicesMask != null ==> slicesMask.Length == WORDS
      ensures request == AskSlices(typ, seqNo, if slicesMask == null then Everything() else Members(slicesMask[..]))
    {
      var mask := new bv32[WORDS];
      if slicesMask != null {
        forall i | 0 <= i < WORDS {
          mask[i] := slicesMask[i];
        }
        assert mask[..] == slicesMask[..];
      } else {
        forall i | 0 <= i < WORDS {
          mask[i] := 0xffff_ffff;
        }
        OnesAreEverything(mask[..]);
      }
      request := AskSlices(typ, seqNo, Members(mask[..]));
    }

    /** TYPE_UDP_REQUEST for what the front package is missing. */
    method RequestMissing() returns (request: Request)
      requires Sound() && packList != []
      ensures var p := packList[0].Model;
              request == AskSlices(p.typ, p.seqNo, Everything() - p.got)
    {
      var p := packList[0];
      assert Owned(p, Repr - {this});
      var slicesMask := new bv32[WORDS];
      p.GetRequestSliceMask(slicesMask);
      request := RequestSend(p.typ, p.seqNo, slicesMask);
    }

    /** The timeout branch. */
    method DiscardIncomplete()
      requires Sound() && packList != []
      modifies this`packList, this`seqReport, this`retryCount
      ensures Sound() && View() == Expire(old(View()))
    {
      hide Views, Separate, CombinePackage.Valid, CombinePackage.Done, IsDone, Next;
      ghost var before, v, n := packList, Views(packList), 0;
      while packList != []
        invariant Separate(before, Repr - {this}) && Views(before) == v
        invariant n <= |before| && packList == before[n..]
        invariant forall j | 0 <= j < n :: !IsDone(v[j])
        invariant n > 0 ==> seqReport == Next(v[n - 1].seqNo)
        decreases |packList|
      {
        OwnedAt(before, n, Repr - {this});
        seqReport := Next(packList[0].GetSeq());
        if packList[0].Done() {
          break;
        }
        packList := packList[1..];
        n := n + 1;
      }
      retryCount := 0;
      TailSeparate(before, n, Repr - {this});
      TailViews(before, n);
      assert n == FirstDone(v);
    }

    /** The final loop: hands the leading complete packages to DoRecvUdpMessage. */
    method ReportReady() returns (reported: seq<Pack>)
      requires Sound()
      modifies this`packList, this`seqReport, this`retryCount
      ensures Sound() && View() == Report(old(View()))
      ensures reported == old(Views(packList))[..FirstOpen(old(Views(packList)))]
    {
      hide Views, Separate, CombinePackage.Valid, CombinePackage.Done, IsDone, Next;
      ghost var before, v, n := packList, Views(packList), 0;
      reported := [];
      while packList != []
        invariant Separate(before, Repr - {this}) && Views(before) == v
        invariant n <= |before| && packList == before[n..]
        invariant reported == v[..n]
        invariant forall j | 0 <= j < n :: IsDone(v[j])
        invariant if n > 0 then seqReport == Next(v[n - 1].seqNo) && retryCount == 0
                  else seqReport == old(seqReport) && retryCount == old(retryCount)
        decreases |packList|
      {
        OwnedAt(before, n, Repr - {this});
        if !packList[0].Done() {
          break;
        }
        seqReport := Next(packList[0].GetSeq());
        retryCount := 0;
        reported := reported + [packList[0].GetPackageData()];
        packList := packList[1..];
        n := n + 1;
      }
      TailSeparate(before, n, Repr - {this});
      TailViews(before, n);
      assert n == FirstOpen(v);
    }

    /** The second half of the call. */
    method Decide(now: int) returns (request: Option<Request>, reported: seq<Pack>)
      requires Sound() && packList != []
      modifies this`packList, this`seqReport, this`retryCount, this`resendTimestamp
      ensures Sound()
      ensures View() == Reorder.Decide(old(View()), now).cache
      ensures request == Reorder.Decide(old(View()), now).request
      ensures reported == Reorder.Decide(old(View()), now).reported
    {
      hide Views, Separate, Expire, Report, FirstDone, FirstOpen, CombinePackage.Valid;
      OwnedAt(packList, 0, Repr - {this});
      request, reported := None, [];
      if retryCount < COUNT_RETRY {
        if seqReport != packList[0].GetSeq() {
          if now - resendTimestamp >= INTERVAL_RETRY {
            resendTimestamp := now;
            retryCount := retryCount + 1;
            request := Some(AskRange(dataType, seqReport, packList[0].GetSeq(), 0));
          }
          return;
        }
        var full := FindFullPackage();
        if full > 0 {
          if now - resendTimestamp >= INTERVAL_RETRY {
            resendTimestamp := now;
            retryCount := retryCount + 1;
            var r := RequestMissing();
            request := Some(r);
            return;
          }
        }
      } else {
        DiscardIncomplete();
      }
      reported := ReportReady();
    }

    /** A slice has arrived. area is what the memory of a newly created package held. */
    method OnUdpSliceReceived(s: Slice, now: int)
      returns (request: Option<Request>, reported: seq<Pack>, ghost area: seq<byte>)
      requires Valid() && WellFormed(s)
      modifies Repr
      ensures Valid() && fresh(Repr - old(Repr))
      ensures |area| == AreaSize(s.slices)
      ensures View() == Step(old(View()), s, now, area).cache
      ensures request == Step(old(View()), s, now, area).request
      ensures reported == Step(old(View()), s, now, area).reported
    {
      hide Reorder.Absorb, Reorder.Decide, Views, Separate, ListOk;
      ghost var before := View();
      var ignored;
      ignored, area := Absorb(s);
      AbsorbKeepsList(before, s, area);
      StepKeepsValid(before, s, now, area);
      if ignored {
        return None, [], area;
      }
      request, reported := Decide(now);
    }
  }
}
