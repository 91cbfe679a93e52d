/** The class SendPackageCache: numbering, caching, queueing and cutting messages
    (socket/SendPackageCache.cpp). Each datagram handed to sendto is returned as a
    Slice, copied out of the send buffer at that moment. */
module SendCache {
  import opened Types
  import opened Serial
  import opened Packet
  import opened SliceMask
  import opened SenderWindow

  /** One entry of sendList, the mask as its eight words. */
  datatype SendData = SendData(sliceSize: nat, seqNo: u32, slicesMask: seq<bv32>)

  function JobOf(d: SendData): Job
    requires |d.slicesMask| == WORDS
  {
    Job(d.sliceSize, d.seqNo, Members(d.slicesMask))
  }

  /** Bytes on the wire: SOCKPACKAGE_SIZE summed over the datagrams. */
  function WireSize(sent: seq<Slice>): nat {
    if sent == [] then 0 else WireSize(sent[..|sent| - 1]) + HEAD + |sent[|sent| - 1].data|
  }

  lemma NextOffset(s: nat, size: nat)
    ensures (s + 1) * size == s * size + size
  {
  }

  lemma OffsetInside(m: Message, s: nat, size: nat)
    requires HasSlice(m, s, size)
    ensures s * size <= |m.data|
  {
  }

  lemma NothingSelected(m: Message, size: nat, mask: set<nat>)
    ensures Selected(m, size, mask, 0) == []
  {
  }

  /** The header fields AddPackageData computes. */
  lemma PackagedIs(number: u32, typ: u16, now: i64, data: seq<byte>, size: nat)
    requires size > 0
    ensures var slices := if |data| <= 0 then 1 else (|data| + size - 1) / size;
            Packaged(number, typ, now, data, size) == Message(number, typ, slices % 256, now, data)
    ensures Next(number) == (number + 1) % MODULUS
  {
  }

  lemma NoCuts(number: u32, typ: u16, now: i64, data: seq<byte>, size: nat)
    requires size > 0
    ensures Cuts(number, typ, now, data, size, 0) == []
  {
  }

  lemma OneMoreCut(number: u32, typ: u16, now: i64, data: seq<byte>, size: nat, s: nat)
    requires size > 0 && s < SliceCount(|data|, size)
    ensures s * size <= |data|
    ensures Cuts(number, typ, now, data, size, s + 1)
         == Cuts(number, typ, now, data, size, s) + [CutOf(number, typ, now, data, size, SliceCount(|data|, size), s)]
  {
    CutExists(|data|, size, s);
  }

  lemma WireSizeNone()
    ensures WireSize([]) == 0
  {
  }

  lemma WireSizeAppend(sent: seq<Slice>, s: Slice)
    ensures WireSize(sent + [s]) == WireSize(sent) + HEAD + |s.data|
  {
    assert (sent + [s])[..|sent|] == sent;
  }

  lemma PickedStep(packs: seq<Message>, it: nat, start: u32, end: u32)
    requires it < |packs|
    ensures Picked(packs[..it + 1], start, end)
         == Picked(packs[..it], start, end) + (if start <= packs[it].seqNo < end then [packs[it]] else [])
  {
    assert packs[..it + 1][..it] == packs[..it];
  }

  lemma PickedNone(packs: seq<Message>, start: u32, end: u32)
    ensures Picked(packs[..0], start, end) == []
  {
  }

  class SendPackageCache {
    var seqNo: u32
    var packList: seq<Message>
    var sendList: seq<SendData>
    const sendBuffer: array<byte>

    ghost predicate Valid()
      reads this
    {
      && sendBuffer.Length == MAX_SOCKPACKAGE
      && (forall i | 0 <= i < |sendList| :: |sendList[i].slicesMask| == WORDS)
    }

    ghost function Queue(): (q: seq<Job>)
      requires Valid()
      reads this
      ensures |q| == |sendList|
      ensures forall i | 0 <= i < |q| :: q[i] == JobOf(sendList[i])
    {
      seq(|sendList|, i requires 0 <= i < |sendList| reads this requires Valid() => JobOf(sendList[i]))
    }

    ghost function View(): Sender
      requires Valid()
      reads this
    {
      Sender(seqNo, packList, Queue())
    }

    constructor ()
      ensures Valid() && View() == Sender(0, [], [])
      ensures fresh(sendBuffer)
    {
      seqNo := 0;
      packList := [];
      sendList := [];
      sendBuffer := new byte[MAX_SOCKPACKAGE];
    }

    method AddPackageData(typ: u16, data: seq<byte>, sliceSize: nat, now: i64) returns (pack: Message)
      requires Valid() && sliceSize > 0
      modifies this
      ensures Valid() && View() == Add(old(View()), typ, now, data, sliceSize)
      ensures pack == Packaged(old(seqNo), typ, now, data, sliceSize)
      ensures sendList == old(sendList)
    {
      hide Queue, JobOf, Members, Packaged, Next;
      PackagedIs(seqNo, typ, now, data, sliceSize);
      var len := |data|;
      var number := seqNo;
      seqNo := (seqNo + 1) % MODULUS;
      var slices := if len <= 0 then 1 else (len + sliceSize - 1) / sliceSize;
      pack := Message(number, typ, slices % 256, now, data);
      while |packList| >= MAX_SIZE
        invariant |packList| <= |old(packList)|
        invariant packList == old(packList)[|old(packList)| - |packList|..]
        invariant |packList| == |old(packList)| || |packList| >= MAX_SIZE - 1
        invariant Valid() && sendList == old(sendList) && seqNo == Next(number)
      {
        packList := packList[1..];
      }
      assert packList == Trim(old(packList));
      packList := packList + [pack];
      assert Queue() == old(Queue());
    }

    /** Queues the sending of the masked slices of one number; no mask means all. */
    method Send(sliceSize: nat, number: u32, slicesMask: array?<bv32>)
      requires Valid() && (slicesMask != null ==> slicesMask.Length == WORDS)
      modifies this`sendList
      ensures Valid() && seqNo == old(seqNo) && packList == old(packList)
      ensures Queue() == old(Queue()) + [Job(sliceSize, number,
                           if slicesMask == null then Everything() else old(Members(slicesMask[..])))]
    {
      var words := if slicesMask == null then seq(WORDS, _ => 0xffff_ffff) else slicesMask[..];
      if slicesMask == null {
        OnesAreEverything(words);
      }
      Push(SendData(sliceSize, number, words));
    }

    method Push(d: SendData)
      requires Valid() && |d.slicesMask| == WORDS
      modifies this`sendList
      ensures Valid() && Queue() == old(Queue()) + [JobOf(d)]
    {
      hide Members;
      sendList := sendList + [d];
    }

    /** Queues every cached message whose number the range picks. */
    method SendRange(sliceSize: nat, seqStart: u32, seqEnd: u32, flag: bv32)
      requires Valid()
      modifies this`sendList
      ensures Valid() && View() == AddRange(old(View()), sliceSize, seqStart, seqEnd, flag)
    {
      hide Members, Queue, Picked;
      var start, end := seqStart, seqEnd;
      var words := seq(WORDS, _ => 0xffff_ffff);
      OnesAreEverything(words);
      if packList != [] {
        if flag & RANGE_START != 0 {
          start := packList[0].seqNo;
        }
        if flag & RANGE_END != 0 {
          end := Next(packList[|packList| - 1].seqNo);
        }
        PickedNone(packList, start, end);
        var it := 0;
        while it < |packList|
          invariant 0 <= it <= |packList|
          invariant Valid()
          invariant Queue() == old(Queue()) + Jobs(sliceSize, Picked(packList[..it], start, end))
        {
          PickedStep(packList, it, start, end);
          if start <= packList[it].seqNo < end {
            Push(SendData(sliceSize, packList[it].seqNo, words));
          }
          it := it + 1;
        }
        assert packList[..it] == packList;
      }
    }

    /** memcpy(packageData->data, data + offset, leave) */
    method Fill(data: seq<byte>, offset: nat, leave: nat)
      requires sendBuffer.Length == MAX_SOCKPACKAGE
      requires offset + leave <= |data| && leave <= MAX_SOCKPACKAGE
      modifies sendBuffer
      ensures sendBuffer[..leave] == data[offset..offset + leave]
    {
      forall i | 0 <= i < leave {
        sendBuffer[i] := data[offset + i];
      }
    }

    /** Slice s of a message in sendBuffer, data bytes into the payload with len bytes left. */
    method CutSlice(pack: Message, s: nat, sliceSize: nat, data: nat, len: nat) returns (d: Slice)
      requires sendBuffer.Length == MAX_SOCKPACKAGE && 0 < sliceSize <= MAX_SOCKPACKAGE
      requires HasSlice(pack, s, sliceSize) && data == s * sliceSize && len == |pack.data| - data
      modifies sendBuffer
      ensures d == SliceOf(pack, s, sliceSize)
    {
      var leave := if len >= sliceSize then sliceSize else len;
      PieceAt(pack.data, s, sliceSize, data, leave);
      if len > 0 {
        Fill(pack.data, data, leave);
      }
      d := Slice(pack.seqNo, pack.typ, pack.slices, s, pack.time, sendBuffer[..leave]);
    }

    /** The cutting loop of Send_l, for a message of several slices. */
    method SendMasked(sliceSize: nat, pack: Message, slicesMask: array?<bv32>, ghost mask: set<nat>)
      returns (sent: seq<Slice>, wr: nat)
      requires sendBuffer.Length == MAX_SOCKPACKAGE && 0 < sliceSize <= MAX_SOCKPACKAGE
      requires pack.slices > 1 && HasSlice(pack, pack.slices - 1, sliceSize)
      requires slicesMask != null ==> slicesMask.Length == WORDS
      requires forall i: nat | i < 256 :: i in mask <==> slicesMask == null || i in Members(slicesMask[..])
      modifies sendBuffer
      ensures sent == Selected(pack, sliceSize, mask, pack.slices)
      ensures wr == WireSize(sent)
    {
      hide Selected, Members, WireSize, SliceOf, HasSlice;
      NothingSelected(pack, sliceSize, mask);
      WireSizeNone();
      sent, wr := [], 0;
      var slices := pack.slices;
      var data, len: int := 0, |pack.data|;
      var s: nat := 0;
      while s < slices
        invariant 0 <= s <= slices
        invariant data == s * sliceSize && len == |pack.data| - data
        invariant s > 0 ==> HasSlice(pack, s - 1, sliceSize)
        invariant sent == Selected(pack, sliceSize, mask, s)
        invariant wr == WireSize(sent)
      {
        EarlierSlice(pack, s, slices - 1, sliceSize);
        OffsetInside(pack, s, sliceSize);
        SelectedStep(pack, sliceSize, mask, s);
        var present := IsSliceMask(s, slicesMask);
        if present {
          var d := CutSlice(pack, s, sliceSize, data, len);
          WireSizeAppend(sent, d);
          sent := sent + [d];
          wr := wr + HEAD + |d.data|;
        }
        NextOffset(s, sliceSize);
        data := data + sliceSize;
        len := len - sliceSize;
        s := s + 1;
      }
    }

    /** Cuts one message and sends its masked slices; pAddr and the socket are left out. */
    method Send_l(sliceSize: nat, pack: Message, slicesMask: array?<bv32>) returns (sent: seq<Slice>, wr: nat)
      requires Valid() && Emittable(pack, sliceSize) && sliceSize <= MAX_SOCKPACKAGE
      requires slicesMask != null ==> slicesMask.Length == WORDS
      modifies sendBuffer
      ensures Valid() && View() == old(View())
      ensures sent == Emitted(pack, sliceSize,
                        if slicesMask == null then Everything() else old(Members(slicesMask[..])))
      ensures wr == WireSize(sent)
    {
      hide Selected, Members, WireSize, Queue;
      WireSizeNone();
      sent, wr := [], 0;
      if pack.slices <= 1 {
        var whole := Slice(pack.seqNo, pack.typ, pack.slices, 0, pack.time, pack.data);
        WireSizeAppend(sent, whole);
        sent := sent + [whole];
        wr := HEAD + |pack.data|;
      } else {
        ghost var mask := if slicesMask == null then Everything() else Members(slicesMask[..]);
        sent, wr := SendMasked(sliceSize, pack, slicesMask, mask);
      }
    }

    /** One turn of the send thread on a non-empty sendList: takes the first entry,
        copies the cached message with its number into the thread's buffer, and sends it. */
    method TransmitNext(buffer: array<byte>) returns (sent: seq<Slice>)
      requires Valid() && sendList != []
      requires JobCuts(packList, JobOf(sendList[0])) && JobFits(packList, JobOf(sendList[0]))
      requires buffer.Length == THREAD_BUFFER && buffer != sendBuffer
      requires sendList[0].sliceSize <= MAX_SOCKPACKAGE
      modifies this`sendList, sendBuffer, buffer
      ensures Valid()
      ensures old(JobOf(sendList[0]) in Queue() && Queue()[0] == JobOf(sendList[0]))
      ensures sent == Transmitted(old(View()))
      ensures View() == old(View()).(queue := old(View()).queue[1..])
    {
      ghost var before := View();
      assert before.queue[0] == JobOf(sendList[0]) && before.queue[0] in before.queue;
      var job := sendList[0];
      sendList := sendList[1..];
      assert Queue() == before.queue[1..];
      var it := 0;
      while it < |packList| && packList[it].seqNo != job.seqNo
        invariant 0 <= it <= |packList|
        invariant forall j | 0 <= j < it :: packList[j].seqNo != job.seqNo
      {
        it := it + 1;
      }
      assert it == Lookup(packList, job.seqNo);
      if it == |packList| {
        return [];
      }
      var n := |packList[it].data|;
      forall i | 0 <= i < n {
        buffer[HEAD + i] := packList[it].data[i];
      }
      assert buffer[HEAD..HEAD + n] == packList[it].data;
      var pack := packList[it].(data := buffer[HEAD..HEAD + n]);
      var mask := new bv32[WORDS];
      forall i | 0 <= i < WORDS {
        mask[i] := job.slicesMask[i];
      }
      assert mask[..] == job.slicesMask;
      var wr;
      sent, wr := Send_l(job.sliceSize, pack, mask);
    }

    /** The cutting loop of SendDirect. */
    method SendCuts(sliceSize: nat, number: u32, typ: u16, data: seq<byte>, now: i64) returns (sent: seq<Slice>, wr: nat)
      requires sendBuffer.Length == MAX_SOCKPACKAGE && 0 < sliceSize <= MAX_SOCKPACKAGE
      modifies sendBuffer
      ensures sent == AllCuts(number, typ, now, data, sliceSize)
      ensures wr == WireSize(sent)
    {
      hide WireSize, Piece, CutOf, Cuts;
      WireSizeNone();
      var d, len := 0, |data|;
      var slices := if len <= 0 then 1 else (len + sliceSize - 1) / sliceSize;
      sent, wr := [], 0;
      NoCuts(number, typ, now, data, sliceSize);
      var s: nat := 0;
      while s < slices
        invariant 0 <= s <= slices == SliceCount(|data|, sliceSize)
        invariant d == s * sliceSize && len == |data| - d
        invariant sent == Cuts(number, typ, now, data, sliceSize, s)
        invariant wr == WireSize(sent)
      {
        CutExists(|data|, sliceSize, s);
        var datagram := CutDirect(sliceSize, number, typ, data, now, slices, s, d);
        OneMoreCut(number, typ, now, data, sliceSize, s);
        WireSizeAppend(sent, datagram);
        sent := sent + [datagram];
        wr := wr + HEAD + |datagram.data|;
        NextOffset(s, sliceSize);
        d := d + sliceSize;
        len := len - sliceSize;
        s := s + 1;
      }
    }

    /** Slice s in sendBuffer, d bytes into the payload. */
    method CutDirect(sliceSize: nat, number: u32, typ: u16, data: seq<byte>, now: i64, slices: nat, s: nat, d: nat)
      returns (datagram: Slice)
      requires sendBuffer.Length == MAX_SOCKPACKAGE && 0 < sliceSize <= MAX_SOCKPACKAGE
      requires d == s * sliceSize <= |data|
      modifies sendBuffer
      ensures datagram == CutOf(number, typ, now, data, sliceSize, slices, s)
    {
      var len := |data| - d;
      var leave := if len >= sliceSize then sliceSize else len;
      PieceAt(data, s, sliceSize, d, leave);
      if len > 0 {
        Fill(data, d, leave);
      }
      datagram := Slice(number, typ, slices % 256, s % 256, now, sendBuffer[..leave]);
    }

    /** Numbers and sends a payload without caching it. */
    method SendDirect(sliceSize: nat, typ: u16, data: seq<byte>, now: i64) returns (sent: seq<Slice>, wr: nat)
      requires Valid() && 0 < sliceSize <= MAX_SOCKPACKAGE
      modifies this`seqNo, sendBuffer
      ensures Valid() && View() == old(View()).(next := Next(old(seqNo)))
      ensures sent == AllCuts(old(seqNo), typ, now, data, sliceSize)
      ensures wr == WireSize(sent)
    {
      hide AllCuts, WireSize;
      var number := seqNo;
      seqNo := (seqNo + 1) % MODULUS;
      sent, wr := SendCuts(sliceSize, number, typ, data, now);
    }
  }
}
