/** TcpClient::DoRecvLoop (socket/TcpClient.cpp:385-479): reads a TCP stream in
    arbitrary chunks into one buffer, cuts it into packets, reassembles messages. */
module TcpReceive {
  import opened Types
  import opened Packet
  import opened Reassembly
  import opened Combine
  import opened Framing
  import opened TcpStream
  import BufferSize

  const RECV_BUFSIZE := MAX_SOCKPACKAGE + HEAD
  const BUFSIZE := (1024 + 1024) * 1024
  const MAX_TIMEOUTS := 15

  /** What one recv call does: at most n more bytes arrive (none: the peer has
      closed), it times out, or it fails. */
  datatype Recv = Arrives(n: nat) | TimedOut | Failed

  /** The room every recv is given, at the very least. */
  const LEAST_ROOM := MAX_SOCKPACKAGE - TCP_SLICE

  /** Bytes the calls must have brought, unless the input ended, and can have brought. */
  function Least(events: seq<Recv>): nat {
    if events == [] then 0
    else
      var n := |events| - 1;
      Least(events[..n]) + (if events[n].Arrives? then Min(events[n].n, LEAST_ROOM) else 0)
  }

  function Most(events: seq<Recv>): nat {
    if events == [] then 0
    else
      var n := |events| - 1;
      Most(events[..n]) + (if events[n].Arrives? then events[n].n else 0)
  }

  predicate Accounted(events: seq<Recv>, received: nat, total: nat) {
    Min(total, Least(events)) <= received <= Most(events)
  }

  /** How many of the last calls timed out in a row. */
  function Quiet(events: seq<Recv>): nat {
    if events == [] || !events[|events| - 1].TimedOut? then 0 else 1 + Quiet(events[..|events| - 1])
  }

  /** Why the loop ends before the calls do: the peer closed or had nothing left, the
      socket failed, or fifteen calls in a row timed out. */
  predicate Ended(events: seq<Recv>, received: nat, total: nat) {
    && events != []
    && match events[|events| - 1]
       case Arrives(n) => n == 0 || received == total
       case TimedOut => Quiet(events) >= MAX_TIMEOUTS
       case Failed => true
  }

  /** The last call ends the connection whatever was received: it brought no byte, or
      failed, or was the fifteenth timeout in a row. */
  predicate Stops(events: seq<Recv>) {
    && events != []
    && match events[|events| - 1]
       case Arrives(n) => n == 0
       case TimedOut => Quiet(events) >= MAX_TIMEOUTS
       case Failed => true
  }

  /** No call before the last one used did that. */
  predicate RanOn(events: seq<Recv>, k: nat)
    requires k <= |events|
  {
    forall j | 0 < j < k :: !Stops(events[..j])
  }

  lemma RanOnStep(events: seq<Recv>, k: nat)
    requires k < |events| && RanOn(events, k) && (k > 0 ==> !Stops(events[..k]))
    ensures RanOn(events, k + 1)
  {
    hide Stops;
  }

  /** Timeouts alone: the connection outlasts fourteen and ends with the fifteenth. */
  lemma {:induction false} FifteenTimeouts(events: seq<Recv>)
    requires forall i | 0 <= i < |events| :: events[i].TimedOut?
    ensures Quiet(events) == |events|
    ensures Stops(events) <==> |events| >= 15
  {
    if events != [] {
      FifteenTimeouts(events[..|events| - 1]);
    }
  }

  lemma OneMoreRecv(events: seq<Recv>, k: nat, received: nat, num: nat, total: nat)
    requires k < |events| && events[k].Arrives? && received + num <= total
    requires Accounted(events[..k], received, total)
    requires Min(Min(events[k].n, LEAST_ROOM), total - received) <= num <= events[k].n
    ensures Accounted(events[..k + 1], received + num, total)
    ensures num == 0 ==> Ended(events[..k + 1], received + num, total)
    ensures Quiet(events[..k + 1]) == 0
    ensures num > 0 ==> !Stops(events[..k + 1])
  {
    assert events[..k + 1][..k] == events[..k] && events[..k + 1][k] == events[k];
  }

  lemma NothingCame(events: seq<Recv>, k: nat, received: nat, total: nat)
    requires k < |events| && !events[k].Arrives?
    requires Accounted(events[..k], received, total)
    ensures Accounted(events[..k + 1], received, total)
    ensures events[k].TimedOut? ==> Quiet(events[..k + 1]) == Quiet(events[..k]) + 1
    ensures events[k].TimedOut? && Quiet(events[..k + 1]) < MAX_TIMEOUTS ==> !Stops(events[..k + 1])
    ensures events[k].Failed? || Quiet(events[..k + 1]) >= MAX_TIMEOUTS ==> Ended(events[..k + 1], received, total)
  {
    assert events[..k + 1][..k] == events[..k] && events[..k + 1][k] == events[k];
  }

  lemma NoRecvYet(events: seq<Recv>, total: nat)
    ensures Accounted(events[..0], 0, total) && Quiet(events[..0]) == 0 && RanOn(events, 0)
  {
  }

  // ---- The assembler between two packets ----

  /** c slices of the message are in, in order. */
  predicate Midway(p: Pack, m: Message, c: nat) {
    Holds(p, m, TCP_SLICE) && p.got == Range(c)
  }

  lemma NextIndex(c: nat)
    ensures Range(c) + {c} == Range(c + 1)
  {
  }

  /** Slice 0 starts the message afresh, whatever the buffer held, with the length of
      that slice as the slice size. */
  lemma FirstSlice(m: Message, area: seq<byte>, s: Slice)
    requires Sliceable(m, TCP_SLICE) && m.slices >= 1 && HasSlice(m, 0, TCP_SLICE) && s == SliceOf(m, 0, TCP_SLICE)
    requires |area| >= s.slices * |s.data| + |TERMINATOR|
    ensures StartFits(s, |s.data|, |area|)
    ensures Midway(Start(s, |s.data|, area), m, 1)
  {
    SliceExists(m, 0, TCP_SLICE);
    SliceCountIsCeiling(|m.data|, TCP_SLICE);
    StartAssembled(m, TCP_SLICE, |s.data|, s, area);
    HoldsAssembled(m, TCP_SLICE, |s.data|, {0}, area);
    NextIndex(0);
  }

  lemma LaterSlice(p: Pack, m: Message, c: nat, s: Slice)
    requires Midway(p, m, c) && c < m.slices && HasSlice(m, c, TCP_SLICE) && s == SliceOf(m, c, TCP_SLICE)
    ensures PutFits(p, s)
    ensures Midway(Put(p, s), m, c + 1)
  {
    PutHolds(p, m, TCP_SLICE, s);
    NextIndex(c);
  }

  lemma DoneAtLast(p: Pack, m: Message, c: nat)
    requires Midway(p, m, c) && 1 <= c <= m.slices
    ensures IsDone(p) <==> c == m.slices
    ensures IsDone(p) ==> Delivers(p, m)
  {
    DoneDelivers(p, m, TCP_SLICE);
    if c < m.slices {
      assert c !in p.got;
    }
  }

  /** The first slice of a message asks for whole slices of 64 KiB, or for less than one. */
  lemma FirstSliceAsks(m: Message)
    requires Sliceable(m, TCP_SLICE) && m.slices >= 1 && HasSlice(m, 0, TCP_SLICE)
    ensures BufferSize.AskedSize(TCP_SLICE, m.slices * |SliceOf(m, 0, TCP_SLICE).data|)
  {
    SliceExists(m, 0, TCP_SLICE);
    SliceCountIsCeiling(|m.data|, TCP_SLICE);
    var n := |SliceOf(m, 0, TCP_SLICE).data|;
    if m.slices > 1 {
      assert n == TCP_SLICE;
    }
  }

  /** InitPackage on slice 0, PutPackage on any other. */
  method AddPacket(combine: CombinePackage, s: Slice, ghost m: Message, ghost c: nat)
    requires combine.Valid() && BufferSize.Shape(TCP_SLICE, combine.mAllBufSize)
    requires Sliceable(m, TCP_SLICE) && c < m.slices && HasSlice(m, c, TCP_SLICE) && s == SliceOf(m, c, TCP_SLICE)
    requires c > 0 ==> Midway(combine.Model, m, c)
    modifies combine, combine.mSlicesMask, combine.mAllBuffers
    ensures combine.Valid() && BufferSize.Shape(TCP_SLICE, combine.mAllBufSize)
    ensures combine.mAllBuffers == old(combine.mAllBuffers) || fresh(combine.mAllBuffers)
    ensures Midway(combine.Model, m, c + 1)
  {
    hide Midway, Start, Put, Sliceable, StartFits, PutFits, BufferSize.Shape, BufferSize.Fits,
      BufferSize.AskedSize, BufferSize.AfterInit;
    if s.cur == 0 {
      ghost var size := BufferSize.AfterInit(combine.mAllBufSize, s.slices * |s.data|);
      FirstSliceAsks(m);
      BufferSize.InitKeepsShape(TCP_SLICE, combine.mAllBufSize, s.slices * |s.data|);
      StartFitsFrom(s, size);
      combine.InitPackage(s, |s.data|);
      ghost var area :| |area| + HEAD == size && StartFits(s, |s.data|, |area|)
                        && combine.Model == Start(s, |s.data|, area);
      FitsBehindHead(size, s.slices * |s.data|);
      FirstSlice(m, area, s);
    } else {
      LaterSlice(combine.Model, m, c, s);
      var _ := combine.PutPackage(s);
    }
  }

  /** The tail of the loop body: a complete message is handed over, and the assembler reset. */
  method HandOver(combine: CombinePackage, ghost m: Message, ghost c: nat) returns (delivered: seq<Pack>)
    requires combine.Valid() && 1 <= c <= m.slices && Midway(combine.Model, m, c)
    modifies combine, combine.mSlicesMask
    ensures combine.Valid() && combine.mAllBufSize == old(combine.mAllBufSize)
    ensures combine.mAllBuffers == old(combine.mAllBuffers)
    ensures if c == m.slices
            then |delivered| == 1 && Delivers(delivered[0], m)
            else delivered == [] && Midway(combine.Model, m, c)
  {
    DoneAtLast(combine.Model, m, c);
    hide Midway, Delivers;
    delivered := [];
    if combine.Done() {
      delivered := [combine.GetPackageData()];
      combine.ResetData();
    }
  }

  lemma FitsBehindHead(buffer: nat, size: nat)
    requires BufferSize.Fits(buffer, size)
    ensures buffer - HEAD >= size + |TERMINATOR|
  {
  }

  lemma StartFitsFrom(s: Slice, buffer: nat)
    requires s.cur == 0 && s.slices >= 1 && BufferSize.Fits(buffer, s.slices * |s.data|)
    ensures StartFits(s, |s.data|, buffer - HEAD)
  {
  }

  // ---- The loop ----

  /** recv into the room behind pos: how many bytes it delivers. */
  function Received(e: Recv, room: nat, available: nat): nat
    requires e.Arrives?
  {
    Min(Min(e.n, room), available)
  }

  /** The reader's place in the stream: d messages done, c slices of the next one in
      the assembler, buffer[..pos] and then the unread input still to come. */
  predicate Place(h: seq<Message>, d: nat, c: nat, held: seq<byte>, unread: seq<byte>) {
    && Sendable(h) && d <= |h|
    && (if d < |h| then c < h[d].slices else c == 0)
    && held + unread == Suffix(h, d, c)
  }

  predicate Handed(h: seq<Message>, d: nat, delivered: seq<Pack>) {
    d <= |h| && |delivered| == d && forall i | 0 <= i < d :: Delivers(delivered[i], h[i])
  }

  /** The packet at the head of the buffer, once it is there whole. */
  predicate HeadComplete(held: seq<byte>) {
    |held| >= HEAD && |held| >= HEAD + SizeField(held)
  }

  /** The frame at the reader's place. */
  lemma NextFrame(h: seq<Message>, d: nat, c: nat, held: seq<byte>, unread: seq<byte>)
    requires Place(h, d, c, held, unread)
    ensures d == |h| ==> held == []
    ensures d < |h| ==> HasSlice(h[d], c, TCP_SLICE)
    ensures d < |h| && |held| >= HEAD ==> SizeField(held) == |SliceOf(h[d], c, TCP_SLICE).data| <= TCP_SLICE
    ensures d < |h| && HeadComplete(held) ==> SliceAt(held) == SliceOf(h[d], c, TCP_SLICE)
    ensures HeadComplete(held) ==> d < |h|
    ensures !HeadComplete(held) && d < |h| ==> |held| < HEAD + |SliceOf(h[d], c, TCP_SLICE).data|
  {
    if d < |h| {
      SuffixStep(h, d, c);
      hide Suffix, SizeField, SliceAt, SliceOf, Frame;
      var s := SliceOf(h[d], c, TCP_SLICE);
      if |held| >= HEAD {
        FrameReadsBack(s, Suffix(h, d, c + 1), held);
      }
    }
  }

  function NextD(h: seq<Message>, d: nat, c: nat): nat
    requires d < |h|
  {
    if c + 1 == h[d].slices then d + 1 else d
  }

  function NextC(h: seq<Message>, d: nat, c: nat): nat
    requires d < |h|
  {
    if c + 1 == h[d].slices then 0 else c + 1
  }

  /** Dropping a handled packet moves the place to the next frame. */
  lemma DropFrame(h: seq<Message>, d: nat, c: nat, held: seq<byte>, unread: seq<byte>)
    requires Place(h, d, c, held, unread) && HeadComplete(held)
    ensures d < |h|
    ensures Place(h, NextD(h, d, c), NextC(h, d, c), held[HEAD + SizeField(held)..], unread)
  {
    NextFrame(h, d, c, held, unread);
    SuffixStep(h, d, c);
    NextPlace(h, d, c);
    hide Suffix, SizeField, SliceAt, SliceOf, Sliceable, NextD, NextC, Frame;
    DropPrefix(held, unread, Frame(SliceOf(h[d], c, TCP_SLICE)), Suffix(h, d, c + 1));
  }

  lemma DropPrefix(x: seq<byte>, y: seq<byte>, f: seq<byte>, g: seq<byte>)
    requires x + y == f + g && |f| <= |x|
    ensures x[|f|..] + y == g
  {
    assert (x + y)[|f|..] == x[|f|..] + y;
    assert (f + g)[|f|..] == g;
  }

  lemma NextPlace(h: seq<Message>, d: nat, c: nat)
    requires Sendable(h) && d < |h| && c < h[d].slices
    ensures var d', c' := NextD(h, d, c), NextC(h, d, c);
            && d' <= |h|
            && (if d' < |h| then c' < h[d'].slices else c' == 0)
            && Suffix(h, d, c + 1) == Suffix(h, d', c')
  {
    SuffixStep(h, d, c);
    SliceCounts(h);
  }

  lemma SliceCounts(h: seq<Message>)
    requires Sendable(h)
    ensures forall i | 0 <= i < |h| :: h[i].slices >= 1
  {
    forall i | 0 <= i < |h|
      ensures h[i].slices >= 1
    {
      SliceCountIsCeiling(|h[i].data|, TCP_SLICE);
    }
  }

  /** recv(fd, buffer + pos, RECV_BUFSIZE - pos): what arrives lands behind pos. */
  method ReceiveInto(buffer: array<byte>, pos: nat, e: Recv, input: seq<byte>, received: nat) returns (num: nat)
    requires e.Arrives? && received <= |input| && pos < buffer.Length
    modifies buffer
    ensures num == Received(e, buffer.Length - pos, |input| - received)
    ensures buffer[..pos + num] == old(buffer[..pos]) + input[received..received + num]
  {
    num := Received(e, buffer.Length - pos, |input| - received);
    forall i | 0 <= i < num {
      buffer[pos + i] := input[received + i];
    }
  }

  /** The move that discards the handled packet. */
  method Discard(buffer: array<byte>, pos: nat, size: nat)
    requires size <= pos <= buffer.Length
    modifies buffer
    ensures buffer[..pos - size] == old(buffer[..pos])[size..]
  {
    forall i | 0 <= i < pos - size {
      buffer[i] := buffer[i + size];
    }
  }

  /** The buffer holds the last bytes received. */
  predicate LastReceived(held: seq<byte>, input: seq<byte>, received: nat) {
    |held| <= received <= |input| && held == input[received - |held|..received]
  }

  lemma MoreArrived(h: seq<Message>, d: nat, c: nat, held: seq<byte>, input: seq<byte>, received: nat, num: nat)
    requires received + num <= |input| && Place(h, d, c, held, input[received..])
    requires LastReceived(held, input, received)
    ensures Place(h, d, c, held + input[received..received + num], input[received + num..])
    ensures LastReceived(held + input[received..received + num], input, received + num)
  {
    assert input[received..] == input[received..received + num] + input[received + num..];
    assert held + input[received..] == held + input[received..received + num] + input[received + num..];
  }

  lemma TailReceived(held: seq<byte>, input: seq<byte>, received: nat, size: nat)
    requires LastReceived(held, input, received) && size <= |held|
    ensures LastReceived(held[size..], input, received)
  {
  }

  lemma PlaceComplete(h: seq<Message>, d: nat, c: nat, held: seq<byte>, input: seq<byte>, received: nat)
    requires received <= |input| && Place(h, d, c, held, input[received..]) && input == AllBytes(h)
    requires |held| <= received && !HeadComplete(held)
    ensures |AllBytes(h[..d])| <= received
    ensures d < |h| ==> received < |AllBytes(h[..d + 1])|
  {
    NextFrame(h, d, c, held, input[received..]);
    CompleteMessages(h, d, c, |held|, received);
  }

  /** What holds of the assembler between two packets. */
  ghost predicate Ready(combine: CombinePackage, buffer: array<byte>, h: seq<Message>, d: nat, c: nat)
    reads combine, combine.mSlicesMask, combine.mAllBuffers
  {
    && combine.Valid() && BufferSize.Shape(TCP_SLICE, combine.mAllBufSize)
    && combine.mAllBuffers != buffer && combine.mSlicesMask as object != buffer
    && (c > 0 ==> d < |h| && Midway(combine.Model, h[d], c))
  }

  /** Everything the loop keeps: its place in the stream, what it handed over, and the
      assembler. The buffer holds the bytes received since the last handled packet. */
  ghost predicate Holding(combine: CombinePackage, buffer: array<byte>, pos: nat, input: seq<byte>, received: nat,
                          h: seq<Message>, d: nat, c: nat, delivered: seq<Pack>)
    reads combine, combine.mSlicesMask, combine.mAllBuffers, buffer
  {
    && pos <= buffer.Length == RECV_BUFSIZE && received <= |input|
    && Place(h, d, c, buffer[..pos], input[received..])
    && LastReceived(buffer[..pos], input, received)
    && Handed(h, d, delivered)
    && Ready(combine, buffer, h, d, c)
  }

  /** The branch of the loop body that receives. There is always room. */
  method Receive(combine: CombinePackage, buffer: array<byte>, pos: nat, e: Recv, input: seq<byte>, received: nat,
                 ghost h: seq<Message>, ghost d: nat, ghost c: nat, ghost delivered: seq<Pack>)
    returns (num: nat)
    requires Holding(combine, buffer, pos, input, received, h, d, c, delivered)
    requires e.Arrives? && !HeadComplete(buffer[..pos])
    modifies buffer
    ensures RECV_BUFSIZE - pos >= LEAST_ROOM
    ensures num == Received(e, RECV_BUFSIZE - pos, |input| - received)
    ensures num == 0 ==> buffer[..pos] == old(buffer[..pos])
    ensures Holding(combine, buffer, pos + num, input, received + num, h, d, c, delivered)
  {
    hide Holding, Place, LastReceived, HeadComplete, SizeField, SliceAt, SliceOf, HasSlice, Sliceable, Handed, Ready,
      Delivers, NextD, NextC, Received, CombinePackage.Valid, BufferSize.Shape, Midway;
    OpenHolding(combine, buffer, pos, input, received, h, d, c, delivered);
    ghost var held := buffer[..pos];
    SomeRoom(h, d, c, held, input[received..]);
    num := ReceiveInto(buffer, pos, e, input, received);
    ReceivedBounds(e, buffer.Length - pos, |input| - received);
    MoreArrived(h, d, c, held, input, received, num);
    HoldingFrom(combine, buffer, pos + num, input, received + num, h, d, c, delivered);
  }

  /** A header and a slice always fit the buffer with room to spare. */
  lemma SomeRoom(h: seq<Message>, d: nat, c: nat, held: seq<byte>, unread: seq<byte>)
    requires Place(h, d, c, held, unread) && !HeadComplete(held)
    ensures |held| < HEAD + TCP_SLICE
  {
    NextFrame(h, d, c, held, unread);
  }

  lemma ReceivedBounds(e: Recv, room: nat, available: nat)
    requires e.Arrives?
    ensures Received(e, room, available) <= room && Received(e, room, available) <= available
    ensures Received(e, room, available) <= e.n
    ensures room >= LEAST_ROOM ==> Received(e, room, available) >= Min(Min(e.n, LEAST_ROOM), available)
  {
  }

  lemma OpenHolding(combine: CombinePackage, buffer: array<byte>, pos: nat, input: seq<byte>, received: nat,
                    h: seq<Message>, d: nat, c: nat, delivered: seq<Pack>)
    requires Holding(combine, buffer, pos, input, received, h, d, c, delivered)
    ensures pos <= buffer.Length == RECV_BUFSIZE && received <= |input|
    ensures Place(h, d, c, buffer[..pos], input[received..]) && LastReceived(buffer[..pos], input, received)
    ensures Handed(h, d, delivered) && Ready(combine, buffer, h, d, c)
    ensures combine.mAllBuffers != buffer && combine.mSlicesMask as object != buffer
  {
  }

  /** Feeds packet c of message d to the assembler, and hands the message over if that was its last. */
  method Digest(combine: CombinePackage, ghost buffer: array<byte>, s: Slice,
                ghost h: seq<Message>, ghost d: nat, ghost c: nat)
    returns (done: seq<Pack>)
    requires Ready(combine, buffer, h, d, c)
    requires d < |h| && Sliceable(h[d], TCP_SLICE) && c < h[d].slices
    requires HasSlice(h[d], c, TCP_SLICE) && s == SliceOf(h[d], c, TCP_SLICE)
    modifies combine, combine.mSlicesMask, combine.mAllBuffers
    ensures Ready(combine, buffer, h, NextD(h, d, c), NextC(h, d, c))
    ensures combine.mAllBuffers == old(combine.mAllBuffers) || fresh(combine.mAllBuffers)
    ensures buffer[..] == old(buffer[..])
    ensures if c + 1 == h[d].slices then |done| == 1 && Delivers(done[0], h[d]) else done == []
  {
    hide SliceOf, HasSlice, Sliceable, Midway, Delivers, CombinePackage.Valid, BufferSize.Shape;
    AddPacket(combine, s, h[d], c);
    done := HandOver(combine, h[d], c + 1);
  }

  /** The branch of the loop body that handles a packet standing whole at buffer[0]. */
  method Handle(combine: CombinePackage, buffer: array<byte>, pos: nat, ghost input: seq<byte>, ghost received: nat,
                ghost h: seq<Message>, ghost d: nat, ghost c: nat, delivered: seq<Pack>)
    returns (handed: seq<Pack>, left: nat)
    requires Holding(combine, buffer, pos, input, received, h, d, c, delivered)
    requires HeadComplete(buffer[..pos])
    modifies combine, combine.mSlicesMask, combine.mAllBuffers, buffer
    ensures d < |h| && left < pos
    ensures Holding(combine, buffer, left, input, received, h, NextD(h, d, c), NextC(h, d, c), handed)
    ensures combine.mAllBuffers == old(combine.mAllBuffers) || fresh(combine.mAllBuffers)
  {
    hide Holding, Place, LastReceived, HeadComplete, SizeField, SliceAt, SliceOf, HasSlice, Sliceable, Handed, Ready,
      Delivers, NextD, NextC, Received, CombinePackage.Valid, BufferSize.Shape, Midway;
    OpenHolding(combine, buffer, pos, input, received, h, d, c, delivered);
    ghost var held, unread := buffer[..pos], input[received..];
    NextFrame(h, d, c, held, unread);
    PlaceBounds(h, d, c, held, unread);
    DropFrame(h, d, c, held, unread);
    HeadCompleteIs(held);
    ghost var d', c' := NextD(h, d, c), NextC(h, d, c);
    var s := SliceAt(buffer[..pos]);
    var size := HEAD + SizeField(buffer[..pos]);
    var done := Digest(combine, buffer, s, h, d, c);
    HandedMore(h, d, c, delivered, done);
    ReadyApart(combine, buffer, h, d', c');
    assert buffer[..pos] == held;
    Discard(buffer, pos, size);
    TailReceived(held, input, received, size);
    left := pos - size;
    handed := delivered + done;
    HoldingFrom(combine, buffer, left, input, received, h, d', c', handed);
  }

  lemma HoldingFrom(combine: CombinePackage, buffer: array<byte>, pos: nat, input: seq<byte>, received: nat,
                    h: seq<Message>, d: nat, c: nat, delivered: seq<Pack>)
    requires pos <= buffer.Length == RECV_BUFSIZE && received <= |input|
    requires Place(h, d, c, buffer[..pos], input[received..]) && LastReceived(buffer[..pos], input, received)
    requires Handed(h, d, delivered) && Ready(combine, buffer, h, d, c)
    ensures Holding(combine, buffer, pos, input, received, h, d, c, delivered)
  {
  }

  lemma ReadyApart(combine: CombinePackage, buffer: array<byte>, h: seq<Message>, d: nat, c: nat)
    requires Ready(combine, buffer, h, d, c)
    ensures combine.mAllBuffers != buffer && combine.mSlicesMask as object != buffer
  {
  }

  /** The loop itself, from an empty buffer; it stops when a recv is due and there is
      none to come, or the connection ends. */
  method Pump(combine: CombinePackage, buffer: array<byte>, input: seq<byte>, events: seq<Recv>, ghost h: seq<Message>)
    returns (delivered: seq<Pack>, pos: nat, received: nat, k: nat, ghost d: nat, ghost c: nat)
    requires Holding(combine, buffer, 0, input, 0, h, 0, 0, [])
    modifies combine, combine.mSlicesMask, combine.mAllBuffers, buffer
    ensures k <= |events| && Accounted(events[..k], received, |input|)
    ensures k == |events| || Ended(events[..k], received, |input|)
    ensures RanOn(events, k)
    ensures pos <= buffer.Length && !HeadComplete(buffer[..pos])
    ensures Holding(combine, buffer, pos, input, received, h, d, c, delivered)
  {
    hide Holding, HeadComplete, SizeField, Received, Accounted, Ended, Quiet, Stops, RanOn;
    var timeouts, running := 0, true;
    NoRecvYet(events, |input|);
    k, pos, received, delivered := 0, 0, 0, [];
    d, c := 0, 0;
    while running
      invariant 0 <= pos <= buffer.Length && received <= |input| && k <= |events|
      invariant Holding(combine, buffer, pos, input, received, h, d, c, delivered)
      invariant combine.mAllBuffers == old(combine.mAllBuffers) || fresh(combine.mAllBuffers)
      invariant running || !HeadComplete(buffer[..pos])
      invariant Accounted(events[..k], received, |input|)
      invariant RanOn(events, k) && (running && k > 0 ==> !Stops(events[..k]))
      invariant if running then timeouts == Quiet(events[..k])
                else k == |events| || Ended(events[..k], received, |input|)
      decreases running, |events| - k, pos
    {
      HeadCompleteIs(buffer[..pos]);
      if pos < HEAD || pos < HEAD + SizeField(buffer[..pos]) {
        if k == |events| {
          running := false;
        } else if events[k].Arrives? {
          RanOnStep(events, k);
          timeouts := 0;
          var num := Receive(combine, buffer, pos, events[k], input, received, h, d, c, delivered);
          ReceivedBounds(events[k], RECV_BUFSIZE - pos, |input| - received);
          OneMoreRecv(events, k, received, num, |input|);
          received := received + num;
          pos := pos + num;
          running := num > 0;
          k := k + 1;
        } else {
          RanOnStep(events, k);
          NothingCame(events, k, received, |input|);
          timeouts := timeouts + 1;
          running := events[k].TimedOut? && timeouts < MAX_TIMEOUTS;
          k := k + 1;
        }
      } else {
        delivered, pos := Handle(combine, buffer, pos, input, received, h, d, c, delivered);
        d, c := NextD(h, d, c), NextC(h, d, c);
      }
      HoldingBounds(combine, buffer, pos, input, received, h, d, c, delivered);
    }
  }

  /** However recv cuts the stream, and whenever it ends, what has been handed to DoRecvMessage when the next
      recv is due is exactly the messages complete in the bytes received so far, in
      order and byte for byte, and the buffer holds exactly the unparsed tail. */
  method DoRecvLoop(input: seq<byte>, events: seq<Recv>, ghost h: seq<Message>)
    returns (delivered: seq<Pack>, tail: seq<byte>, received: nat, used: nat)
    requires Sendable(h) && input == AllBytes(h)
    ensures used <= |events| && Accounted(events[..used], received, |input|)
    ensures used == |events| || Ended(events[..used], received, |input|)
    ensures RanOn(events, used)
    ensures received <= |input| && |delivered| <= |h|
    ensures forall i | 0 <= i < |delivered| :: Delivers(delivered[i], h[i])
    ensures |AllBytes(h[..|delivered|])| <= received
    ensures |delivered| < |h| ==> received < |AllBytes(h[..|delivered| + 1])|
    ensures LastReceived(tail, input, received) && !HeadComplete(tail)
  {
    var buffer := new byte[RECV_BUFSIZE];
    var combine := new CombinePackage();
    combine.AllocBuffer(BUFSIZE);
    BufferSize.AllocShape(TCP_SLICE, 32);
    StartPlace(h, input);
    assert buffer[..0] == [];
    assert Holding(combine, buffer, 0, input, 0, h, 0, 0, []);
    hide Holding, HeadComplete, Delivers, AllBytes, LastReceived, Accounted, Ended, RanOn;
    var pos;
    ghost var d, c;
    delivered, pos, received, used, d, c := Pump(combine, buffer, input, events, h);
    tail := buffer[..pos];
    HoldingComplete(combine, buffer, pos, input, received, h, d, c, delivered);
  }

  lemma HoldingBounds(combine: CombinePackage, buffer: array<byte>, pos: nat, input: seq<byte>, received: nat,
                      h: seq<Message>, d: nat, c: nat, delivered: seq<Pack>)
    requires Holding(combine, buffer, pos, input, received, h, d, c, delivered)
    ensures pos <= buffer.Length && received <= |input|
  {
  }

  lemma HoldingComplete(combine: CombinePackage, buffer: array<byte>, pos: nat, input: seq<byte>, received: nat,
                        h: seq<Message>, d: nat, c: nat, delivered: seq<Pack>)
    requires Holding(combine, buffer, pos, input, received, h, d, c, delivered)
    requires pos <= buffer.Length && !HeadComplete(buffer[..pos])
    requires Sendable(h) && input == AllBytes(h)
    ensures received <= |input| && |delivered| <= |h|
    ensures forall i | 0 <= i < |delivered| :: Delivers(delivered[i], h[i])
    ensures |AllBytes(h[..|delivered|])| <= received
    ensures |delivered| < |h| ==> received < |AllBytes(h[..|delivered| + 1])|
    ensures LastReceived(buffer[..pos], input, received)
  {
    hide Place, Delivers, HeadComplete, AllBytes, Ready;
    PlaceComplete(h, d, c, buffer[..pos], input, received);
  }

  lemma HandedMore(h: seq<Message>, d: nat, c: nat, delivered: seq<Pack>, done: seq<Pack>)
    requires Handed(h, d, delivered) && d < |h|
    requires if c + 1 == h[d].slices then |done| == 1 && Delivers(done[0], h[d]) else done == []
    ensures Handed(h, NextD(h, d, c), delivered + done)
  {
    hide Delivers;
  }

  lemma StartPlace(h: seq<Message>, input: seq<byte>)
    requires Sendable(h) && input == AllBytes(h)
    ensures Place(h, 0, 0, [], input[0..]) && LastReceived([], input, 0)
  {
    SuffixIsTail(h, 0);
    assert h[0..] == h && [] + input == input && input[0..] == input;
    SliceCounts(h);
  }

  lemma HeadCompleteIs(held: seq<byte>)
    ensures HeadComplete(held) <==> |held| >= HEAD && |held| >= HEAD + SizeField(held)
  {
  }

  lemma PlaceBounds(h: seq<Message>, d: nat, c: nat, held: seq<byte>, unread: seq<byte>)
    requires Place(h, d, c, held, unread) && d < |h|
    ensures Sliceable(h[d], TCP_SLICE) && c < h[d].slices
  {
  }
}
