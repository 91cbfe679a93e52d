/** The audio branch of UdpCombinePackage::OnUdpSliceReceived
    (socket/UdpCombinePackage.cpp:28-40): one package that is reused for every
    message, restarted by a later sequence number and reset after each report.
    ResetData leaves dataSize alone, so the k-th report of a message carries k times
    its size, with the terminator that far into the buffer, or past its end. */
module AudioPath {
  import opened Types
  import opened Serial
  import opened Packet
  import opened Reassembly
  import opened Combine
  import opened Reorder
  import BufferSize

  const AUDIO_BUFSIZE := 32 * 1024

  /** combineAudio and everything handed to DoRecvUdpMessage so far. */
  datatype Audio = Audio(pack: Pack, reports: seq<Pack>)

  /** A slice, and what a buffer newly allocated for its message would hold. */
  datatype Arrival = Arrival(s: Slice, area: seq<byte>)

  /** The buffer InitPackage leaves: kept when it is long enough. */
  function Area(p: Pack, e: Arrival): seq<byte> {
    if |p.data| + HEAD < e.s.slices * UDP_PACKLENGTH then e.area else p.data
  }

  predicate StepFits(p: Pack, e: Arrival) {
    if p.seqNo == e.s.seqNo then PutFits(p, e.s)
    else TimeAfter(e.s.seqNo, p.seqNo) ==> StartFits(e.s, UDP_PACKLENGTH, |Area(p, e)|)
  }

  function Receive(p: Pack, e: Arrival): Pack
    requires StepFits(p, e)
  {
    if p.seqNo == e.s.seqNo then Put(p, e.s)
    else if TimeAfter(e.s.seqNo, p.seqNo) then Start(e.s, UDP_PACKLENGTH, Area(p, e))
    else p
  }

  function Forget(p: Pack): Pack {
    p.(recv := 0, got := {})
  }

  function AudioStep(a: Audio, e: Arrival): Audio
    requires StepFits(a.pack, e)
  {
    var q := Receive(a.pack, e);
    if IsDone(q) then Audio(Forget(q), a.reports + [q]) else Audio(q, a.reports)
  }

  // ---- Runs ----

  predicate RunFits(start: Pack, es: seq<Arrival>)
    decreases |es|, 0
  {
    es != [] ==>
      && RunFits(start, es[..|es| - 1])
      && StepFits(Run(start, es[..|es| - 1]).pack, es[|es| - 1])
  }

  function Run(start: Pack, es: seq<Arrival>): Audio
    requires RunFits(start, es)
    decreases |es|, 1
  {
    if es == [] then Audio(start, [])
    else AudioStep(Run(start, es[..|es| - 1]), es[|es| - 1])
  }

  /** The package after AllocBuffer(AUDIO_BUFSIZE); the rest is whatever memory held. */
  predicate Allocated(p: Pack) {
    p.seqNo == 0xffff_ffff && |p.data| + HEAD == BufferSize.AllocSize(AUDIO_BUFSIZE)
  }

  // ---- Where the slices come from ----

  /** All audio messages ever sent; number j of them goes out as j modulo 2^32. */
  predicate Numbered(h: seq<Message>) {
    forall j | 0 <= j < |h| :: h[j].seqNo == j % MODULUS && Sliceable(h[j], UDP_PACKLENGTH)
  }

  predicate ArrivalOf(h: seq<Message>, e: Arrival, j: nat) {
    j < |h| && IsSliceOf(h[j], UDP_PACKLENGTH, e.s) && |e.area| == AreaSize(e.s.slices)
  }

  /** Arrival k is a slice of message at[k]: lost, repeated and reordered at will. */
  predicate AllFrom(h: seq<Message>, es: seq<Arrival>, at: seq<nat>) {
    |es| == |at| && forall k | 0 <= k < |es| :: ArrivalOf(h, es[k], at[k])
  }

  /** The latest message so far; -1, whose number is 0xffffffff, before any. */
  function Top(at: seq<nat>): int {
    if at == [] then -1
    else
      var n := |at| - 1;
      if at[n] > Top(at[..n]) then at[n] else Top(at[..n])
  }

  /** No slice comes from 2^31 or more messages before the latest so far, nor from more
      than that after it. */
  predicate Windowed(at: seq<nat>) {
    at != [] ==>
      var n := |at| - 1;
      Windowed(at[..n]) && InWindow(Top(at[..n]), at[n])
  }

  predicate InWindow(top: int, j: nat) {
    -HALF < j - top <= HALF
  }

  // ---- The same run by counting, without bytes and without bounds ----

  /** The k-th report of message at. */
  datatype Round = Round(at: nat, k: nat)

  /** The latest message, its slices since it was last reported, how often it has been
      reported, the length of the data area, and the reports so far. */
  datatype Count = Count(top: int, got: set<nat>, rounds: nat, room: nat, log: seq<Round>)

  const NOTHING := Count(-1, {}, 0, BufferSize.AllocSize(AUDIO_BUFSIZE) - HEAD, [])

  /** The data area behind the header after InitPackage for n slices. */
  function RoomAfter(room: nat, n: nat): nat {
    BufferSize.AfterInit(room + HEAD, n * UDP_PACKLENGTH) - HEAD
  }

  /** Slice i of message j arrives. */
  function Admit(h: seq<Message>, t: Count, j: nat, i: nat): Count
    requires j < |h|
  {
    if j < t.top then t
    else
      var got := (if j == t.top then t.got else {}) + {i};
      var rounds := if j == t.top then t.rounds else 0;
      var room := if j == t.top then t.room else RoomAfter(t.room, h[j].slices);
      if NoneMissing(h[j], got) then Count(j, {}, rounds + 1, room, t.log + [Round(j, rounds + 1)])
      else Count(j, got, rounds, room, t.log)
  }

  function Counted(h: seq<Message>, es: seq<Arrival>, at: seq<nat>): Count
    requires AllFrom(h, es, at)
  {
    if es == [] then NOTHING
    else
      var n := |es| - 1;
      Admit(h, Counted(h, es[..n], at[..n]), at[n], es[n].s.cur)
  }

  /** The slice completes a message for one more report, whose terminator does not fit. */
  predicate Overruns(h: seq<Message>, t: Count, j: nat, i: nat)
    requires j < |h|
  {
    && j == t.top
    && NoneMissing(h[j], t.got + {i})
    && (t.rounds + 1) * |h[j].data| + |TERMINATOR| > t.room
  }

  predicate NeverOverruns(h: seq<Message>, es: seq<Arrival>, at: seq<nat>)
    requires AllFrom(h, es, at)
  {
    es != [] ==>
      var n := |es| - 1;
      NeverOverruns(h, es[..n], at[..n]) && !Overruns(h, Counted(h, es[..n], at[..n]), at[n], es[n].s.cur)
  }

  // ---- The package between two arrivals ----

  /** Part of m, after r reports of it since InitPackage: their sizes are still in dataSize. */
  predicate Repeated(p: Pack, m: Message, r: nat) {
    && Sliceable(m, UDP_PACKLENGTH)
    && p.seqNo == m.seqNo && p.typ == m.typ && p.slices == m.slices && p.time == m.time
    && p.one == UDP_PACKLENGTH && Indices(m, p.got) && p.recv == |p.got|
    && p.dataSize == r * |m.data| + Volume(m, UDP_PACKLENGTH, p.got, m.slices)
    && |m.data| + |TERMINATOR| <= |p.data| && p.data[..|m.data|] == m.data
    && (m.data == [] ==> p.data[..|TERMINATOR|] == TERMINATOR)
  }

  predicate PartAfter(p: Pack, m: Message, r: nat) {
    if r == 0 then Holds(p, m, UDP_PACKLENGTH) && p.one == UDP_PACKLENGTH else Repeated(p, m, r)
  }

  /** What the k-th report of m hands over: its header and bytes, k times its size,
      and the terminator at that place. */
  predicate RoundReport(p: Pack, m: Message, k: nat) {
    && p.seqNo == m.seqNo && p.typ == m.typ && p.slices == m.slices && p.time == m.time
    && p.dataSize == k * |m.data|
    && |m.data| <= |p.data| && p.data[..|m.data|] == m.data
    && p.dataSize + |TERMINATOR| <= |p.data|
    && p.data[p.dataSize..p.dataSize + |TERMINATOR|] == TERMINATOR
  }

  lemma RoundReportExactIff(p: Pack, m: Message, k: nat)
    requires RoundReport(p, m, k) && k >= 1
    ensures Delivers(p, m) <==> k == 1 || m.data == []
  {
    var n := |m.data|;
    if k == 1 || m.data == [] {
      assert p.dataSize == n;
      assert p.data[..n + |TERMINATOR|] == p.data[..n] + p.data[n..n + |TERMINATOR|];
    } else {
      MulMono(2, k, n);
    }
  }

  lemma NumberOfPosition(top: int, j: nat)
    requires top >= -1 && InWindow(top, j)
    ensures j % MODULUS == top % MODULUS <==> j == top
    ensures j != top ==> (TimeAfter(j % MODULUS, top % MODULUS) <==> j > top)
  {
    hide TimeAfter;
    var x: u32, y: u32 := j % MODULUS, top % MODULUS;
    TimeAfterIsDistance(x, y);
    var q := top / MODULUS - j / MODULUS;
    assert y - x == (top - j) - q * MODULUS;
    Residue(top - j, y - x, q);
  }

  lemma Residue(d: int, e: int, q: int)
    requires e == d - q * MODULUS && -HALF <= d < HALF && -MODULUS < e < MODULUS
    ensures e == 0 <==> d == 0
    ensures d != 0 ==> (e % MODULUS >= HALF <==> d < 0)
  {
    assert q == -1 || q == 0 || q == 1;
  }

  lemma RoomEnough(m: Message, room: nat)
    requires Sliceable(m, UDP_PACKLENGTH) && BufferSize.Shape(UDP_PACKLENGTH, room + HEAD)
    ensures BufferSize.Shape(UDP_PACKLENGTH, RoomAfter(room, m.slices) + HEAD)
    ensures |m.data| + |TERMINATOR| <= RoomAfter(room, m.slices)
  {
    SliceCountIsCeiling(|m.data|, UDP_PACKLENGTH);
    BufferSize.InitKeepsShape(UDP_PACKLENGTH, room + HEAD, m.slices * UDP_PACKLENGTH);
  }

  /** A later message restarts the package. */
  lemma StartHolds(m: Message, p: Pack, e: Arrival)
    requires IsSliceOf(m, UDP_PACKLENGTH, e.s) && |e.area| == AreaSize(e.s.slices)
    requires BufferSize.Shape(UDP_PACKLENGTH, |p.data| + HEAD)
    ensures StartFits(e.s, UDP_PACKLENGTH, |Area(p, e)|)
    ensures var q := Start(e.s, UDP_PACKLENGTH, Area(p, e));
            && Holds(q, m, UDP_PACKLENGTH) && q.one == UDP_PACKLENGTH && q.got == {e.s.cur as nat}
            && |q.data| == RoomAfter(|p.data|, m.slices)
  {
    hide Contents, Volume, Put, Start, BufferSize.Shape;
    RoomEnough(m, |p.data|);
    var area := Area(p, e);
    assert |area| == RoomAfter(|p.data|, m.slices);
    StartAssembled(m, UDP_PACKLENGTH, UDP_PACKLENGTH, e.s, area);
    HoldsAssembled(m, UDP_PACKLENGTH, UDP_PACKLENGTH, {e.s.cur as nat}, area);
  }

  // ---- A slice for a message that was reported before ----

  lemma SliceInside(m: Message, s: Slice)
    requires IsSliceOf(m, UDP_PACKLENGTH, s)
    ensures s.cur * UDP_PACKLENGTH + |s.data| <= |m.data|
    ensures s.data == m.data[s.cur * UDP_PACKLENGTH..s.cur * UDP_PACKLENGTH + |s.data|]
  {
  }

  /** It fits unless it completes the message again and the next multiple of the size,
      with the terminator, is past the end. */
  lemma PutFitsIff(p: Pack, m: Message, r: nat, s: Slice)
    requires Repeated(p, m, r) && !NoneMissing(m, p.got) && IsSliceOf(m, UDP_PACKLENGTH, s)
    ensures PutFits(p, s) <==>
            !(NoneMissing(m, p.got + {s.cur as nat}) && (r + 1) * |m.data| + |TERMINATOR| > |p.data|)
  {
    hide Volume, Piece, NoneMissing, IsSliceOf, Complete;
    SliceInside(m, s);
    SliceNumber(m, s);
    var i: nat := s.cur;
    var got := p.got + {i};
    var before, size := r * |m.data|, |m.data|;
    assert (r + 1) * size == before + size;
    CompleteMeansAll(m, got);
    if i in p.got {
      assert got == p.got;
    } else {
      VolumeAdds(m, UDP_PACKLENGTH, p.got, i, m.slices);
      NewSliceFits(p, m, s);
      if NoneMissing(m, got) {
        CompleteVolume(m, UDP_PACKLENGTH, got);
      }
    }
  }

  lemma NewSliceFits(p: Pack, m: Message, s: Slice)
    requires SamePackage(p, s) && p.slices == m.slices && p.recv == |p.got| && s.cur !in p.got
    requires s.cur * p.one + |s.data| <= |p.data| && Indices(m, p.got) && s.cur < m.slices
    ensures PutFits(p, s) <==> !(NoneMissing(m, p.got + {s.cur as nat})
                                 && p.dataSize + |s.data| + |TERMINATOR| > |p.data|)
  {
    var got := p.got + {s.cur as nat};
    assert |got| == |p.got| + 1;
    CompleteMeansAll(m, got);
  }

  /** Copying bytes that are there already, and zeros behind them, leaves them. */
  lemma PutBytes(p: Pack, m: Message, s: Slice)
    requires SamePackage(p, s) && PutFits(p, s) && p.one == UDP_PACKLENGTH && IsSliceOf(m, UDP_PACKLENGTH, s)
    requires |m.data| <= |p.data| && p.data[..|m.data|] == m.data
    requires s.cur in p.got || p.dataSize + |s.data| >= |m.data| || !IsDone(Put(p, s))
    ensures Put(p, s).data[..|m.data|] == m.data
    ensures s.cur !in p.got && IsDone(Put(p, s)) ==>
              var end := p.dataSize + |s.data|;
              end + |TERMINATOR| <= |p.data| && Put(p, s).data[end..end + |TERMINATOR|] == TERMINATOR
  {
    hide Piece;
    SliceInside(m, s);
    var off := s.cur * UDP_PACKLENGTH;
    var copied := Overwrite(p.data, off, s.data);
    forall k | 0 <= k < |m.data|
      ensures copied[k] == m.data[k]
    {
      assert p.data[..|m.data|][k] == p.data[k];
      if off <= k < off + |s.data| {
        assert m.data[off..off + |s.data|][k - off] == m.data[k];
      }
    }
    assert copied[..|m.data|] == m.data;
  }

  lemma PutEmpty(p: Pack, s: Slice)
    requires PutFits(p, s) && s.data == [] && p.dataSize == 0
    requires |p.data| >= |TERMINATOR| && p.data[..|TERMINATOR|] == TERMINATOR
    ensures |Put(p, s).data| == |p.data| && Put(p, s).data[..|TERMINATOR|] == TERMINATOR
  {
  }

  /** A slice arriving again after r reports is counted on top of them, and completes the
      next report. */
  lemma PutRepeated(p: Pack, m: Message, r: nat, s: Slice)
    requires Repeated(p, m, r) && r >= 1 && !NoneMissing(m, p.got)
    requires IsSliceOf(m, UDP_PACKLENGTH, s) && PutFits(p, s)
    ensures Repeated(Put(p, s), m, r)
    ensures Put(p, s).got == p.got + {s.cur as nat} && |Put(p, s).data| == |p.data|
    ensures IsDone(Put(p, s)) <==> NoneMissing(m, p.got + {s.cur as nat})
    ensures IsDone(Put(p, s)) ==> RoundReport(Put(p, s), m, r + 1)
  {
    hide Put, PutFits, Volume, Piece, IsSliceOf, NoneMissing;
    SliceNumber(m, s);
    PutFields(p, s);
    var i: nat := s.cur;
    var got := p.got + {i};
    var before, size := r * |m.data|, |m.data|;
    assert (r + 1) * size == before + size;
    MulMono(1, r, size);
    CompleteMeansAll(m, got);
    if i in p.got {
      assert got == p.got;
    } else {
      VolumeAdds(m, UDP_PACKLENGTH, p.got, i, m.slices);
    }
    if NoneMissing(m, got) {
      CompleteVolume(m, UDP_PACKLENGTH, got);
    }
    PutBytes(p, m, s);
    if m.data == [] {
      SliceInside(m, s);
      VolumeBound(m, UDP_PACKLENGTH, p.got, m.slices);
      PutEmpty(p, s);
    }
  }

  lemma ForgetRepeated(q: Pack, m: Message, k: nat)
    requires RoundReport(q, m, k) && Sliceable(m, UDP_PACKLENGTH) && q.one == UDP_PACKLENGTH
    requires |m.data| + |TERMINATOR| <= |q.data|
    ensures Repeated(Forget(q), m, k)
  {
    VolumeOfNone(m, UDP_PACKLENGTH, m.slices);
  }

  // ---- The run and the count agree ----

  predicate ReportsAre(h: seq<Message>, reports: seq<Pack>, log: seq<Round>) {
    && |reports| == |log|
    && (forall i | 0 <= i < |log| ::
          log[i].at < |h| && log[i].k >= 1 && RoundReport(reports[i], h[log[i].at], log[i].k))
  }

  predicate Agrees(h: seq<Message>, a: Audio, t: Count) {
    && -1 <= t.top < |h|
    && a.pack.seqNo == t.top % MODULUS
    && |a.pack.data| == t.room && BufferSize.Shape(UDP_PACKLENGTH, t.room + HEAD)
    && (t.top >= 0 ==>
          a.pack.got == t.got && !NoneMissing(h[t.top], t.got) && PartAfter(a.pack, h[t.top], t.rounds))
    && ReportsAre(h, a.reports, t.log)
  }

  lemma HoldsRoom(p: Pack, m: Message)
    requires Holds(p, m, UDP_PACKLENGTH)
    ensures |m.data| + |TERMINATOR| <= |p.data|
  {
  }

  /** One arrival stays inside the buffer exactly when it does not overrun by the count. */
  lemma StepFitsIff(h: seq<Message>, a: Audio, t: Count, e: Arrival, j: nat)
    requires Numbered(h) && Agrees(h, a, t) && ArrivalOf(h, e, j) && InWindow(t.top, j)
    ensures StepFits(a.pack, e) <==> !Overruns(h, t, j, e.s.cur)
  {
    hide Holds, Repeated, IsSliceOf, PutFits, StartFits, Area, BufferSize.Shape, ReportsAre, NoneMissing, TimeAfter;
    var m := h[j];
    SliceNumber(m, e.s);
    NumberOfPosition(t.top, j);
    if j == t.top {
      if t.rounds == 0 {
        PutHolds(a.pack, m, UDP_PACKLENGTH, e.s);
        HoldsRoom(a.pack, m);
      } else {
        PutFitsIff(a.pack, m, t.rounds, e.s);
      }
    } else if j > t.top {
      StartHolds(m, a.pack, e);
    }
  }

  /** The precondition of AudioCombine.OnAudioSlice is that same condition, whatever a
      new buffer would hold. */
  lemma CallSafeIff(h: seq<Message>, a: Audio, t: Count, s: Slice, j: nat)
    requires Numbered(h) && Agrees(h, a, t) && j < |h| && IsSliceOf(h[j], UDP_PACKLENGTH, s) && InWindow(t.top, j)
    ensures (forall fill: seq<byte> :: |fill| == AreaSize(s.slices) ==> StepFits(a.pack, Arrival(s, fill)))
            <==> !Overruns(h, t, j, s.cur)
  {
    hide Numbered, Agrees, IsSliceOf, StepFits, Overruns;
    forall fill: seq<byte> | |fill| == AreaSize(s.slices)
      ensures StepFits(a.pack, Arrival(s, fill)) <==> !Overruns(h, t, j, s.cur)
    {
      StepFitsIff(h, a, t, Arrival(s, fill), j);
    }
    var zeros: seq<byte> := seq(AreaSize(s.slices), _ => 0);
    assert StepFits(a.pack, Arrival(s, zeros)) <==> !Overruns(h, t, j, s.cur);
  }

  lemma SliceNumber(m: Message, s: Slice)
    requires IsSliceOf(m, UDP_PACKLENGTH, s)
    ensures s.seqNo == m.seqNo && s.slices == m.slices && Sliceable(m, UDP_PACKLENGTH)
    ensures s.cur < m.slices && HasSlice(m, s.cur, UDP_PACKLENGTH) && s.data == Piece(m.data, s.cur, UDP_PACKLENGTH)
  {
  }

  lemma FirstRound(q: Pack, m: Message)
    requires Holds(q, m, UDP_PACKLENGTH) && IsDone(q)
    ensures RoundReport(q, m, 1)
  {
    hide Contents, Volume;
    DoneDelivers(q, m, UDP_PACKLENGTH);
    var n := |m.data|;
    assert q.data[..n] == q.data[..n + |TERMINATOR|][..n];
    assert q.data[n..n + |TERMINATOR|] == q.data[..n + |TERMINATOR|][n..];
  }

  /** What an arrival that is not ignored does to the package, before the test IsDone. */
  lemma ReceiveAgrees(h: seq<Message>, a: Audio, t: Count, e: Arrival, j: nat) returns (q: Pack, r: nat)
    requires Numbered(h) && Agrees(h, a, t) && ArrivalOf(h, e, j) && InWindow(t.top, j)
    requires StepFits(a.pack, e) && j >= t.top
    ensures q == Receive(a.pack, e)
    ensures r == (if j == t.top then t.rounds else 0)
    ensures q.got == (if j == t.top then t.got else {}) + {e.s.cur as nat}
    ensures |q.data| == (if j == t.top then t.room else RoomAfter(t.room, h[j].slices))
    ensures BufferSize.Shape(UDP_PACKLENGTH, |q.data| + HEAD)
    ensures PartAfter(q, h[j], r) && q.seqNo == j % MODULUS && q.one == UDP_PACKLENGTH
    ensures |h[j].data| + |TERMINATOR| <= |q.data|
    ensures IsDone(q) <==> NoneMissing(h[j], q.got)
    ensures IsDone(q) ==> RoundReport(q, h[j], r + 1)
  {
    hide Holds, Repeated, IsSliceOf, PutFits, StartFits, Put, Start, Area, BufferSize.Shape, ReportsAre, NoneMissing,
      TimeAfter, IsDone, RoundReport;
    var m := h[j];
    SliceNumber(m, e.s);
    NumberOfPosition(t.top, j);
    r := if j == t.top then t.rounds else 0;
    q := Receive(a.pack, e);
    if j == t.top && r > 0 {
      PutRepeated(a.pack, m, r, e.s);
      RepeatedFacts(q, m, r);
    } else {
      if j == t.top {
        PutHolds(a.pack, m, UDP_PACKLENGTH, e.s);
        PutKeepsOne(a.pack, e.s);
      } else {
        StartHolds(m, a.pack, e);
        RoomEnough(m, t.room);
      }
      HoldsNumber(q, m, UDP_PACKLENGTH);
      HoldsRoom(q, m);
      DoneDelivers(q, m, UDP_PACKLENGTH);
      if IsDone(q) {
        FirstRound(q, m);
      }
    }
  }

  lemma PutKeepsOne(p: Pack, s: Slice)
    requires PutFits(p, s)
    ensures Put(p, s).one == p.one
  {
  }

  lemma RepeatedFacts(q: Pack, m: Message, r: nat)
    requires Repeated(q, m, r)
    ensures q.seqNo == m.seqNo && q.one == UDP_PACKLENGTH && |m.data| + |TERMINATOR| <= |q.data|
  {
  }

  lemma ReportsAppend(h: seq<Message>, reports: seq<Pack>, log: seq<Round>, q: Pack, j: nat, k: nat)
    requires ReportsAre(h, reports, log) && j < |h| && k >= 1 && RoundReport(q, h[j], k)
    ensures ReportsAre(h, reports + [q], log + [Round(j, k)])
  {
    hide RoundReport;
  }

  lemma StepAgrees(h: seq<Message>, a: Audio, t: Count, e: Arrival, j: nat)
    requires Numbered(h) && Agrees(h, a, t) && ArrivalOf(h, e, j) && InWindow(t.top, j) && StepFits(a.pack, e)
    ensures Agrees(h, AudioStep(a, e), Admit(h, t, j, e.s.cur))
  {
    hide Holds, Repeated, IsSliceOf, StepFits, BufferSize.Shape, ReportsAre, NoneMissing, TimeAfter, IsDone,
      RoundReport, Receive;
    if j < t.top {
      EarlierIgnored(h, a, t, e, j);
      PartNotDone(a.pack, h[t.top], t.rounds);
    } else {
      var q, r := ReceiveAgrees(h, a, t, e, j);
      if IsDone(q) {
        ReportsAppend(h, a.reports, t.log, q, j, r + 1);
        SliceNumber(h[j], e.s);
        ForgetRepeated(q, h[j], r + 1);
        SomethingMissing(h[j]);
      }
    }
  }

  lemma SomethingMissing(m: Message)
    requires Sliceable(m, UDP_PACKLENGTH)
    ensures !NoneMissing(m, {})
  {
    SliceCountIsCeiling(|m.data|, UDP_PACKLENGTH);
    var none: set<nat> := {};
    assert 0 < m.slices && 0 !in none;
  }

  lemma PartNotDone(p: Pack, m: Message, r: nat)
    requires PartAfter(p, m, r)
    ensures IsDone(p) <==> NoneMissing(m, p.got)
  {
    hide Holds;
    if r == 0 {
      DoneDelivers(p, m, UDP_PACKLENGTH);
    } else {
      CompleteMeansAll(m, p.got);
    }
  }

  lemma EarlierIgnored(h: seq<Message>, a: Audio, t: Count, e: Arrival, j: nat)
    requires Numbered(h) && Agrees(h, a, t) && ArrivalOf(h, e, j) && InWindow(t.top, j) && StepFits(a.pack, e)
    requires j < t.top
    ensures Receive(a.pack, e) == a.pack
  {
    hide PartAfter, IsSliceOf, ReportsAre, BufferSize.Shape, NoneMissing, TimeAfter;
    SliceNumber(h[j], e.s);
    NumberOfPosition(t.top, j);
  }

  // ---- Whole runs ----

  lemma {:induction false} TopIsCounted(h: seq<Message>, es: seq<Arrival>, at: seq<nat>)
    requires AllFrom(h, es, at)
    ensures Counted(h, es, at).top == Top(at)
  {
    hide ArrivalOf, NoneMissing;
    if es != [] {
      var n := |es| - 1;
      TopIsCounted(h, es[..n], at[..n]);
    }
  }

  lemma NothingAgrees(h: seq<Message>, start: Pack)
    requires Allocated(start)
    ensures Agrees(h, Audio(start, []), NOTHING)
  {
    BufferSize.AllocShape(UDP_PACKLENGTH, 1);
  }

  /** As long as the run stays inside the buffer, the package and the reports are what
      the count says; and it does exactly as long as the count does not overrun. */
  lemma {:induction false} RunAgrees(h: seq<Message>, start: Pack, es: seq<Arrival>, at: seq<nat>)
    requires Numbered(h) && Allocated(start) && AllFrom(h, es, at) && Windowed(at)
    ensures RunFits(start, es) <==> NeverOverruns(h, es, at)
    ensures RunFits(start, es) ==> Agrees(h, Run(start, es), Counted(h, es, at))
  {
    hide Numbered, Agrees, ArrivalOf, AudioStep, StepFits, Admit, Overruns;
    if es == [] {
      NothingAgrees(h, start);
    } else {
      var n := |es| - 1;
      RunAgrees(h, start, es[..n], at[..n]);
      TopIsCounted(h, es[..n], at[..n]);
      if RunFits(start, es[..n]) {
        var a, t := Run(start, es[..n]), Counted(h, es[..n], at[..n]);
        StepFitsIff(h, a, t, es[n], at[n]);
        if StepFits(a.pack, es[n]) {
          StepAgrees(h, a, t, es[n], at[n]);
        }
      }
    }
  }

  /** Every write of the run stays inside the buffer if and only if no arrival
      completes a reported message for a k-th time with k times its size, and the
      terminator, longer than the data area. */
  lemma RunFitsIff(h: seq<Message>, start: Pack, es: seq<Arrival>, at: seq<nat>)
    requires Numbered(h) && Allocated(start) && AllFrom(h, es, at) && Windowed(at)
    ensures RunFits(start, es) <==> NeverOverruns(h, es, at)
  {
    RunAgrees(h, start, es, at);
  }

  // ---- The reports are numbered as they should be ----

  /** How many of the reports are of message j. */
  function ReportsOf(log: seq<Round>, j: nat): nat {
    if log == [] then 0
    else
      var n := |log| - 1;
      ReportsOf(log[..n], j) + (if log[n].at == j then 1 else 0)
  }

  /** Messages in order, and each entry the k-th of its message. */
  predicate WellKept(log: seq<Round>) {
    && (forall i, j | 0 <= i < j < |log| :: log[i].at <= log[j].at)
    && (forall i | 0 <= i < |log| :: log[i].k == ReportsOf(log[..i], log[i].at) + 1)
  }

  predicate Kept(t: Count) {
    && t.top >= -1
    && WellKept(t.log)
    && (forall i | 0 <= i < |t.log| :: t.log[i].at <= t.top)
    && (t.top >= 0 ==> t.rounds == ReportsOf(t.log, t.top))
  }

  lemma {:induction false} NoneOf(log: seq<Round>, j: nat)
    requires forall i | 0 <= i < |log| :: log[i].at != j
    ensures ReportsOf(log, j) == 0
  {
    if log != [] {
      NoneOf(log[..|log| - 1], j);
    }
  }

  lemma AppendKept(log: seq<Round>, j: nat, k: nat)
    requires WellKept(log) && k == ReportsOf(log, j) + 1
    requires forall i | 0 <= i < |log| :: log[i].at <= j
    ensures WellKept(log + [Round(j, k)]) && ReportsOf(log + [Round(j, k)], j) == k
  {
    var after := log + [Round(j, k)];
    assert after[..|log|] == log;
    forall i | 0 <= i < |after|
      ensures after[i].k == ReportsOf(after[..i], after[i].at) + 1
    {
      if i < |log| {
        assert after[..i] == log[..i];
      }
    }
  }

  lemma AdmitKept(h: seq<Message>, t: Count, j: nat, i: nat)
    requires j < |h| && Kept(t)
    ensures Kept(Admit(h, t, j, i))
  {
    hide WellKept, NoneMissing, ReportsOf;
    if j >= t.top {
      if j > t.top {
        NoneOf(t.log, j);
      }
      AppendKept(t.log, j, (if j == t.top then t.rounds else 0) + 1);
    }
  }

  lemma {:induction false} CountedKept(h: seq<Message>, es: seq<Arrival>, at: seq<nat>)
    requires AllFrom(h, es, at)
    ensures Kept(Counted(h, es, at))
  {
    hide Kept, Admit, ArrivalOf;
    if es == [] {
      NothingKept();
    } else {
      var n := |es| - 1;
      CountedKept(h, es[..n], at[..n]);
      AtExists(h, es, at);
      AdmitKept(h, Counted(h, es[..n], at[..n]), at[n], es[n].s.cur);
    }
  }

  lemma NothingKept()
    ensures Kept(NOTHING)
  {
  }

  lemma AtExists(h: seq<Message>, es: seq<Arrival>, at: seq<nat>)
    requires AllFrom(h, es, at)
    ensures forall k | 0 <= k < |at| :: at[k] < |h|
  {
  }

  /** Over any run inside the buffer, whatever is lost, repeated or reordered: the
      reports come in the order of the messages; the k-th report of a message has its
      bytes and k times its size; it is the message exactly when k is 1 or there was
      nothing to count. */
  lemma KthReport(h: seq<Message>, start: Pack, es: seq<Arrival>, at: seq<nat>, i: nat)
    requires Numbered(h) && Allocated(start) && AllFrom(h, es, at) && Windowed(at) && RunFits(start, es)
    requires i < |Run(start, es).reports|
    ensures var r, log := Run(start, es).reports, Counted(h, es, at).log;
            && |r| == |log|
            && log[i].at < |h| && (forall j | 0 <= j < i :: log[j].at <= log[i].at)
            && log[i].k == ReportsOf(log[..i], log[i].at) + 1
            && RoundReport(r[i], h[log[i].at], log[i].k)
            && (Delivers(r[i], h[log[i].at]) <==> log[i].k == 1 || h[log[i].at].data == [])
  {
    hide Numbered, ArrivalOf, Run, RunFits, Counted, Windowed, PartAfter, RoundReport, Delivers, NoneMissing, BufferSize.Shape;
    RunAgrees(h, start, es, at);
    CountedKept(h, es, at);
    var log := Counted(h, es, at).log;
    RoundReportExactIff(Run(start, es).reports[i], h[log[i].at], log[i].k);
  }

  /** No slice of the latest message arrives once that message has been reported. */
  predicate NoneAgain(h: seq<Message>, es: seq<Arrival>, at: seq<nat>)
    requires AllFrom(h, es, at)
  {
    es != [] ==>
      var n := |es| - 1;
      && NoneAgain(h, es[..n], at[..n])
      && (at[n] == Counted(h, es[..n], at[..n]).top ==> Counted(h, es[..n], at[..n]).rounds == 0)
  }

  predicate OnlyFirst(log: seq<Round>) {
    forall i | 0 <= i < |log| :: log[i].k == 1
  }

  lemma FirstFits(h: seq<Message>, a: Audio, t: Count, j: nat, i: nat)
    requires Agrees(h, a, t) && j < |h| && (j == t.top ==> t.rounds == 0)
    ensures !Overruns(h, t, j, i)
  {
    hide Holds, ReportsAre, NoneMissing, BufferSize.Shape;
    if j == t.top {
      HoldsRoom(a.pack, h[j]);
    }
  }

  lemma FirstOnly(h: seq<Message>, t: Count, j: nat, i: nat)
    requires j < |h| && OnlyFirst(t.log) && (j == t.top ==> t.rounds == 0)
    ensures OnlyFirst(Admit(h, t, j, i).log)
  {
    hide NoneMissing;
  }

  lemma {:induction false} RunWithoutRepeats(h: seq<Message>, start: Pack, es: seq<Arrival>, at: seq<nat>)
    requires Numbered(h) && Allocated(start) && AllFrom(h, es, at) && Windowed(at) && NoneAgain(h, es, at)
    ensures NeverOverruns(h, es, at) && OnlyFirst(Counted(h, es, at).log)
  {
    hide Numbered, Agrees, ArrivalOf, Run, RunFits, Admit, Overruns, OnlyFirst;
    if es == [] {
      NoReports();
    } else {
      var n := |es| - 1;
      RunWithoutRepeats(h, start, es[..n], at[..n]);
      RunAgrees(h, start, es[..n], at[..n]);
      AtExists(h, es, at);
      FirstFits(h, Run(start, es[..n]), Counted(h, es[..n], at[..n]), at[n], es[n].s.cur);
      FirstOnly(h, Counted(h, es[..n], at[..n]), at[n], es[n].s.cur);
    }
  }

  lemma NoReports()
    ensures OnlyFirst(NOTHING.log)
  {
  }

  /** Then every write stays inside the buffer, and the reports are messages, each at
      most once, in their order. */
  lemma ExactWithoutRepeats(h: seq<Message>, start: Pack, es: seq<Arrival>, at: seq<nat>)
    requires Numbered(h) && Allocated(start) && AllFrom(h, es, at) && Windowed(at) && NoneAgain(h, es, at)
    ensures RunFits(start, es)
    ensures var r, log := Run(start, es).reports, Counted(h, es, at).log;
            && |r| == |log|
            && (forall i | 0 <= i < |r| :: log[i].at < |h| && Delivers(r[i], h[log[i].at]))
            && (forall i, j | 0 <= i < j < |r| :: log[i].at < log[j].at)
  {
    hide Numbered, ArrivalOf, Run, RunFits, Counted, Windowed, NoneAgain, NeverOverruns, RoundReport, Delivers, ReportsOf,
      PartAfter, NoneMissing, BufferSize.Shape;
    RunWithoutRepeats(h, start, es, at);
    RunAgrees(h, start, es, at);
    CountedKept(h, es, at);
    var log := Counted(h, es, at).log;
    forall i | 0 <= i < |log|
      ensures Delivers(Run(start, es).reports[i], h[log[i].at])
    {
      KthReport(h, start, es, at, i);
    }
    forall i, j | 0 <= i < j < |log|
      ensures log[i].at < log[j].at
    {
      SomeOf(log[..j], i);
    }
  }

  lemma {:induction false} SomeOf(log: seq<Round>, i: nat)
    requires i < |log|
    ensures ReportsOf(log, log[i].at) >= 1
  {
    var n := |log| - 1;
    if i < n {
      SomeOf(log[..n], i);
    }
  }

  // ---- One datagram, several times ----

  function Copies(e: Arrival, n: nat): (es: seq<Arrival>)
    ensures |es| == n
    ensures forall k | 0 <= k < n :: es[k] == e
  {
    seq(n, _ => e)
  }

  function Zeros(n: nat): (at: seq<nat>)
    ensures |at| == n
    ensures forall k | 0 <= k < n :: at[k] == 0
  {
    seq(n, _ => 0)
  }

  function RoundsUpTo(n: nat): (log: seq<Round>)
    ensures |log| == n
    ensures forall i | 0 <= i < n :: log[i] == Round(0, i + 1)
  {
    seq(n, i requires 0 <= i < n => Round(0, i + 1))
  }

  lemma ZerosStep(e: Arrival, n: nat)
    requires n > 0
    ensures Copies(e, n)[..n - 1] == Copies(e, n - 1) && Zeros(n)[..n - 1] == Zeros(n - 1)
    ensures RoundsUpTo(n) == RoundsUpTo(n - 1) + [Round(0, n)]
  {
  }

  lemma {:induction false} CopiesWindowed(e: Arrival, n: nat)
    ensures Windowed(Zeros(n)) && Top(Zeros(n)) == if n == 0 then -1 else 0
  {
    if n > 0 {
      ZerosStep(e, n);
      CopiesWindowed(e, n - 1);
    }
  }

  lemma OneSliceCompletes(m: Message, s: Slice)
    requires IsSliceOf(m, UDP_PACKLENGTH, s) && m.slices == 1
    ensures s.cur == 0 && NoneMissing(m, {0}) && |m.data| <= UDP_PACKLENGTH
  {
    SliceCountIsCeiling(|m.data|, UDP_PACKLENGTH);
  }

  lemma {:induction false} CopiesCounted(m: Message, e: Arrival, n: nat)
    requires Numbered([m]) && ArrivalOf([m], e, 0) && m.slices == 1
    ensures AllFrom([m], Copies(e, n), Zeros(n))
    ensures Counted([m], Copies(e, n), Zeros(n))
         == if n == 0 then NOTHING else Count(0, {}, n, NOTHING.room, RoundsUpTo(n))
    ensures NeverOverruns([m], Copies(e, n), Zeros(n)) <==>
            n <= 1 || n * |m.data| + |TERMINATOR| <= NOTHING.room
  {
    hide NoneMissing, IsSliceOf;
    OneSliceCompletes(m, e.s);
    if n > 0 {
      ZerosStep(e, n);
      CopiesCounted(m, e, n - 1);
      assert {} + {0} == {0 as nat};
      MulMono(n - 1, n, |m.data|);
    }
  }

  /** A one-slice message whose datagram arrives n times is reported n times, the k-th
      with k times its size; and this stays inside the buffer exactly while n times
      its size and the terminator fit the 36840 bytes behind the header. */
  lemma CopiesFitIff(start: Pack, m: Message, e: Arrival, n: nat)
    requires Allocated(start) && Numbered([m]) && ArrivalOf([m], e, 0) && m.slices == 1
    ensures RunFits(start, Copies(e, n)) <==> n <= 1 || n * |m.data| + |TERMINATOR| <= 36840
    ensures RunFits(start, Copies(e, n)) ==>
              var r := Run(start, Copies(e, n)).reports;
              |r| == n && forall i | 0 <= i < n :: RoundReport(r[i], m, i + 1)
  {
    hide Run, RunFits, Counted, NeverOverruns, RoundReport, Numbered, ArrivalOf, PartAfter, Windowed;
    CopiesWindowed(e, n);
    CopiesCounted(m, e, n);
    RunAgrees([m], start, Copies(e, n), Zeros(n));
  }

  /** One duplicated datagram of 18419 bytes is enough to write past the end. */
  lemma OneDuplicateOverruns(start: Pack)
    requires Allocated(start)
    ensures var m := Message(0, TYPE_AUDIO, 1, 0, seq(18419, _ => 0));
            var e := Arrival(Slice(0, TYPE_AUDIO, 1, 0, 0, m.data), seq(AreaSize(1), _ => 0));
            && ArrivalOf([m], e, 0)
            && RunFits(start, Copies(e, 1)) && !RunFits(start, Copies(e, 2))
  {
    hide RunFits;
    var m := Message(0, TYPE_AUDIO, 1, 0, seq(18419, _ => 0));
    var e := Arrival(Slice(0, TYPE_AUDIO, 1, 0, 0, m.data), seq(AreaSize(1), _ => 0));
    assert Piece(m.data, 0, UDP_PACKLENGTH) == m.data;
    CopiesFitIff(start, m, e, 1);
    CopiesFitIff(start, m, e, 2);
  }

  /** The part of the class UdpCombinePackage that holds combineAudio. */
  class AudioCombine {
    const combineAudio: CombinePackage

    constructor ()
      ensures fresh(combineAudio) && fresh(combineAudio.mSlicesMask) && fresh(combineAudio.mAllBuffers)
      ensures combineAudio.Valid() && Allocated(combineAudio.Model)
    {
      combineAudio := new CombinePackage();
      new;
      combineAudio.AllocBuffer(AUDIO_BUFSIZE);
    }

    /** The InitPackage branch; fill stands for a new buffer that is not needed. */
    method Restart(s: Slice, ghost fill: seq<byte>) returns (ghost area: seq<byte>)
      requires combineAudio.Valid() && |fill| == AreaSize(s.slices)
      requires StartFits(s, UDP_PACKLENGTH, |Area(combineAudio.Model, Arrival(s, fill))|)
      modifies combineAudio, combineAudio.mSlicesMask, combineAudio.mAllBuffers
      ensures combineAudio.Valid()
      ensures combineAudio.mAllBuffers == old(combineAudio.mAllBuffers) || fresh(combineAudio.mAllBuffers)
      ensures |area| == AreaSize(s.slices)
      ensures |Area(old(combineAudio.Model), Arrival(s, area))| == |Area(old(combineAudio.Model), Arrival(s, fill))|
      ensures StartFits(s, UDP_PACKLENGTH, |Area(old(combineAudio.Model), Arrival(s, area))|)
      ensures combineAudio.Model == Start(s, UDP_PACKLENGTH, Area(old(combineAudio.Model), Arrival(s, area)))
    {
      hide Put, Start, StartFits, CombinePackage.Valid;
      ghost var before := combineAudio.Model;
      ValidSize(combineAudio);
      combineAudio.InitPackage(s, UDP_PACKLENGTH);
      ghost var left: seq<byte> :|
        && |left| + HEAD == combineAudio.mAllBufSize
        && (old(combineAudio.mAllBufSize) >= s.slices * UDP_PACKLENGTH ==> left == before.data)
        && StartFits(s, UDP_PACKLENGTH, |left|)
        && combineAudio.Model == Start(s, UDP_PACKLENGTH, left);
      area := if |left| == AreaSize(s.slices) then left else fill;
    }

    /** InitPackage or PutPackage, or nothing. area is what a buffer allocated here holds. */
    method Accept(s: Slice) returns (ghost area: seq<byte>)
      requires combineAudio.Valid() && combineAudio.Model.seqNo == combineAudio.seqNo
      requires forall fill: seq<byte> :: |fill| == AreaSize(s.slices) ==>
                 StepFits(combineAudio.Model, Arrival(s, fill))
      modifies combineAudio, combineAudio.mSlicesMask, combineAudio.mAllBuffers
      ensures combineAudio.Valid()
      ensures combineAudio.mAllBuffers == old(combineAudio.mAllBuffers) || fresh(combineAudio.mAllBuffers)
      ensures |area| == AreaSize(s.slices) && StepFits(old(combineAudio.Model), Arrival(s, area))
      ensures combineAudio.Model == Receive(old(combineAudio.Model), Arrival(s, area))
    {
      hide Put, Start, PutFits, StartFits, StepFits, Receive, CombinePackage.Valid;
      area := seq(AreaSize(s.slices), _ => 0);
      assert StepFits(combineAudio.Model, Arrival(s, area));
      ReceiveCases(combineAudio.Model, Arrival(s, area));
      if combineAudio.GetSeq() != s.seqNo {
        if TimeAfter(s.seqNo, combineAudio.GetSeq()) {
          area := Restart(s, area);
        }
      } else {
        var _ := combineAudio.PutPackage(s);
      }
    }

    /** report is what DoRecvUdpMessage is handed, if anything. */
    method OnAudioSlice(s: Slice) returns (report: Option<Pack>, ghost area: seq<byte>)
      requires combineAudio.Valid()
      requires forall fill: seq<byte> :: |fill| == AreaSize(s.slices) ==>
                 StepFits(combineAudio.Model, Arrival(s, fill))
      modifies combineAudio, combineAudio.mSlicesMask, combineAudio.mAllBuffers
      ensures combineAudio.Valid()
      ensures combineAudio.mAllBuffers == old(combineAudio.mAllBuffers) || fresh(combineAudio.mAllBuffers)
      ensures |area| == AreaSize(s.slices) && StepFits(old(combineAudio.Model), Arrival(s, area))
      ensures forall reports :: AudioStep(Audio(old(combineAudio.Model), reports), Arrival(s, area))
                == Audio(combineAudio.Model, reports + (if report.Some? then [report.value] else []))
    {
      hide StepFits, Receive;
      area := Accept(s);
      report := None;
      if combineAudio.Done() {
        report := Some(combineAudio.GetPackageData());
        combineAudio.ResetData();
      }
    }
  }

  lemma ReceiveCases(p: Pack, e: Arrival)
    requires StepFits(p, e)
    ensures p.seqNo == e.s.seqNo ==> PutFits(p, e.s) && Receive(p, e) == Put(p, e.s)
    ensures p.seqNo != e.s.seqNo && !TimeAfter(e.s.seqNo, p.seqNo) ==> Receive(p, e) == p
    ensures p.seqNo != e.s.seqNo && TimeAfter(e.s.seqNo, p.seqNo) ==>
              && (forall fill :: |Area(p, Arrival(e.s, fill))| == |Area(p, e)| ==>
                    && StepFits(p, Arrival(e.s, fill))
                    && Receive(p, Arrival(e.s, fill)) == Start(e.s, UDP_PACKLENGTH, Area(p, Arrival(e.s, fill))))
              && StartFits(e.s, UDP_PACKLENGTH, |Area(p, e)|)
              && Receive(p, e) == Start(e.s, UDP_PACKLENGTH, Area(p, e))
  {
  }

  lemma ValidSize(c: CombinePackage)
    requires c.Valid()
    ensures |c.Model.data| + HEAD == c.mAllBufSize
  {
  }
}
