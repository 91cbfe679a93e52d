/** The whole UDP video path as a transition system: a sender, a network that may
    lose, repeat and reorder, and a receiver that asks for what it misses. Each step
    is one call the source guards by a mutex. */
module UdpSystem {
  import opened Types
  import opened Serial
  import opened Packet
  import opened SliceMask
  import opened Reassembly
  import opened Reorder
  import opened Delivery
  import opened InOrder
  import opened SenderWindow
  import Recovery
  import BufferSize

  /** history is every message ever cached, reported every package ever handed up,
      wire every datagram ever sent and asked every request ever made: a datagram or
      a request stays available for ever, so delivering any of them at any time, or
      never, covers loss, repetition and reordering. */
  datatype Sys = Sys(history: seq<Message>, sender: Sender, wire: set<Slice>,
                     recv: Cache, asked: set<Request>, reported: seq<Pack>)

  datatype Action =
    | Submit(data: seq<byte>, time: i64)                      // UdpClient::Send
    | Transmit                                                // one turn of threadSend
    | Deliver(s: Slice, now: int, area: seq<byte>)            // OnUdpSliceReceived
    | Answer(r: Request)                                      // TYPE_UDP_REQUEST, TYPE_UDP_REQUEST2

  const INITIAL := Sys([], Sender(0, [], []), {}, Reorder.EMPTY, {}, [])

  /** A turn of the send thread is a step as long as the message it copies fits the
      thread's buffer; JobsFitIff says when that is. */
  predicate Enabled(sys: Sys, a: Action) {
    match a
    case Submit(data, _) => |sys.history| < MODULUS && |data| <= 255 * UDP_PACKLENGTH
    case Transmit => sys.sender.queue != [] && JobFits(sys.sender.cached, sys.sender.queue[0])
    case Deliver(s, _, area) => s in sys.wire && |area| == AreaSize(s.slices)
    case Answer(r) => r in sys.asked
  }

  // ---- The invariant ----

  /** Message k of the history carries number k and a slice count that fits. */
  predicate Recorded(history: seq<Message>) {
    && |history| <= MODULUS
    && (forall k | 0 <= k < |history| ::
          history[k].seqNo == k && history[k].typ == TYPE_VIDEO && Sliceable(history[k], UDP_PACKLENGTH))
  }

  predicate SliceFrom(history: seq<Message>, s: Slice) {
    s.seqNo < |history| && IsSliceOf(history[s.seqNo], UDP_PACKLENGTH, s)
  }

  predicate PartFrom(history: seq<Message>, p: Pack) {
    p.seqNo < |history| && Holds(p, history[p.seqNo], UDP_PACKLENGTH)
  }

  predicate WholeFrom(history: seq<Message>, p: Pack) {
    p.seqNo < |history| && Delivers(p, history[p.seqNo])
  }

  predicate Inv(sys: Sys) {
    && Recorded(sys.history)
    && sys.sender.next == Plus(0, |sys.history|)
    && sys.sender.cached == Last(sys.history, MAX_SIZE)
    && (forall job <- sys.sender.queue :: job.size == UDP_PACKLENGTH)
    && (forall s <- sys.wire :: SliceFrom(sys.history, s))
    && Reorder.Valid(sys.recv)
    && (forall p <- sys.recv.packs :: PartFrom(sys.history, p))
    && (forall p <- sys.reported :: WholeFrom(sys.history, p))
  }

  lemma WireWellFormed(history: seq<Message>, s: Slice)
    requires Recorded(history) && SliceFrom(history, s)
    ensures WellFormed(s)
  {
    PieceBounds(history[s.seqNo], s.cur, UDP_PACKLENGTH);
  }

  lemma CachedEmittable(sys: Sys)
    requires Inv(sys)
    ensures forall m <- sys.sender.cached :: Emittable(m, UDP_PACKLENGTH)
    ensures sys.sender.queue != [] ==> sys.sender.queue[0].size == UDP_PACKLENGTH
    ensures sys.sender.queue != [] ==> JobCuts(sys.sender.cached, sys.sender.queue[0])
  {
    forall m <- sys.sender.cached
      ensures Emittable(m, UDP_PACKLENGTH)
    {
      assert m in sys.history;
      SliceableEmittable(m, UDP_PACKLENGTH);
    }
    if sys.sender.queue != [] {
      assert sys.sender.queue[0].size == UDP_PACKLENGTH;
    }
  }

  function Apply(sys: Sys, a: Action): Sys
    requires Inv(sys) && Enabled(sys, a)
  {
    match a
    case Submit(data, time) =>
      var m := Packaged(sys.sender.next, TYPE_VIDEO, time, data, UDP_PACKLENGTH);
      var added := Add(sys.sender, TYPE_VIDEO, time, data, UDP_PACKLENGTH);
      sys.(history := sys.history + [m],
           sender := Enqueue(added, Job(UDP_PACKLENGTH, m.seqNo, Everything())))
    case Transmit =>
      CachedEmittable(sys);
      sys.(sender := sys.sender.(queue := sys.sender.queue[1..]),
           wire := sys.wire + set s <- Transmitted(sys.sender))
    case Deliver(s, now, area) =>
      WireWellFormed(sys.history, s);
      var o := Step(sys.recv, s, now, area);
      sys.(recv := o.cache, reported := sys.reported + o.reported,
           asked := sys.asked + (if o.request.Some? then {o.request.value} else {}))
    case Answer(r) =>
      match r
      case AskSlices(_, seqNo, missing) =>
        sys.(sender := Enqueue(sys.sender, Job(UDP_PACKLENGTH, seqNo, missing)))
      case AskRange(_, start, end, flag) =>
        sys.(sender := AddRange(sys.sender, UDP_PACKLENGTH, start, end, flag))
  }

  // ---- Every step keeps the invariant ----

  lemma SubmitKeepsInv(sys: Sys, data: seq<byte>, time: i64)
    requires Inv(sys) && Enabled(sys, Submit(data, time))
    ensures Inv(Apply(sys, Submit(data, time)))
  {
    hide Holds, Delivers, IsSliceOf, Reorder.Valid;
    var m := Packaged(sys.sender.next, TYPE_VIDEO, time, data, UDP_PACKLENGTH);
    PackagedSliceable(sys.sender.next, TYPE_VIDEO, time, data, UDP_PACKLENGTH);
    PlusFacts(0, |sys.history|, 0);
    SlideWindow(sys.history, m);
    assert Plus(0, |sys.history|) == |sys.history|;
  }

  lemma TransmitKeepsInv(sys: Sys)
    requires Inv(sys) && Enabled(sys, Transmit)
    ensures Inv(Apply(sys, Transmit))
  {
    hide Holds, Delivers, Reorder.Valid, Emitted;
    CachedEmittable(sys);
    var st := sys.sender;
    var i := Lookup(st.cached, st.queue[0].seqNo);
    if i < |st.cached| {
      var m := st.cached[i];
      assert m in sys.history;
      Recovery.EmittedAreSlices(m, UDP_PACKLENGTH, st.queue[0].mask);
      forall s <- Transmitted(st)
        ensures SliceFrom(sys.history, s)
      {
        assert s in Emitted(m, UDP_PACKLENGTH, st.queue[0].mask);
      }
    }
  }

  lemma AnswerKeepsInv(sys: Sys, r: Request)
    requires Inv(sys) && Enabled(sys, Answer(r))
    ensures Inv(Apply(sys, Answer(r)))
  {
    hide Holds, Delivers, Reorder.Valid, Picked;
  }

  lemma AbsorbParts(history: seq<Message>, c: Cache, s: Slice, area: seq<byte>)
    requires Recorded(history) && SliceFrom(history, s) && WellFormed(s) && |area| == AreaSize(s.slices)
    requires Reorder.Valid(c) && forall p <- c.packs :: PartFrom(history, p)
    ensures forall p <- Absorb(c, s, area).packs :: PartFrom(history, p)
  {
    hide Put, Start, TimeAfter, Distinct, Chained, Holds, IsSliceOf, PackOk, IndexOf, InsertPos, Sliceable;
    var i := IndexOf(c.packs, s.seqNo);
    if i < |c.packs| {
      assert PartFrom(history, c.packs[i]);
      PutHolds(c.packs[i], history[s.seqNo], UDP_PACKLENGTH, s);
      PutFitsOk(c.packs[i], s);
    } else {
      StartFitsOk(s, area);
      OpenedHolds(history[s.seqNo], s, area);
      HoldsNumber(Start(s, UDP_PACKLENGTH, area), history[s.seqNo], UDP_PACKLENGTH);
    }
  }

  lemma StepParts(history: seq<Message>, c: Cache, s: Slice, now: int, area: seq<byte>)
    requires Recorded(history) && SliceFrom(history, s) && WellFormed(s) && |area| == AreaSize(s.slices)
    requires Reorder.Valid(c) && forall p <- c.packs :: PartFrom(history, p)
    ensures forall p <- Step(c, s, now, area).cache.packs :: PartFrom(history, p)
    ensures forall p <- Step(c, s, now, area).reported :: WholeFrom(history, p)
  {
    AbsorbParts(history, c, s, area);
    AbsorbKeepsList(c, s, area);
    hide Absorb, Decide, PartFrom, Holds, ListOk, WellFormed, IsDone;
    var a := Absorb(c, s, area);
    if !a.ignored {
      var d := c.(packs := a.packs);
      var k, m := DecideShape(d, now);
      forall p <- Decide(d, now).reported
        ensures WholeFrom(history, p)
      {
        PartDone(history, p);
      }
    }
  }

  lemma PartDone(history: seq<Message>, p: Pack)
    requires PartFrom(history, p) && IsDone(p)
    ensures WholeFrom(history, p)
  {
    DoneDelivers(p, history[p.seqNo], UDP_PACKLENGTH);
  }

  lemma DeliverKeepsInv(sys: Sys, s: Slice, now: int, area: seq<byte>)
    requires Inv(sys) && Enabled(sys, Deliver(s, now, area))
    ensures Inv(Apply(sys, Deliver(s, now, area)))
  {
    WireWellFormed(sys.history, s);
    StepParts(sys.history, sys.recv, s, now, area);
    StepKeepsValid(sys.recv, s, now, area);
    hide Step, Reorder.Valid, PartFrom, WholeFrom, SliceFrom, WellFormed, Recorded, Last;
  }

  lemma ApplyKeepsInv(sys: Sys, a: Action)
    requires Inv(sys) && Enabled(sys, a)
    ensures Inv(Apply(sys, a))
  {
    hide Inv, Apply, Enabled;
    match a
    case Submit(data, time) => SubmitKeepsInv(sys, data, time);
    case Transmit => TransmitKeepsInv(sys);
    case Deliver(s, now, area) => DeliverKeepsInv(sys, s, now, area);
    case Answer(r) => AnswerKeepsInv(sys, r);
  }

  // ---- Runs ----

  /** Every action of the run was enabled when it was taken. */
  predicate Possible(run: seq<Action>)
    decreases |run|, 0
  {
    run != [] ==> Possible(Init(run)) && Enabled(State(Init(run)), Final(run))
  }

  /** The state a run leads to; it satisfies the invariant. */
  function State(run: seq<Action>): (sys: Sys)
    requires Possible(run)
    ensures Inv(sys)
    decreases |run|, 1
  {
    if run == [] then INITIAL
    else
      ApplyKeepsInv(State(Init(run)), Final(run));
      Apply(State(Init(run)), Final(run))
  }

  /** The last step of a run. */
  lemma OpenRun(run: seq<Action>)
    requires Possible(run)
    ensures run == [] ==> State(run) == INITIAL
    ensures run != [] ==>
              && Possible(Init(run)) && Enabled(State(Init(run)), Final(run))
              && State(run) == Apply(State(Init(run)), Final(run))
  {
    hide Inv, Apply, Enabled;
  }

  /** End-to-end integrity: in every reachable state, whatever was lost, repeated,
      reordered, resent, evicted or timed out, every package the receiver has
      handed up is the message its sender cached under that number: same type, time
      and size, same bytes, four zero bytes behind. */
  lemma EndToEndIntegrity(run: seq<Action>, i: nat)
    requires Possible(run) && i < |State(run).reported|
    ensures var p, sys := State(run).reported[i], State(run);
            && p.seqNo < |sys.history| && sys.history[p.seqNo].seqNo == p.seqNo
            && p.typ == sys.history[p.seqNo].typ && p.time == sys.history[p.seqNo].time
            && p.dataSize == |sys.history[p.seqNo].data| <= |p.data|
            && p.data[..p.dataSize] == sys.history[p.seqNo].data
            && Delivers(p, sys.history[p.seqNo])
  {
    var sys := State(run);
    var p := sys.reported[i];
    assert WholeFrom(sys.history, p);
    assert p.data[..p.dataSize] == p.data[..|sys.history[p.seqNo].data| + |TERMINATOR|][..p.dataSize];
  }

  /** No stale slice reached the receiver while its list was empty. */
  predicate NeverStale(run: seq<Action>)
    requires Possible(run)
  {
    run != [] ==>
      && NeverStale(Init(run))
      && (Final(run).Deliver? ==> !StaleOnEmpty(State(Init(run)).recv, Final(run).s))
  }

  // ---- The buffer of the send thread ----

  /** What SendPackageCache.TransmitNext asks for holds at every turn of the system. */
  lemma TurnIsSafe(sys: Sys)
    requires Inv(sys) && Enabled(sys, Transmit)
    ensures var job := sys.sender.queue[0];
            JobCuts(sys.sender.cached, job) && JobFits(sys.sender.cached, job) && job.size <= MAX_SOCKPACKAGE
  {
    CachedEmittable(sys);
  }

  predicate PayloadFits(n: nat) {
    HEAD + n <= THREAD_BUFFER
  }

  predicate SubmitsFit(run: seq<Action>) {
    forall i | 0 <= i < |run| :: run[i].Submit? ==> PayloadFits(|run[i].data|)
  }

  predicate JobsFit(sys: Sys) {
    forall job <- sys.sender.queue :: JobFits(sys.sender.cached, job)
  }

  /** In every state of the run, the last one included, every queued job fits. */
  predicate JobsAlwaysFit(run: seq<Action>)
    requires Possible(run)
  {
    JobsFit(State(run)) && (run != [] ==> JobsAlwaysFit(Init(run)))
  }

  lemma HistoryJobsFit(sys: Sys)
    requires Inv(sys) && forall m <- sys.history :: PayloadFits(|m.data|)
    ensures JobsFit(sys)
  {
    forall job <- sys.sender.queue
      ensures JobFits(sys.sender.cached, job)
    {
      var i := Lookup(sys.sender.cached, job.seqNo);
      if i < |sys.sender.cached| {
        assert sys.sender.cached[i] in sys.history;
      }
    }
  }

  // ---- What the sender puts on the wire ----

  /** The messages of the history are told apart by their numbers. */
  lemma CachedUnique(sys: Sys, m: Message)
    requires Inv(sys) && m in sys.sender.cached
    ensures m.seqNo < |sys.history| && sys.history[m.seqNo] == m && Sliceable(m, UDP_PACKLENGTH)
    ensures forall x <- sys.sender.cached :: x.seqNo == m.seqNo ==> x == m
  {
    hide Holds, Delivers, IsSliceOf, Reorder.Valid;
    forall x | x in sys.sender.cached
      ensures x.seqNo < |sys.history| && sys.history[x.seqNo] == x
    {
      assert x in sys.history;
    }
  }

  /** The turn on job k, for a cached message. */
  lemma TurnOn(sys: Sys, k: nat, m: Message)
    requires Inv(sys) && k < |sys.sender.queue| && m in sys.sender.cached && sys.sender.queue[k].seqNo == m.seqNo
    ensures JobCuts(sys.sender.cached, sys.sender.queue[k]) && Emittable(m, UDP_PACKLENGTH)
    ensures Recovery.Turn(sys.sender, k) == Emitted(m, UDP_PACKLENGTH, sys.sender.queue[k].mask)
  {
    CachedUnique(sys, m);
    SliceableEmittable(m, UDP_PACKLENGTH);
    Recovery.FoundInCache(sys.sender.cached, m);
    JobSize(sys, k);
    hide Inv, Emitted;
  }

  lemma JobSize(sys: Sys, k: nat)
    requires Inv(sys) && k < |sys.sender.queue|
    ensures sys.sender.queue[k].size == UDP_PACKLENGTH
  {
    assert sys.sender.queue[k] in sys.sender.queue;
  }

  lemma FullTurn(sys: Sys, k: nat, m: Message)
    requires Inv(sys) && k < |sys.sender.queue| && m in sys.sender.cached && sys.sender.queue[k].seqNo == m.seqNo
    requires sys.sender.queue[k].mask == Everything()
    ensures Sliceable(m, UDP_PACKLENGTH) && JobCuts(sys.sender.cached, sys.sender.queue[k])
    ensures Recovery.Turn(sys.sender, k) == Fragments(m, UDP_PACKLENGTH)
  {
    TurnOn(sys, k, m);
    CachedUnique(sys, m);
    forall i: nat | i < m.slices
      ensures i in Everything()
    {
      assert IsSlice(i);
    }
    FullSendIsFragments(m, UDP_PACKLENGTH, Everything());
  }

  /** What UdpClient::Send leaves behind: the new message, last in the history and cached. */
  lemma SubmittedIsCached(sys: Sys, data: seq<byte>, time: i64)
    requires Inv(sys) && Enabled(sys, Submit(data, time))
    ensures var after := Apply(sys, Submit(data, time));
            && Inv(after) && |after.history| == |sys.history| + 1 && sys.history == Init(after.history)
            && var m := Final(after.history);
               && m.seqNo == |sys.history| && m.typ == TYPE_VIDEO && m.data == data && m.time == time
               && m in after.sender.cached
               && |after.sender.queue| == |sys.sender.queue| + 1
               && Init(after.sender.queue) == sys.sender.queue && Final(after.sender.queue).seqNo == m.seqNo
  {
    SubmitKeepsInv(sys, data, time);
    hide Inv;
    var after := Apply(sys, Submit(data, time));
    NumbersFromZero(sys);
    LastIsCached(sys.sender, TYPE_VIDEO, time, data);
  }

  lemma NumbersFromZero(sys: Sys)
    requires Inv(sys) && |sys.history| < MODULUS
    ensures sys.sender.next == |sys.history|
  {
  }

  lemma LastIsCached(st: Sender, typ: u16, time: i64, data: seq<byte>)
    ensures Packaged(st.next, typ, time, data, UDP_PACKLENGTH) in Add(st, typ, time, data, UDP_PACKLENGTH).cached
  {
    var m := Packaged(st.next, typ, time, data, UDP_PACKLENGTH);
    var cached := Add(st, typ, time, data, UDP_PACKLENGTH).cached;
    assert cached[|cached| - 1] == m;
  }

  /** A submitted message is queued behind all other jobs, and the turn on its job emits
      exactly its slices, all of them in order. */
  lemma SubmitEmits(sys: Sys, data: seq<byte>, time: i64)
    requires Inv(sys) && Enabled(sys, Submit(data, time))
    ensures var after := Apply(sys, Submit(data, time));
            var st, k, m := after.sender, |sys.sender.queue|, Final(after.history);
            && |st.queue| == k + 1 && st.queue[..k] == sys.sender.queue
            && Sliceable(m, UDP_PACKLENGTH) && m.data == data && m.time == time
            && JobCuts(st.cached, st.queue[k])
            && Recovery.Turn(st, k) == Fragments(m, UDP_PACKLENGTH)
  {
    SubmittedIsCached(sys, data, time);
    var after := Apply(sys, Submit(data, time));
    QueuedMask(sys, data, time);
    hide Inv, Apply;
    FullTurn(after, |sys.sender.queue|, Final(after.history));
  }

  lemma QueuedMask(sys: Sys, data: seq<byte>, time: i64)
    requires Inv(sys) && Enabled(sys, Submit(data, time))
    ensures Final(Apply(sys, Submit(data, time)).sender.queue).mask == Everything()
  {
    hide Inv, Add;
  }

  /** A request for slices is answered, once its turn comes, with exactly the slices it
      asks for, or with a message of one slice whole, or with nothing when the message
      has left the cache. */
  lemma SlicesAnswered(sys: Sys, typ: u16, seqNo: u32, missing: set<nat>)
    requires Inv(sys) && Enabled(sys, Answer(AskSlices(typ, seqNo, missing)))
    ensures var st, k := Apply(sys, Answer(AskSlices(typ, seqNo, missing))).sender, |sys.sender.queue|;
            && |st.queue| == k + 1 && st.queue[..k] == sys.sender.queue && st.cached == sys.sender.cached
            && JobCuts(st.cached, st.queue[k])
            && (forall m <- st.cached | m.seqNo == seqNo ::
                  && Sliceable(m, UDP_PACKLENGTH)
                  && AllSlicesOf(m, UDP_PACKLENGTH, Recovery.Turn(st, k))
                  && (m.slices == 1 ==> Recovery.Turn(st, k) == Fragments(m, UDP_PACKLENGTH))
                  && (m.slices > 1 ==> forall i: nat | i < m.slices ::
                        Fragments(m, UDP_PACKLENGTH)[i] in Recovery.Turn(st, k) <==> i in missing))
            && ((forall m <- st.cached :: m.seqNo != seqNo) ==> Recovery.Turn(st, k) == [])
  {
    var a := Answer(AskSlices(typ, seqNo, missing));
    var after := Apply(sys, a);
    AnswerKeepsInv(sys, AskSlices(typ, seqNo, missing));
    SlicesQueued(sys, typ, seqNo, missing);
    var st, k := after.sender, |sys.sender.queue|;
    hide Inv, Apply, Emitted, Selected;
    forall m | m in st.cached && m.seqNo == seqNo
      ensures JobCuts(st.cached, st.queue[k]) && Sliceable(m, UDP_PACKLENGTH)
      ensures AllSlicesOf(m, UDP_PACKLENGTH, Recovery.Turn(st, k))
      ensures m.slices == 1 ==> Recovery.Turn(st, k) == Fragments(m, UDP_PACKLENGTH)
      ensures m.slices > 1 ==> forall i: nat | i < m.slices ::
                Fragments(m, UDP_PACKLENGTH)[i] in Recovery.Turn(st, k) <==> i in missing
    {
      TurnOn(after, k, m);
      CachedUnique(after, m);
      Recovery.EmittedAreSlices(m, UDP_PACKLENGTH, missing);
      EmittedPicks(m, missing);
    }
    if forall m <- st.cached :: m.seqNo != seqNo {
      NothingFound(st, k);
    }
  }

  lemma SlicesQueued(sys: Sys, typ: u16, seqNo: u32, missing: set<nat>)
    requires Inv(sys) && Enabled(sys, Answer(AskSlices(typ, seqNo, missing)))
    ensures var st, k := Apply(sys, Answer(AskSlices(typ, seqNo, missing))).sender, |sys.sender.queue|;
            && |st.queue| == k + 1 && st.queue[..k] == sys.sender.queue && st.cached == sys.sender.cached
            && st.queue[k].seqNo == seqNo && st.queue[k].mask == missing
  {
    hide Inv;
  }

  lemma EmittedPicks(m: Message, mask: set<nat>)
    requires Sliceable(m, UDP_PACKLENGTH)
    ensures Emittable(m, UDP_PACKLENGTH)
    ensures m.slices == 1 ==> Emitted(m, UDP_PACKLENGTH, mask) == Fragments(m, UDP_PACKLENGTH)
    ensures m.slices > 1 ==> forall i: nat | i < m.slices ::
              Fragments(m, UDP_PACKLENGTH)[i] in Emitted(m, UDP_PACKLENGTH, mask) <==> i in mask
  {
    SliceableEmittable(m, UDP_PACKLENGTH);
    if m.slices == 1 {
      SliceExists(m, 0, UDP_PACKLENGTH);
      assert Piece(m.data, 0, UDP_PACKLENGTH) == m.data;
    } else {
      SelectedIsSublist(m, UDP_PACKLENGTH, mask, m.slices);
    }
  }

  lemma NothingFound(st: Sender, k: nat)
    requires k < |st.queue| && forall m <- st.cached :: m.seqNo != st.queue[k].seqNo
    ensures JobCuts(st.cached, st.queue[k]) && Recovery.Turn(st, k) == []
  {
  }

  /** A request for a range queues one job for each cached message it picks, in their order,
      and the turn on each emits all slices of that message. */
  lemma RangeAnswered(sys: Sys, typ: u16, start: u32, end: u32, i: nat)
    requires Inv(sys) && Enabled(sys, Answer(AskRange(typ, start, end, 0)))
    requires i < |Picked(sys.sender.cached, start, end)|
    ensures var st, k := Apply(sys, Answer(AskRange(typ, start, end, 0))).sender, |sys.sender.queue|;
            var m := Picked(sys.sender.cached, start, end)[i];
            && st.queue[..k] == sys.sender.queue && st.cached == sys.sender.cached
            && |st.queue| == k + |Picked(sys.sender.cached, start, end)|
            && Sliceable(m, UDP_PACKLENGTH) && JobCuts(st.cached, st.queue[k + i])
            && Recovery.Turn(st, k + i) == Fragments(m, UDP_PACKLENGTH)
  {
    var r := AskRange(typ, start, end, 0);
    var after := Apply(sys, Answer(r));
    AnswerKeepsInv(sys, r);
    RangeQueued(sys, typ, start, end);
    hide Inv, Apply;
    var picked := Picked(sys.sender.cached, start, end);
    PickedAreCached(sys.sender.cached, start, end, i);
    FullTurn(after, |sys.sender.queue| + i, picked[i]);
  }

  lemma RangeQueued(sys: Sys, typ: u16, start: u32, end: u32)
    requires Inv(sys) && Enabled(sys, Answer(AskRange(typ, start, end, 0)))
    ensures var st, k := Apply(sys, Answer(AskRange(typ, start, end, 0))).sender, |sys.sender.queue|;
            var picked := Picked(sys.sender.cached, start, end);
            && st.cached == sys.sender.cached && |st.queue| == k + |picked| && st.queue[..k] == sys.sender.queue
            && forall i | 0 <= i < |picked| ::
                 st.queue[k + i].seqNo == picked[i].seqNo && st.queue[k + i].mask == Everything()
  {
    hide Inv;
    Recovery.NoFlags(sys.sender, start, end);
  }

  lemma {:induction false} PickedAreCached(cached: seq<Message>, start: u32, end: u32, i: nat)
    requires i < |Picked(cached, start, end)|
    ensures Picked(cached, start, end)[i] in cached
  {
    var n := |cached| - 1;
    if i < |Picked(cached[..n], start, end)| {
      PickedAreCached(cached[..n], start, end, i);
      assert Picked(cached[..n], start, end)[i] in cached[..n];
    }
  }

  /** The job that UdpClient::Send queues finds the very message it has just cached. */
  lemma SubmittedIsFound(sys: Sys, data: seq<byte>, time: i64)
    requires Inv(sys) && Enabled(sys, Submit(data, time))
    ensures var st := Apply(sys, Submit(data, time)).sender;
            && st.queue != []
            && (JobFits(st.cached, Final(st.queue)) <==> PayloadFits(|data|))
  {
    SubmittedIsCached(sys, data, time);
    var after := Apply(sys, Submit(data, time));
    hide Inv, Apply;
    CachedUnique(after, Final(after.history));
    Recovery.FoundInCache(after.sender.cached, Final(after.history));
  }

  /** From an idle sender the next turn is the one that copies it. */
  lemma NextTurnSafeIff(sys: Sys, data: seq<byte>, time: i64)
    requires Inv(sys) && Enabled(sys, Submit(data, time)) && sys.sender.queue == []
    ensures Enabled(Apply(sys, Submit(data, time)), Transmit) <==> |data| <= 2 * 1024 * 1024 - 24
  {
    SubmittedIsFound(sys, data, time);
    hide Inv, JobFits;
    assert |Apply(sys, Submit(data, time)).sender.queue| == 1;
  }

  lemma {:induction false} HistoryFits(run: seq<Action>)
    requires Possible(run) && SubmitsFit(run)
    ensures forall m <- State(run).history :: PayloadFits(|m.data|)
  {
    hide Inv, Apply, Enabled, State, Possible, PayloadFits;
    OpenRun(run);
    if run != [] {
      HistoryFits(Init(run));
      ApplyHistory(State(Init(run)), Final(run));
    }
  }

  /** Only a submission adds to the history. */
  lemma ApplyHistory(sys: Sys, a: Action)
    requires Inv(sys) && Enabled(sys, a)
    ensures match a
            case Submit(data, _) =>
              |Apply(sys, a).history| == |sys.history| + 1 && Init(Apply(sys, a).history) == sys.history
              && Final(Apply(sys, a).history).data == data
            case _ => Apply(sys, a).history == sys.history
  {
    hide Inv;
  }

  /** The exact bound: over a run every queued job fits the two MiB buffer if and only
      if no payload is longer than two MiB less the header, which is far below the 255
      slices a message may have. */
  lemma {:induction false} JobsFitIff(run: seq<Action>)
    requires Possible(run)
    ensures JobsAlwaysFit(run) <==> SubmitsFit(run)
  {
    hide Inv, JobFits, PayloadFits, Apply, Enabled;
    if run == [] {
      NothingQueued();
    } else {
      JobsFitIff(Init(run));
      if SubmitsFit(run) {
        HistoryFits(run);
        HistoryJobsFit(State(run));
      } else if SubmitsFit(Init(run)) {
        var a := Final(run);
        assert a.Submit?;
        LastSubmit(run);
      }
    }
  }

  lemma NothingQueued()
    ensures JobsFit(INITIAL)
  {
  }

  lemma LastSubmit(run: seq<Action>)
    requires Possible(run) && run != [] && Final(run).Submit? && !PayloadFits(|Final(run).data|)
    ensures !JobsFit(State(run))
  {
    hide Inv, JobFits, PayloadFits, Apply;
    SubmittedIsFound(State(Init(run)), Final(run).data, Final(run).time);
    var queue := State(run).sender.queue;
    assert Final(queue) in queue;
  }

  // ---- In-order delivery ----

  /** Reported numbers ascend, all before seqReport, which never outruns the sender. */
  predicate InSequence(sys: Sys) {
    && Live(sys.recv)
    && sys.recv.seqReport <= |sys.history|
    && (forall i | 0 <= i < |sys.reported| :: sys.reported[i].seqNo < sys.recv.seqReport)
    && (forall i, j | 0 <= i < j < |sys.reported| :: sys.reported[i].seqNo < sys.reported[j].seqNo)
  }

  lemma AheadIsDifference(r: u32, x: u32)
    requires r <= HALF && x < HALF && Ahead(r, x) < HALF
    ensures Ahead(r, x) == x - r
  {
  }

  /** What an orderly call means for plain numbers below 2^31. */
  lemma OrderlyNumbers(r: u32, o: Outcome, bound: nat)
    requires r <= bound <= HALF && Orderly(r, o)
    requires forall p <- o.reported :: p.seqNo < bound
    requires o.cache.seqReport <= bound
    requires o.cache.seqReport == r || o.cache.seqReport > 0
    ensures r <= o.cache.seqReport
    ensures forall i | 0 <= i < |o.reported| :: r <= o.reported[i].seqNo < o.cache.seqReport
    ensures forall i, j | 0 <= i < j < |o.reported| :: o.reported[i].seqNo < o.reported[j].seqNo
  {
    assert Ahead(r, o.cache.seqReport) == o.cache.seqReport - r;
    forall i | 0 <= i < |o.reported|
      ensures Ahead(r, o.reported[i].seqNo) == o.reported[i].seqNo - r
    {
      assert o.reported[i] in o.reported;
      AheadIsDifference(r, o.reported[i].seqNo);
    }
  }

  /** seqReport only ever moves just past a package of the history. */
  lemma ReportMovesPastListed(history: seq<Message>, c: Cache, s: Slice, now: int, area: seq<byte>)
    requires Recorded(history) && |history| <= HALF
    requires SliceFrom(history, s) && WellFormed(s) && |area| == AreaSize(s.slices)
    requires Reorder.Valid(c) && forall p <- c.packs :: PartFrom(history, p)
    ensures var r := Step(c, s, now, area).cache.seqReport;
            r == c.seqReport || 0 < r <= |history|
  {
    AbsorbParts(history, c, s, area);
    AbsorbKeepsList(c, s, area);
    hide Absorb, Decide, PartFrom, SliceFrom, Recorded, ListOk, WellFormed;
    var a := Absorb(c, s, area);
    if !a.ignored {
      DecideMovesPastListed(history, c.(packs := a.packs), now);
    }
  }

  lemma DecideMovesPastListed(history: seq<Message>, c: Cache, now: int)
    requires |history| <= HALF && c.packs != []
    requires forall p <- c.packs :: PartFrom(history, p)
    ensures var r := Decide(c, now).cache.seqReport;
            r == c.seqReport || 0 < r <= |history|
  {
    hide Decide, Holds, IsDone;
    var k, m := DecideShape(c, now);
    if m > 0 {
      assert PartFrom(history, c.packs[m - 1]);
    }
  }

  lemma DeliverInSequence(sys: Sys, s: Slice, now: int, area: seq<byte>)
    requires Inv(sys) && InSequence(sys) && |sys.history| <= HALF
    requires Enabled(sys, Deliver(s, now, area)) && !StaleOnEmpty(sys.recv, s)
    ensures InSequence(Apply(sys, Deliver(s, now, area)))
  {
    hide Step, Reorder.Valid, PartFrom, SliceFrom, Recorded, Last, Delivers, Holds, StaleOnEmpty;
    WireWellFormed(sys.history, s);
    StepOrderly(sys.recv, s, now, area);
    StepParts(sys.history, sys.recv, s, now, area);
    ReportMovesPastListed(sys.history, sys.recv, s, now, area);
    var o := Step(sys.recv, s, now, area);
    OrderlyNumbers(sys.recv.seqReport, o, |sys.history|);
  }

  /** While fewer than 2^31 messages have been sent and no stale slice has reached an
      empty list, the receiver hands up a strictly ascending subsequence of what was
      sent: nothing out of order, nothing twice. */
  lemma {:induction false} OrderedDelivery(run: seq<Action>)
    requires Possible(run) && NeverStale(run) && |State(run).history| <= HALF
    ensures InSequence(State(run))
  {
    hide Inv, Apply, Enabled, State, Possible, InSequence, StaleOnEmpty;
    OpenRun(run);
    if run == [] {
      NothingInSequence();
    } else {
      var sys := State(Init(run));
      var a := Final(run);
      HistoryGrows(sys, a);
      OrderedDelivery(Init(run));
      if a.Deliver? {
        DeliverInSequence(sys, a.s, a.now, a.area);
      } else {
        OthersKeepSequence(sys, a);
      }
    }
  }

  lemma NothingInSequence()
    ensures InSequence(INITIAL)
  {
  }

  lemma HistoryGrows(sys: Sys, a: Action)
    requires Inv(sys) && Enabled(sys, a)
    ensures |sys.history| <= |Apply(sys, a).history|
  {
    hide Inv;
  }

  /** Sender steps leave the receiver alone. */
  lemma OthersKeepSequence(sys: Sys, a: Action)
    requires Inv(sys) && Enabled(sys, a) && !a.Deliver? && InSequence(sys)
    ensures InSequence(Apply(sys, a))
  {
    hide Inv, Live;
    HistoryGrows(sys, a);
  }
}
