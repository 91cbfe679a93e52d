/** One loss-free resend completes a package: the mask of a TYPE_UDP_REQUEST, run
    through the sender's masked send, against the receiver's reassembly
    (socket/CombinePackage.cpp:126-130, socket/UdpCombinePackage.cpp:121-135,
    socket/TcpClient.cpp:561-569, socket/SendPackageCache.cpp:214-243). */
module Recovery {
  import opened Types
  import opened Packet
  import opened SliceMask
  import opened Reassembly
  import opened Reorder
  import opened SenderWindow
  import opened Serial
  import opened InOrder
  import opened Delivery
  import opened Lossless

  /** Whatever the mask, a sender only emits slices of the message. */
  lemma EmittedAreSlices(m: Message, size: nat, mask: set<nat>)
    requires Sliceable(m, size)
    ensures Emittable(m, size)
    ensures AllSlicesOf(m, size, Emitted(m, size, mask))
  {
    SliceableEmittable(m, size);
    var f := Fragments(m, size);
    if m.slices == 1 {
      SliceExists(m, 0, size);
      assert Piece(m.data, 0, size) == m.data;
    } else {
      SelectedIsSublist(m, size, mask, m.slices);
    }
  }

  /** The complement mask asks for exactly the slices that are missing. */
  lemma ComplementSelectsMissing(p: Pack, m: Message, size: nat, i: nat)
    requires Holds(p, m, size) && !IsDone(p) && i < m.slices
    ensures Emittable(m, size)
    ensures Fragments(m, size)[i] in Emitted(m, size, Everything() - p.got) <==> i !in p.got
  {
    SliceableEmittable(m, size);
    assert IsSlice(i);
    var f := Fragments(m, size);
    if m.slices == 1 {
      SliceExists(m, 0, size);
      assert Piece(m.data, 0, size) == m.data;
      DoneDelivers(p, m, size);
      assert Emitted(m, size, Everything() - p.got)[0] == f[0];
    } else {
      SelectedIsSublist(m, size, Everything() - p.got, m.slices);
    }
  }

  /** The resent slices, arriving in any order and any number of times, among any
      other slices of the message, complete the package and restore the message. */
  lemma ResendCompletes(p: Pack, m: Message, size: nat, arrivals: seq<Slice>)
    requires Holds(p, m, size) && !IsDone(p) && AllSlicesOf(m, size, arrivals)
    requires Emittable(m, size)
    requires forall s <- Emitted(m, size, Everything() - p.got) :: s in arrivals
    ensures IsDone(PutAll(p, arrivals, m, size))
    ensures Delivers(PutAll(p, arrivals, m, size), m)
  {
    hide Holds, Emitted, Delivers, IsDone;
    DeliveredWhenAllArrived(p, arrivals, m, size);
    forall i: nat | i < m.slices
      ensures i in p.got + Arrived(arrivals)
    {
      if i !in p.got {
        ComplementSelectsMissing(p, m, size, i);
        assert Fragments(m, size)[i].cur == i;
      }
    }
  }

  /** The slices the send thread emits in its k-th turn from now on: the turns before it
      only take jobs off the queue. */
  function Turn(st: Sender, k: nat): seq<Slice>
    requires k < |st.queue| && JobCuts(st.cached, st.queue[k])
  {
    Transmitted(st.(queue := st.queue[k..]))
  }

  /** The same across the protocol: when the receiver has just asked for slices and
      the message is still cached, the sender's turn on that request, wherever it stands
      in the queue, emits exactly what the front package is missing. */
  lemma RequestAnswered(c: Cache, now: int, st: Sender, k: nat, m: Message)
    requires Reorder.Valid(c) && c.packs != [] && Decide(c, now).request.Some?
    requires Decide(c, now).request.value.AskSlices?
    requires Holds(c.packs[0], m, UDP_PACKLENGTH)
    requires m in st.cached && (forall x <- st.cached :: x.seqNo == m.seqNo ==> x == m)
    requires var r := Decide(c, now).request.value;
             k < |st.queue| && st.queue[k] == Job(UDP_PACKLENGTH, r.seqNo, r.missing)
    ensures JobCuts(st.cached, st.queue[k])
    ensures AllSlicesOf(m, UDP_PACKLENGTH, Turn(st, k))
    ensures forall i: nat | i < m.slices ::
              Fragments(m, UDP_PACKLENGTH)[i] in Turn(st, k) <==> i !in c.packs[0].got
  {
    hide Emitted, Holds, IsDone, Everything, AllSlicesOf, Sliceable, Emittable;
    var p := c.packs[0];
    AskedOpenFront(c, now);
    HoldsNumber(p, m, UDP_PACKLENGTH);
    HoldsCuts(p, m);
    FoundInCache(st.cached, m);
    EmittedAreSlices(m, UDP_PACKLENGTH, Everything() - p.got);
    forall i: nat | i < m.slices
      ensures Fragments(m, UDP_PACKLENGTH)[i] in Turn(st, k) <==> i !in p.got
    {
      ComplementSelectsMissing(p, m, UDP_PACKLENGTH, i);
    }
  }

  lemma HoldsCuts(p: Pack, m: Message)
    requires Holds(p, m, UDP_PACKLENGTH)
    ensures Sliceable(m, UDP_PACKLENGTH) && Emittable(m, UDP_PACKLENGTH)
  {
    SliceableEmittable(m, UDP_PACKLENGTH);
  }

  lemma FoundInCache(cached: seq<Message>, m: Message)
    requires m in cached && (forall x <- cached :: x.seqNo == m.seqNo ==> x == m)
    ensures Lookup(cached, m.seqNo) < |cached| && cached[Lookup(cached, m.seqNo)] == m
  {
    var i := Lookup(cached, m.seqNo);
    if i < |cached| {
      assert cached[i] in cached;
    }
  }

  lemma AskedOpenFront(c: Cache, now: int)
    requires c.packs != [] && Decide(c, now).request.Some? && Decide(c, now).request.value.AskSlices?
    ensures var p, o := c.packs[0], Decide(c, now);
            && !IsDone(p) && c.seqReport == p.seqNo
            && o.request.value.seqNo == p.seqNo && o.request.value.missing == Everything() - p.got
            && o.cache == Asking(c, now) && o.reported == []
  {
  }

  // ---- Until the front package is reported ----

  /** The awaited message m stands at the front, incomplete, with budget left. */
  predicate FrontOpen(c: Cache, m: Message, got: set<nat>) {
    && c.packs != [] && c.seqReport == m.seqNo && c.retry < COUNT_RETRY
    && Holds(c.packs[0], m, UDP_PACKLENGTH) && c.packs[0].got == got
  }

  /** No further request is due. */
  predicate Prompt(run: seq<Arrival>, stamp: int) {
    forall i | 0 <= i < |run| :: run[i].now - stamp < INTERVAL_RETRY
  }

  lemma AbsorbFront(c: Cache, m: Message, a: Arrival) returns (q: Pack)
    requires Reorder.Valid(c) && c.packs != [] && Admissible(a) && IsSliceOf(m, UDP_PACKLENGTH, a.s)
    requires Holds(c.packs[0], m, UDP_PACKLENGTH)
    ensures Absorb(c, a.s, a.area) == Absorbed(c.packs[0 := q], [], false, false)
    ensures Holds(q, m, UDP_PACKLENGTH) && q.got == c.packs[0].got + {a.s.cur as nat}
    ensures Reorder.Valid(c.(packs := c.packs[0 := q]))
  {
    hide Put, Holds, PackOk, Chained, Distinct;
    HoldsNumber(c.packs[0], m, UDP_PACKLENGTH);
    PutHolds(c.packs[0], m, UDP_PACKLENGTH, a.s);
    AbsorbKeepsList(c, a.s, a.area);
    q := Put(c.packs[0], a.s);
  }

  lemma DecideFront(c: Cache, now: int)
    requires c.packs != [] && c.seqReport == c.packs[0].seqNo && c.retry < COUNT_RETRY
    requires now - c.stamp < INTERVAL_RETRY
    ensures var o := Decide(c, now);
            if IsDone(c.packs[0]) then o.reported != [] && o.reported[0] == c.packs[0]
            else o.reported == [] && o.cache == c
  {
  }

  lemma StepFront(c: Cache, m: Message, got: set<nat>, a: Arrival)
    requires Reorder.Valid(c) && FrontOpen(c, m, got) && Admissible(a) && IsSliceOf(m, UDP_PACKLENGTH, a.s)
    requires a.now - c.stamp < INTERVAL_RETRY
    ensures var o, more := Step(c, a.s, a.now, a.area), got + {a.s.cur as nat};
            if NoneMissing(m, more) then o.reported != [] && Delivers(o.reported[0], m)
            else o.reported == [] && FrontOpen(o.cache, m, more) && o.cache.stamp == c.stamp
  {
    hide Absorb, Decide, Holds, IsDone, Delivers, NoneMissing, IsSliceOf, ListOk;
    var q := AbsorbFront(c, m, a);
    HoldsNumber(q, m, UDP_PACKLENGTH);
    DoneDelivers(q, m, UDP_PACKLENGTH);
    DecideFront(c.(packs := c.packs[0 := q]), a.now);
  }

  lemma {:induction false} FrontRun(c: Cache, m: Message, got: set<nat>, run: seq<Arrival>)
    requires Reorder.Valid(c) && FrontOpen(c, m, got) && SlicesOf(run, m) && Prompt(run, c.stamp)
    requires !NoneMissing(m, got)
    ensures if NoneMissing(m, got + Came(run)) then Reported(c, run) != [] && Delivers(Reported(c, run)[0], m)
            else FrontOpen(After(c, run), m, got + Came(run)) && After(c, run).stamp == c.stamp && Reported(c, run) == []
  {
    hide Step, Reorder.Valid, FrontOpen, IsSliceOf, Admissible, Delivers, Came;
    if run == [] {
      NothingCame();
      assert got + {} == got;
    } else {
      var a := Final(run);
      CameLast(run);
      FrontRun(c, m, got, Init(run));
      var before := got + Came(Init(run));
      assert got + Came(run) == before + {a.s.cur as nat};
      if !NoneMissing(m, before) {
        StepFront(After(c, Init(run)), m, before, a);
      } else {
        MoreMissingLess(m, before, got + Came(run));
      }
    }
  }

  lemma NothingCame()
    ensures Came([]) == {}
  {
  }

  lemma MoreMissingLess(m: Message, x: set<nat>, y: set<nat>)
    requires NoneMissing(m, x) && x <= y
    ensures NoneMissing(m, y)
  {
  }

  /** From the request to the report: the receiver has asked for slices with budget left,
      the sender's turn on the request emits what is missing, and those slices, in any
      order among any other slices of the message and before a further request is due,
      make the receiver hand the message up, ahead of everything else it reports. */
  lemma RequestLeadsToReport(c: Cache, now: int, st: Sender, k: nat, m: Message, run: seq<Arrival>)
    requires Reorder.Valid(c) && c.packs != [] && Decide(c, now).request.Some?
    requires Decide(c, now).request.value.AskSlices? && c.retry + 1 < COUNT_RETRY
    requires Holds(c.packs[0], m, UDP_PACKLENGTH)
    requires m in st.cached && (forall x <- st.cached :: x.seqNo == m.seqNo ==> x == m)
    requires var r := Decide(c, now).request.value;
             k < |st.queue| && st.queue[k] == Job(UDP_PACKLENGTH, r.seqNo, r.missing)
    requires SlicesOf(run, m) && Prompt(run, now)
    requires JobCuts(st.cached, st.queue[k]) ==> forall s <- Turn(st, k) :: s in Slices(run)
    ensures Reorder.Valid(Decide(c, now).cache)
    ensures var reported := Reported(Decide(c, now).cache, run);
            reported != [] && Delivers(reported[0], m)
  {
    hide Holds, Decide, IsDone, Delivers, After, Reported, Turn, JobCuts, IsSliceOf, Admissible;
    var p := c.packs[0];
    RequestAnswered(c, now, st, k, m);
    AskedOpenFront(c, now);
    HoldsNumber(p, m, UDP_PACKLENGTH);
    HoldsCuts(p, m);
    DoneDelivers(p, m, UDP_PACKLENGTH);
    var asked := Asking(c, now);
    FrontRun(asked, m, p.got, run);
    forall i: nat | i < m.slices
      ensures i in p.got + Came(run)
    {
      if i !in p.got {
        var s := Fragments(m, UDP_PACKLENGTH)[i];
        assert s in Slices(run) && s.cur == i;
      }
    }
  }

  /** The fifth request comes too late unless a single slice was missing: the very next
      slice of the message either completes the package, which is reported, or the
      package is deleted. */
  lemma LastRequestIff(c: Cache, m: Message, a: Arrival)
    requires Reorder.Valid(c) && c.packs != [] && c.retry == COUNT_RETRY
    requires Holds(c.packs[0], m, UDP_PACKLENGTH) && Admissible(a) && IsSliceOf(m, UDP_PACKLENGTH, a.s)
    ensures var o := Step(c, a.s, a.now, a.area);
            if NoneMissing(m, c.packs[0].got + {a.s.cur as nat})
            then o.reported != [] && Delivers(o.reported[0], m)
            else o.expired != [] && o.expired[0].seqNo == m.seqNo && o.expired[0].got == c.packs[0].got + {a.s.cur as nat}
  {
    hide Absorb, Decide, Holds, IsDone, Delivers, NoneMissing, IsSliceOf, ListOk;
    var q := AbsorbFront(c, m, a);
    HoldsNumber(q, m, UDP_PACKLENGTH);
    DoneDelivers(q, m, UDP_PACKLENGTH);
    var d := c.(packs := c.packs[0 := q]);
    var k, n := TimeoutShape(d, a.now);
  }

  // ---- When the receiver asks, and for what ----

  /** A call asks exactly when the budget is not spent, the last request is old enough,
      and either messages before the front one are missing, or the front one is
      incomplete while a later one is already whole. */
  lemma RequestIff(c: Cache, now: int)
    requires Reorder.Valid(c) && c.packs != []
    ensures Decide(c, now).request.Some? <==>
              && c.retry < 5 && now - c.stamp >= 100_000
              && (c.seqReport != c.packs[0].seqNo || (!IsDone(c.packs[0]) && exists p <- c.packs :: IsDone(p)))
    ensures Decide(c, now).request.Some? ==>
              (Decide(c, now).request.value.AskRange? <==> c.seqReport != c.packs[0].seqNo)
  {
    var i := FirstDone(c.packs);
    if i < |c.packs| {
      assert IsDone(c.packs[i]);
    }
  }

  /** What a request says: the kind of data, and for a range the numbers from the awaited
      one up to the front package, all of them and no others, without flags; for slices
      the front package and what it is missing. */
  lemma RequestSays(c: Cache, now: int)
    requires Reorder.Valid(c) && c.packs != [] && Decide(c, now).request.Some?
    ensures match Decide(c, now).request.value
            case AskRange(typ, start, end, flag) =>
              && typ == TYPE_VIDEO && flag == 0
              && forall n: u32 :: InSerialRange(start, end, n) <==>
                                  Ahead(c.seqReport, n) < Ahead(c.seqReport, c.packs[0].seqNo)
            case AskSlices(typ, seqNo, missing) =>
              && typ == c.packs[0].typ && seqNo == c.packs[0].seqNo == c.seqReport
              && forall i: nat :: i in missing <==> i < 256 && i !in c.packs[0].got
  {
    forall i: nat
      ensures i in Everything() <==> i < 256
    {
      assert i < 256 ==> IsSlice(i);
    }
  }

  /** A range request names the numbers from the awaited one up to the front package:
      no package in the list has a number in that range. */
  lemma RangeAsksForNoneListed(c: Cache, now: int)
    requires Reorder.Valid(c) && c.packs != [] && Live(c)
    requires Decide(c, now).request.Some? && Decide(c, now).request.value.AskRange?
    ensures var r := Decide(c, now).request.value;
            && InSerialRange(r.start, r.end, c.seqReport)
            && forall p <- c.packs :: !InSerialRange(r.start, r.end, p.seqNo)
  {
    var r := Decide(c, now).request.value;
    assert r.start == c.seqReport && r.end == c.packs[0].seqNo;
    forall i | 0 <= i < |c.packs|
      ensures Ahead(r.start, c.packs[i].seqNo) >= Ahead(r.start, r.end)
    {
      if i > 0 {
        WindowTotallyOrdered(c.packs, c.seqReport, 0, i);
      }
    }
  }

  lemma {:induction false} WantedMembers(cached: seq<Message>, start: u32, end: u32, m: Message)
    ensures m in Wanted(cached, start, end) <==> m in cached && InSerialRange(start, end, m.seqNo)
  {
    if cached != [] {
      var n := |cached| - 1;
      WantedMembers(cached[..n], start, end, m);
      assert cached == cached[..n] + [cached[n]];
    }
  }

  /** The answer to a range request: a job for all slices of every cached message the
      receiver is missing before its front package, and for nothing it has listed,
      exactly when the range does not wrap past 2^32 or there is nothing to send. */
  lemma RangeRequestAnswered(c: Cache, now: int, st: Sender)
    requires Reorder.Valid(c) && c.packs != [] && Live(c)
    requires Decide(c, now).request.Some? && Decide(c, now).request.value.AskRange?
    ensures var r := Decide(c, now).request.value;
            var wanted := Wanted(st.cached, r.start, r.end);
            && (AddRange(st, UDP_PACKLENGTH, r.start, r.end, r.flag).queue == st.queue + Jobs(UDP_PACKLENGTH, wanted)
                <==> c.seqReport <= c.packs[0].seqNo || wanted == [])
            && (forall m :: m in wanted <==>
                  m in st.cached && Ahead(c.seqReport, m.seqNo) < Ahead(c.seqReport, c.packs[0].seqNo))
            && forall m <- wanted, p <- c.packs :: p.seqNo != m.seqNo
  {
    var r := Decide(c, now).request.value;
    var wanted := Wanted(st.cached, r.start, r.end);
    RangeAsksForNoneListed(c, now);
    RequestSays(c, now);
    forall m
      ensures m in wanted <==> m in st.cached && InSerialRange(r.start, r.end, m.seqNo)
    {
      WantedMembers(st.cached, r.start, r.end, m);
    }
    NoFlags(st, r.start, r.end);
    RangeJobs(st, r.start, r.end);
  }

  lemma NoFlags(st: Sender, start: u32, end: u32)
    ensures AddRange(st, UDP_PACKLENGTH, start, end, 0).queue
         == st.queue + Jobs(UDP_PACKLENGTH, Picked(st.cached, start, end))
  {
  }

  lemma RangeJobs(st: Sender, start: u32, end: u32)
    ensures st.queue + Jobs(UDP_PACKLENGTH, Picked(st.cached, start, end))
         == st.queue + Jobs(UDP_PACKLENGTH, Wanted(st.cached, start, end))
         <==> start <= end || Wanted(st.cached, start, end) == []
  {
    if start <= end {
      PickedIsWanted(st.cached, start, end);
    } else {
      WrappedPicksNothing(st.cached, start, end);
    }
  }
}
