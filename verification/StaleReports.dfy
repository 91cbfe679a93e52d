/** What becomes of a slice from before seqReport that reaches an empty list, where
    the stale filter is not applied (socket/UdpCombinePackage.cpp:82-90): its package can be
    completed, outlasts the five requests, and is reported late or a second time. */
module StaleReports {
  import opened Types
  import opened Serial
  import opened Packet
  import opened Reassembly
  import opened Reorder
  import opened Delivery
  import opened InOrder
  import opened Lossless

  /** The list is one package with part of m, and m is not the awaited message. */
  predicate Alone(d: Cache, m: Message) {
    |d.packs| == 1 && Holds(d.packs[0], m, UDP_PACKLENGTH) && d.seqReport != m.seqNo
  }

  function Memory(n: nat): (area: seq<byte>)
    ensures |area| == AreaSize(n)
  {
    seq(AreaSize(n), _ => 0)
  }

  /** The same slice again and again, at the first moments a request is due. */
  function Spaced(s: Slice, stamp: int, n: nat): (run: seq<Arrival>)
    ensures |run| == n
    ensures forall i | 0 <= i < n ::
              run[i] == Arrival(s, stamp + (i + 1) * INTERVAL_RETRY, Memory(s.slices))
  {
    seq(n, i requires 0 <= i < n => Arrival(s, stamp + (i + 1) * INTERVAL_RETRY, Memory(s.slices)))
  }

  // ---- One call ----

  lemma SliceFacts(m: Message, s: Slice)
    requires IsSliceOf(m, UDP_PACKLENGTH, s)
    ensures s.seqNo == m.seqNo && s.slices == m.slices && s.cur < m.slices && WellFormed(s)
  {
    PieceBounds(m, s.cur, UDP_PACKLENGTH);
  }

  lemma AbsorbAlone(d: Cache, m: Message, a: Arrival) returns (q: Pack)
    requires Valid(d) && Admissible(a) && IsSliceOf(m, UDP_PACKLENGTH, a.s) && Alone(d, m)
    ensures Absorb(d, a.s, a.area) == Absorbed([q], [], false, false)
    ensures Holds(q, m, UDP_PACKLENGTH) && q.got == d.packs[0].got + {a.s.cur as nat}
    ensures IsDone(d.packs[0]) ==> q == d.packs[0]
  {
    hide Put, Holds, PackOk, IsSliceOf;
    SliceFacts(m, a.s);
    HoldsNumber(d.packs[0], m, UDP_PACKLENGTH);
    PutHolds(d.packs[0], m, UDP_PACKLENGTH, a.s);
    DoneDelivers(d.packs[0], m, UDP_PACKLENGTH);
    q := Put(d.packs[0], a.s);
  }

  /** What the rest of the call does with a single package that is not awaited. */
  lemma DecideAlone(d: Cache, now: int)
    requires |d.packs| == 1 && d.seqReport != d.packs[0].seqNo
    ensures var o, p := Decide(d, now), d.packs[0];
            if d.retry < COUNT_RETRY
            then o.reported == [] && o.cache == (if Due(d, now) then Asking(d, now) else d)
            else o.cache == Cache([], Next(p.seqNo), 0, d.stamp) && o.reported == (if IsDone(p) then [p] else [])
  {
    hide IsDone;
  }

  lemma StepAlone(d: Cache, m: Message, a: Arrival) returns (q: Pack)
    requires Valid(d) && Admissible(a) && IsSliceOf(m, UDP_PACKLENGTH, a.s) && Alone(d, m)
    ensures Holds(q, m, UDP_PACKLENGTH) && q.got == d.packs[0].got + {a.s.cur as nat}
    ensures IsDone(d.packs[0]) ==> q == d.packs[0]
    ensures var o, e := Step(d, a.s, a.now, a.area), d.(packs := [q]);
            if d.retry < COUNT_RETRY
            then o.reported == [] && o.cache == (if Due(d, a.now) then Asking(e, a.now) else e)
            else o.cache == Cache([], Next(m.seqNo), 0, d.stamp) && o.reported == (if IsDone(q) then [q] else [])
  {
    hide Absorb, Decide, Holds, IsDone, IsSliceOf, Admissible;
    q := AbsorbAlone(d, m, a);
    HoldsNumber(q, m, UDP_PACKLENGTH);
    DecideAlone(d.(packs := [q]), a.now);
  }

  // ---- Continuations ----

  lemma OneThen(d: Cache, a: Arrival, run: seq<Arrival>)
    requires Valid(d) && Admissible(a) && AllAdmissible(run)
    ensures Valid(Step(d, a.s, a.now, a.area).cache)
    ensures AllAdmissible([a] + run)
    ensures var o := Step(d, a.s, a.now, a.area);
            && After(d, [a] + run) == After(o.cache, run)
            && Reported(d, [a] + run) == o.reported + Reported(o.cache, run)
  {
    hide Step, ListOk;
    StepKeepsValid(d, a.s, a.now, a.area);
    OneCall(d, a);
    RunsConcat(d, [a], run);
  }

  lemma SpacedStep(s: Slice, stamp: int, n: nat)
    requires n > 0
    ensures Spaced(s, stamp, n)
         == [Arrival(s, stamp + INTERVAL_RETRY, Memory(s.slices))] + Spaced(s, stamp + INTERVAL_RETRY, n - 1)
  {
  }

  lemma NoCalls(d: Cache)
    requires Valid(d)
    ensures AllAdmissible([]) && After(d, []) == d && Reported(d, []) == []
  {
  }

  /** A complete package that is not awaited spends what is left of the budget and is
      then reported, on nothing but repetitions of a slice it already has. */
  lemma {:induction false} ParkedIsReported(d: Cache, m: Message, s: Slice)
    requires Valid(d) && Alone(d, m) && IsDone(d.packs[0]) && IsSliceOf(m, UDP_PACKLENGTH, s)
    ensures AllAdmissible(Spaced(s, d.stamp, 6 - d.retry))
    ensures Reported(d, Spaced(s, d.stamp, 6 - d.retry)) == d.packs
    ensures After(d, Spaced(s, d.stamp, 6 - d.retry)).packs == []
    decreases COUNT_RETRY - d.retry
  {
    hide Step, Holds, IsDone, IsSliceOf, ListOk, After, Reported, Spaced, Memory;
    SliceFacts(m, s);
    var a := Arrival(s, d.stamp + INTERVAL_RETRY, Memory(s.slices));
    var q := StepAlone(d, m, a);
    var o := Step(d, a.s, a.now, a.area);
    StepKeepsValid(d, a.s, a.now, a.area);
    SpacedStep(s, d.stamp, 6 - d.retry);
    if d.retry < COUNT_RETRY {
      ParkedIsReported(o.cache, m, s);
      OneThen(d, a, Spaced(s, o.cache.stamp, 6 - o.cache.retry));
    } else {
      NoCalls(o.cache);
      SpacedNone(s, d.stamp + INTERVAL_RETRY);
      OneThen(d, a, []);
    }
  }

  lemma SpacedNone(s: Slice, stamp: int)
    ensures Spaced(s, stamp, 0) == []
  {
  }

  predicate GotBelow(p: Pack, i: nat) {
    forall j: nat | j < i :: j in p.got
  }

  lemma FragmentArrival(m: Message, i: nat, now: int) returns (a: Arrival)
    requires Sliceable(m, UDP_PACKLENGTH) && i < m.slices
    ensures Admissible(a) && a.now == now && IsSliceOf(m, UDP_PACKLENGTH, a.s) && a.s.cur == i
  {
    var s := Fragments(m, UDP_PACKLENGTH)[i];
    SliceFacts(m, s);
    a := Arrival(s, now, Memory(s.slices));
  }

  /** While no request is due, the remaining slices complete the package. */
  lemma {:induction false} FeedRest(d: Cache, m: Message, i: nat) returns (run: seq<Arrival>, e: Cache)
    requires Valid(d) && Alone(d, m) && d.retry < COUNT_RETRY
    requires i <= m.slices && GotBelow(d.packs[0], i)
    ensures SlicesOf(run, m) && Valid(e) && After(d, run) == e && Reported(d, run) == []
    ensures Alone(e, m) && IsDone(e.packs[0])
    decreases m.slices - i
  {
    hide Step, Holds, IsDone, IsSliceOf, Admissible, ListOk, After, Reported, Sliceable;
    HoldsSliceable(d.packs[0], m);
    if i == m.slices {
      DoneDelivers(d.packs[0], m, UDP_PACKLENGTH);
      NoCalls(d);
      run, e := [], d;
    } else {
      var a := FragmentArrival(m, i, d.stamp);
      var q := StepAlone(d, m, a);
      var o := Step(d, a.s, a.now, a.area);
      StepKeepsValid(d, a.s, a.now, a.area);
      var rest;
      rest, e := FeedRest(o.cache, m, i + 1);
      OneThen(d, a, rest);
      run := [a] + rest;
    }
  }

  lemma HoldsSliceable(p: Pack, m: Message)
    requires Holds(p, m, UDP_PACKLENGTH)
    ensures Sliceable(m, UDP_PACKLENGTH) && m.slices >= 1
  {
    SliceCountIsCeiling(|m.data|, UDP_PACKLENGTH);
  }

  /** The run reports exactly one package, and it is m. */
  predicate ReportsOnly(d: Cache, run: seq<Arrival>, m: Message)
    requires Valid(d) && AllAdmissible(run)
  {
    |Reported(d, run)| == 1 && Delivers(Reported(d, run)[0], m)
  }

  lemma FinishAlone(d: Cache, m: Message) returns (run: seq<Arrival>)
    requires Valid(d) && Alone(d, m) && d.retry < COUNT_RETRY
    ensures SlicesOf(run, m) && ReportsOnly(d, run, m)
  {
    hide Step, Holds, IsDone, IsSliceOf, Admissible, ListOk, After, Reported, Spaced, Delivers;
    var first, e := FeedRest(d, m, 0);
    HoldsSliceable(e.packs[0], m);
    DoneDelivers(e.packs[0], m, UDP_PACKLENGTH);
    var a := FragmentArrival(m, 0, 0);
    var last := Spaced(a.s, e.stamp, 6 - e.retry);
    ParkedIsReported(e, m, a.s);
    RunsConcat(d, first, last);
    run := first + last;
  }

  lemma FinishEmpty(d: Cache, m: Message) returns (run: seq<Arrival>)
    requires Valid(d) && d.packs == [] && d.retry < COUNT_RETRY && d.seqReport != m.seqNo
    requires Sliceable(m, UDP_PACKLENGTH)
    ensures SlicesOf(run, m) && ReportsOnly(d, run, m)
  {
    hide Step, Holds, IsDone, IsSliceOf, Admissible, ListOk, After, Reported, Delivers, Sliceable;
    OneSliceAtLeast(m);
    var a := FragmentArrival(m, 0, d.stamp);
    var q := StepEmpty(d, m, a);
    var o := Step(d, a.s, a.now, a.area);
    StepKeepsValid(d, a.s, a.now, a.area);
    var rest := FinishAlone(o.cache, m);
    OneThen(d, a, rest);
    run := [a] + rest;
  }

  lemma OneSliceAtLeast(m: Message)
    requires Sliceable(m, UDP_PACKLENGTH)
    ensures m.slices >= 1
  {
    SliceCountIsCeiling(|m.data|, UDP_PACKLENGTH);
  }

  /** The first slice of a message that is not awaited, on an empty list. */
  lemma StepEmpty(d: Cache, m: Message, a: Arrival) returns (q: Pack)
    requires Valid(d) && d.packs == [] && d.seqReport != m.seqNo
    requires Admissible(a) && IsSliceOf(m, UDP_PACKLENGTH, a.s)
    ensures Holds(q, m, UDP_PACKLENGTH)
    ensures var o, e := Step(d, a.s, a.now, a.area), d.(packs := [q]);
            if d.retry < COUNT_RETRY
            then o.reported == [] && o.cache == (if Due(d, a.now) then Asking(e, a.now) else e)
            else o.cache == Cache([], Next(m.seqNo), 0, d.stamp) && o.reported == (if IsDone(q) then [q] else [])
  {
    hide Absorb, Decide, Holds, IsDone, IsSliceOf, Start, StartFits;
    SliceFacts(m, a.s);
    OpenedHolds(m, a.s, a.area);
    q := Start(a.s, UDP_PACKLENGTH, a.area);
    InsertedAlone(d, a);
    HoldsNumber(q, m, UDP_PACKLENGTH);
    DecideAlone(d.(packs := [q]), a.now);
  }

  lemma InsertedAlone(d: Cache, a: Arrival)
    requires Valid(d) && d.packs == [] && Admissible(a)
    ensures StartFits(a.s, UDP_PACKLENGTH, |a.area|)
    ensures Absorb(d, a.s, a.area) == Absorbed([Start(a.s, UDP_PACKLENGTH, a.area)], [], true, false)
  {
    StartFitsOk(a.s, a.area);
    hide Start;
    var q := Start(a.s, UDP_PACKLENGTH, a.area);
    assert [] + [q] + [] == [q];
  }

  lemma NextIsNot(n: u32)
    ensures Next(n) != n
  {
  }

  /** Whatever slice a call leaves the package of m with, alone in the list. */
  lemma FinishAny(d: Cache, m: Message) returns (run: seq<Arrival>)
    requires Valid(d) && Alone(d, m)
    ensures SlicesOf(run, m) && ReportsOnly(d, run, m)
  {
    hide Step, Holds, IsDone, IsSliceOf, Admissible, ListOk, After, Reported, Delivers, Sliceable, Next;
    HoldsSliceable(d.packs[0], m);
    if d.retry < COUNT_RETRY {
      run := FinishAlone(d, m);
    } else {
      var a := FragmentArrival(m, 0, 0);
      var q := StepAlone(d, m, a);
      var o := Step(d, a.s, a.now, a.area);
      StepKeepsValid(d, a.s, a.now, a.area);
      if IsDone(q) {
        DoneDelivers(q, m, UDP_PACKLENGTH);
        NoCalls(o.cache);
        OneThen(d, a, []);
        run := [a] + [];
      } else {
        NextIsNot(m.seqNo);
        var rest := FinishEmpty(o.cache, m);
        OneThen(d, a, rest);
        run := [a] + rest;
      }
    }
  }

  /** The converse of the order theorem: once a stale slice of a message meets an empty
      list, more slices of that message alone make the receiver hand it up, although its
      number lies before seqReport. */
  lemma StaleIsReported(c: Cache, a: Arrival, m: Message) returns (run: seq<Arrival>)
    requires Valid(c) && Admissible(a) && IsSliceOf(m, UDP_PACKLENGTH, a.s) && StaleOnEmpty(c, a.s)
    ensures SlicesOf([a] + run, m)
    ensures ReportsOnly(c, [a] + run, m) && TimeAfter(c.seqReport, Reported(c, [a] + run)[0].seqNo)
  {
    hide Step, Holds, IsDone, IsSliceOf, ListOk, After, Reported, Next, TimeAfter, Sliceable, WellFormed, AreaSize;
    SliceFacts(m, a.s);
    TimeAfterIsSerialOrder(c.seqReport, m.seqNo);
    SliceableOf(m, a.s);
    var q := StepEmpty(c, m, a);
    var o := Step(c, a.s, a.now, a.area);
    StepKeepsValid(c, a.s, a.now, a.area);
    if c.retry < COUNT_RETRY {
      run := FinishAny(o.cache, m);
    } else if IsDone(q) {
      DoneDelivers(q, m, UDP_PACKLENGTH);
      NoCalls(o.cache);
      run := [];
    } else {
      NextIsNot(m.seqNo);
      run := FinishEmpty(o.cache, m);
    }
    OneThen(c, a, run);
  }

  lemma SliceableOf(m: Message, s: Slice)
    requires IsSliceOf(m, UDP_PACKLENGTH, s)
    ensures Sliceable(m, UDP_PACKLENGTH)
  {
  }

  // ---- Two runs ----

  /** The message of one slice, handed up once when awaited, and, behind seqReport,
      once more: its slice again, and again at each of the six next due moments. */
  function TwiceRun(): seq<Arrival> {
    [SingleCall(0)] + ([SingleCall(0)] + Spaced(Single(0), 0, 6))
  }

  lemma ReportedTwice()
    ensures AllAdmissible(TwiceRun())
    ensures Numbers(Reported(EMPTY, TwiceRun())) == [0, 0]
  {
    hide Step, SingleCall, Single, SingleMessage, Holds, IsDone, IsSliceOf, ListOk, After, Reported, Spaced, Numbers;
    var a := SingleCall(0);
    FreshCall(0);
    OneThenSingle(0);
    var m := SingleMessage(0);
    var d := Step(EMPTY, a.s, a.now, a.area).cache;
    EarlyArrival(1, 0);
    var e := Step(d, a.s, a.now, a.area).cache;
    StepKeepsValid(d, a.s, a.now, a.area);
    ParkedIsReported(e, m, a.s);
    OneThen(d, a, Spaced(a.s, 0, 6));
    OneThen(EMPTY, a, [a] + Spaced(a.s, 0, 6));
    TwoLists(Step(EMPTY, a.s, a.now, a.area).reported, e.packs);
  }

  lemma TwoLists(x: seq<Pack>, y: seq<Pack>)
    ensures Numbers(x + ([] + y)) == Numbers(x) + Numbers(y)
    ensures [] + y == y
  {
    assert x + ([] + y) == x + y;
    NumbersConcat(x, y);
  }

  lemma OneThenSingle(n: u32)
    ensures SingleCall(n).s == Single(n) && SingleCall(n).now == 0 && SingleMessage(n).seqNo == n
    ensures IsSliceOf(SingleMessage(n), UDP_PACKLENGTH, Single(n))
  {
  }

  /** The awaited single slice on an empty list is reported at once. */
  lemma FreshCall(n: u32)
    ensures Valid(Cache([], n, 0, 0)) && Admissible(SingleCall(n))
    ensures var a := SingleCall(n);
            var o := Step(Cache([], n, 0, 0), a.s, a.now, a.area);
            Numbers(o.reported) == [n] && o.cache == Cache([], Next(n), 0, 0)
  {
    hide Start, IsDone, Absorb, Decide, StartFits, Next;
    var a := SingleCall(n);
    SingleIsDone(n, a.area);
    InsertedAlone(Cache([], n, 0, 0), a);
    var p := Start(a.s, UDP_PACKLENGTH, a.area);
    DecideOne(Cache([p], n, 0, 0), a.now);
  }

  /** Behind the run 7, 5, 6: message 6 is listed behind seqReport and reported after 7. */
  function LateRun(): seq<Arrival> {
    ([SingleCall(7)] + [SingleCall(5)] + [SingleCall(6)]) + Spaced(Single(6), 0, 6)
  }

  lemma ReportedLate()
    ensures AllAdmissible(LateRun())
    ensures Numbers(Reported(Cache([], 5, 0, 0), LateRun())) == [5, 7, 6]
  {
    hide Step, SingleCall, Single, SingleMessage, Holds, IsDone, IsSliceOf, ListOk, After, Reported, Spaced, Numbers, Live;
    var c := Cache([], 5, 0, 0);
    var first := [SingleCall(7)] + [SingleCall(5)] + [SingleCall(6)];
    GapsAreNotRespected();
    OneThenSingle(6);
    var d := After(c, first);
    ParkedIsReported(d, SingleMessage(6), Single(6));
    RunsConcat(c, first, Spaced(Single(6), 0, 6));
    NumbersConcat(Reported(c, first), d.packs);
  }
}
