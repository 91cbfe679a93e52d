/** The order in which packages are reported over whole runs. */
module InOrder {
  import opened Types
  import opened Serial
  import opened Packet
  import opened Reassembly
  import opened Reorder
  import opened Delivery

  /** At or after seqReport: less than 2^31 ahead of it. */
  predicate Upcoming(seqReport: u32, packs: seq<Pack>) {
    forall i | 0 <= i < |packs| :: Ahead(seqReport, packs[i].seqNo) < HALF
  }

  predicate Live(c: Cache) {
    Upcoming(c.seqReport, c.packs)
  }

  /** A slice from before seqReport that reaches an empty list, where the source
      does not filter it. */
  predicate StaleOnEmpty(c: Cache, s: Slice) {
    c.packs == [] && TimeAfter(c.seqReport, s.seqNo)
  }

  // ---- One call ----

  /** The filter and the ordered insertion only let in numbers at or after
      seqReport, except for a stale slice on an empty list. */
  lemma AbsorbUpcoming(c: Cache, s: Slice, area: seq<byte>)
    requires Valid(c) && Live(c) && WellFormed(s) && |area| == AreaSize(s.slices)
    requires !StaleOnEmpty(c, s)
    ensures Upcoming(c.seqReport, Absorb(c, s, area).packs)
  {
    hide Absorb, Put, Start, TimeAfter, Ahead, ListOk, IndexOf, InsertPos, Dropped, Upcoming, StartFits, PutFits;
    AbsorbCases(c, s, area);
    var i, n := IndexOf(c.packs, s.seqNo), Dropped(c.packs);
    if i < |c.packs| {
      UpcomingUpdate(c.seqReport, c.packs, i, Put(c.packs[i], s));
    } else {
      UpcomingDrop(c.seqReport, c.packs, n);
      if !Absorb(c, s, area).ignored {
        TimeAfterIsDistance(c.seqReport, s.seqNo);
        UpcomingInsert(c.seqReport, c.packs[n..], InsertPos(c.packs[n..], s.seqNo), Start(s, UDP_PACKLENGTH, area));
      }
    }
  }

  lemma UpcomingDrop(seqReport: u32, packs: seq<Pack>, n: nat)
    requires Upcoming(seqReport, packs) && n <= |packs|
    ensures Upcoming(seqReport, packs[n..])
  {
    hide Ahead;
  }

  lemma UpcomingUpdate(seqReport: u32, packs: seq<Pack>, i: nat, p: Pack)
    requires Upcoming(seqReport, packs) && i < |packs| && p.seqNo == packs[i].seqNo
    ensures Upcoming(seqReport, packs[i := p])
  {
    hide Ahead;
  }

  lemma UpcomingInsert(seqReport: u32, packs: seq<Pack>, j: nat, p: Pack)
    requires Upcoming(seqReport, packs) && j <= |packs| && Ahead(seqReport, p.seqNo) < HALF
    ensures Upcoming(seqReport, packs[..j] + [p] + packs[j..])
  {
    hide Ahead;
  }

  lemma AheadOfNext(origin: u32, x: u32, y: u32)
    requires Ahead(origin, x) < Ahead(origin, y) < HALF
    ensures Ahead(Next(x), y) == Ahead(origin, y) - Ahead(origin, x) - 1
  {
  }

  lemma AheadNext(origin: u32, x: u32)
    requires Ahead(origin, x) < HALF
    ensures Ahead(origin, Next(x)) == Ahead(origin, x) + 1
  {
  }

  /** What one orderly call does to the numbers: the reported and the expired
      packages come in serial order before the new seqReport, and everything
      still listed after it. */
  predicate Orderly(seqReport: u32, o: Outcome) {
    && Upcoming(seqReport, o.reported)
    && Upcoming(seqReport, o.expired)
    && Upcoming(seqReport, o.cache.packs)
    && Ahead(seqReport, o.cache.seqReport) <= HALF
    && Live(o.cache)
    && (forall i | 0 <= i < |o.reported| ::
          Ahead(seqReport, o.reported[i].seqNo) < Ahead(seqReport, o.cache.seqReport))
    && (forall i, j | 0 <= i < j < |o.reported| ::
          Ahead(seqReport, o.reported[i].seqNo) < Ahead(seqReport, o.reported[j].seqNo))
  }

  lemma DecideOrderly(c: Cache, now: int)
    requires Valid(c) && c.packs != [] && Live(c)
    ensures Orderly(c.seqReport, Decide(c, now))
  {
    hide Decide;
    var o := Decide(c, now);
    var k, m := DecideShape(c, now);
    forall i, j | 0 <= i < j < |c.packs|
      ensures Ahead(c.seqReport, c.packs[i].seqNo) < Ahead(c.seqReport, c.packs[j].seqNo)
    {
      WindowTotallyOrdered(c.packs, c.seqReport, i, j);
    }
    if m > 0 {
      AheadNext(c.seqReport, c.packs[m - 1].seqNo);
      forall i | m <= i < |c.packs|
        ensures Ahead(o.cache.seqReport, c.packs[i].seqNo) < HALF
      {
        AheadOfNext(c.seqReport, c.packs[m - 1].seqNo, c.packs[i].seqNo);
      }
    }
  }

  /** The whole call keeps the order unless a stale slice reaches an empty list. */
  lemma StepOrderly(c: Cache, s: Slice, now: int, area: seq<byte>)
    requires Valid(c) && Live(c) && WellFormed(s) && |area| == AreaSize(s.slices)
    requires !StaleOnEmpty(c, s)
    ensures Orderly(c.seqReport, Step(c, s, now, area))
  {
    var a := Absorb(c, s, area);
    AbsorbUpcoming(c, s, area);
    AbsorbKeepsList(c, s, area);
    hide Absorb, Decide;
    if !a.ignored {
      DecideOrderly(c.(packs := a.packs), now);
    }
  }

  /** Nothing the call touches lies before seqReport. */
  predicate NothingStale(seqReport: u32, o: Outcome) {
    Upcoming(seqReport, o.reported) && Upcoming(seqReport, o.expired) && Upcoming(seqReport, o.cache.packs)
  }

  lemma StaleIsInserted(c: Cache, s: Slice, area: seq<byte>) returns (p: Pack)
    requires Valid(c) && WellFormed(s) && |area| == AreaSize(s.slices) && c.packs == []
    ensures Absorb(c, s, area) == Absorbed([p], [], true, false)
    ensures p.seqNo == s.seqNo
  {
    StartFitsOk(s, area);
    p := Start(s, UDP_PACKLENGTH, area);
    hide Start;
    assert [] + [p] + [] == [p];
  }

  lemma OneOfThree(p: Pack, seqReport: u32, o: Outcome, k: nat, m: nat)
    requires Removes([p], seqReport, o, k, m) && Ahead(seqReport, p.seqNo) >= HALF
    ensures !NothingStale(seqReport, o)
  {
    if k == 1 {
      assert o.expired[0] == p;
    } else if m == 1 {
      assert o.reported[0] == p;
    } else {
      assert o.cache.packs[0] == p;
    }
  }

  lemma StaleSurfaces(c: Cache, s: Slice, now: int, area: seq<byte>)
    requires Valid(c) && WellFormed(s) && |area| == AreaSize(s.slices)
    requires StaleOnEmpty(c, s)
    ensures !NothingStale(c.seqReport, Step(c, s, now, area))
  {
    hide Absorb, Decide, Removes, NothingStale, ListOk;
    var p := StaleIsInserted(c, s, area);
    TimeAfterIsDistance(c.seqReport, s.seqNo);
    var k, m := DecideShape(c.(packs := [p]), now);
    OneOfThree(p, c.seqReport, Decide(c.(packs := [p]), now), k, m);
    SameLists(c.seqReport, Decide(c.(packs := [p]), now), Step(c, s, now, area));
  }

  lemma SameLists(seqReport: u32, o: Outcome, x: Outcome)
    requires o.cache == x.cache && o.reported == x.reported && o.expired == x.expired
    ensures NothingStale(seqReport, o) <==> NothingStale(seqReport, x)
  {
  }

  /** The exact condition for one call to respect the order. */
  lemma StepOrderlyIff(c: Cache, s: Slice, now: int, area: seq<byte>)
    requires Valid(c) && Live(c) && WellFormed(s) && |area| == AreaSize(s.slices)
    ensures NothingStale(c.seqReport, Step(c, s, now, area)) <==> !StaleOnEmpty(c, s)
  {
    hide Step, Valid;
    if StaleOnEmpty(c, s) {
      StaleSurfaces(c, s, now, area);
    } else {
      StepOrderly(c, s, now, area);
    }
  }

  // ---- Runs ----

  predicate NeverStaleOnEmpty(c: Cache, run: seq<Arrival>)
    requires Valid(c) && AllAdmissible(run)
  {
    run != [] ==> NeverStaleOnEmpty(c, Init(run)) && !StaleOnEmpty(After(c, Init(run)), Final(run).s)
  }

  /** seqReport without wrap-around, counted from base. */
  function Unwrapped(c: Cache, run: seq<Arrival>, base: nat): nat
    requires Valid(c) && AllAdmissible(run)
  {
    if run == [] then base
    else Unwrapped(c, Init(run), base) + Ahead(After(c, Init(run)).seqReport, After(c, run).seqReport)
  }

  function Shifted(base: nat, seqReport: u32, packs: seq<Pack>): (p: seq<nat>)
    ensures |p| == |packs|
    ensures forall i | 0 <= i < |p| :: p[i] == base + Ahead(seqReport, packs[i].seqNo)
  {
    seq(|packs|, i requires 0 <= i < |packs| => base + Ahead(seqReport, packs[i].seqNo))
  }

  /** The numbers of the reported packages, without wrap-around. */
  function Positions(c: Cache, run: seq<Arrival>, base: nat): seq<nat>
    requires Valid(c) && AllAdmissible(run)
  {
    if run == [] then []
    else
      Positions(c, Init(run), base)
      + Shifted(Unwrapped(c, Init(run), base), After(c, Init(run)).seqReport, LastOutcome(c, run).reported)
  }

  predicate Increasing(p: seq<nat>, low: nat, high: nat) {
    && (forall i | 0 <= i < |p| :: low <= p[i] < high)
    && (forall i, j | 0 <= i < j < |p| :: p[i] < p[j])
  }

  predicate NumberedBy(packs: seq<Pack>, p: seq<nat>) {
    && |packs| == |p|
    && (forall i | 0 <= i < |p| :: packs[i].seqNo == p[i] % MODULUS)
  }

  lemma AheadAdds(base: nat, from: u32, to: u32)
    requires base % MODULUS == from
    ensures (base + Ahead(from, to)) % MODULUS == to
  {
  }

  lemma OneMoreCall(base: nat, seqReport: u32, o: Outcome)
    requires base % MODULUS == seqReport && Orderly(seqReport, o)
    ensures (base + Ahead(seqReport, o.cache.seqReport)) % MODULUS == o.cache.seqReport
    ensures Increasing(Shifted(base, seqReport, o.reported), base, base + Ahead(seqReport, o.cache.seqReport))
    ensures NumberedBy(o.reported, Shifted(base, seqReport, o.reported))
  {
    AheadAdds(base, seqReport, o.cache.seqReport);
    forall i | 0 <= i < |o.reported|
      ensures (base + Ahead(seqReport, o.reported[i].seqNo)) % MODULUS == o.reported[i].seqNo
    {
      AheadAdds(base, seqReport, o.reported[i].seqNo);
    }
  }

  /** In every run in which no stale slice reaches an empty list, every listed
      package stays at or after seqReport, and the reported packages come in
      strictly increasing order, each before the current seqReport, counting
      without wrap-around: none is reported twice, whatever the list limit and
      the timeouts drop in between. */
  lemma {:induction false} ReportedInOrder(c: Cache, run: seq<Arrival>, base: nat)
    requires Valid(c) && AllAdmissible(run) && Live(c) && base % MODULUS == c.seqReport
    requires NeverStaleOnEmpty(c, run)
    ensures Live(After(c, run))
    ensures Unwrapped(c, run, base) % MODULUS == After(c, run).seqReport
    ensures base <= Unwrapped(c, run, base)
    ensures Increasing(Positions(c, run, base), base, Unwrapped(c, run, base))
    ensures NumberedBy(Reported(c, run), Positions(c, run, base))
  {
    hide Step, Valid, Shifted, Orderly, Upcoming, StaleOnEmpty;
    if run == [] {
      assert Positions(c, run, base) == [];
    } else {
      var was := Init(run);
      var a := Final(run);
      var d := After(c, was);
      ReportedInOrder(c, was, base);
      StepOrderly(d, a.s, a.now, a.area);
      OneMoreCall(Unwrapped(c, was, base), d.seqReport, LastOutcome(c, run));
      OrderlyIsLive(d.seqReport, LastOutcome(c, run));
    }
  }

  lemma OrderlyIsLive(seqReport: u32, o: Outcome)
    requires Orderly(seqReport, o)
    ensures Live(o.cache)
  {
  }

  /** While the numbers of the run stay within 2^31 the order is that of
      time_after on the wire numbers themselves, and they are pairwise distinct. */
  lemma ReportedInSerialOrder(c: Cache, run: seq<Arrival>, base: nat, i: nat, j: nat)
    requires Valid(c) && AllAdmissible(run) && Live(c) && base % MODULUS == c.seqReport
    requires NeverStaleOnEmpty(c, run)
    requires Unwrapped(c, run, base) - base <= HALF
    requires i < j < |Reported(c, run)|
    ensures TimeAfter(Reported(c, run)[j].seqNo, Reported(c, run)[i].seqNo)
    ensures Reported(c, run)[j].seqNo != Reported(c, run)[i].seqNo
  {
    hide Step, Valid, After, Reported, Positions, Unwrapped;
    ReportedInOrder(c, run, base);
    var p := Positions(c, run, base);
    SerialOfPositions(p[i], p[j], Reported(c, run)[i].seqNo, Reported(c, run)[j].seqNo);
  }

  lemma SerialOfPositions(p: nat, q: nat, x: u32, y: u32)
    requires x == p % MODULUS && y == q % MODULUS && 0 < q - p < HALF
    ensures TimeAfter(y, x) && x != y
  {
    var t := q / MODULUS - p / MODULUS;
    assert y - x == q - p - MODULUS * t;
    assert t == 0 || t == 1;
    TimeAfterIsDistance(y, x);
  }

  // ---- Gaps ----

  function Single(n: u32): Slice {
    Slice(n, TYPE_VIDEO, 1, 0, 0, [])
  }

  /** The message Single(n) is all of. */
  function SingleMessage(n: u32): Message {
    Message(n, TYPE_VIDEO, 1, 0, [])
  }

  function SingleCall(n: u32): Arrival {
    Arrival(Single(n), 0, seq(AreaSize(1), _ => 0))
  }

  lemma SingleIsDone(n: u32, area: seq<byte>)
    requires |area| == AreaSize(1)
    ensures WellFormed(Single(n))
    ensures StartFits(Single(n), UDP_PACKLENGTH, |area|)
    ensures IsDone(Start(Single(n), UDP_PACKLENGTH, area))
    ensures Start(Single(n), UDP_PACKLENGTH, area).seqNo == n
    ensures IsSliceOf(SingleMessage(n), UDP_PACKLENGTH, Single(n))
    ensures Holds(Start(Single(n), UDP_PACKLENGTH, area), SingleMessage(n), UDP_PACKLENGTH)
  {
    OpenedHolds(SingleMessage(n), Single(n), area);
    StartFitsOk(Single(n), area);
  }

  /** One complete package with a number that is not awaited: listed, not reported. */
  lemma EarlyArrival(r: u32, n: u32)
    requires r != n
    ensures Valid(Cache([], r, 0, 0)) && Admissible(SingleCall(n))
    ensures var a := SingleCall(n);
            var o := Step(Cache([], r, 0, 0), a.s, a.now, a.area);
            && o.reported == []
            && |o.cache.packs| == 1 && IsDone(o.cache.packs[0])
            && Holds(o.cache.packs[0], SingleMessage(n), UDP_PACKLENGTH)
            && Numbers(o.cache.packs) == [n]
            && o.cache.seqReport == r && o.cache.retry == 0 && o.cache.stamp == 0
  {
    var a := SingleCall(n);
    SingleIsDone(n, a.area);
    var c := Cache([], r, 0, 0);
    hide Start;
    var p := Start(a.s, UDP_PACKLENGTH, a.area);
    assert [] + [p] + [] == [p];
    assert Absorb(c, a.s, a.area).packs == [p];
  }

  /** The awaited package completes while a later one is waiting: both go out,
      although the numbers between them are missing. */
  lemma GapSkipped(c: Cache, r: u32, n: u32)
    requires Valid(c) && |c.packs| == 1 && c.seqReport == r && c.retry == 0
    requires IsDone(c.packs[0]) && Numbers(c.packs) == [n] && n != r && TimeAfter(n, r)
    ensures Admissible(SingleCall(r))
    ensures var a := SingleCall(r);
            var o := Step(c, a.s, a.now, a.area);
            && Numbers(o.reported) == [r, n]
            && o.cache == Cache([], Next(n), 0, c.stamp)
  {
    var a := SingleCall(r);
    assert c.packs[0].seqNo == Numbers(c.packs)[0];
    SingleIsDone(r, a.area);
    hide Start;
    var p := Start(a.s, UDP_PACKLENGTH, a.area);
    assert c.packs[..0] + [p] + c.packs[0..] == [p, c.packs[0]];
    var ab := Absorb(c, a.s, a.area);
    TimeAfterIsSerialOrder(r, r);
    assert ab.packs == [p, c.packs[0]];
    var d := c.(packs := ab.packs);
    assert FirstDone(d.packs) == 0 && FirstOpen(d.packs) == 2;
  }

  lemma EightIsPastSix(c: Cache)
    requires Numbers(c.packs) == [6] && c.seqReport == 8
    ensures !Live(c)
  {
    assert c.packs[0].seqNo == Numbers(c.packs)[0];
    assert Ahead(8, 6) >= HALF;
  }

  lemma OneMore(c: Cache, run: seq<Arrival>, a: Arrival)
    requires Valid(c) && AllAdmissible(run) && Admissible(a)
    ensures AllAdmissible(run + [a])
    ensures After(c, run + [a]) == Step(After(c, run), a.s, a.now, a.area).cache
    ensures Reported(c, run + [a]) == Reported(c, run) + Step(After(c, run), a.s, a.now, a.area).reported
  {
    assert Init(run + [a]) == run && Final(run + [a]) == a;
  }

  lemma ThreeCalls(c: Cache, x: Arrival, y: Arrival, z: Arrival) returns (d: Cache, e: Cache)
    requires Valid(c) && Admissible(x) && Admissible(y) && Admissible(z)
    ensures AllAdmissible([x] + [y] + [z])
    ensures d == Step(c, x.s, x.now, x.area).cache && Valid(d)
    ensures e == Step(d, y.s, y.now, y.area).cache && Valid(e)
    ensures After(c, [x] + [y] + [z]) == Step(e, z.s, z.now, z.area).cache
    ensures Step(c, x.s, x.now, x.area).reported == [] && Step(e, z.s, z.now, z.area).reported == [] ==>
              Reported(c, [x] + [y] + [z]) == Step(d, y.s, y.now, y.area).reported
  {
    hide Step, After, Reported, ListOk, AllAdmissible;
    OneCall(c, x);
    d := After(c, [x]);
    OneMore(c, [x], y);
    e := After(c, [x] + [y]);
    OneMore(c, [x] + [y], z);
  }

  /** The report loop does not check for gaps: awaiting 5, the arrivals 7, 5, 6
      report 5 and 7 together, and 6 then enters the empty list behind seqReport. */
  lemma GapsAreNotRespected()
    ensures var c := Cache([], 5, 0, 0);
            var run := [SingleCall(7)] + [SingleCall(5)] + [SingleCall(6)];
            && Valid(c) && AllAdmissible(run)
            && Numbers(Reported(c, run)) == [5, 7]
            && Numbers(After(c, run).packs) == [6]
            && After(c, run).seqReport == 8 && After(c, run).retry == 0 && After(c, run).stamp == 0
            && |After(c, run).packs| == 1 && IsDone(After(c, run).packs[0])
            && Holds(After(c, run).packs[0], SingleMessage(6), UDP_PACKLENGTH)
            && !Live(After(c, run))
  {
    var c := Cache([], 5, 0, 0);
    var a7, a5, a6 := SingleCall(7), SingleCall(5), SingleCall(6);
    EarlyArrival(5, 7);
    EarlyArrival(8, 6);
    TimeAfterIsDistance(7, 5);
    SingleIsDone(5, a5.area);
    hide Step, SingleCall, Live, ListOk, After, Reported, TimeAfter, Numbers, Start, StartFits, WellFormed, IsDone;
    var d, e := ThreeCalls(c, a7, a5, a6);
    GapSkipped(d, 5, 7);
    EightIsPastSix(After(c, [a7] + [a5] + [a6]));
  }
}
