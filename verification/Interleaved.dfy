/** Up to fifteen consecutive messages at once: their slices arrive in any interleaving,
    with repetitions, while no request is due (socket/UdpCombinePackage.cpp:63-163).
    Everything is reported, in order, exactly when no call jumps a gap; and none does
    when the first slices of the messages come in order. */
module Interleaved {
  import opened Types
  import opened Serial
  import opened Packet
  import opened Reassembly
  import opened Reorder
  import opened Delivery
  import opened InOrder
  import opened GapFree
  import opened SenderWindow
  import opened Assembly
  import Retry

  /** The slices of number n that have arrived. */
  function CameOf(run: seq<Arrival>, n: u32): set<nat> {
    if run == [] then {} else CameOf(Init(run), n) + Added(Final(run).s, n)
  }

  /** Between two calls nothing complete is left waiting at the awaited place. */
  predicate Settled(d: Cache) {
    d.packs == [] || d.seqReport != d.packs[0].seqNo || !IsDone(d.packs[0])
  }

  /** All packages lie in the window of n numbers from r on that is not reported yet. */
  predicate InsideWindow(r: u32, n: nat, seqReport: u32, packs: seq<Pack>) {
    forall p <- packs :: Ahead(r, seqReport) <= Ahead(r, p.seqNo) < n
  }

  /** What is listed is what has arrived, and what has arrived is listed, from seqReport on. */
  predicate Tracks(r: u32, n: nat, seqReport: u32, packs: seq<Pack>, run: seq<Arrival>) {
    && (forall p <- packs :: p.got == CameOf(run, p.seqNo) && p.got != {})
    && (forall x: u32 :: Ahead(r, seqReport) <= Ahead(r, x) < n && CameOf(run, x) != {} ==> Listed(packs, x))
  }

  predicate Covered(src: Source, r: u32, n: nat, d: Cache, run: seq<Arrival>) {
    && Valid(d) && d.retry < COUNT_RETRY && Ahead(r, d.seqReport) <= n <= 15
    && HoldsAll(src, d.packs)
    && InsideWindow(r, n, d.seqReport, d.packs)
    && Tracks(r, n, d.seqReport, d.packs, run)
    && Settled(d)
  }

  // ---- Numbers in the window ----

  lemma WindowDistance(r: u32, y: u32, x: u32)
    requires Ahead(r, y) <= 15 && Ahead(r, x) <= 15
    ensures Ahead(r, y) <= Ahead(r, x) ==> Ahead(y, x) == Ahead(r, x) - Ahead(r, y)
    ensures Ahead(r, x) < Ahead(r, y) <==> TimeAfter(y, x)
    ensures Ahead(r, x) == Ahead(r, y) <==> x == y
  {
    hide TimeAfter;
    TimeAfterFromOrigin(r, y, x);
    TimeAfterIsDistance(y, x);
    if Ahead(r, y) <= Ahead(r, x) {
      Difference(r, y, x);
    }
  }

  lemma Difference(r: u32, y: u32, x: u32)
    requires Ahead(r, y) <= Ahead(r, x) <= 15
    ensures Ahead(y, x) == Ahead(r, x) - Ahead(r, y)
  {
    var a, b := (x - r) / MODULUS, (y - r) / MODULUS;
    assert x - r == a * MODULUS + Ahead(r, x) && y - r == b * MODULUS + Ahead(r, y);
    assert -1 <= a <= 0 && -1 <= b <= 0;
  }

  lemma NextInWindow(r: u32, x: u32)
    requires Ahead(r, x) < 15
    ensures Ahead(r, Next(x)) == Ahead(r, x) + 1
  {
    AheadNext(r, x);
  }

  lemma InsideIsLive(r: u32, n: nat, d: Cache)
    requires Ahead(r, d.seqReport) <= n <= 15 && InsideWindow(r, n, d.seqReport, d.packs)
    ensures Live(d)
    ensures forall p <- d.packs :: Ahead(d.seqReport, p.seqNo) == Ahead(r, p.seqNo) - Ahead(r, d.seqReport)
  {
    hide Ahead, TimeAfter;
    forall i | 0 <= i < |d.packs|
      ensures Ahead(d.seqReport, d.packs[i].seqNo) == Ahead(r, d.packs[i].seqNo) - Ahead(r, d.seqReport) < HALF
    {
      assert d.packs[i] in d.packs;
      WindowDistance(r, d.seqReport, d.packs[i].seqNo);
    }
  }

  /** Later entries are further ahead. */
  lemma FurtherAhead(r: u32, n: nat, d: Cache, i: nat, j: nat)
    requires Valid(d) && Ahead(r, d.seqReport) <= n <= 15 && InsideWindow(r, n, d.seqReport, d.packs)
    requires i < j < |d.packs|
    ensures Ahead(r, d.packs[i].seqNo) < Ahead(r, d.packs[j].seqNo)
  {
    forall p | p in d.packs
      ensures Ahead(r, p.seqNo) < HALF
    {
    }
    WindowTotallyOrdered(d.packs, r, i, j);
  }

  /** There are no more packages than numbers: fifteen only if every number is listed. */
  lemma RoomLeft(r: u32, n: nat, d: Cache, x: u32)
    requires Valid(d) && Ahead(r, d.seqReport) <= n <= 15 && InsideWindow(r, n, d.seqReport, d.packs)
    requires Ahead(r, x) < n && !Listed(d.packs, x)
    ensures |d.packs| < 15
  {
    if |d.packs| >= 15 {
      hide Ahead, ListOk;
      Spread(r, n, d, 14);
      var i := Ahead(r, x);
      SpreadUp(r, n, d, i);
      Spread(r, n, d, i);
      assert d.packs[i] in d.packs;
      WindowDistance(r, x, d.packs[i].seqNo);
      assert false;
    }
  }

  lemma {:induction false} Spread(r: u32, n: nat, d: Cache, i: nat)
    requires Valid(d) && Ahead(r, d.seqReport) <= n <= 15 && InsideWindow(r, n, d.seqReport, d.packs)
    requires i < |d.packs|
    ensures i <= Ahead(r, d.packs[i].seqNo) < n
  {
    assert d.packs[i] in d.packs;
    if i > 0 {
      Spread(r, n, d, i - 1);
      FurtherAhead(r, n, d, i - 1, i);
    }
  }

  lemma {:induction false} SpreadUp(r: u32, n: nat, d: Cache, i: nat)
    requires Valid(d) && Ahead(r, d.seqReport) <= n <= 15 && InsideWindow(r, n, d.seqReport, d.packs)
    requires i < |d.packs|
    ensures Ahead(r, d.packs[i].seqNo) + (|d.packs| - 1 - i) < n
    decreases |d.packs| - i
  {
    if i + 1 < |d.packs| {
      SpreadUp(r, n, d, i + 1);
      FurtherAhead(r, n, d, i, i + 1);
    } else {
      assert d.packs[i] in d.packs;
    }
  }

  // ---- One call, up to the report loop ----

  lemma CameMore(run: seq<Arrival>, a: Arrival, n: u32)
    ensures CameOf(run + [a], n) == CameOf(run, n) + Added(a.s, n)
  {
    assert Init(run + [a]) == run && Final(run + [a]) == a;
  }

  /** A slice of an earlier message changes nothing. */
  lemma StaleIgnored(src: Source, r: u32, n: nat, d: Cache, run: seq<Arrival>, a: Arrival)
    requires Covered(src, r, n, d, run) && Admissible(a) && !StaleOnEmpty(d, a.s)
    requires Ahead(r, a.s.seqNo) < Ahead(r, d.seqReport)
    ensures Absorb(d, a.s, a.area).ignored && Absorb(d, a.s, a.area).packs == d.packs
  {
    hide Ahead, TimeAfter, Holds, IsDone;
    WindowDistance(r, d.seqReport, a.s.seqNo);
    NotListed(r, n, d, a.s.seqNo);
    LimitAndFilter(d, a.s, a.area);
    RoomLeft(r, n, d, a.s.seqNo);
    IgnoredKeeps(d, a.s, a.area);
  }

  lemma NotListed(r: u32, n: nat, d: Cache, x: u32)
    requires InsideWindow(r, n, d.seqReport, d.packs) && Ahead(r, x) < Ahead(r, d.seqReport)
    ensures !Listed(d.packs, x) && forall p <- d.packs :: p.seqNo != x
  {
  }

  lemma StaleTracks(r: u32, n: nat, d: Cache, run: seq<Arrival>, a: Arrival)
    requires Tracks(r, n, d.seqReport, d.packs, run) && InsideWindow(r, n, d.seqReport, d.packs)
    requires Ahead(r, a.s.seqNo) < Ahead(r, d.seqReport)
    ensures Tracks(r, n, d.seqReport, d.packs, run + [a])
  {
    hide Ahead, Listed;
    forall x: u32 | Ahead(r, d.seqReport) <= Ahead(r, x)
      ensures CameOf(run + [a], x) == CameOf(run, x)
    {
      CameMore(run, a, x);
    }
  }

  /** Any other slice lands in its package, and the list still is what has arrived. */
  lemma FreshAbsorbed(src: Source, r: u32, n: nat, d: Cache, run: seq<Arrival>, a: Arrival)
    requires Numbered(src) && Covered(src, r, n, d, run) && Admissible(a) && FromSource(src, a.s)
    requires Ahead(r, d.seqReport) <= Ahead(r, a.s.seqNo) < n
    ensures var x := Absorb(d, a.s, a.area);
            && !x.ignored && x.overflow == [] && x.packs != []
            && HoldsAll(src, x.packs) && Valid(d.(packs := x.packs))
            && InsideWindow(r, n, d.seqReport, x.packs)
            && Tracks(r, n, d.seqReport, x.packs, run + [a])
  {
    hide Ahead, TimeAfter, Holds, IsDone, Absorb, IsSliceOf, ListOk, Accounts, Numbered;
    WindowDistance(r, d.seqReport, a.s.seqNo);
    LimitAndFilter(d, a.s, a.area);
    if !Listed(d.packs, a.s.seqNo) {
      RoomLeft(r, n, d, a.s.seqNo);
    }
    ListedMeans(d.packs, a.s.seqNo);
    AbsorbAccounts(src, d, a);
    AbsorbKeepsList(d, a.s, a.area);
    AllStay(src, d, a);
    var x := Absorb(d, a.s, a.area);
    AccountsInside(r, n, d, a.s, x.packs);
    AccountsTrack(r, n, d, run, a, x.packs);
  }

  lemma ListedMeans(packs: seq<Pack>, n: u32)
    ensures !Listed(packs, n) <==> forall p <- packs :: p.seqNo != n
  {
  }

  /** With room left nothing falls out, and the slice's number is listed afterwards. */
  lemma AllStay(src: Source, d: Cache, a: Arrival)
    requires Numbered(src) && Valid(d) && HoldsAll(src, d.packs) && Admissible(a) && FromSource(src, a.s)
    requires !Absorb(d, a.s, a.area).ignored && (|d.packs| < 15 || Listed(d.packs, a.s.seqNo))
    ensures Listed(Absorb(d, a.s, a.area).packs, a.s.seqNo)
    ensures forall y: u32 :: Listed(d.packs, y) ==> Listed(Absorb(d, a.s, a.area).packs, y)
  {
    hide Absorb, Holds, IsSliceOf, ListOk, Numbered;
    NumberedAt(src, a.s.seqNo);
    var after := Absorb(d, a.s, a.area).packs;
    if Listed(d.packs, a.s.seqNo) {
      var i :| 0 <= i < |d.packs| && d.packs[i].seqNo == a.s.seqNo;
      assert d.packs[i] in d.packs;
      AbsorbAt(d, src(a.s.seqNo), i, a.s, a.area);
      forall y: u32 | Listed(d.packs, y)
        ensures Listed(after, y)
      {
        var j :| 0 <= j < |d.packs| && d.packs[j].seqNo == y;
        assert after[j].seqNo == y && after[j] in after;
      }
    } else {
      var j, q := AbsorbNew(d, src(a.s.seqNo), a.s, a.area);
      assert q in after;
      forall y: u32 | Listed(d.packs, y)
        ensures Listed(after, y)
      {
        var p :| p in d.packs && p.seqNo == y;
        assert d.packs[0..] == d.packs && d.packs == d.packs[..j] + d.packs[j..];
        assert p in after;
      }
    }
  }

  lemma NumberedAt(src: Source, n: u32)
    requires Numbered(src)
    ensures src(n).seqNo == n && Sliceable(src(n), UDP_PACKLENGTH)
  {
  }

  lemma AccountsInside(r: u32, n: nat, d: Cache, s: Slice, after: seq<Pack>)
    requires InsideWindow(r, n, d.seqReport, d.packs) && Accounts(d.packs, s, after)
    requires Ahead(r, d.seqReport) <= Ahead(r, s.seqNo) < n
    ensures InsideWindow(r, n, d.seqReport, after)
  {
    hide Ahead, Listed;
  }

  lemma AccountsTrack(r: u32, n: nat, d: Cache, run: seq<Arrival>, a: Arrival, after: seq<Pack>)
    requires Tracks(r, n, d.seqReport, d.packs, run) && InsideWindow(r, n, d.seqReport, d.packs)
    requires Accounts(d.packs, a.s, after) && Ahead(r, d.seqReport) <= Ahead(r, a.s.seqNo) < n
    requires Listed(after, a.s.seqNo) && forall y: u32 :: Listed(d.packs, y) ==> Listed(after, y)
    ensures Tracks(r, n, d.seqReport, after, run + [a])
  {
    hide Ahead;
    forall q | q in after
      ensures q.got == CameOf(run + [a], q.seqNo) && q.got != {}
    {
      CameMore(run, a, q.seqNo);
      if exists p <- d.packs :: Grown(p, a.s, q) {
        var p :| p in d.packs && Grown(p, a.s, q);
      } else {
        assert CameOf(run, q.seqNo) == {};
        assert {} + {a.s.cur as nat} == {a.s.cur as nat};
      }
    }
    forall x: u32 | Ahead(r, d.seqReport) <= Ahead(r, x) < n && CameOf(run + [a], x) != {}
      ensures Listed(after, x)
    {
      CameMore(run, a, x);
      if x != a.s.seqNo {
        assert CameOf(run + [a], x) == CameOf(run, x);
      }
    }
  }

  // ---- One call, the report loop ----

  /** The cache just before the report loop. */
  predicate Loaded(src: Source, r: u32, n: nat, e: Cache, run: seq<Arrival>) {
    && Valid(e) && e.packs != [] && e.retry < COUNT_RETRY && Ahead(r, e.seqReport) <= n <= 15
    && HoldsAll(src, e.packs)
    && InsideWindow(r, n, e.seqReport, e.packs)
    && Tracks(r, n, e.seqReport, e.packs, run)
  }

  lemma NothingDue(e: Cache, now: int)
    requires e.packs != [] && e.retry < COUNT_RETRY && now - e.stamp < INTERVAL_RETRY
    ensures Decide(e, now).request == None
    ensures Decide(e, now).cache.stamp == e.stamp && Decide(e, now).cache.retry < COUNT_RETRY
  {
  }

  lemma ReportLoop(src: Source, r: u32, n: nat, e: Cache, run: seq<Arrival>, now: int)
    requires Numbered(src) && Loaded(src, r, n, e, run) && now - e.stamp < INTERVAL_RETRY
    ensures var o := Decide(e, now);
            && o.request == None && o.expired == [] && o.cache.stamp == e.stamp
            && Covered(src, r, n, o.cache, run)
            && Ahead(r, e.seqReport) <= Ahead(r, o.cache.seqReport)
            && (forall p <- o.reported :: Delivers(p, src(p.seqNo)))
  {
    hide Ahead, Decide, Holds, IsDone, Delivers, ListOk, Tracks, HoldsAll, Next;
    var o := Decide(e, now);
    NothingDue(e, now);
    DecideKeepsValid(e, now);
    var m := PatientShape(e, now);
    ReportedWhole(src, e.packs, o.reported);
    KeptParts(src, e.packs, m);
    if m > 0 {
      assert e.packs[m - 1] in e.packs;
      NextInWindow(r, e.packs[m - 1].seqNo);
      forall i | m <= i < |e.packs|
        ensures Ahead(r, e.packs[m - 1].seqNo) < Ahead(r, e.packs[i].seqNo)
      {
        FurtherAhead(r, n, e, m - 1, i);
      }
      forall i | 0 <= i < m
        ensures Ahead(r, e.packs[i].seqNo) <= Ahead(r, e.packs[m - 1].seqNo)
      {
        if i < m - 1 {
          FurtherAhead(r, n, e, i, m - 1);
        }
      }
      TailTracks(r, n, e, m, o.cache.seqReport, run);
    }
    assert e.packs[0..] == e.packs;
  }

  lemma DecideKeepsValid(e: Cache, now: int)
    requires Valid(e) && e.packs != []
    ensures Valid(Decide(e, now).cache)
  {
    DecideKeepsList(e, now);
  }

  lemma ReportedWhole(src: Source, packs: seq<Pack>, reported: seq<Pack>)
    requires HoldsAll(src, packs) && forall p <- reported :: p in packs && IsDone(p)
    ensures forall p <- reported :: Delivers(p, src(p.seqNo))
  {
    hide Holds, IsDone, Delivers;
    forall p | p in reported
      ensures Delivers(p, src(p.seqNo))
    {
      DoneDelivers(p, src(p.seqNo), UDP_PACKLENGTH);
    }
  }

  lemma KeptParts(src: Source, packs: seq<Pack>, m: nat)
    requires HoldsAll(src, packs) && m <= |packs|
    ensures HoldsAll(src, packs[m..])
  {
    hide Holds;
  }

  lemma TailTracks(r: u32, n: nat, e: Cache, m: nat, seqReport: u32, run: seq<Arrival>)
    requires Tracks(r, n, e.seqReport, e.packs, run) && m <= |e.packs|
    requires Ahead(r, e.seqReport) <= Ahead(r, seqReport)
    requires forall i | 0 <= i < m :: Ahead(r, e.packs[i].seqNo) < Ahead(r, seqReport)
    ensures Tracks(r, n, seqReport, e.packs[m..], run)
  {
    hide Ahead;
    forall x: u32 | Ahead(r, seqReport) <= Ahead(r, x) < n && CameOf(run, x) != {}
      ensures Listed(e.packs[m..], x)
    {
      var i :| 0 <= i < |e.packs| && e.packs[i].seqNo == x;
      assert e.packs[m..][i - m] == e.packs[i];
    }
  }

  /** One whole call. */
  lemma CallCovers(src: Source, r: u32, n: nat, d: Cache, run: seq<Arrival>, a: Arrival)
    requires Numbered(src) && Covered(src, r, n, d, run) && Admissible(a) && FromSource(src, a.s)
    requires Ahead(r, a.s.seqNo) < n && !StaleOnEmpty(d, a.s) && a.now - d.stamp < INTERVAL_RETRY
    ensures var o := Step(d, a.s, a.now, a.area);
            && o.request == None && o.expired == [] && o.overflow == [] && o.cache.stamp == d.stamp
            && Covered(src, r, n, o.cache, run + [a])
            && Ahead(r, d.seqReport) <= Ahead(r, o.cache.seqReport)
            && (forall p <- o.reported :: Delivers(p, src(p.seqNo)))
  {
    hide Ahead, Absorb, Decide, Holds, IsDone, Delivers, ListOk, Tracks, HoldsAll, InsideWindow, Numbered, IsSliceOf;
    if Ahead(r, a.s.seqNo) < Ahead(r, d.seqReport) {
      StaleIgnored(src, r, n, d, run, a);
      StaleTracks(r, n, d, run, a);
      StaleSpares(r, n, d, a);
    } else {
      FreshAbsorbed(src, r, n, d, run, a);
      ReportLoop(src, r, n, d.(packs := Absorb(d, a.s, a.area).packs), run + [a], a.now);
    }
  }

  lemma StaleSpares(r: u32, n: nat, d: Cache, a: Arrival)
    requires Valid(d) && Ahead(r, d.seqReport) <= n <= 15 && InsideWindow(r, n, d.seqReport, d.packs) && Admissible(a)
    requires Ahead(r, a.s.seqNo) < Ahead(r, d.seqReport)
    ensures Absorb(d, a.s, a.area).overflow == []
  {
    hide Ahead;
    NotListed(r, n, d, a.s.seqNo);
    RoomLeft(r, n, d, a.s.seqNo);
    LimitAndFilter(d, a.s, a.area);
  }

  // ---- The run ----

  /** Slices of the n messages from seqReport on, while no request is due. */
  predicate Interleaving(src: Source, c: Cache, n: nat, run: seq<Arrival>) {
    && Numbered(src) && Valid(c) && c.packs == [] && c.retry < COUNT_RETRY && n <= 15
    && AllAdmissible(run) && AllFromSource(src, run)
    && (forall i | 0 <= i < |run| :: Ahead(c.seqReport, run[i].s.seqNo) < n && run[i].now - c.stamp < 100_000)
  }

  lemma {:induction false} RunCovers(src: Source, c: Cache, n: nat, run: seq<Arrival>, base: nat)
    requires Interleaving(src, c, n, run) && NeverStaleOnEmpty(c, run)
    ensures Covered(src, c.seqReport, n, After(c, run), run) && After(c, run).stamp == c.stamp
    ensures Unwrapped(c, run, base) == base + Ahead(c.seqReport, After(c, run).seqReport)
    ensures Overflown(c, run) == [] && Expired(c, run) == []
    ensures forall p <- Reported(c, run) :: Delivers(p, src(p.seqNo))
  {
    hide Ahead, Step, Covered, Valid, Delivers, Numbered, FromSource, StaleOnEmpty;
    if run == [] {
      EmptyCovers(src, c, n);
    } else {
      var d, a := After(c, Init(run)), Final(run);
      RunCovers(src, c, n, Init(run), base);
      CallCovers(src, c.seqReport, n, d, Init(run), a);
      assert Init(run) + [a] == run;
      CoveredBound(src, c.seqReport, n, d, Init(run));
      CoveredBound(src, c.seqReport, n, After(c, run), run);
      WindowDistance(c.seqReport, d.seqReport, After(c, run).seqReport);
    }
  }

  lemma CoveredBound(src: Source, r: u32, n: nat, d: Cache, run: seq<Arrival>)
    requires Covered(src, r, n, d, run)
    ensures Ahead(r, d.seqReport) <= n <= 15 && Valid(d)
  {
  }

  lemma EmptyCovers(src: Source, c: Cache, n: nat)
    requires Interleaving(src, c, n, [])
    ensures Covered(src, c.seqReport, n, c, []) && Ahead(c.seqReport, c.seqReport) == 0
  {
  }

  /** Every slice of each of the n messages has arrived. */
  predicate AllCame(src: Source, r: u32, n: nat, run: seq<Arrival>) {
    forall x: u32 :: Ahead(r, x) < n ==> NoneMissing(src(x), CameOf(run, x))
  }

  lemma AwaitedIsHead(src: Source, r: u32, n: nat, d: Cache, run: seq<Arrival>)
    requires Covered(src, r, n, d, run) && Listed(d.packs, d.seqReport)
    ensures d.packs != [] && d.packs[0].seqNo == d.seqReport
  {
    hide Ahead, Holds, ListOk, IsDone;
    var i :| 0 <= i < |d.packs| && d.packs[i].seqNo == d.seqReport;
    if i > 0 {
      assert d.packs[0] in d.packs;
      FurtherAhead(r, n, d, 0, i);
      assert false;
    }
  }

  /** Once all slices are in, the receiver has moved past all n messages, with an empty list. */
  lemma AllPassed(src: Source, r: u32, n: nat, d: Cache, run: seq<Arrival>)
    requires Numbered(src) && Covered(src, r, n, d, run) && AllCame(src, r, n, run)
    ensures d.packs == [] && d.seqReport == Plus(r, n)
  {
    hide Ahead, Holds, ListOk, IsDone, Plus;
    var x := d.seqReport;
    if Ahead(r, x) < n {
      NumberedAt(src, x);
      CameSome(src(x), CameOf(run, x));
      AwaitedIsHead(src, r, n, d, run);
      assert d.packs[0] in d.packs;
      DoneDelivers(d.packs[0], src(x), UDP_PACKLENGTH);
      assert false;
    }
    if d.packs != [] {
      FrontInside(r, n, d);
      assert false;
    }
    AheadIsPlus(r, x, n);
  }

  lemma FrontInside(r: u32, n: nat, d: Cache)
    requires InsideWindow(r, n, d.seqReport, d.packs) && d.packs != []
    ensures Ahead(r, d.seqReport) < n
  {
    assert d.packs[0] in d.packs;
  }

  lemma CameSome(m: Message, got: set<nat>)
    requires Sliceable(m, UDP_PACKLENGTH) && NoneMissing(m, got)
    ensures got != {}
  {
    SliceCountIsCeiling(|m.data|, UDP_PACKLENGTH);
    assert 0 < m.slices;
    assert 0 in got;
  }

  /** The n messages, whole and in order. */
  predicate AllInOrder(src: Source, r: u32, n: nat, reported: seq<Pack>) {
    |reported| == n && forall k | 0 <= k < n :: Delivers(reported[k], src(Plus(r, k)))
  }

  /** The slices of up to fifteen consecutive messages, in any interleaving, repeated or not,
      before a request is due and with no stale slice on an empty list: the receiver
      asks for nothing, drops nothing, and ends behind the last message with an empty
      list; and it has reported all of them, whole, once each, in order, if and only if every
      call was seamless. */
  lemma InterleavedIff(src: Source, c: Cache, n: nat, run: seq<Arrival>)
    requires Interleaving(src, c, n, run) && NeverStaleOnEmpty(c, run) && AllCame(src, c.seqReport, n, run)
    ensures After(c, run).packs == [] && After(c, run).seqReport == Plus(c.seqReport, n)
    ensures Overflown(c, run) == [] && Expired(c, run) == []
    ensures AllInOrder(src, c.seqReport, n, Reported(c, run)) <==> AllSeamless(c, run)
  {
    hide Ahead, After, Reported, Overflown, Expired, Unwrapped, Positions, Covered, Valid, Numbered, AllSeamless, NeverStaleOnEmpty,
      Plus, Delivers, AllCame, AllAdmissible, AllFromSource, Contiguous, TimeAfter;
    var r := c.seqReport;
    var base: nat := r;
    RunCovers(src, c, n, run, base);
    AllPassed(src, r, n, After(c, run), run);
    EmptyIsLive(c);
    DeliveryGapFreeIff(c, run, base);
    ReportedInOrder(c, run, base);
    FromOrigin(r, n);
    PositionsAre(src, r, n, Reported(c, run), Positions(c, run, base));
  }

  lemma EmptyIsLive(c: Cache)
    requires c.packs == []
    ensures Live(c) && c.seqReport % MODULUS == c.seqReport
  {
  }

  lemma FromOrigin(r: u32, n: nat)
    requires n <= 15
    ensures Ahead(r, Plus(r, n)) == n
  {
    PlusFacts(r, 0, n);
  }

  lemma PositionsAre(src: Source, r: u32, n: nat, reported: seq<Pack>, p: seq<nat>)
    requires Numbered(src) && n <= 15 && NumberedBy(reported, p) && Increasing(p, r, r + n)
    requires forall q <- reported :: Delivers(q, src(q.seqNo))
    ensures Contiguous(p, r, r + n) <==> AllInOrder(src, r, n, reported)
  {
    hide Delivers;
    if Contiguous(p, r, r + n) {
      forall k | 0 <= k < n
        ensures Delivers(reported[k], src(Plus(r, k)))
      {
        assert reported[k] in reported;
      }
    }
    if AllInOrder(src, r, n, reported) {
      forall k | 0 <= k < n
        ensures p[k] == r + k
      {
        DeliveredNumber(reported[k], src(Plus(r, k)));
        NumberedAt(src, Plus(r, k));
        SamePosition(p[k] - r, k, r);
      }
    }
  }

  lemma DeliveredNumber(p: Pack, m: Message)
    requires Delivers(p, m)
    ensures p.seqNo == m.seqNo
  {
  }

  lemma SamePosition(x: nat, k: nat, r: u32)
    requires x < 15 && k < 15 && (r + x) % MODULUS == Plus(r, k)
    ensures x == k
  {
    PlusFacts(r, 0, x);
    PlusFacts(r, 0, k);
  }

  // ---- When the first slices come in order ----

  /** The first slice of a message comes only after one of the message before it. */
  predicate OpenedInOrder(r: u32, run: seq<Arrival>) {
    run != [] ==>
      && OpenedInOrder(r, Init(run))
      && forall y: u32 :: Next(y) == Final(run).s.seqNo && Final(run).s.seqNo != r ==> CameOf(Init(run), y) != {}
  }

  lemma {:induction false} OpenedBefore(r: u32, n: nat, run: seq<Arrival>, y: u32)
    requires OpenedInOrder(r, run) && CameOf(run, Next(y)) != {} && Next(y) != r
    ensures CameOf(run, y) != {}
  {
    if CameOf(Init(run), Next(y)) != {} {
      OpenedBefore(r, n, Init(run), y);
    }
  }

  /** Then the list has no holes: position i is i numbers behind the awaited one. */
  lemma {:induction false} NoHoles(src: Source, r: u32, n: nat, e: Cache, run: seq<Arrival>, i: nat)
    requires Loaded(src, r, n, e, run) && OpenedInOrder(r, run) && i < |e.packs|
    requires e.packs[0].seqNo == e.seqReport
    ensures e.packs[i].seqNo == NumberDue(e.seqReport, e.packs, i)
  {
    hide Holds, ListOk, IsDone, Ahead, Next, OpenedInOrder;
    if i > 0 {
      var x := e.packs[i].seqNo;
      assert e.packs[i] in e.packs && e.packs[i - 1] in e.packs;
      FurtherAhead(r, n, e, i - 1, i);
      var y := Before(r, x);
      OpenedBefore(r, n, run, y);
      if Ahead(r, y) > Ahead(r, e.packs[i - 1].seqNo) {
        var j :| 0 <= j < |e.packs| && e.packs[j].seqNo == y;
        if j < i - 1 {
          FurtherAhead(r, n, e, j, i - 1);
        } else if i < j {
          FurtherAhead(r, n, e, i, j);
        }
        assert false;
      }
      WindowDistance(r, y, e.packs[i - 1].seqNo);
    }
  }

  lemma Before(r: u32, x: u32) returns (y: u32)
    requires 0 < Ahead(r, x) <= 15
    ensures Next(y) == x && x != r && Ahead(r, y) == Ahead(r, x) - 1
  {
    y := (x - 1) % MODULUS;
  }

  lemma LoadedSeamless(src: Source, r: u32, n: nat, e: Cache, run: seq<Arrival>)
    requires Loaded(src, r, n, e, run) && OpenedInOrder(r, run)
    ensures Seamless(e)
  {
    hide Holds, ListOk, IsDone, Ahead, OpenedInOrder, FirstOpen, NumberDue;
    if !Waiting(e) {
      forall i | 0 <= i < FirstOpen(e.packs)
        ensures e.packs[i].seqNo == NumberDue(e.seqReport, e.packs, i)
      {
        NoHoles(src, r, n, e, run, i);
      }
    }
  }

  lemma {:induction false} OpenedSeamless(src: Source, c: Cache, n: nat, run: seq<Arrival>)
    requires Interleaving(src, c, n, run) && NeverStaleOnEmpty(c, run) && OpenedInOrder(c.seqReport, run)
    ensures AllSeamless(c, run)
  {
    hide Ahead, Step, Covered, Valid, Numbered, FromSource, StaleOnEmpty, Seamless, Absorb;
    if run != [] {
      var d, a := After(c, Init(run)), Final(run);
      OpenedSeamless(src, c, n, Init(run));
      RunCovers(src, c, n, Init(run), 0);
      assert Init(run) + [a] == run;
      CallIsSeamless(src, c.seqReport, n, d, Init(run), a);
    }
  }

  lemma CallIsSeamless(src: Source, r: u32, n: nat, d: Cache, run: seq<Arrival>, a: Arrival)
    requires Numbered(src) && Covered(src, r, n, d, run) && Admissible(a) && FromSource(src, a.s)
    requires Ahead(r, a.s.seqNo) < n && !StaleOnEmpty(d, a.s) && OpenedInOrder(r, run + [a])
    ensures CallSeamless(d, a)
  {
    hide Ahead, Absorb, Holds, IsDone, ListOk, Tracks, HoldsAll, InsideWindow, Numbered, IsSliceOf, Seamless, OpenedInOrder;
    if Ahead(r, a.s.seqNo) < Ahead(r, d.seqReport) {
      StaleIgnored(src, r, n, d, run, a);
    } else {
      FreshAbsorbed(src, r, n, d, run, a);
      LoadedSeamless(src, r, n, d.(packs := Absorb(d, a.s, a.area).packs), run + [a]);
    }
  }

  // ---- In terms of the arrivals alone ----

  /** No slice arrives for a message all of whose slices have arrived. */
  predicate NoneLate(src: Source, run: seq<Arrival>) {
    run != [] ==>
      && NoneLate(src, Init(run))
      && !NoneMissing(src(Final(run).s.seqNo), CameOf(Init(run), Final(run).s.seqNo))
  }

  /** All messages before seqReport have arrived whole. */
  predicate PassedWhole(src: Source, r: u32, seqReport: u32, run: seq<Arrival>) {
    forall y: u32 :: Ahead(r, y) < Ahead(r, seqReport) ==> NoneMissing(src(y), CameOf(run, y))
  }

  lemma PassedStays(src: Source, r: u32, seqReport: u32, run: seq<Arrival>, a: Arrival)
    requires PassedWhole(src, r, seqReport, run)
    ensures PassedWhole(src, r, seqReport, run + [a])
  {
    hide Ahead;
    forall y: u32 | Ahead(r, y) < Ahead(r, seqReport)
      ensures NoneMissing(src(y), CameOf(run + [a], y))
    {
      CameMore(run, a, y);
    }
  }

  lemma {:induction false} HolesAt(src: Source, r: u32, n: nat, e: Cache, run: seq<Arrival>, i: nat)
    requires Loaded(src, r, n, e, run) && OpenedInOrder(r, run) && i < |e.packs|
    requires e.packs[0].seqNo == e.seqReport
    ensures Ahead(r, e.packs[i].seqNo) == Ahead(r, e.seqReport) + i
  {
    hide Holds, ListOk, IsDone, Ahead, Next, OpenedInOrder;
    if i > 0 {
      HolesAt(src, r, n, e, run, i - 1);
      NoHoles(src, r, n, e, run, i);
      assert e.packs[i - 1] in e.packs;
      NextInWindow(r, e.packs[i - 1].seqNo);
    }
  }

  lemma ReportPasses(src: Source, r: u32, n: nat, e: Cache, run: seq<Arrival>, now: int)
    requires Numbered(src) && Loaded(src, r, n, e, run) && OpenedInOrder(r, run) && now - e.stamp < INTERVAL_RETRY
    requires PassedWhole(src, r, e.seqReport, run)
    ensures PassedWhole(src, r, Decide(e, now).cache.seqReport, run)
  {
    hide Ahead, Decide, Holds, IsDone, ListOk, Next, OpenedInOrder, NoneMissing;
    NothingDue(e, now);
    var m := PatientShape(e, now);
    if m > 0 {
      assert e.packs[m - 1] in e.packs;
      HolesAt(src, r, n, e, run, m - 1);
      NextInWindow(r, e.packs[m - 1].seqNo);
      forall y: u32 | Ahead(r, e.seqReport) <= Ahead(r, y) < Ahead(r, Decide(e, now).cache.seqReport)
        ensures NoneMissing(src(y), CameOf(run, y))
      {
        var i := Ahead(r, y) - Ahead(r, e.seqReport);
        HolesAt(src, r, n, e, run, i);
        assert e.packs[i] in e.packs;
        WindowDistance(r, y, e.packs[i].seqNo);
        DoneDelivers(e.packs[i], src(y), UDP_PACKLENGTH);
      }
    }
  }

  lemma CallPasses(src: Source, r: u32, n: nat, d: Cache, run: seq<Arrival>, a: Arrival)
    requires Numbered(src) && Covered(src, r, n, d, run) && Admissible(a) && FromSource(src, a.s)
    requires Ahead(r, a.s.seqNo) < n && OpenedInOrder(r, run + [a]) && a.now - d.stamp < INTERVAL_RETRY
    requires Ahead(r, d.seqReport) <= Ahead(r, a.s.seqNo) && PassedWhole(src, r, d.seqReport, run)
    ensures PassedWhole(src, r, Step(d, a.s, a.now, a.area).cache.seqReport, run + [a])
  {
    hide Ahead, Absorb, Decide, Holds, IsDone, ListOk, Tracks, HoldsAll, InsideWindow, Numbered, IsSliceOf, OpenedInOrder, PassedWhole;
    FreshAbsorbed(src, r, n, d, run, a);
    PassedStays(src, r, d.seqReport, run, a);
    ReportPasses(src, r, n, d.(packs := Absorb(d, a.s, a.area).packs), run + [a], a.now);
  }

  lemma NotPassed(src: Source, r: u32, n: nat, d: Cache, run: seq<Arrival>, s: Slice)
    requires Covered(src, r, n, d, run) && PassedWhole(src, r, d.seqReport, run) && Ahead(r, s.seqNo) < n
    requires !NoneMissing(src(s.seqNo), CameOf(run, s.seqNo))
    ensures Ahead(r, d.seqReport) <= Ahead(r, s.seqNo) && !StaleOnEmpty(d, s)
  {
    hide Ahead, TimeAfter, Holds, NoneMissing;
    WindowDistance(r, d.seqReport, s.seqNo);
  }

  lemma {:induction false} NoneLateNeverStale(src: Source, c: Cache, n: nat, run: seq<Arrival>)
    requires Interleaving(src, c, n, run) && OpenedInOrder(c.seqReport, run) && NoneLate(src, run)
    ensures NeverStaleOnEmpty(c, run) && PassedWhole(src, c.seqReport, After(c, run).seqReport, run)
  {
    hide Ahead, Step, Covered, Valid, Numbered, FromSource, StaleOnEmpty, NoneMissing;
    if run == [] {
      EmptyCovers(src, c, n);
    } else {
      var d, a := After(c, Init(run)), Final(run);
      NoneLateNeverStale(src, c, n, Init(run));
      RunCovers(src, c, n, Init(run), 0);
      assert Init(run) + [a] == run;
      NotPassed(src, c.seqReport, n, d, Init(run), a.s);
      CallPasses(src, c.seqReport, n, d, Init(run), a);
    }
  }

  /** Up to fifteen consecutive messages from the awaited one on, the first slices in order,
      all other slices in any interleaving, none for a message that is already whole: all
      messages are reported, whole, once each, in order, and nothing is left. */
  lemma AllInterleavedDelivered(src: Source, c: Cache, n: nat, run: seq<Arrival>)
    requires Interleaving(src, c, n, run) && AllCame(src, c.seqReport, n, run)
    requires OpenedInOrder(c.seqReport, run) && NoneLate(src, run)
    ensures AllInOrder(src, c.seqReport, n, Reported(c, run))
    ensures After(c, run).packs == [] && After(c, run).seqReport == Plus(c.seqReport, n)
  {
    hide Interleaving, NeverStaleOnEmpty, AllSeamless, AllInOrder, After, Reported, OpenedInOrder, AllCame, NoneLate, PassedWhole;
    NoneLateNeverStale(src, c, n, run);
    OpenedSeamless(src, c, n, run);
    InterleavedIff(src, c, n, run);
  }

  // ---- Two messages at once ----

  function PieceCall(m: Message, i: nat): Arrival
    requires Sliceable(m, UDP_PACKLENGTH) && i < m.slices
  {
    Arrival(Fragments(m, UDP_PACKLENGTH)[i], 0, seq(AreaSize(m.slices), _ => 0))
  }

  /** Awaiting 5, with messages 5 and 6 of two slices each: the first slice of 5, both of 6 and
      the second of 5 report both, 5 first. */
  lemma TwoAtOnce(src: Source)
    requires Numbered(src) && src(5).slices == 2 && src(6).slices == 2
    ensures var run := [PieceCall(src(5), 0), PieceCall(src(6), 0), PieceCall(src(6), 1), PieceCall(src(5), 1)];
            && Valid(Cache([], 5, 0, 0)) && AllAdmissible(run)
            && AllInOrder(src, 5, 2, Reported(Cache([], 5, 0, 0), run))
  {
    hide IsSliceOf, Sliceable, After, Reported, AllInOrder, NoneMissing, Fragments;
    var w, x, y, z := PieceCall(src(5), 0), PieceCall(src(6), 0), PieceCall(src(6), 1), PieceCall(src(5), 1);
    PieceCallIs(src, 5, 0);
    PieceCallIs(src, 6, 0);
    PieceCallIs(src, 6, 1);
    PieceCallIs(src, 5, 1);
    var run := [w, x, y, z];
    FourCame(w, x, y, z);
    FourOpened(w, x, y, z);
    TwoMissing(src(5));
    TwoMissing(src(6));
    FourInits(w, x, y, z);
    FourNotLate(src, w, x, y, z);
    NearFive();
    AllInterleavedDelivered(src, Cache([], 5, 0, 0), 2, run);
  }

  lemma PieceCallIs(src: Source, n: u32, i: nat)
    requires Numbered(src) && i < src(n).slices
    ensures var a := PieceCall(src(n), i);
            Admissible(a) && FromSource(src, a.s) && a.s.seqNo == n && a.s.cur == i && a.now == 0
  {
    var m := src(n);
    assert Fragments(m, UDP_PACKLENGTH)[i] == SliceOf(m, i, UDP_PACKLENGTH);
    PieceBounds(m, i, UDP_PACKLENGTH);
  }

  lemma FourInits(w: Arrival, x: Arrival, y: Arrival, z: Arrival)
    ensures Init([w, x, y, z]) == [w, x, y] && Final([w, x, y, z]) == z
    ensures Init([w, x, y]) == [w, x] && Final([w, x, y]) == y
    ensures Init([w, x]) == [w] && Final([w, x]) == x
    ensures Init([w]) == [] && Final([w]) == w
  {
  }

  lemma FourOpened(w: Arrival, x: Arrival, y: Arrival, z: Arrival)
    requires w.s.seqNo == z.s.seqNo == 5 && x.s.seqNo == y.s.seqNo == 6
    requires CameOf([w], 5) != {} && CameOf([w, x], 5) != {}
    ensures OpenedInOrder(5, [w, x, y, z])
  {
    FourInits(w, x, y, z);
    assert OpenedInOrder(5, []);
    assert OpenedInOrder(5, [w]);
    forall n: u32 | Next(n) == 6
      ensures n == 5
    {
    }
    assert OpenedInOrder(5, [w, x]);
    assert OpenedInOrder(5, [w, x, y]);
  }

  lemma FourCame(w: Arrival, x: Arrival, y: Arrival, z: Arrival)
    requires w.s.seqNo == z.s.seqNo == 5 && x.s.seqNo == y.s.seqNo == 6
    requires w.s.cur == x.s.cur == 0 && y.s.cur == z.s.cur == 1
    ensures CameOf([], 5) == {} && CameOf([w], 5) == CameOf([w, x], 5) == CameOf([w, x, y], 5) == {0}
    ensures CameOf([w, x, y, z], 5) == {0, 1} == CameOf([w, x, y, z], 6)
    ensures CameOf([w], 6) == {} && CameOf([w, x], 6) == {0}
  {
    assert [w, x, y, z] == [w, x, y] + [z] && [w, x, y] == [w, x] + [y] && [w, x] == [w] + [x] && [w] == [] + [w];
    CameMore([], w, 5);
    CameMore([], w, 6);
    CameMore([w], x, 5);
    CameMore([w], x, 6);
    CameMore([w, x], y, 5);
    CameMore([w, x], y, 6);
    CameMore([w, x, y], z, 5);
    CameMore([w, x, y], z, 6);
  }

  lemma FourNotLate(src: Source, w: Arrival, x: Arrival, y: Arrival, z: Arrival)
    requires w.s.seqNo == z.s.seqNo == 5 && x.s.seqNo == y.s.seqNo == 6
    requires !NoneMissing(src(5), CameOf([], 5)) && !NoneMissing(src(6), CameOf([w], 6))
    requires !NoneMissing(src(6), CameOf([w, x], 6)) && !NoneMissing(src(5), CameOf([w, x, y], 5))
    ensures NoneLate(src, [w, x, y, z])
  {
    hide NoneMissing, CameOf;
    FourInits(w, x, y, z);
    assert NoneLate(src, []) && NoneLate(src, [w]) && NoneLate(src, [w, x]) && NoneLate(src, [w, x, y]);
  }

  lemma NearFive()
    ensures Ahead(5, 5) == 0 && Ahead(5, 6) == 1
    ensures forall x: u32 :: Ahead(5, x) < 2 ==> x == 5 || x == 6
  {
  }

  lemma TwoMissing(m: Message)
    requires m.slices == 2
    ensures !NoneMissing(m, {}) && !NoneMissing(m, {0}) && NoneMissing(m, {0, 1})
  {
    var none: set<nat> := {};
    var one: set<nat> := {0};
    assert 0 !in none && 1 !in one;
  }
}
