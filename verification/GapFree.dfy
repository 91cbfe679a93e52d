/** When delivery is free of gaps. The report loop does not check that the next
    package carries the awaited number (socket/UdpCombinePackage.cpp:149-161); here is
    exactly when it makes no difference, for one call and for whole runs. */
module GapFree {
  import opened Types
  import opened Serial
  import opened Packet
  import opened Reassembly
  import opened Reorder
  import opened Delivery
  import opened InOrder
  import opened SenderWindow

  /** The number after that of the predecessor in the list, for the first the awaited one. */
  function NumberDue(awaited: u32, packs: seq<Pack>, i: nat): u32
    requires i < |packs|
  {
    if i == 0 then awaited else Next(packs[i - 1].seqNo)
  }

  /** Some leading complete package does not carry the number due. */
  predicate Jumps(awaited: u32, packs: seq<Pack>) {
    exists i :: 0 <= i < FirstOpen(packs) && packs[i].seqNo != NumberDue(awaited, packs, i)
  }

  /** Read off the cache before the report loop: the call waits, or the leading
      complete packages follow each other; once the budget is spent the front package
      must also be complete, for otherwise it expires. */
  predicate Seamless(d: Cache)
    requires d.packs != []
  {
    if d.retry < COUNT_RETRY then Waiting(d) || !Jumps(d.seqReport, d.packs)
    else IsDone(d.packs[0]) && !Jumps(d.seqReport, d.packs)
  }

  /** The reported numbers are consecutive from the awaited one, and all that seqReport
      has moved past was reported. */
  predicate NoGap(awaited: u32, o: Outcome) {
    && o.cache.seqReport == Plus(awaited, |o.reported|)
    && (forall i | 0 <= i < |o.reported| :: o.reported[i].seqNo == Plus(awaited, i))
  }

  // ---- One call ----

  predicate Follows(awaited: u32, packs: seq<Pack>, m: nat)
    requires m <= |packs|
  {
    forall i | 0 <= i < m :: packs[i].seqNo == NumberDue(awaited, packs, i)
  }

  lemma {:induction false} FollowsIsConsecutive(awaited: u32, packs: seq<Pack>, m: nat)
    requires m <= |packs|
    ensures Follows(awaited, packs, m) <==> forall i | 0 <= i < m :: packs[i].seqNo == Plus(awaited, i)
    ensures Follows(awaited, packs, m) && m > 0 ==> Next(packs[m - 1].seqNo) == Plus(awaited, m)
  {
    hide Plus, Next;
    FromItself(awaited);
    if m > 0 {
      FollowsIsConsecutive(awaited, packs, m - 1);
      PlusFacts(awaited, m - 1, 0);
      assert Follows(awaited, packs, m) <==>
             Follows(awaited, packs, m - 1)
             && packs[m - 1].seqNo == NumberDue(awaited, packs, m - 1);
      if Follows(awaited, packs, m - 1) {
        assert NumberDue(awaited, packs, m - 1) == Plus(awaited, m - 1);
      }
    }
  }

  lemma JumpsIff(awaited: u32, packs: seq<Pack>)
    ensures Jumps(awaited, packs) <==> !Follows(awaited, packs, FirstOpen(packs))
  {
    hide Next;
  }

  lemma {:induction false} AtLeastApart(c: Cache, i: nat)
    requires Valid(c) && Live(c) && i < |c.packs|
    ensures Ahead(c.seqReport, c.packs[i].seqNo) >= i
  {
    if i > 0 {
      AtLeastApart(c, i - 1);
      WindowTotallyOrdered(c.packs, c.seqReport, i - 1, i);
    }
  }

  lemma PrefixNoGap(c: Cache, o: Outcome, m: nat)
    requires Removes(c.packs, c.seqReport, o, 0, m)
    ensures NoGap(c.seqReport, o) <==> Follows(c.seqReport, c.packs, m)
  {
    hide Plus, Next;
    FromItself(c.seqReport);
    FollowsIsConsecutive(c.seqReport, c.packs, m);
  }

  /** An expired package leaves a gap. */
  lemma ExpiredIsGap(c: Cache, o: Outcome, k: nat, m: nat)
    requires Valid(c) && Live(c) && Removes(c.packs, c.seqReport, o, k, m) && k > 0
    ensures !NoGap(c.seqReport, o)
  {
    hide Plus, ListOk, IsDone;
    AtLeastApart(c, m - 1);
    AheadNext(c.seqReport, c.packs[m - 1].seqNo);
    PlusFacts(c.seqReport, 0, m - k);
  }

  lemma OpenAt(packs: seq<Pack>, m: nat)
    requires m <= |packs| && (m < |packs| ==> !IsDone(packs[m]))
    requires forall i | 0 <= i < m :: IsDone(packs[i])
    ensures FirstOpen(packs) == m
  {
  }

  lemma AsksWithOpenFront(c: Cache, now: int)
    requires c.packs != [] && c.retry < COUNT_RETRY && !Waiting(c) && Decide(c, now).request.Some?
    ensures FirstOpen(c.packs) == 0
  {
  }

  /** One call reports without a gap if and only if the cache was seamless before its
      report loop. */
  lemma DecideNoGapIff(c: Cache, now: int)
    requires Valid(c) && Live(c) && c.packs != []
    ensures NoGap(c.seqReport, Decide(c, now)) <==> Seamless(c)
    ensures NoGap(c.seqReport, Decide(c, now)) ==> Decide(c, now).expired == []
  {
    hide Decide, NoGap, Follows, Jumps, Live, ListOk, FirstOpen;
    var o := Decide(c, now);
    JumpsIff(c.seqReport, c.packs);
    if c.retry < COUNT_RETRY {
      var m := PatientShape(c, now);
      PrefixNoGap(c, o, m);
      NothingFollows(c.seqReport, c.packs);
      if !Waiting(c) && o.request.Some? {
        AsksWithOpenFront(c, now);
      }
    } else {
      var k, m := TimeoutShape(c, now);
      if k > 0 {
        ExpiredIsGap(c, o, k, m);
      } else {
        OpenAt(c.packs, m);
        PrefixNoGap(c, o, m);
      }
    }
  }

  lemma NothingFollows(awaited: u32, packs: seq<Pack>)
    ensures Follows(awaited, packs, 0)
  {
  }

  predicate CallSeamless(c: Cache, a: Arrival)
    requires Valid(c) && Admissible(a)
  {
    AbsorbKeepsList(c, a.s, a.area);
    var x := Absorb(c, a.s, a.area);
    x.ignored || Seamless(c.(packs := x.packs))
  }

  lemma StepNoGapIff(c: Cache, a: Arrival)
    requires Valid(c) && Live(c) && Admissible(a) && !StaleOnEmpty(c, a.s)
    ensures NoGap(c.seqReport, Step(c, a.s, a.now, a.area)) <==> CallSeamless(c, a)
  {
    hide Absorb, Decide, Seamless, ListOk, Plus;
    AbsorbUpcoming(c, a.s, a.area);
    AbsorbKeepsList(c, a.s, a.area);
    var x := Absorb(c, a.s, a.area);
    FromItself(c.seqReport);
    if !x.ignored {
      DecideNoGapIff(c.(packs := x.packs), a.now);
    }
  }

  // ---- Whole runs ----

  predicate AllSeamless(c: Cache, run: seq<Arrival>)
    requires Valid(c) && AllAdmissible(run)
  {
    run != [] ==> AllSeamless(c, Init(run)) && CallSeamless(After(c, Init(run)), Final(run))
  }

  /** Exactly the numbers from low up to high. */
  predicate Contiguous(p: seq<nat>, low: nat, high: nat) {
    low + |p| == high && forall i | 0 <= i < |p| :: p[i] == low + i
  }

  lemma {:induction false} IncreasingApart(p: seq<nat>, low: nat, high: nat, i: nat)
    requires Increasing(p, low, high) && i < |p|
    ensures low + i <= p[i]
  {
    if i > 0 {
      IncreasingApart(p, low, high, i - 1);
    }
  }

  lemma IncreasingBound(p: seq<nat>, low: nat, high: nat)
    requires Increasing(p, low, high) && low <= high
    ensures low + |p| <= high
  {
    if p != [] {
      IncreasingApart(p, low, high, |p| - 1);
    }
  }

  lemma ContiguousParts(p: seq<nat>, q: seq<nat>, low: nat, mid: nat, high: nat)
    requires low <= mid <= high && Increasing(p, low, mid) && Increasing(q, mid, high)
    ensures Contiguous(p + q, low, high) <==> Contiguous(p, low, mid) && Contiguous(q, mid, high)
  {
    IncreasingBound(p, low, mid);
    IncreasingBound(q, mid, high);
    if Contiguous(p + q, low, high) {
      forall i | 0 <= i < |p|
        ensures p[i] == low + i
      {
        assert (p + q)[i] == p[i];
      }
      forall i | 0 <= i < |q|
        ensures q[i] == mid + i
      {
        assert (p + q)[|p| + i] == q[i];
      }
    }
  }

  lemma AheadIsPlus(from: u32, to: u32, n: nat)
    requires n < MODULUS
    ensures Ahead(from, to) == n <==> to == Plus(from, n)
  {
    hide Plus;
    PlusAhead(from, to);
    PlusFacts(from, 0, n);
    FromItself(from);
  }

  lemma ShiftedContiguousIff(base: nat, awaited: u32, o: Outcome)
    requires Orderly(awaited, o) && base % MODULUS == awaited
    ensures Contiguous(Shifted(base, awaited, o.reported), base, base + Ahead(awaited, o.cache.seqReport))
            <==> NoGap(awaited, o)
  {
    OneMoreCall(base, awaited, o);
    OrderlyBound(awaited, o);
    hide Plus, Ahead, Orderly, Increasing;
    var p := Shifted(base, awaited, o.reported);
    IncreasingBound(p, base, base + Ahead(awaited, o.cache.seqReport));
    AheadIsPlus(awaited, o.cache.seqReport, |p|);
    forall i | 0 <= i < |p|
      ensures p[i] == base + i <==> o.reported[i].seqNo == Plus(awaited, i)
    {
      AheadIsPlus(awaited, o.reported[i].seqNo, i);
    }
  }

  lemma OrderlyBound(awaited: u32, o: Outcome)
    requires Orderly(awaited, o)
    ensures Ahead(awaited, o.cache.seqReport) <= HALF
  {
  }

  /** Over a run with no stale slice on an empty list, what was reported is every number
      from the awaited one up to seqReport, without wrap-around, if and only if
      every call was seamless: no leading complete package jumped a number and none expired. */
  lemma {:induction false} DeliveryGapFreeIff(c: Cache, run: seq<Arrival>, base: nat)
    requires Valid(c) && AllAdmissible(run) && Live(c) && base % MODULUS == c.seqReport
    requires NeverStaleOnEmpty(c, run)
    ensures Contiguous(Positions(c, run, base), base, Unwrapped(c, run, base)) <==> AllSeamless(c, run)
  {
    hide Step, Valid, Shifted, Orderly, Upcoming, StaleOnEmpty, Contiguous, CallSeamless, NoGap, Increasing, NumberedBy;
    if run == [] {
      NothingContiguous(base);
    } else {
      var was, a := Init(run), Final(run);
      var d := After(c, was);
      DeliveryGapFreeIff(c, was, base);
      ReportedInOrder(c, was, base);
      StepOrderly(d, a.s, a.now, a.area);
      StepNoGapIff(d, a);
      var u := Unwrapped(c, was, base);
      OneMoreCall(u, d.seqReport, LastOutcome(c, run));
      ShiftedContiguousIff(u, d.seqReport, LastOutcome(c, run));
      ContiguousParts(Positions(c, was, base), Shifted(u, d.seqReport, LastOutcome(c, run).reported),
                      base, u, Unwrapped(c, run, base));
    }
  }

  lemma NothingContiguous(base: nat)
    ensures Contiguous([], base, base)
  {
  }
}
