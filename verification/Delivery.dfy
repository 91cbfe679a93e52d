/** What one OnUdpSliceReceived call removes from the list, whole runs of such calls,
    and the conservation of packages over them. */
module Delivery {
  import opened Types
  import opened Serial
  import opened Packet
  import opened Reassembly
  import opened Reorder

  // ---- The shape of one call ----

  /** The call removed a prefix of the list, first k incomplete packages that
      expired, then m - k complete ones that were reported, and left seqReport
      just past the last one removed. */
  predicate Removes(packs: seq<Pack>, seqReport: u32, o: Outcome, k: nat, m: nat) {
    && k <= m <= |packs|
    && o.cache.packs == packs[m..]
    && o.expired == packs[..k]
    && o.reported == packs[k..m]
    && o.cache.seqReport == (if m == 0 then seqReport else Next(packs[m - 1].seqNo))
    && (forall i | 0 <= i < k :: !IsDone(packs[i]))
    && (forall i | k <= i < m :: IsDone(packs[i]))
  }

  /** A number before the front package is still awaited and the budget is not spent. */
  predicate Waiting(c: Cache)
    requires c.packs != []
  {
    c.retry < COUNT_RETRY && c.seqReport != c.packs[0].seqNo
  }

  lemma PatientShape(c: Cache, now: int) returns (m: nat)
    requires c.packs != [] && c.retry < COUNT_RETRY
    ensures Removes(c.packs, c.seqReport, Decide(c, now), 0, m)
    ensures Decide(c, now).request.Some? || Waiting(c) ==> m == 0
    ensures Decide(c, now).request.None? && !Waiting(c) ==> m == FirstOpen(c.packs)
  {
    m := if Waiting(c) || Decide(c, now).request.Some? then 0 else FirstOpen(c.packs);
    assert c.packs[0..] == c.packs;
  }

  lemma TimeoutOutcome(c: Cache, now: int)
    requires c.packs != [] && c.retry >= COUNT_RETRY
    ensures var k, o := FirstDone(c.packs), Decide(c, now);
            var rest := c.packs[k..];
            var n := FirstOpen(rest);
            && o.expired == c.packs[..k] && o.reported == rest[..n] && o.cache.packs == rest[n..]
            && (n > 0 ==> o.cache.seqReport == Next(rest[n - 1].seqNo))
            && (n == 0 ==> o.cache.seqReport == Next(c.packs[if k < |c.packs| then k else k - 1].seqNo))
  {
    hide IsDone, Next, FirstDone, FirstOpen;
  }

  lemma TimeoutShape(c: Cache, now: int) returns (k: nat, m: nat)
    requires c.packs != [] && c.retry >= COUNT_RETRY
    ensures Removes(c.packs, c.seqReport, Decide(c, now), k, m)
    ensures k == FirstDone(c.packs) && 0 < m
    ensures m == |c.packs| || !IsDone(c.packs[m])
    ensures k < |c.packs| ==> k < m
  {
    hide IsDone, Next, Decide, FirstDone, FirstOpen;
    TimeoutOutcome(c, now);
    k := FirstDone(c.packs);
    var rest := c.packs[k..];
    var n := FirstOpen(rest);
    m := k + n;
    assert rest[..n] == c.packs[k..m] && rest[n..] == c.packs[m..];
    assert n > 0 ==> rest[n - 1] == c.packs[m - 1];
  }

  /** Whatever branch the call takes. The timeout branch never deletes a complete
      package, and unless the call waits or has just asked, it ends with the list
      empty or its head incomplete. */
  lemma DecideShape(c: Cache, now: int) returns (k: nat, m: nat)
    requires c.packs != []
    ensures Removes(c.packs, c.seqReport, Decide(c, now), k, m)
    ensures Decide(c, now).request.Some? || Waiting(c) ==> m == 0
    ensures Decide(c, now).request.None? && !Waiting(c) ==> m == |c.packs| || !IsDone(c.packs[m])
  {
    if c.retry < COUNT_RETRY {
      k := 0;
      m := PatientShape(c, now);
    } else {
      k, m := TimeoutShape(c, now);
    }
  }

  // ---- Runs ----

  /** One call: the slice, the clock, and what the memory of a new package holds. */
  datatype Arrival = Arrival(s: Slice, now: int, area: seq<byte>)

  predicate Admissible(a: Arrival) {
    WellFormed(a.s) && |a.area| == AreaSize(a.s.slices)
  }

  predicate AllAdmissible(run: seq<Arrival>) {
    forall i | 0 <= i < |run| :: Admissible(run[i])
  }

  function Init<T>(run: seq<T>): seq<T>
    requires run != []
  {
    run[..|run| - 1]
  }

  function Final<T>(run: seq<T>): T
    requires run != []
  {
    run[|run| - 1]
  }

  function After(c: Cache, run: seq<Arrival>): (d: Cache)
    requires Valid(c) && AllAdmissible(run)
    ensures Valid(d)
  {
    if run == [] then c
    else
      var a := Final(run);
      StepKeepsValid(After(c, Init(run)), a.s, a.now, a.area);
      Step(After(c, Init(run)), a.s, a.now, a.area).cache
  }

  /** The outcome of the last call of the run. */
  function LastOutcome(c: Cache, run: seq<Arrival>): Outcome
    requires Valid(c) && AllAdmissible(run) && run != []
  {
    var a := Final(run);
    Step(After(c, Init(run)), a.s, a.now, a.area)
  }

  function Reported(c: Cache, run: seq<Arrival>): seq<Pack>
    requires Valid(c) && AllAdmissible(run)
  {
    if run == [] then [] else Reported(c, Init(run)) + LastOutcome(c, run).reported
  }

  function Overflown(c: Cache, run: seq<Arrival>): seq<Pack>
    requires Valid(c) && AllAdmissible(run)
  {
    if run == [] then [] else Overflown(c, Init(run)) + LastOutcome(c, run).overflow
  }

  function Expired(c: Cache, run: seq<Arrival>): seq<Pack>
    requires Valid(c) && AllAdmissible(run)
  {
    if run == [] then [] else Expired(c, Init(run)) + LastOutcome(c, run).expired
  }

  /** The number of every package the run created, in order of creation. */
  function Created(c: Cache, run: seq<Arrival>): seq<u32>
    requires Valid(c) && AllAdmissible(run)
  {
    if run == [] then []
    else Created(c, Init(run)) + CreatedBy(LastOutcome(c, run), Final(run).s)
  }

  lemma OneCall(c: Cache, a: Arrival)
    requires Valid(c) && Admissible(a)
    ensures AllAdmissible([a])
    ensures After(c, [a]) == Step(c, a.s, a.now, a.area).cache
    ensures Reported(c, [a]) == Step(c, a.s, a.now, a.area).reported
  {
    assert Init([a]) == [] && Final([a]) == a;
    assert Reported(c, []) == [];
  }

  /** One run after another. */
  lemma {:induction false} RunsConcat(c: Cache, x: seq<Arrival>, y: seq<Arrival>)
    requires Valid(c) && AllAdmissible(x) && AllAdmissible(y)
    ensures AllAdmissible(x + y)
    ensures After(c, x + y) == After(After(c, x), y)
    ensures Reported(c, x + y) == Reported(c, x) + Reported(After(c, x), y)
  {
    hide Step, Valid, Admissible;
    if y == [] {
      assert x + y == x;
    } else {
      RunsConcat(c, x, Init(y));
      assert Init(x + y) == x + Init(y) && Final(x + y) == Final(y);
    }
  }

  // ---- Conservation ----

  function Numbers(packs: seq<Pack>): (n: seq<u32>)
    ensures |n| == |packs|
    ensures forall i | 0 <= i < |n| :: n[i] == packs[i].seqNo
  {
    seq(|packs|, i requires 0 <= i < |packs| => packs[i].seqNo)
  }

  /** How many packages carry each number. */
  function Tally(packs: seq<Pack>): multiset<u32> {
    multiset(Numbers(packs))
  }

  lemma NumbersConcat(a: seq<Pack>, b: seq<Pack>)
    ensures Numbers(a + b) == Numbers(a) + Numbers(b)
    ensures Tally(a + b) == Tally(a) + Tally(b)
  {
    assert Numbers(a + b) == Numbers(a) + Numbers(b);
  }

  lemma NumbersSplit(packs: seq<Pack>, n: nat)
    requires n <= |packs|
    ensures Tally(packs) == Tally(packs[..n]) + Tally(packs[n..])
  {
    assert packs == packs[..n] + packs[n..];
    NumbersConcat(packs[..n], packs[n..]);
  }

  lemma UpdateConserves(packs: seq<Pack>, i: nat, p: Pack)
    requires i < |packs| && p.seqNo == packs[i].seqNo
    ensures Tally(packs[i := p]) == Tally(packs)
  {
    assert Numbers(packs[i := p]) == Numbers(packs);
  }

  lemma InsertConserves(packs: seq<Pack>, n: nat, j: nat, p: Pack)
    requires n <= |packs| && j <= |packs[n..]|
    ensures Tally(packs) + multiset{p.seqNo}
         == Tally(packs[n..][..j] + [p] + packs[n..][j..]) + Tally(packs[..n])
  {
    hide Tally;
    var kept := packs[n..];
    NumbersSplit(packs, n);
    NumbersSplit(kept, j);
    NumbersConcat(kept[..j] + [p], kept[j..]);
    NumbersConcat(kept[..j], [p]);
    TallyOne(p);
  }

  lemma TallyOne(p: Pack)
    ensures Tally([p]) == multiset{p.seqNo}
  {
    assert Numbers([p]) == [p.seqNo];
  }

  /** Finding room and inserting neither loses nor duplicates a package. */
  lemma AbsorbConserves(c: Cache, s: Slice, area: seq<byte>)
    requires Valid(c) && WellFormed(s) && |area| == AreaSize(s.slices)
    ensures var a := Absorb(c, s, area);
            Tally(c.packs) + (if a.created then multiset{s.seqNo} else multiset{})
            == Tally(a.packs) + Tally(a.overflow)
  {
    hide Put, Start, TimeAfter, Tally, PackOk, Distinct, Chained, IndexOf, InsertPos, Dropped;
    var i := IndexOf(c.packs, s.seqNo);
    TallyNone();
    if i < |c.packs| {
      PutFitsOk(c.packs[i], s);
      UpdateConserves(c.packs, i, Put(c.packs[i], s));
    } else {
      var n := Dropped(c.packs);
      DroppedBound(c.packs);
      StartFitsOk(s, area);
      NumbersSplit(c.packs, n);
      InsertConserves(c.packs, n, InsertPos(c.packs[n..], s.seqNo), Start(s, UDP_PACKLENGTH, area));
    }
  }

  lemma DroppedBound(packs: seq<Pack>)
    ensures Dropped(packs) <= |packs|
  {
  }

  lemma DecideConserves(c: Cache, now: int)
    requires c.packs != []
    ensures var o := Decide(c, now);
            Tally(c.packs)
            == Tally(o.cache.packs) + Tally(o.reported) + Tally(o.expired)
  {
    var k, m := DecideShape(c, now);
    NumbersSplit(c.packs, m);
    NumbersSplit(c.packs[..m], k);
    assert c.packs[..m][..k] == c.packs[..k] && c.packs[..m][k..] == c.packs[k..m];
  }

  /** The numbers a call takes in are the numbers it accounts for. */
  predicate Balanced(listed: multiset<u32>, created: multiset<u32>, o: Outcome) {
    listed + created
    == Tally(o.cache.packs) + Tally(o.reported)
       + Tally(o.overflow) + Tally(o.expired)
  }

  function CreatedBy(o: Outcome, s: Slice): seq<u32> {
    if o.created then [s.seqNo] else []
  }

  lemma Shuffle(p: multiset<u32>, r: multiset<u32>, o: multiset<u32>, e: multiset<u32>)
    ensures p + r + e + o == p + r + o + e
  {
  }

  lemma StepConserves(c: Cache, s: Slice, now: int, area: seq<byte>)
    requires Valid(c) && WellFormed(s) && |area| == AreaSize(s.slices)
    ensures Balanced(Tally(c.packs), multiset(CreatedBy(Step(c, s, now, area), s)), Step(c, s, now, area))
    ensures AllDone(Step(c, s, now, area).reported) && NoneDone(Step(c, s, now, area).expired)
  {
    hide Absorb, Decide, Tally, ListOk, Removes;
    var a := Absorb(c, s, area);
    AbsorbConserves(c, s, area);
    AbsorbKeepsList(c, s, area);
    if a.ignored {
      AbsorbIgnored(c, s, area);
      TallyNone();
    } else {
      var d := c.(packs := a.packs);
      var o := Decide(d, now);
      DecideConserves(d, now);
      DecideSorts(d, now);
      Shuffle(Tally(o.cache.packs), Tally(o.reported), Tally(a.overflow), Tally(o.expired));
    }
  }

  lemma TallyNone()
    ensures Tally([]) == multiset{}
  {
  }

  predicate AllDone(packs: seq<Pack>) {
    forall i | 0 <= i < |packs| :: IsDone(packs[i])
  }

  predicate NoneDone(packs: seq<Pack>) {
    forall i | 0 <= i < |packs| :: !IsDone(packs[i])
  }

  lemma DecideSorts(c: Cache, now: int)
    requires c.packs != []
    ensures AllDone(Decide(c, now).reported) && NoneDone(Decide(c, now).expired)
  {
    hide Decide;
    var k, m := DecideShape(c, now);
  }

  /** What the 15-entry limit and the stale filter do: a new number at a full list costs
      the front package, even when the slice is then filtered as stale. */
  lemma LimitAndFilter(c: Cache, s: Slice, area: seq<byte>)
    requires Valid(c) && WellFormed(s) && |area| == AreaSize(s.slices)
    ensures var a, unlisted := Absorb(c, s, area), forall p <- c.packs :: p.seqNo != s.seqNo;
            && a.overflow == (if unlisted && |c.packs| == 15 then [c.packs[0]] else [])
            && (a.ignored <==> unlisted && c.packs != [] && TimeAfter(c.seqReport, s.seqNo))
            && (a.created <==> unlisted && !a.ignored)
  {
    hide Put, Start, PackOk, TimeAfter, Distinct, Chained;
    var i := IndexOf(c.packs, s.seqNo);
    if i < |c.packs| {
      assert c.packs[i] in c.packs;
    } else {
      StartFitsOk(s, area);
    }
  }

  lemma AbsorbIgnored(c: Cache, s: Slice, area: seq<byte>)
    requires Valid(c) && WellFormed(s) && |area| == AreaSize(s.slices)
    ensures Absorb(c, s, area).ignored ==> !Absorb(c, s, area).created
  {
  }

  /** Adding the accounts of one more call to those of the calls before. */
  lemma AddUp(l: multiset<u32>, c: multiset<u32>, p: multiset<u32>, r: multiset<u32>, o: multiset<u32>, e: multiset<u32>,
              c1: multiset<u32>, p1: multiset<u32>, r1: multiset<u32>, o1: multiset<u32>, e1: multiset<u32>)
    requires l + c == p + r + o + e
    requires p + c1 == p1 + r1 + o1 + e1
    ensures l + (c + c1) == p1 + (r + r1) + (o + o1) + (e + e1)
  {
    forall x: u32
      ensures (l + (c + c1))[x] == (p1 + (r + r1) + (o + o1) + (e + e1))[x]
    {
      assert (l + c)[x] == (p + r + o + e)[x];
      assert (p + c1)[x] == (p1 + r1 + o1 + e1)[x];
    }
  }

  /** Every package ever created or listed is still listed, or was reported, or
      was dropped by the 15-entry limit, or expired: each exactly once. Reported
      ones were complete and expired ones incomplete. */
  lemma {:induction false} Conservation(c: Cache, run: seq<Arrival>)
    requires Valid(c) && AllAdmissible(run)
    ensures Tally(c.packs) + multiset(Created(c, run))
         == Tally(After(c, run).packs) + Tally(Reported(c, run))
            + Tally(Overflown(c, run)) + Tally(Expired(c, run))
    ensures AllDone(Reported(c, run)) && NoneDone(Expired(c, run))
  {
    hide Step, Valid, Tally, CreatedBy;
    if run == [] {
      TallyNone();
    } else {
      var a := Final(run);
      var o := LastOutcome(c, run);
      var was := Init(run);
      Conservation(c, was);
      StepConserves(After(c, was), a.s, a.now, a.area);
      NumbersConcat(Reported(c, was), o.reported);
      NumbersConcat(Overflown(c, was), o.overflow);
      NumbersConcat(Expired(c, was), o.expired);
      AddUp(Tally(c.packs), multiset(Created(c, was)),
            Tally(After(c, was).packs), Tally(Reported(c, was)), Tally(Overflown(c, was)), Tally(Expired(c, was)),
            multiset(CreatedBy(o, a.s)),
            Tally(o.cache.packs), Tally(o.reported), Tally(o.overflow), Tally(o.expired));
    }
  }
}
