/** One call of CombineCache::OnUdpSliceReceived as a function of the cache, the
    arriving slice and the clock (socket/UdpCombinePackage.cpp:63-163). The loops
    of the source appear here as the positions at which they stop. */
module Reorder {
  import opened Types
  import opened Serial
  import opened Packet
  import opened SliceMask
  import opened Reassembly
  import BufferSize

  const MAX_PACKS := 15
  const COUNT_RETRY := 5
  const INTERVAL_RETRY := 100 * 1000   // microseconds

  datatype Cache = Cache(packs: seq<Pack>, seqReport: u32, retry: nat, stamp: int)

  datatype Request =
    | AskSlices(typ: u16, seqNo: u32, missing: set<nat>)           // TYPE_UDP_REQUEST
    | AskRange(typ: u16, start: u32, end: u32, flag: bv32)         // TYPE_UDP_REQUEST2

  /** Everything one call does: the new cache, the request it sent, the packages
      it handed to DoRecvUdpMessage, the ones the 15-entry limit deleted, the
      ones the timeout deleted, and whether it created a package or ignored the slice. */
  datatype Outcome = Outcome(cache: Cache, request: Option<Request>, reported: seq<Pack>,
                             overflow: seq<Pack>, expired: seq<Pack>, created: bool, ignored: bool)

  /** A slice as the senders build them. */
  predicate WellFormed(s: Slice) {
    1 <= s.slices && s.cur < s.slices && |s.data| <= UDP_PACKLENGTH
  }

  /** Size of the data area of a package created for a message of n slices. */
  function AreaSize(n: nat): nat {
    BufferSize.AllocSize(n * UDP_PACKLENGTH) - HEAD
  }

  /** What keeps every write of PutPackage inside its buffer. */
  predicate PackOk(p: Pack) {
    && 1 <= p.slices
    && p.one == UDP_PACKLENGTH
    && |p.data| == AreaSize(p.slices)
    && p.recv == |p.got|
    && (forall i <- p.got :: i < p.slices)
    && p.dataSize <= p.recv * UDP_PACKLENGTH
  }

  predicate Distinct(packs: seq<Pack>) {
    forall i, j | 0 <= i < j < |packs| :: packs[i].seqNo != packs[j].seqNo
  }

  /** Each entry is later than its predecessor. */
  predicate Chained(packs: seq<Pack>) {
    forall i | 0 < i < |packs| :: TimeAfter(packs[i].seqNo, packs[i - 1].seqNo)
  }

  predicate ListOk(packs: seq<Pack>) {
    && |packs| <= MAX_PACKS
    && (forall p <- packs :: PackOk(p))
    && Distinct(packs)
    && Chained(packs)
  }

  predicate Valid(c: Cache) {
    ListOk(c.packs) && c.retry <= COUNT_RETRY
  }

  const EMPTY := Cache([], 0, 0, 0)

  // ---- Where the loops stop ----

  function IndexOf(packs: seq<Pack>, seqNo: u32): (i: nat)
    ensures i <= |packs|
    ensures forall j | 0 <= j < i :: packs[j].seqNo != seqNo
    ensures i < |packs| ==> packs[i].seqNo == seqNo
  {
    if packs == [] || packs[0].seqNo == seqNo then 0 else 1 + IndexOf(packs[1..], seqNo)
  }

  /** The first entry later than the newcomer. */
  function InsertPos(packs: seq<Pack>, seqNo: u32): (i: nat)
    ensures i <= |packs|
    ensures forall j | 0 <= j < i :: !TimeAfter(packs[j].seqNo, seqNo)
    ensures i < |packs| ==> TimeAfter(packs[i].seqNo, seqNo)
  {
    if packs == [] || TimeAfter(packs[0].seqNo, seqNo) then 0 else 1 + InsertPos(packs[1..], seqNo)
  }

  function FirstDone(packs: seq<Pack>): (i: nat)
    ensures i <= |packs|
    ensures forall j | 0 <= j < i :: !IsDone(packs[j])
    ensures i < |packs| ==> IsDone(packs[i])
  {
    if packs == [] || IsDone(packs[0]) then 0 else 1 + FirstDone(packs[1..])
  }

  function FirstOpen(packs: seq<Pack>): (i: nat)
    ensures i <= |packs|
    ensures forall j | 0 <= j < i :: IsDone(packs[j])
    ensures i < |packs| ==> !IsDone(packs[i])
  {
    if packs == [] || !IsDone(packs[0]) then 0 else 1 + FirstOpen(packs[1..])
  }

  // ---- The call ----

  datatype Absorbed = Absorbed(packs: seq<Pack>, overflow: seq<Pack>, created: bool, ignored: bool)

  function Dropped(packs: seq<Pack>): nat {
    if |packs| >= MAX_PACKS then |packs| - MAX_PACKS + 1 else 0
  }

  lemma NewSliceCounts(p: Pack, s: Slice)
    requires PackOk(p) && WellFormed(s) && s.cur < p.slices && s.cur !in p.got
    ensures |p.got + {s.cur as nat}| == p.recv + 1 <= p.slices
  {
    SubsetSize(p.got + {s.cur as nat}, Range(p.slices));
  }

  lemma PutFitsOk(p: Pack, s: Slice)
    requires PackOk(p) && WellFormed(s)
    ensures PutFits(p, s)
    ensures PackOk(Put(p, s))
    ensures Put(p, s).seqNo == p.seqNo
  {
    hide Put;
    if SamePackage(p, s) {
      BufferSize.UdpAllocSize(p.slices);
      assert s.cur * p.one + |s.data| <= p.slices * UDP_PACKLENGTH;
      if s.cur !in p.got {
        NewSliceCounts(p, s);
      }
      PutFields(p, s);
    } else {
      PutOther(p, s);
    }
  }

  lemma StartFitsOk(s: Slice, area: seq<byte>)
    requires WellFormed(s) && |area| == AreaSize(s.slices)
    ensures StartFits(s, UDP_PACKLENGTH, |area|)
    ensures PackOk(Start(s, UDP_PACKLENGTH, area))
    ensures Start(s, UDP_PACKLENGTH, area).seqNo == s.seqNo
  {
    PutFitsOk(Blank(s, UDP_PACKLENGTH, area), s);
  }

  /** A first slice opens a package that holds exactly it. */
  lemma OpenedHolds(m: Message, s: Slice, area: seq<byte>)
    requires IsSliceOf(m, UDP_PACKLENGTH, s) && |area| == AreaSize(s.slices)
    ensures StartFits(s, UDP_PACKLENGTH, |area|)
    ensures Holds(Start(s, UDP_PACKLENGTH, area), m, UDP_PACKLENGTH)
    ensures Start(s, UDP_PACKLENGTH, area).got == {s.cur as nat}
  {
    hide Contents, Volume, Put, Start;
    SliceCountIsCeiling(|m.data|, UDP_PACKLENGTH);
    BufferSize.UdpAllocSize(m.slices);
    StartAssembled(m, UDP_PACKLENGTH, UDP_PACKLENGTH, s, area);
    HoldsAssembled(m, UDP_PACKLENGTH, UDP_PACKLENGTH, {s.cur as nat}, area);
  }

  function Absorb(c: Cache, s: Slice, area: seq<byte>): Absorbed
    requires Valid(c) && WellFormed(s) && |area| == AreaSize(s.slices)
  {
    var i := IndexOf(c.packs, s.seqNo);
    if i < |c.packs| then
      PutFitsOk(c.packs[i], s);
      Absorbed(c.packs[i := Put(c.packs[i], s)], [], false, false)
    else
      var overflow, kept := c.packs[..Dropped(c.packs)], c.packs[Dropped(c.packs)..];
      if kept != [] && TimeAfter(c.seqReport, s.seqNo) then Absorbed(kept, overflow, false, true)
      else
        StartFitsOk(s, area);
        var j := InsertPos(kept, s.seqNo);
        Absorbed(kept[..j] + [Start(s, UDP_PACKLENGTH, area)] + kept[j..], overflow, true, false)
  }

  /** The three ways the list may go. */
  lemma AbsorbCases(c: Cache, s: Slice, area: seq<byte>)
    requires Valid(c) && WellFormed(s) && |area| == AreaSize(s.slices)
    ensures var i, x, n := IndexOf(c.packs, s.seqNo), Absorb(c, s, area), Dropped(c.packs);
            && n <= |c.packs| && (n == |c.packs| ==> n == 0)
            && (i < |c.packs| ==>
                  PutFits(c.packs[i], s) && x.packs == c.packs[i := Put(c.packs[i], s)]
                  && Put(c.packs[i], s).seqNo == s.seqNo)
            && (i == |c.packs| && x.ignored ==> x.packs == c.packs[n..])
            && (i == |c.packs| && !x.ignored ==>
                  && StartFits(s, UDP_PACKLENGTH, |area|) && Start(s, UDP_PACKLENGTH, area).seqNo == s.seqNo
                  && x.packs == c.packs[n..][..InsertPos(c.packs[n..], s.seqNo)]
                                + [Start(s, UDP_PACKLENGTH, area)]
                                + c.packs[n..][InsertPos(c.packs[n..], s.seqNo)..]
                  && (c.packs[n..] == [] || !TimeAfter(c.seqReport, s.seqNo)))
  {
    hide Put, Start, TimeAfter, IndexOf, InsertPos;
    var i := IndexOf(c.packs, s.seqNo);
    if i < |c.packs| {
      PutFitsOk(c.packs[i], s);
    } else {
      StartFitsOk(s, area);
    }
  }

  predicate Due(c: Cache, now: int) {
    now - c.stamp >= INTERVAL_RETRY
  }

  function Asking(c: Cache, now: int): Cache {
    c.(stamp := now, retry := c.retry + 1)
  }

  /** The final loop: hand over the leading complete packages. */
  function Report(c: Cache): Cache {
    var n := FirstOpen(c.packs);
    if n == 0 then c else c.(packs := c.packs[n..], seqReport := Next(c.packs[n - 1].seqNo), retry := 0)
  }

  /** The timeout branch: delete the leading incomplete packages. */
  function Expire(c: Cache): Cache
    requires c.packs != []
  {
    var k := FirstDone(c.packs);
    var last := if k < |c.packs| then k else k - 1;
    c.(packs := c.packs[k..], seqReport := Next(c.packs[last].seqNo), retry := 0)
  }

  function Decide(c: Cache, now: int): Outcome
    requires c.packs != []
  {
    var quiet := Outcome(c, None, [], [], [], false, false);
    if c.retry < COUNT_RETRY then
      if c.seqReport != c.packs[0].seqNo then
        if Due(c, now) then
          quiet.(cache := Asking(c, now),
                 request := Some(AskRange(TYPE_VIDEO, c.seqReport, c.packs[0].seqNo, 0)))
        else quiet
      else if 0 < FirstDone(c.packs) < |c.packs| && Due(c, now) then
        quiet.(cache := Asking(c, now),
               request := Some(AskSlices(c.packs[0].typ, c.packs[0].seqNo, Everything() - c.packs[0].got)))
      else quiet.(cache := Report(c), reported := c.packs[..FirstOpen(c.packs)])
    else
      var d := Expire(c);
      quiet.(cache := Report(d), expired := c.packs[..FirstDone(c.packs)],
             reported := d.packs[..FirstOpen(d.packs)])
  }

  function Step(c: Cache, s: Slice, now: int, area: seq<byte>): Outcome
    requires Valid(c) && WellFormed(s) && |area| == AreaSize(s.slices)
  {
    var a := Absorb(c, s, area);
    if a.ignored then Outcome(c.(packs := a.packs), None, [], a.overflow, [], false, true)
    else Decide(c.(packs := a.packs), now).(overflow := a.overflow, created := a.created)
  }

  // ---- The list invariant, in every run and with no assumption on the sequence numbers ----

  lemma InsertChained(kept: seq<Pack>, p: Pack, j: nat)
    requires Chained(kept) && IndexOf(kept, p.seqNo) == |kept| && j == InsertPos(kept, p.seqNo)
    ensures Chained(kept[..j] + [p] + kept[j..])
  {
    hide TimeAfter, SerialGreater, IndexOf, InsertPos;
    var after := kept[..j] + [p] + kept[j..];
    forall i | 0 < i < |after|
      ensures TimeAfter(after[i].seqNo, after[i - 1].seqNo)
    {
      if i == j {
        assert after[i] == p && after[i - 1] == kept[j - 1];
        TimeAfterIsSerialOrder(kept[j - 1].seqNo, p.seqNo);
      } else if i < j {
        assert after[i] == kept[i] && after[i - 1] == kept[i - 1];
      } else if i > j + 1 {
        assert after[i] == kept[i - 1] && after[i - 1] == kept[i - 2];
      }
    }
  }

  lemma InsertDistinct(kept: seq<Pack>, p: Pack, j: nat)
    requires Distinct(kept) && IndexOf(kept, p.seqNo) == |kept| && j <= |kept|
    ensures Distinct(kept[..j] + [p] + kept[j..])
  {
    var after := kept[..j] + [p] + kept[j..];
    forall i, k | 0 <= i < k < |after|
      ensures after[i].seqNo != after[k].seqNo
    {
      assert after[i] == if i < j then kept[i] else if i == j then p else kept[i - 1];
      assert after[k] == if k < j then kept[k] else if k == j then p else kept[k - 1];
    }
  }

  lemma InsertKeepsOrder(kept: seq<Pack>, p: Pack, j: nat)
    requires ListOk(kept) && |kept| < MAX_PACKS && PackOk(p)
    requires IndexOf(kept, p.seqNo) == |kept| && j == InsertPos(kept, p.seqNo)
    ensures ListOk(kept[..j] + [p] + kept[j..])
  {
    InsertChained(kept, p, j);
    InsertDistinct(kept, p, j);
  }

  lemma TailKeepsOrder(packs: seq<Pack>, n: nat)
    requires n <= |packs| && ListOk(packs)
    ensures ListOk(packs[n..])
  {
    var t := packs[n..];
    forall i | 0 < i < |t|
      ensures TimeAfter(t[i].seqNo, t[i - 1].seqNo)
    {
      assert t[i] == packs[n + i] && t[i - 1] == packs[n + i - 1];
    }
  }

  lemma UpdateKeepsOrder(packs: seq<Pack>, i: nat, p: Pack)
    requires i < |packs| && ListOk(packs) && PackOk(p) && p.seqNo == packs[i].seqNo
    ensures ListOk(packs[i := p])
  {
    var after := packs[i := p];
    forall k | 0 < k < |after|
      ensures TimeAfter(after[k].seqNo, after[k - 1].seqNo)
    {
      assert after[k].seqNo == packs[k].seqNo && after[k - 1].seqNo == packs[k - 1].seqNo;
    }
  }

  lemma AbsorbKeepsList(c: Cache, s: Slice, area: seq<byte>)
    requires Valid(c) && WellFormed(s) && |area| == AreaSize(s.slices)
    ensures ListOk(Absorb(c, s, area).packs)
    ensures !Absorb(c, s, area).ignored ==> Absorb(c, s, area).packs != []
  {
    var i := IndexOf(c.packs, s.seqNo);
    if i < |c.packs| {
      PutFitsOk(c.packs[i], s);
      UpdateKeepsOrder(c.packs, i, Put(c.packs[i], s));
    } else {
      var kept := c.packs[Dropped(c.packs)..];
      TailKeepsOrder(c.packs, Dropped(c.packs));
      if !(kept != [] && TimeAfter(c.seqReport, s.seqNo)) {
        StartFitsOk(s, area);
        InsertKeepsOrder(kept, Start(s, UDP_PACKLENGTH, area), InsertPos(kept, s.seqNo));
      }
    }
  }

  lemma DecideKeepsList(c: Cache, now: int)
    requires Valid(c) && c.packs != []
    ensures Valid(Decide(c, now).cache)
  {
    TailKeepsOrder(c.packs, FirstOpen(c.packs));
    TailKeepsOrder(c.packs, FirstDone(c.packs));
    var d := Expire(c);
    TailKeepsOrder(d.packs, FirstOpen(d.packs));
  }

  /** Never more than 15 packages, pairwise distinct numbers, each later than its
      predecessor, every buffer large enough for whatever slice comes next, and
      the retry counter within its budget. */
  lemma StepKeepsValid(c: Cache, s: Slice, now: int, area: seq<byte>)
    requires Valid(c) && WellFormed(s) && |area| == AreaSize(s.slices)
    ensures Valid(Step(c, s, now, area).cache)
    ensures |Step(c, s, now, area).cache.packs| <= 15 && Step(c, s, now, area).cache.retry <= 5
  {
    AbsorbKeepsList(c, s, area);
    if !Absorb(c, s, area).ignored {
      DecideKeepsList(c.(packs := Absorb(c, s, area).packs), now);
    }
  }

  /** Inside any window shorter than 2^31 the neighbour order is a total order. */
  lemma {:induction false} WindowTotallyOrdered(packs: seq<Pack>, origin: u32, i: nat, j: nat)
    requires Chained(packs) && i < j < |packs|
    requires forall p <- packs :: Ahead(origin, p.seqNo) < HALF
    ensures Ahead(origin, packs[i].seqNo) < Ahead(origin, packs[j].seqNo)
    ensures TimeAfter(packs[j].seqNo, packs[i].seqNo) && !TimeAfter(packs[i].seqNo, packs[j].seqNo)
  {
    TimeAfterFromOrigin(origin, packs[j].seqNo, packs[j - 1].seqNo);
    if i < j - 1 {
      WindowTotallyOrdered(packs, origin, i, j - 1);
    }
    TimeAfterFromOrigin(origin, packs[j].seqNo, packs[i].seqNo);
    TimeAfterFromOrigin(origin, packs[i].seqNo, packs[j].seqNo);
  }
}
