/** What a slice does to the list, wherever its package stands: it goes into exactly that
    package, a new number gets a package of its own with exactly that slice, and all
    other packages stay as they are (socket/UdpCombinePackage.cpp:65-105). Over whole
    runs each listed package holds exactly what has arrived for it since its creation. */
module Assembly {
  import opened Types
  import opened Serial
  import opened Packet
  import opened Reassembly
  import opened Reorder
  import opened Delivery

  /** Every number stands for one message. */
  type Source = u32 -> Message

  predicate Numbered(src: Source) {
    forall n: u32 :: src(n).seqNo == n && Sliceable(src(n), UDP_PACKLENGTH)
  }

  predicate FromSource(src: Source, s: Slice) {
    IsSliceOf(src(s.seqNo), UDP_PACKLENGTH, s)
  }

  predicate AllFromSource(src: Source, run: seq<Arrival>) {
    forall i | 0 <= i < |run| :: FromSource(src, run[i].s)
  }

  /** Every listed package is being assembled from its message. */
  predicate HoldsAll(src: Source, packs: seq<Pack>) {
    forall p <- packs :: Holds(p, src(p.seqNo), UDP_PACKLENGTH)
  }

  predicate Listed(packs: seq<Pack>, n: u32) {
    exists p <- packs :: p.seqNo == n
  }

  // ---- One slice ----

  lemma ListedIndex(packs: seq<Pack>, n: u32)
    ensures IndexOf(packs, n) < |packs| <==> Listed(packs, n)
  {
    var i := IndexOf(packs, n);
    if i < |packs| {
      assert packs[i] in packs;
    }
  }

  lemma IndexIs(packs: seq<Pack>, i: nat)
    requires Distinct(packs) && i < |packs|
    ensures IndexOf(packs, packs[i].seqNo) == i
  {
  }

  /** A slice of a listed message goes into the package of that message, at whatever
      position it stands, and into no other. */
  lemma AbsorbAt(c: Cache, m: Message, i: nat, s: Slice, area: seq<byte>)
    requires Valid(c) && i < |c.packs| && Holds(c.packs[i], m, UDP_PACKLENGTH)
    requires IsSliceOf(m, UDP_PACKLENGTH, s) && WellFormed(s) && |area| == AreaSize(s.slices)
    ensures var x := Absorb(c, s, area);
            && x.overflow == [] && !x.created && !x.ignored && |x.packs| == |c.packs|
            && Holds(x.packs[i], m, UDP_PACKLENGTH) && x.packs[i].seqNo == c.packs[i].seqNo
            && x.packs[i].got == c.packs[i].got + {s.cur as nat}
            && forall j | 0 <= j < |c.packs| && j != i :: x.packs[j] == c.packs[j]
  {
    hide Put, Holds, PackOk, Chained, Distinct, IndexOf;
    HoldsNumber(c.packs[i], m, UDP_PACKLENGTH);
    IndexIs(c.packs, i);
    PutHolds(c.packs[i], m, UDP_PACKLENGTH, s);
    HoldsNumber(Put(c.packs[i], s), m, UDP_PACKLENGTH);
  }

  /** A slice of an unlisted message that is not filtered opens a package with exactly that
      slice; the packages before and behind it stay, but for the front one of a full list. */
  lemma AbsorbNew(c: Cache, m: Message, s: Slice, area: seq<byte>) returns (j: nat, q: Pack)
    requires Valid(c) && !Listed(c.packs, s.seqNo)
    requires IsSliceOf(m, UDP_PACKLENGTH, s) && WellFormed(s) && |area| == AreaSize(s.slices)
    requires !Absorb(c, s, area).ignored
    ensures var x, kept := Absorb(c, s, area), c.packs[if |c.packs| == 15 then 1 else 0..];
            && j <= |kept| && x.packs == kept[..j] + [q] + kept[j..]
            && Holds(q, m, UDP_PACKLENGTH) && q.got == {s.cur as nat} && q.seqNo == s.seqNo
  {
    hide Put, Holds, PackOk, Chained, Distinct, IndexOf, InsertPos, Start, TimeAfter;
    ListedIndex(c.packs, s.seqNo);
    OpenedHolds(m, s, area);
    StartFitsOk(s, area);
    var kept := c.packs[Dropped(c.packs)..];
    j := InsertPos(kept, s.seqNo);
    q := Start(s, UDP_PACKLENGTH, area);
  }

  lemma IgnoredKeeps(c: Cache, s: Slice, area: seq<byte>)
    requires Valid(c) && WellFormed(s) && |area| == AreaSize(s.slices) && Absorb(c, s, area).ignored
    ensures Absorb(c, s, area).packs == c.packs[|Absorb(c, s, area).overflow|..]
    ensures !Listed(c.packs, s.seqNo)
  {
    ListedIndex(c.packs, s.seqNo);
  }

  /** What the slice adds to the package with number n. */
  function Added(s: Slice, n: u32): set<nat> {
    if s.seqNo == n then {s.cur as nat} else {}
  }

  /** q is p with the slice added if it is one of p's. */
  predicate Grown(p: Pack, s: Slice, q: Pack) {
    q.seqNo == p.seqNo && q.got == p.got + Added(s, p.seqNo)
  }

  /** Every package of the new list is one of the old list, grown by the slice, or the new one. */
  predicate Accounts(packs: seq<Pack>, s: Slice, after: seq<Pack>) {
    forall q <- after ::
      || (exists p <- packs :: Grown(p, s, q))
      || (q.seqNo == s.seqNo && q.got == {s.cur as nat} && !Listed(packs, q.seqNo))
  }

  lemma AbsorbAccounts(src: Source, c: Cache, a: Arrival)
    requires Numbered(src) && Valid(c) && HoldsAll(src, c.packs) && Admissible(a) && FromSource(src, a.s)
    ensures HoldsAll(src, Absorb(c, a.s, a.area).packs)
    ensures Accounts(c.packs, a.s, Absorb(c, a.s, a.area).packs)
  {
    hide Absorb, Holds, IsSliceOf, ListOk, Sliceable, WellFormed, Accounts, Grown;
    var m := src(a.s.seqNo);
    var x := Absorb(c, a.s, a.area);
    if Listed(c.packs, a.s.seqNo) {
      var i :| 0 <= i < |c.packs| && c.packs[i].seqNo == a.s.seqNo;
      AbsorbAt(c, m, i, a.s, a.area);
      OneGrown(c, i, a.s, x.packs);
      OneHolds(src, c.packs, i, x.packs);
    } else if x.ignored {
      IgnoredKeeps(c, a.s, a.area);
      NoneGrown(c.packs, a.s, x.packs);
    } else {
      var j, q := AbsorbNew(c, m, a.s, a.area);
      var kept := c.packs[if |c.packs| == 15 then 1 else 0..];
      NoneGrown(c.packs, a.s, kept);
      InsertedAccounts(src, c.packs, a.s, kept, j, q);
    }
  }

  lemma OneGrown(c: Cache, i: nat, s: Slice, after: seq<Pack>)
    requires Valid(c) && i < |c.packs| && |after| == |c.packs| && s.seqNo == c.packs[i].seqNo == after[i].seqNo
    requires after[i].got == c.packs[i].got + {s.cur as nat}
    requires forall j | 0 <= j < |c.packs| && j != i :: after[j] == c.packs[j]
    ensures Accounts(c.packs, s, after)
  {
    hide PackOk, Chained;
    forall j | 0 <= j < |after|
      ensures Grown(c.packs[j], s, after[j])
    {
      if j != i {
        assert after[j].got + {} == after[j].got;
      }
    }
    forall q | q in after
      ensures exists p <- c.packs :: Grown(p, s, q)
    {
      var j :| 0 <= j < |after| && after[j] == q;
      assert c.packs[j] in c.packs;
    }
  }

  lemma OneHolds(src: Source, packs: seq<Pack>, i: nat, after: seq<Pack>)
    requires HoldsAll(src, packs) && i < |packs| == |after| && after[i].seqNo == packs[i].seqNo
    requires Holds(after[i], src(packs[i].seqNo), UDP_PACKLENGTH)
    requires forall j | 0 <= j < |packs| && j != i :: after[j] == packs[j]
    ensures HoldsAll(src, after)
  {
    hide Holds;
    forall j | 0 <= j < |after|
      ensures Holds(after[j], src(after[j].seqNo), UDP_PACKLENGTH)
    {
      if j != i {
        assert packs[j] in packs;
      }
    }
  }

  lemma NoneGrown(packs: seq<Pack>, s: Slice, kept: seq<Pack>)
    requires !Listed(packs, s.seqNo) && forall p <- kept :: p in packs
    ensures Accounts(packs, s, kept)
  {
    forall q | q in kept
      ensures Grown(q, s, q) && q in packs
    {
      assert q.got + {} == q.got;
    }
  }

  lemma InsertedAccounts(src: Source, packs: seq<Pack>, s: Slice, kept: seq<Pack>, j: nat, q: Pack)
    requires Accounts(packs, s, kept) && j <= |kept| && HoldsAll(src, packs) && (forall p <- kept :: p in packs)
    requires q.seqNo == s.seqNo && q.got == {s.cur as nat} && !Listed(packs, s.seqNo)
    requires Holds(q, src(q.seqNo), UDP_PACKLENGTH)
    ensures Accounts(packs, s, kept[..j] + [q] + kept[j..])
    ensures HoldsAll(src, kept[..j] + [q] + kept[j..])
  {
    hide Holds, Grown, Listed;
    var after := kept[..j] + [q] + kept[j..];
    forall t | t in after
      ensures t in kept || t == q
    {
    }
  }

  /** The rest of the call only takes packages from the front. */
  lemma StepAccounts(src: Source, c: Cache, a: Arrival)
    requires Numbered(src) && Valid(c) && HoldsAll(src, c.packs) && Admissible(a) && FromSource(src, a.s)
    ensures var o := Step(c, a.s, a.now, a.area);
            HoldsAll(src, o.cache.packs) && Accounts(c.packs, a.s, o.cache.packs)
  {
    hide Absorb, Decide, Holds, ListOk, FromSource, Grown, Listed;
    AbsorbAccounts(src, c, a);
    AbsorbKeepsList(c, a.s, a.area);
    var x := Absorb(c, a.s, a.area);
    if !x.ignored {
      var k, m := DecideShape(c.(packs := x.packs), a.now);
    }
  }

  // ---- Whole runs ----

  /** What has arrived for number n since the package listed under it now was created; what
      it held at the start of the run counts as arrived. */
  function Since(c: Cache, run: seq<Arrival>, n: u32): set<nat>
    requires Valid(c) && AllAdmissible(run)
  {
    if run == [] then
      var i := IndexOf(c.packs, n);
      if i < |c.packs| then c.packs[i].got else {}
    else
      (if IndexOf(After(c, Init(run)).packs, n) < |After(c, Init(run)).packs| then Since(c, Init(run), n) else {})
      + Added(Final(run).s, n)
  }

  /** Over any run, with limit drops, reports and timeouts: each listed package holds
      exactly the slices that have arrived for it since its creation. */
  lemma {:induction false} HoldsWhatArrived(src: Source, c: Cache, run: seq<Arrival>)
    requires Numbered(src) && Valid(c) && HoldsAll(src, c.packs) && AllAdmissible(run) && AllFromSource(src, run)
    ensures HoldsAll(src, After(c, run).packs)
    ensures forall p <- After(c, run).packs :: p.got == Since(c, run, p.seqNo)
  {
    hide Step, Holds, FromSource, Numbered, IndexOf;
    if run == [] {
      StartHoldsGot(c);
    } else {
      var d := After(c, Init(run));
      HoldsWhatArrived(src, c, Init(run));
      StepAccounts(src, d, Final(run));
      forall q | q in After(c, run).packs
        ensures q.got == Since(c, run, q.seqNo)
      {
        ListedIndex(d.packs, q.seqNo);
        if exists p <- d.packs :: Grown(p, Final(run).s, q) {
          var p :| p in d.packs && Grown(p, Final(run).s, q);
        } else {
          assert {} + q.got == q.got;
        }
      }
    }
  }

  lemma StartHoldsGot(c: Cache)
    requires Valid(c)
    ensures forall p <- c.packs :: p.got == Since(c, [], p.seqNo)
  {
    forall i | 0 <= i < |c.packs|
      ensures c.packs[i].got == Since(c, [], c.packs[i].seqNo)
    {
      IndexIs(c.packs, i);
    }
  }
}
