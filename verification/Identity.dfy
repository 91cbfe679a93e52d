/** Conservation package by package: every CombinePackage object ever created keeps
    its identity, whatever other packages carry the same number
    (socket/UdpCombinePackage.cpp:63-163). */
module Identity {
  import opened Types
  import opened Serial
  import opened Packet
  import opened Reassembly
  import opened Reorder
  import opened Delivery

  /** Package i was the i-th to exist and carries number created[i]; the lists say
      where it is now. */
  datatype Book = Book(created: seq<u32>, listed: seq<nat>, reported: seq<nat>, overflown: seq<nat>, expired: seq<nat>)

  function Ids(n: nat): (ids: seq<nat>)
    ensures |ids| == n
    ensures forall i | 0 <= i < n :: ids[i] == i
  {
    seq(n, i requires 0 <= i < n => i)
  }

  function Opening(c: Cache): Book {
    Book(Numbers(c.packs), Ids(|c.packs|), [], [], [])
  }

  /** The list of identities once the call has made room, and inserted its new package. */
  function Relisted(listed: seq<nat>, id: nat, c: Cache, o: Outcome, s: Slice): (ids: seq<nat>)
    requires |listed| == |c.packs| && |o.overflow| <= |listed|
  {
    var n := |o.overflow|;
    if o.created then
      var j := InsertPos(c.packs[n..], s.seqNo);
      listed[n..][..j] + [id] + listed[n..][j..]
    else listed[n..]
  }

  /** The k front packages expired, the next m were reported. */
  function Entered(b: Book, c: Cache, o: Outcome, s: Slice): Book
    requires |b.listed| == |c.packs| && |o.overflow| <= |b.listed|
    requires |o.expired| + |o.reported| <= |Relisted(b.listed, |b.created|, c, o, s)|
  {
    var ids := Relisted(b.listed, |b.created|, c, o, s);
    var k, m := |o.expired|, |o.expired| + |o.reported|;
    Book(b.created + CreatedBy(o, s), ids[m..], b.reported + ids[k..m], b.overflown + b.listed[..|o.overflow|],
         b.expired + ids[..k])
  }

  /** The identities are those of the packages: position by position the numbers agree. */
  predicate Labels(created: seq<u32>, ids: seq<nat>, packs: seq<Pack>) {
    && |ids| == |packs|
    && (forall i | 0 <= i < |ids| :: ids[i] < |created| && created[ids[i]] == packs[i].seqNo)
  }

  /** Every package is in exactly one of the lists, exactly once. */
  predicate EachOnce(b: Book) {
    multiset(b.listed) + multiset(b.reported) + multiset(b.overflown) + multiset(b.expired)
    == multiset(Ids(|b.created|))
  }

  // ---- One call ----

  lemma InsertOnce(ids: seq<nat>, j: nat, id: nat)
    requires j <= |ids|
    ensures multiset(ids[..j] + [id] + ids[j..]) == multiset(ids) + multiset{id}
  {
    assert ids == ids[..j] + ids[j..];
  }

  lemma ThreeParts(ids: seq<nat>, k: nat, m: nat)
    requires k <= m <= |ids|
    ensures multiset(ids) == multiset(ids[m..]) + multiset(ids[k..m]) + multiset(ids[..k])
  {
    assert ids == ids[..k] + ids[k..m] + ids[m..];
  }

  lemma NextId(n: nat)
    ensures multiset(Ids(n + 1)) == multiset(Ids(n)) + multiset{n}
  {
    assert Ids(n + 1) == Ids(n) + [n];
  }

  lemma LabelsConcat(created: seq<u32>, x: seq<nat>, p: seq<Pack>, y: seq<nat>, q: seq<Pack>)
    requires Labels(created, x, p) && Labels(created, y, q)
    ensures Labels(created, x + y, p + q)
  {
  }

  lemma LabelsPart(created: seq<u32>, ids: seq<nat>, packs: seq<Pack>, i: nat, j: nat)
    requires Labels(created, ids, packs) && i <= j <= |ids|
    ensures Labels(created, ids[i..j], packs[i..j])
    ensures i == 0 ==> Labels(created, ids[..j], packs[..j])
    ensures j == |ids| ==> Labels(created, ids[i..], packs[i..])
  {
  }

  lemma LabelsMore(created: seq<u32>, more: seq<u32>, ids: seq<nat>, packs: seq<Pack>)
    requires Labels(created, ids, packs)
    ensures Labels(created + more, ids, packs)
  {
  }

  lemma LabelsInsert(created: seq<u32>, ids: seq<nat>, packs: seq<Pack>, j: nat, p: Pack)
    requires Labels(created, ids, packs) && j <= |ids|
    ensures Labels(created + [p.seqNo], ids[..j] + [|created|] + ids[j..], packs[..j] + [p] + packs[j..])
  {
    var more := created + [p.seqNo];
    LabelsMore(created, [p.seqNo], ids, packs);
    LabelsPart(more, ids, packs, 0, j);
    LabelsPart(more, ids, packs, j, |ids|);
    assert Labels(more, [|created|], [p]);
    LabelsConcat(more, ids[0..j], packs[0..j], [|created|], [p]);
    LabelsConcat(more, ids[..j] + [|created|], packs[..j] + [p], ids[j..], packs[j..]);
  }

  /** Making room and inserting. */
  lemma RelistedLabels(created: seq<u32>, listed: seq<nat>, c: Cache, s: Slice, area: seq<byte>, o: Outcome)
    requires Valid(c) && WellFormed(s) && |area| == AreaSize(s.slices) && Labels(created, listed, c.packs)
    requires var a := Absorb(c, s, area); o.overflow == a.overflow && o.created == a.created
    ensures |o.overflow| <= |listed|
    ensures Labels(created + CreatedBy(o, s), Relisted(listed, |created|, c, o, s), Absorb(c, s, area).packs)
    ensures Labels(created, listed[..|o.overflow|], o.overflow)
  {
    hide Put, Start, Labels, IndexOf, InsertPos, PackOk, Distinct, Chained, TimeAfter, Dropped;
    DroppedBound(c.packs);
    SameLength(created, listed, c.packs);
    var i := IndexOf(c.packs, s.seqNo);
    if i < |c.packs| {
      PutFitsOk(c.packs[i], s);
      NothingLabelled(created);
      LabelsUpdate(created, listed, c.packs, i, Put(c.packs[i], s));
    } else {
      var n := Dropped(c.packs);
      LabelsPart(created, listed, c.packs, 0, n);
      LabelsPart(created, listed, c.packs, n, |listed|);
      StartFitsOk(s, area);
      if o.created {
        LabelsInsert(created, listed[n..], c.packs[n..], InsertPos(c.packs[n..], s.seqNo), Start(s, UDP_PACKLENGTH, area));
      }
    }
  }

  lemma SameLength(created: seq<u32>, ids: seq<nat>, packs: seq<Pack>)
    requires Labels(created, ids, packs)
    ensures |ids| == |packs| && created + [] == created && ids[0..] == ids && packs[0..] == packs
  {
  }

  lemma NothingLabelled(created: seq<u32>)
    ensures Labels(created, [], [])
  {
  }

  lemma LabelsUpdate(created: seq<u32>, ids: seq<nat>, packs: seq<Pack>, i: nat, p: Pack)
    requires Labels(created, ids, packs) && i < |packs| && p.seqNo == packs[i].seqNo
    ensures Labels(created, ids, packs[i := p])
  {
  }

  lemma RelistedOnce(listed: seq<nat>, id: nat, c: Cache, o: Outcome, s: Slice)
    requires |listed| == |c.packs| && |o.overflow| <= |listed|
    ensures multiset(listed) + (if o.created then multiset{id} else multiset{})
         == multiset(Relisted(listed, id, c, o, s)) + multiset(listed[..|o.overflow|])
  {
    hide InsertPos;
    var n := |o.overflow|;
    assert listed == listed[..n] + listed[n..];
    if o.created {
      InsertOnce(listed[n..], InsertPos(c.packs[n..], s.seqNo), id);
    }
  }

  /** Where the call left the packages it found after the insertion. */
  lemma StepParts(c: Cache, a: Arrival) returns (packs: seq<Pack>, k: nat, m: nat)
    requires Valid(c) && Admissible(a)
    ensures var x, o := Absorb(c, a.s, a.area), Step(c, a.s, a.now, a.area);
            && packs == x.packs && o.overflow == x.overflow && o.created == x.created
            && k == |o.expired| && m == k + |o.reported| <= |packs|
            && o.expired == packs[..k] && o.reported == packs[k..m] && o.cache.packs == packs[m..]
  {
    hide Absorb, Decide, ListOk;
    var x := Absorb(c, a.s, a.area);
    AbsorbKeepsList(c, a.s, a.area);
    packs := x.packs;
    if x.ignored {
      AbsorbIgnored(c, a.s, a.area);
      k, m := 0, 0;
    } else {
      k, m := DecideShape(c.(packs := packs), a.now);
    }
  }

  // ---- Runs ----

  predicate Correct(b: Book, listed: seq<Pack>, reported: seq<Pack>, overflown: seq<Pack>, expired: seq<Pack>) {
    && Labels(b.created, b.listed, listed)
    && Labels(b.created, b.reported, reported)
    && Labels(b.created, b.overflown, overflown)
    && Labels(b.created, b.expired, expired)
    && EachOnce(b)
  }

  /** The books over a run, and that they are right. */
  function Kept(c: Cache, run: seq<Arrival>): (b: Book)
    requires Valid(c) && AllAdmissible(run)
    ensures Correct(b, After(c, run).packs, Reported(c, run), Overflown(c, run), Expired(c, run))
    ensures b.created == Numbers(c.packs) + Created(c, run)
  {
    if run == [] then
      OpeningCorrect(c);
      Opening(c)
    else
      var b := Kept(c, Init(run));
      LastEntered(c, run, b);
      Entered(b, After(c, Init(run)), LastOutcome(c, run), Final(run).s)
  }

  lemma LastEntered(c: Cache, run: seq<Arrival>, b: Book)
    requires Valid(c) && AllAdmissible(run) && run != []
    requires var was := Init(run); Correct(b, After(c, was).packs, Reported(c, was), Overflown(c, was), Expired(c, was))
    requires b.created == Numbers(c.packs) + Created(c, Init(run))
    ensures var d, o := After(c, Init(run)), LastOutcome(c, run);
            && |b.listed| == |d.packs| && |o.overflow| <= |b.listed|
            && |o.expired| + |o.reported| <= |Relisted(b.listed, |b.created|, d, o, Final(run).s)|
            && Correct(Entered(b, d, o, Final(run).s),
                       After(c, run).packs, Reported(c, run), Overflown(c, run), Expired(c, run))
            && Entered(b, d, o, Final(run).s).created == Numbers(c.packs) + Created(c, run)
  {
    hide Step, Correct, ListOk, CreatedBy, Relisted, Entered, After, Reported, Overflown, Expired, Created;
    var was, a := Init(run), Final(run);
    LastCall(c, run);
    EnteredCorrect(b, After(c, was), a, Reported(c, was), Overflown(c, was), Expired(c, was));
    EnteredCreated(b, After(c, was), LastOutcome(c, run), a.s);
    Associate(Numbers(c.packs), Created(c, was), CreatedBy(LastOutcome(c, run), a.s));
  }

  lemma LastCall(c: Cache, run: seq<Arrival>)
    requires Valid(c) && AllAdmissible(run) && run != []
    ensures var was, o := Init(run), LastOutcome(c, run);
            && o == Step(After(c, was), Final(run).s, Final(run).now, Final(run).area)
            && After(c, run) == o.cache
            && Reported(c, run) == Reported(c, was) + o.reported
            && Overflown(c, run) == Overflown(c, was) + o.overflow
            && Expired(c, run) == Expired(c, was) + o.expired
            && Created(c, run) == Created(c, was) + CreatedBy(o, Final(run).s)
  {
    hide Step, ListOk, CreatedBy;
  }

  lemma EnteredCreated(b: Book, c: Cache, o: Outcome, s: Slice)
    requires |b.listed| == |c.packs| && |o.overflow| <= |b.listed|
    requires |o.expired| + |o.reported| <= |Relisted(b.listed, |b.created|, c, o, s)|
    ensures Entered(b, c, o, s).created == b.created + CreatedBy(o, s)
  {
    hide Relisted;
  }

  lemma Associate(x: seq<u32>, y: seq<u32>, z: seq<u32>)
    ensures x + y + z == x + (y + z)
  {
  }

  lemma OpeningCorrect(c: Cache)
    ensures Correct(Opening(c), c.packs, [], [], [])
    ensures Opening(c).created == Numbers(c.packs) + []
  {
  }

  lemma EnteredCorrect(b: Book, c: Cache, a: Arrival, reported: seq<Pack>, overflown: seq<Pack>, expired: seq<Pack>)
    requires Valid(c) && Admissible(a) && Correct(b, c.packs, reported, overflown, expired)
    ensures var o := Step(c, a.s, a.now, a.area);
            && |b.listed| == |c.packs| && |o.overflow| <= |b.listed|
            && |o.expired| + |o.reported| <= |Relisted(b.listed, |b.created|, c, o, a.s)|
            && Correct(Entered(b, c, o, a.s), o.cache.packs, reported + o.reported, overflown + o.overflow, expired + o.expired)
  {
    hide Step, Absorb, Labels, EachOnce, ListOk, Relisted;
    var o := Step(c, a.s, a.now, a.area);
    var packs, k, m := StepParts(c, a);
    SameLength(b.created, b.listed, c.packs);
    RelistedLabels(b.created, b.listed, c, a.s, a.area, o);
    var more := b.created + CreatedBy(o, a.s);
    var ids := Relisted(b.listed, |b.created|, c, o, a.s);
    SameLength(more, ids, packs);
    LabelsPart(more, ids, packs, 0, k);
    LabelsPart(more, ids, packs, k, m);
    LabelsPart(more, ids, packs, m, |ids|);
    AddedLabels(b.created, CreatedBy(o, a.s), b.reported, reported, ids[k..m], o.reported);
    AddedLabels(b.created, CreatedBy(o, a.s), b.expired, expired, ids[..k], o.expired);
    LabelsMore(b.created, CreatedBy(o, a.s), b.listed[..|o.overflow|], o.overflow);
    AddedLabels(b.created, CreatedBy(o, a.s), b.overflown, overflown, b.listed[..|o.overflow|], o.overflow);
    EnteredOnce(b, c, o, a.s);
  }

  lemma AddedLabels(created: seq<u32>, more: seq<u32>, x: seq<nat>, p: seq<Pack>, y: seq<nat>, q: seq<Pack>)
    requires Labels(created, x, p) && Labels(created + more, y, q)
    ensures Labels(created + more, x + y, p + q)
  {
    LabelsMore(created, more, x, p);
    LabelsConcat(created + more, x, p, y, q);
  }

  lemma EnteredOnce(b: Book, c: Cache, o: Outcome, s: Slice)
    requires |b.listed| == |c.packs| && |o.overflow| <= |b.listed|
    requires |o.expired| + |o.reported| <= |Relisted(b.listed, |b.created|, c, o, s)|
    requires EachOnce(b)
    ensures EachOnce(Entered(b, c, o, s))
  {
    hide Relisted, Entered, Ids;
    var ids, e := Relisted(b.listed, |b.created|, c, o, s), Entered(b, c, o, s);
    var k, m := |o.expired|, |o.expired| + |o.reported|;
    RelistedOnce(b.listed, |b.created|, c, o, s);
    EntryTallies(b, c, o, s);
    ThreeParts(ids, k, m);
    NextIds(|b.created|, o.created, |e.created|);
    var newest := if o.created then multiset{|b.created|} else multiset{};
    Settle(multiset(b.listed), multiset(b.reported), multiset(b.overflown), multiset(b.expired),
           multiset(Ids(|b.created|)), multiset(ids), multiset(b.listed[..|o.overflow|]), newest,
           multiset(ids[m..]), multiset(ids[k..m]), multiset(ids[..k]),
           multiset(e.listed), multiset(e.reported), multiset(e.overflown), multiset(e.expired),
           multiset(Ids(|e.created|)));
  }

  lemma NextIds(n: nat, created: bool, after: nat)
    requires after == n + (if created then 1 else 0)
    ensures multiset(Ids(after)) == multiset(Ids(n)) + (if created then multiset{n} else multiset{})
  {
    NextId(n);
  }

  lemma EntryTallies(b: Book, c: Cache, o: Outcome, s: Slice)
    requires |b.listed| == |c.packs| && |o.overflow| <= |b.listed|
    requires |o.expired| + |o.reported| <= |Relisted(b.listed, |b.created|, c, o, s)|
    ensures var ids, e := Relisted(b.listed, |b.created|, c, o, s), Entered(b, c, o, s);
            var k, m := |o.expired|, |o.expired| + |o.reported|;
            && multiset(e.listed) == multiset(ids[m..])
            && multiset(e.reported) == multiset(b.reported) + multiset(ids[k..m])
            && multiset(e.overflown) == multiset(b.overflown) + multiset(b.listed[..|o.overflow|])
            && multiset(e.expired) == multiset(b.expired) + multiset(ids[..k])
            && |e.created| == |b.created| + (if o.created then 1 else 0)
  {
    hide Relisted;
  }

  lemma Settle(l: multiset<nat>, r: multiset<nat>, o: multiset<nat>, e: multiset<nat>, all: multiset<nat>,
               l1: multiset<nat>, o1: multiset<nat>, newest: multiset<nat>,
               l2: multiset<nat>, r2: multiset<nat>, e2: multiset<nat>,
               el: multiset<nat>, er: multiset<nat>, eo: multiset<nat>, ee: multiset<nat>, more: multiset<nat>)
    requires l + r + o + e == all && l + newest == l1 + o1 && l1 == l2 + r2 + e2
    requires el == l2 && er == r + r2 && eo == o + o1 && ee == e + e2 && more == all + newest
    ensures el + er + eo + ee == more
  {
    forall x: nat
      ensures (el + er + eo + ee)[x] == more[x]
    {
      assert (l + r + o + e)[x] == all[x];
      assert (l + newest)[x] == (l1 + o1)[x];
      assert l1[x] == (l2 + r2 + e2)[x];
    }
  }

  /** Every package object that was ever listed or created is, at the end of any run,
      exactly one of: still listed, reported once, dropped by the 15-entry limit, or
      expired; reported ones were complete, expired ones incomplete. */
  lemma EachPackageOnce(c: Cache, run: seq<Arrival>, id: nat)
    requires Valid(c) && AllAdmissible(run) && id < |c.packs| + |Created(c, run)|
    ensures var b := Kept(c, run);
            && Correct(b, After(c, run).packs, Reported(c, run), Overflown(c, run), Expired(c, run))
            && multiset(b.listed)[id] + multiset(b.reported)[id] + multiset(b.overflown)[id] + multiset(b.expired)[id] == 1
    ensures AllDone(Reported(c, run)) && NoneDone(Expired(c, run))
  {
    hide Correct;
    var b := Kept(c, run);
    Conservation(c, run);
    IdOnce(|b.created|, id);
    OnceFrom(b, After(c, run).packs, Reported(c, run), Overflown(c, run), Expired(c, run), id);
  }

  lemma OnceFrom(b: Book, p: seq<Pack>, q: seq<Pack>, r: seq<Pack>, s: seq<Pack>, id: nat)
    requires Correct(b, p, q, r, s)
    ensures multiset(b.listed)[id] + multiset(b.reported)[id] + multiset(b.overflown)[id] + multiset(b.expired)[id]
         == multiset(Ids(|b.created|))[id]
  {
    assert (multiset(b.listed) + multiset(b.reported) + multiset(b.overflown) + multiset(b.expired))[id]
        == multiset(Ids(|b.created|))[id];
  }

  lemma {:induction false} IdOnce(n: nat, id: nat)
    ensures multiset(Ids(n))[id] == if id < n then 1 else 0
  {
    if n > 0 {
      IdOnce(n - 1, id);
      NextId(n - 1);
    }
  }
}
