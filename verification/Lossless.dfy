/** What the receiver does when the network behaves: messages that arrive one after
    the other, the slices of each in any order and with repetitions, are all handed
    up, whole, in order, and without a single request. */
module Lossless {
  import opened Types
  import opened Serial
  import opened Packet
  import opened Reassembly
  import opened Reorder
  import opened Delivery
  import opened SenderWindow

  /** The cache between two messages, or while the awaited message m has the slices got. */
  predicate Assembling(c: Cache, m: Message, got: set<nat>) {
    && c.seqReport == m.seqNo && c.retry < COUNT_RETRY
    && if got == {} then c.packs == []
       else |c.packs| == 1 && Holds(c.packs[0], m, UDP_PACKLENGTH) && c.packs[0].got == got
  }

  /** The message has just been handed up. */
  predicate HandedUp(o: Outcome, m: Message) {
    && o.cache.packs == [] && o.cache.seqReport == Next(m.seqNo) && o.cache.retry == 0
    && |o.reported| == 1 && Delivers(o.reported[0], m)
  }

  lemma AbsorbOne(c: Cache, m: Message, got: set<nat>, a: Arrival) returns (q: Pack)
    requires Valid(c) && Admissible(a) && IsSliceOf(m, UDP_PACKLENGTH, a.s) && Assembling(c, m, got)
    ensures Absorb(c, a.s, a.area).packs == [q] && !Absorb(c, a.s, a.area).ignored
    ensures Absorb(c, a.s, a.area).overflow == []
    ensures Holds(q, m, UDP_PACKLENGTH) && q.got == got + {a.s.cur as nat}
  {
    hide Put, Start, Holds, PackOk, IsSliceOf, TimeAfter;
    SliceNumber(m, a.s);
    if got == {} {
      OpenedHolds(m, a.s, a.area);
      q := Start(a.s, UDP_PACKLENGTH, a.area);
      assert [] + [q] + [] == [q];
    } else {
      HoldsNumber(c.packs[0], m, UDP_PACKLENGTH);
      PutHolds(c.packs[0], m, UDP_PACKLENGTH, a.s);
      q := Put(c.packs[0], a.s);
    }
  }

  lemma SliceNumber(m: Message, s: Slice)
    requires IsSliceOf(m, UDP_PACKLENGTH, s)
    ensures s.seqNo == m.seqNo && s.cur < m.slices
  {
  }

  /** With the awaited package alone in the list nothing is asked: it is reported when whole. */
  lemma DecideOne(c: Cache, now: int)
    requires |c.packs| == 1 && c.seqReport == c.packs[0].seqNo && c.retry < COUNT_RETRY
    ensures var o := Decide(c, now);
            && o.request == None && o.expired == []
            && (if IsDone(c.packs[0])
                then o.cache == Cache([], Next(c.packs[0].seqNo), 0, c.stamp) && o.reported == c.packs
                else o.cache == c && o.reported == [])
  {
  }

  lemma SliceStep(c: Cache, m: Message, got: set<nat>, a: Arrival)
    requires Valid(c) && Admissible(a) && IsSliceOf(m, UDP_PACKLENGTH, a.s) && Assembling(c, m, got)
    ensures var o := Step(c, a.s, a.now, a.area);
            && o.request == None && o.overflow == [] && o.expired == []
            && (if NoneMissing(m, got + {a.s.cur as nat}) then HandedUp(o, m)
                else Assembling(o.cache, m, got + {a.s.cur as nat}) && o.reported == [])
  {
    hide Absorb, Decide, Holds, IsDone, Delivers, NoneMissing;
    var q := AbsorbOne(c, m, got, a);
    HoldsNumber(q, m, UDP_PACKLENGTH);
    DoneDelivers(q, m, UDP_PACKLENGTH);
    DecideOne(c.(packs := [q]), a.now);
  }

  // ---- One message ----

  function Slices(run: seq<Arrival>): (s: seq<Slice>)
    ensures |s| == |run|
    ensures forall i | 0 <= i < |s| :: s[i] == run[i].s
  {
    seq(|run|, i requires 0 <= i < |run| => run[i].s)
  }

  predicate SlicesOf(run: seq<Arrival>, m: Message) {
    AllAdmissible(run) && forall i | 0 <= i < |run| :: IsSliceOf(m, UDP_PACKLENGTH, run[i].s)
  }

  function Came(run: seq<Arrival>): set<nat> {
    Arrived(Slices(run))
  }

  /** Slices of m, in any order, repeated or not, the last of which completes it. */
  predicate RoundOf(run: seq<Arrival>, m: Message) {
    && run != [] && SlicesOf(run, m)
    && NoneMissing(m, Came(run)) && !NoneMissing(m, Came(Init(run)))
  }

  predicate Silent(c: Cache, run: seq<Arrival>)
    requires Valid(c) && AllAdmissible(run)
  {
    run != [] ==> Silent(c, Init(run)) && LastOutcome(c, run).request == None
  }

  lemma CameLast(run: seq<Arrival>)
    requires run != []
    ensures Came(run) == Came(Init(run)) + {Final(run).s.cur as nat}
  {
    ArrivedLast(Slices(run));
    assert Slices(run)[..|run| - 1] == Slices(Init(run));
  }

  lemma {:induction false} PartialRound(c: Cache, run: seq<Arrival>, m: Message)
    requires Valid(c) && SlicesOf(run, m) && Assembling(c, m, {}) && !NoneMissing(m, Came(run))
    ensures Assembling(After(c, run), m, Came(run))
    ensures Reported(c, run) == [] && Silent(c, run)
  {
    hide Step, Valid, Assembling, IsSliceOf, Admissible;
    if run == [] {
      assert Came(run) == {};
    } else {
      CameLast(run);
      PartialRound(c, Init(run), m);
      SliceStep(After(c, Init(run)), m, Came(Init(run)), Final(run));
    }
  }

  lemma Round(c: Cache, run: seq<Arrival>, m: Message)
    requires Valid(c) && RoundOf(run, m) && Assembling(c, m, {})
    ensures After(c, run).packs == [] && After(c, run).seqReport == Next(m.seqNo) && After(c, run).retry == 0
    ensures |Reported(c, run)| == 1 && Delivers(Reported(c, run)[0], m)
    ensures Silent(c, run)
  {
    hide Step, Valid, Assembling, IsSliceOf, Admissible, Delivers;
    CameLast(run);
    PartialRound(c, Init(run), m);
    SliceStep(After(c, Init(run)), m, Came(Init(run)), Final(run));
  }

  // ---- A stream of messages ----

  function Joined(rounds: seq<seq<Arrival>>): seq<Arrival> {
    if rounds == [] then [] else Joined(Init(rounds)) + Final(rounds)
  }

  /** Round k brings message k, numbered on from the awaited number. */
  predicate StreamOf(first: u32, rounds: seq<seq<Arrival>>, messages: seq<Message>) {
    && |rounds| == |messages|
    && (forall k | 0 <= k < |rounds| :: RoundOf(rounds[k], messages[k]) && messages[k].seqNo == Plus(first, k))
  }

  lemma {:induction false} SilentConcat(c: Cache, x: seq<Arrival>, y: seq<Arrival>)
    requires Valid(c) && AllAdmissible(x) && AllAdmissible(y)
    ensures AllAdmissible(x + y)
    ensures Silent(c, x + y) <==> Silent(c, x) && Silent(After(c, x), y)
  {
    hide Step, Valid, Admissible;
    if y == [] {
      assert x + y == x;
    } else {
      SilentConcat(c, x, Init(y));
      RunsConcat(c, x, Init(y));
      assert Init(x + y) == x + Init(y) && Final(x + y) == Final(y);
    }
  }

  /** Whatever was sent is handed up: every message, whole, once, in the order of
      their numbers, across the wrap-around, with no request on the way. */
  lemma {:induction false} AllDelivered(c: Cache, rounds: seq<seq<Arrival>>, messages: seq<Message>)
    requires Valid(c) && c.packs == [] && c.retry < COUNT_RETRY && StreamOf(c.seqReport, rounds, messages)
    ensures AllAdmissible(Joined(rounds))
    ensures |Reported(c, Joined(rounds))| == |messages|
    ensures forall k | 0 <= k < |messages| :: Delivers(Reported(c, Joined(rounds))[k], messages[k])
    ensures After(c, Joined(rounds)).packs == [] && After(c, Joined(rounds)).retry < COUNT_RETRY
    ensures After(c, Joined(rounds)).seqReport == Plus(c.seqReport, |messages|)
    ensures Silent(c, Joined(rounds))
  {
    hide After, Reported, Silent, Valid, Delivers, RoundOf, Plus, AllAdmissible;
    if rounds == [] {
      NothingReceived(c);
    } else {
      var n := |rounds| - 1;
      AllDelivered(c, Init(rounds), messages[..n]);
      var d := After(c, Joined(Init(rounds)));
      RoundAdmissible(Final(rounds), messages[n]);
      Round(d, Final(rounds), messages[n]);
      RunsConcat(c, Joined(Init(rounds)), Final(rounds));
      SilentConcat(c, Joined(Init(rounds)), Final(rounds));
      PlusFacts(c.seqReport, n, 0);
    }
  }

  lemma NothingReceived(c: Cache)
    requires Valid(c)
    ensures AllAdmissible([]) && After(c, []) == c && Reported(c, []) == [] && Silent(c, [])
    ensures Plus(c.seqReport, 0) == c.seqReport
  {
  }

  lemma RoundAdmissible(run: seq<Arrival>, m: Message)
    requires RoundOf(run, m)
    ensures AllAdmissible(run)
  {
  }

  /** The slices of a full send, in order, are such a round. */
  lemma FullSendIsRound(run: seq<Arrival>, m: Message)
    requires Sliceable(m, UDP_PACKLENGTH) && AllAdmissible(run)
    requires Slices(run) == Fragments(m, UDP_PACKLENGTH)
    ensures RoundOf(run, m)
  {
    SliceCountIsCeiling(|m.data|, UDP_PACKLENGTH);
    var s := Slices(run);
    forall i: nat | i < m.slices
      ensures i in Came(run)
    {
      assert s[i].cur == i && s[i] in s;
    }
    forall i | 0 <= i < |run|
      ensures IsSliceOf(m, UDP_PACKLENGTH, run[i].s)
    {
      assert run[i].s == s[i];
    }
    assert m.slices - 1 !in Came(Init(run)) by {
      forall t | t in Slices(Init(run))
        ensures t.cur != m.slices - 1
      {
        var j :| 0 <= j < |run| - 1 && t == Slices(Init(run))[j];
        assert t == s[j];
      }
    }
  }
}
