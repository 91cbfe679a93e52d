/** The resend budget over whole runs, and why a missing package cannot block
    the list for long (socket/UdpCombinePackage.cpp:106-147). */
module Retry {
  import opened Types
  import opened Serial
  import opened Packet
  import opened Reassembly
  import opened Reorder
  import opened Delivery

  // ---- The budget ----

  /** What a call means for the budget: a request at a time, or a new start because
      it handed up or discarded a package. */
  datatype Mark = Asked(at: int) | Reset

  function MarksOf(o: Outcome, now: int): seq<Mark> {
    if o.request.Some? then [Asked(now)] else if o.reported != [] || o.expired != [] then [Reset] else []
  }

  function Marks(c: Cache, run: seq<Arrival>): seq<Mark>
    requires Valid(c) && AllAdmissible(run)
  {
    if run == [] then [] else Marks(c, Init(run)) + MarksOf(LastOutcome(c, run), Final(run).now)
  }

  function LastAsked(marks: seq<Mark>, stamp: int): int {
    if marks == [] then stamp
    else match Final(marks)
      case Asked(at) => at
      case Reset => LastAsked(Init(marks), stamp)
  }

  /** Each request is at least INTERVAL_RETRY later than the previous one, the
      first one than stamp, and never more than five fall between two resets. */
  predicate WithinBudget(marks: seq<Mark>, stamp: int, spent: nat) {
    marks != [] ==>
      && WithinBudget(Init(marks), stamp, spent)
      && (Final(marks).Asked? ==> Final(marks).at - LastAsked(Init(marks), stamp) >= INTERVAL_RETRY)
      && Used(marks, spent) <= COUNT_RETRY
  }

  /** The requests since the last reset, those made before the run included. */
  function Used(marks: seq<Mark>, spent: nat): nat {
    if marks == [] then spent
    else match Final(marks)
      case Reset => 0
      case Asked(_) => Used(Init(marks), spent) + 1
  }

  /** What one call does to the counter and to the time of the last request: a request
      counts, a report or a discard resets, and nothing else touches them. */
  predicate Frugal(retry: nat, stamp: int, o: Outcome, now: int) {
    if o.request.Some?
    then retry < COUNT_RETRY && o.cache.retry == retry + 1
         && now - stamp >= INTERVAL_RETRY && o.cache.stamp == now
    else o.cache.stamp == stamp
         && o.cache.retry == (if o.reported != [] || o.expired != [] then 0 else retry)
  }

  lemma StepBudget(c: Cache, s: Slice, now: int, area: seq<byte>)
    requires Valid(c) && WellFormed(s) && |area| == AreaSize(s.slices)
    ensures Frugal(c.retry, c.stamp, Step(c, s, now, area), now)
    ensures var o := Step(c, s, now, area);
            o.request.Some? ==> o.reported == [] && o.expired == []
    ensures var o := Step(c, s, now, area);
            c.retry == COUNT_RETRY && !o.ignored ==> o.cache.retry == 0 && o.request.None?
  {
    AbsorbKeepsList(c, s, area);
  }

  lemma OneMoreMark(marks: seq<Mark>, c: Cache, o: Outcome, now: int, stamp: int, spent: nat)
    requires WithinBudget(marks, stamp, spent) && Used(marks, spent) == c.retry <= COUNT_RETRY
    requires LastAsked(marks, stamp) == c.stamp && Frugal(c.retry, c.stamp, o, now)
    ensures var more := marks + MarksOf(o, now);
            && WithinBudget(more, stamp, spent)
            && Used(more, spent) == o.cache.retry <= COUNT_RETRY
            && LastAsked(more, stamp) == o.cache.stamp
  {
    var more := marks + MarksOf(o, now);
    if MarksOf(o, now) == [] {
      assert more == marks;
    } else {
      assert Init(more) == marks && Final(more) == MarksOf(o, now)[0];
    }
  }

  /** Over every run, with any clock: at most one request a call, requests at
      least INTERVAL_RETRY apart, and at most five between two resets; the
      counter retryCount is the number of requests since the last report or discard. */
  lemma {:induction false} BudgetKept(c: Cache, run: seq<Arrival>)
    requires Valid(c) && AllAdmissible(run)
    ensures WithinBudget(Marks(c, run), c.stamp, c.retry)
    ensures Used(Marks(c, run), c.retry) == After(c, run).retry <= COUNT_RETRY
    ensures LastAsked(Marks(c, run), c.stamp) == After(c, run).stamp
  {
    hide Step, ListOk;
    if run != [] {
      var was, a := Init(run), Final(run);
      BudgetKept(c, was);
      StepBudget(After(c, was), a.s, a.now, a.area);
      OneMoreMark(Marks(c, was), After(c, was), LastOutcome(c, run), a.now, c.stamp, c.retry);
    }
  }

  /** Once five requests are spent, the next call that is not filtered as stale
      takes the timeout branch: it resets the counter and empties the list up to
      an incomplete head. */
  lemma SpentMeansReset(c: Cache, s: Slice, now: int, area: seq<byte>)
    requires Valid(c) && WellFormed(s) && |area| == AreaSize(s.slices)
    requires c.retry == 5
    ensures var o := Step(c, s, now, area);
            !o.ignored ==>
              && o.cache.retry == 0 && o.request.None?
              && |o.expired| + |o.reported| > 0
              && (o.cache.packs == [] || !IsDone(o.cache.packs[0]))
  {
    var a := Absorb(c, s, area);
    StepBudget(c, s, now, area);
    AbsorbKeepsList(c, s, area);
    if !a.ignored {
      hide Absorb, Decide;
      var k, m := TimeoutShape(c.(packs := a.packs), now);
    }
  }

  // ---- Bounded blocking ----

  predicate HoldsDone(packs: seq<Pack>) {
    exists i :: 0 <= i < |packs| && IsDone(packs[i])
  }

  /** The call is not filtered, and comes at least INTERVAL_RETRY after the last request. */
  predicate Spaced(c: Cache, a: Arrival)
    requires Valid(c) && Admissible(a)
  {
    Due(c, a.now) && !Step(c, a.s, a.now, a.area).ignored
  }

  predicate AllSpaced(c: Cache, run: seq<Arrival>)
    requires Valid(c) && AllAdmissible(run)
  {
    run != [] ==> AllSpaced(c, Init(run)) && Spaced(After(c, Init(run)), Final(run))
  }

  lemma PutKeepsDone(p: Pack, s: Slice)
    requires PutFits(p, s) && IsDone(p)
    ensures IsDone(Put(p, s))
  {
  }

  lemma AbsorbKeepsDone(c: Cache, s: Slice, area: seq<byte>)
    requires Valid(c) && WellFormed(s) && |area| == AreaSize(s.slices) && HoldsDone(c.packs)
    ensures HoldsDone(Absorb(c, s, area).packs) || HoldsDone(Absorb(c, s, area).overflow)
  {
    hide Put, Start, PackOk, TimeAfter, Distinct, Chained, IsDone, IndexOf, InsertPos;
    var i :| 0 <= i < |c.packs| && IsDone(c.packs[i]);
    var x := IndexOf(c.packs, s.seqNo);
    if x < |c.packs| {
      PutFitsOk(c.packs[x], s);
      PutKeepsDoneAt(c.packs, i, x, s);
    } else if i < Dropped(c.packs) {
      assert IsDone(Absorb(c, s, area).overflow[i]);
    } else {
      KeptStaysDone(c, s, area, i);
    }
  }

  lemma KeptStaysDone(c: Cache, s: Slice, area: seq<byte>, i: nat)
    requires Valid(c) && WellFormed(s) && |area| == AreaSize(s.slices)
    requires IndexOf(c.packs, s.seqNo) == |c.packs|
    requires Dropped(c.packs) <= i < |c.packs| && IsDone(c.packs[i])
    ensures HoldsDone(Absorb(c, s, area).packs)
  {
    hide Put, Start, PackOk, TimeAfter, Distinct, Chained, IsDone, IndexOf, InsertPos;
    var a := Absorb(c, s, area);
    var n := i - Dropped(c.packs);
    var kept := c.packs[Dropped(c.packs)..];
    assert kept[n] == c.packs[i];
    if a.ignored {
      assert IsDone(a.packs[n]);
    } else {
      StartFitsOk(s, area);
      var j := InsertPos(kept, s.seqNo);
      assert a.packs[if n < j then n else n + 1] == kept[n];
    }
  }

  lemma PutKeepsDoneAt(packs: seq<Pack>, i: nat, x: nat, s: Slice)
    requires i < |packs| && x < |packs| && IsDone(packs[i]) && PutFits(packs[x], s)
    ensures IsDone(packs[x := Put(packs[x], s)][i])
  {
    if i == x {
      PutKeepsDone(packs[i], s);
    }
  }

  /** With a complete package listed, a spaced call asks again or reports. */
  lemma DecideProgresses(c: Cache, now: int)
    requires Valid(c) && c.packs != [] && HoldsDone(c.packs) && Due(c, now)
    ensures var o := Decide(c, now);
            o.reported != [] || (o.request.Some? && o.cache.packs == c.packs && o.cache.retry == c.retry + 1)
  {
    if c.retry < COUNT_RETRY {
      assert FirstDone(c.packs) < |c.packs|;
    } else {
      var k, m := TimeoutShape(c, now);
      assert k < |c.packs|;
    }
  }

  lemma StepProgresses(c: Cache, a: Arrival)
    requires Valid(c) && Admissible(a) && HoldsDone(c.packs) && Spaced(c, a)
    ensures var o := Step(c, a.s, a.now, a.area);
            || o.reported != []
            || HoldsDone(o.overflow)
            || (HoldsDone(o.cache.packs) && o.cache.retry == c.retry + 1)
  {
    AbsorbKeepsDone(c, a.s, a.area);
    AbsorbKeepsList(c, a.s, a.area);
    hide Absorb, Decide, HoldsDone;
    var d := c.(packs := Absorb(c, a.s, a.area).packs);
    if HoldsDone(d.packs) {
      DecideProgresses(d, a.now);
    }
  }

  lemma {:induction false} BlockedRunAsks(c: Cache, run: seq<Arrival>)
    requires Valid(c) && AllAdmissible(run) && HoldsDone(c.packs) && AllSpaced(c, run)
    ensures Reported(c, run) != [] || HoldsDone(Overflown(c, run))
         || (HoldsDone(After(c, run).packs) && After(c, run).retry == c.retry + |run|)
  {
    if run != [] {
      var was := Init(run);
      BlockedRunAsks(c, was);
      hide Step;
      if Reported(c, was) == [] {
        if HoldsDone(Overflown(c, was)) {
          HoldsDoneAppend(Overflown(c, was), LastOutcome(c, run).overflow);
        } else {
          StepProgresses(After(c, was), Final(run));
          HoldsDoneAppend(Overflown(c, was), LastOutcome(c, run).overflow);
        }
      }
    }
  }

  lemma HoldsDoneAppend(a: seq<Pack>, b: seq<Pack>)
    ensures HoldsDone(a) || HoldsDone(b) ==> HoldsDone(a + b)
  {
    if HoldsDone(a) {
      var i :| 0 <= i < |a| && IsDone(a[i]);
      assert (a + b)[i] == a[i];
    } else if HoldsDone(b) {
      var i :| 0 <= i < |b| && IsDone(b[i]);
      assert (a + b)[|a| + i] == b[i];
    }
  }

  /** A complete package is not blocked for long by missing ones before it: within
      six unfiltered calls spaced by INTERVAL_RETRY a package is reported, unless
      the list limit has dropped a complete one. */
  lemma BlockingIsBounded(c: Cache, run: seq<Arrival>)
    requires Valid(c) && AllAdmissible(run) && HoldsDone(c.packs) && AllSpaced(c, run)
    requires |run| > 5 - c.retry
    ensures Reported(c, run) != [] || HoldsDone(Overflown(c, run))
  {
    BlockedRunAsks(c, run);
  }
}
