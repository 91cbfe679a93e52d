/** The sender's numbering and its cache of the last 30 messages, as values
    (socket/SendPackageCache.cpp:40-172, socket/UdpClient.cpp:51-67). */
module SenderWindow {
  import opened Types
  import opened Serial
  import opened Packet
  import opened SliceMask

  const MAX_SIZE := 30
  const THREAD_BUFFER := 2 * 1024 * 1024
  const RANGE_START: bv32 := 1   // UDPRANGE_START
  const RANGE_END: bv32 := 2     // UDPRANGE_END

  /** One entry of sendList: a number to look up, and the slices to send of it. */
  datatype Job = Job(size: nat, seqNo: u32, mask: set<nat>)

  datatype Sender = Sender(next: u32, cached: seq<Message>, queue: seq<Job>)

  function Trim(cached: seq<Message>): (kept: seq<Message>)
    ensures |kept| == if |cached| >= MAX_SIZE then MAX_SIZE - 1 else |cached|
  {
    if |cached| >= MAX_SIZE then cached[|cached| - (MAX_SIZE - 1)..] else cached
  }

  function Add(st: Sender, typ: u16, time: i64, data: seq<byte>, size: nat): Sender
    requires size > 0
  {
    Sender(Next(st.next), Trim(st.cached) + [Packaged(st.next, typ, time, data, size)], st.queue)
  }

  function Enqueue(st: Sender, job: Job): Sender {
    st.(queue := st.queue + [job])
  }

  /** The position of the first cached message with the number, |cached| if none. */
  function Lookup(cached: seq<Message>, seqNo: u32): (i: nat)
    ensures i <= |cached|
    ensures forall j | 0 <= j < i :: cached[j].seqNo != seqNo
    ensures i < |cached| ==> cached[i].seqNo == seqNo
  {
    if cached == [] || cached[0].seqNo == seqNo then 0 else 1 + Lookup(cached[1..], seqNo)
  }

  /** The message the job finds, if any, can be cut into slices of its size. */
  predicate JobCuts(cached: seq<Message>, job: Job) {
    var i := Lookup(cached, job.seqNo);
    i < |cached| ==> Emittable(cached[i], job.size)
  }

  /** It fits, with its header, the buffer the send thread copies it to. */
  predicate JobFits(cached: seq<Message>, job: Job) {
    var i := Lookup(cached, job.seqNo);
    i < |cached| ==> HEAD + |cached[i].data| <= THREAD_BUFFER
  }

  /** One turn of the send thread: the slices it puts on the wire. */
  function Transmitted(st: Sender): seq<Slice>
    requires st.queue != [] && JobCuts(st.cached, st.queue[0])
  {
    var job := st.queue[0];
    var i := Lookup(st.cached, job.seqNo);
    if i < |st.cached| then Emitted(st.cached[i], job.size, job.mask) else []
  }

  // ---- The range request ----

  function RangeStart(cached: seq<Message>, start: u32, flag: bv32): u32
    requires cached != []
  {
    if flag & RANGE_START != 0 then cached[0].seqNo else start
  }

  function RangeEnd(cached: seq<Message>, end: u32, flag: bv32): u32
    requires cached != []
  {
    if flag & RANGE_END != 0 then Next(cached[|cached| - 1].seqNo) else end
  }

  /** The cached messages the loop of SendRange picks: plain comparison of the
      unsigned numbers. */
  function Picked(cached: seq<Message>, start: u32, end: u32): seq<Message> {
    if cached == [] then []
    else
      var n := |cached| - 1;
      Picked(cached[..n], start, end) + (if start <= cached[n].seqNo < end then [cached[n]] else [])
  }

  function Jobs(size: nat, messages: seq<Message>): (jobs: seq<Job>)
    ensures |jobs| == |messages|
    ensures forall i | 0 <= i < |jobs| :: jobs[i] == Job(size, messages[i].seqNo, Everything())
  {
    seq(|messages|, i requires 0 <= i < |messages| => Job(size, messages[i].seqNo, Everything()))
  }

  function AddRange(st: Sender, size: nat, start: u32, end: u32, flag: bv32): Sender {
    if st.cached == [] then st
    else
      st.(queue := st.queue
                   + Jobs(size, Picked(st.cached, RangeStart(st.cached, start, flag), RangeEnd(st.cached, end, flag))))
  }

  // ---- The window against the full history ----

  datatype Submission = Submission(typ: u16, time: i64, data: seq<byte>)

  /** n increments of a number. */
  function Plus(from: u32, n: int): u32 {
    (from + n) % MODULUS
  }

  lemma PlusFacts(from: u32, n: nat, k: nat)
    ensures Next(Plus(from, n)) == Plus(from, n + 1)
    ensures Plus(Plus(from, n), k) == Plus(from, n + k)
    ensures k < MODULUS ==> Ahead(from, Plus(from, k)) == k
  {
    ModAdds(from + n, 1);
    ModAdds(from + n, k);
    ModAdds(from + k, 0 - from);
  }

  lemma ModAdds(a: int, b: int)
    ensures (a % MODULUS + b) % MODULUS == (a + b) % MODULUS
  {
  }

  lemma PlusAhead(from: u32, to: u32)
    ensures Plus(from, Ahead(from, to)) == to
  {
  }

  /** All messages ever cached, the k-th numbered k modulo 2^32. */
  function History(run: seq<Submission>, size: nat): (h: seq<Message>)
    requires size > 0
    ensures |h| == |run|
    ensures forall k | 0 <= k < |h| ::
              h[k] == Packaged(Plus(0, k), run[k].typ, run[k].time, run[k].data, size)
  {
    seq(|run|, k requires 0 <= k < |run| =>
      Packaged(Plus(0, k), run[k].typ, run[k].time, run[k].data, size))
  }

  function AfterAdds(run: seq<Submission>, size: nat): Sender
    requires size > 0
  {
    if run == [] then Sender(0, [], [])
    else
      var n := |run| - 1;
      Add(AfterAdds(run[..n], size), run[n].typ, run[n].time, run[n].data, size)
  }

  function Last(h: seq<Message>, n: nat): seq<Message> {
    if |h| <= n then h else h[|h| - n..]
  }

  lemma SlideWindow(h: seq<Message>, m: Message)
    ensures Trim(Last(h, MAX_SIZE)) + [m] == Last(h + [m], MAX_SIZE)
  {
  }

  /** The cache is exactly the last 30 messages of the whole history, and the
      next number is the length of that history modulo 2^32. */
  lemma {:induction false} WindowIsLast30(run: seq<Submission>, size: nat)
    requires size > 0
    ensures AfterAdds(run, size).cached == Last(History(run, size), MAX_SIZE)
    ensures AfterAdds(run, size).next == Plus(0, |run|)
  {
    assert Plus(0, 0) == 0;
    hide Packaged, Plus, Trim, Next;
    if run != [] {
      var n := |run| - 1;
      WindowIsLast30(run[..n], size);
      PlusFacts(0, n, 0);
      var m := Packaged(Plus(0, n), run[n].typ, run[n].time, run[n].data, size);
      assert History(run, size) == History(run[..n], size) + [m];
      SlideWindow(History(run[..n], size), m);
    }
  }

  /** The cached messages carry consecutive numbers from first on, around the wrap. */
  predicate Consecutive(cached: seq<Message>, first: u32) {
    |cached| <= MAX_SIZE && forall i | 0 <= i < |cached| :: cached[i].seqNo == Plus(first, i)
  }

  lemma LastAt(h: seq<Message>, n: nat)
    ensures |Last(h, n)| == Min(|h|, n)
    ensures forall i | 0 <= i < |Last(h, n)| :: Last(h, n)[i] == h[|h| - |Last(h, n)| + i]
  {
  }

  lemma PackagedNumber(run: seq<Submission>, size: nat, k: nat)
    requires size > 0 && k < |run|
    ensures History(run, size)[k].seqNo == Plus(0, k)
  {
  }

  /** The window holds consecutive numbers, and there are min(n, 30) of them. */
  lemma WindowConsecutive(run: seq<Submission>, size: nat)
    requires size > 0
    ensures var cached := AfterAdds(run, size).cached;
            |cached| == Min(|run|, 30) && Consecutive(cached, Plus(0, |run| - |cached|))
  {
    hide Plus, Packaged, History, AfterAdds, Last;
    WindowIsLast30(run, size);
    var cached := AfterAdds(run, size).cached;
    LastAt(History(run, size), MAX_SIZE);
    var skip := |run| - |cached|;
    forall i | 0 <= i < |cached|
      ensures cached[i].seqNo == Plus(Plus(0, skip), i)
    {
      PackagedNumber(run, size, skip + i);
      PlusFacts(0, skip, i);
    }
  }

  /** A resend finds its message exactly when the number lies in the window. */
  lemma LookupIff(cached: seq<Message>, first: u32, seqNo: u32)
    requires Consecutive(cached, first)
    ensures Lookup(cached, seqNo) < |cached| <==> Ahead(first, seqNo) < |cached|
    ensures Lookup(cached, seqNo) < |cached| ==> Lookup(cached, seqNo) == Ahead(first, seqNo)
  {
    hide Plus, Ahead;
    var d := Ahead(first, seqNo);
    PlusAhead(first, seqNo);
    if d < |cached| {
      assert cached[d].seqNo == seqNo;
    }
    var i := Lookup(cached, seqNo);
    if i < |cached| {
      PlusFacts(first, 0, i);
    }
  }

  // ---- What a range request selects ----

  /** In the half-open range [start, end) of 32-bit serial numbers. */
  predicate InSerialRange(start: u32, end: u32, seqNo: u32) {
    Ahead(start, seqNo) < Ahead(start, end)
  }

  function Wanted(cached: seq<Message>, start: u32, end: u32): seq<Message> {
    if cached == [] then []
    else
      var n := |cached| - 1;
      Wanted(cached[..n], start, end) + (if InSerialRange(start, end, cached[n].seqNo) then [cached[n]] else [])
  }

  lemma {:induction false} PickedIsWanted(cached: seq<Message>, start: u32, end: u32)
    requires start <= end
    ensures Picked(cached, start, end) == Wanted(cached, start, end)
  {
    if cached != [] {
      PickedIsWanted(cached[..|cached| - 1], start, end);
    }
  }

  lemma {:induction false} WrappedPicksNothing(cached: seq<Message>, start: u32, end: u32)
    requires start > end
    ensures Picked(cached, start, end) == []
    ensures Wanted(cached, start, end) == [] <==> forall m <- cached :: !InSerialRange(start, end, m.seqNo)
  {
    if cached != [] {
      var n := |cached| - 1;
      WrappedPicksNothing(cached[..n], start, end);
      assert cached == cached[..n] + [cached[n]];
    }
  }

  /** A range request is answered with exactly the cached messages of the serial
      range, unless the range itself wraps past 2^32, when nothing is sent at all. */
  lemma RangeAnsweredIff(cached: seq<Message>, start: u32, end: u32)
    ensures Picked(cached, start, end) == Wanted(cached, start, end)
            <==> start <= end || forall m <- cached :: !InSerialRange(start, end, m.seqNo)
  {
    if start <= end {
      PickedIsWanted(cached, start, end);
    } else {
      WrappedPicksNothing(cached, start, end);
    }
  }

  predicate Ascending(messages: seq<Message>) {
    forall i, j | 0 <= i < j < |messages| :: messages[i].seqNo < messages[j].seqNo
  }

  lemma UnwrappedAscending(cached: seq<Message>, first: u32)
    requires Consecutive(cached, first) && first + |cached| <= MODULUS
    ensures Ascending(cached)
    ensures forall i | 0 <= i < |cached| :: cached[i].seqNo == first + i
  {
    forall i | 0 <= i < |cached|
      ensures cached[i].seqNo == first + i
    {
      assert Plus(first, i) == first + i;
    }
  }

  /** While the window has not wrapped, what is picked is exactly the cached
      numbers of [start, end), in ascending order, once each. */
  lemma {:induction false} PickedAscending(cached: seq<Message>, start: u32, end: u32)
    requires Ascending(cached)
    ensures forall m :: m in Picked(cached, start, end) <==> m in cached && start <= m.seqNo < end
    ensures Ascending(Picked(cached, start, end))
  {
    if cached != [] {
      var n := |cached| - 1;
      PickedAscending(cached[..n], start, end);
      assert cached == cached[..n] + [cached[n]];
      var before := Picked(cached[..n], start, end);
      forall i | 0 <= i < |before|
        ensures before[i].seqNo < cached[n].seqNo
      {
        assert before[i] in before;
        assert before[i] in cached[..n];
      }
    }
  }

  /** Each flag lifts its own bound: with 1 the range begins at the first cached message,
      with 2 it ends behind the last. */
  lemma FlagsLiftBounds(cached: seq<Message>, start: u32, end: u32, flag: bv32, m: Message)
    requires Ascending(cached) && cached != [] && cached[|cached| - 1].seqNo + 1 < MODULUS
    ensures m in Picked(cached, RangeStart(cached, start, flag), RangeEnd(cached, end, flag)) <==>
              && m in cached
              && (flag & 1 != 0 || start <= m.seqNo)
              && (flag & 2 != 0 || m.seqNo < end)
  {
    FlagBounds(cached, start, end, flag);
    hide RangeStart, RangeEnd, Picked;
    PickedAscending(cached, RangeStart(cached, start, flag), RangeEnd(cached, end, flag));
    if m in cached {
      var i :| 0 <= i < |cached| && cached[i] == m;
    }
  }

  lemma FlagBounds(cached: seq<Message>, start: u32, end: u32, flag: bv32)
    requires cached != [] && cached[|cached| - 1].seqNo + 1 < MODULUS
    ensures RangeStart(cached, start, flag) == if flag & 1 != 0 then cached[0].seqNo else start
    ensures RangeEnd(cached, end, flag) == if flag & 2 != 0 then cached[|cached| - 1].seqNo + 1 else end
  {
  }

  lemma {:induction false} PicksAll(cached: seq<Message>, start: u32, end: u32)
    requires forall m <- cached :: start <= m.seqNo < end
    ensures Picked(cached, start, end) == cached
  {
    if cached != [] {
      var n := |cached| - 1;
      PicksAll(cached[..n], start, end);
      assert cached == cached[..n] + [cached[n]];
    }
  }

  /** With both flags the whole cache is meant: it is queued exactly when the
      number after the last cached one has not wrapped to 0 or beyond. */
  lemma WholeCacheIff(cached: seq<Message>, first: u32, start: u32, end: u32, flag: bv32)
    requires Consecutive(cached, first) && cached != []
    requires flag & RANGE_START != 0 && flag & RANGE_END != 0
    ensures Picked(cached, RangeStart(cached, start, flag), RangeEnd(cached, end, flag)) == cached
            <==> first + |cached| < MODULUS
  {
    hide RangeStart, RangeEnd, Plus;
    var n := |cached|;
    var lo, hi := RangeStart(cached, start, flag), RangeEnd(cached, end, flag);
    WholeRange(cached, first, start, end, flag);
    PlusNumbers(first, n);
    if first + n < MODULUS {
      UnwrappedAscending(cached, first);
      PicksAll(cached, lo, hi);
    } else {
      WrappedPicksNothing(cached, lo, hi);
    }
  }

  lemma WholeRange(cached: seq<Message>, first: u32, start: u32, end: u32, flag: bv32)
    requires Consecutive(cached, first) && cached != []
    requires flag & RANGE_START != 0 && flag & RANGE_END != 0
    ensures RangeStart(cached, start, flag) == first
    ensures RangeEnd(cached, end, flag) == Plus(first, |cached|)
  {
    hide Plus;
    PlusFacts(first, |cached| - 1, 0);
    PlusNumbers(first, 0);
  }

  lemma PlusNumbers(first: u32, n: nat)
    requires n <= MAX_SIZE
    ensures first + n < MODULUS ==> Plus(first, n) == first + n
    ensures first + n >= MODULUS ==> Plus(first, n) < first
  {
  }

  // ---- A window that has wrapped ----

  lemma {:induction false} WantsAll(cached: seq<Message>, start: u32, end: u32)
    requires forall m <- cached :: InSerialRange(start, end, m.seqNo)
    ensures Wanted(cached, start, end) == cached
  {
    hide InSerialRange;
    if cached != [] {
      var n := |cached| - 1;
      WantsAll(cached[..n], start, end);
      assert cached == cached[..n] + [cached[n]];
    }
  }

  /** For up to 29 messages after each wrap of the numbers, a request for exactly the
      cached range is answered with nothing, although every cached message is in it. */
  lemma WrappedRangeUnanswered(run: seq<Submission>, size: nat)
    requires size > 0 && |run| > MODULUS && 0 < |run| % MODULUS < MAX_SIZE
    ensures var cached := AfterAdds(run, size).cached;
            && |cached| == MAX_SIZE
            && (var start, end := cached[0].seqNo, Next(cached[MAX_SIZE - 1].seqNo);
                Wanted(cached, start, end) == cached && Picked(cached, start, end) == [])
  {
    hide AfterAdds, Plus, Wanted, Picked, InSerialRange;
    WindowConsecutive(run, size);
    var cached := AfterAdds(run, size).cached;
    var first := Plus(0, |run| - MAX_SIZE);
    WrappedEnds(|run|);
    PlusFacts(first, MAX_SIZE - 1, 0);
    PlusFacts(first, 0, 0);
    assert cached[0].seqNo == first by { PlusFacts(first, 0, 0); FromItself(first); }
    forall i | 0 <= i < MAX_SIZE
      ensures InSerialRange(first, Plus(first, MAX_SIZE), cached[i].seqNo)
    {
      InWindow(first, i);
    }
    WantsAll(cached, first, Plus(first, MAX_SIZE));
    WrappedPicksNothing(cached, first, Plus(first, MAX_SIZE));
  }

  lemma FromItself(first: u32)
    ensures Plus(first, 0) == first
  {
  }

  lemma InWindow(first: u32, i: nat)
    requires i < MAX_SIZE
    ensures InSerialRange(first, Plus(first, MAX_SIZE), Plus(first, i))
  {
    hide Plus;
    PlusFacts(first, 0, MAX_SIZE);
    PlusFacts(first, 0, i);
  }

  lemma WrappedEnds(n: nat)
    requires n > MODULUS && 0 < n % MODULUS < MAX_SIZE
    ensures Plus(0, n - MAX_SIZE) == MODULUS - MAX_SIZE + n % MODULUS
    ensures Plus(Plus(0, n - MAX_SIZE), MAX_SIZE) == n % MODULUS
  {
    var r := n % MODULUS;
    ModAdds(n, -MAX_SIZE);
    assert (r - MAX_SIZE) % MODULUS == r - MAX_SIZE + MODULUS;
    ModAdds(r - MAX_SIZE, MAX_SIZE);
  }

  /** The sender gets there after 2^32 + 5 messages. */
  lemma WrappedRangeReached() returns (run: seq<Submission>)
    ensures |run| == MODULUS + 5
    ensures var cached := AfterAdds(run, 32 * 1024).cached;
            && |cached| == MAX_SIZE && cached[0].seqNo == MODULUS - 25 && cached[MAX_SIZE - 1].seqNo == 4
            && Picked(cached, MODULUS - 25, 5) == []
  {
    hide AfterAdds, Picked, Wanted, InSerialRange;
    run := seq(MODULUS + 5, _ => Submission(0, 0, []));
    assert |run| % MODULUS == 5;
    WindowConsecutive(run, 32 * 1024);
    WrappedRangeUnanswered(run, 32 * 1024);
  }
}
