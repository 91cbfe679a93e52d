/** What the whole UDP path achieves when the network loses nothing: whatever is
    submitted goes through the sender's queue and the wire to the receiver and is
    handed up (socket/UdpClient.cpp:51-56, socket/SendPackageCache.cpp:138-173,
    socket/UdpCombinePackage.cpp:63-163). */
module UdpProgress {
  import opened Types
  import opened Serial
  import opened Packet
  import opened SliceMask
  import opened Reassembly
  import opened Reorder
  import opened Delivery
  import opened SenderWindow
  import opened Lossless
  import opened UdpSystem
  import Recovery

  /** Nothing is queued, and the receiver has handed up everything so far. */
  predicate Idle(sys: Sys) {
    && Inv(sys)
    && sys.sender.queue == []
    && sys.recv.packs == [] && sys.recv.seqReport == |sys.history| % MODULUS && sys.recv.retry < COUNT_RETRY
  }

  lemma Extend(run: seq<Action>, a: Action)
    requires Possible(run) && Enabled(State(run), a)
    ensures Possible(run + [a]) && State(run + [a]) == Apply(State(run), a)
  {
    hide Apply, Enabled, Inv;
    assert Init(run + [a]) == run && Final(run + [a]) == a;
  }

  /** Message m is on the wire in full and the receiver has its first i slices. */
  predicate Delivering(sys: Sys, m: Message, i: nat) {
    && Inv(sys) && sys.sender.queue == []
    && |sys.history| > 0 && Final(sys.history) == m && m.seqNo == |sys.history| - 1
    && Sliceable(m, UDP_PACKLENGTH)
    && (forall s <- Fragments(m, UDP_PACKLENGTH) :: s in sys.wire)
    && Assembling(sys.recv, m, Range(i))
  }

  lemma RangeMissing(m: Message, i: nat)
    requires Sliceable(m, UDP_PACKLENGTH) && i < m.slices
    ensures Range(i) + {i} == Range(i + 1)
    ensures NoneMissing(m, Range(i + 1)) <==> i + 1 == m.slices
  {
    if i + 1 < m.slices {
      assert i + 1 !in Range(i + 1);
    }
  }

  lemma FragmentIs(m: Message, i: nat)
    requires Sliceable(m, UDP_PACKLENGTH) && i < m.slices
    ensures var s := Fragments(m, UDP_PACKLENGTH)[i];
            && s in Fragments(m, UDP_PACKLENGTH) && IsSliceOf(m, UDP_PACKLENGTH, s) && s.cur == i && s.slices == m.slices
  {
  }

  lemma InvParts(sys: Sys)
    requires Inv(sys)
    ensures Reorder.Valid(sys.recv)
  {
  }

  /** The message has been handed up behind the earlier ones, and nothing is left to do. */
  predicate HandedUpNext(sys: Sys, after: Sys, m: Message) {
    && Idle(after) && after.history == sys.history
    && |after.reported| == |sys.reported| + 1
    && sys.reported == Init(after.reported) && Delivers(Final(after.reported), m)
  }

  function DeliverNow(s: Slice, now: int): Action {
    Deliver(s, now, seq(AreaSize(s.slices), _ => 0))
  }

  /** Slice i arrives. */
  lemma DeliverStep(sys: Sys, m: Message, i: nat, now: int)
    requires Delivering(sys, m, i) && i < m.slices
    ensures var a := DeliverNow(Fragments(m, UDP_PACKLENGTH)[i], now);
            && Enabled(sys, a)
            && (if i + 1 == m.slices then HandedUpNext(sys, Apply(sys, a), m)
                else Delivering(Apply(sys, a), m, i + 1) && Apply(sys, a).reported == sys.reported
                     && Apply(sys, a).history == sys.history)
  {
    hide Inv, Reorder.Valid, Apply, Step, Holds, Delivers, IsSliceOf, NoneMissing, Assembling, Sliceable;
    var s := Fragments(m, UDP_PACKLENGTH)[i];
    var a := DeliverNow(s, now);
    FragmentIs(m, i);
    InvParts(sys);
    RangeMissing(m, i);
    var x := Delivery.Arrival(s, now, a.area);
    SliceAdmissible(m, x);
    SliceStep(sys.recv, m, Range(i), x);
    DeliverIs(sys, x);
    ApplyKeepsInv(sys, a);
    NextNumber(m.seqNo);
  }

  /** The remaining slices arrive, each at any moment. */
  lemma {:induction false} DeliverRest(run: seq<Action>, m: Message, i: nat, now: int) returns (more: seq<Action>)
    requires Possible(run) && Delivering(State(run), m, i) && i < m.slices
    ensures Possible(run + more) && HandedUpNext(State(run), State(run + more), m)
    decreases m.slices - i
  {
    hide Inv, Apply, Enabled, Idle, Delivers, Possible, State, Assembling, Sliceable;
    DeliveringSlices(State(run), m, i);
    DeliverStep(State(run), m, i, now);
    var a := DeliverNow(Fragments(m, UDP_PACKLENGTH)[i], now);
    Extend(run, a);
    if i + 1 == m.slices {
      more := [a];
    } else {
      var rest := DeliverRest(run + [a], m, i + 1, now);
      more := [a] + rest;
      assert run + more == run + [a] + rest;
    }
  }

  lemma DeliveringSlices(sys: Sys, m: Message, i: nat)
    requires Delivering(sys, m, i)
    ensures Sliceable(m, UDP_PACKLENGTH)
  {
  }

  lemma NextNumber(n: u32)
    ensures Next(n) == (n + 1) % MODULUS
  {
  }

  lemma SliceAdmissible(m: Message, x: Delivery.Arrival)
    requires IsSliceOf(m, UDP_PACKLENGTH, x.s) && |x.area| == AreaSize(x.s.slices)
    ensures Admissible(x)
  {
    PieceBounds(m, x.s.cur, UDP_PACKLENGTH);
  }

  lemma DeliverIs(sys: Sys, x: Delivery.Arrival)
    requires Inv(sys) && Enabled(sys, Deliver(x.s, x.now, x.area)) && Admissible(x)
    ensures var o, after := Step(sys.recv, x.s, x.now, x.area), Apply(sys, Deliver(x.s, x.now, x.area));
            && after.recv == o.cache && after.reported == sys.reported + o.reported
            && after.history == sys.history && after.sender == sys.sender && after.wire == sys.wire
            && (o.request.Some? ==> o.request.value in after.asked)
  {
    hide Inv, Step;
  }

  lemma TransmitIs(sys: Sys)
    requires Inv(sys) && Enabled(sys, Transmit)
    ensures JobCuts(sys.sender.cached, sys.sender.queue[0])
    ensures var after := Apply(sys, Transmit);
            && after.sender == sys.sender.(queue := sys.sender.queue[1..])
            && after.recv == sys.recv && after.reported == sys.reported && after.history == sys.history
            && (forall s <- Recovery.Turn(sys.sender, 0) :: s in after.wire)
  {
    CachedEmittable(sys);
    hide Inv, Emitted, Lookup;
    assert sys.sender.queue[0..] == sys.sender.queue;
  }

  lemma NothingGot(sys: Sys, m: Message)
    requires sys.recv.packs == [] && sys.recv.seqReport == m.seqNo && sys.recv.retry < COUNT_RETRY
    ensures Assembling(sys.recv, m, Range(0))
  {
  }

  lemma SubmitLeaves(sys: Sys, data: seq<byte>, time: i64)
    requires Inv(sys) && Enabled(sys, Submit(data, time))
    ensures var after := Apply(sys, Submit(data, time));
            after.recv == sys.recv && after.reported == sys.reported
  {
    hide Inv;
  }

  /** A payload has become the next message and has been handed up. */
  predicate GotThrough(sys: Sys, after: Sys, data: seq<byte>, time: i64) {
    && Idle(after)
    && |after.history| == |sys.history| + 1 && sys.history == Init(after.history)
    && Final(after.history).data == data && Final(after.history).time == time
    && |after.reported| == |sys.reported| + 1 && sys.reported == Init(after.reported)
    && Delivers(Final(after.reported), Final(after.history))
  }

  /** UdpClient::Send and the turn of the send thread that follows. */
  lemma SubmitAndTransmit(sys: Sys, data: seq<byte>, time: i64)
    requires Idle(sys) && |sys.history| < MODULUS && PayloadFits(|data|)
    ensures Enabled(sys, Submit(data, time))
    ensures var cached := Apply(sys, Submit(data, time));
            && Inv(cached) && Enabled(cached, Transmit)
            && var sent := Apply(cached, Transmit);
               && |sent.history| == |sys.history| + 1 && sys.history == Init(sent.history)
               && sent.reported == sys.reported
               && Final(sent.history).data == data && Final(sent.history).time == time
               && Delivering(sent, Final(sent.history), 0) && Final(sent.history).slices >= 1
  {
    hide Inv, Apply, Holds, Delivers, IsSliceOf, Sliceable, Reorder.Valid, Assembling;
    SubmittedIsCached(sys, data, time);
    SubmitEmits(sys, data, time);
    SubmitLeaves(sys, data, time);
    NextTurnSafeIff(sys, data, time);
    var cached := Apply(sys, Submit(data, time));
    TransmitIs(cached);
    ApplyKeepsInv(cached, Transmit);
    var sent := Apply(cached, Transmit);
    var m := Final(sent.history);
    NothingGot(sent, m);
    SliceCountPositive(m);
  }

  /** One message, from UdpClient::Send to DoRecvUdpMessage. */
  lemma SendOne(run: seq<Action>, data: seq<byte>, time: i64, now: int) returns (more: seq<Action>)
    requires Possible(run) && Idle(State(run))
    requires |State(run).history| < MODULUS && PayloadFits(|data|)
    ensures Possible(run + more) && GotThrough(State(run), State(run + more), data, time)
  {
    hide Inv, Apply, Enabled, Idle, Delivers, Possible, State, Delivering;
    var sys := State(run);
    SubmitAndTransmit(sys, data, time);
    Extend(run, Submit(data, time));
    Extend(run + [Submit(data, time)], Transmit);
    var sent := run + [Submit(data, time)] + [Transmit];
    var rest := DeliverRest(sent, Final(State(sent).history), 0, now);
    more := [Submit(data, time)] + [Transmit] + rest;
    assert run + more == sent + rest;
  }

  lemma SliceCountPositive(m: Message)
    requires Sliceable(m, UDP_PACKLENGTH)
    ensures m.slices >= 1
  {
    SliceCountIsCeiling(|m.data|, UDP_PACKLENGTH);
  }

  /** The messages are the payloads, and the reports are the messages, one by one. */
  predicate AllHandedUp(sys: Sys, payloads: seq<Submission>) {
    && |sys.history| == |sys.reported| == |payloads|
    && forall k | 0 <= k < |payloads| ::
         && sys.history[k].data == payloads[k].data && sys.history[k].time == payloads[k].time
         && Delivers(sys.reported[k], sys.history[k])
  }

  /** Every list of payloads that fit can be sent so that the receiver hands up exactly
      these messages, in order, whole. */
  lemma {:induction false} AllGetThrough(payloads: seq<Submission>, now: int) returns (run: seq<Action>)
    requires |payloads| <= MODULUS && forall p <- payloads :: PayloadFits(|p.data|)
    ensures Possible(run) && Idle(State(run))
    ensures AllHandedUp(State(run), payloads)
  {
    hide Inv, Delivers, Idle, State, Possible, Apply;
    if payloads == [] {
      run := [];
      StartsIdle();
    } else {
      var n := |payloads| - 1;
      var before := AllGetThrough(payloads[..n], now);
      var more := SendOne(before, payloads[n].data, payloads[n].time, now);
      run := before + more;
    }
  }

  lemma StartsIdle()
    ensures Possible([]) && State([]) == INITIAL && Idle(INITIAL)
  {
  }

  // ---- The history is what was submitted ----

  function Submitted(run: seq<Action>): seq<Submission> {
    if run == [] then []
    else match Final(run)
      case Submit(data, time) => Submitted(Init(run)) + [Submission(TYPE_VIDEO, time, data)]
      case _ => Submitted(Init(run))
  }

  /** In every run the history holds the submitted payloads, in order, each with its time,
      its slice count and the next number. */
  lemma {:induction false} HistoryIsSubmitted(run: seq<Action>)
    requires Possible(run)
    ensures var h, s := State(run).history, Submitted(run);
            && |h| == |s|
            && forall k | 0 <= k < |h| ::
                 && h[k].seqNo == k && h[k].typ == TYPE_VIDEO && h[k].time == s[k].time && h[k].data == s[k].data
                 && h[k].slices == SliceCount(|s[k].data|, 32 * 1024)
  {
    hide Inv, Apply, Enabled, State, Possible, Sliceable;
    OpenRun(run);
    if run != [] {
      var sys, a := State(Init(run)), Final(run);
      HistoryIsSubmitted(Init(run));
      match a
      case Submit(data, time) =>
        SubmittedIsCached(sys, data, time);
        LastSliceable(State(run));
      case Transmit => TransmitIs(sys);
      case Deliver(_, _, _) => HistoryKept(sys, a);
      case Answer(_) => HistoryKept(sys, a);
    }
  }

  lemma LastSliceable(sys: Sys)
    requires Inv(sys) && sys.history != []
    ensures Final(sys.history).slices == SliceCount(|Final(sys.history).data|, UDP_PACKLENGTH)
  {
  }

  lemma HistoryKept(sys: Sys, a: Action)
    requires Inv(sys) && Enabled(sys, a) && !a.Submit?
    ensures Apply(sys, a).history == sys.history
  {
    hide Inv;
  }
}
