/** The class TcpClient::SendCacheManager: the send queues, and the thread that turns
    queued messages into the TCP byte stream (socket/TcpClient.cpp:900-1038). */
module TcpSend {
  import opened Types
  import opened Bytes
  import opened Serial
  import opened Packet
  import opened SenderWindow
  import opened Framing
  import opened TcpStream
  import Q = SendQueues

  const SEND_BUFSIZE := TCP_SLICE + HEAD

  // ---- The stream as a function of the messages ----

  lemma {:induction false} CutsSmall(seqNo: u32, e: Submission, n: nat)
    requires n <= SliceCount(|e.data|, TCP_SLICE)
    ensures forall i | 0 <= i < n :: |Cuts(seqNo, e.typ, e.time, e.data, TCP_SLICE, n)[i].data| <= TCP_SLICE
  {
    if n > 0 {
      CutsSmall(seqNo, e, n - 1);
      CutExists(|e.data|, TCP_SLICE, n - 1);
    }
  }

  /** The bytes of the first n packets of one message. */
  function CutBytes(seqNo: u32, e: Submission, n: nat): seq<byte>
    requires n <= SliceCount(|e.data|, TCP_SLICE)
  {
    CutsSmall(seqNo, e, n);
    Stream(Cuts(seqNo, e.typ, e.time, e.data, TCP_SLICE, n))
  }

  function MessageBytes(seqNo: u32, e: Submission): seq<byte> {
    CutBytes(seqNo, e, SliceCount(|e.data|, TCP_SLICE))
  }

  /** The bytes of messages sent one after the other, numbered from 0. */
  function SentBytes(sent: seq<Submission>): seq<byte> {
    if sent == [] then []
    else
      var n := |sent| - 1;
      SentBytes(sent[..n]) + MessageBytes(Plus(0, n), sent[n])
  }

  lemma CutBytesStep(seqNo: u32, e: Submission, n: nat)
    requires n < SliceCount(|e.data|, TCP_SLICE)
    ensures n * TCP_SLICE <= |e.data|
    ensures |CutOf(seqNo, e.typ, e.time, e.data, TCP_SLICE, SliceCount(|e.data|, TCP_SLICE), n).data| <= TCP_SLICE
    ensures CutBytes(seqNo, e, n + 1)
         == CutBytes(seqNo, e, n)
            + Frame(CutOf(seqNo, e.typ, e.time, e.data, TCP_SLICE, SliceCount(|e.data|, TCP_SLICE), n))
  {
    CutExists(|e.data|, TCP_SLICE, n);
    CutsSmall(seqNo, e, n);
    var s := CutOf(seqNo, e.typ, e.time, e.data, TCP_SLICE, SliceCount(|e.data|, TCP_SLICE), n);
    hide CutOf, Frame;
    StreamConcat(Cuts(seqNo, e.typ, e.time, e.data, TCP_SLICE, n), [s]);
    assert Stream([s]) == Frame(s) + Stream([s][1..]);
    assert Stream([s][1..]) == [];
  }

  /** A message that fits 255 slices goes out as the stream a reader is proved against. */
  lemma MessageBytesAreRest(seqNo: u32, e: Submission)
    requires |e.data| <= 255 * TCP_SLICE
    ensures Sliceable(Packaged(seqNo, e.typ, e.time, e.data, TCP_SLICE), TCP_SLICE)
    ensures MessageBytes(seqNo, e) == Rest(Packaged(seqNo, e.typ, e.time, e.data, TCP_SLICE), 0)
  {
    var m := Packaged(seqNo, e.typ, e.time, e.data, TCP_SLICE);
    PackagedSliceable(seqNo, e.typ, e.time, e.data, TCP_SLICE);
    CutsAreFragments(seqNo, e.typ, e.time, e.data, TCP_SLICE, SliceCount(|e.data|, TCP_SLICE));
    assert Fragments(m, TCP_SLICE)[..m.slices] == Fragments(m, TCP_SLICE)[0..];
  }

  predicate Fitting(sent: seq<Submission>) {
    forall i | 0 <= i < |sent| :: |sent[i].data| <= 255 * TCP_SLICE
  }

  lemma HistorySendable(sent: seq<Submission>)
    requires Fitting(sent)
    ensures Sendable(History(sent, TCP_SLICE))
  {
    var h := History(sent, TCP_SLICE);
    forall i | 0 <= i < |h|
      ensures Sliceable(h[i], TCP_SLICE)
    {
      PackagedSliceable(Plus(0, i), sent[i].typ, sent[i].time, sent[i].data, TCP_SLICE);
    }
  }

  lemma {:induction false} AllBytesSnoc(h: seq<Message>, m: Message)
    requires Sendable(h) && Sliceable(m, TCP_SLICE)
    ensures Sendable(h + [m])
    ensures AllBytes(h + [m]) == AllBytes(h) + Rest(m, 0)
  {
    hide Rest, Sliceable;
    if h == [] {
      assert h + [m] == [m] && [m][1..] == [];
    } else {
      assert (h + [m])[0] == h[0] && (h + [m])[1..] == h[1..] + [m];
      AllBytesSnoc(h[1..], m);
      Associate(Rest(h[0], 0), AllBytes(h[1..]), Rest(m, 0));
    }
  }

  /** Printer and reader speak of the same bytes: what the thread writes for a list of
      messages is the stream on which DoRecvLoop is proved to recover them. */
  lemma {:induction false} SentIsReadable(sent: seq<Submission>)
    requires Fitting(sent)
    ensures Sendable(History(sent, TCP_SLICE))
    ensures SentBytes(sent) == AllBytes(History(sent, TCP_SLICE))
  {
    HistorySendable(sent);
    if sent != [] {
      var n := |sent| - 1;
      SentIsReadable(sent[..n]);
      MessageBytesAreRest(Plus(0, n), sent[n]);
      hide MessageBytes, Rest, AllBytes, Packaged, Sliceable;
      var m := Packaged(Plus(0, n), sent[n].typ, sent[n].time, sent[n].data, TCP_SLICE);
      assert History(sent, TCP_SLICE) == History(sent[..n], TCP_SLICE) + [m];
      AllBytesSnoc(History(sent[..n], TCP_SLICE), m);
    }
  }

  // ---- The class ----

  class SendCacheManager {
    var running: bool
    var cmdList: seq<Submission>
    var audioList: seq<Submission>
    var videoList: seq<Submission>
    const sendBuffer: array<byte>

    ghost function View(): Q.Queues
      reads this
    {
      Q.Queues(cmdList, audioList, videoList)
    }

    constructor ()
      ensures View() == Q.NONE_QUEUED && running
      ensures fresh(sendBuffer) && sendBuffer.Length == SEND_BUFSIZE
    {
      running := true;
      cmdList, audioList, videoList := [], [], [];
      sendBuffer := new byte[SEND_BUFSIZE];
    }

    /** Returns the length whether or not the message was admitted. */
    method PutSendData(typ: u16, data: seq<byte>, now: i64) returns (len: nat)
      modifies this`cmdList, this`audioList, this`videoList
      ensures len == if running then |data| else 0
      ensures View() == if running then Q.Put(old(View()), Submission(typ, now, data)) else old(View())
    {
      if !running {
        return 0;
      }
      var ele := Submission(typ, now, data);
      if typ == TYPE_VIDEO {
        if |videoList| < 30 {
          videoList := videoList + [ele];
        }
      } else if typ == TYPE_AUDIO {
        if |videoList| < 200 {
          audioList := audioList + [ele];
        }
      } else {
        if |videoList| < 30 {
          cmdList := cmdList + [ele];
        }
      }
      len := |data|;
    }

    method GetSendData() returns (e: Option<Submission>)
      modifies this`cmdList, this`audioList, this`videoList
      ensures (View(), e) == if running then Q.Get(old(View())) else (old(View()), None)
    {
      if !running {
        return None;
      }
      if cmdList != [] {
        e, cmdList := Some(cmdList[0]), cmdList[1..];
      } else if audioList != [] {
        e, audioList := Some(audioList[0]), audioList[1..];
      } else if videoList != [] {
        e, videoList := Some(videoList[0]), videoList[1..];
      } else {
        e := None;
      }
    }

    method ClearAudioData()
      modifies this`audioList
      ensures View() == Q.Clear(old(View()), Q.Audio)
    {
      audioList := [];
    }

    method ClearVideoData()
      modifies this`videoList
      ensures View() == Q.Clear(old(View()), Q.Video)
    {
      videoList := [];
    }

    /** Stores a header field or the payload in the send buffer. */
    method Store(offset: nat, x: seq<byte>)
      requires offset + |x| <= sendBuffer.Length
      modifies sendBuffer
      ensures sendBuffer[offset..offset + |x|] == x
      ensures forall i | 0 <= i < sendBuffer.Length && !(offset <= i < offset + |x|) :: sendBuffer[i] == old(sendBuffer[i])
    {
      forall i | 0 <= i < |x| {
        sendBuffer[offset + i] := x[i];
      }
    }

    /** Stores what differs from slice to slice and returns what send() is given. */
    method SendSlice(e: Submission, seqNo: u32, s: nat, d: nat, leave: nat) returns (bytes: seq<byte>)
      requires sendBuffer.Length == SEND_BUFSIZE && d == s * TCP_SLICE <= |e.data|
      requires leave == if |e.data| - d >= TCP_SLICE then TCP_SLICE else |e.data| - d
      requires CommonStored(sendBuffer[..], seqNo, e)
      modifies sendBuffer
      ensures CommonStored(sendBuffer[..], seqNo, e)
      ensures bytes == Frame(CutOf(seqNo, e.typ, e.time, e.data, TCP_SLICE, SliceCount(|e.data|, TCP_SLICE), s))
    {
      hide LE, Frame, CutOf, Piece;
      PieceAt(e.data, s, TCP_SLICE, d, leave);
      Store(11, [s % 256] + LE(leave, 4));
      Store(HEAD, e.data[d..d + leave]);
      HeaderStored(sendBuffer[..], seqNo, e, s, leave);
      bytes := sendBuffer[..HEAD + leave];
    }

    /** The loop body of the thread for one message: the bytes its sends put on the wire. */
    method SendMessage(e: Submission, seqNo: u32) returns (wire: seq<byte>)
      requires sendBuffer.Length == SEND_BUFSIZE
      modifies sendBuffer
      ensures wire == MessageBytes(seqNo, e)
    {
      hide CutBytes, CutOf, Frame, LE;
      var d, len := 0, |e.data|;
      var slices := if len <= 0 then 1 else (len + TCP_SLICE - 1) / TCP_SLICE;
      Store(0, LE(MAGIC, 4) + LE(seqNo, 4) + LE(e.typ, 2) + [slices % 256]);
      Store(16, LE(Unsigned64(e.time), 8));
      wire := [];
      CutBytesNone(seqNo, e);
      var s := 0;
      while s < slices
        invariant 0 <= s <= slices == SliceCount(|e.data|, TCP_SLICE)
        invariant len == |e.data| - d && (s < slices ==> d == s * TCP_SLICE)
        invariant CommonStored(sendBuffer[..], seqNo, e)
        invariant wire == CutBytes(seqNo, e, s)
      {
        hide CommonStored;
        CutBytesStep(seqNo, e, s);
        var leave := if len >= TCP_SLICE then TCP_SLICE else len;
        if s + 1 < slices {
          CutExists(|e.data|, TCP_SLICE, s + 1);
        }
        var bytes := SendSlice(e, seqNo, s, d, leave);
        wire := wire + bytes;
        d := d + leave;
        len := len - leave;
        s := s + 1;
      }
    }

    /** One call by another thread, between two turns of the send thread. */
    method Perform(op: Q.Op)
      requires running && !op.DoGet?
      modifies this`cmdList, this`audioList, this`videoList
      ensures View() == Q.Step(old(View()), op)
    {
      match op
      case DoPut(e) => var _ := PutSendData(e.typ, e.data, e.time);
      case DoClearAudio => ClearAudioData();
      case DoClearVideo => ClearVideoData();
    }

    method PerformAll(ops: seq<Q.Op>, ghost run: seq<Q.Op>)
      requires running && (forall i | 0 <= i < |ops| :: !ops[i].DoGet?) && View() == Q.After(run)
      modifies this`cmdList, this`audioList, this`videoList
      ensures View() == Q.After(run + ops) && Q.SentOf(run + ops) == Q.SentOf(run)
    {
      hide Q.Step, Q.Get;
      assert run + ops[..0] == run;
      for i := 0 to |ops|
        invariant View() == Q.After(run + ops[..i]) && Q.SentOf(run + ops[..i]) == Q.SentOf(run)
      {
        assert run + ops[..i + 1] == run + ops[..i] + [ops[i]];
        Q.OneMore(run + ops[..i], ops[i]);
        Perform(ops[i]);
      }
      assert run + ops[..|ops|] == run + ops;
    }

    /** The thread from its start, with whatever other threads do before each of its
        turns: others[t] happens before turn t. */
    method DoThreadSendData(others: seq<seq<Q.Op>>) returns (wire: seq<byte>, ghost sent: seq<Submission>)
      requires running && sendBuffer.Length == SEND_BUFSIZE && View() == Q.NONE_QUEUED
      requires Q.ByOthers(others)
      modifies this`cmdList, this`audioList, this`videoList, sendBuffer
      ensures View() == Q.After(Q.Script(others)) && sent == Q.SentOf(Q.Script(others))
      ensures wire == SentBytes(sent)
    {
      hide Q.Get, MessageBytes, Q.Script, Q.After, Q.SentOf;
      Q.NothingHappened();
      wire, sent := [], [];
      var seqNo: u32 := 0;
      for t := 0 to |others|
        invariant running && View() == Q.After(Q.Script(others[..t])) && sent == Q.SentOf(Q.Script(others[..t]))
        invariant seqNo == Plus(0, |sent|)
        invariant wire == SentBytes(sent)
      {
        ghost var run := Q.Script(others[..t]) + others[t];
        PerformAll(others[t], Q.Script(others[..t]));
        Q.OneMore(run, Q.DoGet);
        Q.OneMoreTurn(others, t);
        var e := GetSendData();
        if e.Some? {
          var bytes := SendMessage(e.value, seqNo);
          SentOneMore(sent, e.value);
          wire := wire + bytes;
          sent := sent + [e.value];
          seqNo := (seqNo + 1) % MODULUS;
        }
      }
      assert others[..|others|] == others;
    }
  }

  lemma SentOneMore(sent: seq<Submission>, e: Submission)
    ensures SentBytes(sent + [e]) == SentBytes(sent) + MessageBytes(Plus(0, |sent|), e)
    ensures Next(Plus(0, |sent|)) == Plus(0, |sent + [e]|)
  {
    hide MessageBytes;
    assert (sent + [e])[..|sent|] == sent;
    PlusFacts(0, |sent|, 0);
  }

  lemma CutBytesNone(seqNo: u32, e: Submission)
    ensures CutBytes(seqNo, e, 0) == []
  {
  }

  /** The header fields all slices of a message share. */
  predicate CommonStored(b: seq<byte>, seqNo: u32, e: Submission) {
    && |b| == SEND_BUFSIZE
    && b[..11] == LE(MAGIC, 4) + LE(seqNo, 4) + LE(e.typ, 2) + [SliceCount(|e.data|, TCP_SLICE) % 256]
    && b[16..24] == LE(Unsigned64(e.time), 8)
  }

  /** The buffer, with all fields and the payload stored, is the frame of the slice. */
  lemma HeaderStored(b: seq<byte>, seqNo: u32, e: Submission, s: nat, leave: nat)
    requires CommonStored(b, seqNo, e) && s * TCP_SLICE <= |e.data|
    requires leave == |Piece(e.data, s, TCP_SLICE)| <= TCP_SLICE
    requires b[11..16] == [s % 256] + LE(leave, 4)
    requires b[HEAD..HEAD + leave] == Piece(e.data, s, TCP_SLICE)
    ensures b[..HEAD + leave]
         == Frame(CutOf(seqNo, e.typ, e.time, e.data, TCP_SLICE, SliceCount(|e.data|, TCP_SLICE), s))
  {
    hide LE, Piece;
    assert b[..HEAD] == b[..11] + b[11..16] + b[16..24];
    assert b[..HEAD + leave] == b[..HEAD] + b[HEAD..HEAD + leave];
  }
}
