/** The three-class send queue of TcpClient::SendCacheManager as a value
    (socket/TcpClient.cpp:906-982), and its properties over whole runs. */
module SendQueues {
  import opened Types
  import opened Packet
  import opened SenderWindow

  const VIDEO_LIMIT := 30
  const AUDIO_LIMIT := 200

  datatype Class = Command | Audio | Video

  datatype Queues = Queues(cmd: seq<Submission>, audio: seq<Submission>, video: seq<Submission>)

  const NONE_QUEUED := Queues([], [], [])

  function ClassOf(e: Submission): Class {
    if e.typ == TYPE_VIDEO then Video else if e.typ == TYPE_AUDIO then Audio else Command
  }

  function Line(q: Queues, k: Class): seq<Submission> {
    match k
    case Command => q.cmd
    case Audio => q.audio
    case Video => q.video
  }

  function WithLine(q: Queues, k: Class, line: seq<Submission>): Queues {
    match k
    case Command => q.(cmd := line)
    case Audio => q.(audio := line)
    case Video => q.(video := line)
  }

  /** The admission test, which looks at the video queue whatever the class. */
  predicate Admits(q: Queues, k: Class) {
    |q.video| < (if k == Audio then AUDIO_LIMIT else VIDEO_LIMIT)
  }

  function Put(q: Queues, e: Submission): Queues {
    var k := ClassOf(e);
    if Admits(q, k) then WithLine(q, k, Line(q, k) + [e]) else q
  }

  /** Commands first, then audio, then video. */
  function Choice(q: Queues): Class {
    if q.cmd != [] then Command else if q.audio != [] then Audio else Video
  }

  function Get(q: Queues): (Queues, Option<Submission>) {
    var k := Choice(q);
    var line := Line(q, k);
    if line == [] then (q, None) else (WithLine(q, k, line[1..]), Some(line[0]))
  }

  function Clear(q: Queues, k: Class): Queues {
    WithLine(q, k, [])
  }

  // ---- Runs ----

  datatype Op = DoPut(e: Submission) | DoGet | DoClearAudio | DoClearVideo

  function Step(q: Queues, op: Op): Queues {
    match op
    case DoPut(e) => Put(q, e)
    case DoGet => Get(q).0
    case DoClearAudio => Clear(q, Audio)
    case DoClearVideo => Clear(q, Video)
  }

  function Accepted(q: Queues, op: Op, k: Class): seq<Submission> {
    if op.DoPut? && ClassOf(op.e) == k && Admits(q, k) then [op.e] else []
  }

  /** How a message left its queue. */
  datatype Exit = Sent(e: Submission) | Cleared(e: Submission)

  function ClearedAll(line: seq<Submission>): (x: seq<Exit>)
    ensures |x| == |line|
    ensures forall i | 0 <= i < |x| :: x[i] == Cleared(line[i])
  {
    seq(|line|, i requires 0 <= i < |line| => Cleared(line[i]))
  }

  function Exits(q: Queues, op: Op, k: Class): seq<Exit> {
    match op
    case DoPut(_) => []
    case DoGet => if Choice(q) == k && Line(q, k) != [] then [Sent(Line(q, k)[0])] else []
    case DoClearAudio => if k == Audio then ClearedAll(q.audio) else []
    case DoClearVideo => if k == Video then ClearedAll(q.video) else []
  }

  function After(run: seq<Op>): Queues {
    if run == [] then NONE_QUEUED else Step(After(run[..|run| - 1]), run[|run| - 1])
  }

  function AllAccepted(run: seq<Op>, k: Class): seq<Submission> {
    if run == [] then []
    else
      var was, op := run[..|run| - 1], run[|run| - 1];
      AllAccepted(was, k) + Accepted(After(was), op, k)
  }

  function AllExits(run: seq<Op>, k: Class): seq<Exit> {
    if run == [] then []
    else
      var was, op := run[..|run| - 1], run[|run| - 1];
      AllExits(was, k) + Exits(After(was), op, k)
  }

  function Elements(x: seq<Exit>): (e: seq<Submission>)
    ensures |e| == |x|
    ensures forall i | 0 <= i < |e| :: e[i] == x[i].e
  {
    seq(|x|, i requires 0 <= i < |x| => x[i].e)
  }

  /** The video queue never exceeds 30. */
  lemma {:induction false} VideoBounded(run: seq<Op>)
    ensures |After(run).video| <= 30
  {
    if run != [] {
      VideoBounded(run[..|run| - 1]);
    }
  }

  /** Audio is therefore never refused; a command or a video message is refused
      exactly while 30 video messages are queued. */
  lemma RefusedIff(run: seq<Op>, k: Class)
    ensures !Admits(After(run), k) <==> k != Audio && |After(run).video| == VIDEO_LIMIT
  {
    VideoBounded(run);
  }

  lemma ExitsKeepLine(q: Queues, op: Op, k: Class)
    ensures Line(q, k) + Accepted(q, op, k) == Elements(Exits(q, op, k)) + Line(Step(q, op), k)
  {
    hide Elements;
    match op
    case DoPut(_) => assert Elements([]) == [];
    case DoGet => GetKeepsLine(q, k);
    case DoClearAudio => ClearKeepsLine(q, Audio, k);
    case DoClearVideo => ClearKeepsLine(q, Video, k);
  }

  lemma GetKeepsLine(q: Queues, k: Class)
    ensures Line(q, k) == Elements(Exits(q, DoGet, k)) + Line(Get(q).0, k)
  {
  }

  lemma ClearKeepsLine(q: Queues, cleared: Class, k: Class)
    ensures Line(q, k) == Elements(if k == cleared then ClearedAll(Line(q, k)) else []) + Line(Clear(q, cleared), k)
  {
  }

  /** First in, first out, nothing lost: in every run and for every class, what was
      accepted is, in that order, what left (sent or cleared) and then what is queued. */
  lemma {:induction false} FirstInFirstOut(run: seq<Op>, k: Class)
    ensures AllAccepted(run, k) == Elements(AllExits(run, k)) + Line(After(run), k)
  {
    hide Elements, Line, Accepted, Exits, Step;
    if run == [] {
      NothingYet(k);
    } else {
      var was, op := run[..|run| - 1], run[|run| - 1];
      var q := After(was);
      FirstInFirstOut(was, k);
      ExitsKeepLine(q, op, k);
      var x, y := Elements(AllExits(was, k)), Elements(Exits(q, op, k));
      ElementsConcat(AllExits(was, k), Exits(q, op, k));
      Regroup(x, Line(q, k), Accepted(q, op, k), y, Line(After(run), k));
    }
  }

  lemma NothingYet(k: Class)
    ensures Elements([]) == [] && Line(NONE_QUEUED, k) == []
  {
  }

  lemma ElementsConcat(x: seq<Exit>, y: seq<Exit>)
    ensures Elements(x + y) == Elements(x) + Elements(y)
  {
  }

  lemma Regroup(x: seq<Submission>, l: seq<Submission>, a: seq<Submission>, y: seq<Submission>, l1: seq<Submission>)
    requires l + a == y + l1
    ensures (x + l) + a == (x + y) + l1
  {
    assert (x + l) + a == x + (l + a);
    assert (x + y) + l1 == x + (y + l1);
  }

  /** Commands are never cleared, so they all leave by being sent. */
  lemma {:induction false} CommandsOnlySent(run: seq<Op>, i: nat)
    requires i < |AllExits(run, Command)|
    ensures AllExits(run, Command)[i].Sent?
  {
    var was := run[..|run| - 1];
    if i < |AllExits(was, Command)| {
      CommandsOnlySent(was, i);
    }
  }

  /** What Get hands out: the oldest message of its class, an audio message only while
      no command is queued, a video message only while neither is, nothing only when
      nothing at all is queued. */
  lemma PriorityRespected(q: Queues)
    ensures match Get(q).1
            case None => q == NONE_QUEUED
            case Some(e) =>
              exists k: Class ::
                && Line(q, k) != [] && e == Line(q, k)[0]
                && Get(q).0 == WithLine(q, k, Line(q, k)[1..])
                && (k != Command ==> q.cmd == [])
                && (k == Video ==> q.audio == [])
  {
    var k := Choice(q);
    if Line(q, k) != [] {
      assert Get(q).1 == Some(Line(q, k)[0]);
    }
  }

  /** Every queue only holds messages of its own class, so that class can be told from the type. */
  lemma {:induction false} LinesHomogeneous(run: seq<Op>, k: Class, i: nat)
    requires i < |Line(After(run), k)|
    ensures ClassOf(Line(After(run), k)[i]) == k
  {
    var was, op := run[..|run| - 1], run[|run| - 1];
    var q := After(was);
    if op.DoGet? && Choice(q) == k && Line(q, k) != [] {
      LinesHomogeneous(was, k, i + 1);
    } else if i < |Line(q, k)| {
      LinesHomogeneous(was, k, i);
    }
  }

  // ---- In terms of the message types ----

  /** In every run the video queue holds only video messages, the audio queue only audio
      messages, and the command queue neither. */
  lemma QueuedByType(run: seq<Op>)
    ensures forall e <- After(run).video :: e.typ == 0x2002
    ensures forall e <- After(run).audio :: e.typ == 0x2003
    ensures forall e <- After(run).cmd :: e.typ != 0x2002 && e.typ != 0x2003
  {
    var q := After(run);
    forall i | 0 <= i < |q.video|
      ensures q.video[i].typ == 0x2002
    {
      LinesHomogeneous(run, Video, i);
    }
    forall i | 0 <= i < |q.audio|
      ensures q.audio[i].typ == 0x2003
    {
      LinesHomogeneous(run, Audio, i);
    }
    forall i | 0 <= i < |q.cmd|
      ensures q.cmd[i].typ != 0x2002 && q.cmd[i].typ != 0x2003
    {
      LinesHomogeneous(run, Command, i);
    }
  }

  /** An audio message is always accepted, behind the others; a video message or a
      command exactly unless thirty video messages are queued. */
  lemma PutByType(run: seq<Op>, e: Submission)
    ensures var q, p := After(run), Step(After(run), DoPut(e));
            && |q.video| <= 30
            && (e.typ == 0x2003 ==> p == Queues(q.cmd, q.audio + [e], q.video))
            && (e.typ == 0x2002 ==> p == if |q.video| == 30 then q else Queues(q.cmd, q.audio, q.video + [e]))
            && (e.typ != 0x2002 && e.typ != 0x2003 ==>
                  p == if |q.video| == 30 then q else Queues(q.cmd + [e], q.audio, q.video))
  {
    VideoBounded(run);
  }

  /** What leaves is the oldest message of its queue: a video message only while no
      command and no audio message is queued, an audio message only while no command is. */
  lemma GetByType(run: seq<Op>)
    ensures var q := After(run);
            match Get(q).1
            case None => q.cmd == [] && q.audio == [] && q.video == [] && Get(q).0 == q
            case Some(e) =>
              if e.typ == 0x2002 then
                && q.cmd == [] && q.audio == [] && q.video != [] && e == q.video[0]
                && Get(q).0 == Queues([], [], q.video[1..])
              else if e.typ == 0x2003 then
                q.cmd == [] && q.audio != [] && e == q.audio[0] && Get(q).0 == Queues([], q.audio[1..], q.video)
              else
                q.cmd != [] && e == q.cmd[0] && Get(q).0 == Queues(q.cmd[1..], q.audio, q.video)
  {
    QueuedByType(run);
    hide After;
    var q := After(run);
    if q.cmd != [] {
      assert q.cmd[0] in q.cmd;
    } else if q.audio != [] {
      assert q.audio[0] in q.audio;
    } else if q.video != [] {
      assert q.video[0] in q.video;
    }
  }

  /** Clearing audio drops exactly the audio messages, clearing video the video messages. */
  lemma ClearByType(run: seq<Op>)
    ensures var q := After(run);
            && Step(q, DoClearAudio) == Queues(q.cmd, [], q.video)
            && Step(q, DoClearVideo) == Queues(q.cmd, q.audio, [])
            && forall e <- q.cmd + q.audio + q.video ::
                 && (e in q.audio <==> e.typ == 0x2003)
                 && (e in q.video <==> e.typ == 0x2002)
  {
    QueuedByType(run);
  }

  // ---- The send thread among the others ----

  /** What the gets of a run handed to the send thread, in order. */
  function SentOf(run: seq<Op>): seq<Submission> {
    if run == [] then []
    else
      var was, op := run[..|run| - 1], run[|run| - 1];
      SentOf(was) + (if op.DoGet? && Get(After(was)).1.Some? then [Get(After(was)).1.value] else [])
  }

  predicate ByOthers(others: seq<seq<Op>>) {
    forall t, i | 0 <= t < |others| && 0 <= i < |others[t]| :: !others[t][i].DoGet?
  }

  /** The whole run: others[t], then turn t of the send thread. */
  function Script(others: seq<seq<Op>>): seq<Op> {
    if others == [] then []
    else Script(others[..|others| - 1]) + others[|others| - 1] + [DoGet]
  }

  lemma OneMore(run: seq<Op>, op: Op)
    ensures After(run + [op]) == Step(After(run), op)
    ensures SentOf(run + [op])
         == SentOf(run) + (if op.DoGet? && Get(After(run)).1.Some? then [Get(After(run)).1.value] else [])
  {
    assert (run + [op])[..|run|] == run;
  }

  lemma OneMoreTurn(others: seq<seq<Op>>, t: nat)
    requires t < |others|
    ensures Script(others[..t + 1]) == Script(others[..t]) + others[t] + [DoGet]
  {
    assert others[..t + 1][..t] == others[..t];
  }

  lemma NothingHappened()
    ensures Script([]) == [] && After([]) == NONE_QUEUED && SentOf([]) == []
  {
  }

  function OfClass(s: seq<Submission>, k: Class): seq<Submission> {
    if s == [] then []
    else OfClass(s[..|s| - 1], k) + (if ClassOf(s[|s| - 1]) == k then [s[|s| - 1]] else [])
  }

  /** The exits by sending, in order. */
  function SentExits(x: seq<Exit>): seq<Submission> {
    if x == [] then []
    else SentExits(x[..|x| - 1]) + (if x[|x| - 1].Sent? then [x[|x| - 1].e] else [])
  }

  lemma {:induction false} SentExitsConcat(x: seq<Exit>, y: seq<Exit>)
    ensures SentExits(x + y) == SentExits(x) + SentExits(y)
  {
    if y == [] {
      assert x + y == x;
    } else {
      var n := |y| - 1;
      SentExitsConcat(x, y[..n]);
      assert (x + y)[..|x + y| - 1] == x + y[..n] && (x + y)[|x + y| - 1] == y[n];
    }
  }

  lemma {:induction false} ClearedNotSent(line: seq<Submission>)
    ensures SentExits(ClearedAll(line)) == []
  {
    if line != [] {
      var n := |line| - 1;
      ClearedNotSent(line[..n]);
      assert ClearedAll(line)[..n] == ClearedAll(line[..n]);
    }
  }

  lemma OfClassAppend(s: seq<Submission>, e: Submission, k: Class)
    ensures OfClass(s + [e], k) == OfClass(s, k) + (if ClassOf(e) == k then [e] else [])
  {
    assert (s + [e])[..|s|] == s;
  }

  lemma OneExit(e: Submission)
    ensures SentExits([]) == [] && SentExits([Sent(e)]) == [e]
  {
    assert [Sent(e)][..0] == [];
  }

  lemma ExitsSent(run: seq<Op>, op: Op, k: Class)
    ensures SentExits(Exits(After(run), op, k))
         == (if op.DoGet? && Get(After(run)).1.Some? && ClassOf(Get(After(run)).1.value) == k
             then [Get(After(run)).1.value] else [])
  {
    hide After, SentExits, ClassOf;
    var q := After(run);
    NoExit();
    match op
    case DoPut(_) =>
    case DoGet =>
      var line := Line(q, Choice(q));
      if line != [] {
        LinesHomogeneous(run, Choice(q), 0);
        OneExit(line[0]);
      }
    case DoClearAudio => ClearedNotSent(q.audio);
    case DoClearVideo => ClearedNotSent(q.video);
  }

  lemma NoExit()
    ensures SentExits([]) == []
  {
  }

  /** What the send thread got, looked at class by class, is what left the queue of that
      class by being sent: together with FirstInFirstOut, the accepted messages of the
      class in order, without those cleared or still queued. */
  lemma {:induction false} SentInOrder(run: seq<Op>, k: Class)
    ensures OfClass(SentOf(run), k) == SentExits(AllExits(run, k))
  {
    hide Get, Exits, After, ClassOf;
    if run == [] {
      NoExit();
    } else {
      var was, op := run[..|run| - 1], run[|run| - 1];
      SentInOrder(was, k);
      ExitsSent(was, op, k);
      SentExitsConcat(AllExits(was, k), Exits(After(was), op, k));
      if op.DoGet? && Get(After(was)).1.Some? {
        OfClassAppend(SentOf(was), Get(After(was)).1.value, k);
      } else {
        assert SentOf(run) == SentOf(was);
      }
    }
  }
}
