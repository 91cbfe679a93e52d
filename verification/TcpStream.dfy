/** The byte stream that a list of messages becomes on a TCP connection, and the
    positions of a reader in it. */
module TcpStream {
  import opened Types
  import opened Packet
  import opened Framing

  /** Every message has at most 255 slices of 64 KiB. */
  predicate Sendable(h: seq<Message>) {
    forall i | 0 <= i < |h| :: Sliceable(h[i], TCP_SLICE)
  }

  lemma FragmentsSmall(m: Message)
    requires Sliceable(m, TCP_SLICE)
    ensures forall i | 0 <= i < m.slices :: |Fragments(m, TCP_SLICE)[i].data| <= TCP_SLICE
  {
    forall i | 0 <= i < m.slices
      ensures |Fragments(m, TCP_SLICE)[i].data| <= TCP_SLICE
    {
      PieceBounds(m, i, TCP_SLICE);
    }
  }

  /** Bytes of the slices of m from number c on. */
  function Rest(m: Message, c: nat): seq<byte>
    requires Sliceable(m, TCP_SLICE) && c <= m.slices
  {
    FragmentsSmall(m);
    Stream(Fragments(m, TCP_SLICE)[c..])
  }

  /** Bytes of all messages, one after the other. */
  function AllBytes(h: seq<Message>): seq<byte>
    requires Sendable(h)
  {
    if h == [] then [] else Rest(h[0], 0) + AllBytes(h[1..])
  }

  /** Bytes still to come once d messages and c slices of the next are through. */
  function Suffix(h: seq<Message>, d: nat, c: nat): seq<byte>
    requires Sendable(h) && d <= |h| && (d < |h| ==> c <= h[d].slices)
  {
    if d == |h| then [] else Rest(h[d], c) + AllBytes(h[d + 1..])
  }

  lemma SuffixIsTail(h: seq<Message>, d: nat)
    requires Sendable(h) && d <= |h|
    ensures d < |h| ==> h[d].slices >= 1
    ensures Suffix(h, d, 0) == AllBytes(h[d..])
  {
    if d < |h| {
      SliceCountIsCeiling(|h[d].data|, TCP_SLICE);
      assert h[d..][0] == h[d] && h[d..][1..] == h[d + 1..];
    }
  }

  lemma RestStep(m: Message, c: nat)
    requires Sliceable(m, TCP_SLICE) && c < m.slices
    ensures HasSlice(m, c, TCP_SLICE) && |SliceOf(m, c, TCP_SLICE).data| <= TCP_SLICE
    ensures Rest(m, c) == Frame(SliceOf(m, c, TCP_SLICE)) + Rest(m, c + 1)
  {
    PieceBounds(m, c, TCP_SLICE);
    FragmentsSmall(m);
    var f := Fragments(m, TCP_SLICE);
    assert f[c..][0] == SliceOf(m, c, TCP_SLICE) && f[c..][1..] == f[c + 1..];
  }

  lemma RestEnd(m: Message)
    requires Sliceable(m, TCP_SLICE)
    ensures Rest(m, m.slices) == []
  {
  }

  /** The next frame of the stream, and what follows it. */
  lemma SuffixStep(h: seq<Message>, d: nat, c: nat)
    requires Sendable(h) && d < |h| && c < h[d].slices
    ensures HasSlice(h[d], c, TCP_SLICE) && |SliceOf(h[d], c, TCP_SLICE).data| <= TCP_SLICE
    ensures Suffix(h, d, c) == Frame(SliceOf(h[d], c, TCP_SLICE)) + Suffix(h, d, c + 1)
    ensures c + 1 == h[d].slices ==> Suffix(h, d, c + 1) == Suffix(h, d + 1, 0)
  {
    hide Rest, AllBytes, Frame;
    RestStep(h[d], c);
    RestEnd(h[d]);
    SuffixIsTail(h, d + 1);
    Associate(Frame(SliceOf(h[d], c, TCP_SLICE)), Rest(h[d], c + 1), AllBytes(h[d + 1..]));
  }

  lemma Associate(x: seq<byte>, y: seq<byte>, z: seq<byte>)
    ensures x + y + z == x + (y + z)
    ensures [] + z == z
  {
  }

  lemma {:induction false} SplitAt(h: seq<Message>, d: nat)
    requires Sendable(h) && d <= |h|
    ensures |AllBytes(h)| == |AllBytes(h[..d])| + |AllBytes(h[d..])|
  {
    hide Rest;
    if d == 0 {
      assert h[..0] == [] && h[0..] == h;
    } else {
      assert h[..d][0] == h[0] && h[..d][1..] == h[1..][..d - 1] && h[1..][d - 1..] == h[d..];
      SplitAt(h[1..], d - 1);
    }
  }

  lemma {:induction false} RestShrinks(m: Message, c: nat)
    requires Sliceable(m, TCP_SLICE) && c <= m.slices
    ensures |Rest(m, c)| <= |Rest(m, 0)|
  {
    if c > 0 {
      RestStep(m, c - 1);
      RestShrinks(m, c - 1);
    }
  }

  lemma SuffixLength(h: seq<Message>, d: nat, c: nat)
    requires Sendable(h) && d < |h| && c <= h[d].slices
    ensures |Suffix(h, d, c)| == |Rest(h[d], c)| + |AllBytes(h[d + 1..])|
  {
  }

  lemma FrameLength(s: Slice)
    requires |s.data| <= TCP_SLICE
    ensures |Frame(s)| == HEAD + |s.data|
  {
  }

  /** Where a reader stands: it has taken d messages and c slices of the next, holds
      pos more bytes, and those do not hold the next frame whole. Then the messages
      complete in what it has received are exactly the first d. */
  lemma CompleteMessages(h: seq<Message>, d: nat, c: nat, pos: nat, received: nat)
    requires Sendable(h) && d <= |h| && (d < |h| ==> c < h[d].slices) && (d == |h| ==> c == 0)
    requires received - pos == |AllBytes(h)| - |Suffix(h, d, c)|
    requires d == |h| ==> pos == 0
    requires d < |h| ==> HasSlice(h[d], c, TCP_SLICE) && pos < HEAD + |SliceOf(h[d], c, TCP_SLICE).data|
    ensures |AllBytes(h[..d])| <= received
    ensures d < |h| ==> received < |AllBytes(h[..d + 1])|
  {
    hide Rest, AllBytes, SliceOf, HasSlice, Suffix, Sliceable, Frame;
    SplitAt(h, d);
    SuffixIsTail(h, d);
    if d < |h| {
      SuffixStep(h, d, c);
      SplitAt(h, d + 1);
      FrameLength(SliceOf(h[d], c, TCP_SLICE));
      SuffixLength(h, d, 0);
      SuffixLength(h, d, c);
      SuffixLength(h, d, c + 1);
      RestShrinks(h[d], c);
    } else {
      assert h[d..] == [];
    }
  }
}
