/** The byte ring of length-prefixed packets (socket/RingBuffer.cpp) against a plain
    queue of packets. Pointers are offsets from BUFFER; END is the offset CAPACITY. */
module Ring {
  import opened Types
  import opened Bytes
  import BufferSize

  const RINGHEAD := 4             // sizeof(Pack)
  const INT_MAX := 0x7fff_ffff

  // ---- The queue of packets ----

  /** Bytes a queue of packets occupies: each packet and its length field. */
  function Occupied(packets: seq<seq<byte>>): nat {
    if packets == [] then 0 else RINGHEAD + |packets[0]| + Occupied(packets[1..])
  }

  /** The packets one after the other, each behind its length. */
  function Flat(packets: seq<seq<byte>>): (f: seq<byte>)
    ensures |f| == Occupied(packets)
  {
    if packets == [] then [] else LE(|packets[0]|, RINGHEAD) + packets[0] + Flat(packets[1..])
  }

  lemma {:induction false} FlatAppend(packets: seq<seq<byte>>, p: seq<byte>)
    ensures Flat(packets + [p]) == Flat(packets) + (LE(|p|, RINGHEAD) + p)
    ensures Occupied(packets + [p]) == Occupied(packets) + RINGHEAD + |p|
  {
    if packets == [] {
      assert Flat([p]) == LE(|p|, RINGHEAD) + p + Flat([]);
      assert [] + [p] == [p];
    } else {
      FlatAppend(packets[1..], p);
      assert (packets + [p])[1..] == packets[1..] + [p];
      assert (packets + [p])[0] == packets[0];
    }
  }

  /** How many packets Retain drops from the front. */
  function DropCount(packets: seq<seq<byte>>, capacity: nat, size: int): (n: nat)
    requires Occupied(packets) <= capacity && size <= capacity
    ensures n <= |packets|
  {
    if capacity - Occupied(packets) >= size then 0 else 1 + DropCount(packets[1..], capacity, size)
  }

  /** It is the fewest that leave size bytes free. */
  lemma {:induction false} DropCountFewest(packets: seq<seq<byte>>, capacity: nat, size: int, k: nat)
    requires Occupied(packets) <= capacity && size <= capacity && k <= |packets|
    ensures capacity - Occupied(packets[k..]) >= size <==> k >= DropCount(packets, capacity, size)
  {
    if k > 0 {
      DropCountFewest(packets[1..], capacity, size, k - 1);
      assert packets[1..][k - 1..] == packets[k..];
      OccupiedDrop(packets, k);
    } else {
      assert packets[0..] == packets;
    }
  }

  lemma {:induction false} OccupiedDrop(packets: seq<seq<byte>>, k: nat)
    requires k <= |packets|
    ensures Occupied(packets[k..]) <= Occupied(packets)
  {
    if k > 0 {
      OccupiedDrop(packets[1..], k - 1);
      assert packets[1..][k - 1..] == packets[k..];
    } else {
      assert packets[0..] == packets;
    }
  }

  lemma DropNone(packets: seq<seq<byte>>, capacity: nat, size: int)
    requires Occupied(packets) <= capacity && size <= capacity
    ensures capacity - Occupied(packets) >= size <==> DropCount(packets, capacity, size) == 0
  {
  }

  // ---- The ring ----

  /** The offset k steps after start, around the end. */
  function Wrap(capacity: nat, x: nat): nat {
    if x < capacity then x else x - capacity
  }

  /** The n bytes from start on, around the end. */
  function Window(buffer: seq<byte>, start: nat, n: nat): (w: seq<byte>)
    requires start <= |buffer| && n <= |buffer|
    ensures |w| == n
    ensures forall k | 0 <= k < n :: w[k] == buffer[Wrap(|buffer|, start + k)]
  {
    seq(n, k requires 0 <= k < n => buffer[Wrap(|buffer|, start + k)])
  }

  /** The pointer n bytes later, as WriteInner and ReadInner return it. */
  function Advance(capacity: nat, ptr: nat, n: nat): nat
    requires ptr <= capacity && n <= capacity
  {
    if capacity - ptr >= n then ptr + n else n - (capacity - ptr)
  }

  /** The pointer behind a packet of n bytes and its length field. */
  function Past(capacity: nat, ptr: nat, n: nat): nat
    requires ptr <= capacity && RINGHEAD <= capacity && n <= capacity
  {
    Advance(capacity, Advance(capacity, ptr, RINGHEAD), n)
  }

  /** Both pointers denote the same place, END being the same place as BUFFER. */
  predicate SamePlace(capacity: nat, p: nat, q: nat) {
    p == q || p == q + capacity || q == p + capacity
  }

  lemma WindowSplit(buffer: seq<byte>, start: nat, n: nat, m: nat)
    requires start <= |buffer| && n + m <= |buffer|
    ensures Window(buffer, start, n + m)
         == Window(buffer, start, n) + Window(buffer, Advance(|buffer|, start, n), m)
  {
  }

  lemma WindowSamePlace(buffer: seq<byte>, p: nat, q: nat, n: nat)
    requires p <= |buffer| && q <= |buffer| && n <= |buffer| && SamePlace(|buffer|, p, q)
    ensures Window(buffer, p, n) == Window(buffer, q, n)
  {
  }

  /** Offset i is one of the n offsets from ptr on, around the end. */
  predicate Within(capacity: nat, ptr: nat, n: nat, i: nat) {
    ptr <= i < ptr + n || i + capacity < ptr + n
  }

  /** Writing behind a window extends it, as long as the ring has room. */
  lemma WriteExtends(before: seq<byte>, after: seq<byte>, start: nat, n: nat, ptr: nat, data: seq<byte>)
    requires |before| == |after| && start <= |before| && n + |data| <= |before| && ptr <= |before|
    requires SamePlace(|before|, ptr, Advance(|before|, start, n))
    requires Window(after, ptr, |data|) == data
    requires forall i | 0 <= i < |before| && !Within(|before|, ptr, |data|, i) :: after[i] == before[i]
    ensures Window(after, start, n + |data|) == Window(before, start, n) + data
  {
    var x := Advance(|before|, start, n);
    WindowSplit(after, start, n, |data|);
    WindowSamePlace(after, ptr, x, |data|);
    forall j | 0 <= j < n
      ensures Window(after, start, n)[j] == Window(before, start, n)[j]
    {
      assert !Within(|before|, ptr, |data|, Wrap(|before|, start + j));
    }
  }

  /** Retain reads each length field in place, so the field must not wrap. */
  predicate HeadsWhole(capacity: nat, readPtr: nat, packets: seq<seq<byte>>, n: nat)
    requires n <= |packets|
    decreases n
  {
    n > 0 ==>
      && readPtr + RINGHEAD <= capacity
      && HeadsWhole(capacity, Wrap(capacity, readPtr + RINGHEAD + |packets[0]|), packets[1..], n - 1)
  }

  /** Capacity, read pointer and packets in multiples of four. */
  predicate Aligned(capacity: nat, readPtr: nat, packets: seq<seq<byte>>) {
    && capacity % 4 == 0 && readPtr % 4 == 0
    && (forall i | 0 <= i < |packets| :: |packets[i]| % 4 == 0)
  }

  lemma {:induction false} AlignedInside(capacity: nat, readPtr: nat, packets: seq<seq<byte>>, n: nat)
    requires n <= |packets| && Aligned(capacity, readPtr, packets) && readPtr < capacity
    requires Occupied(packets) <= capacity
    ensures HeadsWhole(capacity, readPtr, packets, n)
    decreases n
  {
    if n > 0 {
      AlignedInside(capacity, Wrap(capacity, readPtr + RINGHEAD + |packets[0]|), packets[1..], n - 1);
    }
  }

  /** In an aligned ring the length fields Retain looks at lie whole before END
      exactly when the read pointer does not stand at END, where Read leaves it behind
      a packet that ends there, or nothing is to be dropped. */
  lemma AlignedHeadsWholeIff(capacity: nat, readPtr: nat, packets: seq<seq<byte>>, n: nat)
    requires n <= |packets| && Aligned(capacity, readPtr, packets) && readPtr <= capacity
    requires Occupied(packets) <= capacity
    ensures HeadsWhole(capacity, readPtr, packets, n) <==> readPtr != capacity || n == 0
  {
    if readPtr < capacity {
      AlignedInside(capacity, readPtr, packets, n);
    }
  }

  /** Writing and reading whole packets of multiples of four keep the pointers aligned. */
  lemma PastAligned(capacity: nat, ptr: nat, n: nat)
    requires ptr <= capacity && RINGHEAD <= capacity && n <= capacity
    requires capacity % 4 == 0 && ptr % 4 == 0 && n % 4 == 0
    ensures Past(capacity, ptr, n) % 4 == 0
  {
  }

  /** Between the pointers the ring holds the bytes contents. */
  predicate RingOk(buffer: seq<byte>, readPtr: nat, writePtr: nat, contents: seq<byte>) {
    && readPtr <= |buffer| && writePtr <= |buffer| && |contents| <= |buffer|
    && SamePlace(|buffer|, writePtr, Advance(|buffer|, readPtr, |contents|))
    && Window(buffer, readPtr, |contents|) == contents
  }

  lemma AdvanceFurther(capacity: nat, p: nat, q: nat, n: nat, m: nat)
    requires p <= capacity && q <= capacity && n + m <= capacity
    requires SamePlace(capacity, q, Advance(capacity, p, n))
    ensures SamePlace(capacity, Advance(capacity, q, m), Advance(capacity, p, n + m))
  {
  }

  lemma AdvanceInside(capacity: nat, p: nat, n: nat)
    requires p <= capacity && n <= capacity
    ensures Advance(capacity, p, n) <= capacity
  {
  }

  lemma AdvanceAdds(capacity: nat, p: nat, n: nat, m: nat)
    requires p <= capacity && n + m <= capacity
    ensures Advance(capacity, Advance(capacity, p, n), m) == Advance(capacity, p, n + m)
  {
  }

  /** Writing at the write pointer appends to the contents. */
  lemma WriteKeepsRing(b0: seq<byte>, b1: seq<byte>, readPtr: nat, writePtr: nat, contents: seq<byte>, x: seq<byte>)
    requires RingOk(b0, readPtr, writePtr, contents)
    requires |b0| == |b1| && |contents| + |x| <= |b0|
    requires Window(b1, writePtr, |x|) == x
    requires forall i | 0 <= i < |b0| && !Within(|b0|, writePtr, |x|, i) :: b1[i] == b0[i]
    ensures RingOk(b1, readPtr, Advance(|b0|, writePtr, |x|), contents + x)
  {
    AdvanceFurther(|b0|, readPtr, writePtr, |contents|, |x|);
    WriteExtends(b0, b1, readPtr, |contents|, writePtr, x);
  }

  /** Advancing the read pointer takes from the front of the contents. */
  lemma ReadKeepsRing(buffer: seq<byte>, readPtr: nat, writePtr: nat, contents: seq<byte>, n: nat)
    requires RingOk(buffer, readPtr, writePtr, contents) && n <= |contents|
    ensures Window(buffer, readPtr, n) == contents[..n]
    ensures RingOk(buffer, Advance(|buffer|, readPtr, n), writePtr, contents[n..])
  {
    AdvanceAdds(|buffer|, readPtr, n, |contents| - n);
    WindowSplit(buffer, readPtr, n, |contents| - n);
  }

  lemma RingPointers(buffer: seq<byte>, readPtr: nat, writePtr: nat, contents: seq<byte>)
    requires RingOk(buffer, readPtr, writePtr, contents)
    ensures readPtr <= |buffer| && writePtr <= |buffer| && |contents| <= |buffer|
  {
  }

  /** The write pointer is usedSize bytes behind the read pointer, around the end. */
  lemma PointersApart(buffer: seq<byte>, readPtr: nat, writePtr: nat, contents: seq<byte>)
    requires RingOk(buffer, readPtr, writePtr, contents) && buffer != []
    ensures writePtr % |buffer| == (readPtr + |contents|) % |buffer|
  {
    hide Window;
    var n, x := |buffer|, Advance(|buffer|, readPtr, |contents|);
    assert x % n == (readPtr + |contents|) % n by {
      if x != readPtr + |contents| {
        WrapsTo(readPtr + |contents|, n);
      }
    }
    if writePtr == x + n {
      WrapsTo(writePtr, n);
    } else if x == writePtr + n {
      WrapsTo(x, n);
    }
  }

  lemma WrapsTo(x: nat, n: nat)
    requires 0 < n <= x
    ensures x % n == (x - n) % n
  {
    var q, r := (x - n) / n, (x - n) % n;
    assert x == (q + 1) * n + r;
    BufferSize.ModOfMultiple(q + 1, n, r);
  }

  lemma OccupiedNone(packets: seq<seq<byte>>)
    ensures Occupied(packets) == 0 <==> packets == []
  {
  }

  lemma OccupiedFront(packets: seq<seq<byte>>)
    requires packets != []
    ensures Occupied(packets) == RINGHEAD + |packets[0]| + Occupied(packets[1..])
  {
  }

  /** END and BUFFER are one place for the read pointer too. */
  lemma RingSamePlace(buffer: seq<byte>, p: nat, q: nat, writePtr: nat, contents: seq<byte>)
    requires RingOk(buffer, p, writePtr, contents) && q <= |buffer| && SamePlace(|buffer|, p, q)
    ensures RingOk(buffer, q, writePtr, contents)
  {
    WindowSamePlace(buffer, p, q, |contents|);
  }

  lemma ThreeParts(x: seq<byte>, y: seq<byte>, z: seq<byte>)
    ensures var f := x + y + z;
            f[..|x|] == x && f[|x|..][..|y|] == y && f[|x|..][|y|..] == f[|x| + |y|..] == z
  {
  }

  lemma FlatFront(packets: seq<seq<byte>>)
    requires packets != [] && Occupied(packets) <= INT_MAX
    ensures var f, n := Flat(packets), |packets[0]|;
            && RINGHEAD + n <= |f|
            && f[..RINGHEAD] == LE(n, RINGHEAD)
            && f[RINGHEAD..][..n] == packets[0]
            && f[RINGHEAD..][n..] == f[RINGHEAD + n..] == Flat(packets[1..])
            && FromLE(LE(n, RINGHEAD)) == n
  {
    hide LE, FromLE;
    Widths();
    RoundTrip(|packets[0]|, RINGHEAD);
    ThreeParts(LE(|packets[0]|, RINGHEAD), packets[0], Flat(packets[1..]));
  }

  lemma DropStep(capacity: nat, readPtr: nat, packets: seq<seq<byte>>, size: int)
    requires Occupied(packets) <= capacity && size <= capacity
    requires capacity - Occupied(packets) < size
    requires HeadsWhole(capacity, readPtr, packets, DropCount(packets, capacity, size))
    ensures packets != [] && readPtr + RINGHEAD <= capacity
    ensures Occupied(packets) == RINGHEAD + |packets[0]| + Occupied(packets[1..])
    ensures DropCount(packets, capacity, size) == 1 + DropCount(packets[1..], capacity, size)
    ensures HeadsWhole(capacity, Wrap(capacity, readPtr + RINGHEAD + |packets[0]|), packets[1..],
                       DropCount(packets[1..], capacity, size))
  {
  }

  /** What the front packet is, read where it lies, and the ring without it. */
  lemma FrontDropped(buffer: seq<byte>, readPtr: nat, writePtr: nat, packets: seq<seq<byte>>)
    requires packets != [] && Occupied(packets) <= INT_MAX && readPtr + RINGHEAD <= |buffer|
    requires RingOk(buffer, readPtr, writePtr, Flat(packets))
    ensures FromLE(buffer[readPtr..readPtr + RINGHEAD]) == |packets[0]|
    ensures Occupied(packets) == RINGHEAD + |packets[0]| + Occupied(packets[1..]) <= |buffer|
    ensures RingOk(buffer, Wrap(|buffer|, readPtr + RINGHEAD + |packets[0]|), writePtr, Flat(packets[1..]))
  {
    hide Flat, RingOk, FromLE, LE, Occupied;
    FlatFront(packets);
    OccupiedFront(packets);
    var f, n := Flat(packets), RINGHEAD + |packets[0]|;
    RingPointers(buffer, readPtr, writePtr, f);
    ReadKeepsRing(buffer, readPtr, writePtr, f, RINGHEAD);
    assert buffer[readPtr..readPtr + RINGHEAD] == Window(buffer, readPtr, RINGHEAD);
    ReadKeepsRing(buffer, readPtr, writePtr, f, n);
    RingSamePlace(buffer, Advance(|buffer|, readPtr, n), Wrap(|buffer|, readPtr + n), writePtr, Flat(packets[1..]));
  }

  /** The ring after a packet has been written behind the others. */
  lemma PacketWritten(b0: seq<byte>, b1: seq<byte>, b2: seq<byte>, readPtr: nat, writePtr: nat,
                      packets: seq<seq<byte>>, data: seq<byte>)
    requires RingOk(b0, readPtr, writePtr, Flat(packets)) && writePtr <= |b0|
    requires |b0| == |b1| == |b2| && Occupied(packets) + RINGHEAD + |data| <= |b0|
    requires Window(b1, writePtr, RINGHEAD) == LE(|data|, RINGHEAD)
    requires forall i | 0 <= i < |b0| && !Within(|b0|, writePtr, RINGHEAD, i) :: b1[i] == b0[i]
    requires Window(b2, Advance(|b0|, writePtr, RINGHEAD), |data|) == data
    requires forall i | 0 <= i < |b0| && !Within(|b0|, Advance(|b0|, writePtr, RINGHEAD), |data|, i) :: b2[i] == b1[i]
    ensures Occupied(packets + [data]) == Occupied(packets) + RINGHEAD + |data|
    ensures RingOk(b2, readPtr, Advance(|b0|, Advance(|b0|, writePtr, RINGHEAD), |data|), Flat(packets + [data]))
  {
    hide Flat, RingOk, LE, Occupied, Window, Within;
    var f, head := Flat(packets), LE(|data|, RINGHEAD);
    WriteKeepsRing(b0, b1, readPtr, writePtr, f, head);
    WriteKeepsRing(b1, b2, readPtr, Advance(|b0|, writePtr, RINGHEAD), f + head, data);
    FlatAppend(packets, data);
    assert f + head + data == f + (head + data);
  }

  class RingBuffer {
    const CAPACITY: nat
    const BUFFER: array<byte>
    var readPtr: nat
    var writePtr: nat
    var usedSize: nat

    /** The queue this ring stands for. */
    ghost var Packets: seq<seq<byte>>

    ghost predicate Valid()
      reads this, BUFFER
    {
      && BUFFER.Length == CAPACITY <= INT_MAX
      && usedSize == Occupied(Packets) <= CAPACITY
      && RingOk(BUFFER[..], readPtr, writePtr, Flat(Packets))
    }

    constructor (size: nat)
      requires size <= INT_MAX
      ensures Valid() && fresh(BUFFER)
      ensures CAPACITY == size && Packets == [] && readPtr == writePtr == 0
    {
      CAPACITY := size;
      BUFFER := new byte[size];
      readPtr, writePtr, usedSize := 0, 0, 0;
      Packets := [];
    }

    function GetFreeSize(): (n: int)
      requires Valid()
      reads this, BUFFER
      ensures n == CAPACITY - Occupied(Packets)
    {
      CAPACITY - usedSize
    }

    method Free()
      requires Valid()
      modifies this
      ensures Valid() && Packets == []
    {
      usedSize := 0;
      readPtr, writePtr := 0, 0;
      Packets := [];
    }

    method WriteInner(ptr: nat, data: seq<byte>) returns (next: nat)
      requires BUFFER.Length == CAPACITY && ptr <= CAPACITY && |data| <= CAPACITY
      modifies BUFFER
      ensures next == Advance(CAPACITY, ptr, |data|)
      ensures Window(BUFFER[..], ptr, |data|) == data
      ensures forall i | 0 <= i < CAPACITY && !Within(CAPACITY, ptr, |data|, i) :: BUFFER[i] == old(BUFFER[i])
    {
      var len := |data|;
      if CAPACITY - ptr >= len {
        forall i | 0 <= i < len {
          BUFFER[ptr + i] := data[i];
        }
        next := ptr + len;
      } else {
        var first := CAPACITY - ptr;
        forall i | 0 <= i < first {
          BUFFER[ptr + i] := data[i];
        }
        forall i | 0 <= i < len - first {
          BUFFER[i] := data[first + i];
        }
        next := len - first;
      }
    }

    method ReadInner(ptr: nat, dest: array<byte>, len: nat) returns (next: nat)
      requires BUFFER.Length == CAPACITY && ptr <= CAPACITY && len <= CAPACITY
      requires dest != BUFFER && len <= dest.Length
      modifies dest
      ensures next == Advance(CAPACITY, ptr, len)
      ensures dest[..len] == Window(BUFFER[..], ptr, len)
      ensures forall i | len <= i < dest.Length :: dest[i] == old(dest[i])
    {
      if CAPACITY - ptr >= len {
        forall i | 0 <= i < len {
          dest[i] := BUFFER[ptr + i];
        }
        next := ptr + len;
      } else {
        var first := CAPACITY - ptr;
        forall i | 0 <= i < first {
          dest[i] := BUFFER[ptr + i];
        }
        forall i | 0 <= i < len - first {
          dest[first + i] := BUFFER[i];
        }
        next := len - first;
      }
    }

    /** Appends a packet, or changes nothing and returns minus the missing space. */
    method Write(data: seq<byte>) returns (r: int)
      requires Valid() && |data| <= INT_MAX - RINGHEAD
      modifies this, BUFFER
      ensures Valid()
      ensures var missing := old(Occupied(Packets)) + RINGHEAD + |data| - CAPACITY;
              if missing > 0
              then r == -missing && Packets == old(Packets) && BUFFER[..] == old(BUFFER[..])
                   && readPtr == old(readPtr) && writePtr == old(writePtr) && usedSize == old(usedSize)
              else r == |data| && Packets == old(Packets) + [data] && readPtr == old(readPtr)
                   && writePtr == Past(CAPACITY, old(writePtr), |data|)
    {
      var len := |data|;
      var SRCSIZE := RINGHEAD + len;
      var leave := CAPACITY - usedSize - SRCSIZE;
      if leave < 0 {
        return leave;
      }
      hide Window, Flat, Within, RingOk, Occupied, LE, Advance;
      ghost var b0, start := BUFFER[..], writePtr;
      var head := LE(len, RINGHEAD);
      RingPointers(b0, readPtr, writePtr, Flat(Packets));
      AdvanceInside(CAPACITY, writePtr, RINGHEAD);
      var ptr := WriteInner(writePtr, head);
      ghost var b1 := BUFFER[..];
      ptr := WriteInner(ptr, data);
      PacketWritten(b0, b1, BUFFER[..], readPtr, start, Packets, data);
      writePtr := ptr;
      usedSize := usedSize + (RINGHEAD + len);
      Packets := Packets + [data];
      r := len;
    }

    /** Takes the oldest packet into dest; returns 0 when there is none, and minus
        the needed size, changing nothing, when dest is too small. */
    method Read(dest: array<byte>, size: int) returns (r: int)
      requires Valid() && dest != BUFFER && size <= dest.Length
      modifies this, dest
      ensures Valid() && BUFFER[..] == old(BUFFER[..])
      ensures writePtr == old(writePtr)
      ensures var same := Packets == old(Packets) && dest[..] == old(dest[..])
                               && readPtr == old(readPtr) && usedSize == old(usedSize);
              if old(Packets) == [] then r == 0 && same
              else
                var p := old(Packets)[0];
                if size < |p| then r == -|p| && same
                else r == |p| && dest[..r] == p && Packets == old(Packets)[1..]
                     && readPtr == Past(CAPACITY, old(readPtr), |p|)
                     && forall i | r <= i < dest.Length :: dest[i] == old(dest[i])
    {
      if usedSize == 0 {
        OccupiedNone(Packets);
        return 0;
      }
      hide Window, Flat, RingOk, FromLE, LE, Occupied;
      OccupiedNone(Packets);
      FlatFront(Packets);
      ghost var f := Flat(Packets);
      RingPointers(BUFFER[..], readPtr, writePtr, f);
      var head := new byte[RINGHEAD];
      var ptr := ReadInner(readPtr, head, RINGHEAD);
      ReadKeepsRing(BUFFER[..], readPtr, writePtr, f, RINGHEAD);
      assert head[..] == head[..RINGHEAD];
      var n := FromLE(head[..]);
      if size < n {
        return -n;
      }
      ReadKeepsRing(BUFFER[..], ptr, writePtr, f[RINGHEAD..], n);
      ptr := ReadInner(ptr, dest, n);
      readPtr := ptr;
      OccupiedFront(Packets);
      usedSize := usedSize - (n + RINGHEAD);
      Packets := Packets[1..];
      r := n;
    }

    /** Drops the front packet, reading its length in place. */
    method DropFront()
      requires Valid() && Packets != [] && readPtr + RINGHEAD <= CAPACITY
      modifies this
      ensures Valid() && Packets == old(Packets)[1..]
      ensures readPtr == Wrap(CAPACITY, old(readPtr) + RINGHEAD + |old(Packets)[0]|)
      ensures usedSize == Occupied(Packets) <= CAPACITY && usedSize < old(usedSize)
    {
      hide Flat, RingOk, FromLE, Occupied, Window;
      FrontDropped(BUFFER[..], readPtr, writePtr, Packets);
      var PACKSIZE := FromLE(BUFFER[readPtr..readPtr + RINGHEAD]) + RINGHEAD;
      readPtr := readPtr + PACKSIZE;
      if readPtr >= CAPACITY {
        readPtr := readPtr - CAPACITY;
      }
      usedSize := usedSize - PACKSIZE;
      Packets := Packets[1..];
    }

    /** Drops packets from the front until size bytes are free: the fewest that do. */
    method Retain(size: int)
      requires Valid()
      requires size <= CAPACITY ==> HeadsWhole(CAPACITY, readPtr, Packets, DropCount(Packets, CAPACITY, size))
      modifies this
      ensures Valid()
      ensures Packets == old(Packets)[if size <= CAPACITY then DropCount(old(Packets), CAPACITY, size) else 0..]
    {
      if size > CAPACITY {
        return;
      }
      DropNone(Packets, CAPACITY, size);
      if CAPACITY - usedSize >= size {
        return;
      }
      ghost var total := DropCount(Packets, CAPACITY, size);
      hide Valid, Window, Flat, DropCount, HeadsWhole, RingOk, Occupied, Wrap;
      ghost var n := 0;
      ghost var was := Packets;
      while CAPACITY - usedSize < size
        invariant Valid() && usedSize == Occupied(Packets) <= CAPACITY
        invariant n <= |was| && Packets == was[n..]
        invariant n + DropCount(Packets, CAPACITY, size) == total
        invariant HeadsWhole(CAPACITY, readPtr, Packets, DropCount(Packets, CAPACITY, size))
        decreases usedSize
      {
        DropStep(CAPACITY, readPtr, Packets, size);
        DropFront();
        n := n + 1;
      }
      DropNone(Packets, CAPACITY, size);
    }
  }

  /** A reachable ring on which Retain looks past the end: a packet that fills the ring
      of sixteen bytes, read back, leaves the read pointer at END; the next packet
      lies at BUFFER, but its length is looked for at END. */
  method ReadPointerAtEnd() returns (ring: RingBuffer)
    ensures fresh(ring) && ring.Valid() && ring.CAPACITY == 16
    ensures ring.readPtr == ring.CAPACITY && ring.Packets == [[1, 2, 3, 4]]
    ensures Aligned(ring.CAPACITY, ring.readPtr, ring.Packets)
    ensures DropCount(ring.Packets, ring.CAPACITY, ring.CAPACITY) == 1
    ensures !HeadsWhole(ring.CAPACITY, ring.readPtr, ring.Packets, 1)
  {
    ring := new RingBuffer(16);
    var full: seq<byte> := seq(12, _ => 7);
    assert Occupied([full]) == 16;
    var _ := ring.Write(full);
    assert ring.Packets == [full];
    var dest := new byte[12];
    var _ := ring.Read(dest, 12);
    assert ring.Packets == [] && ring.readPtr == 16;
    var _ := ring.Write([1, 2, 3, 4]);
    assert ring.Packets == [[1, 2, 3, 4]];
  }
}
