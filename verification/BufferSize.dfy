/** How large mAllBuffers is over the reuses of one CombinePackage
    (socket/CombinePackage.cpp:49-60, 67-71). AllocBuffer adds the header and
    rounds to 4 KiB; the reallocation test of InitPackage leaves the header out. */
module BufferSize {
  import opened Packet

  const PAGE := 4096
  const TERMINATOR_SIZE := 4

  /** (size + header + 4095) & ~4095 */
  function AllocSize(size: nat): (n: nat)
    ensures n >= size + HEAD
    ensures n % PAGE == 0
    ensures n < size + HEAD + PAGE
  {
    (size + HEAD + PAGE - 1) / PAGE * PAGE
  }

  /** mAllBufSize after InitPackage asks for size bytes of payload. */
  function AfterInit(buffer: nat, size: nat): nat {
    if buffer < size then AllocSize(size) else buffer
  }

  /** The payload and the terminator fit behind the header. */
  predicate Fits(buffer: nat, size: nat) {
    HEAD + size + TERMINATOR_SIZE <= buffer
  }

  /** Buffer size after a history of InitPackage calls. */
  function AfterAll(buffer: nat, sizes: seq<nat>): nat {
    if sizes == [] then buffer else AfterInit(AfterAll(buffer, sizes[..|sizes| - 1]), sizes[|sizes| - 1])
  }

  /** Each InitPackage of the history left enough room for its own message. */
  predicate AlwaysFits(buffer: nat, sizes: seq<nat>) {
    sizes != [] ==>
      && AlwaysFits(buffer, sizes[..|sizes| - 1])
      && Fits(AfterAll(buffer, sizes), sizes[|sizes| - 1])
  }

  /** The sizes a receiver asks for: whole slices of the unit, or one slice
      shorter than the unit (a TCP message of a single slice). */
  predicate AskedSize(unit: nat, size: nat)
    requires unit > 0
  {
    size <= unit || size % unit == 0
  }

  predicate Asked(unit: nat, sizes: seq<nat>)
    requires unit > 0
  {
    forall i | 0 <= i < |sizes| :: AskedSize(unit, sizes[i])
  }

  predicate Shape(unit: nat, buffer: nat)
    requires unit > 0
  {
    buffer >= unit + PAGE && buffer % unit == PAGE
  }

  lemma AllocShape(unit: nat, k: nat)
    requires unit > PAGE && unit % PAGE == 0 && k >= 1
    ensures AllocSize(k * unit) == k * unit + PAGE
    ensures Shape(unit, AllocSize(k * unit))
  {
    var j := unit / PAGE;
    assert k * unit == (k * j) * PAGE by {
      assert unit == j * PAGE;
      assert k * (j * PAGE) == (k * j) * PAGE;
    }
    assert (k * unit) % PAGE == 0;
    ModOfMultiple(k, unit, PAGE);
    MulMono(1, k, unit);
  }

  /** The buffer of a package of n UDP slices: n times 32 KiB, and one page more. */
  lemma UdpAllocSize(n: nat)
    ensures AllocSize(n * UDP_PACKLENGTH) == n * UDP_PACKLENGTH + PAGE
  {
    var pages := n * 8;
    assert n * UDP_PACKLENGTH == pages * PAGE;
    assert (pages * PAGE + HEAD + PAGE - 1) / PAGE == pages + 1;
  }

  lemma ModOfMultiple(k: nat, unit: nat, r: nat)
    requires r < unit
    ensures (k * unit + r) % unit == r
  {
    var x := k * unit + r;
    assert x == x / unit * unit + x % unit;
    var d := x / unit - k;
    assert d * unit == r - x % unit;
    if d >= 1 { MulMono(1, d, unit); }
    if d <= -1 { MulMono(d, -1, unit); }
  }

  lemma MultipleFits(unit: nat, buffer: nat, size: nat)
    requires unit > PAGE && Shape(unit, buffer)
    requires AskedSize(unit, size)
    requires size <= buffer
    ensures Fits(buffer, size)
  {
    if size > unit {
      var j, k := buffer / unit, size / unit;
      assert buffer == j * unit + PAGE && size == k * unit;
      assert (j + 1) * unit == j * unit + unit;
      if k > j {
        MulMono(j + 1, k, unit);
      } else {
        MulMono(k, j, unit);
      }
    }
  }

  lemma InitKeepsShape(unit: nat, buffer: nat, size: nat)
    requires unit > PAGE && unit % PAGE == 0 && Shape(unit, buffer)
    requires AskedSize(unit, size)
    ensures Shape(unit, AfterInit(buffer, size)) && Fits(AfterInit(buffer, size), size)
  {
    if buffer < size {
      assert size == size / unit * unit;
      if size / unit < 1 {
        MulSign(size / unit, unit);
      }
      AllocShape(unit, size / unit);
    } else {
      MultipleFits(unit, buffer, size);
    }
  }

  /** Across any reuse of one buffer every copy and the terminator stay inside
      it, for every unit above one page. UDP uses 32 KiB, TCP 64 KiB. */
  lemma {:induction false} ReuseFits(unit: nat, start: nat, sizes: seq<nat>)
    requires unit > PAGE && unit % PAGE == 0 && start >= 1 && Asked(unit, sizes)
    ensures AlwaysFits(AllocSize(start * unit), sizes)
    ensures Shape(unit, AfterAll(AllocSize(start * unit), sizes))
  {
    var buffer := AllocSize(start * unit);
    if sizes == [] {
      AllocShape(unit, start);
    } else {
      var n := |sizes| - 1;
      ReuseFits(unit, start, sizes[..n]);
      InitKeepsShape(unit, AfterAll(buffer, sizes[..n]), sizes[n]);
    }
  }

  /** With slices of exactly one page the reallocation test is too weak: after a
      one-slice message, a two-slice message overruns the buffer. So, among
      whole numbers of pages, reuse is safe for every history exactly above one page. */
  lemma ReuseFitsIff(unit: nat)
    requires unit > 0 && unit % PAGE == 0
    ensures (forall sizes: seq<nat> :: Asked(unit, sizes) ==> AlwaysFits(AllocSize(unit), sizes)) <==> unit > PAGE
  {
    if unit > PAGE {
      forall sizes: seq<nat> | Asked(unit, sizes)
        ensures AlwaysFits(AllocSize(unit), sizes)
      {
        ReuseFits(unit, 1, sizes);
      }
    } else {
      var sizes: seq<nat> := [2 * PAGE];
      assert sizes[..0] == [];
      assert AfterAll(AllocSize(unit), sizes) == 2 * PAGE;
      assert Asked(unit, sizes) && !Fits(AfterAll(AllocSize(unit), sizes), sizes[0]);
    }
  }
}
