/** The 32-bit wrapping sequence numbers and the macro time_after
    (socket/UdpCombinePackage.cpp:15). */
module Serial {
  import opened Types

  const MODULUS := 0x1_0000_0000
  const HALF := 0x8000_0000

  /** The cast (int32_t) of a uint32_t. */
  function ToInt32(x: u32): int {
    if x < HALF then x else x - MODULUS
  }

  /** The value a two's-complement 32-bit register keeps of an integer. */
  function Wrap32(x: int): int {
    (x + HALF) % MODULUS - HALF
  }

  /** time_after(a, b): a is later than b. */
  predicate TimeAfter(a: u32, b: u32) {
    Wrap32(ToInt32(b) - ToInt32(a)) < 0
  }

  /** uint32_t increment. */
  function Next(x: u32): u32 {
    (x + 1) % MODULUS
  }

  /** How many increments lead from one number to the other. */
  function Ahead(from: u32, to: u32): (n: nat) {
    (to - from) % MODULUS
  }

  /** "greater than" of section 3.2 of RFC 1982, for 32-bit serial numbers. */
  predicate SerialGreater(a: u32, b: u32) {
    (a < b && b - a > HALF) || (a > b && a - b < HALF)
  }

  lemma TimeAfterIsDistance(a: u32, b: u32)
    ensures TimeAfter(a, b) <==> Ahead(a, b) >= HALF
  {
    var d := ToInt32(b) - ToInt32(a);
    assert d % MODULUS == (b - a) % MODULUS;
  }

  /** The macro is the comparison of RFC 1982, except that it also answers
      "after", both ways round, at distance exactly 2^31 where the RFC leaves
      the comparison undefined. */
  lemma TimeAfterIsSerialOrder(a: u32, b: u32)
    ensures TimeAfter(a, b) <==> SerialGreater(a, b) || Ahead(a, b) == HALF
    ensures TimeAfter(a, b) && TimeAfter(b, a) <==> Ahead(a, b) == HALF
    ensures !TimeAfter(a, b) && !TimeAfter(b, a) <==> a == b
  {
    TimeAfterIsDistance(a, b);
    TimeAfterIsDistance(b, a);
  }

  /** Seen from a common origin less than 2^31 before both, time_after compares
      the distances. */
  lemma TimeAfterFromOrigin(origin: u32, a: u32, b: u32)
    requires Ahead(origin, a) < HALF && Ahead(origin, b) < HALF
    ensures TimeAfter(a, b) <==> Ahead(origin, a) > Ahead(origin, b)
    ensures a == b <==> Ahead(origin, a) == Ahead(origin, b)
  {
    TimeAfterIsDistance(a, b);
  }
}
