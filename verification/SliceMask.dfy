/** Single bits of one 32-bit word. */
module BitWord {

  predicate TestWord(w: bv32, b: bv5) {
    w & (1 << b) != 0
  }

  function OrWord(w: bv32, b: bv5): bv32 {
    w | (1 << b)
  }

  lemma OrBits(w: bv32, b: bv5, c: bv5)
    ensures (w | (1 << b)) & (1 << c) != 0 <==> w & (1 << c) != 0 || b == c
  {
  }

  lemma OrSetsOneBit(w: bv32, b: bv5, c: bv5, v: bv32)
    requires v == w | (1 << b)
    ensures TestWord(v, c) <==> TestWord(w, c) || b == c
  {
    OrBits(w, b, c);
  }

  lemma WordFacts(w: bv32, b: bv5)
    ensures TestWord(!w, b) <==> !TestWord(w, b)
    ensures !TestWord(0, b)
    ensures TestWord(0xffff_ffff, b)
  {
  }
}

/** The 256-bit slice masks: eight 32-bit words, bit s of the mask standing for
    slice s. The rest of the project sees a mask as the set of its slices. */
module SliceMask {
  import opened BitWord
  import opened Types

  const WORDS := 8
  const SLICES := 256

  /** A shift count below 32 as the register that holds it. */
  function Register(b: nat): bv5 {
    if b == 0 then 0 else Register(b - 1) + 1
  }

  /** w & (1 << b) != 0 */
  predicate TestBit(w: bv32, b: nat) {
    TestWord(w, Register(b))
  }

  /** w | (1 << b) */
  function OrBit(w: bv32, b: nat): bv32 {
    OrWord(w, Register(b))
  }

  predicate HasBit(words: seq<bv32>, slice: nat)
    requires |words| == WORDS && slice < SLICES
  {
    TestBit(words[slice / 32], slice % 32)
  }

  predicate IsSlice(s: nat) {
    s < SLICES
  }

  /** The slices whose bit is set. */
  function Members(words: seq<bv32>): set<nat>
    requires |words| == WORDS
  {
    set s: nat | s < SLICES && IsSlice(s) && HasBit(words, s)
  }

  function Everything(): set<nat> {
    set s: nat | s < SLICES && IsSlice(s)
  }

  lemma {:induction false} RegisterIsInt(b: nat)
    requires b < 32
    ensures Register(b) as int == b
  {
    if b > 0 {
      RegisterIsInt(b - 1);
    }
  }

  lemma RegisterInjective(b: nat, c: nat)
    requires b < 32 && c < 32
    ensures Register(b) == Register(c) <==> b == c
  {
    RegisterIsInt(b);
    RegisterIsInt(c);
  }

  lemma OrBitInRegisters(w: bv32, b: nat, c: nat, v: bv32, x: bv5, y: bv5)
    requires b < 32 && c < 32
    requires x == Register(b) && y == Register(c) && v == OrWord(w, x)
    ensures TestBit(v, c) <==> TestBit(w, c) || b == c
  {
    RegisterInjective(b, c);
    OrSetsOneBit(w, x, y, v);
  }

  lemma OrBitSetsOneBit(w: bv32, b: nat, c: nat)
    requires b < 32 && c < 32
    ensures TestBit(OrBit(w, b), c) <==> TestBit(w, c) || b == c
  {
    OrBitInRegisters(w, b, c, OrBit(w, b), Register(b), Register(c));
  }

  function SetBit(words: seq<bv32>, slice: nat): (after: seq<bv32>)
    requires |words| == WORDS && slice < SLICES
    ensures |after| == WORDS
  {
    words[slice / 32 := OrBit(words[slice / 32], slice % 32)]
  }

  lemma SetBitAt(words: seq<bv32>, slice: nat, t: nat)
    requires |words| == WORDS && slice < SLICES && t < SLICES
    ensures HasBit(SetBit(words, slice), t) <==> HasBit(words, t) || t == slice
  {
    if slice / 32 == t / 32 {
      OrBitSetsOneBit(words[slice / 32], slice % 32, t % 32);
    }
  }

  /** Setting one bit of one word adds exactly that slice. */
  lemma SetBitAddsSlice(words: seq<bv32>, slice: nat)
    requires |words| == WORDS && slice < SLICES
    ensures Members(SetBit(words, slice)) == Members(words) + {slice}
  {
    forall t: nat | t < SLICES
      ensures HasBit(SetBit(words, slice), t) <==> HasBit(words, t) || t == slice
    {
      SetBitAt(words, slice, t);
    }
    assert IsSlice(slice);
  }

  /** Complementing every word complements the set. */
  lemma ComplementFlips(words: seq<bv32>, flipped: seq<bv32>)
    requires |words| == |flipped| == WORDS
    requires forall i | 0 <= i < WORDS :: flipped[i] == !words[i]
    ensures Members(flipped) == Everything() - Members(words)
  {
    forall t: nat | t < SLICES
      ensures HasBit(flipped, t) <==> !HasBit(words, t)
    {
      WordFacts(words[t / 32], Register(t % 32));
    }
  }

  lemma ZeroIsEmpty(words: seq<bv32>)
    requires |words| == WORDS && forall i | 0 <= i < WORDS :: words[i] == 0
    ensures Members(words) == {}
  {
    forall t: nat | t < SLICES
      ensures !HasBit(words, t)
    {
      WordFacts(0, Register(t % 32));
    }
  }

  lemma OnesAreEverything(words: seq<bv32>)
    requires |words| == WORDS && forall i | 0 <= i < WORDS :: words[i] == 0xffff_ffff
    ensures Members(words) == Everything()
  {
    forall t: nat | t < SLICES
      ensures HasBit(words, t)
    {
      WordFacts(0, Register(t % 32));
    }
  }

  /** The layout on the wire: slice 33 is the second lowest bit of the second word. */
  lemma MaskLayout(words: seq<bv32>)
    requires |words| == WORDS && words[1] == 2 && forall i | 0 <= i < WORDS && i != 1 :: words[i] == 0
    ensures Members(words) == {33}
  {
    var zeros := words[1 := 0];
    ZeroIsEmpty(zeros);
    SetBitAddsSlice(zeros, 33);
    SecondBit();
    assert SetBit(zeros, 33) == words;
  }

  lemma SecondBit()
    ensures OrBit(0, 1) == 2
  {
    assert Register(0) == 0;
    assert Register(1) == 1;
  }

  method AddSliceMask(slice: nat, masks: array<bv32>)
    requires slice < SLICES && masks.Length == WORDS
    modifies masks
    ensures Members(masks[..]) == old(Members(masks[..])) + {slice}
  {
    ghost var before := masks[..];
    var idx := slice / 32;
    var bit := slice % 32;
    var w := OrBit(masks[idx], bit);
    ghost var after := before[idx := w];
    assert Members(after) == Members(before) + {slice} by {
      SetBitAddsSlice(before, slice);
      assert after == SetBit(before, slice);
    }
    masks[idx] := w;
    assert masks[..] == after;
  }

  /** No mask at all stands for every slice; a slice past the last word is never set. */
  method IsSliceMask(slice: nat, masks: array?<bv32>) returns (present: bool)
    requires masks != null ==> masks.Length == WORDS
    ensures present <==> masks == null || slice in Members(masks[..])
  {
    if masks == null {
      return true;
    }
    var idx := slice / 32;
    var bit := slice % 32;
    if idx >= 8 {
      return false;
    }
    ghost var words := masks[..];
    present := TestBit(masks[idx], bit);
    assert present <==> HasBit(words, slice) by {
      assert words[idx] == masks[idx];
    }
    assert IsSlice(slice);
  }
}
