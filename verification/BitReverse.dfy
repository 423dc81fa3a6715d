/** Reversing the bits of a number by swapping ever larger groups (apps/gview/stb_image.h). */
module BitReverse {
  import opened CanonicalCodes

  function BitReverse16(n: bv16): bv16 {
    var n1 := ((n & 0xAAAA) >> 1) | ((n & 0x5555) << 1);
    var n2 := ((n1 & 0xCCCC) >> 2) | ((n1 & 0x3333) << 2);
    var n4 := ((n2 & 0xF0F0) >> 4) | ((n2 & 0x0F0F) << 4);
    ((n4 & 0xFF00) >> 8) | ((n4 & 0x00FF) << 8)
  }

  function Mask(i: nat): bv16
    requires i < 16
  {
    match i
    case 0 => 0x0001 case 1 => 0x0002 case 2 => 0x0004 case 3 => 0x0008
    case 4 => 0x0010 case 5 => 0x0020 case 6 => 0x0040 case 7 => 0x0080
    case 8 => 0x0100 case 9 => 0x0200 case 10 => 0x0400 case 11 => 0x0800
    case 12 => 0x1000 case 13 => 0x2000 case 14 => 0x4000 case 15 => 0x8000
  }

  predicate Meets(w: bv16, m: bv16) {
    w & m != 0
  }

  function Or(w: bv16, m: bv16): bv16 {
    w | m
  }

  predicate On(w: bv16, i: nat)
    requires i < 16
  {
    Meets(w, Mask(i))
  }

  /** The lowest 16 bits of a number. */
  function LowBits(v: nat): (bits: seq<bool>)
    ensures |bits| == 16
  {
    seq(16, i requires 0 <= i < 16 => Bit(v, i) == 1)
  }

  /** The machine word with the given bits, the lowest first. */
  function Word(bits: seq<bool>): bv16
    requires |bits| <= 16
  {
    if bits == [] then 0
    else var n := |bits| - 1; Or(Word(bits[..n]), if bits[n] then Mask(n) else 0)
  }

  function BitsOf(w: bv16): seq<bool> {
    seq(16, i requires 0 <= i < 16 => On(w, i))
  }

  function Number(bits: seq<bool>): nat {
    if bits == [] then 0
    else var n := |bits| - 1; Number(bits[..n]) + if bits[n] then Pow2(n) else 0
  }

  function Reversed(bits: seq<bool>): seq<bool>
    requires |bits| <= 16
  {
    BitsOf(BitReverse16(Word(bits)))
  }

  /** Reverses the 16 low bits of `v` and shifts so that its `bits` lowest ones remain. */
  function BitReverse(v: nat, bits: nat): nat
    requires bits <= 16
  {
    ShiftRight(Number(Reversed(LowBits(v))), 16 - bits)
  }

  lemma ReverseBits(w: bv16)
    ensures Meets(BitReverse16(w), 0x0001) == Meets(w, 0x8000)
    ensures Meets(BitReverse16(w), 0x0002) == Meets(w, 0x4000)
    ensures Meets(BitReverse16(w), 0x0004) == Meets(w, 0x2000)
    ensures Meets(BitReverse16(w), 0x0008) == Meets(w, 0x1000)
    ensures Meets(BitReverse16(w), 0x0010) == Meets(w, 0x0800)
    ensures Meets(BitReverse16(w), 0x0020) == Meets(w, 0x0400)
    ensures Meets(BitReverse16(w), 0x0040) == Meets(w, 0x0200)
    ensures Meets(BitReverse16(w), 0x0080) == Meets(w, 0x0100)
    ensures Meets(BitReverse16(w), 0x0100) == Meets(w, 0x0080)
    ensures Meets(BitReverse16(w), 0x0200) == Meets(w, 0x0040)
    ensures Meets(BitReverse16(w), 0x0400) == Meets(w, 0x0020)
    ensures Meets(BitReverse16(w), 0x0800) == Meets(w, 0x0010)
    ensures Meets(BitReverse16(w), 0x1000) == Meets(w, 0x0008)
    ensures Meets(BitReverse16(w), 0x2000) == Meets(w, 0x0004)
    ensures Meets(BitReverse16(w), 0x4000) == Meets(w, 0x0002)
    ensures Meets(BitReverse16(w), 0x8000) == Meets(w, 0x0001)
  {}

  lemma ReverseBit(w: bv16, i: nat)
    requires i < 16
    ensures On(BitReverse16(w), i) == On(w, 15 - i)
  {
    ReverseBits(w);
    hide BitReverse16, Meets;
    match i
    case 0 => case 1 => case 2 => case 3 => case 4 => case 5 => case 6 => case 7 =>
    case 8 => case 9 => case 10 => case 11 => case 12 => case 13 => case 14 => case 15 =>
  }

  lemma MaskAt(j: nat, i: nat)
    requires i < 16 && j < 16
    ensures Meets(Mask(j), Mask(i)) <==> i == j
  {
    match j
    case 0 => case 1 => case 2 => case 3 => case 4 => case 5 => case 6 => case 7 =>
    case 8 => case 9 => case 10 => case 11 => case 12 => case 13 => case 14 => case 15 =>
  }

  lemma ZeroOr(a: bv16, b: bv16)
    ensures a | b == 0 <==> a == 0 && b == 0
  {}

  lemma OrMeets(a: bv16, b: bv16, m: bv16)
    ensures Meets(Or(a, b), m) <==> Meets(a, m) || Meets(b, m)
  {
    assert (a | b) & m == (a & m) | (b & m);
    ZeroOr(a & m, b & m);
  }

  lemma ZeroMeets(m: bv16)
    ensures !Meets(0, m)
  {}

  lemma OnOr(a: bv16, j: nat, i: nat)
    requires i < 16 && j < 16
    ensures On(Or(a, Mask(j)), i) == (On(a, i) || i == j)
    ensures On(Or(a, 0), i) == On(a, i)
    ensures !On(0, i)
  {
    MaskAt(j, i);
    hide Mask, Meets, Or;
    OrMeets(a, Mask(j), Mask(i));
    OrMeets(a, 0, Mask(i));
    ZeroMeets(Mask(i));
  }

  lemma {:induction false} BitOfWord(bits: seq<bool>, i: nat)
    requires |bits| <= 16 && i < 16
    ensures On(Word(bits), i) == (i < |bits| && bits[i])
  {
    hide Mask, Meets, Or, On;
    if bits == [] {
      OnOr(0, 0, i);
    } else {
      BitOfWord(bits[..|bits| - 1], i);
      OnOr(Word(bits[..|bits| - 1]), |bits| - 1, i);
    }
  }

  lemma {:induction false} BitOfNumber(bits: seq<bool>, i: nat)
    requires i < |bits|
    ensures Number(bits) < Pow2(|bits|)
    ensures Bit(Number(bits), i) == if bits[i] then 1 else 0
  {
    var n := |bits| - 1;
    if n > 0 {
      BitOfNumber(bits[..n], if i < n then i else 0);
    }
    DivUnique(Number(bits), Pow2(n), if bits[n] then 1 else 0, Number(bits[..n]));
    if i < n {
      BitOfMod(Number(bits), n, i);
    }
  }

  /** The swaps reverse the low bits, as reading them in stream order does. */
  lemma ReverseReads(v: nat, bits: nat)
    requires bits <= 16
    ensures BitReverse(v, bits) == Rev(v, bits)
  {
    hide BitReverse16, Word, On;
    var n := |LowBits(v)|;
    var r := Number(Reversed(LowBits(v)));
    forall i: nat | i < n
      ensures r < Pow2(n) && Bit(r, i) == Bit(Rev(v, n), i)
    {
      BitOfNumber(Reversed(LowBits(v)), i);
      ReverseBit(Word(LowBits(v)), i);
      BitOfWord(LowBits(v), 15 - i);
      BitOfRev(v, n, i);
    }
    BitsDecide(r, Rev(v, n), n);
    BitOfNumber(Reversed(LowBits(v)), 0);
    DivUnique(r, Pow2(n), 0, r);
    DivUnique(Rev(v, n), Pow2(n), 0, Rev(v, n));
    RevPrefix(v, n, bits);
  }
}
