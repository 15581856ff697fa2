/**
  The few laws of 16-bit exclusive-or and right shift that the CRC arguments use. Proofs about
  whole messages hide these definitions and work with the laws alone.
 */
module Words {

  function Xor(a: bv16, b: bv16): bv16 {
    a ^ b
  }

  function Half(c: bv16): bv16 {
    c >> 1
  }

  function Twice(c: bv16): bv16 {
    c << 1
  }

  predicate Odd(c: bv16) {
    c & 1 != 0
  }

  /** The word with the single low bit `b`. */
  function Low(b: bool): bv16 {
    if b then 1 else 0
  }

  lemma XorAssociative(a: bv16, b: bv16, c: bv16)
    ensures Xor(Xor(a, b), c) == Xor(a, Xor(b, c))
  {
  }

  lemma XorCommutative(a: bv16, b: bv16)
    ensures Xor(a, b) == Xor(b, a)
  {
  }

  lemma XorZero(a: bv16)
    ensures Xor(a, 0) == a && Xor(0, a) == a
  {
  }

  lemma XorIsZero(a: bv16, b: bv16)
    ensures Xor(a, b) == 0 <==> a == b
  {
    if a ^ b == 0 {
      EqualBits(a, b);
    }
  }

  lemma EqualBits(a: bv16, b: bv16)
    requires a ^ b == 0
    ensures a == b
  {
  }

  /** Exchanging the middle terms of four. */
  lemma XorExchange(a: bv16, b: bv16, c: bv16, d: bv16)
    ensures Xor(Xor(a, b), Xor(c, d)) == Xor(Xor(a, c), Xor(b, d))
  {
    hide Xor;
    XorAssociative(a, b, Xor(c, d));
    XorAssociative(b, c, d);
    XorCommutative(b, c);
    XorAssociative(c, b, d);
    XorAssociative(a, c, Xor(b, d));
  }

  lemma XorMoves(a: bv16, b: bv16, c: bv16)
    ensures Xor(a, b) == c <==> a == Xor(c, b)
  {
    hide Xor;
    XorAssociative(a, b, b);
    XorAssociative(c, b, b);
    XorIsZero(b, b);
    XorZero(a);
    XorZero(c);
  }

  lemma HalfXor(a: bv16, b: bv16)
    ensures Half(Xor(a, b)) == Xor(Half(a), Half(b))
  {
  }

  lemma OddXor(a: bv16, b: bv16)
    ensures Odd(Xor(a, b)) <==> Odd(a) != Odd(b)
  {
  }

  lemma LowBit(x: bv16)
    ensures Xor(x, Low(Odd(x))) == Twice(Half(x))
    ensures Odd(Low(Odd(x))) == Odd(x) && Half(Low(Odd(x))) == 0
  {
  }

  lemma LowXor(a: bool, b: bool)
    ensures Low(a != b) == Xor(Low(a), Low(b))
  {
  }

  /** The top bit, which a right shift clears. */
  predicate Top(a: bv16) {
    a & 0x8000 != 0
  }

  predicate Below(v: bv16, limit: bv16) {
    v < limit
  }

  lemma EvenShiftBack(c: bv16, v: bv16)
    requires !Top(v) && !Odd(c)
    ensures Half(c) == v <==> c == Twice(v)
  {
    if Half(c) == v {
      TwiceHalf(c);
    }
    if c == Twice(v) {
      HalfTwice(v);
    }
  }

  lemma TwiceHalf(c: bv16)
    requires c & 1 == 0
    ensures (c >> 1) << 1 == c
  {
  }

  lemma HalfTwice(v: bv16)
    requires v & 0x8000 == 0
    ensures (v << 1) >> 1 == v
  {
  }

  lemma OddIsNotTwice(c: bv16, v: bv16)
    requires Odd(c)
    ensures c != Twice(v)
  {
  }

  lemma TopXor(c: bv16, poly: bv16)
    requires Top(poly)
    ensures Top(Xor(Half(c), poly))
  {
  }

  lemma TwiceFits(v: bv16, limit: bv16, b: bool)
    requires limit <= 0x8000 && Below(v, Half(limit))
    ensures Below(Xor(Twice(v), Low(b)), limit)
  {
    TwiceBelow(v, limit);
    if !b {
      XorZero(Twice(v));
    }
  }

  lemma TwiceBelow(v: bv16, limit: bv16)
    requires limit <= 0x8000 && v < (limit >> 1)
    ensures (v << 1) < limit && ((v << 1) ^ 1) < limit
  {
  }

  lemma TopLimit(v: bv16, limit: bv16)
    requires limit <= 0x8000 && Below(v, limit)
    ensures !Top(v)
  {
  }

  lemma HalfLimit(limit: bv16)
    requires limit <= 0x8000
    ensures Half(limit) <= 0x4000
  {
  }

  lemma TwiceLowZero(v: bv16, b: bool)
    requires !Top(v)
    ensures Xor(Twice(v), Low(b)) == 0 <==> v == 0 && !b
  {
  }

  /** A word of two bytes, the low one first. */
  function LittleEndian(lo: bv8, hi: bv8): bv16 {
    (lo as bv16) | ((hi as bv16) << 8)
  }

  function LowByte(w: bv16): bv8 {
    (w & 0xFF) as bv8
  }

  function HighByte(w: bv16): bv8 {
    (w >> 8) as bv8
  }

  lemma LittleEndianBytes(w: bv16)
    ensures LittleEndian(LowByte(w), HighByte(w)) == w
  {
  }

  lemma XorLowByte(lo: bv8, hi: bv8)
    ensures Xor(LittleEndian(lo, hi), lo as bv16) == (hi as bv16) << 8
  {
  }
}
