/**
  CRC-16 over bytes taken least significant bit first, as `modbusCRC` computes it, and what
  makes it a good frame check: it is linear, its step is invertible, and feeding a message's
  own CRC brings the register to zero.
 */
module Crc16 {
  import opened Words

  const MODBUS_POLY: bv16 := 0xA001
  const MODBUS_INIT: bv16 := 0xFFFF

  function Step(poly: bv16, c: bv16): bv16 {
    if Odd(c) then Xor(Half(c), poly) else Half(c)
  }

  function Steps(poly: bv16, c: bv16, n: nat): bv16 {
    if n == 0 then c else Step(poly, Steps(poly, c, n - 1))
  }

  function Update(poly: bv16, c: bv16, d: bv8): bv16 {
    Steps(poly, Xor(c, d as bv16), 8)
  }

  function Crc(poly: bv16, c: bv16, data: seq<bv8>): bv16 {
    if data == [] then c else Update(poly, Crc(poly, c, data[..|data| - 1]), data[|data| - 1])
  }

  lemma StepBits(c: bv16)
    ensures Step(MODBUS_POLY, c) == if c & 0x0001 != 0 then (c >> 1) ^ 0xA001 else c >> 1
  {
  }

  /** The bit-serial loop of the library. */
  method ModbusCRC(data: seq<bv8>) returns (crc: bv16)
    ensures crc == Crc(MODBUS_POLY, MODBUS_INIT, data)
  {
    hide Step;
    crc := 0xFFFF;
    for i := 0 to |data|
      invariant crc == Crc(MODBUS_POLY, MODBUS_INIT, data[..i])
    {
      ghost var mixed := Xor(crc, data[i] as bv16);
      crc := crc ^ (data[i] as bv16);
      var j: nat := 8;
      while j != 0
        invariant j <= 8
        invariant crc == Steps(MODBUS_POLY, mixed, 8 - j)
      {
        StepBits(crc);
        if crc & 0x0001 != 0 {
          crc := crc >> 1;
          crc := crc ^ 0xA001;
        } else {
          crc := crc >> 1;
        }
        j := j - 1;
      }
      assert data[..i + 1][..i] == data[..i];
    }
    assert data[..|data|] == data;
  }

  // ---------------------------------------------------------------------------------------
  // Bit by bit

  /** The register after the bits of a message were fed one by one. */
  function Feed(poly: bv16, c: bv16, bits: seq<bool>): bv16
    decreases |bits|
  {
    if bits == [] then c else Feed(poly, Step(poly, Xor(c, Low(bits[0]))), bits[1..])
  }

  /** The lowest `n` bits of `x`, least significant first. */
  function LowBits(x: bv16, n: nat): (bits: seq<bool>)
    ensures |bits| == n
    decreases n
  {
    if n == 0 then [] else [Odd(x)] + LowBits(Half(x), n - 1)
  }

  function ByteBits(d: bv8): (bits: seq<bool>)
    ensures |bits| == 8
  {
    LowBits(d as bv16, 8)
  }

  /** A message as it goes over the line: each byte from its least significant bit. */
  function BitsOf(data: seq<bv8>): (bits: seq<bool>)
    ensures |bits| == 8 * |data|
  {
    if data == [] then [] else BitsOf(data[..|data| - 1]) + ByteBits(data[|data| - 1])
  }

  lemma {:induction false} FeedConcat(poly: bv16, c: bv16, a: seq<bool>, b: seq<bool>)
    ensures Feed(poly, c, a + b) == Feed(poly, Feed(poly, c, a), b)
    decreases |a|
  {
    hide Step, Xor, Low;
    if a == [] {
      assert a + b == b;
    } else {
      assert (a + b)[1..] == a[1..] + b;
      FeedConcat(poly, Step(poly, Xor(c, Low(a[0]))), a[1..], b);
    }
  }

  lemma StepLinear(poly: bv16, c: bv16, d: bv16)
    ensures Step(poly, Xor(c, d)) == Xor(Step(poly, c), Step(poly, d))
  {
    hide Xor, Half, Odd;
    var a, b := Half(c), Half(d);
    HalfXor(c, d);
    OddXor(c, d);
    XorAssociative(a, b, poly);
    XorAssociative(a, poly, b);
    XorCommutative(poly, b);
    XorExchange(a, poly, b, poly);
    XorIsZero(poly, poly);
    XorZero(Xor(a, b));
  }

  function ShiftedDown(x: bv16, n: nat): bv16
    decreases n
  {
    if n == 0 then x else ShiftedDown(Half(x), n - 1)
  }

  lemma {:induction false} StepsFromFront(poly: bv16, c: bv16, n: nat)
    requires n > 0
    ensures Steps(poly, c, n) == Steps(poly, Step(poly, c), n - 1)
  {
    hide Step;
    if n > 1 {
      StepsFromFront(poly, c, n - 1);
    }
  }

  lemma StepSplits(poly: bv16, c: bv16, x: bv16)
    ensures Step(poly, Xor(c, x)) == Xor(Step(poly, Xor(c, Low(Odd(x)))), Half(x))
  {
    hide Xor, Half, Odd, Low;
    var low := Low(Odd(x));
    LowBit(x);
    StepLinear(poly, c, x);
    StepLinear(poly, c, low);
    XorZero(Half(x));
    XorZero(poly);
    XorAssociative(Step(poly, c), Step(poly, low), Half(x));
    XorCommutative(Half(x), poly);
  }

  /** Xoring a whole word in and stepping is feeding its bits one at a time. */
  lemma {:induction false} StepsFeed(poly: bv16, c: bv16, x: bv16, n: nat)
    ensures Steps(poly, Xor(c, x), n) == Xor(Feed(poly, c, LowBits(x, n)), ShiftedDown(x, n))
    decreases n
  {
    hide Step, Xor, Half, Odd, Low;
    if n > 0 {
      StepSplits(poly, c, x);
      StepsFromFront(poly, Xor(c, x), n);
      var b, bits := Odd(x), LowBits(Half(x), n - 1);
      StepsFeed(poly, Step(poly, Xor(c, Low(b))), Half(x), n - 1);
      assert ([b] + bits)[1..] == bits;
    }
  }

  lemma ByteShiftedOut(d: bv8)
    ensures ShiftedDown(d as bv16, 8) == 0
  {
    hide Half;
    var x := d as bv16;
    var x1 := Half(x);
    var x2 := Half(x1);
    var x3 := Half(x2);
    var x4 := Half(x3);
    var x5 := Half(x4);
    var x6 := Half(x5);
    var x7 := Half(x6);
    assert ShiftedDown(x, 8) == ShiftedDown(x1, 7) == ShiftedDown(x2, 6) == ShiftedDown(x3, 5) == ShiftedDown(x4, 4);
    assert ShiftedDown(x4, 4) == ShiftedDown(x5, 3) == ShiftedDown(x6, 2);
    assert ShiftedDown(x6, 2) == ShiftedDown(x7, 1) == ShiftedDown(Half(x7), 0);
    EightHalves(d);
  }

  lemma EightHalves(d: bv8)
    ensures Half(Half(Half(Half(Half(Half(Half(Half(d as bv16)))))))) == 0
  {
  }

  lemma UpdateFeeds(poly: bv16, c: bv16, d: bv8)
    ensures Update(poly, c, d) == Feed(poly, c, ByteBits(d))
  {
    hide Step, Xor, Half, Odd, Low, LowBits;
    StepsFeed(poly, c, d as bv16, 8);
    ByteShiftedOut(d);
    XorZero(Feed(poly, c, ByteBits(d)));
  }

  lemma {:induction false} CrcFeeds(poly: bv16, c: bv16, data: seq<bv8>)
    ensures Crc(poly, c, data) == Feed(poly, c, BitsOf(data))
  {
    hide Step, Xor, Low, ByteBits, Update;
    if data != [] {
      var init, d := data[..|data| - 1], data[|data| - 1];
      CrcFeeds(poly, c, init);
      FeedConcat(poly, c, BitsOf(init), ByteBits(d));
      UpdateFeeds(poly, Crc(poly, c, init), d);
    }
  }

  // ---------------------------------------------------------------------------------------
  // Linearity and inversion

  /** The positions at which two messages differ. */
  function Difference(a: seq<bool>, b: seq<bool>): (x: seq<bool>)
    requires |a| == |b|
    ensures |x| == |a|
  {
    seq(|a|, (i: int) requires 0 <= i < |a| => a[i] != b[i])
  }

  lemma {:induction false} FeedLinear(poly: bv16, c: bv16, d: bv16, a: seq<bool>, b: seq<bool>)
    requires |a| == |b|
    ensures Feed(poly, Xor(c, d), Difference(a, b)) == Xor(Feed(poly, c, a), Feed(poly, d, b))
    decreases |a|
  {
    hide Step, Xor, Low;
    if a != [] {
      var c', d' := Xor(c, Low(a[0])), Xor(d, Low(b[0]));
      LowXor(a[0], b[0]);
      XorExchange(c, d, Low(a[0]), Low(b[0]));
      StepLinear(poly, c', d');
      FeedLinear(poly, Step(poly, c'), Step(poly, d'), a[1..], b[1..]);
      assert Difference(a, b)[1..] == Difference(a[1..], b[1..]);
    }
  }

  /** The polynomial has its top bit set, so a step loses nothing. */
  lemma StepBack(poly: bv16, c: bv16, v: bv16)
    requires Top(poly) && !Top(v)
    ensures Step(poly, c) == v <==> c == Twice(v)
  {
    hide Xor, Half, Odd, Top, Twice;
    if Odd(c) {
      OddIsNotTwice(c, v);
      TopXor(c, poly);
    } else {
      EvenShiftBack(c, v);
    }
  }

  /** The word whose low bits are `w`. */
  function Value(w: seq<bool>): bv16 {
    if w == [] then 0 else Xor(Twice(Value(w[1..])), Low(w[0]))
  }

  /** 2 to the power `n`, counted down from 2 to the power 15. */
  function Limit(n: nat): bv16
    decreases 15 - n
  {
    if n >= 15 then 0x8000 else Half(Limit(n + 1))
  }

  lemma {:induction false} LimitBound(n: nat)
    ensures Limit(n) <= 0x8000
    decreases 15 - n
  {
    if n < 15 {
      LimitBound(n + 1);
      HalfLimit(Limit(n + 1));
    }
  }

  lemma {:induction false} ValueFits(w: seq<bool>)
    requires |w| <= 15
    ensures Below(Value(w), Limit(|w|)) && !Top(Value(w))
  {
    hide Xor, Twice, Low, Top, Half, Below;
    LimitBound(|w|);
    if w == [] {
      LimitZero();
    } else {
      ValueFits(w[1..]);
      TwiceFits(Value(w[1..]), Limit(|w|), w[0]);
    }
    TopLimit(Value(w), Limit(|w|));
  }

  lemma LimitZero()
    ensures Below(0, Limit(0))
  {
    hide Half;
    assert Limit(11) == Half(Half(Half(Half(Limit(15))))) by {
      assert Limit(13) == Half(Half(Limit(15)));
    }
    assert Limit(7) == Half(Half(Half(Half(Limit(11))))) by {
      assert Limit(9) == Half(Half(Limit(11)));
    }
    assert Limit(3) == Half(Half(Half(Half(Limit(7))))) by {
      assert Limit(5) == Half(Half(Limit(7)));
    }
    assert Limit(0) == Half(Half(Half(Limit(3)))) by {
      assert Limit(1) == Half(Half(Limit(3)));
    }
    FifteenHalves();
  }

  lemma FifteenHalves()
    ensures Half(Half(Half(Half(0x8000)))) == 0x0800 && Half(Half(Half(Half(0x0800)))) == 0x0080
    ensures Half(Half(Half(Half(0x0080)))) == 0x0008 && Half(Half(Half(0x0008))) == 1
  {
  }

  /**
    Feeding at most 16 bits leaves the register at zero exactly when the register held those
    bits: the check of a received CRC, and the reason a short burst cannot cancel itself.
   */
  lemma {:induction false} FeedToZero(poly: bv16, c: bv16, w: seq<bool>)
    requires Top(poly) && |w| <= 16
    ensures Feed(poly, c, w) == 0 <==> c == Value(w)
    decreases |w|
  {
    hide Xor, Twice, Low, Top, Half, Step;
    if w != [] {
      var c' := Xor(c, Low(w[0]));
      var v := Value(w[1..]);
      FeedToZero(poly, Step(poly, c'), w[1..]);
      ValueFits(w[1..]);
      StepBack(poly, c', v);
      XorMoves(c, Low(w[0]), Twice(v));
    }
  }

  lemma {:induction false} ValueZero(w: seq<bool>)
    requires |w| <= 16
    ensures Value(w) == 0 <==> forall i :: 0 <= i < |w| ==> !w[i]
  {
    hide Xor, Twice, Low, Top;
    if w != [] {
      ValueZero(w[1..]);
      ValueFits(w[1..]);
      TwiceLowZero(Value(w[1..]), w[0]);
      assert forall i :: 1 <= i < |w| ==> w[i] == w[1..][i - 1];
    }
  }

  predicate AllFalse(a: seq<bool>) {
    forall i :: 0 <= i < |a| ==> !a[i]
  }

  /** Agreeing bits leave a zero register at zero and never bring another one there. */
  lemma {:induction false} FeedZeros(poly: bv16, c: bv16, z: seq<bool>)
    requires Top(poly) && AllFalse(z)
    ensures Feed(poly, c, z) == 0 <==> c == 0
    decreases |z|
  {
    hide Xor, Twice, Low, Top, Half, Odd, Step;
    if z != [] {
      assert !z[0];
      assert AllFalse(z[1..]);
      StepZero(poly, c);
      FeedZeros(poly, Step(poly, Xor(c, Low(false))), z[1..]);
    }
  }

  lemma StepZero(poly: bv16, c: bv16)
    requires Top(poly)
    ensures Step(poly, Xor(c, Low(false))) == 0 <==> c == 0
  {
    hide Xor, Top, Half, Odd, Step;
    XorZero(c);
    assert Low(false) == 0;
    ZeroWord();
    StepBack(poly, c, 0);
  }

  lemma ZeroWord()
    ensures !Top(0) && Twice(0) == 0
  {
  }

  /**
    A difference confined to 16 consecutive bits leaves the register of a zero start nonzero,
    wherever it lies.
   */
  lemma BurstIsSeen(poly: bv16, e: seq<bool>, start: nat, stop: nat)
    requires Top(poly) && start <= stop <= |e| && stop - start <= 16
    requires AllFalse(e[..start]) && AllFalse(e[stop..])
    requires !AllFalse(e)
    ensures Feed(poly, 0, e) != 0
  {
    hide Top, Value, Feed;
    var z, w, t := e[..start], e[start..stop], e[stop..];
    assert e == z + (w + t);
    FeedConcat(poly, 0, z, w + t);
    FeedZeros(poly, 0, z);
    FeedConcat(poly, 0, w, t);
    FeedToZero(poly, 0, w);
    ValueZero(w);
    var i :| 0 <= i < |e| && e[i];
    assert start <= i < stop;
    assert w[i - start];
    FeedZeros(poly, Feed(poly, 0, w), t);
  }

  lemma {:induction false} CrcConcat(poly: bv16, c: bv16, a: seq<bv8>, b: seq<bv8>)
    ensures Crc(poly, c, a + b) == Crc(poly, Crc(poly, c, a), b)
  {
    hide Update;
    if b == [] {
      assert a + b == a;
    } else {
      assert (a + b)[..|a + b| - 1] == a + b[..|b| - 1];
      CrcConcat(poly, c, a, b[..|b| - 1]);
    }
  }

  lemma {:induction false} StepsLinear(poly: bv16, a: bv16, b: bv16, n: nat)
    ensures Steps(poly, Xor(a, b), n) == Xor(Steps(poly, a, n), Steps(poly, b, n))
  {
    hide Step, Xor;
    if n > 0 {
      StepsLinear(poly, a, b, n - 1);
      StepLinear(poly, Steps(poly, a, n - 1), Steps(poly, b, n - 1));
    }
  }

  // ---------------------------------------------------------------------------------------
  // Undoing eight steps

  function Twices(x: bv16, n: nat): bv16 {
    if n == 0 then x else Twice(Twices(x, n - 1))
  }

  /** The first `n` doublings of `x` lose no bit. */
  ghost predicate NoCarry(x: bv16, n: nat) {
    forall k: nat :: k < n ==> !Top(Twices(x, k))
  }

  lemma {:induction false} StepsUndoTwices(poly: bv16, x: bv16, n: nat)
    requires Top(poly) && NoCarry(x, n)
    ensures Steps(poly, Twices(x, n), n) == x
  {
    hide Top, Twice, Step;
    if n > 0 {
      StepBack(poly, Twices(x, n), Twices(x, n - 1));
      StepsFromFront(poly, Twices(x, n), n);
      StepsUndoTwices(poly, x, n - 1);
    }
  }

  lemma ByteTwices(h: bv8)
    ensures Twices(h as bv16, 8) == (h as bv16) << 8
    ensures NoCarry(h as bv16, 8)
  {
    hide Twice, Top;
    var x := h as bv16;
    var x1 := Twice(x);
    var x2 := Twice(x1);
    var x3 := Twice(x2);
    var x4 := Twice(x3);
    var x5 := Twice(x4);
    var x6 := Twice(x5);
    var x7 := Twice(x6);
    assert Twices(x, 0) == x && Twices(x, 1) == x1 && Twices(x, 2) == x2;
    assert Twices(x, 3) == x3 && Twices(x, 4) == x4;
    assert Twices(x, 5) == x5 && Twices(x, 6) == x6;
    assert Twices(x, 7) == x7 && Twices(x, 8) == Twice(x7);
    LowNibbles(h);
    HighNibbles(h);
  }

  lemma LowNibbles(h: bv8)
    ensures var x := h as bv16;
      && !Top(x) && !Top(Twice(x)) && !Top(Twice(Twice(x))) && !Top(Twice(Twice(Twice(x))))
      && Twice(Twice(Twice(Twice(x)))) == x << 4
  {
  }

  lemma HighNibbles(h: bv8)
    ensures var x := (h as bv16) << 4;
      && !Top(x) && !Top(Twice(x)) && !Top(Twice(Twice(x))) && !Top(Twice(Twice(Twice(x))))
      && Twice(Twice(Twice(Twice(x)))) == (h as bv16) << 8
  {
  }

  lemma PolyTop()
    ensures Top(MODBUS_POLY)
  {
  }

  // ---------------------------------------------------------------------------------------
  // Eight steps at once

  /** Eight steps of the bit-serial CRC. */
  function Eight(x: bv16): bv16 {
    Step(MODBUS_POLY, Step(MODBUS_POLY, Step(MODBUS_POLY, Step(MODBUS_POLY,
      Step(MODBUS_POLY, Step(MODBUS_POLY, Step(MODBUS_POLY, Step(MODBUS_POLY, x))))))))
  }

  lemma StepsIsEight(x: bv16)
    ensures Steps(MODBUS_POLY, x, 8) == Eight(x)
  {
    hide Step;
    var x4 := Steps(MODBUS_POLY, x, 4);
    assert Steps(MODBUS_POLY, x, 2) == Step(MODBUS_POLY, Steps(MODBUS_POLY, x, 1));
    assert x4 == Step(MODBUS_POLY, Steps(MODBUS_POLY, x, 3));
    assert Steps(MODBUS_POLY, x, 6) == Step(MODBUS_POLY, Steps(MODBUS_POLY, x, 5));
  }

  lemma {:induction false} StepsAdd(poly: bv16, c: bv16, m: nat, n: nat)
    ensures Steps(poly, c, m + n) == Steps(poly, Steps(poly, c, m), n)
  {
    hide Step;
    if n > 0 {
      StepsAdd(poly, c, m, n - 1);
    }
  }

  /** Bits that do not differ just step the register. */
  lemma {:induction false} FeedIsSteps(poly: bv16, c: bv16, z: seq<bool>)
    requires AllFalse(z)
    ensures Feed(poly, c, z) == Steps(poly, c, |z|)
    decreases |z|
  {
    hide Step, Xor;
    if z != [] {
      assert !z[0] && AllFalse(z[1..]);
      XorZero(c);
      FeedIsSteps(poly, Step(poly, c), z[1..]);
      StepsFromFront(poly, c, |z|);
    }
  }

  // ---------------------------------------------------------------------------------------
  // Parity

  /** An odd number of the lowest `n` bits is set. */
  predicate OddBelow(c: bv16, n: nat)
    decreases n
  {
    if n == 0 then false else Odd(c) != OddBelow(Half(c), n - 1)
  }

  /** An odd number of bits is set. */
  predicate OddParity(c: bv16) {
    OddBelow(c, 16)
  }

  lemma {:induction false} BelowXor(a: bv16, b: bv16, n: nat)
    ensures OddBelow(Xor(a, b), n) == (OddBelow(a, n) != OddBelow(b, n))
    decreases n
  {
    hide Xor, Half, Odd;
    if n > 0 {
      OddXor(a, b);
      HalfXor(a, b);
      BelowXor(Half(a), Half(b), n - 1);
    }
  }

  lemma {:induction false} BelowMore(c: bv16, n: nat)
    ensures OddBelow(c, n + 1) == (OddBelow(c, n) != Odd(ShiftedDown(c, n)))
    decreases n
  {
    hide Half, Odd;
    if n > 0 {
      BelowMore(Half(c), n - 1);
    }
  }

  lemma ParityXor(a: bv16, b: bv16)
    ensures OddParity(Xor(a, b)) == (OddParity(a) != OddParity(b))
  {
    hide OddBelow, Xor;
    BelowXor(a, b, 16);
  }

  lemma WordShiftedOut(c: bv16)
    ensures ShiftedDown(c, 16) == 0
  {
    hide Half;
    var c4 := Half(Half(Half(Half(c))));
    var c8 := Half(Half(Half(Half(c4))));
    var c12 := Half(Half(Half(Half(c8))));
    assert ShiftedDown(c, 16) == ShiftedDown(Half(Half(c)), 14) == ShiftedDown(c4, 12);
    assert ShiftedDown(c4, 12) == ShiftedDown(Half(Half(c4)), 10) == ShiftedDown(c8, 8);
    assert ShiftedDown(c8, 8) == ShiftedDown(Half(Half(c8)), 6) == ShiftedDown(c12, 4);
    assert ShiftedDown(c12, 4) == ShiftedDown(Half(Half(c12)), 2) == ShiftedDown(Half(Half(Half(Half(c12)))), 0);
    SixteenHalves(c);
  }

  lemma SixteenHalves(c: bv16)
    ensures var c4 := Half(Half(Half(Half(c))));
      var c8 := Half(Half(Half(Half(c4))));
      var c12 := Half(Half(Half(Half(c8))));
      Half(Half(Half(Half(c12)))) == 0
  {
  }

  lemma PolyParity()
    ensures OddParity(MODBUS_POLY)
  {
    PolyBits();
    assert OddBelow(0x0A00, 12) == OddBelow(0x0500, 11) == OddBelow(0x0280, 10) == OddBelow(0x0140, 9);
    assert OddBelow(0x0140, 9) == OddBelow(0x00A0, 8) == OddBelow(0x0050, 7) == OddBelow(0x0028, 6);
    assert OddBelow(0x0028, 6) == OddBelow(0x0014, 5) == OddBelow(0x000A, 4) == OddBelow(0x0005, 3);
  }

  lemma PolyBits()
    ensures OddBelow(MODBUS_POLY, 16) == !OddBelow(0x0A00, 12)
  {
    assert OddBelow(0xA001, 16) == !OddBelow(0x5000, 15);
    assert OddBelow(0x5000, 15) == OddBelow(0x2800, 14) == OddBelow(0x1400, 13);
  }

  /** The generator has an even number of terms, so a step keeps the parity. */
  lemma ParityStep(c: bv16)
    ensures OddParity(Step(MODBUS_POLY, c)) == OddParity(c)
  {
    hide Xor, Half, Odd;
    WordShiftedOut(c);
    ZeroIsEven();
    BelowMore(Half(c), 15);
    BelowXor(Half(c), MODBUS_POLY, 16);
    PolyParity();
  }

  lemma ZeroIsEven()
    ensures !Odd(0) && Half(0) == 0
  {
  }

  lemma ParityLow(b: bool)
    ensures OddParity(Low(b)) == b
  {
    hide Half, Odd;
    LowHalf(b);
    ZeroBelow(15);
  }

  lemma LowHalf(b: bool)
    ensures Odd(Low(b)) == b && Half(Low(b)) == 0
  {
  }

  lemma {:induction false} ZeroBelow(n: nat)
    ensures !OddBelow(0, n)
  {
    hide Half, Odd;
    ZeroIsEven();
    if n > 0 {
      ZeroBelow(n - 1);
    }
  }

  /** The number of bits set. */
  function Flips(e: seq<bool>): nat
    decreases |e|
  {
    if e == [] then 0 else (if e[0] then 1 else 0) + Flips(e[1..])
  }

  lemma {:induction false} FeedParity(c: bv16, e: seq<bool>)
    ensures OddParity(Feed(MODBUS_POLY, c, e)) == (OddParity(c) != (Flips(e) % 2 == 1))
    decreases |e|
  {
    hide OddParity, Step, Xor, Low;
    if e != [] {
      ParityXor(c, Low(e[0]));
      ParityLow(e[0]);
      ParityStep(Xor(c, Low(e[0])));
      FeedParity(Step(MODBUS_POLY, Xor(c, Low(e[0]))), e[1..]);
    }
  }
}
