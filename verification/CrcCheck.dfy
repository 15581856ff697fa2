/**
  The configurable CRC of `crc_check` for widths 8 and 16, which shifts left and reflects its
  input and output, and the 1-Wire CRC-8. With reflection on both sides the left-shifting form
  is the right-shifting one under the reflected polynomial: that is how it meets `modbusCRC`
  and `onewire_crc8`.
 */
module CrcCheck {
  import opened Words
  import opened Crc16

  /** `reflected_data` before its final shift: all 32 bits in reverse. */
  function Reverse32(data: bv32): bv32 {
    var d1 := ((data & 0xffff0000) >> 16) | ((data & 0x0000ffff) << 16);
    var d2 := ((d1 & 0xff00ff00) >> 8) | ((d1 & 0x00ff00ff) << 8);
    var d3 := ((d2 & 0xf0f0f0f0) >> 4) | ((d2 & 0x0f0f0f0f) << 4);
    var d4 := ((d3 & 0xcccccccc) >> 2) | ((d3 & 0x33333333) << 2);
    ((d4 & 0xaaaaaaaa) >> 1) | ((d4 & 0x55555555) << 1)
  }

  function Reflect16(x: bv16): bv16 {
    ((Reverse32(x as bv32) >> 16) & 0xffff) as bv16
  }

  function Reflect8(x: bv8): bv8 {
    ((Reverse32(x as bv32) >> 24) & 0xff) as bv8
  }

  lemma R16Xor(a: bv16, b: bv16)
    ensures Reflect16(Xor(a, b)) == Xor(Reflect16(a), Reflect16(b))
  {
  }

  lemma R16Twice(c: bv16)
    ensures Reflect16(Twice(c)) == Half(Reflect16(c))
  {
    hide Reflect16, Reverse16, Twice, Half;
    ReflectIsReverse(c);
    ReflectIsReverse(Twice(c));
    ReverseTwice(c);
  }

  /** The same reversal in 16 bits. */
  function Reverse16(x: bv16): bv16 {
    var d2 := (x >> 8) | (x << 8);
    var d3 := ((d2 & 0xf0f0) >> 4) | ((d2 & 0x0f0f) << 4);
    var d4 := ((d3 & 0xcccc) >> 2) | ((d3 & 0x3333) << 2);
    ((d4 & 0xaaaa) >> 1) | ((d4 & 0x5555) << 1)
  }

  lemma ReflectIsReverse(x: bv16)
    ensures Reflect16(x) == Reverse16(x)
  {
  }

  lemma ReverseTwice(c: bv16)
    ensures Reverse16(Twice(c)) == Half(Reverse16(c))
  {
    hide Reverse16, Twice, Half;
    ReverseTwiceLow(c);
    ReverseTwiceHigh(c);
    SameHalves(Reverse16(Twice(c)), Half(Reverse16(c)));
  }

  lemma ReverseTwiceLow(c: bv16)
    ensures Reverse16(Twice(c)) & 0xFF == Half(Reverse16(c)) & 0xFF
  {
  }

  lemma ReverseTwiceHigh(c: bv16)
    ensures Reverse16(Twice(c)) & 0xFF00 == Half(Reverse16(c)) & 0xFF00
  {
  }

  lemma SameHalves(x: bv16, y: bv16)
    requires x & 0xFF == y & 0xFF && x & 0xFF00 == y & 0xFF00
    ensures x == y
  {
  }

  lemma R16Top(c: bv16)
    ensures Top(c) <==> Odd(Reflect16(c))
  {
  }

  lemma R16Byte(d: bv8)
    ensures Reflect16(InputByte(d, true)) == d as bv16
  {
  }

  // ---------------------------------------------------------------------------------------
  // Width 16

  function InputByte(d: bv8, refin: bool): bv16 {
    ((if refin then Reflect8(d) else d) as bv16) << 8
  }

  function LeftStep(poly: bv16, c: bv16): bv16 {
    if Top(c) then Xor(Twice(c), poly) else Twice(c)
  }

  function LeftSteps(poly: bv16, c: bv16, n: nat): bv16 {
    if n == 0 then c else LeftStep(poly, LeftSteps(poly, c, n - 1))
  }

  function LeftCrc(poly: bv16, c: bv16, refin: bool, data: seq<bv8>): bv16 {
    if data == [] then c
    else
      var n := |data| - 1;
      LeftSteps(poly, Xor(LeftCrc(poly, c, refin, data[..n]), InputByte(data[n], refin)), 8)
  }

  lemma MixInput(c: bv16, d: bv8, refin: bool)
    ensures Xor(c, InputByte(d, refin)) == c ^ (((if refin then Reflect8(d) else d) as bv16) << 8)
  {
    hide Reflect8;
  }

  lemma XorDef(a: bv16, b: bv16)
    ensures Xor(a, b) == a ^ b
  {
  }

  /** One turn of the inner loop. */
  method LeftShift(poly: bv16, c: bv16) returns (crc: bv16)
    ensures crc == LeftStep(poly, c)
  {
    crc := c;
    if crc & 0x8000 != 0 {
      crc := crc << 1;
      crc := crc ^ poly;
    } else {
      crc := crc << 1;
    }
  }

  method CheckCrc16(poly: bv16, init: bv16, refin: bool, refout: bool, xorOut: bv16, buffer: seq<bv8>)
    returns (crc: bv16)
    ensures var c := LeftCrc(poly, init, refin, buffer); crc == Xor(if refout then Reflect16(c) else c, xorOut)
  {
    hide LeftStep, Reflect8, Reflect16, InputByte, Xor;
    crc := init;
    for k := 0 to |buffer|
      invariant crc == LeftCrc(poly, init, refin, buffer[..k])
    {
      ghost var mixed := Xor(crc, InputByte(buffer[k], refin));
      MixInput(crc, buffer[k], refin);
      if refin {
        crc := crc ^ ((Reflect8(buffer[k]) as bv16) << 8);
      } else {
        crc := crc ^ ((buffer[k] as bv16) << 8);
      }
      for i := 0 to 8
        invariant crc == LeftSteps(poly, mixed, i)
      {
        crc := LeftShift(poly, crc);
      }
      assert buffer[..k + 1][..k] == buffer[..k];
    }
    assert buffer[..|buffer|] == buffer;
    if refout {
      crc := Reflect16(crc);
    }
    XorDef(crc, xorOut);
    crc := crc ^ xorOut;
  }

  lemma ReflectStep(poly: bv16, c: bv16)
    ensures Reflect16(LeftStep(poly, c)) == Step(Reflect16(poly), Reflect16(c))
  {
    hide Reflect16, Xor, Twice, Half, Top, Odd;
    R16Top(c);
    R16Twice(c);
    R16Xor(Twice(c), poly);
  }

  lemma {:induction false} ReflectSteps(poly: bv16, c: bv16, n: nat)
    ensures Reflect16(LeftSteps(poly, c, n)) == Steps(Reflect16(poly), Reflect16(c), n)
  {
    hide Reflect16, LeftStep, Step;
    if n > 0 {
      ReflectSteps(poly, c, n - 1);
      ReflectStep(poly, LeftSteps(poly, c, n - 1));
    }
  }

  /**
    For every polynomial, start value and message: the reflected left-shifting CRC is the
    right-shifting one under the reflected polynomial and start value.
   */
  lemma {:induction false} ReflectedCrc(poly: bv16, c: bv16, data: seq<bv8>)
    ensures Reflect16(LeftCrc(poly, c, true, data)) == Crc(Reflect16(poly), Reflect16(c), data)
  {
    hide Reflect16, LeftStep, Step, Xor, InputByte, Steps, LeftSteps;
    if data != [] {
      var n := |data| - 1;
      var before, d := LeftCrc(poly, c, true, data[..n]), InputByte(data[n], true);
      ReflectedCrc(poly, c, data[..n]);
      R16Byte(data[n]);
      R16Xor(before, d);
      ReflectSteps(poly, Xor(before, d), 8);
    }
  }

  lemma ReflectModbus()
    ensures Reflect16(0x8005) == MODBUS_POLY && Reflect16(0xFFFF) == MODBUS_INIT
  {
  }

  /** `crc_check` with the MODBUS parameters is `modbusCRC`. */
  method CrcCheckModbus(buffer: seq<bv8>) returns (crc: bv16)
    ensures crc == Crc(MODBUS_POLY, MODBUS_INIT, buffer)
  {
    hide Reflect16, LeftCrc, Crc, Xor;
    crc := CheckCrc16(0x8005, 0xFFFF, true, true, 0x0000, buffer);
    ReflectedCrc(0x8005, 0xFFFF, buffer);
    ReflectModbus();
    XorZero(Crc(MODBUS_POLY, MODBUS_INIT, buffer));
  }

  // ---------------------------------------------------------------------------------------
  // Width 8

  function Mix8(a: bv8, b: bv8): bv8 {
    a ^ b
  }

  function LeftStep8(poly: bv8, c: bv8): bv8 {
    if c & 0x80 != 0 then (c << 1) ^ poly else c << 1
  }

  function LeftSteps8(poly: bv8, c: bv8, n: nat): bv8 {
    if n == 0 then c else LeftStep8(poly, LeftSteps8(poly, c, n - 1))
  }

  function LeftCrc8(poly: bv8, c: bv8, refin: bool, data: seq<bv8>): bv8 {
    if data == [] then c
    else
      var n := |data| - 1;
      var d := if refin then Reflect8(data[n]) else data[n];
      LeftSteps8(poly, Mix8(LeftCrc8(poly, c, refin, data[..n]), d), 8)
  }

  method CheckCrc8(poly: bv8, init: bv8, refin: bool, refout: bool, xorOut: bv8, buffer: seq<bv8>)
    returns (crc: bv8)
    ensures var c := LeftCrc8(poly, init, refin, buffer); crc == Mix8(if refout then Reflect8(c) else c, xorOut)
  {
    hide Reflect8;
    crc := init;
    for k := 0 to |buffer|
      invariant crc == LeftCrc8(poly, init, refin, buffer[..k])
    {
      ghost var mixed := Mix8(crc, if refin then Reflect8(buffer[k]) else buffer[k]);
      if refin {
        crc := crc ^ Reflect8(buffer[k]);
      } else {
        crc := crc ^ buffer[k];
      }
      for i := 0 to 8
        invariant crc == LeftSteps8(poly, mixed, i)
      {
        if crc & 0x80 != 0 {
          crc := crc << 1;
          crc := crc ^ poly;
        } else {
          crc := crc << 1;
        }
      }
      assert buffer[..k + 1][..k] == buffer[..k];
    }
    assert buffer[..|buffer|] == buffer;
    if refout {
      crc := Reflect8(crc);
    }
    crc := crc ^ xorOut;
  }

  /** The step of the 1-Wire CRC-8: xor 0x18, shift right, set the top bit. */
  function RightStep8(c: bv8): bv8 {
    if c & 0x01 != 0 then ((c ^ 0x18) >> 1) | 0x80 else c >> 1
  }

  function RightSteps8(c: bv8, n: nat): bv8 {
    if n == 0 then c else RightStep8(RightSteps8(c, n - 1))
  }

  function OneWireCrc(data: seq<bv8>): bv8 {
    if data == [] then 0
    else RightSteps8(Mix8(OneWireCrc(data[..|data| - 1]), data[|data| - 1]), 8)
  }

  /** `onewire_crc8`, with its local `pDataBuf` starting at 0. */
  method OneWireCrc8(serial: seq<bv8>) returns (crc8: bv8)
    ensures crc8 == OneWireCrc(serial)
  {
    crc8 := 0x00;
    var pDataBuf: bv8 := 0;
    for k := 0 to |serial|
      invariant crc8 == OneWireCrc(serial[..k]) && pDataBuf == 0
    {
      ghost var mixed := Mix8(crc8, serial[k]);
      crc8 := crc8 ^ serial[k];
      for i := 0 to 8
        invariant crc8 == RightSteps8(mixed, i) && pDataBuf == 0
      {
        if (crc8 ^ pDataBuf) & 0x01 != 0 {
          crc8 := crc8 ^ 0x18;
          crc8 := crc8 >> 1;
          crc8 := crc8 | 0x80;
        } else {
          crc8 := crc8 >> 1;
        }
        pDataBuf := pDataBuf >> 1;
      }
      assert serial[..k + 1][..k] == serial[..k];
    }
    assert serial[..|serial|] == serial;
  }

  lemma ReflectStep8(c: bv8)
    ensures Reflect8(LeftStep8(0x31, c)) == RightStep8(Reflect8(c))
  {
  }

  lemma Reflect8Mix(a: bv8, b: bv8)
    ensures Reflect8(Mix8(a, Reflect8(b))) == Mix8(Reflect8(a), b)
  {
  }

  lemma {:induction false} ReflectSteps8(c: bv8, n: nat)
    ensures Reflect8(LeftSteps8(0x31, c, n)) == RightSteps8(Reflect8(c), n)
  {
    hide Reflect8, LeftStep8, RightStep8;
    if n > 0 {
      ReflectSteps8(c, n - 1);
      ReflectStep8(LeftSteps8(0x31, c, n - 1));
    }
  }

  /** `crc_check` with the MAXIM parameters is the 1-Wire CRC, for every message. */
  lemma {:induction false} MaximIsOneWire(data: seq<bv8>)
    ensures Reflect8(LeftCrc8(0x31, 0, true, data)) == OneWireCrc(data)
  {
    hide Reflect8, LeftSteps8, RightSteps8, Mix8;
    if data == [] {
      ReflectZero();
    } else {
      var n := |data| - 1;
      var before := LeftCrc8(0x31, 0, true, data[..n]);
      MaximIsOneWire(data[..n]);
      Reflect8Mix(before, data[n]);
      ReflectSteps8(Mix8(before, Reflect8(data[n])), 8);
    }
  }

  lemma ReflectZero()
    ensures Reflect8(0) == 0
  {
  }
}
