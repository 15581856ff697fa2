/**
  Offset and range of the capacitance sensor: greedy coding over non-binary weights, and the
  two configuration registers. Capacitances are real numbers, in picofarad.
 */
module Capacitance {
  import opened RomBytes

  const COS_FACTOR: seq<real> := [0.5, 1.0, 2.0, 4.0, 8.0, 16.0, 32.0, 40.0]
  const CFB_FACTOR: seq<real> := [2.0, 4.0, 8.0, 16.0, 32.0, 46.0]
  const CFB_BASE := 2.0
  const CFB_SCALE := 0.507 / 3.6

  /** The capacitors that the low `n` bits of the code switch on, together. */
  function Total(weights: seq<real>, code: bv8, n: nat): real
    requires n <= |weights| <= 8
  {
    if n == 0 then 0.0 else Total(weights, code, n - 1) + (if Bit(code, n - 1) then weights[n - 1] else 0.0)
  }

  function OffsetOf(code: bv8): real {
    Total(COS_FACTOR, code, 8)
  }

  function RangeOf(code: bv8): real {
    CFB_SCALE * (CFB_BASE + Total(CFB_FACTOR, code, 6))
  }

  /**
    The weights: each of the first seven is twice the one before, and the last makes up 103.5
    with them; of the range, each of the first five, and the last makes up 108.
   */
  lemma WeightsDouble()
    ensures |COS_FACTOR| == 8 && COS_FACTOR[0] == 0.5
    ensures forall k :: 0 <= k < 6 ==> COS_FACTOR[k + 1] == 2.0 * COS_FACTOR[k]
    ensures Sum(COS_FACTOR, 7) + COS_FACTOR[7] == 103.5
    ensures |CFB_FACTOR| == 6 && CFB_FACTOR[0] == 2.0 && CFB_BASE == 2.0
    ensures forall k :: 0 <= k < 4 ==> CFB_FACTOR[k + 1] == 2.0 * CFB_FACTOR[k]
    ensures Sum(CFB_FACTOR, 5) + CFB_FACTOR[5] == 108.0
  {
    Sums();
  }

  /** A weight that is switched on by bit `k` of the code. */
  function On(code: bv8, k: nat, weight: real): real
    requires k < 8
  {
    if (code >> k) & 1 == 1 then weight else 0.0
  }

  lemma OneMoreOn(weights: seq<real>, code: bv8, k: nat)
    requires k < |weights| <= 8
    ensures Total(weights, code, k + 1) == Total(weights, code, k) + On(code, k, weights[k])
  {
    hide Bit;
    BitShift(code, k);
  }

  lemma NothingYet(weights: seq<real>, code: bv8)
    requires |weights| <= 8
    ensures Total(weights, code, 0) == 0.0
  {
  }

  /** The offset, capacitor by capacitor. */
  lemma OffsetIs(code: bv8)
    ensures OffsetOf(code) ==
      On(code, 7, 40.0) + On(code, 6, 32.0) + On(code, 5, 16.0) + On(code, 4, 8.0)
      + On(code, 3, 4.0) + On(code, 2, 2.0) + On(code, 1, 1.0) + On(code, 0, 0.5)
  {
    hide Total, On;
    NothingYet(COS_FACTOR, code);
    OneMoreOn(COS_FACTOR, code, 0);
    OneMoreOn(COS_FACTOR, code, 1);
    OneMoreOn(COS_FACTOR, code, 2);
    OneMoreOn(COS_FACTOR, code, 3);
    OneMoreOn(COS_FACTOR, code, 4);
    OneMoreOn(COS_FACTOR, code, 5);
    OneMoreOn(COS_FACTOR, code, 6);
    OneMoreOn(COS_FACTOR, code, 7);
  }

  /** The range, capacitor by capacitor. */
  lemma RangeIs(code: bv8)
    ensures RangeOf(code) == 0.507 / 3.6 *
      (On(code, 5, 46.0) + On(code, 4, 32.0) + On(code, 3, 16.0)
       + On(code, 2, 8.0) + On(code, 1, 4.0) + On(code, 0, 2.0) + 2.0)
  {
    hide Total, On;
    NothingYet(CFB_FACTOR, code);
    OneMoreOn(CFB_FACTOR, code, 0);
    OneMoreOn(CFB_FACTOR, code, 1);
    OneMoreOn(CFB_FACTOR, code, 2);
    OneMoreOn(CFB_FACTOR, code, 3);
    OneMoreOn(CFB_FACTOR, code, 4);
    OneMoreOn(CFB_FACTOR, code, 5);
  }

  /** Switching on one more capacitor adds its weight. */
  lemma {:induction false} SwitchOn(weights: seq<real>, code: bv8, i: nat, n: nat)
    requires i < |weights| <= 8 && n <= |weights| && !Bit(code, i)
    ensures Total(weights, code | Mask(i), n) == Total(weights, code, n) + (if i < n then weights[i] else 0.0)
  {
    hide Bit, Mask;
    if n > 0 {
      SwitchOn(weights, code, i, n - 1);
      PutBit(code, i, n - 1);
    }
  }

  lemma {:induction false} NothingOn(weights: seq<real>, n: nat)
    requires n <= |weights| <= 8
    ensures Total(weights, 0, n) == 0.0
  {
    hide Bit;
    ZeroByte(0);
    if n > 0 {
      NothingOn(weights, n - 1);
    }
  }

  function Sum(weights: seq<real>, n: nat): real
    requires n <= |weights|
  {
    if n == 0 then 0.0 else Sum(weights, n - 1) + weights[n - 1]
  }

  ghost predicate AllOn(code: bv8, from: nat, n: nat) {
    forall k: nat :: from <= k < n && k < 8 ==> Bit(code, k)
  }

  ghost predicate AllOff(code: bv8, from: nat, n: nat) {
    forall k: nat :: from <= k < n && k < 8 ==> !Bit(code, k)
  }

  lemma {:induction false} AtMostSum(weights: seq<real>, code: bv8, n: nat)
    requires n <= |weights| <= 8 && forall i :: 0 <= i < |weights| ==> weights[i] > 0.0
    ensures Total(weights, code, n) <= Sum(weights, n)
    ensures AllOn(code, 0, n) ==> Total(weights, code, n) == Sum(weights, n)
  {
    hide Bit;
    if n > 0 {
      AtMostSum(weights, code, n - 1);
    }
  }

  lemma {:induction false} SumNotNegative(weights: seq<real>, n: nat)
    requires n <= |weights| && forall i :: 0 <= i < |weights| ==> weights[i] > 0.0
    ensures 0.0 <= Sum(weights, n)
  {
    if n > 0 {
      SumNotNegative(weights, n - 1);
    }
  }

  lemma SetOne(code: bv8, i: nat, n: nat)
    requires i < n <= 8
    ensures AllOff(code, 0, i + 1) ==> AllOff(code | Mask(i), 0, i)
    ensures AllOff(code, n, 8) ==> AllOff(code | Mask(i), n, 8)
    ensures AllOn(code, i + 1, n) ==> AllOn(code | Mask(i), i, n)
  {
    hide Bit, Mask;
    var after := code | Mask(i);
    forall k: nat | k < 8 ensures Bit(after, k) <==> k == i || Bit(code, k) {
      PutBit(code, i, k);
    }
  }

  /** Greedy coding: from the largest weight down, every capacitor that still fits is switched on. */
  method Greedy(weights: seq<real>, ghost limits: seq<real>, capacity: real) returns (code: bv8, ghost rest: real)
    requires |weights| <= 8 && |limits| == |weights| + 1 && Chain(weights, limits)
    ensures Total(weights, code, |weights|) + rest == capacity
    ensures 0.0 <= capacity ==> 0.0 <= rest
    ensures capacity < limits[|weights|] ==> rest < limits[0]
    ensures capacity < limits[0] ==> code == 0
    ensures AllOff(code, |weights|, 8)
    ensures capacity >= Sum(weights, |weights|) ==> AllOn(code, 0, |weights|)
  {
    hide Bit, Mask, AllOn;
    var i: nat := |weights|;
    var left := capacity;
    code := 0;
    NothingOn(weights, |weights|);
    ZeroByte(0);
    NoneOn(|weights|);
    while i > 0
      invariant i <= |weights|
      invariant Total(weights, code, |weights|) + left == capacity
      invariant 0.0 <= capacity ==> 0.0 <= left
      invariant capacity < limits[|weights|] ==> left < limits[i]
      invariant AllOff(code, 0, i) && AllOff(code, |weights|, 8)
      invariant capacity >= Sum(weights, |weights|) ==> AllOn(code, i, |weights|) && left >= Sum(weights, i)
      invariant capacity < limits[0] ==> code == 0 && left < limits[0]
    {
      i := i - 1;
      SumNotNegative(weights, i);
      if left >= weights[i] {
        SetOne(code, i, |weights|);
        SwitchOn(weights, code, i, |weights|);
        code := code | Mask(i);
        left := left - weights[i];
      }
    }
    rest := left;
  }

  lemma NoneOn(n: nat)
    ensures AllOff(0, 0, n) && AllOff(0, n, 8) && AllOn(0, n, n)
  {
    hide Bit;
    ZeroByte(0);
  }

  /** Below limit `i + 1`, one greedy step ends below limit `i`; no step is skipped above the last limit. */
  ghost predicate Chain(weights: seq<real>, limits: seq<real>)
    requires |limits| == |weights| + 1
  {
    && (forall i: nat :: i < |weights| ==> weights[i] <= limits[i] && limits[i + 1] - weights[i] <= limits[i])
    && (forall i: nat :: i < |weights| ==> 0.0 < limits[0] <= weights[i])
  }

  const COS_LIMITS: seq<real> := [0.5, 1.0, 2.0, 4.0, 8.0, 16.0, 32.0, 64.0, 104.0]
  const CFB_LIMITS: seq<real> := [2.0, 4.0, 8.0, 16.0, 32.0, 64.0, 110.0]

  lemma BothChains()
    ensures Chain(COS_FACTOR, COS_LIMITS) && Chain(CFB_FACTOR, CFB_LIMITS)
  {
  }

  lemma Sums()
    ensures Sum(COS_FACTOR, 8) == 103.5 && Sum(CFB_FACTOR, 6) == 108.0
  {
    assert Sum(COS_FACTOR, 2) == 1.5;
    assert Sum(COS_FACTOR, 4) == 7.5;
    assert Sum(COS_FACTOR, 6) == 31.5;
    assert Sum(CFB_FACTOR, 2) == 6.0;
    assert Sum(CFB_FACTOR, 4) == 30.0;
  }

  /** captocoscfg: the largest reachable offset at most `osCap`, to the half picofarad. */
  method CapToCosCfg(osCap: real) returns (code: bv8)
    ensures osCap < 0.5 ==> OffsetOf(code) == 0.0
    ensures 0.0 <= osCap < 104.0 ==> OffsetOf(code) <= osCap < OffsetOf(code) + 0.5
    ensures osCap >= 103.5 ==> OffsetOf(code) == 103.5
  {
    hide Bit, Total, Sum, Chain, AllOn, AllOff;
    BothChains();
    ghost var rest;
    code, rest := Greedy(COS_FACTOR, COS_LIMITS, osCap);
    NothingOn(COS_FACTOR, 8);
    AtMostSum(COS_FACTOR, code, 8);
    Sums();
  }

  /** coscfgtocapoffset. */
  method CosCfgToCapOffset(osCfg: bv8) returns (offset: real)
    ensures offset == OffsetOf(osCfg)
  {
    hide Bit;
    offset := 0.0;
    var cfg, i := osCfg, 0;
    while i < 8
      invariant i <= 8 && offset == Total(COS_FACTOR, osCfg, i)
      invariant forall k: nat :: k + i < 8 ==> Bit(cfg, k) == Bit(osCfg, k + i)
    {
      LowBit(cfg);
      assert Bit(cfg, 0) == Bit(osCfg, 0 + i);
      if cfg & 0x01 != 0 {
        offset := offset + COS_FACTOR[i];
      }
      ghost var before := cfg;
      cfg := cfg >> 1;
      i := i + 1;
      forall k: nat | k + i < 8 ensures Bit(cfg, k) == Bit(osCfg, k + i) {
        ShiftedBits(before, k);
        assert Bit(before, k + 1) == Bit(osCfg, k + 1 + (i - 1));
      }
    }
  }

  lemma LowBit(b: bv8)
    ensures b & 0x01 != 0 <==> Bit(b, 0)
  {
  }

  lemma ShiftedBits(b: bv8, k: nat)
    requires k < 7
    ensures Bit(b >> 1, k) == Bit(b, k + 1)
  {
  }

  /** Every reachable offset is a whole number of half picofarads. */
  lemma {:induction false} HalfSteps(code: bv8, n: nat) returns (k: int)
    requires n <= 8
    ensures Total(COS_FACTOR, code, n) == 0.5 * (k as real)
  {
    hide Bit;
    if n == 0 {
      k := 0;
    } else {
      k := HalfSteps(code, n - 1);
      k := k + if !Bit(code, n - 1) then 0 else [1, 2, 4, 8, 16, 32, 64, 80][n - 1];
    }
  }

  /** Coding a reachable offset gives that offset back, though maybe by another code. */
  method Recode(code: bv8) returns (again: bv8)
    ensures OffsetOf(again) == OffsetOf(code)
  {
    hide OffsetOf;
    Bounds(code);
    var offset := CosCfgToCapOffset(code);
    again := CapToCosCfg(offset);
    SameHalves(code, again);
  }

  lemma SameHalves(code: bv8, again: bv8)
    requires OffsetOf(again) <= OffsetOf(code) < OffsetOf(again) + 0.5
    ensures OffsetOf(again) == OffsetOf(code)
  {
    hide Total;
    var j := HalfSteps(code, 8);
    var k := HalfSteps(again, 8);
    Halves(j, k);
  }

  lemma Halves(j: int, k: int)
    requires 0.5 * (k as real) <= 0.5 * (j as real) < 0.5 * (k as real) + 0.5
    ensures j == k
  {
    assert ((j - k) as real) == (j as real) - (k as real);
  }

  lemma {:induction false} NotNegative(weights: seq<real>, code: bv8, n: nat)
    requires n <= |weights| <= 8 && forall i :: 0 <= i < |weights| ==> weights[i] > 0.0
    ensures 0.0 <= Total(weights, code, n)
  {
    hide Bit;
    if n > 0 {
      NotNegative(weights, code, n - 1);
    }
  }

  /** caprangetocfbcfg: the largest reachable range at most `fsCap`, to one step of the smallest capacitor. */
  method CapRangeToCfbCfg(fsCap: real) returns (code: bv8)
    ensures LegalRange(code)
    ensures fsCap < 4.0 * CFB_SCALE ==> RangeOf(code) == 2.0 * CFB_SCALE
    ensures 2.0 * CFB_SCALE <= fsCap < 112.0 * CFB_SCALE ==> RangeOf(code) <= fsCap < RangeOf(code) + 2.0 * CFB_SCALE
    ensures fsCap >= 110.0 * CFB_SCALE ==> RangeOf(code) == 110.0 * CFB_SCALE
  {
    hide Bit, Total, Sum, Chain, AllOn, AllOff;
    BothChains();
    var scaled := fsCap * (3.6 / 0.507);
    scaled := scaled - CFB_BASE;
    ghost var rest;
    code, rest := Greedy(CFB_FACTOR, CFB_LIMITS, scaled);
    NothingOn(CFB_FACTOR, 6);
    AtMostSum(CFB_FACTOR, code, 6);
    Sums();
    TopBitsOff(code);
  }

  lemma TopBitsOff(code: bv8)
    requires AllOff(code, 6, 8)
    ensures LegalRange(code)
  {
    assert !Bit(code, 6) && !Bit(code, 7);
  }

  /** cfbcfgtocaprange. */
  method CfbCfgToCapRange(fbCfg: bv8) returns (range: real)
    ensures range == RangeOf(fbCfg)
  {
    hide Bit;
    range := CFB_BASE;
    var cfg, i := fbCfg, 0;
    while i <= 5
      invariant i <= 6 && range == CFB_BASE + Total(CFB_FACTOR, fbCfg, i)
      invariant forall k: nat :: k + i < 8 ==> Bit(cfg, k) == Bit(fbCfg, k + i)
    {
      LowBit(cfg);
      assert Bit(cfg, 0) == Bit(fbCfg, 0 + i);
      if cfg & 0x01 != 0 {
        range := range + CFB_FACTOR[i];
      }
      ghost var before := cfg;
      cfg := cfg >> 1;
      i := i + 1;
      forall k: nat | k + i < 8 ensures Bit(cfg, k) == Bit(fbCfg, k + i) {
        ShiftedBits(before, k);
        assert Bit(before, k + 1) == Bit(fbCfg, k + 1 + (i - 1));
      }
    }
    range := CFB_SCALE * range;
  }

  // ---------------------------------------------------------------------------------------
  // The configuration registers

  const CFB_COSRANGE_MASK: bv8 := 0xC0
  const CFB_CFBSEL_MASK: bv8 := 0x3F
  const COS_RANGE_5BIT: bv8 := 0x00
  const COS_RANGE_6BIT: bv8 := 0x40
  const COS_RANGE_7BIT: bv8 := 0x80
  const COS_RANGE_8BIT: bv8 := 0xC0

  /** The number of offset bits that the width field, the top two bits of the range register, makes effective. */
  function Width(cfb: bv8): nat {
    5 + (cfb >> 6) as nat
  }

  /** Five to eight bits, by the top two bits of the register. */
  lemma WidthIs(cfb: bv8)
    ensures Width(cfb) == if cfb >= 0xC0 then 8 else if cfb >= 0x80 then 7 else if cfb >= 0x40 then 6 else 5
  {
    var top := cfb >> 6;
    assert top == if cfb >= 0xC0 then 3 else if cfb >= 0x80 then 2 else if cfb >= 0x40 then 1 else 0;
  }

  /** The mask that the driver reads the offset through. */
  function Visible(cfb: bv8): bv8 {
    0xFF >> (3 - (cfb >> 6))
  }

  function Masked(code: bv8, mask: bv8): bv8 {
    code & mask
  }

  /** Every set bit of the offset is one that the width makes effective. */
  ghost predicate Shown(cos: bv8, cfb: bv8) {
    forall k: nat :: k < 8 && Bit(cos, k) ==> k < Width(cfb)
  }

  lemma VisibleBit(cos: bv8, cfb: bv8, k: nat)
    requires k < 8
    ensures Bit(Masked(cos, Visible(cfb)), k) <==> Bit(cos, k) && k < Width(cfb)
  {
  }

  /** What is read through the mask is the offset itself exactly when the width shows all of it. */
  lemma ShownReads(cos: bv8, cfb: bv8)
    ensures Shown(cos, cfb) <==> Masked(cos, Visible(cfb)) == cos
  {
    hide Bit, Visible, Masked, Width;
    var seen := Masked(cos, Visible(cfb));
    forall k: nat | k < 8 ensures Bit(seen, k) <==> Bit(cos, k) && k < Width(cfb) {
      VisibleBit(cos, cfb, k);
    }
    if Shown(cos, cfb) {
      forall k: nat | k < 8 ensures Bit(seen, k) == Bit(cos, k) {
      }
      SameByte(seen, cos);
    }
  }

  /** The narrowest width that shows every set bit. */
  function WidthFor(code: bv8): bv8 {
    if code & !0x1F == 0 then COS_RANGE_5BIT
    else if code & !0x3F == 0 then COS_RANGE_6BIT
    else if code & !0x7F == 0 then COS_RANGE_7BIT
    else COS_RANGE_8BIT
  }

  /** The width chosen for a code shows it, and no narrower one does. */
  lemma WidthShowsCode(code: bv8)
    ensures LegalWidth(WidthFor(code)) && Shown(code, WidthFor(code))
    ensures forall other: bv8 :: Shown(code, other) ==> Width(WidthFor(code)) <= Width(other)
  {
    hide Bit, Shown;
    ShownReads(code, WidthFor(code));
    WidthReads(code);
    forall other: bv8 | Shown(code, other) ensures Width(WidthFor(code)) <= Width(other) {
      ShownReads(code, other);
      Narrowest(code, other);
    }
  }

  lemma WidthReads(code: bv8)
    ensures Masked(code, Visible(WidthFor(code))) == code
  {
  }

  lemma Narrowest(code: bv8, other: bv8)
    requires Masked(code, Visible(other)) == code
    ensures Width(WidthFor(code)) <= Width(other)
  {
  }

  /** The range bits, the low six of the register. */
  function RangeField(cfb: bv8): bv8 {
    cfb & CFB_CFBSEL_MASK
  }

  /** The register with other width bits, and with other range bits. */
  function PutWidth(cfb: bv8, width: bv8): bv8 {
    (cfb & !CFB_COSRANGE_MASK) | width
  }

  function PutRange(cfb: bv8, code: bv8): bv8 {
    (cfb & !CFB_CFBSEL_MASK) | code
  }

  /** A legal width has no range bits, and a legal range no width bits. */
  predicate LegalWidth(width: bv8) {
    width & CFB_CFBSEL_MASK == 0
  }

  predicate LegalRange(code: bv8) {
    code & CFB_COSRANGE_MASK == 0
  }

  lemma PutWidthFields(cfb: bv8, width: bv8)
    ensures Visible(PutWidth(cfb, width)) == Visible(width) && Width(PutWidth(cfb, width)) == Width(width)
    ensures LegalWidth(width) ==> RangeField(PutWidth(cfb, width)) == RangeField(cfb)
  {
  }

  lemma PutRangeFields(cfb: bv8, code: bv8)
    ensures RangeField(PutRange(cfb, code)) == RangeField(code)
    ensures LegalRange(code) ==>
      && RangeField(code) == code
      && Visible(PutRange(cfb, code)) == Visible(cfb) && Width(PutRange(cfb, code)) == Width(cfb)
  {
  }

  lemma RangeBit(cfb: bv8, k: nat)
    requires k < 8
    ensures Bit(RangeField(cfb), k) <==> Bit(cfb, k) && k < 6
  {
  }

  /**
    A sensor and the driver's read-modify-write of its parameter page. `intact` says whether the
    page arrived with a matching CRC.
   */
  class Sensor {
    var cos: bv8
    var cfb: bv8

    constructor (cos: bv8, cfb: bv8)
      ensures this.cos == cos && this.cfb == cfb
    {
      this.cos, this.cfb := cos, cfb;
    }

    /** The offset bits that a read gives. */
    function OffsetBits(): bv8
      reads this
    {
      Masked(cos, Visible(cfb))
    }

    /** The range bits that a read gives. */
    function RangeBits(): bv8
      reads this`cfb
    {
      RangeField(cfb)
    }

    /** No set offset bit is hidden by the width field. */
    ghost predicate Shows()
      reads this
    {
      Shown(cos, cfb)
    }

    /** Offset and width are written; for one of the four width constants the range bits stay. */
    method WriteCosConfig(offset: bv8, cosBits: bv8, intact: bool) returns (ok: bool)
      modifies this
      ensures ok == intact
      ensures intact ==>
        && cos == offset && cfb == PutWidth(old(cfb), cosBits)
        && Width(cfb) == Width(cosBits) && OffsetBits() == Masked(offset, Visible(cosBits))
        && (Shows() <==> Shown(offset, cosBits))
        && (LegalWidth(cosBits) ==> RangeBits() == old(RangeBits()))
      ensures !intact ==> cos == old(cos) && cfb == old(cfb)
    {
      hide Visible, Width, Bit, LegalWidth, RangeField, Masked;
      if !intact {
        return false;
      }
      PutWidthFields(cfb, cosBits);
      cos := offset;
      cfb := (cfb & !CFB_COSRANGE_MASK) | cosBits;
      return true;
    }

    /** The range bits are written; for a six-bit code the width stays, and so does the offset as it is read. */
    method WriteCfbConfig(code: bv8, intact: bool) returns (ok: bool)
      modifies this`cfb
      ensures ok == intact
      ensures intact ==>
        && cfb == PutRange(old(cfb), code) && RangeBits() == RangeField(code)
        && (LegalRange(code) ==>
              && RangeBits() == code && Width(cfb) == old(Width(cfb)) && OffsetBits() == old(OffsetBits())
              && (Shows() <==> old(Shows())))
      ensures !intact ==> cfb == old(cfb)
    {
      hide Visible, Width, Bit, LegalRange, RangeField, Masked;
      if !intact {
        return false;
      }
      PutRangeFields(cfb, code);
      cfb := cfb & !CFB_CFBSEL_MASK;
      cfb := cfb | code;
      return true;
    }

    /** The offset bits below the width; the whole offset exactly when the width shows all of it. */
    method ReadCosConfig(intact: bool) returns (ok: bool, code: bv8)
      ensures ok == intact
      ensures ok ==> code == OffsetBits() && (Shows() <==> code == cos)
      ensures ok ==> forall k: nat :: k < 8 ==> (Bit(code, k) <==> Bit(cos, k) && k < Width(cfb))
    {
      hide Bit, Width;
      if !intact {
        return false, 0;
      }
      forall k: nat | k < 8 ensures Bit(OffsetBits(), k) <==> Bit(cos, k) && k < Width(cfb) {
        VisibleBit(cos, cfb, k);
      }
      ShownReads(cos, cfb);
      return true, cos & (0xFF >> (3 - (cfb >> 6)));
    }

    method ReadCfbConfig(intact: bool) returns (ok: bool, code: bv8)
      ensures ok == intact
      ensures ok ==> code == RangeBits() && forall k: nat :: k < 8 ==> (Bit(code, k) <==> Bit(cfb, k) && k < 6)
    {
      hide Bit;
      if !intact {
        return false, 0;
      }
      forall k: nat | k < 8 ensures Bit(RangeField(cfb), k) <==> Bit(cfb, k) && k < 6 {
        RangeBit(cfb, k);
      }
      return true, cfb & CFB_CFBSEL_MASK;
    }

    /** readcapconfigure: the capacitances that the registers stand for, if both pages arrive intact. */
    method ReadCapConfigure(intact: bool) returns (ok: bool, offset: real, range: real)
      ensures ok
      ensures intact ==> offset == OffsetOf(OffsetBits()) && range == RangeOf(RangeBits())
      ensures intact && Shows() ==> offset == OffsetOf(cos)
    {
      hide OffsetOf, RangeOf, Visible, Bit;
      var read, code := ReadCosConfig(intact);
      offset := CosCfgToCapOffset(code);
      read, code := ReadCfbConfig(intact);
      range := CfbCfgToCapRange(code);
      return true, offset, range;
    }

    /** mdc02_capconfigureoffset: the offset in effect is within a quarter picofarad exactly for requests in range. */
    method CapConfigureOffset(offset: real, intact: bool) returns (ok: bool)
      modifies this
      ensures ok
      ensures intact ==>
        && Shows() && OffsetBits() == cos && RangeBits() == old(RangeBits())
        && (WithinQuarter(OffsetOf(cos), offset) <==> -0.25 <= offset <= 103.75)
      ensures !intact ==> cos == old(cos) && cfb == old(cfb)
    {
      hide OffsetOf, Visible, WithinQuarter, Shown;
      var code := NearestCode(offset);
      PutCode(code, intact);
      return true;
    }

    /** Writes the code with the narrowest width that shows it. */
    method PutCode(code: bv8, intact: bool)
      modifies this
      ensures intact ==> cos == code && Shows() && OffsetBits() == code && RangeBits() == old(RangeBits())
      ensures !intact ==> cos == old(cos) && cfb == old(cfb)
    {
      hide Visible, WidthFor, Shown, Bit, Width, Masked, LegalWidth, RangeField, PutWidth;
      var bits := ChooseWidth(code);
      WidthShowsCode(code);
      ShownReads(code, bits);
      var written := WriteCosConfig(code, bits, intact);
    }

    /** mdc02_capconfigurefs. */
    method CapConfigureFs(range: real, intact: bool) returns (ok: bool)
      modifies this`cfb
      ensures ok
      ensures intact ==>
        && (old(Shows()) <==> Shows()) && OffsetBits() == old(OffsetBits())
        && (range + 0.1408 < 4.0 * CFB_SCALE ==> RangeOf(RangeBits()) == 2.0 * CFB_SCALE)
        && (2.0 * CFB_SCALE <= range + 0.1408 < 112.0 * CFB_SCALE ==>
              range - 0.1409 <= RangeOf(RangeBits()) <= range + 0.1408)
      ensures !intact ==> cfb == old(cfb)
    {
      hide RangeOf, Visible, Shown, Masked;
      var code := CapRangeToCfbCfg(range + 0.1408);
      var written := WriteCfbConfig(code, intact);
      return true;
    }

    /** mdc02_capconfigurerange. */
    method CapConfigureRange(cMin: real, cMax: real) returns (ok: bool)
      modifies this
      ensures ok && Shows()
      ensures -0.5 <= cMin + cMax <= 207.5 ==> WithinQuarter(OffsetOf(OffsetBits()), (cMin + cMax) / 2.0)
      ensures 0.0 <= cMax - cMin <= 31.0 ==>
        (cMax - cMin) / 2.0 - 0.1409 <= RangeOf(RangeBits()) <=
          (if cMax - cMin < 0.2818 then 0.2817 else (cMax - cMin) / 2.0 + 0.1408)
    {
      hide OffsetOf, RangeOf, Visible, WithinQuarter, Shown, Masked;
      ok := CapConfigureOffset((cMin + cMax) / 2.0, true);
      ok := CapConfigureFs((cMax - cMin) / 2.0, true);
    }
  }

  /**
    Configuring an interval and reading the configuration back gives its middle and half its
    width, to the steps of the codes.
   */
  method ConfigureThenRead(sensor: Sensor, cMin: real, cMax: real) returns (offset: real, range: real)
    modifies sensor
    ensures -0.5 <= cMin + cMax <= 207.5 ==> WithinQuarter(offset, (cMin + cMax) / 2.0)
    ensures 0.2818 <= cMax - cMin <= 31.0 ==> (cMax - cMin) / 2.0 - 0.1409 <= range <= (cMax - cMin) / 2.0 + 0.1408
  {
    hide OffsetOf, RangeOf, Visible, WithinQuarter, Shown, Masked;
    var ok := sensor.CapConfigureRange(cMin, cMax);
    ok, offset, range := sensor.ReadCapConfigure(true);
  }

  predicate WithinQuarter(actual: real, wanted: real) {
    wanted - 0.25 <= actual <= wanted + 0.25
  }

  method NearestCode(offset: real) returns (code: bv8)
    ensures WithinQuarter(OffsetOf(code), offset) <==> -0.25 <= offset <= 103.75
  {
    hide OffsetOf;
    code := CapToCosCfg(offset + 0.25);
    Bounds(code);
  }

  method ChooseWidth(code: bv8) returns (bits: bv8)
    ensures bits == WidthFor(code)
  {
    if code & !0x1F == 0 {
      bits := COS_RANGE_5BIT;
    } else if code & !0x3F == 0 {
      bits := COS_RANGE_6BIT;
    } else if code & !0x7F == 0 {
      bits := COS_RANGE_7BIT;
    } else {
      bits := COS_RANGE_8BIT;
    }
  }

  lemma Bounds(code: bv8)
    ensures 0.0 <= OffsetOf(code) <= 103.5
  {
    hide Bit;
    NotNegative(COS_FACTOR, code, 8);
    AtMostSum(COS_FACTOR, code, 8);
    Sums();
  }
}
