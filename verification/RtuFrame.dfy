/**
  Modbus RTU frames: address, PDU and CRC, packed and unpacked in one buffer.
 */
module RtuFrame {
  import opened Words
  import opened Crc16
  import opened Crc16Order

  const ADU_MIN := 4
  const ADU_MAX := 256
  const ADU_PADDING := 3
  const PDU_OFFSET := 1

  datatype Error = LENGTH | ALLOC | FUNCTION | COUNT | INDEX | VALUE | RANGE | CRC | ADDRESS | OTHER

  datatype Unpacked = Frame(address: bv8, pdu: seq<bv8>) | Rejected(error: Error)

  function FrameCrc(frame: seq<bv8>): bv16
    requires |frame| >= 2
  {
    Crc(MODBUS_POLY, MODBUS_INIT, frame[..|frame| - 2])
  }

  function Unpack(frame: seq<bv8>, checkCrc: bool): Unpacked {
    if |frame| < ADU_MIN || |frame| > ADU_MAX then Rejected(LENGTH)
    else if checkCrc && FrameCrc(frame) != LittleEndian(frame[|frame| - 2], frame[|frame| - 1]) then Rejected(CRC)
    else Frame(frame[0], frame[PDU_OFFSET..|frame| - 2])
  }

  method UnpackRTU(frame: array<bv8>, length: nat, checkCrc: bool) returns (r: Unpacked)
    requires length <= frame.Length
    ensures r == Unpack(frame[..length], checkCrc)
  {
    if length < ADU_MIN || length > ADU_MAX {
      return Rejected(LENGTH);
    }
    var address := frame[0];
    if checkCrc {
      var crc := ModbusCRC(frame[..length - 2]);
      assert frame[..length][..length - 2] == frame[..length - 2];
      if crc != LittleEndian(frame[length - 2], frame[length - 1]) {
        return Rejected(CRC);
      }
    }
    return Frame(address, frame[PDU_OFFSET..length - ADU_PADDING + PDU_OFFSET]);
  }

  function Pack(frame: seq<bv8>, address: bv8): (packed: seq<bv8>)
    requires ADU_MIN <= |frame| <= ADU_MAX
    ensures |packed| == |frame|
  {
    var body := frame[..|frame| - 2][0 := address];
    var crc := Crc(MODBUS_POLY, MODBUS_INIT, body);
    body + [LowByte(crc), HighByte(crc)]
  }

  /** Fills in the address and the CRC around the PDU already in the buffer. */
  method PackRTU(frame: array<bv8>, length: nat, address: bv8) returns (ok: bool)
    requires length <= frame.Length
    modifies frame
    ensures ok <==> ADU_MIN <= length <= ADU_MAX
    ensures ok ==> frame[..] == Pack(old(frame[..length]), address) + old(frame[length..])
    ensures !ok ==> frame[..] == old(frame[..])
  {
    if length < ADU_MIN || length > ADU_MAX {
      return false;
    }
    frame[0] := address;
    var crc := ModbusCRC(frame[..length - 2]);
    assert frame[..length - 2] == old(frame[..length])[..length - 2][0 := address];
    frame[length - 2] := LowByte(crc);
    frame[length - 1] := HighByte(crc);
    return true;
  }

  /** Packing makes a frame that unpacks to the same address and PDU. */
  lemma PackThenUnpack(frame: seq<bv8>, address: bv8)
    requires ADU_MIN <= |frame| <= ADU_MAX
    ensures Unpack(Pack(frame, address), true) == Frame(address, frame[PDU_OFFSET..|frame| - 2])
  {
    hide Crc, LowByte, HighByte, LittleEndian;
    var body := frame[..|frame| - 2][0 := address];
    var crc := Crc(MODBUS_POLY, MODBUS_INIT, body);
    var packed := Pack(frame, address);
    assert packed[..|packed| - 2] == body;
    LittleEndianBytes(crc);
    assert packed[PDU_OFFSET..|packed| - 2] == frame[PDU_OFFSET..|frame| - 2];
  }

  /**
    The layout of an accepted frame: 4 to 256 bytes, the address first, the PDU, and the CRC of
    all that with polynomial 0xA001 and start value 0xFFFF, low byte first.
   */
  lemma FrameLayout(frame: seq<bv8>)
    ensures Unpack(frame, true).Frame? <==>
      && 4 <= |frame| <= 256
      && Crc(0xA001, 0xFFFF, frame[..|frame| - 2]) ==
           ((frame[|frame| - 1] as bv16) << 8) | (frame[|frame| - 2] as bv16)
    ensures Unpack(frame, true).Frame? ==>
      Unpack(frame, true).address == frame[0] && Unpack(frame, true).pdu == frame[1..|frame| - 2]
    ensures |frame| < 4 || |frame| > 256 ==> Unpack(frame, true) == Rejected(LENGTH)
  {
    hide Crc;
  }

  /** The example of the Modbus over serial line guide: station 2, function 7, CRC 0x1241. */
  lemma KnownFrame()
    ensures Unpack([0x02, 0x07, 0x41, 0x12], true) == Frame(0x02, [0x07])
  {
    hide Crc;
    var frame: seq<bv8> := [0x02, 0x07, 0x41, 0x12];
    KnownCrc();
    assert frame[..|frame| - 2] == [0x02, 0x07] && frame[1..|frame| - 2] == [0x07];
    FrameLayout(frame);
  }

  lemma KnownCrc()
    ensures Crc(0xA001, 0xFFFF, [0x02, 0x07]) == 0x1241
  {
    hide Eight;
    var two: seq<bv8> := [0x02, 0x07];
    assert two[..1] == [0x02] && two[..1][..0] == [];
    KnownSteps();
    StepsIsEight(0xFFFD);
    StepsIsEight(0x8139);
    KnownXor();
    assert Crc(0xA001, 0xFFFF, two[..1]) == Update(0xA001, 0xFFFF, 0x02);
    assert Crc(0xA001, 0xFFFF, two) == Update(0xA001, Crc(0xA001, 0xFFFF, two[..1]), 0x07);
  }

  lemma KnownXor()
    ensures Xor(0xFFFF, 0x02 as bv8 as bv16) == 0xFFFD && Xor(0x813E, 0x07 as bv8 as bv16) == 0x8139
  {
  }

  lemma KnownSteps()
    ensures Eight(0xFFFD) == 0x813E && Eight(0x8139) == 0x1241
  {
  }

  // ---------------------------------------------------------------------------------------
  // Error detection

  /** Two bytes bring exactly the register that holds them, little-endian, to zero. */
  lemma CrcField(c: bv16, lo: bv8, hi: bv8)
    ensures Feed(MODBUS_POLY, c, ByteBits(lo) + ByteBits(hi)) == 0 <==> c == LittleEndian(lo, hi)
  {
    hide Steps, Xor, LowBits, ByteBits, Top, Value, LittleEndian, Feed;
    var w, word := ByteBits(lo) + ByteBits(hi), LittleEndian(lo, hi);
    FeedConcat(MODBUS_POLY, word, ByteBits(lo), ByteBits(hi));
    UpdateFeeds(MODBUS_POLY, word, lo);
    XorLowByte(lo, hi);
    ByteTwices(hi);
    PolyTop();
    StepsUndoTwices(MODBUS_POLY, hi as bv16, 8);
    UpdateFeeds(MODBUS_POLY, hi as bv16, hi);
    XorIsZero(hi as bv16, hi as bv16);
    ZeroSteps(8);
    FeedToZero(MODBUS_POLY, word, w);
    FeedToZero(MODBUS_POLY, c, w);
  }

  lemma {:induction false} ZeroSteps(n: nat)
    ensures Steps(MODBUS_POLY, 0, n) == 0
  {
    if n > 0 {
      ZeroSteps(n - 1);
    }
  }

  /** The register after a whole frame, CRC field included. */
  function Residue(frame: seq<bv8>): bv16 {
    Feed(MODBUS_POLY, MODBUS_INIT, BitsOf(frame))
  }

  /** A frame of legal length is accepted exactly when it leaves the register at zero. */
  lemma AcceptedIffZeroResidue(frame: seq<bv8>)
    requires ADU_MIN <= |frame| <= ADU_MAX
    ensures Unpack(frame, true).Frame? <==> Residue(frame) == 0
    ensures Unpack(frame, true).Frame? || Unpack(frame, true) == Rejected(CRC)
  {
    hide Feed, ByteBits, Crc, LittleEndian;
    var n := |frame| - 2;
    var body, lo, hi := frame[..n], frame[n], frame[n + 1];
    assert frame[..n + 1][..n] == body;
    assert frame[..n + 2] == frame;
    assert BitsOf(frame[..n + 1]) == BitsOf(body) + ByteBits(lo);
    assert BitsOf(frame) == BitsOf(body) + (ByteBits(lo) + ByteBits(hi));
    FeedConcat(MODBUS_POLY, MODBUS_INIT, BitsOf(body), ByteBits(lo) + ByteBits(hi));
    CrcFeeds(MODBUS_POLY, MODBUS_INIT, body);
    CrcField(Crc(MODBUS_POLY, MODBUS_INIT, body), lo, hi);
  }

  /** All bits in which two frames differ lie within 16 consecutive ones, in line order. */
  ghost predicate Burst(f: seq<bv8>, g: seq<bv8>, start: nat) {
    && |f| == |g|
    && forall i :: 0 <= i < 8 * |f| && BitsOf(f)[i] != BitsOf(g)[i] ==> start <= i < start + 16
  }

  /**
    Every burst of at most 16 bits that changes an accepted frame, wherever it strikes
    including the CRC field, is rejected with a CRC error.
   */
  lemma BurstRejected(f: seq<bv8>, g: seq<bv8>, start: nat)
    requires Unpack(f, true).Frame? && g != f && Burst(f, g, start)
    ensures Unpack(g, true) == Rejected(CRC)
  {
    hide Feed, BitsOf, Unpack, Top;
    ResidueOfFlips(f, g);
    var a, b := BitsOf(f), BitsOf(g);
    var e := Difference(a, b);
    if AllFalse(e) {
      forall i | 0 <= i < |a| ensures a[i] == b[i] {
        assert !e[i];
      }
      assert a == b;
      BitsOfInjective(f, g);
    }
    var from := if start <= |e| then start else |e|;
    var to := if start + 16 <= |e| then start + 16 else |e|;
    PolyTop();
    BurstIsSeen(MODBUS_POLY, e, from, to);
  }

  lemma UnpackLength(f: seq<bv8>)
    requires Unpack(f, true).Frame?
    ensures ADU_MIN <= |f| <= ADU_MAX
  {
  }

  lemma {:induction false} LowBitsInjective(x: bv16, y: bv16, n: nat)
    requires LowBits(x, n) == LowBits(y, n) && ShiftedDown(x, n) == ShiftedDown(y, n)
    ensures x == y
    decreases n
  {
    hide Odd, Half;
    if n > 0 {
      var a, b := LowBits(Half(x), n - 1), LowBits(Half(y), n - 1);
      assert ([Odd(x)] + a)[0] == ([Odd(y)] + b)[0];
      assert ([Odd(x)] + a)[1..] == a && ([Odd(y)] + b)[1..] == b;
      LowBitsInjective(Half(x), Half(y), n - 1);
      OddAndHalf(x, y);
    }
  }

  lemma OddAndHalf(x: bv16, y: bv16)
    requires Odd(x) == Odd(y) && Half(x) == Half(y)
    ensures x == y
  {
  }

  lemma ByteBitsInjective(a: bv8, b: bv8)
    requires ByteBits(a) == ByteBits(b)
    ensures a == b
  {
    hide LowBits, ShiftedDown;
    ByteShiftedOut(a);
    ByteShiftedOut(b);
    LowBitsInjective(a as bv16, b as bv16, 8);
  }

  lemma {:induction false} BitsOfInjective(f: seq<bv8>, g: seq<bv8>)
    requires |f| == |g| && BitsOf(f) == BitsOf(g)
    ensures f == g
  {
    hide ByteBits;
    if f != [] {
      var n := |f| - 1;
      var a, b := BitsOf(f[..n]), BitsOf(g[..n]);
      assert BitsOf(f) == a + ByteBits(f[n]) && BitsOf(g) == b + ByteBits(g[n]);
      assert (a + ByteBits(f[n]))[..8 * n] == a && (b + ByteBits(g[n]))[..8 * n] == b;
      assert (a + ByteBits(f[n]))[8 * n..] == ByteBits(f[n]) && (b + ByteBits(g[n]))[8 * n..] == ByteBits(g[n]);
      BitsOfInjective(f[..n], g[..n]);
      ByteBitsInjective(f[n], g[n]);
      assert f == f[..n] + [f[n]] && g == g[..n] + [g[n]];
    }
  }

  /** The register of a corrupted frame is that of the flipped bits alone, if the frame was accepted. */
  lemma ResidueOfFlips(f: seq<bv8>, g: seq<bv8>)
    requires Unpack(f, true).Frame? && |g| == |f|
    ensures Residue(g) == Feed(MODBUS_POLY, 0, Difference(BitsOf(f), BitsOf(g)))
    ensures Unpack(g, true) == Rejected(CRC) <==> Residue(g) != 0
  {
    hide Feed, BitsOf, Unpack, Xor;
    UnpackLength(f);
    AcceptedIffZeroResidue(f);
    AcceptedIffZeroResidue(g);
    FeedLinear(MODBUS_POLY, MODBUS_INIT, MODBUS_INIT, BitsOf(f), BitsOf(g));
    XorIsZero(MODBUS_INIT, MODBUS_INIT);
    XorZero(Residue(g));
  }

  /** Flipping an odd number of bits of an accepted frame, wherever they are, is always noticed. */
  lemma OddFlipsRejected(f: seq<bv8>, g: seq<bv8>)
    requires Unpack(f, true).Frame? && |g| == |f| && Flips(Difference(BitsOf(f), BitsOf(g))) % 2 == 1
    ensures Unpack(g, true) == Rejected(CRC)
  {
    hide Feed, BitsOf, Unpack, OddBelow;
    ResidueOfFlips(f, g);
    FeedParity(0, Difference(BitsOf(f), BitsOf(g)));
    ZeroBelow(16);
  }

  /** Two flipped bits of a frame, however far apart, are always noticed. */
  lemma TwoFlipsRejected(f: seq<bv8>, g: seq<bv8>, i: nat, j: nat)
    requires Unpack(f, true).Frame? && |g| == |f| && i < j < 8 * |f|
    requires forall k :: 0 <= k < 8 * |f| ==> (BitsOf(f)[k] != BitsOf(g)[k] <==> k == i || k == j)
    ensures Unpack(g, true) == Rejected(CRC)
  {
    hide Feed, BitsOf, Unpack;
    UnpackLength(f);
    ResidueOfFlips(f, g);
    TwoFlipsSeen(Difference(BitsOf(f), BitsOf(g)), i, j);
  }

  lemma TwoFlipsSeen(e: seq<bool>, i: nat, j: nat)
    requires i < j < |e| <= 2048 && forall k :: 0 <= k < |e| ==> (e[k] <==> k == i || k == j)
    ensures Feed(MODBUS_POLY, 0, e) != 0
  {
    hide Feed, Step, Xor, Top;
    var a, b, c := e[..i], e[i + 1..j], e[j + 1..];
    assert e == a + ([true] + (b + ([true] + c)));
    FeedConcat(MODBUS_POLY, 0, a, [true] + (b + ([true] + c)));
    PolyTop();
    FeedZeros(MODBUS_POLY, 0, a);
    FeedConcat(MODBUS_POLY, 0, [true], b + ([true] + c));
    FeedOne(0);
    FirstGeneratorBit();
    FeedConcat(MODBUS_POLY, MODBUS_POLY, b, [true] + c);
    FeedIsSteps(MODBUS_POLY, MODBUS_POLY, b);
    NoReturn(1 + |b|);
    FirstStep();
    StepsFromFront(MODBUS_POLY, 1, 1 + |b|);
    var x := Steps(MODBUS_POLY, MODBUS_POLY, |b|);
    FeedConcat(MODBUS_POLY, x, [true], c);
    FeedOne(x);
    OneClears(x);
    FeedZeros(MODBUS_POLY, Feed(MODBUS_POLY, x, [true]), c);
  }

  lemma FeedOne(c: bv16)
    ensures Feed(MODBUS_POLY, c, [true]) == Step(MODBUS_POLY, Xor(c, Low(true)))
  {
    hide Step, Xor, Low;
    assert [true][1..] == [];
  }

  /** A set bit brings only the register that holds 1 to zero. */
  lemma OneClears(x: bv16)
    ensures Step(MODBUS_POLY, Xor(x, Low(true))) == 0 <==> x == 1
  {
    hide Xor, Top, Step;
    PolyTop();
    XorIsZero(x, 1);
    StepZero(MODBUS_POLY, Xor(x, Low(true)));
    XorZero(Xor(x, Low(true)));
  }

  /**
    The bound of 16 is sharp: two frames of legal length that differ by the 17 bits of the
    generator polynomial, anywhere, are accepted or rejected alike.
   */
  lemma GeneratorSlipsThrough(f: seq<bv8>, g: seq<bv8>, before: seq<bool>, after: seq<bool>)
    requires ADU_MIN <= |f| <= ADU_MAX && |g| == |f|
    requires AllFalse(before) && AllFalse(after)
    requires Difference(BitsOf(f), BitsOf(g)) == before + ([true] + LowBits(MODBUS_POLY, 16)) + after
    ensures Unpack(f, true).Frame? <==> Unpack(g, true).Frame?
  {
    hide Feed, BitsOf, Unpack, Top, Xor, LowBits;
    var a, b := BitsOf(f), BitsOf(g);
    var w := [true] + LowBits(MODBUS_POLY, 16);
    AcceptedIffZeroResidue(f);
    AcceptedIffZeroResidue(g);
    FeedLinear(MODBUS_POLY, MODBUS_INIT, MODBUS_INIT, a, b);
    XorIsZero(MODBUS_INIT, MODBUS_INIT);
    PolyTop();
    FeedConcat(MODBUS_POLY, 0, before + w, after);
    FeedConcat(MODBUS_POLY, 0, before, w);
    FeedZeros(MODBUS_POLY, 0, before);
    GeneratorFeedsToZero();
    FeedZeros(MODBUS_POLY, 0, after);
    XorIsZero(Residue(f), Residue(g));
  }

  lemma GeneratorFeedsToZero()
    ensures Feed(MODBUS_POLY, 0, [true] + LowBits(MODBUS_POLY, 16)) == 0
  {
    hide LowBits, Steps, ShiftedDown;
    var bits := LowBits(MODBUS_POLY, 16);
    FirstGeneratorBit();
    assert ([true] + bits)[1..] == bits;
    assert Feed(MODBUS_POLY, 0, [true] + bits) == Feed(MODBUS_POLY, MODBUS_POLY, bits);
    StepsFeed(MODBUS_POLY, MODBUS_POLY, MODBUS_POLY, 16);
    XorIsZero(MODBUS_POLY, MODBUS_POLY);
    ZeroSteps(16);
    WordShiftedOut(MODBUS_POLY);
    XorZero(Feed(MODBUS_POLY, MODBUS_POLY, bits));
  }

  lemma FirstGeneratorBit()
    ensures Step(MODBUS_POLY, Xor(0, Low(true))) == MODBUS_POLY
  {
  }

  /** Bit `j` of byte `k` travels as bit 8k + j of the frame. */
  lemma {:induction false} BitOnTheLine(data: seq<bv8>, k: nat, j: nat)
    requires k < |data| && j < 8
    ensures BitsOf(data)[8 * k + j] == Odd(ShiftedDown(data[k] as bv16, j))
  {
    hide Odd, ShiftedDown, LowBits;
    var n := |data| - 1;
    assert BitsOf(data) == BitsOf(data[..n]) + ByteBits(data[n]);
    if k < n {
      BitOnTheLine(data[..n], k, j);
      assert BitsOf(data)[8 * k + j] == BitsOf(data[..n])[8 * k + j];
    } else {
      LowBitAt(data[n] as bv16, 8, j);
      assert BitsOf(data)[8 * n + j] == ByteBits(data[n])[j];
    }
  }

  lemma {:induction false} LowBitAt(x: bv16, n: nat, j: nat)
    requires j < n
    ensures LowBits(x, n)[j] == Odd(ShiftedDown(x, j))
    decreases n
  {
    hide Odd, Half;
    if j > 0 {
      LowBitAt(Half(x), n - 1, j - 1);
    }
  }
}
