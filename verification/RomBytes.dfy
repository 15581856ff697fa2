/**
  ROM codes as the firmware stores them: eight bytes, the bits of each byte taken from the
  least significant end.
 */
module RomBytes {
  import opened RomOrder

  /** 1 << k, as the walking mask of the search takes it. */
  function Mask(k: nat): bv8
    requires k < 8
  {
    if k == 0 then 0x01 else if k == 1 then 0x02 else if k == 2 then 0x04 else if k == 3 then 0x08
    else if k == 4 then 0x10 else if k == 5 then 0x20 else if k == 6 then 0x40 else 0x80
  }

  predicate Bit(b: bv8, k: nat)
    requires k < 8
  {
    b & Mask(k) != 0
  }

  /** Shifting the byte down shows the same bit. */
  lemma BitShift(b: bv8, k: nat)
    requires k < 8
    ensures (b >> k) & 1 == 1 <==> Bit(b, k)
  {
  }

  lemma NextMask(k: nat)
    requires k < 8
    ensures if k < 7 then Mask(k) << 1 == Mask(k + 1) && Mask(k) << 1 != 0 else Mask(k) << 1 == 0
  {
  }

  /** Setting or clearing bit `k` leaves every other bit as it was. */
  lemma PutBit(b: bv8, k: nat, j: nat)
    requires k < 8 && j < 8
    ensures Bit(b | Mask(k), j) <==> j == k || Bit(b, j)
    ensures Bit(b & !Mask(k), j) <==> j != k && Bit(b, j)
  {
  }

  lemma ZeroByte(b: bv8)
    ensures b == 0 <==> forall k :: 0 <= k < 8 ==> !Bit(b, k)
  {
    if forall k :: 0 <= k < 8 ==> !Bit(b, k) {
      assert !Bit(b, 0) && !Bit(b, 1) && !Bit(b, 2) && !Bit(b, 3);
      assert !Bit(b, 4) && !Bit(b, 5) && !Bit(b, 6) && !Bit(b, 7);
    }
  }

  /** A byte is its eight bits. */
  lemma SameByte(a: bv8, b: bv8)
    requires forall k :: 0 <= k < 8 ==> Bit(a, k) == Bit(b, k)
    ensures a == b
  {
    assert Bit(a, 0) == Bit(b, 0) && Bit(a, 1) == Bit(b, 1) && Bit(a, 2) == Bit(b, 2) && Bit(a, 3) == Bit(b, 3);
    assert Bit(a, 4) == Bit(b, 4) && Bit(a, 5) == Bit(b, 5) && Bit(a, 6) == Bit(b, 6) && Bit(a, 7) == Bit(b, 7);
  }

  /** The ROM code held in eight bytes. */
  function Bits(bytes: seq<bv8>): Rom
    requires |bytes| == 8
  {
    seq(64, (i: int) requires 0 <= i < 64 => Bit(bytes[i / 8], i % 8))
  }

  /** What the shift register `s` holds after the bits of `p` were shifted in from the top. */
  function Shifted(s: bv8, p: seq<bool>): bv8 {
    if p == [] then s
    else (Shifted(s, p[..|p| - 1]) >> 1) | (if p[|p| - 1] then 0x80 else 0)
  }

  /** After eight shifts nothing of the earlier content is left. */
  lemma ShiftedByte(s: bv8, p: seq<bool>, k: nat)
    requires |p| == 8 && k < 8
    ensures Bit(Shifted(s, p), k) == p[k]
  {
    var s0 := s;
    var s1 := ShiftOne(s, p, 0, s0);
    var s2 := ShiftOne(s, p, 1, s1);
    var s3 := ShiftOne(s, p, 2, s2);
    var s4 := ShiftOne(s, p, 3, s3);
    var s5 := ShiftOne(s, p, 4, s4);
    var s6 := ShiftOne(s, p, 5, s5);
    var s7 := ShiftOne(s, p, 6, s6);
    var s8 := ShiftOne(s, p, 7, s7);
    assert p[..8] == p;
  }

  lemma ShiftOne(s: bv8, p: seq<bool>, n: nat, v: bv8) returns (w: bv8)
    requires n < |p| && Shifted(s, p[..n]) == v
    ensures w == (v >> 1) | (if p[n] then 0x80 else 0)
    ensures Shifted(s, p[..n + 1]) == w
  {
    assert p[..n + 1][..n] == p[..n];
    w := Shifted(s, p[..n + 1]);
  }
}
