/**
  The table-driven CRC-16 with its running context, fed in chunks.

  A table entry is the CRC of one byte, so by linearity every row of sixteen entries is the
  first row xored with the row's own first entry. That is how the 256 entries are checked
  against the bit-serial definition.
 */
module Crc16Table {
  import opened Words
  import opened Crc16

  /** auchCRCHi, in rows of sixteen: the low byte of the CRC of each index. */
  const HI: seq<seq<bv8>> := [
    [0x00, 0xC1, 0x81, 0x40, 0x01, 0xC0, 0x80, 0x41, 0x01, 0xC0, 0x80, 0x41, 0x00, 0xC1, 0x81, 0x40],
    [0x01, 0xC0, 0x80, 0x41, 0x00, 0xC1, 0x81, 0x40, 0x00, 0xC1, 0x81, 0x40, 0x01, 0xC0, 0x80, 0x41],
    [0x01, 0xC0, 0x80, 0x41, 0x00, 0xC1, 0x81, 0x40, 0x00, 0xC1, 0x81, 0x40, 0x01, 0xC0, 0x80, 0x41],
    [0x00, 0xC1, 0x81, 0x40, 0x01, 0xC0, 0x80, 0x41, 0x01, 0xC0, 0x80, 0x41, 0x00, 0xC1, 0x81, 0x40],
    [0x01, 0xC0, 0x80, 0x41, 0x00, 0xC1, 0x81, 0x40, 0x00, 0xC1, 0x81, 0x40, 0x01, 0xC0, 0x80, 0x41],
    [0x00, 0xC1, 0x81, 0x40, 0x01, 0xC0, 0x80, 0x41, 0x01, 0xC0, 0x80, 0x41, 0x00, 0xC1, 0x81, 0x40],
    [0x00, 0xC1, 0x81, 0x40, 0x01, 0xC0, 0x80, 0x41, 0x01, 0xC0, 0x80, 0x41, 0x00, 0xC1, 0x81, 0x40],
    [0x01, 0xC0, 0x80, 0x41, 0x00, 0xC1, 0x81, 0x40, 0x00, 0xC1, 0x81, 0x40, 0x01, 0xC0, 0x80, 0x41],
    [0x01, 0xC0, 0x80, 0x41, 0x00, 0xC1, 0x81, 0x40, 0x00, 0xC1, 0x81, 0x40, 0x01, 0xC0, 0x80, 0x41],
    [0x00, 0xC1, 0x81, 0x40, 0x01, 0xC0, 0x80, 0x41, 0x01, 0xC0, 0x80, 0x41, 0x00, 0xC1, 0x81, 0x40],
    [0x00, 0xC1, 0x81, 0x40, 0x01, 0xC0, 0x80, 0x41, 0x01, 0xC0, 0x80, 0x41, 0x00, 0xC1, 0x81, 0x40],
    [0x01, 0xC0, 0x80, 0x41, 0x00, 0xC1, 0x81, 0x40, 0x00, 0xC1, 0x81, 0x40, 0x01, 0xC0, 0x80, 0x41],
    [0x00, 0xC1, 0x81, 0x40, 0x01, 0xC0, 0x80, 0x41, 0x01, 0xC0, 0x80, 0x41, 0x00, 0xC1, 0x81, 0x40],
    [0x01, 0xC0, 0x80, 0x41, 0x00, 0xC1, 0x81, 0x40, 0x00, 0xC1, 0x81, 0x40, 0x01, 0xC0, 0x80, 0x41],
    [0x01, 0xC0, 0x80, 0x41, 0x00, 0xC1, 0x81, 0x40, 0x00, 0xC1, 0x81, 0x40, 0x01, 0xC0, 0x80, 0x41],
    [0x00, 0xC1, 0x81, 0x40, 0x01, 0xC0, 0x80, 0x41, 0x01, 0xC0, 0x80, 0x41, 0x00, 0xC1, 0x81, 0x40]
  ]

  /** auchCRCLo, in rows of sixteen: the high byte of the CRC of each index. */
  const LO: seq<seq<bv8>> := [
    [0x00, 0xC0, 0xC1, 0x01, 0xC3, 0x03, 0x02, 0xC2, 0xC6, 0x06, 0x07, 0xC7, 0x05, 0xC5, 0xC4, 0x04],
    [0xCC, 0x0C, 0x0D, 0xCD, 0x0F, 0xCF, 0xCE, 0x0E, 0x0A, 0xCA, 0xCB, 0x0B, 0xC9, 0x09, 0x08, 0xC8],
    [0xD8, 0x18, 0x19, 0xD9, 0x1B, 0xDB, 0xDA, 0x1A, 0x1E, 0xDE, 0xDF, 0x1F, 0xDD, 0x1D, 0x1C, 0xDC],
    [0x14, 0xD4, 0xD5, 0x15, 0xD7, 0x17, 0x16, 0xD6, 0xD2, 0x12, 0x13, 0xD3, 0x11, 0xD1, 0xD0, 0x10],
    [0xF0, 0x30, 0x31, 0xF1, 0x33, 0xF3, 0xF2, 0x32, 0x36, 0xF6, 0xF7, 0x37, 0xF5, 0x35, 0x34, 0xF4],
    [0x3C, 0xFC, 0xFD, 0x3D, 0xFF, 0x3F, 0x3E, 0xFE, 0xFA, 0x3A, 0x3B, 0xFB, 0x39, 0xF9, 0xF8, 0x38],
    [0x28, 0xE8, 0xE9, 0x29, 0xEB, 0x2B, 0x2A, 0xEA, 0xEE, 0x2E, 0x2F, 0xEF, 0x2D, 0xED, 0xEC, 0x2C],
    [0xE4, 0x24, 0x25, 0xE5, 0x27, 0xE7, 0xE6, 0x26, 0x22, 0xE2, 0xE3, 0x23, 0xE1, 0x21, 0x20, 0xE0],
    [0xA0, 0x60, 0x61, 0xA1, 0x63, 0xA3, 0xA2, 0x62, 0x66, 0xA6, 0xA7, 0x67, 0xA5, 0x65, 0x64, 0xA4],
    [0x6C, 0xAC, 0xAD, 0x6D, 0xAF, 0x6F, 0x6E, 0xAE, 0xAA, 0x6A, 0x6B, 0xAB, 0x69, 0xA9, 0xA8, 0x68],
    [0x78, 0xB8, 0xB9, 0x79, 0xBB, 0x7B, 0x7A, 0xBA, 0xBE, 0x7E, 0x7F, 0xBF, 0x7D, 0xBD, 0xBC, 0x7C],
    [0xB4, 0x74, 0x75, 0xB5, 0x77, 0xB7, 0xB6, 0x76, 0x72, 0xB2, 0xB3, 0x73, 0xB1, 0x71, 0x70, 0xB0],
    [0x50, 0x90, 0x91, 0x51, 0x93, 0x53, 0x52, 0x92, 0x96, 0x56, 0x57, 0x97, 0x55, 0x95, 0x94, 0x54],
    [0x9C, 0x5C, 0x5D, 0x9D, 0x5F, 0x9F, 0x9E, 0x5E, 0x5A, 0x9A, 0x9B, 0x5B, 0x99, 0x59, 0x58, 0x98],
    [0x88, 0x48, 0x49, 0x89, 0x4B, 0x8B, 0x8A, 0x4A, 0x4E, 0x8E, 0x8F, 0x4F, 0x8D, 0x4D, 0x4C, 0x8C],
    [0x44, 0x84, 0x85, 0x45, 0x87, 0x47, 0x46, 0x86, 0x82, 0x42, 0x43, 0x83, 0x41, 0x81, 0x80, 0x40]
  ]

  function Entry(table: seq<seq<bv8>>, index: bv8): bv8
    requires |table| == 16 && forall r :: 0 <= r < 16 ==> |table[r]| == 16
  {
    table[(index >> 4) as nat][(index & 0x0F) as nat]
  }

  const COLUMN: seq<bv16> := [0, 1, 2, 3, 4, 5, 6, 7, 8, 9, 10, 11, 12, 13, 14, 15]
  const ROW: seq<bv16> := [
    0x00, 0x10, 0x20, 0x30, 0x40, 0x50, 0x60, 0x70, 0x80, 0x90, 0xA0, 0xB0, 0xC0, 0xD0, 0xE0, 0xF0
  ]

  ghost predicate Shape() {
    && |HI| == 16 && |LO| == 16 && |ROW| == 16 && |COLUMN| == 16
    && forall r :: 0 <= r < 16 ==> |HI[r]| == 16 && |LO[r]| == 16
  }

  lemma TableShape()
    ensures Shape()
  {
  }

  predicate Scaled(row: seq<bv8>, base: seq<bv8>) {
    |row| == 16 && |base| == 16 && row == seq(16, (c: int) requires 0 <= c < 16 => base[c] ^ row[0])
  }

  ghost predicate ScaledRow(r: nat) {
    Shape() && r < 16 && Scaled(HI[r], HI[0]) && Scaled(LO[r], LO[0])
  }

  lemma RowsFrom0()
    ensures ScaledRow(0) && ScaledRow(1)
  {
  }

  lemma RowsFrom2()
    ensures ScaledRow(2) && ScaledRow(3)
  {
  }

  lemma RowsFrom4()
    ensures ScaledRow(4) && ScaledRow(5)
  {
  }

  lemma RowsFrom6()
    ensures ScaledRow(6) && ScaledRow(7)
  {
  }

  lemma RowsFrom8()
    ensures ScaledRow(8) && ScaledRow(9)
  {
  }

  lemma RowsFrom10()
    ensures ScaledRow(10) && ScaledRow(11)
  {
  }

  lemma RowsFrom12()
    ensures ScaledRow(12) && ScaledRow(13)
  {
  }

  lemma RowsFrom14()
    ensures ScaledRow(14) && ScaledRow(15)
  {
  }

  lemma EightOfColumns()
    ensures Eight(0x00) == 0x0000 && Eight(0x01) == 0xC0C1 && Eight(0x02) == 0xC181 && Eight(0x03) == 0x0140
    ensures Eight(0x04) == 0xC301 && Eight(0x05) == 0x03C0 && Eight(0x06) == 0x0280 && Eight(0x07) == 0xC241
    ensures Eight(0x08) == 0xC601 && Eight(0x09) == 0x06C0 && Eight(0x0A) == 0x0780 && Eight(0x0B) == 0xC741
    ensures Eight(0x0C) == 0x0500 && Eight(0x0D) == 0xC5C1 && Eight(0x0E) == 0xC481 && Eight(0x0F) == 0x0440
  {
  }

  lemma EightOfRows()
    ensures Eight(0x00) == 0x0000 && Eight(0x10) == 0xCC01 && Eight(0x20) == 0xD801 && Eight(0x30) == 0x1400
    ensures Eight(0x40) == 0xF001 && Eight(0x50) == 0x3C00 && Eight(0x60) == 0x2800 && Eight(0x70) == 0xE401
    ensures Eight(0x80) == 0xA001 && Eight(0x90) == 0x6C00 && Eight(0xA0) == 0x7800 && Eight(0xB0) == 0xB401
    ensures Eight(0xC0) == 0x5000 && Eight(0xD0) == 0x9C01 && Eight(0xE0) == 0x8801 && Eight(0xF0) == 0x4400
  {
  }

  ghost predicate ColumnOk(c: nat) {
    Shape() && c < 16 && Eight(COLUMN[c]) == LittleEndian(HI[0][c], LO[0][c])
  }

  ghost predicate RowOk(r: nat) {
    Shape() && r < 16 && Eight(ROW[r]) == LittleEndian(HI[r][0], LO[r][0])
  }

  lemma FirstRow()
    ensures forall c: nat :: c < 16 ==> ColumnOk(c)
  {
    hide Eight;
    EightOfColumns();
    assert ColumnOk(0) && ColumnOk(1) && ColumnOk(2) && ColumnOk(3);
    assert ColumnOk(4) && ColumnOk(5) && ColumnOk(6) && ColumnOk(7);
    assert ColumnOk(8) && ColumnOk(9) && ColumnOk(10) && ColumnOk(11);
    assert ColumnOk(12) && ColumnOk(13) && ColumnOk(14) && ColumnOk(15);
  }

  lemma FirstColumn()
    ensures forall r: nat :: r < 16 ==> RowOk(r)
  {
    hide Eight;
    EightOfRows();
    assert RowOk(0) && RowOk(1) && RowOk(2) && RowOk(3);
    assert RowOk(4) && RowOk(5) && RowOk(6) && RowOk(7);
    assert RowOk(8) && RowOk(9) && RowOk(10) && RowOk(11);
    assert RowOk(12) && RowOk(13) && RowOk(14) && RowOk(15);
  }

  lemma ColumnOf(i: bv8)
    requires i < 16
    ensures (i as nat) < 16 && |COLUMN| == 16 && COLUMN[i as nat] == i as bv16
  {
  }

  lemma RowOf(i: bv8)
    ensures ((i >> 4) as nat) < 16 && |ROW| == 16 && ROW[(i >> 4) as nat] == (i as bv16) & 0xF0
  {
  }

  lemma AllRowsScaled(r: nat)
    requires r < 16
    ensures ScaledRow(r)
  {
    hide ScaledRow;
    if r < 2 {
      RowsFrom0();
    } else if r < 4 {
      RowsFrom2();
    } else if r < 6 {
      RowsFrom4();
    } else if r < 8 {
      RowsFrom6();
    } else if r < 10 {
      RowsFrom8();
    } else if r < 12 {
      RowsFrom10();
    } else if r < 14 {
      RowsFrom12();
    } else {
      RowsFrom14();
    }
  }

  /** The byte operations of the update, named so that proofs can treat them as a whole. */
  function Mix(a: bv8, b: bv8): bv8 {
    a ^ b
  }

  function InLowByte(b: bv8): bv16 {
    b as bv16
  }

  function InHighByte(b: bv8): bv16 {
    (b as bv16) << 8
  }

  lemma MixBytes(h: bv8, l: bv8, h': bv8, l': bv8)
    ensures LittleEndian(Mix(h, h'), Mix(l, l')) == Xor(LittleEndian(h, l), LittleEndian(h', l'))
  {
  }

  lemma IndexNibbles(i: bv8)
    ensures InLowByte(i) == Xor((i & 0x0F) as bv16, (i as bv16) & 0xF0) && i & 0x0F < 16
  {
  }

  lemma ScaledEntry(row: seq<bv8>, base: seq<bv8>, c: nat)
    requires Scaled(row, base) && c < 16
    ensures row[c] == Mix(base[c], row[0])
  {
  }

  /** Every table entry is the bit-serial CRC of its index. */
  lemma EntryIsCrc(i: bv8)
    ensures Shape()
    ensures Steps(MODBUS_POLY, InLowByte(i), 8) == LittleEndian(Entry(HI, i), Entry(LO, i))
  {
    hide Eight, Steps, Xor, LittleEndian, Mix, Scaled, InLowByte;
    TableShape();
    IndexNibbles(i);
    ColumnOf(i & 0x0F);
    RowOf(i);
    var r, c := (i >> 4) as nat, (i & 0x0F) as nat;
    CellIsCrc(r, c);
  }

  lemma CellIsCrc(r: nat, c: nat)
    requires r < 16 && c < 16
    ensures Shape()
    ensures Steps(MODBUS_POLY, Xor(COLUMN[c], ROW[r]), 8) == LittleEndian(HI[r][c], LO[r][c])
  {
    hide Eight, Steps, Xor, LittleEndian, Mix, Scaled;
    FirstRow();
    FirstColumn();
    assert ColumnOk(c) && RowOk(r);
    AllRowsScaled(r);
    StepsIsEight(COLUMN[c]);
    StepsIsEight(ROW[r]);
    StepsLinear(MODBUS_POLY, COLUMN[c], ROW[r], 8);
    ScaledEntry(HI[r], HI[0], c);
    ScaledEntry(LO[r], LO[0], c);
    MixBytes(HI[0][c], LO[0][c], HI[r][0], LO[r][0]);
  }

  /** One table lookup is one byte of the bit-serial CRC. */
  lemma LookupIsUpdate(low: bv8, high: bv8, d: bv8)
    ensures Shape()
    ensures var i := Mix(low, d);
      Update(MODBUS_POLY, LittleEndian(low, high), d) == LittleEndian(Mix(high, Entry(HI, i)), Entry(LO, i))
  {
    hide Steps, Xor, LittleEndian, Shape, Entry, Mix, InLowByte, InHighByte;
    var i := Mix(low, d);
    EntryIsCrc(i);
    SplitRegister(low, high, d);
    StepsLinear(MODBUS_POLY, InLowByte(i), InHighByte(high), 8);
    HighByteSteps(high);
    XorLow(high, Entry(HI, i), Entry(LO, i));
  }

  lemma HighByteSteps(high: bv8)
    ensures Steps(MODBUS_POLY, InHighByte(high), 8) == InLowByte(high)
  {
    ByteTwices(high);
    PolyTop();
    StepsUndoTwices(MODBUS_POLY, high as bv16, 8);
  }

  lemma SplitRegister(low: bv8, high: bv8, d: bv8)
    ensures Xor(LittleEndian(low, high), d as bv16) == Xor(InLowByte(Mix(low, d)), InHighByte(high))
  {
  }

  lemma XorLow(high: bv8, h: bv8, l: bv8)
    ensures Xor(LittleEndian(h, l), InLowByte(high)) == LittleEndian(Mix(high, h), l)
  {
  }

  class Context {
    var low: bv8
    var high: bv8
    var len: nat               // a 16-bit count
    ghost var fed: seq<bv8>    // everything fed so far

    /** The register is the bit-serial CRC of all bytes fed, in however many chunks. */
    ghost predicate Valid()
      reads this
    {
      && LittleEndian(low, high) == Crc(MODBUS_POLY, MODBUS_INIT, fed)
      && len == |fed| % 0x1_0000
    }

    constructor ()
      ensures Valid() && fed == []
    {
      low, high, len, fed := 0xFF, 0xFF, 0, [];
      new;
      InitBytes();
    }

    method Update(buf: seq<bv8>)
      requires Valid() && |buf| < 0x1_0000
      modifies this
      ensures Valid() && fed == old(fed) + buf
    {
      hide LittleEndian, Crc16.Update, Crc, Entry, Shape, Mix;
      if |buf| == 0 {
        assert fed + buf == fed;
        return;
      }
      ghost var start := LittleEndian(low, high);
      NoBytes(start, buf);
      for i := 0 to |buf|
        invariant LittleEndian(low, high) == Crc(MODBUS_POLY, start, buf[..i])
        invariant len == old(len) && fed == old(fed)
      {
        var index := Mix(low, buf[i]);
        LookupIsUpdate(low, high, buf[i]);
        OneByteMore(start, buf, i);
        low := Mix(high, Entry(HI, index));
        high := Entry(LO, index);
      }
      assert buf[..|buf|] == buf;
      CrcConcat(MODBUS_POLY, MODBUS_INIT, fed, buf);
      fed := fed + buf;
      len := (len + |buf|) % 0x1_0000;
    }

    /**
      The CRC of everything fed, unless the 16-bit byte count stands at zero: then 0, which is
      meant for an empty message but also answers for a multiple of 65536 bytes.
     */
    method Value() returns (crc: bv16)
      requires Valid()
      ensures crc == if |fed| % 0x1_0000 == 0 then 0 else Crc(MODBUS_POLY, MODBUS_INIT, fed)
    {
      if len == 0 {
        return 0;
      }
      crc := LittleEndian(low, high);
    }
  }

  lemma NoBytes(start: bv16, buf: seq<bv8>)
    ensures Crc(MODBUS_POLY, start, buf[..0]) == start
  {
  }

  lemma OneByteMore(start: bv16, buf: seq<bv8>, i: nat)
    requires i < |buf|
    ensures Crc(MODBUS_POLY, start, buf[..i + 1])
         == Crc16.Update(MODBUS_POLY, Crc(MODBUS_POLY, start, buf[..i]), buf[i])
  {
    hide Crc16.Update;
    assert buf[..i + 1][..i] == buf[..i];
  }

  lemma InitBytes()
    ensures LittleEndian(0xFF, 0xFF) == MODBUS_INIT
  {
  }

  /** For every nonempty buffer the same value as the bit-serial `ModbusCRC`. */
  method CrcOf(buf: seq<bv8>) returns (crc: bv16)
    requires |buf| < 0x1_0000
    ensures crc == if buf == [] then 0 else Crc(MODBUS_POLY, MODBUS_INIT, buf)
  {
    var ctx := new Context();
    ctx.Update(buf);
    assert [] + buf == buf;
    crc := ctx.Value();
  }
}
