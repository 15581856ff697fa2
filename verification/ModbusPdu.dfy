/** Bytes as numbers. */
module ByteValues {

  function ToByte(n: nat): bv8
    requires n < 256
  {
    n as bv8
  }

  function FromByte(b: bv8): (n: nat)
    ensures n < 256
  {
    b as nat
  }

  lemma ByteBack(n: nat)
    requires n < 256
    ensures FromByte(ToByte(n)) == n
  {
    ThereAndBack(n);
  }

  lemma ValueBack(b: bv8)
    ensures ToByte(FromByte(b)) == b
  {
  }

  lemma ThereAndBack(n: nat)
    requires n < 256
    ensures (n as bv8) as nat == n
  {
    var b := Reach(n);
    assert (b as nat) as bv8 == b;
  }

  lemma {:induction false} Reach(n: nat) returns (b: bv8)
    requires n < 256
    ensures b as nat == n
  {
    if n == 0 {
      b := 0;
    } else {
      b := Reach(n - 1);
      Successor(b);
      b := b + 1;
    }
  }

  lemma Successor(b: bv8)
    requires b != 0xFF
    ensures (b + 1) as nat == b as nat + 1
  {
  }
}

/**
  The fields of Modbus protocol data units: big-endian words, packed bits, counts and ranges.
 */
module ModbusPdu {
  import opened ByteValues
  import opened RomBytes

  type Word = x: int | 0 <= x < 0x1_0000

  /** modbusWBE. */
  function WordBytes(w: Word): seq<bv8> {
    [ToByte(w / 256), ToByte(w % 256)]
  }

  /** modbusRBE. */
  function ReadWord(s: seq<bv8>, at: nat): Word
    requires at + 1 < |s|
  {
    256 * FromByte(s[at]) + FromByte(s[at + 1])
  }

  lemma WordBack(s: seq<bv8>, at: nat, w: Word)
    requires at + 1 < |s| && s[at] == WordBytes(w)[0] && s[at + 1] == WordBytes(w)[1]
    ensures ReadWord(s, at) == w
  {
    hide ToByte, FromByte;
    ByteBack(w / 256);
    ByteBack(w % 256);
  }

  lemma WordBytesOf(s: seq<bv8>, at: nat)
    requires at + 1 < |s|
    ensures WordBytes(ReadWord(s, at)) == [s[at], s[at + 1]]
  {
    hide ToByte, FromByte;
    ValueBack(s[at]);
    ValueBack(s[at + 1]);
  }

  /** modbusMaskRead. */
  predicate ReadBit(s: seq<bv8>, n: nat)
    requires n / 8 < |s|
  {
    Bit(s[n / 8], n % 8)
  }

  /** A byte with bit `k` set or cleared. */
  function WithBit(b: bv8, k: nat, value: bool): bv8
    requires k < 8
  {
    if value then b | Mask(k) else b & !Mask(k)
  }

  lemma WithBitAt(b: bv8, k: nat, value: bool, j: nat)
    requires k < 8 && j < 8
    ensures Bit(WithBit(b, k, value), j) == if j == k then value else Bit(b, j)
  {
    hide Bit, Mask;
    PutBit(b, k, j);
  }

  /** modbusMaskWrite. */
  function WriteBit(s: seq<bv8>, n: nat, value: bool): (t: seq<bv8>)
    requires n / 8 < |s|
    ensures |t| == |s|
  {
    s[n / 8 := WithBit(s[n / 8], n % 8, value)]
  }

  lemma WriteReadBit(s: seq<bv8>, n: nat, value: bool, k: nat)
    requires n / 8 < |s| && k / 8 < |s|
    ensures ReadBit(WriteBit(s, n, value), k) == if k == n then value else ReadBit(s, k)
  {
    hide WithBit, Bit;
    if n / 8 == k / 8 {
      WithBitAt(s[n / 8], n % 8, value, k % 8);
    }
  }

  lemma ZeroBits(s: seq<bv8>, k: nat)
    requires k / 8 < |s| && s[k / 8] == 0
    ensures !ReadBit(s, k)
  {
    hide Mask, Bit;
    ZeroByte(s[k / 8]);
  }

  function BitsToBytes(n: nat): nat {
    (n + 7) / 8
  }

  /** modbusCheckRangeU16, which holds when the range runs past the last address. */
  predicate CheckRange(index: Word, count: Word) {
    index > 0xFFFF - count + 1
  }

  /** `data` packs `bits`, low bit first, in as few bytes as possible, with zeros behind them. */
  ghost predicate HoldsBits(data: seq<bv8>, bits: seq<bool>) {
    && |data| == BitsToBytes(|bits|)
    && forall k: nat :: k < 8 * |data| ==> ReadBit(data, k) == (k < |bits| && bits[k])
  }

  ghost predicate HoldsWords(data: seq<bv8>, words: seq<Word>) {
    && |data| == 2 * |words|
    && forall k: nat :: k < |words| ==> ReadWord(data, 2 * k) == words[k]
  }

  // ---------------------------------------------------------------------------------------
  // Functions and the register operations behind them

  datatype DataType = HOLDING_REGISTER | INPUT_REGISTER | COIL | DISCRETE_INPUT

  datatype Query = R_CHECK | R | W_CHECK | W

  /** What the library asks of the application's register callback. */
  datatype Args = Args(kind: DataType, query: Query, index: Word, value: Word, code: bv8)

  datatype Result = Result(fail: bool, exception: bv8, value: Word)

  predicate ReadFunction(f: bv8) {
    f == 1 || f == 2 || f == 3 || f == 4
  }

  predicate WritesMany(f: bv8) {
    f == 15 || f == 16
  }

  function ReadKind(f: bv8): DataType
    requires ReadFunction(f)
  {
    if f == 1 then COIL else if f == 2 then DISCRETE_INPUT else if f == 3 then HOLDING_REGISTER else INPUT_REGISTER
  }

  predicate Bitwise(kind: DataType) {
    kind.COIL? || kind.DISCRETE_INPUT?
  }

  function MaxRead(f: bv8): nat
    requires ReadFunction(f)
  {
    if f == 1 || f == 2 then 2000 else 125
  }

  function MaxWrite(f: bv8): nat {
    if f == 15 then 1968 else 123
  }

  function WriteKind(f: bv8): DataType {
    if f == 5 || f == 15 then COIL else HOLDING_REGISTER
  }

  function DataLength(bitwise: bool, count: nat): nat {
    if bitwise then BitsToBytes(count) else 2 * count
  }

  /** The values carried by `data`: bits become 0 and 1. */
  function ValueAt(bitwise: bool, data: seq<bv8>, i: nat): Word
    requires if bitwise then i / 8 < |data| else 2 * i + 1 < |data|
  {
    if bitwise then (if ReadBit(data, i) then 1 else 0) else ReadWord(data, 2 * i)
  }

  function Values(bitwise: bool, data: seq<bv8>, count: nat): (values: seq<Word>)
    requires |data| == DataLength(bitwise, count)
    ensures |values| == count
  {
    seq<Word>(count, (i: int) requires 0 <= i < count => ValueAt(bitwise, data, i))
  }

  /** `data` is the wire form of `values`. */
  ghost predicate Carries(bitwise: bool, data: seq<bv8>, values: seq<Word>) {
    if bitwise then HoldsBits(data, Truths(values)) else HoldsWords(data, values)
  }

  function Truths(values: seq<Word>): (bits: seq<bool>)
    ensures |bits| == |values|
  {
    seq(|values|, (i: int) requires 0 <= i < |values| => values[i] != 0)
  }

  /** What is left of a value that went over the wire. */
  function Carried(bitwise: bool, value: Word): Word {
    if bitwise then (if value != 0 then 1 else 0) else value
  }

  function AllCarried(bitwise: bool, values: seq<Word>): (carried: seq<Word>)
    ensures |carried| == |values|
  {
    seq<Word>(|values|, (i: int) requires 0 <= i < |values| => Carried(bitwise, values[i]))
  }

  lemma CarriedValues(bitwise: bool, data: seq<bv8>, values: seq<Word>)
    requires Carries(bitwise, data, values)
    ensures |data| == DataLength(bitwise, |values|)
    ensures Values(bitwise, data, |values|) == AllCarried(bitwise, values)
  {
    hide ReadBit, ReadWord;
    forall i: nat | i < |values|
      ensures |data| == DataLength(bitwise, |values|) && ValueAt(bitwise, data, i) == Carried(bitwise, values[i])
    {
      if bitwise {
        assert ReadBit(data, i) == Truths(values)[i];
      }
    }
  }

  /** Exception response. */
  function Exception(f: bv8, code: bv8): seq<bv8> {
    [f | 0x80, code]
  }

  /** A request that names a function, a first register and one more word. */
  function ShortPdu(f: bv8, a: Word, b: Word): (pdu: seq<bv8>)
    ensures |pdu| == 5
  {
    [f] + WordBytes(a) + WordBytes(b)
  }

  /** A word goes out high byte first. */
  lemma HighFirst(w: Word)
    ensures FromByte(WordBytes(w)[0]) == w / 256 && FromByte(WordBytes(w)[1]) == w % 256
  {
    hide ToByte, FromByte;
    ByteBack(w / 256);
    ByteBack(w % 256);
  }

  /** The bytes of a word that was read. */
  lemma ReadHighFirst(s: seq<bv8>, at: nat)
    requires at + 1 < |s|
    ensures FromByte(s[at]) == ReadWord(s, at) / 256 && FromByte(s[at + 1]) == ReadWord(s, at) % 256
  {
    hide FromByte;
  }

  lemma ShortPduBytes(f: bv8, a: Word, b: Word)
    ensures var pdu := ShortPdu(f, a, b);
      && pdu[0] == f && FromByte(pdu[1]) == a / 256 && FromByte(pdu[2]) == a % 256
      && FromByte(pdu[3]) == b / 256 && FromByte(pdu[4]) == b % 256
  {
    hide ToByte, FromByte;
    HighFirst(a);
    HighFirst(b);
  }

  lemma ShortPduFields(f: bv8, a: Word, b: Word)
    ensures var pdu := ShortPdu(f, a, b); pdu[0] == f && ReadWord(pdu, 1) == a && ReadWord(pdu, 3) == b
  {
    hide ToByte, ReadWord;
    var pdu := ShortPdu(f, a, b);
    WordBack(pdu, 1, a);
    WordBack(pdu, 3, b);
  }

  lemma ShortPduOf(pdu: seq<bv8>)
    requires |pdu| == 5
    ensures ShortPdu(pdu[0], ReadWord(pdu, 1), ReadWord(pdu, 3)) == pdu
  {
    hide WordBytes, ReadWord;
    WordBytesOf(pdu, 1);
    WordBytesOf(pdu, 3);
  }

  lemma LongPduOf(pdu: seq<bv8>)
    requires |pdu| == 7
    ensures [pdu[0]] + WordBytes(ReadWord(pdu, 1)) + WordBytes(ReadWord(pdu, 3)) + WordBytes(ReadWord(pdu, 5)) == pdu
  {
    hide WordBytes, ReadWord;
    WordBytesOf(pdu, 1);
    WordBytesOf(pdu, 3);
    WordBytesOf(pdu, 5);
  }

  /** A request to write many values. */
  function WritePdu(f: bv8, index: Word, count: Word, data: seq<bv8>): seq<bv8>
    requires |data| < 256
  {
    ShortPdu(f, index, count) + [ToByte(|data|)] + data
  }

  lemma WritePduFields(f: bv8, index: Word, count: Word, data: seq<bv8>)
    requires |data| < 256
    ensures var pdu := WritePdu(f, index, count, data);
      && |pdu| == 6 + |data| && pdu[0] == f && ReadWord(pdu, 1) == index && ReadWord(pdu, 3) == count
      && FromByte(pdu[5]) == |data| && pdu[6..] == data
  {
    hide ToByte, FromByte;
    ShortPduFields(f, index, count);
    ByteBack(|data|);
    var short := ShortPdu(f, index, count);
    var pdu := WritePdu(f, index, count, data);
    assert pdu[..5] == short;
    assert ReadWord(pdu, 1) == ReadWord(short, 1) && ReadWord(pdu, 3) == ReadWord(short, 3);
  }

  /** The queries for `count` consecutive registers. */
  function ReadArgs(query: Query, f: bv8, index: Word, count: nat): (args: seq<Args>)
    requires ReadFunction(f) && index + count <= 0x1_0000
    ensures |args| == count
  {
    seq(count, (i: int) requires 0 <= i < count => Args(ReadKind(f), query, index + i, 0, f))
  }

  function WriteArgs(query: Query, f: bv8, index: Word, values: seq<Word>): (args: seq<Args>)
    requires index + |values| <= 0x1_0000
    ensures |args| == |values|
  {
    seq(|values|, (i: int) requires 0 <= i < |values| => Args(WriteKind(f), query, index + i, values[i], f))
  }
}
