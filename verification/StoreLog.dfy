/**
  The bytes of a flash page: a status byte, a log of records, and 0xFF up to the end of the
  page. Programming flash can only clear bits, so it ANDs; erasing sets every byte to 0xFF.
 */
module StoreLog {

  const PAGE_SIZE := 256
  const CONTENT_MAX := 255
  const HEADER_SIZE := 4

  type Byte = b: int | 0 <= b < 256

  // ---------------------------------------------------------------------------------------
  // Bitwise AND

  function BitAnd(a: nat, b: nat): nat {
    if a == 0 || b == 0 then 0
    else 2 * BitAnd(a / 2, b / 2) + (if a % 2 == 1 && b % 2 == 1 then 1 else 0)
  }

  /** All bits of `a` up to its highest are set. */
  predicate Ones(a: nat) {
    a == 0 || (a % 2 == 1 && Ones(a / 2))
  }

  lemma {:induction false} AndOnes(a: nat, b: nat)
    requires Ones(a) && b <= a
    ensures BitAnd(a, b) == b
  {
    if b != 0 {
      AndOnes(a / 2, b / 2);
    }
  }

  lemma {:induction false} AndSelf(a: nat)
    ensures BitAnd(a, a) == a
  {
    if a != 0 {
      AndSelf(a / 2);
    }
  }

  lemma {:induction false} AndBelow(a: nat, b: nat)
    ensures BitAnd(a, b) <= a && BitAnd(a, b) <= b
  {
    if a != 0 && b != 0 {
      AndBelow(a / 2, b / 2);
    }
  }

  function And(a: Byte, b: Byte): (c: Byte) {
    AndBelow(a, b);
    BitAnd(a, b)
  }

  lemma AndErased(b: Byte)
    ensures And(0xFF, b) == b
  {
    assert Ones(0xFF);
    AndOnes(0xFF, b);
  }

  function BitOf(a: nat, n: nat): bool {
    if n == 0 then a % 2 == 1 else BitOf(a / 2, n - 1)
  }

  /** An AND never sets a bit: the law of programming flash. */
  lemma {:induction false} AndClears(a: nat, b: nat, n: nat)
    ensures BitOf(BitAnd(a, b), n) <==> BitOf(a, n) && BitOf(b, n)
    decreases n
  {
    if a == 0 || b == 0 {
      NoBits(n);
    } else if n > 0 {
      AndClears(a / 2, b / 2, n - 1);
    }
  }

  lemma {:induction false} NoBits(n: nat)
    ensures !BitOf(0, n)
  {
    if n > 0 {
      NoBits(n - 1);
    }
  }

  function AndSeq(x: seq<Byte>, y: seq<Byte>): (z: seq<Byte>)
    requires |x| == |y|
    ensures |z| == |x|
  {
    seq(|x|, (k: int) requires 0 <= k < |x| => And(x[k], y[k]))
  }

  /** Programming `buf` into a page at byte `at`. */
  function Program(page: seq<Byte>, at: nat, buf: seq<Byte>): (r: seq<Byte>)
    requires at + |buf| <= |page|
    ensures |r| == |page|
  {
    page[..at] + AndSeq(page[at..at + |buf|], buf) + page[at + |buf|..]
  }

  lemma ProgramMiddle(a: seq<Byte>, x: seq<Byte>, b: seq<Byte>, buf: seq<Byte>)
    requires |buf| == |x|
    ensures Program(a + x + b, |a|, buf) == a + AndSeq(x, buf) + b
  {
    var page := a + x + b;
    assert page[..|a|] == a;
    assert page[|a|..|a| + |x|] == x;
    assert page[|a| + |x|..] == b;
  }

  /** Programming a page sets no bit in it. */
  lemma ProgramClears(page: seq<Byte>, at: nat, buf: seq<Byte>)
    requires at + |buf| <= |page|
    ensures forall k, n: nat :: 0 <= k < |page| && BitOf(Program(page, at, buf)[k], n) ==> BitOf(page[k], n)
  {
    hide BitOf, BitAnd;
    forall k, n: nat | 0 <= k < |page| && BitOf(Program(page, at, buf)[k], n) ensures BitOf(page[k], n) {
      if at <= k < at + |buf| {
        assert Program(page, at, buf)[k] == And(page[k], buf[k - at]);
        AndClears(page[k], buf[k - at], n);
      }
    }
  }

  function Blank(n: nat): (s: seq<Byte>)
    ensures |s| == n
  {
    seq(n, _ => 0xFF)
  }

  lemma ProgramBlank(buf: seq<Byte>)
    ensures AndSeq(Blank(|buf|), buf) == buf
  {
    forall k | 0 <= k < |buf| ensures And(0xFF, buf[k]) == buf[k] {
      AndErased(buf[k]);
    }
  }

  // ---------------------------------------------------------------------------------------
  // Records

  type Word = w: int | 0 <= w < 0x1_0000

  /** A record; a tombstone is a record whose `idx` was programmed to 0. */
  datatype Rec = Rec(len: Byte, crc: Byte, idx: Word, content: seq<Byte>)

  predicate Sized(r: Rec) {
    |r.content| == r.len
  }

  function Header(r: Rec): (h: seq<Byte>)
    ensures |h| == HEADER_SIZE
  {
    [r.len, r.crc, r.idx % 256, r.idx / 256]
  }

  /** The `idx` field of a header read back, least significant byte first. */
  function HeaderIdx(h: seq<Byte>): Word
    requires |h| == HEADER_SIZE
  {
    var lo: int, hi: int := h[2], h[3];
    lo + 256 * hi
  }

  function Encode(r: Rec): (e: seq<Byte>)
    ensures |e| == HEADER_SIZE + |r.content|
  {
    Header(r) + r.content
  }

  function EncodeAll(log: seq<Rec>): seq<Byte> {
    if log == [] then [] else EncodeAll(log[..|log| - 1]) + Encode(log[|log| - 1])
  }

  lemma EmptyLog()
    ensures EncodeAll([]) == []
  {
  }

  /** Where record `i` starts within the content of its page. */
  function Offset(log: seq<Rec>, i: nat): nat
    requires i <= |log|
  {
    |EncodeAll(log[..i])|
  }

  function Dead(r: Rec): Rec {
    r.(idx := 0)
  }

  lemma {:induction false} EncodeConcat(a: seq<Rec>, b: seq<Rec>)
    ensures EncodeAll(a + b) == EncodeAll(a) + EncodeAll(b)
  {
    hide Encode;
    if b == [] {
      assert a + b == a;
    } else {
      var n := |b| - 1;
      assert (a + b)[..|a + b| - 1] == a + b[..n];
      EncodeConcat(a, b[..n]);
    }
  }

  lemma EncodeOne(r: Rec)
    ensures EncodeAll([r]) == Encode(r)
  {
    assert [r][..0] == [];
  }

  /** A page image around record `i`: what precedes it, the record, what follows. */
  lemma EncodeSplit(log: seq<Rec>, i: nat)
    requires i < |log|
    ensures EncodeAll(log) == EncodeAll(log[..i]) + Encode(log[i]) + EncodeAll(log[i + 1..])
    ensures Offset(log, i + 1) == Offset(log, i) + HEADER_SIZE + |log[i].content|
    ensures Offset(log, i + 1) <= |EncodeAll(log)|
  {
    EncodeOne(log[i]);
    assert log[..i + 1] == log[..i] + [log[i]];
    EncodeConcat(log[..i], [log[i]]);
    assert log == log[..i + 1] + log[i + 1..];
    EncodeConcat(log[..i + 1], log[i + 1..]);
  }

  lemma OffsetEnd(log: seq<Rec>)
    ensures Offset(log, |log|) == |EncodeAll(log)| && Offset(log, 0) == 0
  {
    assert log[..|log|] == log;
  }

  function Image(status: Byte, log: seq<Rec>): (page: seq<Byte>)
    requires |EncodeAll(log)| <= CONTENT_MAX
    ensures |page| == PAGE_SIZE
  {
    [status] + EncodeAll(log) + Blank(CONTENT_MAX - |EncodeAll(log)|)
  }

  /** Programming the status byte. */
  lemma ProgramStatus(status: Byte, log: seq<Rec>, next: Byte)
    requires |EncodeAll(log)| <= CONTENT_MAX
    ensures Program(Image(status, log), 0, [next]) == Image(And(status, next), log)
  {
    var rest := EncodeAll(log) + Blank(CONTENT_MAX - |EncodeAll(log)|);
    assert Image(status, log) == [] + [status] + rest;
    ProgramMiddle([], [status], rest, [next]);
    assert AndSeq([status], [next]) == [And(status, next)];
    assert [] + [And(status, next)] + rest == Image(And(status, next), log);
  }

  lemma BlankConcat(m: nat, n: nat)
    ensures Blank(m + n) == Blank(m) + Blank(n)
  {
  }

  /** Programming a record onto the blank end of the log appends it. */
  lemma ProgramAppend(status: Byte, log: seq<Rec>, r: Rec)
    requires |EncodeAll(log)| + |Encode(r)| <= CONTENT_MAX
    ensures |EncodeAll(log + [r])| == |EncodeAll(log)| + |Encode(r)|
    ensures Program(Image(status, log), 1 + |EncodeAll(log)|, Encode(r)) == Image(status, log + [r])
  {
    hide Encode, EncodeAll, Program, AndSeq, Blank;
    EncodeConcat(log, [r]);
    EncodeOne(r);
    var used, size := |EncodeAll(log)|, |Encode(r)|;
    var a, b := [status] + EncodeAll(log), Blank(CONTENT_MAX - used - size);
    BlankConcat(size, CONTENT_MAX - used - size);
    assert Image(status, log) == a + Blank(size) + b;
    ProgramMiddle(a, Blank(size), b, Encode(r));
    ProgramBlank(Encode(r));
    assert Image(status, log + [r]) == a + Encode(r) + b;
  }

  /** A page image around record `i`. */
  lemma ImageSplit(status: Byte, log: seq<Rec>, i: nat)
    requires i < |log| && |EncodeAll(log)| <= CONTENT_MAX
    ensures Offset(log, i) + HEADER_SIZE + |log[i].content| <= |EncodeAll(log)|
    ensures Image(status, log) == Before(status, log, i) + Header(log[i]) + After(log, i)
  {
    hide Header, Blank;
    EncodeSplit(log, i);
    var a, h, c := EncodeAll(log[..i]), Header(log[i]), log[i].content;
    var d, e := EncodeAll(log[i + 1..]), Blank(CONTENT_MAX - |EncodeAll(log)|);
    assert EncodeAll(log) == a + (h + c) + d;
    Regroup([status], a, h, c, d, e);
  }

  function Before(status: Byte, log: seq<Rec>, i: nat): seq<Byte>
    requires i < |log|
  {
    [status] + EncodeAll(log[..i])
  }

  function After(log: seq<Rec>, i: nat): seq<Byte>
    requires i < |log| && |EncodeAll(log)| <= CONTENT_MAX
  {
    log[i].content + EncodeAll(log[i + 1..]) + Blank(CONTENT_MAX - |EncodeAll(log)|)
  }

  lemma Regroup(s: seq<Byte>, a: seq<Byte>, h: seq<Byte>, c: seq<Byte>, d: seq<Byte>, e: seq<Byte>)
    ensures s + (a + (h + c) + d) + e == s + a + h + (c + d + e)
  {
  }

  /** Programming a record's header with `idx` 0 turns it into a tombstone in place. */
  lemma ProgramTombstone(status: Byte, log: seq<Rec>, i: nat)
    requires i < |log| && |EncodeAll(log)| <= CONTENT_MAX
    ensures |EncodeAll(log[i := Dead(log[i])])| == |EncodeAll(log)|
    ensures 1 + Offset(log, i) + HEADER_SIZE <= PAGE_SIZE
    ensures Program(Image(status, log), 1 + Offset(log, i), Header(Dead(log[i]))) ==
      Image(status, log[i := Dead(log[i])])
  {
    hide Program, AndSeq, Header, Image, EncodeAll, Blank;
    var r, next := log[i], log[i := Dead(log[i])];
    EncodeSplit(log, i);
    EncodeSplit(next, i);
    assert next[..i] == log[..i] && next[i + 1..] == log[i + 1..];
    ImageSplit(status, log, i);
    ImageSplit(status, next, i);
    ProgramMiddle(Before(status, log, i), Header(r), After(log, i), Header(Dead(r)));
    HeaderTombstone(r);
  }

  lemma HeaderTombstone(r: Rec)
    ensures AndSeq(Header(r), Header(Dead(r))) == Header(Dead(r))
  {
    AndSelf(r.len);
    AndSelf(r.crc);
    assert BitAnd(r.idx % 256, 0) == 0 && BitAnd(r.idx / 256, 0) == 0;
  }

  /** The bytes of a page, one by one: its status, and of each record length, CRC, index low and high, content. */
  lemma RecordBytes(status: Byte, log: seq<Rec>, i: nat)
    requires i < |log| && |EncodeAll(log)| <= CONTENT_MAX
    ensures var page, at := Image(status, log), 1 + Offset(log, i);
      && |page| == 256 && page[0] == status && at + 4 + |log[i].content| <= |page|
      && page[at] == log[i].len && page[at + 1] == log[i].crc
      && page[at + 2] == log[i].idx % 256 && page[at + 3] == log[i].idx / 256
      && page[at + 4..at + 4 + |log[i].content|] == log[i].content
    ensures Offset(log, 0) == 0 && Offset(log, i + 1) == Offset(log, i) + 4 + |log[i].content|
    ensures forall k :: 1 + Offset(log, |log|) <= k < 256 ==> Image(status, log)[k] == 0xFF
  {
    hide EncodeAll, Offset;
    ReadRecord(status, log, i);
    OffsetStep(log, i);
    OffsetEnd(log);
    var page, at := Image(status, log), 1 + Offset(log, i);
    var h := page[at..at + HEADER_SIZE];
    assert h[0] == page[at] && h[1] == page[at + 1] && h[2] == page[at + 2] && h[3] == page[at + 3];
  }

  lemma OffsetStep(log: seq<Rec>, i: nat)
    requires i < |log|
    ensures Offset(log, i + 1) == Offset(log, i) + HEADER_SIZE + |log[i].content|
  {
    EncodeSplit(log, i);
  }

  /** Reading back a record's header and content. */
  lemma ReadRecord(status: Byte, log: seq<Rec>, i: nat)
    requires i < |log| && |EncodeAll(log)| <= CONTENT_MAX
    ensures var at := 1 + Offset(log, i);
      && at + HEADER_SIZE + |log[i].content| <= 1 + |EncodeAll(log)|
      && Image(status, log)[at..at + HEADER_SIZE] == Header(log[i])
      && Image(status, log)[at + HEADER_SIZE..at + HEADER_SIZE + |log[i].content|] == log[i].content
  {
    hide Header, Image, EncodeAll, Blank;
    ImageSplit(status, log, i);
    var a, h, c := Before(status, log, i), Header(log[i]), log[i].content;
    var d := EncodeAll(log[i + 1..]) + Blank(CONTENT_MAX - |EncodeAll(log)|);
    assert After(log, i) == c + d;
    Slices(a, h, c, d);
    assert a + h + (c + d) == a + h + c + d;
  }

  lemma Slices(a: seq<Byte>, h: seq<Byte>, c: seq<Byte>, d: seq<Byte>)
    ensures var s := a + h + c + d;
      s[|a|..|a| + |h|] == h && s[|a| + |h|..|a| + |h| + |c|] == c
  {
  }

  lemma HeaderReads(r: Rec)
    ensures HeaderIdx(Header(r)) == r.idx
  {
  }
}
