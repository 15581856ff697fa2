/**
  The streaming front end of MD5: buffering into 64-byte blocks, the 64-bit length with its
  carry, and the final padding (sections 3.1 to 3.5 of RFC 1321). The block compression
  function is a parameter.
 */
module Md5Spec {
  type Byte = x: int | 0 <= x < 256
  type Word = x: int | 0 <= x < WORD

  const WORD := 0x1_0000_0000
  const BLOCK := 64

  datatype Chain = Chain(a: Word, b: Word, c: Word, d: Word)

  type Compression = (Chain, seq<Byte>) -> Chain

  const INITIAL := Chain(0x67452301, 0xefcdab89, 0x98badcfe, 0x10325476)

  function Fold(f: Compression, s: Chain, blocks: seq<Byte>): Chain
    requires |blocks| % BLOCK == 0
    decreases |blocks|
  {
    if blocks == [] then s else Fold(f, f(s, blocks[..BLOCK]), blocks[BLOCK..])
  }

  function LittleEndian(x: nat, n: nat): (bytes: seq<Byte>)
    ensures |bytes| == n
  {
    if n == 0 then [] else [x % 256] + LittleEndian(x / 256, n - 1)
  }

  function Digest(s: Chain): (bytes: seq<Byte>)
    ensures |bytes| == 16
  {
    LittleEndian(s.a, 4) + LittleEndian(s.b, 4) + LittleEndian(s.c, 4) + LittleEndian(s.d, 4)
  }

  /** The digest is the words a, b, c and d, each from its low byte on. */
  lemma DigestBytes(s: Chain)
    ensures forall i: nat :: i < 4 ==> var w := [s.a, s.b, s.c, s.d][i];
      && Digest(s)[4 * i] == w % 256 && Digest(s)[4 * i + 1] == w / 0x100 % 256
      && Digest(s)[4 * i + 2] == w / 0x1_0000 % 256 && Digest(s)[4 * i + 3] == w / 0x100_0000
  {
    hide LittleEndian;
    FourBytes(s.a);
    FourBytes(s.b);
    FourBytes(s.c);
    FourBytes(s.d);
  }

  lemma FourBytes(x: Word)
    ensures LittleEndian(x, 4) == [x % 256, x / 0x100 % 256, x / 0x1_0000 % 256, x / 0x100_0000]
  {
    var y := x / 256;
    var z := y / 256;
    assert LittleEndian(x, 4) == [x % 256] + LittleEndian(y, 3);
    assert LittleEndian(y, 3) == [y % 256] + LittleEndian(z, 2);
    assert LittleEndian(z, 2) == [z % 256] + LittleEndian(z / 256, 1);
    assert LittleEndian(z / 256, 1) == [z / 256 % 256] + LittleEndian(z / 256 / 256, 0);
    assert z == x / 0x1_0000 && z / 256 == x / 0x100_0000;
  }

  /** The initial words, as section 3.3 of RFC 1321 lists their bytes. */
  lemma InitialBytes()
    ensures Digest(INITIAL) ==
      [0x01, 0x23, 0x45, 0x67, 0x89, 0xab, 0xcd, 0xef, 0xfe, 0xdc, 0xba, 0x98, 0x76, 0x54, 0x32, 0x10]
  {
    hide LittleEndian;
    WordSpelled(0x67452301, 0x01, 0x23, 0x45, 0x67);
    WordSpelled(0xefcdab89, 0x89, 0xab, 0xcd, 0xef);
    WordSpelled(0x98badcfe, 0xfe, 0xdc, 0xba, 0x98);
    WordSpelled(0x10325476, 0x76, 0x54, 0x32, 0x10);
  }

  lemma WordSpelled(x: Word, b0: Byte, b1: Byte, b2: Byte, b3: Byte)
    requires x == b0 + 0x100 * b1 + 0x1_0000 * b2 + 0x100_0000 * b3
    ensures LittleEndian(x, 4) == [b0, b1, b2, b3]
  {
    hide LittleEndian;
    FourBytes(x);
    assert x / 0x100 == b1 + 0x100 * b2 + 0x1_0000 * b3;
    assert x / 0x1_0000 == b2 + 0x100 * b3;
  }

  function Zeros(n: nat): (zeros: seq<Byte>)
    ensures |zeros| == n
  {
    seq(n, _ => 0)
  }

  /** Sections 3.1 and 3.2: a one bit, zeros up to 56 modulo 64, and the bit length modulo 2^64, low word first. */
  function Padded(message: seq<Byte>): (padded: seq<Byte>)
    ensures |padded| % BLOCK == 0
  {
    hide LittleEndian;
    EndsBlock(|message| + 1 + PadLength(|message|));
    message + [0x80] + Zeros(PadLength(|message|)) + LengthBytes(|message|)
  }

  /**
    The padding, byte by byte: the message, 0x80, zeros, and the bit length modulo 2^64 as two
    words, the low one first and each from its low byte on.
   */
  lemma PaddedBytes(message: seq<Byte>)
    ensures var p, n := Padded(message), |message|;
      && |p| % 64 == 0 && n + 9 <= |p| < n + 73 && p[..n] == message && p[n] == 0x80
      && (forall k :: n < k < |p| - 8 ==> p[k] == 0)
      && var bits := 8 * n % 0x1_0000_0000_0000_0000;
         var lo, hi := bits % 0x1_0000_0000, bits / 0x1_0000_0000;
         && p[|p| - 8] == lo % 256 && p[|p| - 7] == lo / 0x100 % 256
         && p[|p| - 6] == lo / 0x1_0000 % 256 && p[|p| - 5] == lo / 0x100_0000
         && p[|p| - 4] == hi % 256 && p[|p| - 3] == hi / 0x100 % 256
         && p[|p| - 2] == hi / 0x1_0000 % 256 && p[|p| - 1] == hi / 0x100_0000
  {
    hide LittleEndian, PadLength;
    var p, n := Padded(message), |message|;
    var lo, hi := 8 * n % (WORD * WORD) % WORD, 8 * n % (WORD * WORD) / WORD;
    TwoWords(lo, hi, n);
    FourBytes(lo);
    FourBytes(hi);
    assert p[|p| - 8..] == LengthBytes(n);
    LastEight(p, LengthBytes(n));
  }

  lemma LastEight(p: seq<Byte>, t: seq<Byte>)
    requires |p| >= 8 && p[|p| - 8..] == t
    ensures |t| == 8 && p[|p| - 8] == t[0] && p[|p| - 7] == t[1] && p[|p| - 6] == t[2] && p[|p| - 5] == t[3]
    ensures p[|p| - 4] == t[4] && p[|p| - 3] == t[5] && p[|p| - 2] == t[6] && p[|p| - 1] == t[7]
  {
  }

  lemma EndsBlock(n: nat)
    requires n % BLOCK == 56
    ensures (n + 8) % BLOCK == 0
  {
  }

  /** The number of zero bytes that bring a message of `n` bytes and its mark to 56 modulo 64. */
  function PadLength(n: nat): (k: nat)
    ensures k < BLOCK && (n + 1 + k) % BLOCK == 56
  {
    (55 - n) % BLOCK
  }

  function LengthBytes(n: nat): (bytes: seq<Byte>)
    ensures |bytes| == 8
  {
    LittleEndian(8 * n % (WORD * WORD), 8)
  }

  /** The two words hold the bit length of `n` bytes modulo 2^64. */
  ghost predicate Counted(lo: Word, hi: Word, n: nat) {
    lo + hi * WORD == 8 * n % (WORD * WORD)
  }

  function Md5(f: Compression, message: seq<Byte>): seq<Byte> {
    Digest(Fold(f, INITIAL, Padded(message)))
  }

  lemma {:induction false} FoldConcat(f: Compression, s: Chain, a: seq<Byte>, b: seq<Byte>)
    requires |a| % BLOCK == 0 && |b| % BLOCK == 0
    ensures Fold(f, s, a + b) == Fold(f, Fold(f, s, a), b)
    decreases |a|
  {
    if a == [] {
      assert a + b == b;
    } else {
      assert (a + b)[..BLOCK] == a[..BLOCK] && (a + b)[BLOCK..] == a[BLOCK..] + b;
      FoldConcat(f, f(s, a[..BLOCK]), a[BLOCK..], b);
    }
  }

  lemma FoldOne(f: Compression, s: Chain, a: seq<Byte>, block: seq<Byte>)
    requires |a| % BLOCK == 0 && |block| == BLOCK
    ensures Fold(f, s, a + block) == f(Fold(f, s, a), block)
  {
    FoldConcat(f, s, a, block);
    assert block[..BLOCK] == block && block[BLOCK..] == [];
  }

  /** `x` moved up by `n` bytes. */
  function Raised(x: nat, n: nat): nat {
    if n == 0 then x else 256 * Raised(x, n - 1)
  }

  lemma {:induction false} LittleEndianSplits(lo: nat, hi: nat, m: nat, n: nat)
    requires lo < Raised(1, m)
    ensures LittleEndian(lo + Raised(hi, m), m + n) == LittleEndian(lo, m) + LittleEndian(hi, n)
  {
    if m == 0 {
      assert LittleEndian(lo, m) == [];
    } else {
      var x := lo + Raised(hi, m);
      assert x % 256 == lo % 256 && x / 256 == lo / 256 + Raised(hi, m - 1);
      LittleEndianSplits(lo / 256, hi, m - 1, n);
    }
  }

  lemma TwoWords(lo: Word, hi: Word, n: nat)
    requires Counted(lo, hi, n)
    ensures LengthBytes(n) == LittleEndian(lo, 4) + LittleEndian(hi, 4)
  {
    assert forall x: nat :: Raised(x, 4) == 256 * Raised(x, 3) == 65536 * Raised(x, 2);
    assert forall x: nat :: Raised(x, 2) == 256 * Raised(x, 1) == 65536 * x;
    LittleEndianSplits(lo, hi, 4, 4);
  }

  lemma Regroup(head: seq<Byte>, tail: seq<Byte>, mark: seq<Byte>, z: seq<Byte>, y: seq<Byte>, length: seq<Byte>)
    ensures (head + tail) + mark + (z + y) + length == head + (tail + mark + z) + (y + length)
  {
  }

  lemma TwoPads(m: nat, n: nat)
    ensures Zeros(m + n) == Zeros(m) + Zeros(n)
  {
  }

  /** The last one or two padded blocks, `r` being the number of message bytes in the first of them. */
  lemma PaddedBlocks(message: seq<Byte>, r: nat)
    requires r == |message| % BLOCK
    ensures var head, tail := message[..|message| - r], message[|message| - r..];
      var length := LengthBytes(|message|);
      Padded(message) ==
      if r < 56 then head + (tail + [0x80] + Zeros(55 - r)) + length
      else head + (tail + [0x80] + Zeros(63 - r)) + (Zeros(56) + length)
  {
    hide LengthBytes, Zeros, PadLength;
    var head, tail := message[..|message| - r], message[|message| - r..];
    assert message == head + tail;
    PadCount(|message|, r);
    var length := LengthBytes(|message|);
    if r < 56 {
      Regroup(head, tail, [0x80], Zeros(55 - r), [], length);
      assert Zeros(55 - r) + [] == Zeros(55 - r) && [] + length == length;
    } else {
      TwoPads(63 - r, 56);
      Regroup(head, tail, [0x80], Zeros(63 - r), Zeros(56), length);
    }
  }

  lemma PadCount(n: nat, r: nat)
    requires r == n % BLOCK
    ensures PadLength(n) == if r < 56 then 55 - r else 63 - r + 56
  {
  }

  /** The two-word bit count: the carry test and the truncated shift add exactly, modulo 2^64. */
  lemma CountBits(lo: Word, hi: Word, total: nat, len: Word, lo': Word, hi': Word)
    requires Counted(lo, hi, total)
    requires lo' == (lo + 8 * len % WORD) % WORD
    requires hi' == ((if lo' < lo then (hi + 1) % WORD else hi) + len / 0x2000_0000) % WORD
    ensures Counted(lo', hi', total + len)
  {
    var q := len / 0x2000_0000;
    var low := 8 * len % WORD;
    ShiftedLength(len);
    var carry := if lo' < lo then 1 else 0;
    LowWord(lo, low, lo', carry);
    HighWord(hi, carry, q, hi');
    var j := (hi + carry + q) / WORD;
    var k := 8 * total / (WORD * WORD);
    Residue(8 * (total + len), lo' + hi' * WORD, j + k);
  }

  lemma ShiftedLength(len: Word)
    ensures 8 * len == 8 * len % WORD + len / 0x2000_0000 * WORD
  {
  }

  lemma LowWord(lo: Word, low: Word, lo': Word, carry: int)
    requires lo' == (lo + low) % WORD && carry == if lo' < lo then 1 else 0
    ensures lo + low == lo' + carry * WORD
  {
  }

  lemma HighWord(hi: Word, carry: int, q: nat, hi': Word)
    requires carry == 0 || carry == 1
    requires hi' == ((if carry == 1 then (hi + 1) % WORD else hi) + q) % WORD
    ensures hi + carry + q == hi' + (hi + carry + q) / WORD * WORD
  {
  }

  lemma Residue(x: nat, r: nat, k: nat)
    requires x == r + k * (WORD * WORD) && r < WORD * WORD
    ensures r == x % (WORD * WORD)
  {
  }

  /** The byte position in the block is read off the low word of the bit count. */
  lemma Position(lo: Word, hi: Word, total: nat)
    requires Counted(lo, hi, total)
    ensures lo / 8 % BLOCK == total % BLOCK
  {
    var q := hi + 8 * total / (WORD * WORD) * WORD;
    assert 8 * total == lo + q * WORD;
    EighthPosition(lo, q, total);
  }

  lemma EighthPosition(lo: nat, q: nat, total: nat)
    requires 8 * total == lo + q * WORD
    ensures lo / 8 % BLOCK == total % BLOCK
  {
    assert total == lo / 8 + q * 0x80_0000 * BLOCK;
  }
}

module Md5 {
  import opened Md5Spec

  class Context {
    var buf: Chain
    var bits0: Word
    var bits1: Word
    const block: array<Byte>
    const transform: Compression
    ghost var message: seq<Byte>

    ghost predicate Valid()
      reads this, block
    {
      var n := |message| - |message| % BLOCK;
      && block.Length == BLOCK
      && Counted(bits0, bits1, |message|)
      && buf == Fold(transform, INITIAL, message[..n])
      && block[..|message| % BLOCK] == message[n..]
    }

    /** MD5Init. */
    constructor (f: Compression)
      ensures Valid() && message == [] && fresh(block) && transform == f
    {
      buf := INITIAL;
      bits0 := 0;
      bits1 := 0;
      block := new Byte[BLOCK];
      transform := f;
      message := [];
    }

    /** The first `done` bytes of `all` are folded into the chaining value. */
    ghost predicate Consumed(all: seq<Byte>, done: nat)
      reads this`buf
    {
      done <= |all| && done % BLOCK == 0 && buf == Fold(transform, INITIAL, all[..done])
    }

    method Compress(ghost all: seq<Byte>, ghost done: nat)
      requires block.Length == BLOCK && Consumed(all, done)
      requires done + BLOCK <= |all| && block[..] == all[done..done + BLOCK]
      modifies this`buf
      ensures Consumed(all, done + BLOCK)
    {
      assert all[..done] + block[..] == all[..done + BLOCK];
      FoldOne(transform, INITIAL, all[..done], block[..]);
      buf := transform(buf, block[..]);
    }

    /** memcpy to offset `at` of the block. */
    method Copy(at: nat, data: seq<Byte>)
      requires block.Length == BLOCK && at + |data| <= BLOCK
      modifies block
      ensures block[..at + |data|] == old(block[..at]) + data
    {
      forall k | 0 <= k < |data| {
        block[at + k] := data[k];
      }
    }

    method CopyAndCompress(at: nat, data: seq<Byte>, ghost all: seq<Byte>, ghost done: nat)
      requires block.Length == BLOCK && at + |data| == BLOCK && Consumed(all, done)
      requires done + BLOCK <= |all| && block[..at] + data == all[done..done + BLOCK]
      modifies this`buf, block
      ensures Consumed(all, done + BLOCK)
    {
      hide Fold;
      Copy(at, data);
      assert block[..] == block[..BLOCK];
      Compress(all, done);
    }

    method CountUp(len: Word)
      requires Counted(bits0, bits1, |message|)
      modifies this`bits0, this`bits1
      ensures Counted(bits0, bits1, |message| + len)
    {
      var t := bits0;
      ghost var hi := bits1;
      bits0 := (t + 8 * len % WORD) % WORD;
      if bits0 < t {
        bits1 := (bits1 + 1) % WORD;
      }
      bits1 := (bits1 + len / 0x2000_0000) % WORD;
      CountBits(t, hi, |message|, len, bits0, bits1);
    }

    /** Whole blocks go straight to the compression function; the remainder waits in the block. */
    method Absorb(data: seq<Byte>, ghost all: seq<Byte>, ghost from: nat) returns (ghost done: nat)
      requires block.Length == BLOCK && Consumed(all, from) && from <= |all| && data == all[from..]
      modifies this`buf, block
      ensures Consumed(all, done) && done <= |all| < done + BLOCK && block[..|all| - done] == all[done..]
    {
      hide Fold, Consumed;
      done := from;
      var rest := data;
      while |rest| >= BLOCK
        invariant done <= |all| && rest == all[done..] && Consumed(all, done)
      {
        CopyAndCompress(0, rest[..BLOCK], all, done);
        done := done + BLOCK;
        rest := rest[BLOCK..];
      }
      Copy(0, rest);
    }

    method Update(data: seq<Byte>)
      requires Valid() && |data| < WORD
      modifies this`buf, this`bits0, this`bits1, this`message, block
      ensures Valid() && message == old(message) + data
    {
      hide Fold, Counted, Consumed, Valid;
      Opens();
      var t := bits0;
      CountUp(|data|);
      t := t / 8 % BLOCK;
      ghost var all := message + data;
      ghost var done := |message| - t;
      ghost var had := block[..t];
      Extends(done, data);
      message := all;
      var rest := data;
      if t != 0 {
        var room := BLOCK - t;
        if |rest| < room {
          Copy(t, rest);
          Settled(all, done);
          return;
        }
        assert had + rest[..room] == all[done..done + BLOCK];
        CopyAndCompress(t, rest[..room], all, done);
        done := done + BLOCK;
        rest := rest[room..];
      }
      done := Absorb(rest, all, done);
      Settled(all, done);
    }
    lemma Opens()
      requires Valid()
      ensures block.Length == BLOCK
      ensures Counted(bits0, bits1, |message|)
      ensures bits0 / 8 % BLOCK == |message| % BLOCK <= |message|
      ensures Consumed(message, |message| - |message| % BLOCK)
      ensures block[..|message| % BLOCK] == message[|message| - |message| % BLOCK..]
    {
      hide Fold, Counted;
      Position(bits0, bits1, |message|);
    }

    lemma Extends(done: nat, data: seq<Byte>)
      requires Consumed(message, done)
      ensures Consumed(message + data, done) && (message + data)[done..] == message[done..] + data
    {
      hide Fold;
      assert (message + data)[..done] == message[..done];
    }

    lemma Settled(all: seq<Byte>, done: nat)
      requires message == all && block.Length == BLOCK && Counted(bits0, bits1, |all|)
      requires Consumed(all, done) && done <= |all| < done + BLOCK
      requires block[..|all| - done] == all[done..]
      ensures Valid()
    {
      hide Fold, Counted;
      assert |all| % BLOCK == |all| - done;
    }

    method Final() returns (digest: seq<Byte>)
      requires Valid()
      modifies this`buf, this`bits0, this`bits1, block
      ensures digest == Md5(transform, old(message)) && |digest| == 16
      ensures var s := Fold(transform, INITIAL, Padded(old(message)));
        forall i: nat :: i < 4 ==> var w := [s.a, s.b, s.c, s.d][i];
          && digest[4 * i] == w % 256 && digest[4 * i + 1] == w / 0x100 % 256
          && digest[4 * i + 2] == w / 0x1_0000 % 256 && digest[4 * i + 3] == w / 0x100_0000
      ensures buf == Chain(0, 0, 0, 0) && bits0 == 0 && bits1 == 0
      ensures forall k :: 0 <= k < block.Length ==> block[k] == 0
    {
      hide Fold, LittleEndian, LengthBytes, Counted, Consumed, Valid, Padded, Zeros, Digest;
      Opens();
      var count := bits0 / 8 % BLOCK;
      ghost var all := Padded(message);
      ghost var done := |message| - count;
      ghost var tail := message[done..];
      PaddedBlocks(message, count);
      TwoWords(bits0, bits1, |message|);
      Prefix(all, done);
      block[count] := 0x80;
      var p := count + 1;
      assert block[..p] == tail + [0x80];
      count := BLOCK - 1 - count;
      if count < 8 {
        assert all[done..done + BLOCK] == tail + [0x80] + Zeros(count);
        CopyAndCompress(p, Zeros(count), all, done);
        done := done + BLOCK;
        Copy(0, Zeros(56));
      } else {
        Copy(p, Zeros(count - 8));
      }
      AppendLength(all, done);
      digest := Digest(buf);
      DigestBytes(buf);
      buf := Chain(0, 0, 0, 0);
      bits0, bits1 := 0, 0;
      forall k | 0 <= k < block.Length {
        block[k] := 0;
      }
    }

    /** The last two words of the last block are the bit count. */
    method AppendLength(ghost all: seq<Byte>, ghost done: nat)
      requires block.Length == BLOCK && Consumed(all, done) && |all| == done + BLOCK
      requires all[done..] == block[..56] + LittleEndian(bits0, 4) + LittleEndian(bits1, 4)
      modifies this`buf, block
      ensures buf == Fold(transform, INITIAL, all)
    {
      hide Fold, LittleEndian;
      Copy(56, LittleEndian(bits0, 4));
      assert all[done..done + BLOCK] == all[done..];
      CopyAndCompress(60, LittleEndian(bits1, 4), all, done);
      assert all[..done + BLOCK] == all;
    }

    lemma Prefix(all: seq<Byte>, done: nat)
      requires Consumed(message, done) && done <= |all| && all[..done] == message[..done]
      ensures Consumed(all, done)
    {
    }
  }

  /** Contexts that absorbed the same message, however it was cut up, agree on all that later calls can see. */
  lemma ChunksDoNotMatter(x: Context, y: Context)
    requires x.Valid() && y.Valid() && x.message == y.message && x.transform == y.transform
    ensures x.buf == y.buf && x.bits0 == y.bits0 && x.bits1 == y.bits1
    ensures var n := |x.message| % BLOCK; x.block[..n] == y.block[..n]
  {
    var b := 8 * |x.message| % (WORD * WORD);
    assert x.bits0 == b % WORD && x.bits1 == b / WORD;
    assert y.bits0 == b % WORD && y.bits1 == b / WORD;
  }

  function Concat(chunks: seq<seq<Byte>>): seq<Byte> {
    if chunks == [] then [] else Concat(chunks[..|chunks| - 1]) + chunks[|chunks| - 1]
  }

  /** md5_vector. */
  method Md5Vector(f: Compression, chunks: seq<seq<Byte>>) returns (mac: seq<Byte>)
    requires forall c :: c in chunks ==> |c| < WORD
    ensures mac == Md5(f, Concat(chunks)) && |mac| == 16
    ensures var s := Fold(f, INITIAL, Padded(Concat(chunks)));
      forall i: nat :: i < 4 ==> var w := [s.a, s.b, s.c, s.d][i];
        && mac[4 * i] == w % 256 && mac[4 * i + 1] == w / 0x100 % 256
        && mac[4 * i + 2] == w / 0x1_0000 % 256 && mac[4 * i + 3] == w / 0x100_0000
  {
    hide Padded, Digest;
    var ctx := new Context(f);
    var i := 0;
    while i < |chunks|
      invariant i <= |chunks|
      invariant fresh(ctx) && fresh(ctx.block) && ctx.Valid() && ctx.transform == f
      invariant ctx.message == Concat(chunks[..i])
    {
      ctx.Update(chunks[i]);
      assert chunks[..i + 1][..i] == chunks[..i];
      i := i + 1;
    }
    assert chunks[..i] == chunks;
    mac := ctx.Final();
  }
}
