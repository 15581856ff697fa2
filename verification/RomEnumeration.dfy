/**
  The one-call enumeration `Search_ROM`, which keeps the discrepancies at which it last went
  to the 0 side on an explicit stack.
 */
module RomEnumeration {
  import opened RomOrder
  import opened RomBytes
  import opened OneWireBus

  const MAX_DEVICES := 100

  /** The stack BUFFER[1..l], above the sentinel 0 in BUFFER[0], holds `z`. */
  ghost predicate Stack(buffer: seq<nat>, l: nat, z: seq<nat>) {
    && |buffer| == MAX_DEVICES - 1
    && l == |z| < |buffer|
    && buffer[0] == 0
    && forall i :: 0 <= i < |z| ==> buffer[i + 1] == z[i]
  }

  /** Row `i` of the result. */
  ghost function Row(romId: array2<bv8>, i: nat): (r: seq<bv8>)
    requires i < romId.Length0 && romId.Length1 == 8
    reads romId
    ensures |r| == 8
  {
    [romId[i, 0], romId[i, 1], romId[i, 2], romId[i, 3], romId[i, 4], romId[i, 5], romId[i, 6], romId[i, 7]]
  }

  /** The first rows of the result are the bytes of `out`. */
  ghost predicate Holds(romId: array2<bv8>, out: seq<Rom>)
    reads romId
  {
    && romId.Length0 == MAX_DEVICES && romId.Length1 == 8 && |out| <= MAX_DEVICES
    && forall i :: 0 <= i < |out| ==> Bits(Row(romId, i)) == out[i]
  }

  /** The ROM a pass starts from, and the position where it has to turn (0 on the first pass). */
  ghost predicate Start(S: set<Rom>, prev: Rom, last: nat) {
    S != {} && (last == 0 || (prev in S && last == LastZero(S, prev)))
  }

  /** What the stack holds once a pass has fixed the bits `p`. */
  ghost function StackAt(S: set<Rom>, prev: Rom, last: nat, p: seq<bool>): seq<nat>
    requires |p| <= 64
  {
    if |p| < last then Zeros(S, prev, 64) else Zeros(S, p, |p|)
  }

  /** The three ways a decision at a discrepancy changes the stack. */
  ghost predicate StackMove(z: seq<nat>, next: seq<nat>, c: nat, fork: bool, before: bool, b: bool) {
    && |z| <= 64 && (Last(z) < c ==> |z| < 64)
    && (!fork ==> next == z)
    && (fork && c > Last(z) ==> !b && next == z + [c])
    && (fork && c < Last(z) ==> b == before && next == z)
    && (fork && c == Last(z) ==> b && z != [] && next == z[..|z| - 1])
  }

  lemma StackStep(S: set<Rom>, prev: Rom, last: nat, p: seq<bool>)
    requires Start(S, prev, last) && |p| < 64 && p == Descent(S, prev, last, |p|)
    ensures var b := Pick(S, prev, last, p);
      StackMove(StackAt(S, prev, last, p), StackAt(S, prev, last, p + [b]), |p| + 1, Fork(S, p), prev[|p|], b)
    ensures |p| + 1 < Last(StackAt(S, prev, last, p)) ==> last != 0
  {
    hide Descent, Found, Zeros;
    if |p| + 1 < last {
      ZerosTop(S, prev, 64);
    } else if |p| + 1 == last {
      TurnAtLast(S, prev, last, p);
    } else {
      StackForward(S, prev, last, p);
    }
  }

  /** Beyond the turn the stack holds the 0-branches of the path walked so far. */
  lemma StackForward(S: set<Rom>, prev: Rom, last: nat, p: seq<bool>)
    requires last < |p| + 1 <= 64
    ensures var b, z := Pick(S, prev, last, p), Zeros(S, p, |p|);
      && Last(z) <= |p| && StackMove(z, Zeros(S, p + [b], |p| + 1), |p| + 1, Fork(S, p), prev[|p|], b)
  {
    hide Zeros;
    ZerosAdvance(S, p, Pick(S, prev, last, p));
    ZerosTop(S, p, |p|);
  }

  /** The buffer after a decision at bit `c`: a discrepancy above the top is pushed, one at the top is popped. */
  lemma StackAfter(buffer: seq<nat>, l: nat, z: seq<nat>, next: seq<nat>, c: nat, fork: bool, before: bool, b: bool,
                   newBuffer: seq<nat>, newL: nat)
    requires Stack(buffer, l, z) && StackMove(z, next, c, fork, before, b)
    requires l + 1 < |buffer| && c > 0
    requires if fork && c > buffer[l] then newL == l + 1 && newBuffer == buffer[l + 1 := c]
             else newBuffer == buffer && newL == if fork && c == buffer[l] then l - 1 else l
    ensures Stack(newBuffer, newL, next)
  {
  }

  /** The top of the stack is the position of the last open discrepancy, or the sentinel. */
  lemma StackTop(buffer: seq<nat>, l: nat, z: seq<nat>)
    requires Stack(buffer, l, z)
    ensures l < |buffer| && buffer[l] == Last(z)
  {
  }

  /** The bits fixed so far, with one more. */
  lemma IdAfter(id: seq<bool>, p: seq<bool>, b: bool, prev: Rom, last: nat, newId: seq<bool>)
    requires |id| == 64 && |p| < 64 && id[..|p|] == p && (last != 0 ==> id[|p|..] == prev[|p|..])
    requires newId == id[|p| := b]
    ensures newId[..|p| + 1] == p + [b] && (last != 0 ==> newId[|p| + 1..] == prev[|p| + 1..])
  {
    if last != 0 {
      assert newId[|p| + 1..] == id[|p|..][1..];
      assert prev[|p| + 1..] == prev[|p|..][1..];
    }
  }

  /** What is on the stack at any point of a pass is strictly increasing, within 1..64. */
  lemma BufferIncreases(bus: Bus, buffer: seq<nat>, l: nat, id: seq<bool>, prev: Rom, last: nat, p: seq<bool>)
    requires Reached(bus, buffer, l, id, prev, last, p)
    ensures l < |buffer| && IncreasingWithin(buffer[1..l + 1], 64)
  {
    hide Descent, Zeros, Start, Bus.At;
    var z := StackAt(bus.devices, prev, last, p);
    assert buffer[1..l + 1] == z;
    ZerosIncreasing(bus.devices, prev, 64);
    ZerosIncreasing(bus.devices, p, |p|);
  }

  /** At its last 0-branch a pass goes to the 1 side and the branch leaves the stack. */
  lemma TurnAtLast(S: set<Rom>, prev: Rom, last: nat, p: seq<bool>)
    requires Start(S, prev, last) && |p| < 64 && |p| + 1 == last && p == Descent(S, prev, last, |p|)
    ensures Fork(S, p)
    ensures var z := Zeros(S, prev, 64); z != [] && Last(z) == last && Zeros(S, p + [true], last) == z[..|z| - 1]
  {
    hide Found;
    ZerosTop(S, prev, 64);
    DescentRetraces(S, prev, last, |p|);
    ZerosAdvance(S, p, true);
    ZerosOfPrefix(S, p, prev, |p|);
    ZerosBelowLast(S, prev, 64);
  }

  /** Where a pass is once it has fixed the bits `p`. */
  ghost predicate Reached(bus: Bus, buffer: seq<nat>, l: nat, id: seq<bool>, prev: Rom, last: nat, p: seq<bool>)
    reads bus
  {
    && Start(bus.devices, prev, last) && |p| <= 64
    && bus.At(p) && bus.slot == 0
    && p == Descent(bus.devices, prev, last, |p|)
    && Stack(buffer, l, StackAt(bus.devices, prev, last, p))
    && |id| == 64 && id[..|p|] == p && (last != 0 ==> id[|p|..] == prev[|p|..])
  }

  /** One ROM bit of one pass: read two slots, decide, write, and shift the bit into `s`. */
  method SearchBit(bus: Bus, buffer: array<nat>, l: nat, id: array<bool>, i: nat, s: bv8,
                   ghost prev: Rom, ghost last: nat, ghost p: seq<bool>)
    returns (newL: nat, newS: bv8, ghost b: bool)
    requires Reached(bus, buffer[..], l, id[..], prev, last, p)
    requires i == |p| < 64
    modifies bus, buffer, id
    ensures Reached(bus, buffer[..], newL, id[..], prev, last, p + [b])
    ensures newS == (s >> 1) | (if b then 0x80 else 0)
  {
    hide Descent, Zeros, Found, StackAt, Bus.At, Bus.AllSend, Stack, StackMove, Start, Pick;
    ghost var S, z := bus.devices, StackAt(bus.devices, prev, last, p);
    bus.Slots(p);
    HasChild(S, p);
    StackStep(S, prev, last, p);
    DescentStep(S, prev, last, |p|);
    b := Pick(S, prev, last, p);
    Decides(S, prev, last, p, z, buffer[..], l, id[..]);
    var bit0 := bus.ReadBit();
    var bit1 := bus.ReadBit();
    newL, newS := l, s >> 1;
    if !bit0 && bit1 {
      bus.WriteBit(false, p);
      id[i] := false;
    } else if bit0 && !bit1 {
      newS := newS | 0x80;
      bus.WriteBit(true, p);
      id[i] := true;
    } else if !bit0 && !bit1 {
      var conflictBit := i + 1;
      if conflictBit > buffer[l] {
        bus.WriteBit(false, p);
        id[i] := false;
        newL := newL + 1;
        buffer[newL] := conflictBit;
      } else if conflictBit < buffer[l] {
        newS := newS | (if id[i] then 0x80 else 0);
        bus.WriteBit(id[i], p);
      } else if conflictBit == buffer[l] {
        newS := newS | 0x80;
        bus.WriteBit(true, p);
        id[i] := true;
        newL := newL - 1;
      }
    }
    StackAfter(old(buffer[..]), l, z, StackAt(S, prev, last, p + [b]), i + 1, Fork(S, p), prev[i], b, buffer[..], newL);
    IdAfter(old(id[..]), p, b, prev, last, id[..]);
  }

  /** The decision at a bit, told from the buffer and the ROM found before. */
  lemma Decides(S: set<Rom>, prev: Rom, last: nat, p: seq<bool>, z: seq<nat>, buffer: seq<nat>, l: nat, id: seq<bool>)
    requires Start(S, prev, last) && |p| < 64 && p == Descent(S, prev, last, |p|)
    requires z == StackAt(S, prev, last, p) && Stack(buffer, l, z)
    requires |id| == 64 && (last != 0 ==> id[|p|..] == prev[|p|..])
    ensures l + 1 < |buffer| && |z| <= 64
    ensures var b, c := Pick(S, prev, last, p), |p| + 1;
      && (Fork(S, p) && c > buffer[l] ==> !b)
      && (Fork(S, p) && c < buffer[l] ==> b == id[|p|])
      && (Fork(S, p) && c == buffer[l] ==> b && l > 0)
  {
    hide Descent, Zeros, Found, StackAt, Pick;
    StackStep(S, prev, last, p);
    StackTop(buffer, l, z);
  }

  /** Byte `m` of a row spells bits 8m to 8m+7 of the ROM found. */
  ghost predicate Spells(b: bv8, y: Rom, m: nat)
    requires m < 8
  {
    forall k :: 0 <= k < 8 ==> Bit(b, k) == y[8 * m + k]
  }

  lemma SpellsRow(bytes: seq<bv8>, y: Rom)
    requires |bytes| == 8 && forall m :: 0 <= m < 8 ==> Spells(bytes[m], y, m)
    ensures Bits(bytes) == y
  {
    forall j | 0 <= j < 64 ensures Bits(bytes)[j] == y[j] {
      assert Spells(bytes[j / 8], y, j / 8);
      assert j == 8 * (j / 8) + j % 8;
    }
  }

  lemma ShiftedSpells(s: bv8, y: Rom, m: nat)
    requires m < 8
    ensures Spells(Shifted(s, y[8 * m..8 * m + 8]), y, m)
  {
    var p := y[8 * m..8 * m + 8];
    forall k | 0 <= k < 8 ensures Bit(Shifted(s, p), k) == p[k] {
      ShiftedByte(s, p, k);
    }
  }

  lemma ShiftedAdvance(s: bv8, y: Rom, i: nat, j: nat)
    requires i <= j < 64
    ensures Shifted(s, y[i..i]) == s
    ensures Shifted(s, y[i..j + 1]) == (Shifted(s, y[i..j]) >> 1) | (if y[j] then 0x80 else 0)
  {
    var q := y[i..j + 1];
    assert q[..|q| - 1] == y[i..j];
  }

  /** The bits a pass has fixed are those of the ROM it finds. */
  lemma ReachedBit(bus: Bus, buffer: seq<nat>, l: nat, id: seq<bool>, prev: Rom, last: nat, p: seq<bool>)
    requires Reached(bus, buffer, l, id, prev, last, p) && p != []
    ensures bus.devices != {} && |p| <= 64
    ensures var y := Found(bus.devices, prev, last); p == y[..|p|] && p[|p| - 1] == y[|p| - 1]
  {
    hide Descent, Found, Bus.At, Stack;
    FoundBits(bus.devices, prev, last, |p|);
  }

  /** The inner loop of a pass: the eight bits of ROM byte `m`. */
  method PassByte(bus: Bus, buffer: array<nat>, l: nat, id: array<bool>, s: bv8, m: nat,
                  ghost prev: Rom, ghost last: nat, ghost y: Rom)
    returns (newL: nat, newS: bv8)
    requires bus.devices != {} && y == Found(bus.devices, prev, last) && m < 8
    requires Reached(bus, buffer[..], l, id[..], prev, last, y[..8 * m])
    modifies bus, buffer, id
    ensures Reached(bus, buffer[..], newL, id[..], prev, last, y[..8 * m + 8])
    ensures Spells(newS, y, m)
  {
    hide Shifted, Spells, Found, Reached;
    newL, newS := l, s;
    ShiftedAdvance(s, y, 8 * m, 8 * m);
    for n := 0 to 8
      invariant Reached(bus, buffer[..], newL, id[..], prev, last, y[..8 * m + n])
      invariant newS == Shifted(s, y[8 * m..8 * m + n])
    {
      ghost var b, i := false, 8 * m + n;
      newL, newS, b := SearchBit(bus, buffer, newL, id, m * 8 + n, newS, prev, last, y[..i]);
      ReachedBit(bus, buffer[..], newL, id[..], prev, last, y[..i] + [b]);
      ShiftedAdvance(s, y, 8 * m, i);
    }
    ShiftedSpells(s, y, m);
  }

  /** One pass over the 64 ROM bits: finds one device and stores its bytes in row `num`. */
  method Pass(bus: Bus, buffer: array<nat>, l: nat, id: array<bool>, s: bv8, romId: array2<bv8>, num: nat,
              ghost prev: Rom, ghost last: nat)
    returns (newL: nat, newS: bv8)
    requires Reached(bus, buffer[..], l, id[..], prev, last, [])
    requires romId.Length0 == MAX_DEVICES && romId.Length1 == 8 && num < MAX_DEVICES
    modifies bus, buffer, id, romId
    ensures var y := Found(bus.devices, prev, last);
      Reached(bus, buffer[..], newL, id[..], prev, last, y) && Bits(Row(romId, num)) == y
    ensures forall i, m :: 0 <= i < MAX_DEVICES && i != num && 0 <= m < 8 ==> romId[i, m] == old(romId[i, m])
  {
    hide Descent, Zeros, StackAt, Bits, Spells, Found;
    newL, newS := l, s;
    ghost var y := Found(bus.devices, prev, last);
    for m := 0 to 8
      invariant Reached(bus, buffer[..], newL, id[..], prev, last, y[..8 * m])
      invariant forall i :: 0 <= i < m ==> Spells(romId[num, i], y, i)
      invariant forall i, j :: 0 <= i < MAX_DEVICES && i != num && 0 <= j < 8 ==> romId[i, j] == old(romId[i, j])
    {
      newL, newS := PassByte(bus, buffer, newL, id, newS, m, prev, last, y);
      romId[num, m] := newS;
    }
    SpellsRow(Row(romId, num), y);
    assert y[..64] == y;
  }

  /** A pass leaves the stack as the next pass needs it. */
  lemma StackAgain(S: set<Rom>, prev: Rom, last: nat, y: Rom)
    requires Start(S, prev, last)
    ensures StackAt(S, prev, last, y) == Zeros(S, y, 64)
    ensures StackAt(S, y, LastZero(S, y), []) == Zeros(S, y, 64)
    ensures LastZero(S, y) == Last(Zeros(S, y, 64))
  {
    ZerosTop(S, prev, 64);
    ZerosTop(S, y, 64);
  }

  lemma StackEmpty(S: set<Rom>, prev: Rom)
    ensures StackAt(S, prev, 0, []) == []
  {
  }

  lemma PassStarts(bus: Bus, buffer: seq<nat>, l: nat, id: seq<bool>, prev: Rom, last: nat)
    requires Start(bus.devices, prev, last) && Stack(buffer, l, StackAt(bus.devices, prev, last, []))
    requires |id| == 64 && (last != 0 ==> id == prev)
    requires bus.responding == bus.devices && bus.position == 0 && bus.slot == 0
    ensures Reached(bus, buffer, l, id, prev, last, [])
  {
  }

  /** The pass to make after `out` was listed: a turn at the last 0-branch of its last ROM. */
  ghost predicate Resume(S: set<Rom>, out: seq<Rom>, prev: Rom, last: nat) {
    && Lists(S, out)
    && if out == [] then last == 0 else prev == out[|out| - 1] && prev in S && last == LastZero(S, prev)
  }

  lemma ResumeAfter(S: set<Rom>, out: seq<Rom>, prev: Rom, last: nat)
    requires Resume(S, out, prev, last) && S != {} && (out == [] || last != 0)
    ensures var y := Found(S, prev, last);
      && Resume(S, out + [y], y, LastZero(S, y))
      && |out| < |S|
      && (LastZero(S, y) == 0 <==> |out| + 1 == |S|)
  {
    hide Descent, Zeros, Found;
    var y := Found(S, prev, last);
    if out == [] {
      ListsFirst(S, prev);
      assert out + [y] == [y];
    } else {
      ListsNext(S, out);
    }
    if LastZero(S, y) == 0 {
      ListsDone(S, out + [y]);
    } else {
      ListsNext(S, out + [y]);
    }
    ListsAtMost(S, out + [y]);
  }

  /**
    All devices on the bus, or the first MAX_DEVICES of them, as rows of `romId` in increasing
    order of their ROM codes. The search ends when no 0-branch is left to turn at.
   */
  method SearchRom(bus: Bus, romId: array2<bv8>) returns (num: nat, ghost out: seq<Rom>)
    requires romId.Length0 == MAX_DEVICES && romId.Length1 == 8
    modifies bus, romId
    ensures |out| == num && Holds(romId, out)
    ensures Lists(bus.devices, out)
    ensures num == if |bus.devices| < MAX_DEVICES then |bus.devices| else MAX_DEVICES
  {
    hide Descent, Zeros, Bits, Found, Lists, LastZero, Bus.At, StackAt;
    var l := 0;
    var buffer := new nat[MAX_DEVICES - 1](_ => 0);
    var id := new bool[64](_ => false);
    var s: bv8 := 0;
    num, out := 0, [];
    ghost var S, prev := bus.devices, Bits([0, 0, 0, 0, 0, 0, 0, 0]);
    ghost var last := 0;
    ListsNone(S);
    StackEmpty(S, prev);
    var more := true;
    while more
      invariant fresh(buffer) && fresh(id) && buffer.Length == MAX_DEVICES - 1 && id.Length == 64
      invariant |out| == num <= MAX_DEVICES && num <= |S| && Holds(romId, out)
      invariant Resume(S, out, prev, last)
      invariant more ==> num < MAX_DEVICES && (out == [] || (last != 0 && id[..] == prev))
      invariant more ==> Stack(buffer[..], l, StackAt(S, prev, last, []))
      invariant !more ==> num == MAX_DEVICES || num == |S|
      decreases MAX_DEVICES - num, more
    {
      var absent := bus.Reset();
      if absent {
        return 0, [];
      }
      bus.WriteByte(SEARCH_ROM);
      PassStarts(bus, buffer[..], l, id[..], prev, last);
      l, s := Pass(bus, buffer, l, id, s, romId, num, prev, last);
      ghost var y := Found(S, prev, last);
      ResumeAfter(S, out, prev, last);
      StackAgain(S, prev, last, y);
      out := out + [y];
      num := num + 1;
      prev, last := y, LastZero(S, y);
      more := buffer[l] != 0 && num < MAX_DEVICES;
    }
  }
}
