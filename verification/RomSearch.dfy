/**
  The resumable ROM search (`onewire_first`, `onewire_next`, `onewire_search`) and the check
  for one known device (`onewire_verify`).
 */
module RomSearch {
  import opened RomOrder
  import opened RomBytes
  import opened OneWireBus

  class Searcher {
    const bus: Bus
    const romNo: array<bv8>
    var lastDiscrepancy: int
    var lastFamilyDiscrepancy: int
    var lastDeviceFlag: bool
    var crc8: bv8

    ghost predicate Valid() {
      romNo.Length == 8
    }

    ghost function Current(): Rom
      requires Valid()
      reads romNo
    {
      Bits(romNo[..])
    }

    ghost predicate Cleared()
      reads this
    {
      lastDiscrepancy == 0 && !lastDeviceFlag && lastFamilyDiscrepancy == 0
    }

    constructor (bus: Bus)
      ensures Valid() && this.bus == bus && fresh(romNo)
    {
      this.bus := bus;
      romNo := new bv8[8](_ => 0);
      lastDiscrepancy, lastFamilyDiscrepancy, lastDeviceFlag, crc8 := 0, 0, false, 0;
    }

    /** One bit of ROM_NO, where the search writes it. */
    method PutRomBit(i: nat, mask: bv8, level: bool)
      requires Valid() && i < 64 && mask == Mask(i % 8)
      modifies romNo
      ensures Current() == old(Current())[i := level]
    {
      if level {
        romNo[i / 8] := romNo[i / 8] | mask;
      } else {
        romNo[i / 8] := romNo[i / 8] & !mask;
      }
      PutRomBitBits(old(romNo[..]), romNo[..], i, level);
    }

    /** The search has fixed the bits `p`, starting from ROM_NO `prev`. */
    ghost predicate Reached(prev: Rom, p: seq<bool>, lastZero: int, family: int)
      requires Valid()
      reads this, romNo, bus
    {
      && bus.devices != {} && bus.At(p) && bus.slot == 0
      && Progress(bus.devices, prev, lastDiscrepancy, p, Current(), lastZero, lastFamilyDiscrepancy, family)
    }

    /**
      The bit to write after two read slots: forced unless both values answered; then the old
      bit of ROM_NO before the last discrepancy, 1 at it, and 0 after it.
     */
    method Decide(idBit: bool, cmpIdBit: bool, idBitNumber: nat, romByte: nat, romByteMask: bv8, lastZero: int)
      returns (direction: bool, newLastZero: int)
      requires Valid() && 1 <= idBitNumber <= 64 && !(idBit && cmpIdBit)
      requires romByte == (idBitNumber - 1) / 8 && romByteMask == Mask((idBitNumber - 1) % 8)
      modifies this`lastFamilyDiscrepancy
      ensures direction ==
        if idBit != cmpIdBit then idBit
        else if idBitNumber < lastDiscrepancy then Current()[idBitNumber - 1]
        else idBitNumber == lastDiscrepancy
      ensures var zero := idBit == cmpIdBit && !direction;
        && newLastZero == (if zero then idBitNumber else lastZero)
        && lastFamilyDiscrepancy == if zero && idBitNumber < 9 then idBitNumber else old(lastFamilyDiscrepancy)
    {
      hide Bits, Mask;
      direction, newLastZero := idBit, lastZero;
      if idBit == cmpIdBit {
        if idBitNumber < lastDiscrepancy {
          BitsAt(romNo[..], idBitNumber - 1);
          direction := romNo[romByte] & romByteMask > 0;
        } else {
          direction := idBitNumber == lastDiscrepancy;
        }
        if !direction {
          newLastZero := idBitNumber;
          if newLastZero < 9 {
            lastFamilyDiscrepancy := newLastZero;
          }
        }
      }
    }

    /** One round of the search loop: two reads, a decision, a write. */
    method SearchBit(idBitNumber: nat, romByte: nat, romByteMask: bv8, lastZero: int,
                     ghost prev: Rom, ghost p: seq<bool>, ghost family: int)
      returns (alive: bool, direction: bool, newLastZero: int)
      requires Valid() && Reached(prev, p, lastZero, family)
      requires |p| < 64 && idBitNumber == |p| + 1 && romByte == |p| / 8 && romByteMask == Mask(|p| % 8)
      modifies this`lastFamilyDiscrepancy, romNo, bus
      ensures alive && Reached(prev, p + [direction], newLastZero, family)
    {
      hide Bits, FamilyDiscrepancy, Mask, Found, Progress, Has, Bus.At, Bus.AllSend;
      ghost var S := bus.devices;
      bus.Slots(p);
      ProgressStep(S, prev, lastDiscrepancy, p, Current(), lastZero, lastFamilyDiscrepancy, family);
      HasChild(S, p);
      var idBit := bus.ReadBit();
      var cmpIdBit := bus.ReadBit();
      alive, direction, newLastZero := true, false, lastZero;
      if idBit && cmpIdBit {
        alive := false;
      } else {
        direction, newLastZero := Decide(idBit, cmpIdBit, idBitNumber, romByte, romByteMask, lastZero);
        PutRomBit(idBitNumber - 1, romByteMask, direction);
        bus.WriteBit(direction, p);
      }
    }

    /** The loop of a search, over the 64 bits. */
    method SearchBits(ghost prev: Rom) returns (idBitNumber: nat, lastZero: int)
      requires Valid() && Reached(prev, [], 0, lastFamilyDiscrepancy)
      modifies this`lastFamilyDiscrepancy, romNo, bus
      ensures idBitNumber == 65 && Valid() && bus.devices != {}
      ensures Reached(prev, Found(bus.devices, prev, lastDiscrepancy), lastZero, old(lastFamilyDiscrepancy))
    {
      hide Bits, Mask, Progress, Found, Bus.At, Descent;
      idBitNumber, lastZero := 1, 0;
      var romByteNumber := 0;
      var romByteMask: bv8 := 1;
      ghost var p: seq<bool> := [];
      FirstMask();
      while romByteNumber < 8
        invariant |p| == idBitNumber - 1 <= 64
        invariant romByteNumber == |p| / 8 && romByteMask == Mask(|p| % 8)
        invariant Reached(prev, p, lastZero, old(lastFamilyDiscrepancy))
        decreases 65 - idBitNumber
      {
        var alive, direction;
        alive, direction, lastZero := SearchBit(idBitNumber, romByteNumber, romByteMask, lastZero,
                                                prev, p, old(lastFamilyDiscrepancy));
        if !alive {
          break;
        }
        NextMask(|p| % 8);
        p := p + [direction];
        idBitNumber := idBitNumber + 1;
        romByteMask := romByteMask << 1;
        if romByteMask == 0 {
          romByteNumber := romByteNumber + 1;
          romByteMask := 1;
        }
      }
      ProgressDone(bus.devices, prev, lastDiscrepancy, p, Current(), lastZero, lastFamilyDiscrepancy,
                   old(lastFamilyDiscrepancy));
    }

    method Search() returns (result: bool)
      requires Valid()
      modifies this, romNo, bus
      ensures old(lastDeviceFlag) || bus.devices == {} ==>
        !result && Cleared() && romNo[..] == old(romNo[..])
      ensures !old(lastDeviceFlag) && bus.devices != {} ==>
        && Current() == Found(bus.devices, old(Current()), old(lastDiscrepancy))
        && (result <==> !ZeroFamily(Current()))
        && (!result ==> Cleared())
        && (result ==>
          && lastDiscrepancy == LastZero(bus.devices, Current())
          && lastDeviceFlag == (lastDiscrepancy == 0)
          && lastFamilyDiscrepancy == FamilyDiscrepancy(bus.devices, Current(), old(lastFamilyDiscrepancy)))
    {
      hide Bits, Descent, Zeros;
      ghost var prev := Current();
      var idBitNumber := 1;
      var lastZero := 0;
      result := false;
      crc8 := 0;
      if !lastDeviceFlag {
        var absent := bus.Reset();
        if absent {
          lastDiscrepancy, lastDeviceFlag, lastFamilyDiscrepancy := 0, false, 0;
          return false;
        }
        bus.WriteByte(SEARCH_ROM);
        idBitNumber, lastZero := SearchBits(prev);
        if !(idBitNumber < 65 || crc8 != 0) {
          lastDiscrepancy := lastZero;
          if lastDiscrepancy == 0 {
            lastDeviceFlag := true;
          }
          result := true;
        }
      }
      FamilyByte(romNo[..]);
      if !result || romNo[0] == 0 {
        lastDiscrepancy, lastDeviceFlag, lastFamilyDiscrepancy := 0, false, 0;
        result := false;
      }
    }
 
    method First() returns (result: bool)
      requires Valid()
      modifies this, romNo, bus
      ensures bus.devices == {} ==> !result
      ensures bus.devices != {} ==>
        && Current() in bus.devices
        && (forall d :: d in bus.devices ==> d == Current() || Less(Current(), d))
        && (result <==> !ZeroFamily(Current()))
      ensures result ==> Positioned()
      ensures !result ==> Cleared()
    {
      lastDiscrepancy, lastDeviceFlag, lastFamilyDiscrepancy := 0, false, 0;
      forall i | 0 <= i < 8 {
        romNo[i] := 0;
      }
      ghost var zero := Current();
      result := Search();
      forall d | d in bus.devices ensures d == Current() || Less(Current(), d) {
        FirstIsMinimum(bus.devices, zero, d);
      }
    }

    method Next() returns (result: bool)
      requires Valid()
      modifies this, romNo, bus
      ensures old(lastDeviceFlag) || bus.devices == {} ==>
        !result && Cleared() && romNo[..] == old(romNo[..])
      ensures !old(lastDeviceFlag) && bus.devices != {} ==>
        && Current() == Found(bus.devices, old(Current()), old(lastDiscrepancy))
        && (result <==> !ZeroFamily(Current()))
      ensures result ==> Positioned()
      ensures !result ==> Cleared()
    {
      result := Search();
    }

    /** The search state after a device was found: where the next pass has to turn. */
    ghost predicate Positioned()
      requires Valid()
      reads this, romNo, bus
    {
      && bus.devices != {}
      && lastDiscrepancy == LastZero(bus.devices, Current())
      && lastDeviceFlag == (lastDiscrepancy == 0)
    }

    /**
      Finds the ROM in ROM_NO on the bus exactly when it is there, its family byte is not 0,
      and no other device differs from it in the last bit alone with a 1 there. The search
      state is as before, so an enumeration in progress goes on undisturbed.
     */
    method Verify() returns (present: bool)
      requires Valid()
      modifies this, romNo, bus
      ensures present <==>
        && Current() in bus.devices
        && !ZeroFamily(Current())
        && (Current()[63] || !Has(bus.devices, Current()[..63] + [true]))
      ensures romNo[..] == old(romNo[..])
      ensures lastDiscrepancy == old(lastDiscrepancy) && lastDeviceFlag == old(lastDeviceFlag)
      ensures lastFamilyDiscrepancy == old(lastFamilyDiscrepancy)
    {
      hide Bits;
      var romBackup := romNo[..];
      var ldBackup, ldfBackup, lfdBackup := lastDiscrepancy, lastDeviceFlag, lastFamilyDiscrepancy;
      lastDiscrepancy := 64;
      lastDeviceFlag := false;
      var found := Search();
      if found {
        present := romNo[..] == romBackup;
      } else {
        present := false;
      }
      if bus.devices != {} {
        VerifyFinds(bus.devices, Bits(romBackup));
        SameBytes(romNo[..], romBackup);
      }
      forall i | 0 <= i < 8 {
        romNo[i] := romBackup[i];
      }
      assert romNo[..] == romBackup;
      lastDiscrepancy, lastDeviceFlag, lastFamilyDiscrepancy := ldBackup, ldfBackup, lfdBackup;
    }

    /**
      The enumeration loop: every device exactly once in increasing order when no device has
      family byte 0, and nothing at all when one has, because such a device sorts first.
     */
    method FindDevices() returns (found: seq<Rom>)
      requires Valid()
      modifies this, romNo, bus
      ensures if exists d :: d in bus.devices && ZeroFamily(d) then found == []
              else Lists(bus.devices, found) && |found| == |bus.devices|
    {
      hide Bits, Zeros, Descent;
      found := [];
      var result := First();
      if bus.devices != {} {
        ZeroFamilyFirst(bus.devices, Current());
      }
      assert bus.devices != {} ==> Lists(bus.devices, [Current()]);
      while result
        invariant result ==> Positioned() && Lists(bus.devices, found + [Current()])
        invariant result ==> forall d :: d in bus.devices ==> !ZeroFamily(d)
        invariant !result ==> found == [] || |found| == |bus.devices|
        invariant !result && found == [] ==> bus.devices == {} || exists d :: d in bus.devices && ZeroFamily(d)
        invariant found != [] ==> forall d :: d in bus.devices ==> !ZeroFamily(d)
        invariant Lists(bus.devices, found)
        decreases |bus.devices| - |found|, result
      {
        ghost var listed := found + [Current()];
        ListsAtMost(bus.devices, listed);
        if lastDeviceFlag {
          ListsDone(bus.devices, listed);
        } else {
          ListsNext(bus.devices, listed);
        }
        found := found + [Bits(romNo[..])];
        result := Next();
      }
    }
  }

  lemma ZeroFamilyFirst(S: set<Rom>, least: Rom)
    requires least in S && forall d :: d in S ==> d == least || Less(least, d)
    ensures ZeroFamily(least) <==> exists d :: d in S && ZeroFamily(d)
  {
    forall d | d in S && ZeroFamily(d) ensures ZeroFamily(least) {
      if d != least {
        var k :| DivergeAt(least, d, k);
        forall i | 0 <= i < 8 ensures !least[i] {
          assert k >= 8;
          assert least[i] == d[i];
        }
      }
    }
  }

  lemma VerifyFinds(S: set<Rom>, rom: Rom)
    requires S != {}
    ensures Found(S, rom, 64) == rom <==> rom in S && (rom[63] || !Has(S, rom[..63] + [true]))
  {
    if rom in S {
      DescentRetraces(S, rom, 64, 63);
      FoundBits(S, rom, 64, 63);
      var p := rom[..63];
      var y := Found(S, rom, 64);
      assert y[..63] == p;
      assert p + [rom[63]] == rom && p + [y[63]] == y;
      assert Has(S, p + [rom[63]]) by { assert p + [rom[63]] <= rom; }
      assert y[63] == (rom[63] || Has(S, p + [true]));
    }
  }

  lemma SameBytes(a: seq<bv8>, b: seq<bv8>)
    requires |a| == 8 && |b| == 8
    ensures a == b <==> Bits(a) == Bits(b)
  {
    if Bits(a) == Bits(b) {
      forall i | 0 <= i < 8 ensures a[i] == b[i] {
        forall k | 0 <= k < 8 ensures Bit(a[i], k) == Bit(b[i], k) {
          assert Bits(a)[8 * i + k] == Bits(b)[8 * i + k];
        }
        SameByte(a[i], b[i]);
      }
    }
  }

  /** The values a search holds once it has fixed the bits `p`. */
  ghost predicate Progress(S: set<Rom>, prev: Rom, last: int, p: seq<bool>, rom: Rom,
                           lastZero: int, lastFamily: int, family: int) {
    && S != {} && |p| <= 64
    && p == Descent(S, prev, last, |p|)
    && rom == p + prev[|p|..]
    && lastZero == Last(Zeros(S, p, |p|))
    && lastFamily == FamilyDiscrepancy(S, p, family)
  }

  /** After 64 bits the search has fixed the device it finds. */
  lemma ProgressDone(S: set<Rom>, prev: Rom, last: int, p: seq<bool>, rom: Rom,
                     lastZero: int, lastFamily: int, family: int)
    requires Progress(S, prev, last, p, rom, lastZero, lastFamily, family) && |p| == 64
    ensures p == Found(S, prev, last)
  {
    hide Descent, Zeros, FamilyDiscrepancy;
  }

  lemma FirstMask()
    ensures Mask(0) == 0x01
  {
  }

  lemma ProgressStep(S: set<Rom>, prev: Rom, last: int, p: seq<bool>, rom: Rom,
                     lastZero: int, lastFamily: int, family: int)
    requires Progress(S, prev, last, p, rom, lastZero, lastFamily, family) && |p| < 64
    ensures Has(S, p)
    ensures rom[|p|] == prev[|p|]
    ensures var b := Pick(S, prev, last, p);
      var zero := Fork(S, p) && !b;
      Progress(S, prev, last, p + [b], rom[|p| := b],
               if zero then |p| + 1 else lastZero,
               if zero && |p| < 8 then |p| + 1 else lastFamily, family)
  {
    hide FamilyDiscrepancy, Zeros, Found;
    var b := Pick(S, prev, last, p);
    ZerosAdvance(S, p, b);
    FamilyAdvance(S, p, b, family);
    DescentStep(S, prev, last, |p|);
    assert rom[|p| := b] == p + [b] + prev[|p| + 1..];
  }

  lemma FamilyAdvance(S: set<Rom>, p: seq<bool>, b: bool, before: int)
    requires |p| < 64
    ensures FamilyDiscrepancy(S, p + [b], before) ==
      if |p| < 8 && Fork(S, p) && !b then |p| + 1 else FamilyDiscrepancy(S, p, before)
  {
    if |p| < 8 {
      ZerosAdvance(S, p, b);
    } else {
      assert (p + [b])[..8] == p[..8];
      ZerosOfPrefix(S, p + [b], p, 8);
    }
  }

  lemma BitsAt(bytes: seq<bv8>, i: nat)
    requires |bytes| == 8 && i < 64
    ensures bytes[i / 8] & Mask(i % 8) > 0 <==> Bits(bytes)[i]
  {
  }

  lemma FamilyByte(bytes: seq<bv8>)
    requires |bytes| == 8
    ensures bytes[0] == 0 <==> ZeroFamily(Bits(bytes))
  {
    ZeroByte(bytes[0]);
    forall k | 0 <= k < 8 ensures Bits(bytes)[k] == Bit(bytes[0], k) {
    }
  }

  /** The last 0-branch within the family byte, if the search has met one. */
  ghost function FamilyDiscrepancy(S: set<Rom>, p: seq<bool>, before: int): int
    requires |p| <= 64
  {
    var z := Zeros(S, p, if |p| < 8 then |p| else 8);
    if z == [] then before else Last(z)
  }

  lemma PutRomBitBits(before: seq<bv8>, after: seq<bv8>, i: nat, level: bool)
    requires |before| == 8 && i < 64
    requires var b := before[i / 8];
      after == before[i / 8 := if level then b | Mask(i % 8) else b & !Mask(i % 8)]
    ensures Bits(after) == Bits(before)[i := level]
  {
    hide Mask, Bits;
    forall j | 0 <= j < 64
      ensures Bits(after)[j] == if j == i then level else Bits(before)[j]
    {
      PutRomBitAt(before, after, i, level, j);
    }
  }

  lemma BitsGet(bytes: seq<bv8>, j: nat)
    requires |bytes| == 8 && j < 64
    ensures Bits(bytes)[j] == Bit(bytes[j / 8], j % 8)
  {
    hide Mask, Bit;
  }

  lemma PutRomBitAt(before: seq<bv8>, after: seq<bv8>, i: nat, level: bool, j: nat)
    requires |before| == 8 && i < 64 && j < 64
    requires var b := before[i / 8];
      after == before[i / 8 := if level then b | Mask(i % 8) else b & !Mask(i % 8)]
    ensures Bits(after)[j] == if j == i then level else Bits(before)[j]
  {
    hide Mask, Bit, Bits;
    BitsGet(before, j);
    BitsGet(after, j);
    var row, col := j / 8, j % 8;
    assert j == 8 * row + col;
    if row == i / 8 {
      PutBit(before[row], i % 8, col);
    }
  }
}
