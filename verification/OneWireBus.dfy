/**
  A 1-Wire bus seen through its time slots. The line is wired-AND: it reads 1 exactly when no
  responding device pulls it low. During a search every responding device sends its current
  bit, then the complement of that bit, and drops out when the master writes the other value.
 */
module OneWireBus {
  import opened RomOrder

  const SEARCH_ROM: bv8 := 0xF0

  class Bus {
    const devices: set<Rom>
    var responding: set<Rom>
    var position: nat   // the ROM bit the search has reached
    var slot: nat       // 0: bit, 1: complement, 2: the master's write

    constructor (devices: set<Rom>)
      ensures this.devices == devices
    {
      this.devices := devices;
      responding, position, slot := {}, 0, 0;
    }

    /** Reset and presence pulse: nothing acknowledges on an empty bus. */
    method Reset() returns (absent: bool)
      modifies this
      ensures absent <==> devices == {}
      ensures responding == {}
    {
      responding := {};
      absent := devices == {};
    }

    method WriteByte(command: bv8)
      modifies this
      ensures command == SEARCH_ROM ==> responding == devices && position == 0 && slot == 0
    {
      if command == SEARCH_ROM {
        responding, position, slot := devices, 0, 0;
      }
    }

    /** Every responding device sends `bit` as its current bit. */
    predicate AllSend(bit: bool)
      requires position < ROM_BITS
      reads this`responding, this`position
    {
      forall d | d in responding :: d[position] == bit
    }

    /** A read slot: the line stays high exactly when nobody pulls it low. */
    method ReadBit() returns (level: bool)
      requires position < ROM_BITS && slot < 2
      modifies this`slot
      ensures level == AllSend(old(slot) == 0)
      ensures slot == old(slot) + 1
    {
      level := AllSend(slot == 0);
      slot := slot + 1;
    }

    /** The responding devices are those below node `p` of the trie of all devices. */
    ghost predicate At(p: seq<bool>)
      reads this`responding, this`position
    {
      && |p| == position <= ROM_BITS
      && (forall d :: d in responding <==> d in devices && p <= d)
    }

    /** A write slot: only the devices whose current bit is the one written go on to the next. */
    method WriteBit(level: bool, ghost p: seq<bool>)
      requires position < ROM_BITS && slot == 2 && At(p)
      modifies this
      ensures position == old(position) + 1 && slot == 0
      ensures At(p + [level])
    {
      forall d: Rom ensures p + [level] <= d <==> p <= d && d[|p|] == level {
        ChildPrefix(p, level, d);
      }
      responding := set d | d in responding && d[position] == level;
      position, slot := position + 1, 0;
    }

    /** What the two read slots say about node `p`. */
    lemma Slots(p: seq<bool>)
      requires At(p) && |p| < ROM_BITS
      ensures position == |p|
      ensures AllSend(true) <==> !Has(devices, p + [false])
      ensures AllSend(false) <==> !Has(devices, p + [true])
    {
      forall d, b: bool | d in devices
        ensures p + [b] <= d <==> d in responding && d[position] == b
      {
        ChildPrefix(p, b, d);
      }
    }
  }
}
