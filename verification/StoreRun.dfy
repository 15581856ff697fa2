/**
  Runs from blank flash, with the checksum of the firmware, that end badly: one after which the
  RAM table disagrees with the flash, and three after which a key is gone that was written and
  never deleted.
 */
module StoreRun {
  import opened StoreLog
  import opened StoreMap
  import opened StoreView
  import opened StoreFind
  import opened StoreCollect
  import opened StoreWrites
  import opened StoreOutcomes
  import opened FlashStore
  import CrcCheck

  // ---------------------------------------------------------------------------------------
  // The checksum

  function Bits(data: seq<Byte>): (bits: seq<bv8>)
    ensures |bits| == |data|
  {
    seq<bv8>(|data|, (i: int) requires 0 <= i < |data| => data[i] as bv8)
  }

  /** CRC-8/MAXIM over integer bytes. */
  function Maxim(data: seq<Byte>): Byte {
    CrcCheck.OneWireCrc(Bits(data)) as int
  }

  function Zeros(n: nat): (z: seq<Byte>)
    ensures |z| == n
  {
    seq<Byte>(n, _ => 0)
  }

  lemma {:induction false} ZerosCrc(n: nat)
    ensures CrcCheck.OneWireCrc(Bits(Zeros(n))) == 0
  {
    hide CrcCheck.RightSteps8, CrcCheck.Mix8;
    if n > 0 {
      ZerosCrc(n - 1);
      assert Bits(Zeros(n))[..n - 1] == Bits(Zeros(n - 1));
      StillZero();
    }
  }

  lemma StillZero()
    ensures CrcCheck.RightSteps8(CrcCheck.Mix8(0, 0), 8) == 0
  {
    assert CrcCheck.RightSteps8(0, 2) == 0;
    assert CrcCheck.RightSteps8(0, 4) == 0;
    assert CrcCheck.RightSteps8(0, 6) == 0;
  }

  lemma OneIsNotZero()
    ensures CrcCheck.RightSteps8(CrcCheck.Mix8(0, 1), 8) != 0
  {
    assert CrcCheck.RightSteps8(1, 1) == 0x8C;
    assert CrcCheck.RightSteps8(1, 2) == 0x46;
    assert CrcCheck.RightSteps8(1, 3) == 0x23;
    assert CrcCheck.RightSteps8(1, 4) == 0x9D;
    assert CrcCheck.RightSteps8(1, 5) == 0xC2;
    assert CrcCheck.RightSteps8(1, 6) == 0x61;
    assert CrcCheck.RightSteps8(1, 7) == 0xBC;
  }

  /** A content of zeros has CRC 0, so collection drops its record; with a 1 behind it is moved. */
  lemma MovableOrNot(n: nat)
    ensures Maxim(Zeros(n)) == 0 && Maxim(Zeros(n) + [1]) != 0
  {
    hide CrcCheck.RightSteps8, CrcCheck.Mix8;
    var data := Zeros(n) + [1];
    ZerosCrc(n);
    assert Bits(data)[..n] == Bits(Zeros(n));
    assert Bits(data)[n] == 1;
    OneIsNotZero();
  }

  // ---------------------------------------------------------------------------------------
  // Small logs

  lemma OneRecord(a: Rec)
    ensures EncodeAll([a]) == Encode(a) && CountLive([a]) == if a.idx != 0 then 1 else 0
  {
    EncodeOne(a);
    CountOne(a);
  }

  lemma TwoRecords(a: Rec, b: Rec)
    ensures |EncodeAll([a, b])| == |Encode(a)| + |Encode(b)|
    ensures CountLive([a, b]) == CountLive([a]) + CountLive([b])
    ensures Offset([a, b], 0) == 0 && Offset([a, b], 1) == |Encode(a)|
  {
    assert [a, b] == [a] + [b] && [a, b][..1] == [a] && [a, b][..0] == [];
    EncodeConcat([a], [b]);
    EncodeOne(a);
    EncodeOne(b);
    CountConcat([a], [b]);
  }

  lemma ThreeRecords(a: Rec, b: Rec, c: Rec)
    ensures |EncodeAll([a, b, c])| == |Encode(a)| + |Encode(b)| + |Encode(c)|
    ensures CountLive([a, b, c]) == CountLive([a]) + CountLive([b]) + CountLive([c])
  {
    assert [a, b, c] == [a, b] + [c];
    EncodeConcat([a, b], [c]);
    CountConcat([a, b], [c]);
    TwoRecords(a, b);
    EncodeOne(c);
  }

  predicate IsItem(r: Rec, key: int, n: nat) {
    KeyValid(key) && r.idx == key && r.len == n && |r.content| == n && 0 < n <= MAX_CONTENT_LEN
  }

  // ---------------------------------------------------------------------------------------
  // Writing a key for the first time

  /** A new key just goes to the page found for it. */
  lemma NewKey(v: View, r: Rec, w: View, q: nat)
    requires Shaped(v) && Writable(r) && !Has(v.logs, r.idx)
    requires Place(v, |r.content|) == Spot(w, q) && q < PAGES && Fits(w, q, r)
    ensures Write(v, r) == Outcome(Grown(w, q, r), 0, false)
  {
    hide FindKey, Place, Fits, Grown, Has, AtMostOne, PageShaped;
    NoneIsOne(v.logs, r.idx);
    OneByHas(v, r);
  }

  lemma NoneIsOne(logs: Logs, key: int)
    requires !Has(logs, key)
    ensures AtMostOne(logs, key)
  {
  }

  // ---------------------------------------------------------------------------------------
  // A page table that disagrees

  const BLANK := View([[], [], [], []], [ERASED, ERASED, ERASED, ERASED], NO_PAGE)

  function After1(a: Rec): View {
    View([[a], [], [], []], [ACTIVE, ERASED, ERASED, ERASED], 0)
  }

  function After2(a: Rec, b: Rec): View {
    View([[a, b], [], [], []], [FULL, ERASED, ERASED, ERASED], NO_PAGE)
  }

  function After3(a: Rec, b: Rec, c: Rec): View {
    View([[a, b], [c], [], []], [FULL, ACTIVE, ERASED, ERASED], 1)
  }

  function After4(a: Rec, b: Rec, c: Rec, d: Rec): View {
    View([[a, b], [c, d], [], []], [FULL, FULL, ERASED, ERASED], NO_PAGE)
  }

  function After5(a: Rec, b: Rec, c: Rec, d: Rec, e: Rec): View {
    View([[a, b], [Dead(c), d], [e], []], [FULL, FULL, ACTIVE, ERASED], 2)
  }

  lemma Write1(a: Rec)
    requires IsItem(a, 2, 244)
    ensures Write(BLANK, a) == Outcome(After1(a), 0, false)
  {
    hide Write, EncodeAll;
    EmptyLog();
    OneRecord(a);
    var w := WithStatus(BLANK, 0, ACTIVE);
    assert FirstFrom(BLANK.status, 0, ERASED, 0) == 0;
    assert Place(BLANK, 244) == Spot(w, 0);
    NewKey(BLANK, a, w, 0);
    assert [] + [a] == [a];
    assert Grown(w, 0, a) == After1(a);
  }

  lemma Write2(a: Rec, b: Rec)
    requires IsItem(a, 2, 244) && IsItem(b, 6, 2)
    ensures Write(After1(a), b) == Outcome(After2(a, b), 0, false)
  {
    hide Write, EncodeAll;
    EmptyLog();
    OneRecord(a);
    var v := After1(a);
    assert Place(v, 2) == Spot(v, 0);
    NewKey(v, b, v, 0);
    assert [a] + [b] == [a, b];
    assert Grown(v, 0, b) == After2(a, b);
  }

  lemma Write3(a: Rec, b: Rec, c: Rec)
    requires IsItem(a, 2, 244) && IsItem(b, 6, 2) && IsItem(c, 3, 1)
    ensures Write(After2(a, b), c) == Outcome(After3(a, b, c), 0, false)
  {
    hide Write, EncodeAll;
    EmptyLog();
    TwoRecords(a, b);
    var v := After2(a, b);
    var w := WithStatus(v, 1, ACTIVE);
    assert FirstFrom(v.status, 0, ERASED, 1) == 1;
    assert Place(v, 1) == Spot(w, 1);
    NewKey(v, c, w, 1);
    assert [] + [c] == [c];
    assert Grown(w, 1, c) == After3(a, b, c);
  }

  lemma Write4(a: Rec, b: Rec, c: Rec, d: Rec)
    requires IsItem(a, 2, 244) && IsItem(b, 6, 2) && IsItem(c, 3, 1) && IsItem(d, 1, 243)
    ensures Write(After3(a, b, c), d) == Outcome(After4(a, b, c, d), 0, false)
  {
    hide Write, EncodeAll;
    EmptyLog();
    OneRecord(c);
    TwoRecords(a, b);
    var v := After3(a, b, c);
    assert Place(v, 243) == Spot(v, 1);
    NewKey(v, d, v, 1);
    assert [c] + [d] == [c, d];
    assert Grown(v, 1, d) == After4(a, b, c, d);
  }

  /** The key's only record being number `i` of page `p`, that is its location. */
  lemma OldIsAt(v: View, r: Rec, p: nat, i: nat)
    requires Shaped(v) && KeyValid(r.idx) && At(v.logs, p, i, r.idx)
    requires forall q, j :: At(v.logs, q, j, r.idx) ==> q == p && j == i
    ensures AtMostOne(v.logs, r.idx) && FindKey(v, r.idx, NOTHING).view == v && !FindKey(v, r.idx, NOTHING).failed
    ensures OldPlace(v, r) == Mark(p, Offset(v.logs[p], i))
  {
    hide FindKey, PageShaped, Offset;
    OneByHas(v, r);
    var q: nat, j: nat :| OldAt(v, r, q, j);
    assert At(v.logs, q, j, r.idx);
  }

  /** The second record of page 1 stays when the first becomes a tombstone. */
  lemma Write5(a: Rec, b: Rec, c: Rec, d: Rec, e: Rec)
    requires IsItem(a, 2, 244) && IsItem(b, 6, 2) && IsItem(c, 3, 1) && IsItem(d, 1, 243) && IsItem(e, 3, 244)
    ensures Write(After4(a, b, c, d), e) == Outcome(After5(a, b, c, d, e), 0, false)
  {
    hide EncodeAll, FindKey, Offset, RecordAt, CountLive, AtMostOne, Spells, Bytes;
    EmptyLog();
    TwoRecords(a, b);
    TwoRecords(c, d);
    TwoRecords(Dead(c), d);
    OneRecord(c);
    OneRecord(d);
    OneRecord(Dead(c));
    OneRecord(e);
    var v := After4(a, b, c, d);
    var w := WithStatus(v, 2, ACTIVE);
    OldIsAt(v, e, 1, 0);
    assert FirstFrom(v.status, 0, ERASED, 2) == 2;
    assert Place(v, 244) == Spot(w, 2);
    var g := Grown(w, 2, e);
    assert [] + [e] == [e];
    assert g.logs == [[a, b], [c, d], [e], []];
    RecordAtOffset(g.logs[1], 0);
    assert [c, d][0 := Dead(c)] == [Dead(c), d];
    assert Deleted(g, 1, 0) == After5(a, b, c, d, e);
  }

  lemma Victim6(a: Rec, b: Rec, c: Rec, d: Rec, e: Rec)
    requires IsItem(a, 2, 244) && IsItem(b, 6, 2) && IsItem(c, 3, 1) && IsItem(d, 1, 243) && IsItem(e, 3, 244)
    ensures Victim(After5(a, b, c, d, e)) == 1
  {
    hide CountLive;
    TwoRecords(a, b);
    TwoRecords(Dead(c), d);
    OneRecord(a);
    OneRecord(b);
    OneRecord(d);
    OneRecord(Dead(c));
    var v := After5(a, b, c, d, e);
    assert VictimAmong(v, 1) == NO_PAGE;
    assert VictimAmong(v, 2) == NO_PAGE;
    assert VictimAmong(v, 3) == 0;
  }

  lemma Relocated6(a: Rec, b: Rec, c: Rec, d: Rec, e: Rec)
    requires IsItem(a, 2, 244) && IsItem(b, 6, 2) && IsItem(c, 3, 1) && IsItem(d, 1, 243)
    requires IsItem(e, 3, 244) && d.crc != 0
    ensures Relocated(After5(a, b, c, d, e), [Dead(c), d], 2) ==
      Course(View([[a, b], [Dead(c), d], [e], [d]], [FULL, FULL, FULL, ACTIVE], 3), 2)
  {
    hide EncodeAll, CountLive;
    EmptyLog();
    OneRecord(e);
    var v := After5(a, b, c, d, e);
    assert FirstFrom(v.status, 2, ERASED, 1) == 3;
    assert [] + [d] == [d];
    assert Relocated(v, [Dead(c), d], 1) == Course(v, 1);
    var w := View([[a, b], [Dead(c), d], [e], []], [FULL, FULL, FULL, ACTIVE], 3);
    assert WithStatus(WithStatus(v, 2, FULL), 3, ACTIVE) == w;
    assert Relocate(v, d) == Gone(Grown(w, 3, d), true);
  }

  lemma Next6(w: View, a: Rec, b: Rec, d: Rec, e: Rec)
    requires w == View([[a, b], [], [e], [d]], [FULL, ERASED, FULL, ACTIVE], 3)
    ensures OpenNext(WithStatus(w, 3, FULL), 3) == Spot(View([[a, b], [], [e], [d]], [FULL, ACTIVE, FULL, FULL], 1), 1)
  {
    assert FirstFrom([FULL, ERASED, FULL, FULL], 3, ERASED, 2) == 1;
    assert FirstFrom([FULL, ERASED, FULL, FULL], 3, ERASED, 1) == 1;
  }

  /** What the sixth write finds: page 1 is collected, its record goes to page 3, and page 1 is taken into use again. */
  lemma Collected6(a: Rec, b: Rec, c: Rec, d: Rec, e: Rec)
    requires IsItem(a, 2, 244) && IsItem(b, 6, 2) && IsItem(c, 3, 1) && IsItem(d, 1, 243)
    requires IsItem(e, 3, 244) && d.crc != 0
    ensures var v := After5(a, b, c, d, e);
      && Shaped(v) && Collects(v, 5) && Victim(v) == 1 && Completes(v, 1)
      && Place(v, 5) == Spot(View([[a, b], [], [e], [d]], [FULL, ACTIVE, FULL, FULL], 1), 1)
  {
    hide EncodeAll, CountLive, FirstFrom, Relocated, VictimAmong;
    EmptyLog();
    TwoRecords(a, b);
    TwoRecords(Dead(c), d);
    OneRecord(a);
    OneRecord(b);
    OneRecord(d);
    OneRecord(Dead(c));
    OneRecord(e);
    var v := After5(a, b, c, d, e);
    Victim6(a, b, c, d, e);
    Relocated6(a, b, c, d, e);
    var w := View([[a, b], [], [e], [d]], [FULL, ERASED, FULL, ACTIVE], 3);
    assert Swept(v, 1) == w;
    Next6(w, a, b, d, e);
  }

  /** The deletion of the old record then lands in the new one, on bytes that read as its key. */
  lemma Write6(a: Rec, b: Rec, c: Rec, d: Rec, e: Rec, f: Rec)
    requires IsItem(a, 2, 244) && IsItem(b, 6, 2) && IsItem(c, 3, 1) && IsItem(d, 1, 243)
    requires IsItem(e, 3, 244) && d.crc != 0
    requires IsItem(f, 1, 5) && f.content == [0, 0, 0, 1, 0]
    ensures var v := After5(a, b, c, d, e);
      && Shaped(v) && AtMostOne(v.logs, 1) && Displaced(v, f) && |Encode(f)| <= CONTENT_MAX
      && SpellsKey(f, OldPlace(v, f).offset)
  {
    hide EncodeAll, CountLive, FindKey, Place, Victim, AtMostOne, Collects, Completes, Offset, PageShaped;
    var v := After5(a, b, c, d, e);
    Collected6(a, b, c, d, e);
    OldIsAt(v, f, 1, 1);
    TwoRecords(Dead(c), d);
    EmptyLog();
    assert At(v.logs, 1, 1, 1);
    EncodeOne(f);
    var image := Image(ACTIVE, [f]);
    assert image[6] == 0 && image[7] == 0 && image[8] == 1 && image[9] == 0;
    assert image[6..10] == [0, 0, 1, 0];
  }

  function Item(key: int, content: seq<Byte>): Rec
    requires KeyValid(key) && |content| <= MAX_CONTENT_LEN
  {
    Rec(|content|, Maxim(content), key, content)
  }

  /**
    Six legal writes on blank flash, none of them failing, after which no reading of the flash
    agrees with the RAM table.
   */
  method CorruptingRun() returns (store: Store, results: seq<int>)
    ensures store.checksum == Maxim && results == [0, 0, 0, 0, 0, 0]
    ensures !store.Consistent()
  {
    hide Write, After1, After2, After3, After4, After5, AtMostOne, Displaced, SpellsKey, OldPlace, Meaning, Shaped,
      Maxim, IsMap;
    hide Store.Valid, Store.Consistent, Store.Corrupts, Store.ImagesKeep;
    store := new Store(Maxim);
    ghost var a, b, c := Item(2, Zeros(244)), Item(6, Zeros(2)), Item(3, [0]);
    ghost var d, e, f := Item(1, Zeros(242) + [1]), Item(3, Zeros(244)), Item(1, [0, 0, 0, 1, 0]);
    Write1(a);
    Write2(a, b);
    Write3(a, b, c);
    Write4(a, b, c, d);
    Write5(a, b, c, d, e);
    MovableOrNot(242);
    Write6(a, b, c, d, e, f);
    StaleWhen(After5(a, b, c, d, e), f);
    var r1 := store.WriteItem(2, Zeros(244));
    var r2 := store.WriteItem(6, Zeros(2));
    var r3 := store.WriteItem(3, [0]);
    var r4 := store.WriteItem(1, Zeros(242) + [1]);
    var r5 := store.WriteItem(3, Zeros(244));
    var r6 := store.WriteItem(1, [0, 0, 0, 1, 0]);
    results := [r1, r2, r3, r4, r5, r6];
  }

  // ---------------------------------------------------------------------------------------
  // A collection that stops midway

  function Half1(a: Rec): View {
    View([[a], [], [], []], [ACTIVE, ERASED, ERASED, ERASED], 0)
  }

  function Half2(a: Rec, b: Rec): View {
    View([[a, b], [], [], []], [ACTIVE, ERASED, ERASED, ERASED], 0)
  }

  function Half3(a: Rec, b: Rec, c: Rec): View {
    View([[a, b, c], [], [], []], [FULL, ERASED, ERASED, ERASED], NO_PAGE)
  }

  function Half4(a: Rec, b: Rec, c: Rec, d: Rec): View {
    View([[a, b, c], [d], [], []], [FULL, ACTIVE, ERASED, ERASED], 1)
  }

  predicate HalfItems(a: Rec, b: Rec, c: Rec, d: Rec) {
    IsItem(a, 1, 10) && IsItem(b, 2, 227) && IsItem(c, 5, 5) && IsItem(d, 3, 6) && a.crc != 0 && b.crc != 0
  }

  lemma HalfWrites(a: Rec, b: Rec, c: Rec, d: Rec)
    requires HalfItems(a, b, c, d)
    ensures Write(BLANK, a) == Outcome(Half1(a), 0, false)
    ensures Write(Half1(a), b) == Outcome(Half2(a, b), 0, false)
    ensures Write(Half2(a, b), c) == Outcome(Half3(a, b, c), 0, false)
    ensures Write(Half3(a, b, c), d) == Outcome(Half4(a, b, c, d), 0, false)
  {
    hide Write;
    HalfWrite1(a);
    HalfWrite2(a, b);
    HalfWrite3(a, b, c);
    HalfWrite4(a, b, c, d);
  }

  lemma HalfWrite1(a: Rec)
    requires IsItem(a, 1, 10)
    ensures Write(BLANK, a) == Outcome(Half1(a), 0, false)
  {
    hide Write, EncodeAll;
    EmptyLog();
    OneRecord(a);
    var w := WithStatus(BLANK, 0, ACTIVE);
    assert FirstFrom(BLANK.status, 0, ERASED, 0) == 0;
    assert Place(BLANK, 10) == Spot(w, 0);
    NewKey(BLANK, a, w, 0);
    assert [] + [a] == [a];
    assert Grown(w, 0, a) == Half1(a);
  }

  lemma HalfWrite2(a: Rec, b: Rec)
    requires IsItem(a, 1, 10) && IsItem(b, 2, 227)
    ensures Write(Half1(a), b) == Outcome(Half2(a, b), 0, false)
  {
    hide Write, EncodeAll;
    EmptyLog();
    OneRecord(a);
    var v := Half1(a);
    assert Place(v, 227) == Spot(v, 0);
    NewKey(v, b, v, 0);
    assert [a] + [b] == [a, b];
    assert Grown(v, 0, b) == Half2(a, b);
  }

  lemma HalfWrite3(a: Rec, b: Rec, c: Rec)
    requires IsItem(a, 1, 10) && IsItem(b, 2, 227) && IsItem(c, 5, 5)
    ensures Write(Half2(a, b), c) == Outcome(Half3(a, b, c), 0, false)
  {
    hide Write, EncodeAll;
    EmptyLog();
    TwoRecords(a, b);
    var v := Half2(a, b);
    assert Place(v, 5) == Spot(v, 0);
    NewKey(v, c, v, 0);
    assert [a, b] + [c] == [a, b, c];
    assert Grown(v, 0, c) == Half3(a, b, c);
  }

  lemma HalfWrite4(a: Rec, b: Rec, c: Rec, d: Rec)
    requires HalfItems(a, b, c, d)
    ensures Write(Half3(a, b, c), d) == Outcome(Half4(a, b, c, d), 0, false)
  {
    hide Write, EncodeAll;
    EmptyLog();
    ThreeRecords(a, b, c);
    var v := Half3(a, b, c);
    var w := WithStatus(v, 1, ACTIVE);
    assert FirstFrom(v.status, 0, ERASED, 1) == 1;
    assert Place(v, 6) == Spot(w, 1);
    NewKey(v, d, w, 1);
    assert [] + [d] == [d];
    assert Grown(w, 1, d) == Half4(a, b, c, d);
  }

  /** The collection of page 0 copies its first record, and stops at the second, which just does not fit. */
  lemma HalfRelocated(a: Rec, b: Rec, c: Rec, d: Rec)
    requires HalfItems(a, b, c, d)
    ensures Relocated(Half4(a, b, c, d), [a, b, c], 3) ==
      Course(View([[a, b, c], [d, a], [], []], [FULL, ACTIVE, ERASED, ERASED], 1), 1)
  {
    hide EncodeAll, CountLive;
    EmptyLog();
    OneRecord(d);
    TwoRecords(d, a);
    var v := Half4(a, b, c, d);
    var w := View([[a, b, c], [d, a], [], []], [FULL, ACTIVE, ERASED, ERASED], 1);
    assert [d] + [a] == [d, a];
    assert Relocate(v, a) == Gone(w, true);
    assert Relocate(w, b) == Gone(w, false);
    assert Relocated(v, [a, b, c], 1) == Course(w, 1);
    assert Relocated(v, [a, b, c], 2) == Course(w, 1);
  }

  lemma HalfVictim(a: Rec, b: Rec, c: Rec, d: Rec)
    requires HalfItems(a, b, c, d)
    ensures Victim(Half4(a, b, c, d)) == 0
  {
    hide CountLive;
    var v := Half4(a, b, c, d);
    assert VictimAmong(v, 1) == NO_PAGE;
    assert VictimAmong(v, 2) == NO_PAGE;
    assert VictimAmong(v, 3) == NO_PAGE;
  }

  /** A further write of 244 bytes collects page 0, and goes to page 2. */
  lemma HalfPlace(a: Rec, b: Rec, c: Rec, d: Rec)
    requires HalfItems(a, b, c, d)
    ensures var v := Half4(a, b, c, d);
      && Shaped(v) && Collects(v, 244) && Victim(v) == 0 && !Completes(v, 0) && Reach(v, 0) == 1
      && Place(v, 244) == Spot(View([[a, b, c], [d, a], [], []], [FULL, FULL, ACTIVE, ERASED], 2), 2)
  {
    hide EncodeAll, CountLive, FirstFrom, Relocated, VictimAmong;
    EmptyLog();
    ThreeRecords(a, b, c);
    OneRecord(d);
    TwoRecords(d, a);
    HalfVictim(a, b, c, d);
    HalfRelocated(a, b, c, d);
    var w := View([[a, b, c], [d, a], [], []], [FULL, ACTIVE, ERASED, ERASED], 1);
    assert Swept(Half4(a, b, c, d), 0) == w;
    HalfNext(w, a, b, c, d);
  }

  lemma HalfNext(w: View, a: Rec, b: Rec, c: Rec, d: Rec)
    requires w == View([[a, b, c], [d, a], [], []], [FULL, ACTIVE, ERASED, ERASED], 1)
    ensures OpenNext(WithStatus(w, 1, FULL), 1) ==
      Spot(View([[a, b, c], [d, a], [], []], [FULL, FULL, ACTIVE, ERASED], 2), 2)
  {
    assert FirstFrom([FULL, FULL, ERASED, ERASED], 1, ERASED, 1) == 2;
  }

  /** That write, of key 1 or of a new key, leaves key 1 with two records. */
  lemma HalfDoubles(a: Rec, b: Rec, c: Rec, d: Rec, r: Rec)
    requires HalfItems(a, b, c, d) && (IsItem(r, 1, 244) || IsItem(r, 4, 244))
    ensures var v := Half4(a, b, c, d);
      && Shaped(v) && AtMostOne(v.logs, r.idx) && AtMostOne(v.logs, 1) && Has(v.logs, 1) && Doubles(v, r, 1)
      && !Write(v, r).torn && Write(v, r).ret == 0
  {
    hide FindKey, Place, Victim, Collects, Completes, PageShaped, Write, Reach, Appends, AtMostOne, Has, Reopened,
      OnPage, SpellsKey, OldPlace;
    var v := Half4(a, b, c, d);
    HalfPlace(a, b, c, d);
    HalfKeys(a, b, c, d, r);
    HalfAppends(a, b, c, d, r);
    assert Movable(v.logs, 0, 0, 1);
    StaleWhen(v, r);
    WriteMeans(v, r);
    MeaningSucceeds(v, r);
  }

  lemma HalfKeys(a: Rec, b: Rec, c: Rec, d: Rec, r: Rec)
    requires HalfItems(a, b, c, d) && (IsItem(r, 1, 244) || IsItem(r, 4, 244))
    ensures var v := Half4(a, b, c, d); AtMostOne(v.logs, r.idx) && AtMostOne(v.logs, 1) && Has(v.logs, 1)
  {
    assert At(Half4(a, b, c, d).logs, 0, 0, 1);
  }

  lemma HalfAppends(a: Rec, b: Rec, c: Rec, d: Rec, r: Rec)
    requires HalfItems(a, b, c, d) && (IsItem(r, 1, 244) || IsItem(r, 4, 244))
    ensures Appends(Half4(a, b, c, d), r)
  {
    hide FindKey, Place, PageShaped, AtMostOne, Has, EncodeAll;
    HalfPlace(a, b, c, d);
    HalfKeys(a, b, c, d, r);
    OneByHas(Half4(a, b, c, d), r);
    EmptyLog();
  }

  lemma MeaningSucceeds(v: View, r: Rec)
    requires Four(v) && Meaning(v, r, Write(v, r).ret, Write(v, r).view.logs)
    requires Collects(v, |r.content|) && Appends(v, r) && !Completes(v, Victim(v)) && Victim(v) < PAGES
    ensures Write(v, r).ret == 0
  {
    hide Write, Appends, Collects, Completes, Victim, OnPage, Doubled, OthersCollected, HoldsOnly, HoldsCopies, Fewest;
  }

  /** The store of those four writes, with the checksum of the firmware. */
  method HalfStore() returns (store: Store, results: seq<int>, ghost b: Rec, ghost c: Rec, ghost d: Rec)
    ensures store.checksum == Maxim && results == [0, 0, 0, 0] && fresh(store) && store.Valid()
    ensures HalfItems(Item(1, Zeros(9) + [1]), b, c, d) && store.Abs() == Half4(Item(1, Zeros(9) + [1]), b, c, d)
  {
    hide Write, Half1, Half2, Half3, Half4, AtMostOne, Displaced, SpellsKey, OldPlace, Meaning, Shaped, Maxim, IsMap;
    hide Store.Valid, Store.Consistent, Store.Corrupts, Store.ImagesKeep;
    store := new Store(Maxim);
    ghost var a := Item(1, Zeros(9) + [1]);
    b, c, d := Item(2, Zeros(226) + [1]), Item(5, Zeros(5)), Item(3, Zeros(6));
    MovableOrNot(9);
    MovableOrNot(226);
    HalfWrites(a, b, c, d);
    var r1 := store.WriteItem(1, Zeros(9) + [1]);
    var r2 := store.WriteItem(2, Zeros(226) + [1]);
    var r3 := store.WriteItem(5, Zeros(5));
    var r4 := store.WriteItem(3, Zeros(6));
    results := [r1, r2, r3, r4];
  }

  /**
    Five successful writes, the first and the last of key 1, and one lookup of it: the collection
    that the last write ran stopped midway, and the key is gone.
   */
  method InterruptedRun() returns (store: Store, results: seq<int>, got: seq<Byte>)
    ensures store.checksum == Maxim && results == [0, 0, 0, 0, 0]
    ensures store.Valid() && !Has(store.logs, 1)
  {
    hide Write, Half4, AtMostOne, Displaced, SpellsKey, OldPlace, Meaning, Shaped, Maxim, IsMap, Doubles, Has,
      HalfItems;
    hide Store.Valid, Store.Consistent, Store.Corrupts, Store.ImagesKeep;
    ghost var b, c, d;
    store, results, b, c, d := HalfStore();
    store.ValidShaped();
    ghost var r := Item(1, Zeros(244));
    HalfDoubles(Item(1, Zeros(9) + [1]), b, c, d, r);
    NeverCorrupts(store, r);
    ghost var written;
    var ret;
    ret, got, written := WriteThenLookUp(store, 1, Zeros(244), 1, 244);
    results := results + [ret];
  }

  /**
    The same store, and a write of another key: key 1, which only the first write touched, is gone
    after a lookup.
   */
  method BystanderRun() returns (store: Store, results: seq<int>, got: seq<Byte>)
    ensures store.checksum == Maxim && results == [0, 0, 0, 0, 0]
    ensures store.Valid() && !Has(store.logs, 1)
  {
    hide Write, Half4, AtMostOne, Displaced, SpellsKey, OldPlace, Meaning, Shaped, Maxim, IsMap, Doubles, Has,
      HalfItems;
    hide Store.Valid, Store.Consistent, Store.Corrupts, Store.ImagesKeep;
    ghost var b, c, d;
    store, results, b, c, d := HalfStore();
    store.ValidShaped();
    ghost var r := Item(4, Zeros(244));
    HalfDoubles(Item(1, Zeros(9) + [1]), b, c, d, r);
    NeverCorrupts(store, r);
    ghost var written;
    var ret;
    ret, got, written := WriteThenLookUp(store, 4, Zeros(244), 1, 244);
    results := results + [ret];
  }

  /** A write that tears nothing does not corrupt. */
  lemma NeverCorrupts(store: Store, r: Rec)
    requires Four(store.Abs()) && !Write(store.Abs(), r).torn
    ensures !store.Corrupts(store.Abs(), r)
  {
    hide Write, Tears;
    hide Store.Rereads;
    TornWhen(store.Abs(), r);
  }

  // ---------------------------------------------------------------------------------------
  // A collection that goes through

  function Full2(a: Rec, b: Rec): View {
    View([[a, b], [], [], []], [FULL, ERASED, ERASED, ERASED], NO_PAGE)
  }

  function Full3(a: Rec, b: Rec, c: Rec): View {
    View([[a, b], [c], [], []], [FULL, ACTIVE, ERASED, ERASED], 1)
  }

  predicate FullItems(a: Rec, b: Rec, c: Rec) {
    IsItem(a, 1, 10) && IsItem(b, 6, 236) && IsItem(c, 4, 244) && a.crc != 0 && b.crc == 0
  }

  lemma FullWrite2(a: Rec, b: Rec)
    requires IsItem(a, 1, 10) && IsItem(b, 6, 236)
    ensures Write(Half1(a), b) == Outcome(Full2(a, b), 0, false)
  {
    hide Write, EncodeAll;
    EmptyLog();
    OneRecord(a);
    var v := Half1(a);
    assert Place(v, 236) == Spot(v, 0);
    NewKey(v, b, v, 0);
    assert [a] + [b] == [a, b];
    assert Grown(v, 0, b) == Full2(a, b);
  }

  lemma FullWrite3(a: Rec, b: Rec, c: Rec)
    requires FullItems(a, b, c)
    ensures Write(Full2(a, b), c) == Outcome(Full3(a, b, c), 0, false)
  {
    hide Write, EncodeAll;
    EmptyLog();
    TwoRecords(a, b);
    var v := Full2(a, b);
    var w := WithStatus(v, 1, ACTIVE);
    assert FirstFrom(v.status, 0, ERASED, 1) == 1;
    assert Place(v, 244) == Spot(w, 1);
    NewKey(v, c, w, 1);
    assert [] + [c] == [c];
    assert Grown(w, 1, c) == Full3(a, b, c);
  }

  lemma FullRelocated(a: Rec, b: Rec, c: Rec)
    requires FullItems(a, b, c)
    ensures Relocated(Full3(a, b, c), [a, b], 2) ==
      Course(View([[a, b], [c], [a], []], [FULL, FULL, ACTIVE, ERASED], 2), 2)
  {
    hide EncodeAll, CountLive;
    EmptyLog();
    OneRecord(a);
    OneRecord(c);
    var v := Full3(a, b, c);
    assert FirstFrom(v.status, 1, ERASED, 1) == 2;
    assert [] + [a] == [a];
    var w := View([[a, b], [c], [], []], [FULL, FULL, ACTIVE, ERASED], 2);
    assert WithStatus(WithStatus(v, 1, FULL), 2, ACTIVE) == w;
    assert Relocate(v, a) == Gone(Grown(w, 2, a), true);
    assert Relocated(v, [a, b], 1) == Course(Grown(w, 2, a), 1);
  }

  lemma FullVictim(a: Rec, b: Rec, c: Rec)
    ensures Victim(Full3(a, b, c)) == 0
  {
    hide CountLive;
    var v := Full3(a, b, c);
    assert VictimAmong(v, 1) == NO_PAGE;
    assert VictimAmong(v, 2) == NO_PAGE;
    assert VictimAmong(v, 3) == NO_PAGE;
  }

  /** A further write of 5 bytes collects page 0, which moves its first record to page 2, and follows it there. */
  lemma FullPlace(a: Rec, b: Rec, c: Rec)
    requires FullItems(a, b, c)
    ensures var v := Full3(a, b, c);
      && Shaped(v) && Collects(v, 5) && Victim(v) == 0 && Completes(v, 0) && Reach(v, 0) == 2
      && Place(v, 5) == Spot(View([[], [c], [a], []], [ERASED, FULL, ACTIVE, ERASED], 2), 2)
  {
    hide EncodeAll, CountLive, FirstFrom, Relocated, VictimAmong;
    EmptyLog();
    TwoRecords(a, b);
    OneRecord(c);
    OneRecord(a);
    FullVictim(a, b, c);
    FullRelocated(a, b, c);
    var w := View([[], [c], [a], []], [ERASED, FULL, ACTIVE, ERASED], 2);
    assert Swept(Full3(a, b, c), 0) == w;
  }

  lemma FullDoubles(a: Rec, b: Rec, c: Rec, r: Rec)
    requires FullItems(a, b, c) && IsItem(r, 1, 5)
    ensures var v := Full3(a, b, c);
      && Shaped(v) && AtMostOne(v.logs, 1) && Has(v.logs, 1) && Doubles(v, r, 1)
      && !Write(v, r).torn && Write(v, r).ret == 0
  {
    hide FindKey, Place, Victim, Collects, Completes, PageShaped, Write, Reach, AtMostOne, Has, OnPage, Fits, OldPlace,
      SpellsKey, EncodeAll;
    var v := Full3(a, b, c);
    FullPlace(a, b, c);
    assert At(v.logs, 0, 0, 1) && Movable(v.logs, 0, 0, 1);
    FullKeys(a, b, c);
    OneByHas(v, r);
    OneRecord(a);
    assert Fits(Ready(v, r).view, 2, r) by { FullFits(a, c, r); }
    assert OnPage(v.logs, 0, 1) by { OnItsPage(v.logs, 0, 0, 1); }
    CollectHere(v, r);
    StaleWhen(v, r);
  }

  lemma FullKeys(a: Rec, b: Rec, c: Rec)
    requires FullItems(a, b, c)
    ensures AtMostOne(Full3(a, b, c).logs, 1) && Has(Full3(a, b, c).logs, 1)
  {
    assert At(Full3(a, b, c).logs, 0, 0, 1);
  }

  lemma FullFits(a: Rec, c: Rec, r: Rec)
    requires IsItem(a, 1, 10) && IsItem(r, 1, 5)
    ensures Fits(View([[], [c], [a], []], [ERASED, FULL, ACTIVE, ERASED], 2), 2, r)
  {
    hide EncodeAll;
    OneRecord(a);
  }

  lemma OnItsPage(logs: Logs, p: nat, i: nat, key: int)
    requires At(logs, p, i, key)
    ensures OnPage(logs, p, key)
  {
  }

  /** Four successful writes, the first and the last of key 1, and one lookup of it: the key is gone. */
  method MovedRun() returns (store: Store, results: seq<int>, got: seq<Byte>)
    ensures store.checksum == Maxim && results == [0, 0, 0, 0]
    ensures store.Valid() && !Has(store.logs, 1)
  {
    hide Write, Half1, Full2, Full3, AtMostOne, Displaced, SpellsKey, OldPlace, Meaning, Shaped, Maxim, IsMap,
      Doubles, Has;
    hide Store.Valid, Store.Consistent, Store.Corrupts, Store.ImagesKeep;
    store := new Store(Maxim);
    ghost var a, b, c := Item(1, Zeros(9) + [1]), Item(6, Zeros(236)), Item(4, Zeros(244));
    ghost var r := Item(1, Zeros(5));
    MovableOrNot(9);
    MovableOrNot(236);
    HalfWrite1(a);
    FullWrite2(a, b);
    FullWrite3(a, b, c);
    FullDoubles(a, b, c, r);
    var r1 := store.WriteItem(1, Zeros(9) + [1]);
    var r2 := store.WriteItem(6, Zeros(236));
    var r3 := store.WriteItem(4, Zeros(244));
    NeverCorrupts(store, r);
    ghost var written;
    var r4;
    r4, got, written := WriteThenLookUp(store, 1, Zeros(5), 1, 5);
    results := [r1, r2, r3, r4];
  }
}
