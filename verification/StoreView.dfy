/**
  The store as a value: what the pages hold, their status, and which one is active. Each step of
  the driver is a function here, so that what a write will do can be told before it starts.
 */
module StoreView {
  import opened StoreLog
  import opened StoreMap

  const MAX_CONTENT_LEN := 248   // EEPROM_PAGE_SIZE - 8

  datatype View = View(logs: Logs, status: seq<Byte>, active: nat)

  /** A remembered location: a page, or NO_PAGE, and the offset of a record there. */
  datatype Mark = Mark(page: nat, offset: nat)

  const NOWHERE := Mark(NO_PAGE, 0)

  predicate Four(v: View) {
    |v.logs| == PAGES && |v.status| == PAGES
  }

  /** Every page has one of the three statuses, the only ACTIVE one is `active`, and an ERASED one is empty. */
  ghost predicate Shaped(v: View) {
    && Four(v) && v.active <= NO_PAGE
    && forall p :: 0 <= p < PAGES ==> PageShaped(v, p)
  }

  predicate PageShaped(v: View, p: int)
    requires Four(v) && 0 <= p < PAGES
  {
    && (v.status[p] == ERASED || v.status[p] == ACTIVE || v.status[p] == FULL)
    && (v.status[p] == ACTIVE <==> p == v.active)
    && (v.status[p] == ERASED ==> v.logs[p] == [])
    && |EncodeAll(v.logs[p])| < CONTENT_MAX
  }

  /** A C int compared with a size_t is converted to 32 unsigned bits first. */
  function Unsigned(x: int): int {
    if x < 0 then x + 0x1_0000_0000 else x
  }

  /** The page `d` steps after `from`, around the four pages. */
  function Cyclic(from: nat, d: nat): (p: nat)
    ensures p < PAGES
  {
    (from + d) % PAGES
  }

  /** The page `d` steps before `from`. */
  function Back(from: nat, d: nat): (p: nat)
    ensures p < PAGES
  {
    (from + 3 * d) % PAGES
  }

  function Free(v: View, p: nat): int
    requires Four(v)
  {
    if p >= PAGES then -1
    else if v.status[p] == ACTIVE then CONTENT_MAX - |EncodeAll(v.logs[p])|
    else 0
  }

  function IsErased(status: Byte): nat {
    if status == ERASED then 1 else 0
  }

  function ErasedCount(status: seq<Byte>): nat
    requires |status| == PAGES
  {
    IsErased(status[0]) + IsErased(status[1]) + IsErased(status[2]) + IsErased(status[3])
  }

  /** The first page with the status, in cyclic order from `from`, `d` of the pages being passed already. */
  function FirstFrom(status: seq<Byte>, from: nat, wanted: Byte, d: nat): (page: nat)
    requires |status| == PAGES && d <= PAGES
    ensures page <= NO_PAGE && (page < PAGES ==> status[page] == wanted)
    decreases PAGES - d
  {
    if d == PAGES then NO_PAGE
    else if status[Cyclic(from, d)] == wanted then Cyclic(from, d)
    else FirstFrom(status, from, wanted, d + 1)
  }

  // ---------------------------------------------------------------------------------------
  // Changes to one page

  function WithStatus(v: View, p: nat, status: Byte): (w: View)
    requires Four(v) && p < PAGES
    ensures Four(w) && w.logs == v.logs
  {
    View(v.logs, v.status[p := status],
         if status == v.status[p] then v.active
         else if status == ACTIVE then p
         else if v.status[p] == ACTIVE then NO_PAGE
         else v.active)
  }

  predicate Fits(v: View, p: nat, r: Rec)
    requires Four(v)
  {
    && p < PAGES && KeyValid(r.idx)
    && v.status[p] != FULL && |EncodeAll(v.logs[p])| + |Encode(r)| < CONTENT_MAX
  }

  /** The status of a page with `used` bytes after an append. */
  function StatusAfter(used: nat): Byte {
    if CONTENT_MAX - used < HEADER_SIZE then FULL else ACTIVE
  }

  /** A record appended; the page is closed when no further header fits. */
  function Grown(v: View, p: nat, r: Rec): (w: View)
    requires Four(v) && p < PAGES
    ensures Four(w) && w.logs == Appended(v.logs, p, r)
  {
    WithStatus(v.(logs := Appended(v.logs, p, r)), p, StatusAfter(|EncodeAll(v.logs[p])| + |Encode(r)|))
  }

  function Wiped(v: View, p: nat): (w: View)
    requires Four(v) && p < PAGES
    ensures Four(w)
  {
    View(ErasedAt(v.logs, p), v.status[p := ERASED], v.active)
  }

  /** A record killed; a FULL page without live records is erased. */
  function Deleted(v: View, p: nat, i: nat): (w: View)
    requires Four(v) && p < PAGES && i < |v.logs[p]|
    ensures Four(w)
  {
    var next := v.(logs := Killed(v.logs, p, i));
    if CountLive(next.logs[p]) == 0 && v.status[p] == FULL then Wiped(next, p) else next
  }

  /** The record that starts at the offset, or the number of records if none does. */
  function RecordAt(log: seq<Rec>, offset: nat): (j: nat)
    ensures j <= |log|
  {
    if log == [] then 0
    else
      var n := |log| - 1;
      if |EncodeAll(log[..n])| == offset then n
      else
        var j := RecordAt(log[..n], offset);
        if j < n then j else |log|
  }

  datatype Gone = Gone(view: View, ok: bool)

  /** st_delete_item_with_loc at an offset where a record starts, or on a page without live records. */
  function DeleteAt(v: View, key: int, m: Mark): (g: Gone)
    requires Four(v)
    ensures Four(g.view) && (!g.ok ==> g.view == v)
  {
    if m.page >= PAGES then Gone(v, false)
    else if CountLive(v.logs[m.page]) == 0 then Gone(v, true)
    else
      var j := RecordAt(v.logs[m.page], m.offset);
      if j < |v.logs[m.page]| && v.logs[m.page][j].idx == key then Gone(Deleted(v, m.page, j), true)
      else Gone(v, false)
  }

  // ---------------------------------------------------------------------------------------
  // Looking a key up

  /** A scan of one page: the matches met, the last of them, and whether a deletion failed. */
  datatype Scan = Scan(view: View, cnt: nat, failed: bool, result: Rec, last: Mark)

  /** A match is met: the match seen last, if any, is deleted and this one takes its place. */
  function Meet(s: Scan, key: int, p: nat, i: nat, wanted: bool): (t: Scan)
    requires Four(s.view) && p < PAGES && i < |s.view.logs[p]|
    ensures Four(t.view)
  {
    var result := if wanted then s.view.logs[p][i] else s.result;
    var g := if s.last.page < PAGES then DeleteAt(s.view, key, s.last) else Gone(s.view, true);
    if g.ok then Scan(g.view, s.cnt + 1, false, result, Mark(p, Offset(s.view.logs[p], i)))
    else Scan(g.view, s.cnt, true, result, s.last)
  }

  /** The scan of page `p` after its first `n` records. */
  function ScanTo(s: Scan, key: int, p: nat, n: nat, wanted: bool): (t: Scan)
    requires Four(s.view) && p < PAGES
    ensures Four(t.view)
  {
    if n == 0 then s
    else
      var t := ScanTo(s, key, p, n - 1, wanted);
      if t.failed || !At(t.view.logs, p, n - 1, key) then t else Meet(t, key, p, n - 1, wanted)
  }

  /** A search over the pages; `place` is the location reported to the caller. */
  datatype Search = Search(view: View, cnt: nat, failed: bool, result: Rec, last: Mark, place: Mark)

  /** One page of the search; a key met more than once loses the record seen last as well. */
  function Visit(s: Search, key: int, p: nat): (t: Search)
    requires Four(s.view) && p < PAGES
    ensures Four(t.view)
  {
    if s.view.status[p] == ERASED then s
    else
      var scan := ScanTo(Scan(s.view, 0, false, s.result, s.last), key, p, |s.view.logs[p]|, s.cnt == 0);
      if scan.failed then Search(scan.view, s.cnt, true, scan.result, scan.last, s.place)
      else
        var cnt := s.cnt + scan.cnt;
        var place := if cnt == 1 then scan.last else s.place;
        if cnt > 1 then
          var g := DeleteAt(scan.view, key, scan.last);
          Search(g.view, cnt, !g.ok, scan.result, scan.last, place)
        else Search(scan.view, cnt, false, scan.result, scan.last, place)
  }

  function StartOf(v: View): nat {
    if v.active < PAGES then v.active else 0
  }

  /** The search for `key` after `d` pages, backwards from the active one. */
  function SearchTo(v: View, key: int, item: Rec, d: nat): (s: Search)
    requires Four(v)
    ensures Four(s.view)
  {
    if d == 0 then Search(v, 0, false, item, NOWHERE, NOWHERE)
    else
      var s := SearchTo(v, key, item, d - 1);
      if s.failed then s else Visit(s, key, Back(StartOf(v), d - 1))
  }

  /** st_find_item. */
  function FindKey(v: View, key: int, item: Rec): (s: Search)
    requires Four(v)
    ensures Four(s.view)
  {
    SearchTo(v, key, item, PAGES)
  }

  // ---------------------------------------------------------------------------------------
  // Collecting

  /** Copying records: `upto` is the number of records passed. */
  datatype Course = Course(view: View, upto: nat)

  /** One record goes behind the active page's log, on a newly opened page if need be. */
  function Relocate(v: View, r: Rec): (g: Gone)
    requires Four(v)
    ensures Four(g.view)
  {
    if v.active < PAGES && Unsigned(Free(v, v.active)) < |Encode(r)| then
      var next := FirstFrom(v.status, v.active, ERASED, 0);
      if next >= PAGES then Gone(v, false)
      else Put(WithStatus(WithStatus(v, v.active, FULL), next, ACTIVE), r)
    else Put(v, r)
  }

  function Put(v: View, r: Rec): (g: Gone)
    requires Four(v)
    ensures Four(g.view)
  {
    if Fits(v, v.active, r) then Gone(Grown(v, v.active, r), true) else Gone(v, false)
  }

  /** The state after the first `n` records of `log` were relocated, as far as that went. */
  function Relocated(v: View, log: seq<Rec>, n: nat): (c: Course)
    requires Four(v) && n <= |log|
    ensures Four(c.view) && c.upto <= n
  {
    if n == 0 then Course(v, 0)
    else
      var c := Relocated(v, log, n - 1);
      if c.upto < n - 1 then c
      else if log[n - 1].crc == 0 || log[n - 1].idx == 0 then Course(c.view, n)
      else
        var g := Relocate(c.view, log[n - 1]);
        Course(g.view, if g.ok then n else n - 1)
  }

  /** Collecting page `p` gets to its end, and the page is erased. */
  predicate Completes(v: View, p: nat)
    requires Four(v) && p < PAGES
  {
    Relocated(v, v.logs[p], |v.logs[p]|).upto == |v.logs[p]|
  }

  /** st_page_realign. */
  function Swept(v: View, p: nat): (w: View)
    requires Four(v) && p < PAGES
    ensures Four(w)
  {
    var c := Relocated(v, v.logs[p], |v.logs[p]|);
    if c.upto == |v.logs[p]| then Wiped(c.view, p) else c.view
  }

  /** The first FULL page with the fewest live records among the first `d` pages from the active one. */
  function VictimAmong(v: View, d: nat): (p: nat)
    requires Four(v)
    ensures p <= NO_PAGE && (p < PAGES ==> v.status[p] == FULL)
  {
    if d == 0 then NO_PAGE
    else
      var best, p := VictimAmong(v, d - 1), Cyclic(StartOf(v), d - 1);
      if v.status[p] == FULL && (best >= PAGES || CountLive(v.logs[p]) < CountLive(v.logs[best])) then p else best
  }

  /** The page that garbage collection picks. */
  function Victim(v: View): (p: nat)
    requires Four(v)
    ensures p <= NO_PAGE && (p < PAGES ==> v.status[p] == FULL)
  {
    VictimAmong(v, PAGES)
  }

  /** st_realign. */
  function Collect(v: View): (w: View)
    requires Four(v)
    ensures Four(w)
  {
    if Victim(v) < PAGES then Swept(v, Victim(v)) else v
  }

  // ---------------------------------------------------------------------------------------
  // Writing

  /** The page found for a new record: one of the four, NO_PAGE, or -1. */
  datatype Spot = Spot(view: View, page: int)

  /** The guard of garbage collection: the active page has no room and at most two pages are erased. */
  predicate Collects(v: View, len: nat)
    requires Four(v)
  {
    && len + HEADER_SIZE <= MAX_CONTENT_LEN
    && v.active < PAGES && Unsigned(Free(v, v.active)) < len + HEADER_SIZE && ErasedCount(v.status) <= 2
  }

  /** The page that finding room for `len` bytes collects, or NO_PAGE. */
  function Picked(v: View, len: nat): (p: nat)
    requires Four(v)
  {
    if Collects(v, len) then Victim(v) else NO_PAGE
  }

  function OpenNext(v: View, from: nat): (s: Spot)
    requires Four(v)
    ensures Four(s.view) && s.view.logs == v.logs && -1 <= s.page < PAGES && (s.page >= 0 ==> s.view.active == s.page)
  {
    var next := FirstFrom(v.status, from, ERASED, 0);
    if next >= PAGES then Spot(v, -1) else Spot(WithStatus(v, next, ACTIVE), next)
  }

  /** st_get_available_page. */
  function Place(v: View, len: nat): (s: Spot)
    requires Four(v)
    ensures Four(s.view) && -1 <= s.page
  {
    if len + HEADER_SIZE > MAX_CONTENT_LEN then Spot(v, -1)
    else if v.active >= PAGES then OpenNext(v, 0)
    else
      var w := if Collects(v, len) then Collect(v) else v;
      if Unsigned(Free(w, w.active)) >= len + HEADER_SIZE then Spot(w, w.active)
      else if w.active < PAGES then OpenNext(WithStatus(w, w.active, FULL), w.active)
      else Spot(w, -1)
  }

  /** The bytes at an offset of a page read as the header of a record of `key`. */
  ghost predicate Spells(bytes: seq<Byte>, offset: nat, key: int) {
    && |bytes| == PAGE_SIZE && offset + HEADER_SIZE + 1 < PAGE_SIZE
    && HeaderIdx(bytes[1 + offset..1 + offset + HEADER_SIZE]) == key
  }

  /** The bytes of page `p` as the logs tell them. */
  ghost function Bytes(v: View, p: nat): (bytes: seq<Byte>)
    requires Four(v) && p < PAGES
    ensures |bytes| == PAGE_SIZE
  {
    if |EncodeAll(v.logs[p])| <= CONTENT_MAX then Image(v.status[p], v.logs[p]) else Blank(PAGE_SIZE)
  }

  /** A deletion through a location: `torn` if it cleared bytes that are not the header of a record. */
  datatype Struck = Struck(view: View, ok: bool, torn: bool)

  /** The location is on a page with live records, but no record starts there. */
  predicate Astray(v: View, m: Mark)
    requires Four(v) && m.page < PAGES
  {
    CountLive(v.logs[m.page]) > 0 && RecordAt(v.logs[m.page], m.offset) == |v.logs[m.page]|
  }

  /** st_delete_item_with_loc at any location. */
  ghost function Strike(v: View, key: int, m: Mark): (s: Struck)
    requires Four(v) && m.page < PAGES
    ensures Four(s.view)
  {
    if !Astray(v, m) then
      var g := DeleteAt(v, key, m);
      Struck(g.view, g.ok, false)
    else if !Spells(Bytes(v, m.page), m.offset, key) then Struck(v, false, false)
    else if CountLive(v.logs[m.page]) == 1 && v.status[m.page] == FULL then Struck(Wiped(v, m.page), true, false)
    else Struck(v, true, true)
  }

  /** What a torn page holds: the four bytes at the location lost their last two. */
  function TornBytes(bytes: seq<Byte>, offset: nat): (torn: seq<Byte>)
    requires |bytes| == PAGE_SIZE && offset + HEADER_SIZE + 1 < PAGE_SIZE
    ensures |torn| == PAGE_SIZE
  {
    Program(bytes, 1 + offset, [bytes[1 + offset], bytes[2 + offset], 0, 0])
  }

  const NOTHING := Rec(0, 0, 0, [])

  /** The search and the page for the new record, as a write of `r` will find them. */
  function Ready(v: View, r: Rec): (s: Spot)
    requires Four(v)
    ensures Four(s.view) && -1 <= s.page
  {
    Place(FindKey(v, r.idx, NOTHING).view, |r.content|)
  }

  /** The write of `r` gets as far as appending the new record. */
  predicate Appends(v: View, r: Rec)
    requires Four(v)
  {
    var s := Ready(v, r);
    !FindKey(v, r.idx, NOTHING).failed && 0 <= s.page < PAGES && Fits(s.view, s.page, r)
  }

  /** The store with the new record appended and the old one not yet deleted. */
  function Appending(v: View, r: Rec): (w: View)
    requires Four(v) && Appends(v, r)
    ensures Four(w)
  {
    Grown(Ready(v, r).view, Ready(v, r).page, r)
  }

  /**
    The deletion of the old record goes through a stale location: its page was erased on the way
    and has records again, none of which starts at that offset.
   */
  predicate GoesStale(v: View, r: Rec)
    requires Four(v)
  {
    var m := FindKey(v, r.idx, NOTHING).place;
    Appends(v, r) && m.page < PAGES && Astray(Appending(v, r), m)
  }

  datatype Outcome = Outcome(view: View, ret: int, torn: bool)

  /** st_write_item with legal arguments. If the page is torn, `view` is the store before it was. */
  ghost function Write(v: View, r: Rec): (o: Outcome)
    requires Four(v)
    ensures Four(o.view)
  {
    var f := FindKey(v, r.idx, NOTHING);
    if f.failed then Outcome(f.view, -1, false)
    else if !Appends(v, r) then Outcome(Ready(v, r).view, -1, false)
    else
      var g := Appending(v, r);
      if f.place.page >= PAGES then Outcome(g, 0, false)
      else
        var s := Strike(g, r.idx, f.place);
        Outcome(s.view, if s.ok then 0 else -1, s.torn)
  }
}
