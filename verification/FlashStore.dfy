/**
  The flash key-value store: four pages, each with a status byte and an append-only log, and a
  RAM table that caches what the pages hold. One power session from blank flash, with an
  EEPROM whose operations succeed. Each method is proved to take the step that `StoreView`
  describes; what the steps mean for the map of keys is in `StoreFind`, `StoreLookup`,
  `StoreCollect`, `StoreWrites` and `StoreOutcomes`.
 */
module FlashStore {
  import opened StoreLog
  import opened StoreMap
  import opened StoreView
  import opened StoreFind
  import opened StoreCollect
  import opened StoreCounts
  import opened StoreLookup
  import opened StoreWrites
  import opened StoreOutcomes

  datatype PageInfo = PageInfo(status: Byte, itemCnt: nat, bytesUsed: nat)

  type Flash = seq<seq<Byte>>

  const NO_KEY := 0

  function Statuses(pages: seq<PageInfo>): (s: seq<Byte>)
    ensures |s| == |pages|
  {
    seq<Byte>(|pages|, (i: int) requires 0 <= i < |pages| => pages[i].status)
  }

  /** The RAM table counts its ERASED pages and names its only ACTIVE page. */
  ghost predicate CountsOk(pages: seq<PageInfo>, pageErased: nat, pageActive: nat) {
    && |pages| == PAGES
    && pageErased == ErasedCount(Statuses(pages))
    && pageActive <= NO_PAGE
    && forall p :: 0 <= p < PAGES ==> (pages[p].status == ACTIVE <==> p == pageActive)
  }

  /** A row of the RAM table says what its page holds. */
  ghost predicate InfoOk(bytes: seq<Byte>, info: PageInfo, log: seq<Rec>) {
    && |bytes| == PAGE_SIZE && bytes[0] == info.status
    && (info.status == ERASED || info.status == ACTIVE || info.status == FULL)
    && info.bytesUsed == |EncodeAll(log)|
    && info.itemCnt == CountLive(log)
    && (info.status == ERASED ==> log == [])
  }

  ghost predicate InfosOk(flash: Flash, pages: seq<PageInfo>, logs: Logs) {
    && |flash| == PAGES && |pages| == PAGES && |logs| == PAGES
    && forall p :: 0 <= p < PAGES ==> InfoOk(flash[p], pages[p], logs[p])
  }

  /** A page goes from ERASED to ACTIVE to FULL: each move only clears status bits. */
  predicate Moves(from: Byte, to: Byte) {
    from == to || (from == ERASED && (to == ACTIVE || to == FULL)) || (from == ACTIVE && to == FULL)
  }

  predicate MayMove(from: Byte, to: Byte, active: nat, p: nat) {
    Moves(from, to) && to != ERASED && (to == ACTIVE ==> active == NO_PAGE || active == p)
  }

  lemma MoveBits(from: Byte, to: Byte)
    requires Moves(from, to)
    ensures And(from, to) == to
  {
    if from == to {
      AndSelf(from);
    } else if from == ERASED {
      AndErased(to);
    } else {
      ActiveToFull();
    }
  }

  lemma ActiveToFull()
    ensures And(ACTIVE, FULL) == FULL
  {
    AndSelf(0x3F);
    assert BitAnd(0xFE, 0xFC) == 2 * BitAnd(0x7F, 0x7E);
    assert BitAnd(0x7F, 0x7E) == 2 * BitAnd(0x3F, 0x3F);
  }

  /** One page changed. */
  ghost predicate OnlyPage<T(!new)>(before: seq<T>, after: seq<T>, p: nat) {
    |after| == |before| && forall q :: 0 <= q < |before| && q != p ==> after[q] == before[q]
  }

  lemma InfosUpdate(flash: Flash, pages: seq<PageInfo>, logs: Logs, p: nat,
                    nextFlash: Flash, nextPages: seq<PageInfo>, nextLogs: Logs)
    requires InfosOk(flash, pages, logs) && p < PAGES
    requires OnlyPage(flash, nextFlash, p) && OnlyPage(pages, nextPages, p) && OnlyPage(logs, nextLogs, p)
    requires InfoOk(nextFlash[p], nextPages[p], nextLogs[p])
    ensures InfosOk(nextFlash, nextPages, nextLogs)
  {
    hide InfoOk;
  }

  /** The counts after page `p` moved on to a new status, as `st_page_status_update` keeps them. */
  lemma CountsUpdate(pages: seq<PageInfo>, pageErased: nat, pageActive: nat, p: nat, next: seq<PageInfo>)
    requires CountsOk(pages, pageErased, pageActive) && p < PAGES && OnlyPage(pages, next, p)
    requires next[p].status == ACTIVE ==> pageActive == NO_PAGE || pageActive == p
    ensures var wasErased, isErased := pages[p].status == ERASED, next[p].status == ERASED;
      && (wasErased ==> pageErased > 0)
      && CountsOk(next,
           (if wasErased && !isErased then pageErased - 1
            else if isErased && !wasErased then pageErased + 1
            else pageErased),
           (if next[p].status == ACTIVE then p else if pages[p].status == ACTIVE then NO_PAGE else pageActive))
  {
  }

  /** Going on one page at a time comes back after four. */
  lemma Around(from: nat, d: nat)
    requires from < PAGES && d < PAGES
    ensures Cyclic(from, 0) == from
    ensures var p := Cyclic(from, d);
      Cyclic(from, d + 1) == (if p + 1 < PAGES then p + 1 else 0) && (Cyclic(from, d + 1) == from <==> d + 1 == PAGES)
  {
  }

  class Store {
    const checksum: seq<Byte> -> Byte

    var flash: Flash
    var pages: seq<PageInfo>
    var pageErased: nat
    var pageActive: nat
    var searchIdx: int        // the search context
    var lastPage: nat
    var lastOffset: nat

    ghost var logs: Logs              // what the pages hold
    ghost var history: seq<Flash>     // the flash after every EEPROM operation so far

    // -------------------------------------------------------------------------------------
    // Consistency

    ghost predicate LogOk(log: seq<Rec>) {
      forall i :: 0 <= i < |log| ==> Sized(log[i]) && log[i].crc == checksum(log[i].content)
    }

    /** A page holds a log of CRC-valid records, followed by nothing but 0xFF. */
    ghost predicate PageHolds(bytes: seq<Byte>, log: seq<Rec>) {
      && |EncodeAll(log)| < CONTENT_MAX
      && |bytes| == PAGE_SIZE && bytes == Image(bytes[0], log)
      && LogOk(log)
    }

    ghost predicate Faithful(image: Flash, logs: Logs) {
      && |image| == PAGES && |logs| == PAGES
      && forall p :: 0 <= p < PAGES ==> PageHolds(image[p], logs[p])
    }

    ghost predicate Sizes()
      reads this`flash, this`pages
    {
      |flash| == PAGES && |pages| == PAGES && forall p :: 0 <= p < PAGES ==> |flash[p]| == PAGE_SIZE
    }

    /** The RAM table agrees with the flash. */
    ghost predicate Valid()
      reads this`flash, this`pages, this`logs, this`pageErased, this`pageActive
    {
      && Faithful(flash, logs)
      && CountsOk(pages, pageErased, pageActive)
      && InfosOk(flash, pages, logs)
    }

    /** Some reading of the flash agrees with the RAM table. */
    ghost predicate Consistent()
      reads this`flash, this`pages, this`pageErased, this`pageActive
    {
      CountsOk(pages, pageErased, pageActive) && exists l :: Faithful(flash, l) && InfosOk(flash, pages, l)
    }

    /** The store as a value. */
    ghost function Abs(): View
      reads this`pages, this`logs, this`pageActive
    {
      View(logs, Statuses(pages), pageActive)
    }

    /** Everything but the search context. */
    ghost function Stored(): (Flash, seq<PageInfo>, nat, nat, Logs, seq<Flash>)
      reads this`flash, this`pages, this`pageErased, this`pageActive, this`logs, this`history
    {
      (flash, pages, pageErased, pageActive, logs, history)
    }

    /** What Valid says about one page. */
    lemma TableAt(p: nat)
      requires Valid() && p < PAGES
      ensures Sizes() && |logs| == PAGES && Four(Abs())
      ensures PageHolds(flash[p], logs[p]) && InfoOk(flash[p], pages[p], logs[p])
      ensures pages[p].status == ACTIVE <==> p == pageActive
      ensures pages[p].status == Abs().status[p] && pages[p].bytesUsed == |EncodeAll(logs[p])| < CONTENT_MAX
      ensures pages[p].itemCnt == CountLive(logs[p]) && flash[p] == Bytes(Abs(), p)
    {
      hide Image, EncodeAll, CountLive, LogOk;
    }

    lemma ValidShaped()
      requires Valid()
      ensures Sizes() && |logs| == PAGES && Shaped(Abs())
      ensures pageErased == ErasedCount(Abs().status) && pageActive <= NO_PAGE
      ensures Abs().active == pageActive && Abs().logs == logs
      ensures pageActive < PAGES ==> Abs().status[pageActive] == ACTIVE && 0 < Free(Abs(), pageActive)
      ensures forall p :: 0 <= p < PAGES ==>
        pages[p].status == Abs().status[p] && (Abs().status[p] == ACTIVE <==> p == pageActive)
    {
      hide Image, EncodeAll, CountLive, LogOk;
      forall p | 0 <= p < PAGES ensures PageShaped(Abs(), p) {
        TableAt(p);
      }
      if pageActive < PAGES {
        TableAt(pageActive);
      }
    }

    /** `st_init` on blank flash. */
    constructor (checksum: seq<Byte> -> Byte)
      ensures Valid() && this.checksum == checksum
      ensures Abs() == View([[], [], [], []], [ERASED, ERASED, ERASED, ERASED], NO_PAGE)
      ensures forall k, v :: !Holds(logs, k, v)
      ensures IsMap(logs)
    {
      this.checksum := checksum;
      var blank := seq(PAGE_SIZE, _ => 0xFF);
      var info := PageInfo(ERASED, 0, 0);
      flash := [blank, blank, blank, blank];
      pages := [info, info, info, info];
      pageErased, pageActive := 4, NO_PAGE;
      searchIdx, lastPage, lastOffset := 0, NO_PAGE, 0;
      logs, history := [[], [], [], []], [];
      new;
      hide EncodeAll, CountLive;
      EmptyLog();
      assert CountLive([]) == 0;
      assert blank == Image(ERASED, []);
      assert Statuses(pages) == [ERASED, ERASED, ERASED, ERASED];
    }

    // -------------------------------------------------------------------------------------
    // EEPROM operations. Each one records the flash it leaves behind.

    method EepromWrite(p: nat, at: nat, buf: seq<Byte>)
      requires Sizes() && p < PAGES && at + |buf| <= PAGE_SIZE
      modifies this`flash, this`history
      ensures flash == old(flash)[p := Program(old(flash)[p], at, buf)]
      ensures |flash[p]| == PAGE_SIZE
      ensures forall k, n: nat :: 0 <= k < PAGE_SIZE && BitOf(flash[p][k], n) ==> BitOf(old(flash)[p][k], n)
      ensures history == old(history) + [flash]
    {
      hide BitOf;
      ProgramClears(flash[p], at, buf);
      flash := flash[p := Program(flash[p], at, buf)];
      history := history + [flash];
    }

    method EepromErase(p: nat)
      requires Sizes() && p < PAGES
      modifies this`flash, this`history
      ensures flash == old(flash)[p := Blank(PAGE_SIZE)]
      ensures history == old(history) + [flash]
    {
      flash := flash[p := Blank(PAGE_SIZE)];
      history := history + [flash];
    }

    // -------------------------------------------------------------------------------------
    // Pages

    /** Writes into the content of a page; an exact fit up to the page end is refused. */
    method PageWrite(p: nat, offset: nat, buf: seq<Byte>) returns (ret: int)
      requires Sizes() && 0 < |buf|
      modifies this`flash, this`history
      ensures ret == if p < PAGES && offset + |buf| + 1 < PAGE_SIZE then 0 else -1
      ensures ret == 0 ==>
        flash == old(flash)[p := Program(old(flash)[p], 1 + offset, buf)] && history == old(history) + [flash]
      ensures ret != 0 ==> flash == old(flash) && history == old(history)
    {
      if p >= PAGES {
        return -1;
      }
      if offset + |buf| + 1 >= PAGE_SIZE {
        return -1;
      }
      var at, bytesRemain := 1 + offset, |buf|;
      while bytesRemain > 0
        invariant bytesRemain == |buf| || bytesRemain == 0
        invariant bytesRemain == |buf| ==> at == 1 + offset && flash == old(flash) && history == old(history)
        invariant bytesRemain == 0 ==>
          flash == old(flash)[p := Program(old(flash)[p], 1 + offset, buf)] && history == old(history) + [flash]
      {
        var bytesWrite := if PAGE_SIZE < bytesRemain then PAGE_SIZE else bytesRemain;
        assert buf[..bytesWrite] == buf;
        EepromWrite(p, at, buf[..bytesWrite]);
        at := at + bytesWrite;
        bytesRemain := bytesRemain - bytesWrite;
      }
      return 0;
    }

    method PageRead(p: nat, offset: nat, n: nat) returns (ret: int, buf: seq<Byte>)
      requires Sizes()
      ensures ret == if p < PAGES && offset + n + 1 < PAGE_SIZE then 0 else -1
      ensures ret == 0 ==> buf == flash[p][1 + offset..1 + offset + n]
    {
      if p >= PAGES {
        return -1, [];
      }
      if offset + n + 1 >= PAGE_SIZE {
        return -1, [];
      }
      return 0, flash[p][1 + offset..1 + offset + n];
    }

    function FreeSize(p: nat): int
      requires |pages| == PAGES
      reads this`pages
    {
      if p >= PAGES then -1
      else if pages[p].status == ACTIVE then CONTENT_MAX - pages[p].bytesUsed
      else 0
    }

    lemma FreeIs(p: nat)
      requires Valid()
      ensures |pages| == PAGES && Four(Abs()) && FreeSize(p) == Free(Abs(), p)
    {
      hide EncodeAll, CountLive;
      TableAt(if p < PAGES then p else 0);
    }

    method PageErase(p: nat) returns (ret: int)
      requires Sizes()
      modifies this`flash, this`history, this`pages, this`pageErased
      ensures p >= PAGES ==> ret == -1
      ensures p < PAGES ==> ret == 0
      ensures p >= PAGES || old(pages)[p].status == ERASED ==> Stored() == old(Stored())
      ensures p < PAGES && old(pages)[p].status != ERASED ==>
        && flash == old(flash)[p := Blank(PAGE_SIZE)] && history == old(history) + [flash]
        && pages == old(pages)[p := PageInfo(ERASED, 0, 0)] && pageErased == old(pageErased) + 1
    {
      if p >= PAGES {
        return -1;
      }
      if pages[p].status == ERASED {
        return 0;
      }
      EepromErase(p);
      pages := pages[p := pages[p].(bytesUsed := 0)];
      pages := pages[p := pages[p].(itemCnt := 0)];
      pages := pages[p := pages[p].(status := ERASED)];
      pageErased := pageErased + 1;
      return 0;
    }

    method StatusUpdate(p: nat, status: Byte) returns (ret: int)
      requires Sizes()
      modifies this`flash, this`history, this`pages, this`pageErased, this`pageActive
      ensures ret == if p < PAGES then 0 else -1
      ensures p >= PAGES || old(pages)[p].status == status ==> Stored() == old(Stored())
      ensures p < PAGES && old(pages)[p].status != status ==>
        && flash == old(flash)[p := Program(old(flash)[p], 0, [status])] && history == old(history) + [flash]
        && pages == old(pages)[p := old(pages)[p].(status := status)]
        && pageErased == (if old(pages)[p].status == ERASED && old(pageErased) > 0 then old(pageErased) - 1
                          else old(pageErased))
        && pageActive == (if status == ACTIVE then p
                          else if old(pages)[p].status == ACTIVE then NO_PAGE
                          else old(pageActive))
      ensures old(Valid()) && p < PAGES && MayMove(old(pages)[p].status, status, old(pageActive), p) ==>
        Valid() && Abs() == WithStatus(old(Abs()), p, status) && Since(old(history), {logs})
    {
      hide Program, PageHolds, Faithful, InfosOk, CountsOk, And, HoldsSome;
      if p >= PAGES {
        return -1;
      }
      if status == pages[p].status {
        if Valid() {
          TableAt(p);
          assert Statuses(pages)[p := status] == Statuses(pages);
        }
        return 0;
      }
      EepromWrite(p, 0, [status]);
      if pages[p].status == ERASED {
        if pageErased > 0 {
          pageErased := pageErased - 1;
        }
      }
      if pages[p].status == ACTIVE {
        pageActive := NO_PAGE;
      }
      if status == ACTIVE {
        pageActive := p;
      }
      pages := pages[p := pages[p].(status := status)];
      StatusKeepsValid(old(flash), old(pages), logs, old(pageErased), old(pageActive), p, status, flash, pages);
      assert Statuses(pages) == Statuses(old(pages))[p := status];
      if Valid() {
        OneMore(old(history), logs);
      }
      return 0;
    }

    /** The first page with the given status, in cyclic order from `from`. */
    method FirstPage(from: nat, status: Byte) returns (page: int)
      requires |pages| == PAGES
      ensures page == if from < PAGES then FirstFrom(Statuses(pages), from, status, 0) else -1
      ensures from < PAGES ==> page >= 0 && Nearest(Statuses(pages), from, status, page)
    {
      hide Cyclic, Nearest;
      FirstIsNearest(Statuses(pages), from, status);
      if from >= PAGES {
        return -1;
      }
      var i := from;
      ghost var d: nat := 0;
      Around(from, 0);
      while true
        invariant d < PAGES && i == Cyclic(from, d)
        invariant FirstFrom(Statuses(pages), from, status, 0) == FirstFrom(Statuses(pages), from, status, d)
        decreases PAGES - d
      {
        if pages[i].status == status {
          return i;
        }
        Around(from, d);
        i := if i + 1 < PAGES then i + 1 else 0;
        d := d + 1;
        if i == from {
          break;
        }
      }
      return NO_PAGE;
    }

    // -------------------------------------------------------------------------------------
    // What one EEPROM operation does to one page

    lemma PageStatus(bytes: seq<Byte>, log: seq<Rec>, next: Byte)
      requires PageHolds(bytes, log)
      ensures var b := Program(bytes, 0, [next]); PageHolds(b, log) && b[0] == And(bytes[0], next)
    {
      hide EncodeAll, Program, LogOk, And;
      ProgramStatus(bytes[0], log, next);
    }

    /** Moving the status of one page on keeps the table in step with the flash. */
    lemma StatusKeepsValid(f: Flash, t: seq<PageInfo>, logs: Logs, erased: nat, active: nat, p: nat, status: Byte,
                           nextF: Flash, nextT: seq<PageInfo>)
      requires p < PAGES && |f| == PAGES && |t| == PAGES && |f[p]| == PAGE_SIZE
      requires nextF == f[p := Program(f[p], 0, [status])] && nextT == t[p := t[p].(status := status)]
      ensures (&& Faithful(f, logs) && CountsOk(t, erased, active) && InfosOk(f, t, logs)
               && MayMove(t[p].status, status, active, p)) ==>
        && Faithful(nextF, logs) && InfosOk(nextF, nextT, logs)
        && CountsOk(nextT,
             (if t[p].status == ERASED && erased > 0 then erased - 1 else erased),
             (if status == ACTIVE then p else if t[p].status == ACTIVE then NO_PAGE else active))
    {
      hide Program, PageHolds, And, EncodeAll, CountLive, CountsOk;
      if && Faithful(f, logs) && CountsOk(t, erased, active) && InfosOk(f, t, logs)
         && MayMove(t[p].status, status, active, p)
      {
        assert PageHolds(f[p], logs[p]) && InfoOk(f[p], t[p], logs[p]);
        MoveBits(t[p].status, status);
        PageStatus(f[p], logs[p], status);
        FaithfulUpdate(f, logs, p, nextF, logs);
        InfosUpdate(f, t, logs, p, nextF, nextT, logs);
        CountsUpdate(t, erased, active, p, nextT);
      }
    }

    lemma PageAppend(bytes: seq<Byte>, log: seq<Rec>, r: Rec)
      requires PageHolds(bytes, log) && Sized(r) && r.crc == checksum(r.content)
      requires |EncodeAll(log)| + |Encode(r)| < CONTENT_MAX
      ensures var b := Program(bytes, 1 + |EncodeAll(log)|, Encode(r));
        PageHolds(b, log + [r]) && b[0] == bytes[0] && |EncodeAll(log + [r])| == |EncodeAll(log)| + |Encode(r)|
    {
      hide EncodeAll, Program, Encode;
      ProgramAppend(bytes[0], log, r);
    }

    lemma PageTombstone(bytes: seq<Byte>, log: seq<Rec>, i: nat)
      requires PageHolds(bytes, log) && i < |log|
      ensures 1 + Offset(log, i) + HEADER_SIZE <= PAGE_SIZE
      ensures var b := Program(bytes, 1 + Offset(log, i), Header(Dead(log[i])));
        PageHolds(b, log[i := Dead(log[i])]) && b[0] == bytes[0]
      ensures |EncodeAll(log[i := Dead(log[i])])| == |EncodeAll(log)|
    {
      hide EncodeAll, Program, Header, Offset;
      ProgramTombstone(bytes[0], log, i);
    }

    lemma PageErased()
      ensures PageHolds(Blank(PAGE_SIZE), []) && Blank(PAGE_SIZE)[0] == ERASED
    {
      assert Blank(PAGE_SIZE) == Image(ERASED, []);
    }

    /** A faithful image stays faithful when one page changes faithfully. */
    lemma FaithfulUpdate(image: Flash, logs: Logs, p: nat, next: Flash, nextLogs: Logs)
      requires Faithful(image, logs) && p < PAGES && OnlyPage(image, next, p) && OnlyPage(logs, nextLogs, p)
      requires PageHolds(next[p], nextLogs[p])
      ensures Faithful(next, nextLogs)
    {
      hide PageHolds;
    }

    // -------------------------------------------------------------------------------------
    // Flash images

    ghost predicate HoldsSome(image: Flash, some: set<Logs>) {
      exists l :: l in some && Faithful(image, l)
    }

    /** The images after the first |h| of them, which are `h`, each hold one of the logs. */
    ghost predicate Hold(h: seq<Flash>, images: seq<Flash>, some: set<Logs>) {
      h <= images && forall j :: |h| <= j < |images| ==> HoldsSome(images[j], some)
    }

    /** Every flash image recorded since `h` holds one of the logs. */
    ghost predicate Since(h: seq<Flash>, some: set<Logs>)
      reads this`history
    {
      Hold(h, history, some)
    }

    lemma OneMore(h: seq<Flash>, l: Logs)
      requires history == h + [flash] && Faithful(flash, l)
      ensures Since(h, {l})
    {
      hide Faithful;
    }

    lemma SinceWider(h: seq<Flash>, some: set<Logs>, more: set<Logs>)
      requires Since(h, some) && some <= more
      ensures Since(h, more)
    {
      hide Faithful;
      forall j | |h| <= j < |history| ensures HoldsSome(history[j], more) {
        assert HoldsSome(history[j], some);
      }
    }

    /** The images from `h` to `mid`, and then the images since `mid`. */
    lemma SinceThen(h: seq<Flash>, mid: seq<Flash>, first: set<Logs>, second: set<Logs>)
      requires Hold(h, mid, first) && Since(mid, second)
      ensures Since(h, first + second)
    {
      hide Faithful;
      forall j | |h| <= j < |history| ensures HoldsSome(history[j], first + second) {
        if j < |mid| {
          assert history[j] == mid[j];
          assert HoldsSome(mid[j], first);
        } else {
          assert HoldsSome(history[j], second);
        }
      }
    }

    /** A flash image that still has every content collecting page `p` keeps, or for key `k` the content `v`. */
    ghost predicate ImageKeeps(image: Flash, before: Logs, p: nat, k: int, v: seq<Byte>) {
      exists l :: Faithful(image, l) && Preserves(before, p, l, k, v)
    }

    /** The images from number `from` on each keep that; with NO_KEY no content is excepted. */
    ghost predicate ImagesKeep(images: seq<Flash>, from: nat, before: Logs, p: nat, k: int, v: seq<Byte>) {
      forall j :: from <= j < |images| ==> ImageKeeps(images[j], before, p, k, v)
    }

    lemma KeepMore(h: seq<Flash>, from: nat, before: Logs, p: nat, some: set<Logs>, k: int, v: seq<Byte>)
      requires ImagesKeep(h, from, before, p, k, v) && Since(h, some)
      requires forall l :: l in some ==> Preserves(before, p, l, k, v)
      ensures ImagesKeep(history, from, before, p, k, v)
    {
      hide Faithful, Preserves;
      forall j | from <= j < |history| ensures ImageKeeps(history[j], before, p, k, v) {
        if j < |h| {
          assert history[j] == h[j];
          assert ImageKeeps(h[j], before, p, k, v);
        } else {
          assert HoldsSome(history[j], some);
        }
      }
    }

    lemma AnyKey(images: seq<Flash>, from: nat, before: Logs, p: nat, k: int, v: seq<Byte>)
      requires ImagesKeep(images, from, before, p, NO_KEY, [])
      ensures ImagesKeep(images, from, before, p, k, v)
    {
      hide Faithful, Kept, Holds;
      forall j | from <= j < |images| ensures ImageKeeps(images[j], before, p, k, v) {
        assert ImageKeeps(images[j], before, p, NO_KEY, []);
      }
    }

    // -------------------------------------------------------------------------------------
    // Items

    lemma ErasedCounts(t: seq<PageInfo>, erased: nat, active: nat, p: nat)
      requires CountsOk(t, erased, active) && p < PAGES
      ensures t[p].status == ERASED ==> erased > 0
    {
    }

    /** A record appended and the status moved on keep the table in step with the flash. */
    lemma AppendKeepsValid(f: Flash, t: seq<PageInfo>, l: Logs, erased: nat, active: nat, p: nat, item: Rec,
                           status: Byte, written: Flash, nextF: Flash, nextT: seq<PageInfo>)
      requires p < PAGES && |f| == PAGES && |t| == PAGES && |l| == PAGES && |f[p]| == PAGE_SIZE
      requires Faithful(f, l) && CountsOk(t, erased, active) && InfosOk(f, t, l)
      requires (t[p].status == ERASED ==> erased > 0) && (t[p].status == ACTIVE ==> p == active)
      requires Sized(item) && item.crc == checksum(item.content) && KeyValid(item.idx)
      requires t[p].status != FULL && t[p].bytesUsed + |Encode(item)| < CONTENT_MAX
      requires status == StatusAfter(t[p].bytesUsed + |Encode(item)|) && (t[p].status == ERASED ==> active == NO_PAGE)
      requires written == f[p := Program(f[p], 1 + t[p].bytesUsed, Encode(item))]
      requires nextF == if status == t[p].status then written else written[p := Program(written[p], 0, [status])]
      requires nextT == t[p := PageInfo(status, t[p].itemCnt + 1, t[p].bytesUsed + |Encode(item)|)]
      ensures Faithful(written, Appended(l, p, item)) && Faithful(nextF, Appended(l, p, item))
      ensures InfosOk(nextF, nextT, Appended(l, p, item)) && Statuses(nextT) == Statuses(t)[p := status]
      ensures CountsOk(nextT, (if t[p].status == ERASED then erased - 1 else erased),
                       (if status == ACTIVE then p else if t[p].status == ACTIVE then NO_PAGE else active))
    {
      hide EncodeAll, Program, Encode, Image, PageHolds, And, CountLive, CountsOk;
      var next := Appended(l, p, item);
      assert PageHolds(f[p], l[p]) && InfoOk(f[p], t[p], l[p]);
      PageAppend(f[p], l[p], item);
      CountAppend(l[p], item);
      FaithfulUpdate(f, l, p, written, next);
      if status != t[p].status {
        MoveBits(t[p].status, status);
        PageStatus(written[p], l[p] + [item], status);
        FaithfulUpdate(written, next, p, nextF, next);
      }
      InfosUpdate(f, t, l, p, nextF, nextT, next);
      CountsUpdate(t, erased, active, p, nextT);
    }

    /** Appends a record to a page that is not full; the page becomes ACTIVE, or FULL when no further header fits. */
    method PageWriteItem(p: nat, item: Rec) returns (ret: int)
      requires Valid() && Sized(item) && item.crc == checksum(item.content)
      requires p < PAGES && pages[p].status == ERASED ==> pageActive == NO_PAGE
      modifies this`flash, this`history, this`pages, this`pageErased, this`pageActive, this`logs
      ensures Valid() && |old(pages)| == PAGES && Four(old(Abs()))
      ensures ret == if Fits(old(Abs()), p, item) then 0 else -1
      ensures ret == 0 <==>
        && p < 4 && 0 < item.idx < 0xFFFF && old(pages)[p].status != FULL
        && |EncodeAll(old(logs)[p])| + 4 + |item.content| < 255
      ensures ret == 0 ==>
        pages[p].status == if |EncodeAll(old(logs)[p])| + 4 + |item.content| > 251 then FULL else ACTIVE
      ensures ret != 0 ==> Stored() == old(Stored())
      ensures ret == 0 ==> Abs() == Grown(old(Abs()), p, item) && Since(old(history), {logs})
    {
      hide EncodeAll, Program, Encode, Image, PageHolds, And, CountLive, Faithful, InfosOk, CountsOk, Hold, BitOf,
        LogOk, Bytes;
      if p >= PAGES {
        TableAt(0);
        return -1;
      }
      TableAt(p);
      if !KeyValid(item.idx) {
        return -1;
      }
      if pages[p].status == FULL {
        return -1;
      }
      var used, bytesWrite := pages[p].bytesUsed, |Encode(item)|;
      ret := PageWrite(p, used, Encode(item));
      if ret < 0 {
        return -1;
      }
      ghost var written, h := flash, history;
      pages := pages[p := pages[p].(bytesUsed := used + bytesWrite)];
      var pageStatus := pages[p].status;
      if pageStatus == ERASED {
        pageStatus := ACTIVE;
      }
      if CONTENT_MAX - pages[p].bytesUsed < HEADER_SIZE {
        pageStatus := FULL;
      }
      if pageStatus != pages[p].status {
        ret := StatusUpdate(p, pageStatus);
      }
      pages := pages[p := pages[p].(itemCnt := pages[p].itemCnt + 1)];
      logs := Appended(logs, p, item);
      ErasedCounts(old(pages), old(pageErased), old(pageActive), p);
      AppendKeepsValid(old(flash), old(pages), old(logs), old(pageErased), old(pageActive), p, item, pageStatus,
                       written, flash, pages);
      ImagesOfAppend(old(history), written, logs);
      return 0;
    }

    /** The record was written, and then perhaps the status. */
    lemma ImagesOfAppend(h: seq<Flash>, written: Flash, l: Logs)
      requires Faithful(written, l) && Faithful(flash, l)
      requires history == h + [written] || history == h + [written] + [flash]
      ensures Since(h, {l})
    {
      hide Faithful;
    }

    // -------------------------------------------------------------------------------------
    // Deleting

    /** Reading the header of record `i` stays within the page and gives its fields. */
    lemma HeaderAt(bytes: seq<Byte>, log: seq<Rec>, i: nat)
      requires PageHolds(bytes, log) && i < |log|
      ensures var o := Offset(log, i);
        && o + HEADER_SIZE + |log[i].content| + 1 < PAGE_SIZE
        && bytes[1 + o..1 + o + HEADER_SIZE] == Header(log[i])
        && bytes[1 + (o + HEADER_SIZE)..1 + (o + HEADER_SIZE) + |log[i].content|] == log[i].content
        && HeaderIdx(Header(log[i])) == log[i].idx
    {
      hide EncodeAll, Header, Offset, Image, HeaderIdx;
      ReadRecord(bytes[0], log, i);
      HeaderReads(log[i]);
    }

    lemma HeaderOfDead(r: Rec)
      ensures var h := Header(r); Header(Dead(r)) == [h[0], h[1], 0, 0]
    {
    }

    /** Erasing a FULL page, whatever its bytes have become on the way. */
    lemma WipeKeepsValid(f: Flash, t: seq<PageInfo>, l: Logs, erased: nat, active: nat, p: nat,
                         nextF: Flash, nextT: seq<PageInfo>)
      requires p < PAGES && |f| == PAGES && |t| == PAGES && |l| == PAGES
      requires Faithful(f, l) && CountsOk(t, erased, active) && InfosOk(f, t, l)
      requires t[p].status == FULL
      requires nextF == f[p := Blank(PAGE_SIZE)] && nextT == t[p := PageInfo(ERASED, 0, 0)]
      ensures var next := ErasedAt(l, p);
        Faithful(nextF, next) && InfosOk(nextF, nextT, next) && CountsOk(nextT, erased + 1, active)
      ensures Statuses(nextT) == Statuses(t)[p := ERASED]
    {
      hide PageHolds, CountsOk;
      var next := ErasedAt(l, p);
      PageErased();
      FaithfulUpdate(f, l, p, nextF, next);
      InfosUpdate(f, t, l, p, nextF, nextT, next);
      CountsUpdate(t, erased, active, p, nextT);
    }

    /** A record killed, and then the page erased if it was FULL and this was its last live record. */
    lemma KillKeepsValid(f: Flash, t: seq<PageInfo>, l: Logs, erased: nat, active: nat, p: nat, i: nat,
                         killed: Flash, nextT: seq<PageInfo>)
      requires p < PAGES && |f| == PAGES && |t| == PAGES && |l| == PAGES && |f[p]| == PAGE_SIZE
      requires Faithful(f, l) && CountsOk(t, erased, active) && InfosOk(f, t, l)
      requires i < |l[p]| && l[p][i].idx != 0 && 1 + Offset(l[p], i) + HEADER_SIZE <= PAGE_SIZE && t[p].itemCnt > 0
      requires killed == f[p := Program(f[p], 1 + Offset(l[p], i), Header(Dead(l[p][i])))]
      requires nextT == t[p := t[p].(itemCnt := t[p].itemCnt - 1)]
      ensures var next := Killed(l, p, i);
        && Faithful(killed, next) && InfosOk(killed, nextT, next) && CountsOk(nextT, erased, active)
        && nextT[p].itemCnt == CountLive(next[p]) && Statuses(nextT) == Statuses(t)
    {
      hide EncodeAll, Program, Header, Image, PageHolds, CountLive, CountsOk, Offset;
      var next := Killed(l, p, i);
      assert PageHolds(f[p], l[p]) && InfoOk(f[p], t[p], l[p]);
      PageTombstone(f[p], l[p], i);
      CountKill(l[p], i);
      FaithfulUpdate(f, l, p, killed, next);
      InfosUpdate(f, t, l, p, killed, nextT, next);
      KeepsCounts(t, erased, active, p, nextT);
    }

    lemma KeepsCounts(t: seq<PageInfo>, erased: nat, active: nat, p: nat, next: seq<PageInfo>)
      requires CountsOk(t, erased, active) && p < PAGES && OnlyPage(t, next, p) && next[p].status == t[p].status
      ensures CountsOk(next, erased, active) && Statuses(next) == Statuses(t)
    {
      assert Statuses(next) == Statuses(t);
    }

    /** The bytes at a location, told from the record that starts there. */
    lemma LocatedHeader(p: nat, offset: nat)
      requires Valid() && p < PAGES
      ensures |logs| == PAGES && Sizes() && Four(Abs())
      ensures RecordAt(logs[p], offset) < |logs[p]| ==>
        var r := logs[p][RecordAt(logs[p], offset)];
        && offset == Offset(logs[p], RecordAt(logs[p], offset))
        && offset + HEADER_SIZE + 1 < PAGE_SIZE
        && flash[p][1 + offset..1 + offset + HEADER_SIZE] == Header(r) && HeaderIdx(Header(r)) == r.idx
        && Header(Dead(r)) == [Header(r)[0], Header(r)[1], 0, 0]
    {
      hide EncodeAll, Header, Offset, Image, HeaderIdx, RecordAt;
      TableAt(p);
      if RecordAt(logs[p], offset) < |logs[p]| {
        RecordAtFound(logs[p], offset);
        HeaderAt(flash[p], logs[p], RecordAt(logs[p], offset));
        HeaderOfDead(logs[p][RecordAt(logs[p], offset)]);
      }
    }

    /** Clears the index of the header at a location, and counts one live record less. */
    method ClearHeader(page: nat, offset: nat, header: seq<Byte>) returns (ret: int)
      requires Valid() && page < PAGES && |flash[page]| == PAGE_SIZE && offset + HEADER_SIZE + 1 < PAGE_SIZE
      requires header == flash[page][1 + offset..1 + offset + HEADER_SIZE] && HeaderIdx(header) != 0
      requires |pages| == PAGES && pages[page].itemCnt > 0 && |logs| == PAGES
      modifies this`flash, this`history, this`pages, this`logs
      ensures ret == 0 && |flash| == PAGES && |pages| == PAGES && |logs| == PAGES
      ensures history == old(history) + [flash] && flash == old(flash)[page := TornBytes(old(flash)[page], offset)]
      ensures pages == old(pages)[page := old(pages)[page].(itemCnt := old(pages)[page].itemCnt - 1)]
      ensures var i := RecordAt(old(logs)[page], offset);
        if i < |old(logs)[page]| then
          && old(logs)[page][i].idx == HeaderIdx(header) && logs == Killed(old(logs), page, i)
          && Valid() && Abs() == old(Abs()).(logs := logs) && Since(old(history), {logs})
        else logs == old(logs)
    {
      hide EncodeAll, Program, Image, PageHolds, CountLive, Faithful, InfosOk, CountsOk, Header, Offset, HeaderIdx,
        Encode, RecordAt, Hold, BitOf, LogOk, Bytes;
      LocatedHeader(page, offset);
      ret := PageWrite(page, offset, [header[0], header[1], 0, 0]);
      if ret < 0 {
        return -1;
      }
      if pages[page].itemCnt > 0 {
        pages := pages[page := pages[page].(itemCnt := pages[page].itemCnt - 1)];
      }
      ghost var i := RecordAt(logs[page], offset);
      if i < |logs[page]| {
        KillKeepsValid(old(flash), old(pages), old(logs), pageErased, pageActive, page, i, flash, pages);
        logs := Killed(logs, page, i);
        OneMore(old(history), logs);
      }
    }

    /**
      Deletes the record of `key` at a location. Through a location at which no record starts it
      clears whatever bytes read as the key.
     */
    method DeleteWithLoc(key: int, page: nat, offset: nat) returns (ret: int)
      requires Valid() && KeyValid(key)
      modifies this`flash, this`history, this`pages, this`pageErased, this`logs
      ensures |old(flash)| == PAGES && |old(pages)| == PAGES && Four(old(Abs()))
      ensures page >= PAGES ==> ret == -1 && Valid()
      ensures ret == 0 || ret == -1
      ensures ret == -1 ==> Stored() == old(Stored())
      ensures page < PAGES ==>
        var v, m := old(Abs()), Mark(page, offset);
        var s := Strike(v, key, m);
        && ret == (if s.ok then 0 else -1)
        && (!s.torn ==> Valid() && Abs() == s.view)
        && (s.torn ==>
              && logs == old(logs) && pageErased == old(pageErased) && history == old(history) + [flash]
              && |old(flash)[page]| == PAGE_SIZE && offset + HEADER_SIZE + 1 < PAGE_SIZE && old(pages)[page].itemCnt > 0
              && flash == old(flash)[page := TornBytes(old(flash)[page], offset)]
              && pages == old(pages)[page := old(pages)[page].(itemCnt := old(pages)[page].itemCnt - 1)])
        && (!Astray(v, m) && !Alive(v, key, m) ==> Stored() == old(Stored()))
        && (Alive(v, key, m) ==>
              Since(old(history), {Killed(v.logs, page, RecordAt(v.logs[page], offset)), logs}))
    {
      hide EncodeAll, Image, PageHolds, CountLive, Faithful, InfosOk, CountsOk, Header, Offset, HeaderIdx, Encode,
        RecordAt, Hold, BitOf, LogOk, Strike, Astray, Alive, DeleteAt, Deleted, Bytes, TornBytes;
      if page >= PAGES {
        TableAt(0);
        return -1;
      }
      TableAt(page);
      LocatedHeader(page, offset);
      StrikeCases(Abs(), key, Mark(page, offset));
      if pages[page].itemCnt == 0 {
        return 0;
      }
      ghost var i := RecordAt(logs[page], offset);
      ghost var found := i < |logs[page]|;
      var header;
      ret, header := PageRead(page, offset, HEADER_SIZE);
      if ret < 0 {
        return -1;
      }
      if HeaderIdx(header) != key {
        return -1;
      }
      ghost var v := Abs();
      ret := ClearHeader(page, offset, header);
      if ret < 0 {
        return -1;
      }
      if found {
        DeletedIs(v, page, i);
      }
      ghost var h, killed := history, logs;
      if pages[page].itemCnt == 0 && pages[page].status == FULL {
        ret := PageErase(page);
        if ret < 0 {
          return -1;
        }
        WipeKeepsValid(old(flash), old(pages), old(logs), old(pageErased), pageActive, page, flash, pages);
        logs := ErasedAt(old(logs), page);
        assert Abs() == Wiped(v, page);
        OneMore(h, logs);
        if found {
          SinceThen(old(history), h, {killed}, {logs});
          assert {killed} + {logs} == {killed, logs};
        }
      } else if found {
        assert {killed, logs} == {killed};
      }
      return 0;
    }

    // -------------------------------------------------------------------------------------
    // Finding

    /** The search context: the place of the match seen last. */
    function LastMark(): Mark
      reads this`lastPage, this`lastOffset
    {
      if lastPage < PAGES then Mark(lastPage, lastOffset) else NOWHERE
    }

    /** Accepts a match: the match seen last, if any, is deleted and this one takes its place. */
    method TakeMatch(p: nat, offset: nat, ghost s: Scan, ghost i: nat, ghost wanted: bool) returns (ret: int)
      requires Valid() && KeyValid(searchIdx) && p < PAGES && At(logs, p, i, searchIdx) && offset == Offset(logs[p], i)
      requires s.view == Abs() && s.last == LastMark() && Four(s.view) && Good(s.view, s.last)
      modifies this`flash, this`history, this`pages, this`pageErased, this`logs, this`lastPage, this`lastOffset
      ensures var t := Meet(s, searchIdx, p, i, wanted);
        && Valid() && Abs() == t.view && LastMark() == t.last
        && ret == (if t.failed then -1 else 0)
      ensures ret == 0 ==> lastPage == p
      ensures old(lastPage) >= PAGES ==> Stored() == old(Stored())
    {
      hide EncodeAll, Program, Image, PageHolds, CountLive, Faithful, InfosOk, CountsOk, Offset, Deleted, RecordAt,
        Valid, Encode, Alive, BitOf, HoldsSome, Spells;
      ret := 0;
      if lastPage < PAGES {
        AnchoredIsNotAstray(s.view, s.last);
        ret := DeleteWithLoc(searchIdx, lastPage, lastOffset);
        if ret < 0 {
          return;
        }
      }
      lastPage, lastOffset := p, offset;
    }

    /** Record `i` of page `p` read back through its header is the record itself. */
    lemma ReadBack(p: nat, i: nat)
      requires Valid() && p < PAGES && i < |logs[p]|
      ensures Sizes() && var o, r := Offset(logs[p], i), logs[p][i];
        && o + HEADER_SIZE + |r.content| + 1 < PAGE_SIZE
        && flash[p][1 + o..1 + o + HEADER_SIZE] == Header(r)
        && flash[p][1 + (o + HEADER_SIZE)..1 + (o + HEADER_SIZE) + |r.content|] == r.content
        && HeaderIdx(Header(r)) == r.idx && Header(r)[0] == |r.content|
        && Rec(Header(r)[0], Header(r)[1], r.idx, r.content) == r
        && r.crc == checksum(r.content)
        && Offset(logs[p], i + 1) == o + HEADER_SIZE + |r.content|
    {
      hide EncodeAll, Image;
      TableAt(p);
      HeaderAt(flash[p], logs[p], i);
      EncodeSplit(logs[p], i);
    }

    /** The scan in progress: the state after the first `i` records of page `p`. */
    ghost predicate Scanning(s: Scan, p: nat, i: nat, wanted: bool, cnt: int, result: Rec)
      requires Four(s.view) && p < PAGES
      reads this`pages, this`logs, this`pageActive, this`lastPage, this`lastOffset, this`searchIdx
    {
      var t := ScanTo(s, searchIdx, p, i, wanted);
      !t.failed && Abs() == t.view && LastMark() == t.last && cnt == t.cnt && result == t.result
    }

    /** One record of a scan: its size, and whether the scan may go on. */
    method ScanRecord(p: nat, offset: nat, wanted: bool, cnt: nat, result: Rec, ghost s: Scan, ghost i: nat)
      returns (ret: int, size: nat, newCnt: nat, newResult: Rec)
      requires Valid() && p < PAGES && KeyValid(searchIdx) && |logs| == PAGES && Four(s.view) && Four(Abs())
      requires !s.failed && Good(s.view, s.last) && s.last.page != p && |s.view.logs[p]| == |logs[p]|
      requires i < |logs[p]| && offset == Offset(logs[p], i) && Scanning(s, p, i, wanted, cnt, result)
      modifies this`flash, this`history, this`pages, this`pageErased, this`logs, this`lastPage, this`lastOffset
      ensures Valid() && |logs| == PAGES && |logs[p]| == |s.view.logs[p]| && |pages| == PAGES
      ensures pages[p].bytesUsed == |EncodeAll(logs[p])| == |EncodeAll(old(logs)[p])|
      ensures if ret < 0
              then var t := ScanTo(s, searchIdx, p, |logs[p]|, wanted);
                t.failed && Abs() == t.view && LastMark() == t.last && newResult == t.result
              else Scanning(s, p, i + 1, wanted, newCnt, newResult) && offset + size == Offset(logs[p], i + 1)
      ensures Sized(result) ==> Sized(newResult)
      ensures newCnt == cnt || (newCnt == cnt + 1 && lastPage == p)
      ensures newCnt == cnt && ret >= 0 ==> Stored() == old(Stored()) && lastPage == old(lastPage)
      ensures newCnt == cnt + 1 && old(lastPage) >= PAGES ==> Stored() == old(Stored())
    {
      hide EncodeAll, Program, Image, PageHolds, CountLive, Faithful, InfosOk, CountsOk, Header, Offset, ScanTo, Meet,
        Encode, Good, BitOf, HoldsSome, RecordAt, Valid, AtMostOne, Bytes, LogOk;
      TableAt(p);
      ReadBack(p, i);
      ScanStep(s, searchIdx, p, i, wanted);
      newCnt, newResult, size := cnt, result, 0;
      var header;
      ret, header := PageRead(p, offset, HEADER_SIZE);
      if ret < 0 {
        assert false;
      }
      var idx := HeaderIdx(header);
      size := header[0] + HEADER_SIZE;
      if idx != 0 && idx == searchIdx {
        var content;
        ret, content := PageRead(p, offset + HEADER_SIZE, header[0]);
        if ret < 0 {
          assert false;
        }
        var found := Rec(header[0], header[1], idx, content);
        if found.crc != checksum(content) {
          assert false;
        }
        if wanted {
          newResult := found;
        }
        ret := TakeMatch(p, offset, ScanTo(s, searchIdx, p, i, wanted), i, wanted);
        TableAt(p);
        if ret < 0 {
          return;
        }
        newCnt := cnt + 1;
      }
    }

    /** Scans one page for the searched key, deleting every match but the last one seen. */
    method PageFindItem(p: nat, wanted: bool, item: Rec) returns (cnt: int, result: Rec)
      requires Valid() && p < PAGES && KeyValid(searchIdx) && Four(Abs()) && |logs| == PAGES
      requires Good(Abs(), LastMark()) && LastMark().page != p
      modifies this`flash, this`history, this`pages, this`pageErased, this`logs, this`lastPage, this`lastOffset
      ensures Valid()
      ensures var t := ScanTo(Scan(old(Abs()), 0, false, item, old(LastMark())), searchIdx, p, |old(logs)[p]|, wanted);
        && Abs() == t.view && LastMark() == t.last && result == t.result
        && cnt == (if t.failed then -1 else t.cnt)
      ensures Sized(item) ==> Sized(result)
      ensures cnt > 0 ==> lastPage == p
      ensures cnt == 0 ==> lastPage == old(lastPage)
      ensures cnt == 0 || (cnt == 1 && old(lastPage) >= PAGES) ==> Stored() == old(Stored())
    {
      hide EncodeAll, Program, Image, PageHolds, CountLive, Faithful, InfosOk, CountsOk, Header, Offset, ScanTo, Meet,
        Encode, Good, BitOf, HoldsSome, RecordAt, Valid, AtMostOne, Bytes, LogOk;
      TableAt(p);
      cnt, result := 0, item;
      ghost var s := Scan(Abs(), 0, false, item, LastMark());
      ScanStarts(s, searchIdx, p, wanted);
      if pages[p].status == ERASED {
        return;
      }
      var offset := 0;
      ghost var i: nat, n := 0, |logs[p]|;
      OffsetEnd(logs[p]);
      while offset < pages[p].bytesUsed
        invariant |pages| == PAGES && |logs| == PAGES && Valid() && cnt >= 0
        invariant i <= n == |logs[p]| && offset == Offset(logs[p], i)
        invariant pages[p].bytesUsed == |EncodeAll(logs[p])|
        invariant Scanning(s, p, i, wanted, cnt, result)
        invariant Sized(item) ==> Sized(result)
        invariant cnt > 0 ==> lastPage == p
        invariant cnt == 0 ==> lastPage == old(lastPage)
        invariant cnt == 0 || (cnt == 1 && old(lastPage) >= PAGES) ==> Stored() == old(Stored())
        decreases n - i
      {
        OffsetBelowEnd(logs[p], i);
        var ret, size;
        ret, size, cnt, result := ScanRecord(p, offset, wanted, cnt, result, s, i);
        if ret < 0 {
          return -1, result;
        }
        offset := offset + size;
        i := i + 1;
      }
      OffsetBelowEnd(logs[p], i);
    }

    /** The search in progress, over pages that `s` has visited. */
    ghost predicate Searching(s: Search, cnt: int, result: Rec, page: nat, offset: nat)
      reads this`pages, this`logs, this`pageActive, this`lastPage, this`lastOffset
    {
      && Abs() == s.view && LastMark() == s.last && s.place == Mark(page, offset)
      && cnt == s.cnt && result == s.result && (cnt > 0 && !s.failed ==> lastPage < PAGES)
    }

    /** One page of the search. A key met more than once loses the record seen last as well. */
    method VisitPage(p: nat, cnt: nat, result: Rec, page: nat, offset: nat, ghost s: Search)
      returns (ret: int, newCnt: nat, newResult: Rec, newPage: nat, newOffset: nat)
      requires Valid() && KeyValid(searchIdx) && p < PAGES && Four(s.view) && Four(Abs())
      requires Searching(s, cnt, result, page, offset) && !s.failed && Good(s.view, s.last) && s.last.page != p
      modifies this`flash, this`history, this`pages, this`pageErased, this`logs, this`lastPage, this`lastOffset
      ensures Valid()
      ensures var t := Visit(s, searchIdx, p);
        Searching(t, newCnt, newResult, newPage, newOffset) && (ret < 0 <==> t.failed)
      ensures Sized(result) ==> Sized(newResult)
      ensures newCnt >= cnt && (ret >= 0 && newCnt == 0 ==> lastPage == old(lastPage))
      ensures ret >= 0 && newCnt <= 1 && (cnt == 0 ==> old(lastPage) >= PAGES) ==> Stored() == old(Stored())
    {
      hide EncodeAll, Program, Image, PageHolds, CountLive, Faithful, InfosOk, CountsOk, Header, Offset, ScanTo,
        Encode, BitOf, HoldsSome, RecordAt, Valid, AtMostOne, Bytes, LogOk, Anchored, Astray, DeleteAt, Alive;
      TableAt(p);
      ret, newCnt, newResult, newPage, newOffset := 0, cnt, result, page, offset;
      if pages[p].status == FULL || pages[p].status == ACTIVE {
        ScanIsCalm(Scan(Abs(), 0, false, result, s.last), searchIdx, p, |logs[p]|, cnt == 0);
        ret, newResult := PageFindItem(p, cnt == 0, result);
        if ret < 0 {
          return;
        }
        newCnt := cnt + ret;
        if newCnt == 1 {
          newPage, newOffset := lastPage, lastOffset;
        }
        if newCnt > 1 {
          AnchoredIsNotAstray(Abs(), LastMark());
          ret := DeleteWithLoc(searchIdx, lastPage, lastOffset);
        }
      }
    }

    /**
      Looks the key up in all pages, backwards from the active one, as `FindKey` tells. A key
      with one record is found without any change.
     */
    method FindItem(key: int, item: Rec) returns (cnt: int, result: Rec, page: nat, offset: nat)
      requires Valid()
      modifies this`flash, this`history, this`pages, this`pageErased, this`logs,
        this`lastPage, this`lastOffset, this`searchIdx
      ensures Valid() && Four(old(Abs())) && Shaped(old(Abs())) && |old(logs)| == PAGES
      ensures !KeyValid(key) ==> cnt == -1 && Stored() == old(Stored())
      ensures KeyValid(key) ==>
        var f := FindKey(old(Abs()), key, item);
        && Abs() == f.view && result == f.result && f.place == Mark(page, offset)
        && cnt == (if f.failed then -1 else f.cnt)
      ensures 0 <= cnt <= 1 ==> Stored() == old(Stored())
      ensures Sized(item) ==> Sized(result)
      ensures KeyValid(key) ==> OnlyKey(old(logs), logs, key)
      ensures KeyValid(key) && AtMostOne(old(logs), key) ==> cnt == if Has(old(logs), key) then 1 else 0
      ensures KeyValid(key) ==> (cnt == -1 <==> Stuck(old(Abs()), key))
      ensures KeyValid(key) && LiveOf(old(logs), key) >= 2 ==> cnt == -1 || cnt >= 2
      ensures KeyValid(key) && LiveOf(old(logs), key) >= 2 && (cnt >= 0 || LiveOf(old(logs), key) == 2) ==>
        !Has(logs, key) && FirstSeen(old(Abs()), key, result)
    {
      hide EncodeAll, Program, Image, PageHolds, CountLive, Faithful, InfosOk, CountsOk, Header, Offset, ScanTo,
        Encode, BitOf, HoldsSome, RecordAt, Valid, AtMostOne, Bytes, LogOk, Anchored, Good, Visit, Back, Passed,
        SearchTo, OnlyKey, Has, LiveOf, FirstSeen, Shaped, Stuck;
      cnt, result, page, offset := 0, item, NO_PAGE, 0;
      ValidShaped();
      if !KeyValid(key) {
        return -1, item, NO_PAGE, 0;
      }
      FoundMeans(Abs(), key, item);
      FindFails(Abs(), key, item);
      var start := if pageActive < PAGES then pageActive else 0;
      searchIdx := key;
      lastPage := NO_PAGE;
      ghost var v := Abs();
      var p, more := start, true;
      ghost var d: nat := 0;
      BackAround(start, 0);
      while more
        invariant d <= PAGES && p == Back(start, d) && p < PAGES && (more <==> d < PAGES) && cnt >= 0
        invariant Valid() && searchIdx == key && Four(Abs()) && !SearchTo(v, key, item, d).failed
        invariant Searching(SearchTo(v, key, item, d), cnt, result, page, offset)
        invariant Sized(item) ==> Sized(result)
        invariant cnt == 0 ==> lastPage == NO_PAGE
        invariant cnt <= 1 ==> Stored() == old(Stored())
        decreases PAGES - d
      {
        BackAround(start, d);
        SearchIsCalm(v, key, item, d);
        SearchNext(v, key, item, d);
        NotPassedYet(start, d, LastMark());
        var ret;
        ret, cnt, result, page, offset := VisitPage(p, cnt, result, page, offset, SearchTo(v, key, item, d));
        if ret < 0 {
          cnt := -1;
          return;
        }
        p := if p > 0 then p - 1 else PAGES - 1;
        d := d + 1;
        more := p != start;
      }
    }

    // -------------------------------------------------------------------------------------
    // Garbage collection

    /** Makes room for an item on the active page, going on to an erased page if need be. */
    method MakeRoom(size: nat) returns (ret: int)
      requires Valid()
      modifies this`flash, this`history, this`pages, this`pageErased, this`pageActive
      ensures Valid() && Four(old(Abs()))
      ensures var v := old(Abs());
        if v.active < PAGES && Unsigned(Free(v, v.active)) < size then
          var next := FirstFrom(v.status, v.active, ERASED, 0);
          if next >= PAGES then ret == -1 && Abs() == v
          else ret == 0 && Abs() == WithStatus(WithStatus(v, v.active, FULL), next, ACTIVE)
        else ret == 0 && Abs() == v
      ensures Since(old(history), {logs})
    {
      hide EncodeAll, Program, Image, PageHolds, CountLive, Faithful, InfosOk, CountsOk, FirstFrom, HoldsSome, Valid,
        Encode, BitOf, Bytes, LogOk;
      ValidShaped();
      FreeIs(pageActive);
      if pageActive < PAGES && Unsigned(FreeSize(pageActive)) < size {
        TableAt(pageActive);
        var pageNew := FirstPage(pageActive, ERASED);
        if pageNew >= PAGES {
          return -1;
        }
        TableAt(pageNew);
        ghost var h := history;
        ret := StatusUpdate(pageActive, FULL);
        ghost var mid := history;
        TableAt(pageNew);
        ret := StatusUpdate(pageNew, ACTIVE);
        SinceThen(h, mid, {logs}, {logs});
        assert {logs} + {logs} == {logs};
      }
      return 0;
    }

    /** Copies a record behind the active page's log. */
    method MoveRecord(item: Rec) returns (ret: int)
      requires Valid() && Sized(item) && item.crc == checksum(item.content)
      modifies this`flash, this`history, this`pages, this`pageErased, this`pageActive, this`logs
      ensures Valid() && Four(old(Abs()))
      ensures var g := Relocate(old(Abs()), item); Abs() == g.view && ret == (if g.ok then 0 else -1)
      ensures Since(old(history), {old(logs), logs})
    {
      hide EncodeAll, Program, Image, PageHolds, CountLive, Faithful, InfosOk, CountsOk, Header, Offset, Encode,
        FirstFrom, HoldsSome, Valid, BitOf, Bytes, LogOk;
      ret := MakeRoom(|Encode(item)|);
      if ret < 0 {
        SinceWider(old(history), {logs}, {old(logs), logs});
        return -1;
      }
      ghost var h := history;
      ValidShaped();
      ret := PageWriteItem(pageActive, item);
      if ret < 0 {
        SinceWider(old(history), {logs}, {old(logs), logs});
        return -1;
      }
      SinceThen(old(history), h, {old(logs)}, {logs});
      assert {old(logs)} + {logs} == {old(logs), logs};
    }

    /** The collection of page `p` in progress: `i` of its records are done, and no image since `from` lost anything. */
    ghost predicate Realigning(v: View, p: nat, i: nat, from: nat)
      requires Four(v) && p < PAGES && i <= |v.logs[p]|
      reads this`pages, this`logs, this`pageActive, this`history
    {
      && Relocated(v, v.logs[p], i) == Course(Abs(), i)
      && ImagesKeep(history, from, v.logs, p, NO_KEY, [])
    }

    /** One record of a collection: its size, and whether it could be moved. */
    method RealignRecord(p: nat, offset: nat, ghost v: View, ghost i: nat, ghost from: nat)
      returns (ret: int, size: nat)
      requires Valid() && Four(v) && Aside(v, p) && p < PAGES && i < |v.logs[p]| && Realigning(v, p, i, from)
      requires |logs| == PAGES && logs[p] == v.logs[p] && offset == Offset(logs[p], i)
      modifies this`flash, this`history, this`pages, this`pageErased, this`pageActive, this`logs
      ensures Valid() && |logs| == PAGES && logs[p] == v.logs[p] && old(history) <= history
      ensures |pages| == PAGES && pages[p].status == FULL && pages[p].bytesUsed == |EncodeAll(logs[p])|
      ensures ImagesKeep(history, from, v.logs, p, NO_KEY, [])
      ensures if ret < 0 then ret == -1 && Abs() == Swept(v, p) && !Completes(v, p)
              else Realigning(v, p, i + 1, from) && offset + size == Offset(logs[p], i + 1)
    {
      hide EncodeAll, Program, Image, PageHolds, CountLive, Faithful, InfosOk, CountsOk, Header, Offset,
        KeepsAll, ImagesKeep, Encode, Relocate, Relocated, Preserves, HoldsSome, Valid, BitOf, Bytes, LogOk, Aside;
      TableAt(p);
      ReadBack(p, i);
      RelocatedNext(v, p, i);
      size := 0;
      var header;
      ret, header := PageRead(p, offset, HEADER_SIZE);
      if ret < 0 {
        assert false;
      }
      var idx := HeaderIdx(header);
      size := header[0] + HEADER_SIZE;
      if header[1] == 0 || idx == 0 {
        return;
      }
      var content;
      ret, content := PageRead(p, offset + HEADER_SIZE, header[0]);
      if ret < 0 {
        assert false;
      }
      var item := Rec(header[0], header[1], idx, content);
      if item.crc != checksum(content) {
        assert false;
      }
      ghost var before, h := logs, history;
      ret := MoveRecord(item);
      KeepMore(h, from, v.logs, p, {before, logs}, NO_KEY, []);
      TableAt(p);
    }

    /** Moves the live records of a FULL page behind the active page's log, then erases it. */
    method PageRealign(p: nat) returns (ret: int)
      requires Valid() && p < PAGES && pages[p].status == FULL
      modifies this`flash, this`history, this`pages, this`pageErased, this`pageActive, this`logs
      ensures Valid() && Four(old(Abs()))
      ensures Abs() == Swept(old(Abs()), p) && ret == (if Completes(old(Abs()), p) then 0 else -1)
      ensures old(history) <= history && ImagesKeep(history, |old(history)|, old(logs), p, NO_KEY, [])
      ensures |old(logs)| == PAGES && Collected(old(logs), p, logs)
      ensures forall q :: 0 <= q < PAGES && q != p ==> old(logs)[q] <= logs[q]
      ensures CopiesCounted(old(Abs()), p, logs, ret == 0)
      ensures ret == 0 ==>
        && logs[p] == [] && pages[p].status == ERASED && Emptied(old(logs), p, logs)
        && (forall k :: KeyValid(k) && AtMostOne(old(logs), k) ==> AtMostOne(logs, k))
      ensures ret == -1 ==> SameMap(old(logs), logs) && logs[p] == old(logs)[p]
    {
      hide EncodeAll, Program, Image, PageHolds, CountLive, Faithful, InfosOk, CountsOk, Header, Offset, Emptied,
        Moved, KeepsAll, ImagesKeep, Encode, Collected, Relocate, Relocated, Preserves, SameMap, AtMostOne, HoldsSome,
        BitOf, Bytes, LogOk, Aside, CopiesCounted;
      TableAt(p);
      ValidShaped();
      ghost var v, from := Abs(), |history|;
      ShapedAside(v, p);
      SweptIsCollected(v, p);
      SweptCounted(v, p);
      RelocatedStart(v, p);
      NoImageYet(v.logs, p);
      var offset := 0;
      ghost var i: nat := 0;
      OffsetEnd(logs[p]);
      while offset < pages[p].bytesUsed
        invariant |pages| == PAGES && |logs| == PAGES && Valid()
        invariant pages[p].status == FULL && pages[p].bytesUsed == |EncodeAll(logs[p])| && logs[p] == v.logs[p]
        invariant i <= |logs[p]| && offset == Offset(logs[p], i)
        invariant old(history) <= history && Realigning(v, p, i, from)
        decreases |v.logs[p]| - i
      {
        OffsetBelowEnd(logs[p], i);
        var size;
        ret, size := RealignRecord(p, offset, v, i, from);
        if ret < 0 {
          return -1;
        }
        offset := offset + size;
        i := i + 1;
      }
      OffsetBelowEnd(logs[p], i);
      RelocatedEnd(v, p, Abs());
      TableAt(p);
      ghost var h, f, t, l, erased := history, flash, pages, logs, pageErased;
      ret := PageErase(p);
      WipeKeepsValid(f, t, l, erased, pageActive, p, flash, pages);
      logs := ErasedAt(l, p);
      OneMore(h, logs);
      KeepMore(h, from, v.logs, p, {logs}, NO_KEY, []);
    }

    lemma NoImageYet(before: Logs, p: nat)
      ensures ImagesKeep(history, |history|, before, p, NO_KEY, [])
    {
      hide ImageKeeps;
    }

    /** The first FULL page with the fewest live records, in cyclic order from the active page. */
    method ChooseVictim() returns (pageIdx: nat)
      requires Valid()
      ensures Four(Abs()) && pageIdx == Victim(Abs())
      ensures pageIdx < PAGES ==> Fewest(Abs(), pageIdx)
      ensures pageIdx >= PAGES ==> forall q :: 0 <= q < PAGES ==> pages[q].status != FULL
    {
      hide Valid, Faithful, CountsOk, InfosOk, VictimAmong, Cyclic, CountLive, EncodeAll, Bytes, LogOk, Image;
      ValidShaped();
      VictimIsFewest(Abs());
      var start := if pageActive < PAGES then pageActive else 0;
      pageIdx := NO_PAGE;
      var i := start;
      ghost var d: nat := 0;
      var more := true;
      Around(start, 0);
      VictimNext(Abs(), 0);
      while more
        invariant d <= PAGES && i == Cyclic(start, d) && (more <==> d < PAGES)
        invariant pageIdx == VictimAmong(Abs(), d)
        decreases PAGES - d
      {
        Around(start, d);
        VictimNext(Abs(), d);
        TableAt(i);
        if pages[i].status == FULL {
          if pageIdx >= PAGES {
            pageIdx := i;
          } else {
            TableAt(pageIdx);
            if pages[i].itemCnt < pages[pageIdx].itemCnt {
              pageIdx := i;
            }
          }
        }
        i := if i + 1 < PAGES then i + 1 else 0;
        d := d + 1;
        more := i != start;
      }
    }

    lemma VictimNext(v: View, d: nat)
      requires Four(v)
      ensures VictimAmong(v, 0) == NO_PAGE
      ensures var best, p := VictimAmong(v, d), Cyclic(StartOf(v), d);
        VictimAmong(v, d + 1) ==
          if v.status[p] == FULL && (best >= PAGES || CountLive(v.logs[p]) < CountLive(v.logs[best])) then p else best
    {
      hide Cyclic, CountLive;
    }

    /** Collects the victim; a collection that fails midway is only logged. */
    method Realign() returns (ret: int)
      requires Valid()
      modifies this`flash, this`history, this`pages, this`pageErased, this`pageActive, this`logs
      ensures Valid() && ret == 0 && Four(old(Abs())) && Abs() == Collect(old(Abs()))
      ensures old(history) <= history
      ensures Victim(old(Abs())) == NO_PAGE ==>
        Stored() == old(Stored()) && forall q :: 0 <= q < PAGES ==> old(Abs()).status[q] != FULL
      ensures Victim(old(Abs())) < PAGES ==>
        && Fewest(old(Abs()), Victim(old(Abs())))
        && ImagesKeep(history, |old(history)|, old(logs), Victim(old(Abs())), NO_KEY, [])
        && Collected(old(logs), Victim(old(Abs())), logs)
    {
      hide Valid, Faithful, CountsOk, InfosOk, Victim, CountLive, EncodeAll, Bytes, LogOk, Image, Swept, Collected,
        ImageKeeps, Fewest, Emptied, Completes, SameMap, AtMostOne;
      var pageIdx := ChooseVictim();
      if pageIdx >= PAGES {
        return 0;
      }
      VictimFull(Abs());
      TableAt(pageIdx);
      ret := PageRealign(pageIdx);
      return 0;
    }

    // -------------------------------------------------------------------------------------
    // Writing and reading

    /** Takes the first erased page from `from` on into use. */
    method OpenErased(from: nat) returns (page: int)
      requires Valid() && from < PAGES && pageActive == NO_PAGE
      modifies this`flash, this`history, this`pages, this`pageErased, this`pageActive
      ensures Valid() && Four(old(Abs())) && Since(old(history), {logs})
      ensures var s := OpenNext(old(Abs()), from); Abs() == s.view && page == s.page
    {
      hide Valid, Faithful, CountsOk, InfosOk, CountLive, EncodeAll, Bytes, LogOk, Image, FirstFrom, HoldsSome;
      ValidShaped();
      var pageIdx := FirstPage(from, ERASED);
      if pageIdx >= PAGES {
        return -1;
      }
      TableAt(pageIdx);
      var ret := StatusUpdate(pageIdx, ACTIVE);
      if ret < 0 {
        return -1;
      }
      return pageIdx;
    }

    /** Closes the active page and takes an erased one into use. */
    method MoveOn() returns (page: int)
      requires Valid() && pageActive < PAGES
      modifies this`flash, this`history, this`pages, this`pageErased, this`pageActive
      ensures Valid() && Four(old(Abs())) && Since(old(history), {logs})
      ensures var v := old(Abs());
        var s := OpenNext(WithStatus(v, v.active, FULL), v.active);
        Abs() == s.view && page == s.page
    {
      hide Valid, Faithful, CountsOk, InfosOk, CountLive, EncodeAll, Bytes, LogOk, Image, FirstFrom, HoldsSome,
        OpenNext;
      ValidShaped();
      var pageIdx := pageActive;
      TableAt(pageIdx);
      var ret := StatusUpdate(pageIdx, FULL);
      if ret < 0 {
        assert false;
      }
      ghost var h := history;
      page := OpenErased(pageIdx);
      SinceThen(old(history), h, {logs}, {logs});
      assert {logs} + {logs} == {logs};
    }

    /** The page for a new record: the active one, the one that collecting left active, or a newly opened one. */
    method GetAvailablePage(len: nat) returns (page: int)
      requires Valid()
      modifies this`flash, this`history, this`pages, this`pageErased, this`pageActive, this`logs
      ensures Valid() && Four(old(Abs()))
      ensures var s := Place(old(Abs()), len); Abs() == s.view && page == s.page
      ensures Chosen(old(Abs()), len, Spot(Abs(), page))
      ensures 0 <= page < PAGES ==> page == pageActive && pages[page].status == ACTIVE
      ensures old(history) <= history
      ensures ImagesKeep(history, |old(history)|, old(logs), Picked(old(Abs()), len), NO_KEY, [])
      ensures Preserves(old(logs), Picked(old(Abs()), len), logs, NO_KEY, [])
    {
      hide Valid, Faithful, CountsOk, InfosOk, CountLive, EncodeAll, Bytes, LogOk, Image, FirstFrom, HoldsSome,
        Collect, Victim, Collected, ImagesKeep, Preserves, Fewest, KeepsAll, OpenNext, WithStatus, Chosen;
      ValidShaped();
      PlaceIsChosen(Abs(), len);
      FreeIs(pageActive);
      ghost var v := Abs();
      NothingPicked(v.logs);
      if len + HEADER_SIZE > MAX_CONTENT_LEN {
        return -1;
      }
      var pageIdx;
      if pageActive < PAGES {
        pageIdx := pageActive;
      } else {
        pageIdx := FirstPage(0, ACTIVE);
      }
      if pageIdx < PAGES {
        if Unsigned(FreeSize(pageIdx)) >= len + HEADER_SIZE {
          return pageIdx;
        }
        var ret;
        if pageErased <= 2 {
          CollectsVictim(v, len);
          ret := Realign();
          CollectedKeeps(v.logs, Victim(v), logs);
          ValidShaped();
          pageIdx := pageActive;
          FreeIs(pageActive);
          if Unsigned(FreeSize(pageIdx)) >= len + HEADER_SIZE {
            return pageIdx;
          }
        }
        ghost var h := history;
        page := MoveOn();
        KeepMore(h, |old(history)|, v.logs, Picked(v, len), {logs}, NO_KEY, []);
      } else {
        ghost var h := history;
        page := OpenErased(0);
        KeepMore(h, |old(history)|, v.logs, Picked(v, len), {logs}, NO_KEY, []);
      }
      ValidShaped();
    }

    lemma NothingPicked(l: Logs)
      requires |l| == PAGES
      ensures Preserves(l, NO_PAGE, l, NO_KEY, []) && ImagesKeep(history, |history|, l, NO_PAGE, NO_KEY, [])
    {
      hide ImageKeeps;
    }

    // -------------------------------------------------------------------------------------
    // Torn pages

    /**
      With the bytes at the offset cleared, the page reads as the log `k`: of the same size,
      with one live record less.
     */
    ghost predicate Rereading(bytes: seq<Byte>, log: seq<Rec>, offset: nat, k: seq<Rec>)
      requires |bytes| == PAGE_SIZE && offset + HEADER_SIZE + 1 < PAGE_SIZE
    {
      && PageHolds(TornBytes(bytes, offset), k)
      && |EncodeAll(k)| == |EncodeAll(log)| && CountLive(k) + 1 == CountLive(log)
    }

    ghost predicate Rereads(bytes: seq<Byte>, log: seq<Rec>, offset: nat)
      requires |bytes| == PAGE_SIZE && offset + HEADER_SIZE + 1 < PAGE_SIZE
    {
      exists k :: Rereading(bytes, log, offset, k)
    }

    /**
      A write of `r` from this state breaks the page table: its deletion goes through a stale
      location, the bytes there read as the key, and with them cleared the page does not happen
      to read as a log that the table row still fits.
     */
    ghost predicate Corrupts(v: View, r: Rec)
      requires Four(v)
    {
      && Tears(v, r)
      && var g, m := Appending(v, r), OldPlace(v, r);
         !Rereads(Bytes(g, m.page), g.logs[m.page], m.offset)
    }

    lemma HeaderKept(bytes: seq<Byte>, item: Rec, offset: nat, log: seq<Rec>)
      requires PageHolds(bytes, [item]) && HEADER_SIZE <= offset && offset + HEADER_SIZE + 1 < PAGE_SIZE
      requires item.idx != 0
      requires PageHolds(TornBytes(bytes, offset), log) && |EncodeAll(log)| == |EncodeAll([item])|
      ensures CountLive(log) > 0
    {
      hide Image, Header, EncodeAll, LogOk, AndSeq, CountLive;
      var torn := TornBytes(bytes, offset);
      EncodeOne(item);
      EmptyLog();
      assert log != [];
      OffsetEnd([item]);
      OffsetEnd(log);
      ReadRecord(bytes[0], [item], 0);
      ReadRecord(torn[0], log, 0);
      assert torn[1..5] == torn[..1 + offset][1..5] == bytes[..1 + offset][1..5] == bytes[1..5];
      HeaderReads(item);
      HeaderReads(log[0]);
      if CountLive(log) == 0 {
        CountZero(log, 0);
      }
    }

    /** A torn page that held nothing but the new record never reads as a log that fits. */
    lemma TornBreaks(v: View, r: Rec)
      requires Shaped(v) && Writable(r) && AtMostOne(v.logs, r.idx)
      requires forall p :: 0 <= p < PAGES ==> Write(v, r).torn ==>
        PageHolds(Bytes(Write(v, r).view, p), Write(v, r).view.logs[p])
      ensures Corrupts(v, r) <==> Write(v, r).torn
    {
      hide Write, Bytes, LogOk, Image, EncodeAll, CountLive, AtMostOne, Displaced, SpellsKey, TornBytes, PageShaped,
        OldPlace, Appending, Tears;
      StaleWhen(v, r);
      TornWhen(v, r);
      if Write(v, r).torn {
        TornWhen(v, r);
        var o, m := Write(v, r), OldPlace(v, r);
        CountOne(r);
        forall k ensures !Rereading(Bytes(o.view, m.page), o.view.logs[m.page], m.offset, k) {
          if Rereading(Bytes(o.view, m.page), o.view.logs[m.page], m.offset, k) {
            HeaderKept(Bytes(o.view, m.page), r, m.offset, k);
          }
        }
      }
    }

    /** The table fits some reading of the flash with one torn page exactly when that page rereads. */
    lemma TornConsistent(f: Flash, t: seq<PageInfo>, l: Logs, p: nat, offset: nat, nextF: Flash, nextT: seq<PageInfo>)
      requires Faithful(f, l) && InfosOk(f, t, l) && p < PAGES && offset + HEADER_SIZE + 1 < PAGE_SIZE
      requires |f[p]| == PAGE_SIZE && t[p].itemCnt > 0
      requires nextF == f[p := TornBytes(f[p], offset)] && nextT == t[p := t[p].(itemCnt := t[p].itemCnt - 1)]
      ensures forall k :: Rereading(f[p], l[p], offset, k) ==>
        Faithful(nextF, l[p := k]) && InfosOk(nextF, nextT, l[p := k])
      ensures forall m :: Faithful(nextF, m) && InfosOk(nextF, nextT, m) ==> Rereads(f[p], l[p], offset)
    {
      hide EncodeAll, CountLive, LogOk, Image, AndSeq;
      assert InfoOk(f[p], t[p], l[p]);
      assert TornBytes(f[p], offset)[0] == f[p][0];
      forall k | Rereading(f[p], l[p], offset, k)
        ensures Faithful(nextF, l[p := k]) && InfosOk(nextF, nextT, l[p := k])
      {
        FaithfulUpdate(f, l, p, nextF, l[p := k]);
        LiveNotErased(t[p], l[p]);
        InfosUpdate(f, t, l, p, nextF, nextT, l[p := k]);
      }
      forall m | Faithful(nextF, m) && InfosOk(nextF, nextT, m) ensures Rereads(f[p], l[p], offset) {
        assert InfoOk(nextF[p], nextT[p], m[p]);
        assert Rereading(f[p], l[p], offset, m[p]);
      }
    }

    lemma SomeReading(bytes: seq<Byte>, log: seq<Rec>, offset: nat) returns (k: seq<Rec>)
      requires |bytes| == PAGE_SIZE && offset + HEADER_SIZE + 1 < PAGE_SIZE && Rereads(bytes, log, offset)
      ensures Rereading(bytes, log, offset, k)
    {
      hide Rereading;
      k :| Rereading(bytes, log, offset, k);
    }

    /** The images from the append on, when the deletion found its record or did nothing. */
    lemma SinceStages(h0: seq<Flash>, h: seq<Flash>, g: View, key: int, m: Mark)
      requires Four(g) && Hold(h0, h, {g.logs})
      requires if Alive(g, key, m) then Since(h, {Killed(g.logs, m.page, RecordAt(g.logs[m.page], m.offset)), logs})
               else history == h
      ensures Since(h0, Stages(g, key, m, logs))
    {
      hide HoldsSome, RecordAt;
      if Alive(g, key, m) {
        var killed := Killed(g.logs, m.page, RecordAt(g.logs[m.page], m.offset));
        SinceThen(h0, h, {g.logs}, {killed, logs});
        assert {g.logs} + {killed, logs} == {g.logs, killed, logs};
      }
    }

    lemma LiveNotErased(info: PageInfo, log: seq<Rec>)
      requires info.itemCnt == CountLive(log) > 0
      ensures log != []
    {
    }

    // -------------------------------------------------------------------------------------
    // Writing

    /** Deletes the old record at its location. A torn page is read as a log again if the table row fits it. */
    method DeleteOld(key: int, page: nat, offset: nat) returns (ret: int)
      requires Valid() && KeyValid(key) && page < PAGES
      modifies this`flash, this`history, this`pages, this`pageErased, this`logs
      ensures Four(old(Abs())) && forall p :: 0 <= p < PAGES ==> PageHolds(Bytes(old(Abs()), p), old(logs)[p])
      ensures var v, m := old(Abs()), Mark(page, offset);
        var s := Strike(v, key, m);
        && ret == (if s.ok then 0 else -1)
        && (!s.torn ==> Valid() && Abs() == s.view)
        && (s.torn ==> if Rereads(Bytes(v, page), v.logs[page], offset) then Valid() else !Consistent())
        && (!Astray(v, m) || ret == -1 ==>
              if Alive(v, key, m) then Since(old(history), {Killed(v.logs, page, RecordAt(v.logs[page], offset)), logs})
              else history == old(history))
    {
      hide EncodeAll, Image, PageHolds, CountLive, Faithful, InfosOk, CountsOk, Offset, Encode, RecordAt, TornBytes,
        Header, Bytes, LogOk, Spells, Rereads, BitOf, Hold, DeleteAt, Alive, Astray;
      TableAt(page);
      forall p | 0 <= p < PAGES ensures PageHolds(Bytes(Abs(), p), logs[p]) {
        TableAt(p);
      }
      ghost var v, f, t, l := Abs(), flash, pages, logs;
      ret := DeleteWithLoc(key, page, offset);
      if Strike(v, key, Mark(page, offset)).torn {
        TornConsistent(f, t, l, page, offset, flash, pages);
        KeepsCounts(t, pageErased, pageActive, page, pages);
        if Rereads(f[page], l[page], offset) {
          ghost var k := SomeReading(f[page], l[page], offset);
          logs := l[page := k];
        }
      }
    }

    /** The second half of a write: append the new record, then delete the old one at its location. */
    method Replace(item: Rec, pageIdx: nat, page: nat, offset: nat) returns (ret: int)
      requires Valid() && KeyValid(item.idx) && Sized(item) && item.crc == checksum(item.content)
      requires pageIdx < PAGES && pageIdx == pageActive
      modifies this`flash, this`history, this`pages, this`pageErased, this`pageActive, this`logs
      ensures Four(old(Abs()))
      ensures !Fits(old(Abs()), pageIdx, item) ==> ret == -1 && Valid() && Stored() == old(Stored())
      ensures Fits(old(Abs()), pageIdx, item) && page >= PAGES ==>
        ret == 0 && Valid() && Abs() == Grown(old(Abs()), pageIdx, item) && Since(old(history), {logs})
      ensures Fits(old(Abs()), pageIdx, item) && page < PAGES ==>
        var g, m := Grown(old(Abs()), pageIdx, item), Mark(page, offset);
        var s := Strike(g, item.idx, m);
        && ret == (if s.ok then 0 else -1)
        && (forall p :: 0 <= p < PAGES ==> PageHolds(Bytes(g, p), g.logs[p]))
        && (!s.torn ==> Valid() && Abs() == s.view)
        && (s.torn ==> if Rereads(Bytes(g, page), g.logs[page], offset) then Valid() else !Consistent())
        && (!Astray(g, m) || ret == -1 ==> Since(old(history), Stages(g, item.idx, m, logs)))
    {
      hide EncodeAll, Image, PageHolds, CountLive, Faithful, InfosOk, CountsOk, Offset, Encode, RecordAt, TornBytes,
        Header, Bytes, LogOk, Spells, Rereads, BitOf, HoldsSome, DeleteAt, Alive, Astray, Hold, Stages, Strike,
        Consistent;
      ValidShaped();
      ret := PageWriteItem(pageIdx, item);
      if ret < 0 {
        return -1;
      }
      TableAt(pageIdx);
      if pages[pageIdx].status == ACTIVE {
        pageActive := pageIdx;
      }
      if page < PAGES {
        ghost var g, h := Abs(), history;
        ret := DeleteOld(item.idx, page, offset);
        if !Astray(g, Mark(page, offset)) || ret == -1 {
          SinceStages(old(history), h, g, item.idx, Mark(page, offset));
        }
        if ret < 0 {
          return -1;
        }
      }
      return 0;
    }

    /** The record that a write of `buf` under `key` makes. */
    function NewRec(key: int, buf: seq<Byte>): Rec
      requires KeyValid(key) && |buf| <= MAX_CONTENT_LEN
    {
      Rec(|buf|, checksum(buf), key, buf)
    }

    /** Every image of the append and the deletion keeps what the page for the new record left. */
    lemma ReplaceKeeps(h: seq<Flash>, from: nat, before: Logs, p: nat, ready: View, q: nat, r: Rec, m: Mark)
      requires Four(ready) && q < PAGES && KeyValid(r.idx)
      requires ImagesKeep(h, from, before, p, NO_KEY, []) && Preserves(before, p, ready.logs, NO_KEY, [])
      requires var g := Grown(ready, q, r);
        Since(h, if m.page < PAGES then Stages(g, r.idx, m, Strike(g, r.idx, m).view.logs) else {g.logs})
      ensures ImagesKeep(history, from, before, p, r.idx, r.content)
    {
      hide Preserves, ImagesKeep, Grown, Stages, Strike, HoldsSome;
      var g := Grown(ready, q, r);
      AnyKey(h, from, before, p, r.idx, r.content);
      if m.page < PAGES {
        StagesKeep(before, p, ready, q, r, m);
        KeepMore(h, from, before, p, Stages(g, r.idx, m, Strike(g, r.idx, m).view.logs), r.idx, r.content);
      } else {
        StagesPreserve(before, p, ready, q, r, m);
        KeepMore(h, from, before, p, {g.logs}, r.idx, r.content);
      }
    }

    /** What a write of a key with at most one record means, once its steps are those of `Write`. */
    lemma WriteOfOne(v: View, r: Rec)
      requires Shaped(v) && Writable(r) && AtMostOne(v.logs, r.idx)
      requires Write(v, r).torn ==>
        forall p :: 0 <= p < PAGES ==> PageHolds(Bytes(Write(v, r).view, p), Write(v, r).view.logs[p])
      ensures Displaced(v, r) ==> |Encode(r)| <= CONTENT_MAX
      ensures Corrupts(v, r) <==> Displaced(v, r) && SpellsKey(r, OldPlace(v, r).offset)
      ensures Corrupts(v, r) <==> Write(v, r).torn
      ensures !Corrupts(v, r) ==> Meaning(v, r, Write(v, r).ret, Write(v, r).view.logs)
      ensures !Corrupts(v, r) && GoesStale(v, r) ==> Write(v, r).ret == -1
    {
      hide Write, Corrupts, Displaced, SpellsKey, OldPlace, Meaning, Bytes, PageHolds, PageShaped, AtMostOne, GoesStale;
      StaleWhen(v, r);
      TornBreaks(v, r);
      if !Write(v, r).torn {
        WriteMeans(v, r);
      }
    }

    /**
      Writes an item: looks its old record up, finds a page, appends the new record, deletes the
      old one. What that does is told by `Write` from the state before, and whether the RAM table
      still agrees with the flash by `Corrupts`; `Meaning` is what it does to the map.
     */
    method WriteItem(key: int, buf: seq<Byte>) returns (ret: int)
      requires Valid()
      modifies this`flash, this`history, this`pages, this`pageErased, this`pageActive, this`logs,
        this`lastPage, this`lastOffset, this`searchIdx
      ensures ret == 0 || ret == -1
      ensures Four(old(Abs())) && Shaped(old(Abs()))
      ensures !KeyValid(key) || |buf| == 0 || |buf| > MAX_CONTENT_LEN ==>
        ret == -1 && Valid() && Stored() == old(Stored())
      ensures KeyValid(key) && 0 < |buf| <= MAX_CONTENT_LEN ==>
        var v, r := old(Abs()), NewRec(key, buf);
        && ret == Write(v, r).ret
        && (!Write(v, r).torn ==> Valid() && Abs() == Write(v, r).view)
        && (if Corrupts(v, r) then !Consistent() else Valid())
      ensures KeyValid(key) && 0 < |buf| <= MAX_CONTENT_LEN && AtMostOne(old(logs), key) ==>
        var v, r := old(Abs()), NewRec(key, buf);
        && (Corrupts(v, r) <==> Displaced(v, r) && SpellsKey(r, OldPlace(v, r).offset))
        && (!Corrupts(v, r) ==>
              && Meaning(v, r, ret, logs) && old(history) <= history
              && ImagesKeep(history, |old(history)|, old(logs), Picked(v, |buf|), key, buf))
    {
      hide EncodeAll, Image, PageHolds, CountLive, Faithful, InfosOk, CountsOk, Offset, Encode, LogOk, FindKey, Place,
        Grown, Strike, AtMostOne, Meaning, Displaced, SpellsKey, ImagesKeep, Preserves, Shaped, OnlyKey, Has, LiveOf,
        FirstSeen, Picked, HoldsSome, Stages, Rereads, Fits, BitOf, Bytes, Astray, Collected, IsMap;
      ValidShaped();
      if |buf| == 0 || |buf| > MAX_CONTENT_LEN {
        return -1;
      }
      if !KeyValid(key) {
        return -1;
      }
      ghost var v, r := Abs(), NewRec(key, buf);
      var item := NOTHING;
      var cnt, page, offset;
      cnt, item, page, offset := FindItem(key, item);
      if cnt < 0 {
        return -1;
      }
      item := item.(idx := key);
      item := Rec(|buf|, checksum(buf), key, buf);
      var pageIdx := GetAvailablePage(|buf|);
      ghost var ready, h := Abs(), history;
      if !(0 <= pageIdx < PAGES) {
        if AtMostOne(v.logs, key) {
          WriteOfOne(v, r);
          AnyKey(history, |old(history)|, v.logs, Picked(v, |buf|), key, buf);
        }
        return -1;
      }
      ret := Replace(item, pageIdx, page, offset);
      ghost var m := Mark(page, offset);
      TornWhen(v, r);
      if AtMostOne(v.logs, key) {
        WriteOfOne(v, r);
        if !Appends(v, r) {
          AnyKey(history, |old(history)|, v.logs, Picked(v, |buf|), key, buf);
        } else if !Corrupts(v, r) {
          ReplaceKeeps(h, |old(history)|, v.logs, Picked(v, |buf|), ready, pageIdx, r, m);
        }
      }
    }

    /**
      Reads at most `len` bytes of an item: -1 for bad arguments or when the lookup gets stuck, 0
      for a missing key. Reading a key with several records gives the content found first and
      deletes them all, unless the lookup gets stuck.
     */
    method ReadItem(key: int, len: int) returns (ret: int, out: seq<Byte>)
      requires Valid()
      modifies this`flash, this`history, this`pages, this`pageErased, this`logs,
        this`lastPage, this`lastOffset, this`searchIdx
      ensures Valid() && Four(old(Abs())) && |old(logs)| == PAGES
      ensures len <= 0 || !KeyValid(key) ==> ret == -1 && Stored() == old(Stored())
      ensures KeyValid(key) ==> OnlyKey(old(logs), logs, key)
      ensures ret >= 0 ==> ret == |out|
      ensures len > 0 && KeyValid(key) ==>
        Abs() == FindKey(old(Abs()), key, NOTHING).view && (ret == -1 <==> Stuck(old(Abs()), key))
      ensures len > 0 && KeyValid(key) && AtMostOne(old(logs), key) ==>
        Stored() == old(Stored()) && ret >= 0 && Reads(logs, key, len, out)
      ensures len > 0 && KeyValid(key) && LiveOf(old(logs), key) >= 2 && ret >= 0 ==>
        !Has(logs, key) && exists r :: FirstSeen(old(Abs()), key, r) && out == Cut(r.content, len)
      ensures len > 0 && KeyValid(key) && LiveOf(old(logs), key) == 2 ==> !Has(logs, key)
    {
      hide Valid, FindKey, AtMostOne, Has, LiveOf, FirstSeen, OnlyKey, Shaped, Stuck;
      ValidShaped();
      if KeyValid(key) {
        OnlyKeyReflexive(logs, key);
      }
      if len <= 0 {
        return -1, [];
      }
      if !KeyValid(key) {
        return -1, [];
      }
      ghost var v := Abs();
      var item := NOTHING;
      var cnt, page, offset;
      cnt, item, page, offset := FindItem(key, item);
      if AtMostOne(v.logs, key) {
        FoundReads(v, key, len);
      }
      if cnt < 0 {
        return -1, [];
      }
      if cnt == 0 {
        return 0, [];
      }
      ret := if len < item.len then len else item.len;
      out := item.content[..ret];
    }
  }

  /** The first `len` bytes, or all of them. */
  function Cut(v: seq<Byte>, len: nat): (out: seq<Byte>)
    ensures out <= v && |out| <= len && (out == v || |out| == len)
  {
    if len < |v| then v[..len] else v
  }

  /** `out` is what reading at most `len` bytes of key `k` gives: nothing for a missing key. */
  ghost predicate Reads(logs: Logs, k: int, len: nat, out: seq<Byte>) {
    && (forall v :: Holds(logs, k, v) ==> out == Cut(v, len))
    && (!Has(logs, k) ==> out == [])
  }

  /** What a lookup of a key with at most one record returns is what reading it gives. */
  lemma FoundReads(v: View, key: int, len: nat)
    requires Shaped(v) && KeyValid(key) && AtMostOne(v.logs, key)
    ensures var f := FindKey(v, key, NOTHING);
      Reads(v.logs, key, len, if f.cnt == 0 then [] else Cut(f.result.content, len))
  {
    hide FindKey, AtMostOne, Has, PageShaped, Offset;
    FindOne(v, key, NOTHING);
    var f := FindKey(v, key, NOTHING);
    if f.cnt == 1 {
      var p: nat, i: nat :| PlacedAt(v, f, key, p, i);
      OneHolds(v.logs, key, p, i);
    } else {
      forall w ensures !Holds(v.logs, key, w) {
        if Holds(v.logs, key, w) {
          var p, i :| At(v.logs, p, i, key) && v.logs[p][i].content == w;
          SomewhereHas(v.logs, p, i, key);
        }
      }
    }
  }

  lemma SomewhereHas(logs: Logs, p: int, i: int, key: int)
    requires At(logs, p, i, key)
    ensures Has(logs, key)
  {
  }

  lemma UpdatedReads(before: Logs, after: Logs, key: int, v: seq<Byte>, len: nat, k: int, out: seq<Byte>)
    requires Updated(before, after, key, v) && KeyValid(k) && Reads(after, k, len, out)
    ensures if k == key then out == Cut(v, len) else Reads(before, k, len, out)
  {
    if k == key {
      assert Holds(after, key, v);
    } else if Has(after, k) {
      var p, i :| At(after, p, i, k);
      assert Holds(after, k, after[p][i].content);
      assert Holds(before, k, after[p][i].content);
    } else {
      if Has(before, k) {
        var p, i :| At(before, p, i, k);
        assert Holds(before, k, before[p][i].content);
        assert Holds(after, k, before[p][i].content);
      }
    }
  }

  lemma OnlyReads(logs: Logs, key: int, v: seq<Byte>, len: nat, out: seq<Byte>)
    requires HoldsOnly(logs, key, v) && Reads(logs, key, len, out)
    ensures out == Cut(v, len)
  {
    assert Holds(logs, key, v);
  }

  /**
    Read your writes: unless the write collects the page of the key's old record, what it wrote
    is what the key reads as. If it collects nothing, any other key reads as before.
   */
  method WriteThenRead(store: Store, key: int, buf: seq<Byte>, other: int, len: nat)
    returns (ret: int, got: seq<Byte>, same: seq<Byte>)
    requires store.Valid() && IsMap(store.logs) && KeyValid(key) && KeyValid(other) && other != key
    requires 0 < |buf| <= MAX_CONTENT_LEN && len > 0
    requires !Collects(store.Abs(), |buf|) || !OnPage(store.logs, Victim(store.Abs()), key)
    modifies store
    ensures store.Valid() && Four(old(store.Abs()))
    ensures ret == 0 ==> got == Cut(buf, len)
    ensures !Collects(old(store.Abs()), |buf|) ==>
      && (ret == 0 <==> RoomFor(old(store.Abs()), |buf|)) && IsMap(store.logs)
      && (ret != 0 ==> Reads(old(store.logs), key, len, got))
      && Reads(old(store.logs), other, len, same)
  {
    hide Updated, Reads, AtMostOne, OnlyKey, Cut, Collects, OnPage, Victim, RoomFor, Write, IsMap, HoldsOnly, Shaped,
      SpellsKey, LiveOf, FirstSeen, Has, Fewest, OthersCollected, HoldsOld;
    hide Store.Valid, Store.ImagesKeep, Store.Corrupts, Store.Consistent;
    MapKey(store.logs, key);
    ghost var v, before := store.Abs(), store.logs;
    ret := store.WriteItem(key, buf);
    ghost var after := store.logs;
    MapKey(before, other);
    if !Collects(v, |buf|) {
      MapKey(after, key);
      MapKey(after, other);
    }
    var r;
    r, got := store.ReadItem(key, len);
    r, same := store.ReadItem(other, len);
    if Collects(v, |buf|) {
      if ret == 0 {
        OnlyReads(after, key, buf, len, got);
      }
    } else if ret == 0 {
      UpdatedReads(before, after, key, buf, len, key, got);
      UpdatedReads(before, after, key, buf, len, other, same);
    }
  }

  /**
    Looking a key up after a write: of the keys that had at most one record, exactly those are
    lost that the write left with two. The key looked up may be the one written, or any other.
   */
  method WriteThenLookUp(store: Store, key: int, buf: seq<Byte>, k: int, len: nat)
    returns (ret: int, got: seq<Byte>, ghost written: Logs)
    requires store.Valid() && KeyValid(key) && 0 < |buf| <= MAX_CONTENT_LEN && KeyValid(k) && len > 0
    requires AtMostOne(store.logs, key) && AtMostOne(store.logs, k)
    requires !store.Corrupts(store.Abs(), store.NewRec(key, buf))
    modifies store
    ensures store.Valid() && Four(old(store.Abs()))
    ensures var v, r := old(store.Abs()), store.NewRec(key, buf);
      && ret == Write(v, r).ret && written == Write(v, r).view.logs
      && (Has(store.logs, k) <==> Has(written, k) && !Doubles(v, r, k))
  {
    hide AtMostOne, OnlyKey, Cut, Write, Shaped, LiveOf, FirstSeen, Has, Doubles, Meaning, Displaced, SpellsKey,
      Stuck, Reads, OldPlace;
    hide Store.Valid, Store.ImagesKeep, Store.Corrupts, Store.Consistent;
    ghost var v, r := store.Abs(), store.NewRec(key, buf);
    store.ValidShaped();
    StaleWhen(v, r);
    ret := store.WriteItem(key, buf);
    written := store.logs;
    store.ValidShaped();
    LookupAfterWrite(v, r, k);
    var n;
    n, got := store.ReadItem(k, len);
  }

  lemma MapKey(logs: Logs, key: int)
    requires KeyValid(key)
    ensures IsMap(logs) ==> AtMostOne(logs, key)
  {
    hide AtMostOne;
  }
}
