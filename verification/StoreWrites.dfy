/**
  What a write does to the map of keys and contents, told from the state before it.
 */
module StoreWrites {
  import opened StoreLog
  import opened StoreMap
  import opened StoreView
  import opened StoreFind
  import opened StoreCollect
  import opened StoreCounts

  predicate Writable(r: Rec) {
    KeyValid(r.idx) && Sized(r) && 0 < |r.content| <= MAX_CONTENT_LEN
  }

  /** The old record's location, as the search reports it. */
  function OldPlace(v: View, r: Rec): Mark
    requires Four(v)
  {
    FindKey(v, r.idx, NOTHING).place
  }

  // ---------------------------------------------------------------------------------------
  // Steps

  /** A location that names a live record still does when its page was only appended to. */
  lemma StillNamed(v: View, w: View, key: int, p: nat, i: nat)
    requires Four(v) && Four(w) && p < PAGES && At(v.logs, p, i, key) && key != 0
    requires v.logs[p] <= w.logs[p]
    ensures var m := Mark(p, Offset(v.logs[p], i));
      At(w.logs, p, i, key) && !Astray(w, m) && DeleteAt(w, key, m) == Gone(Deleted(w, p, i), true)
  {
    hide Offset, RecordAt, CountLive, Deleted;
    OffsetPrefix(v.logs[p], w.logs[p], i);
    RecordAtOffset(w.logs[p], i);
    if CountLive(w.logs[p]) == 0 {
      CountZero(w.logs[p], i);
    }
  }

  lemma GrownKeeps(v: View, q: nat, r: Rec, p: nat)
    requires Four(v) && q < PAGES && p < PAGES
    ensures v.logs[p] <= Grown(v, q, r).logs[p]
  {
    hide EncodeAll, Encode;
  }

  /** Appending the new record and deleting the only old one updates the map at that key. */
  lemma ReplaceUpdates(v: View, q: nat, r: Rec, p: nat, i: nat)
    requires Four(v) && q < PAGES && p < PAGES && KeyValid(r.idx)
    requires At(v.logs, p, i, r.idx) && AtMostOne(v.logs, r.idx)
    ensures At(Grown(v, q, r).logs, p, i, r.idx)
    ensures var after := Deleted(Grown(v, q, r), p, i).logs;
      && Updated(v.logs, after, r.idx, r.content) && AtMostOne(after, r.idx) && (IsMap(v.logs) ==> IsMap(after))
      && (after == Killed(Appended(v.logs, q, r), p, i) || SameMap(Killed(Appended(v.logs, q, r), p, i), after))
  {
    hide CountLive, Updated, AtMostOne, SameMap, EncodeAll, Encode;
    WriteOver(v.logs, q, r, p, i);
    var g := Grown(v, q, r);
    var killed := Killed(g.logs, p, i);
    if CountLive(killed[p]) == 0 {
      EraseKeepsMap(killed, p);
      if Deleted(g, p, i).logs == ErasedAt(killed, p) {
        UpdatedThenSame(v.logs, killed, ErasedAt(killed, p), r.idx, r.content);
      }
    }
  }

  /** Deleting one record of a key, its page perhaps being erased, leaves the other keys. */
  lemma DeletedOthers(v: View, p: nat, i: nat, key: int)
    requires Four(v) && p < PAGES && At(v.logs, p, i, key) && KeyValid(key)
    ensures OthersSame(v.logs, Deleted(v, p, i).logs, key)
  {
    hide Deleted, OnlyKey, OthersSame;
    KillThenErase(v, p, i, key);
    OnlyKeyOthers(v.logs, Deleted(v, p, i).logs, key);
  }

  lemma OneByHas(v: View, r: Rec)
    requires Shaped(v) && KeyValid(r.idx) && AtMostOne(v.logs, r.idx)
    ensures FindKey(v, r.idx, NOTHING).view == v && !FindKey(v, r.idx, NOTHING).failed
    ensures if Has(v.logs, r.idx) then exists p: nat, i: nat :: OldAt(v, r, p, i) else OldPlace(v, r) == NOWHERE
  {
    hide FindKey, AtMostOne, Has, Shaped;
    FindOne(v, r.idx, NOTHING);
    var f := FindKey(v, r.idx, NOTHING);
    if f.cnt == 1 {
      var p: nat, i: nat :| PlacedAt(v, f, r.idx, p, i);
      assert OldAt(v, r, p, i);
    }
  }

  /** The old record is number `i` of page `p`, and that is its location. */
  ghost predicate OldAt(v: View, r: Rec, p: nat, i: nat) {
    Four(v) && At(v.logs, p, i, r.idx) && OldPlace(v, r) == Mark(p, Offset(v.logs[p], i))
  }

  // ---------------------------------------------------------------------------------------
  // Writes that collect nothing

  /** There is a page with room for the record and one byte to spare. */
  predicate RoomFor(v: View, len: nat)
    requires Four(v)
  {
    && len + HEADER_SIZE <= MAX_CONTENT_LEN
    && if v.active < PAGES && Free(v, v.active) >= len + HEADER_SIZE then Free(v, v.active) > len + HEADER_SIZE
       else v.active < PAGES || ErasedCount(v.status) > 0
  }

  lemma PlainRoom(v: View, r: Rec)
    requires Shaped(v) && Writable(r) && !Collects(v, |r.content|)
    ensures var s := Place(v, |r.content|);
      s.view.logs == v.logs && ((0 <= s.page < PAGES && Fits(s.view, s.page, r)) <==> RoomFor(v, |r.content|))
  {
    hide EncodeAll, FirstFrom, CountLive;
    var len := |r.content|;
    PlaceLogs(v, len);
    assert PageShaped(v, 0) && PageShaped(v, 1) && PageShaped(v, 2) && PageShaped(v, 3);
    EmptyLog();
    if v.active < PAGES {
      assert PageShaped(v, v.active);
      NoErased(v.status[v.active := FULL], v.active);
    } else {
      NoErased(v.status, 0);
    }
  }

  lemma NoErased(status: seq<Byte>, from: nat)
    requires |status| == PAGES && from < PAGES
    ensures FirstFrom(status, from, ERASED, 0) == NO_PAGE <==> ErasedCount(status) == 0
  {
    hide FirstFrom;
    if FirstFrom(status, from, ERASED, 0) == NO_PAGE {
      NoPageAtAll(status, from, ERASED, 0);
      NoPageAtAll(status, from, ERASED, 1);
      NoPageAtAll(status, from, ERASED, 2);
      NoPageAtAll(status, from, ERASED, 3);
    }
  }

  /** A write without collection succeeds exactly when there is room, and then refines map update. */
  lemma PlainWrite(v: View, r: Rec)
    requires Shaped(v) && Writable(r) && AtMostOne(v.logs, r.idx) && !Collects(v, |r.content|)
    ensures var o := Write(v, r);
      && !o.torn && !GoesStale(v, r) && (o.ret == 0 <==> RoomFor(v, |r.content|)) && (o.ret == 0 || o.ret == -1)
      && (o.ret == 0 ==>
            && Updated(v.logs, o.view.logs, r.idx, r.content) && AtMostOne(o.view.logs, r.idx)
            && (IsMap(v.logs) ==> IsMap(o.view.logs)))
      && (o.ret == -1 ==> o.view.logs == v.logs)
  {
    hide FindKey, Place, Grown, Strike, Astray, RoomFor, Updated, AtMostOne, Fits, Has, Shaped, Deleted;
    OneByHas(v, r);
    PlainRoom(v, r);
    if Appends(v, r) {
      WriteReady(v, r);
    }
  }

  /** A write whose old record still has its place, or has none, updates the map it finds. */
  lemma WriteReady(v: View, r: Rec)
    requires Four(v) && KeyValid(r.idx) && Appends(v, r) && FindKey(v, r.idx, NOTHING).view == v
    requires AtMostOne(Ready(v, r).view.logs, r.idx)
    requires if Has(v.logs, r.idx) then
               exists p: nat, i: nat :: OldAt(v, r, p, i) && v.logs[p] <= Ready(v, r).view.logs[p]
             else OldPlace(v, r) == NOWHERE && !Has(Ready(v, r).view.logs, r.idx)
    ensures var o, ready := Write(v, r), Ready(v, r).view;
      && !o.torn && !GoesStale(v, r) && o.ret == 0
      && Updated(ready.logs, o.view.logs, r.idx, r.content) && AtMostOne(o.view.logs, r.idx)
      && (IsMap(ready.logs) ==> IsMap(o.view.logs))
  {
    hide FindKey, Place, Grown, Updated, AtMostOne, Fits, Has, Deleted, DeleteAt, Astray, Spells, Offset;
    var s := Ready(v, r);
    var g := Grown(s.view, s.page, r);
    if Has(v.logs, r.idx) {
      var p: nat, i: nat :| OldAt(v, r, p, i) && v.logs[p] <= s.view.logs[p];
      StillNamed(v, s.view, r.idx, p, i);
      GrownKeeps(s.view, s.page, r, p);
      StillNamed(v, g, r.idx, p, i);
      ReplaceUpdates(s.view, s.page, r, p, i);
    } else {
      WriteNew(s.view.logs, s.page, r);
    }
  }

  // ---------------------------------------------------------------------------------------
  // Writes that collect a page

  /** A write that collects picks a FULL page with the fewest live records; there always is one. */
  lemma CollectsVictim(v: View, len: nat)
    requires Shaped(v) && Collects(v, len)
    ensures Victim(v) < PAGES && Fewest(v, Victim(v)) && Aside(v, Victim(v)) && Collect(v) == Swept(v, Victim(v))
  {
    hide Victim, Fewest, EncodeAll;
    ActiveHasSpace(v);
    VictimExists(v);
    VictimFull(v);
    ShapedAside(v, Victim(v));
  }

  lemma VictimFull(v: View)
    requires Four(v) && Victim(v) < PAGES
    ensures v.status[Victim(v)] == FULL
  {
  }

  lemma ActiveHasSpace(v: View)
    requires Shaped(v) && v.active < PAGES
    ensures 0 < Free(v, v.active) <= CONTENT_MAX
  {
    hide EncodeAll;
    assert PageShaped(v, v.active);
  }

  /** Before the old record is deleted: the collected map, with the new record on top if there was room. */
  lemma CollectedReady(v: View, r: Rec)
    requires Shaped(v) && Writable(r) && AtMostOne(v.logs, r.idx) && Collects(v, |r.content|)
    ensures FindKey(v, r.idx, NOTHING).view == v && !FindKey(v, r.idx, NOTHING).failed
    ensures Victim(v) < PAGES && Ready(v, r).view.logs == Swept(v, Victim(v)).logs
    ensures Collected(v.logs, Victim(v), Ready(v, r).view.logs)
    ensures forall q :: 0 <= q < PAGES && q != Victim(v) ==> v.logs[q] <= Ready(v, r).view.logs[q]
  {
    hide FindKey, Place, Collect, Collects, Swept, AtMostOne, Collected, Victim, Aside, Fewest;
    OneByHas(v, r);
    PlaceLogs(v, |r.content|);
    CollectsVictim(v, |r.content|);
    SweptIsCollected(v, Victim(v));
  }

  /**
    The key's record is not on the collected page (or it has none): the write succeeds whenever
    it finds room, and the key then holds just the new content.
   */
  lemma CollectElsewhere(v: View, r: Rec)
    requires Shaped(v) && Writable(r) && AtMostOne(v.logs, r.idx) && Collects(v, |r.content|)
    requires !OnPage(v.logs, Victim(v), r.idx)
    ensures var o := Write(v, r);
      && !o.torn && !GoesStale(v, r) && (o.ret == 0 <==> Appends(v, r))
      && OthersCollected(v.logs, Victim(v), o.view.logs, r.idx) && AtMostOne(o.view.logs, r.idx)
      && (if o.ret == 0 then HoldsOnly(o.view.logs, r.idx, r.content)
          else o.ret == -1 && HoldsOld(v.logs, Victim(v), o.view.logs, r.idx))
  {
    hide FindKey, Place, Grown, Strike, Astray, Swept, AtMostOne, Collected, Victim, Updated, Has, Fits, Collects,
      OnPage, OthersSame, OthersCollected, HoldsOnly, HoldsOld, Deleted;
    CollectedReady(v, r);
    OneByHas(v, r);
    var ready := Ready(v, r).view;
    StaysAlone(v.logs, Victim(v), ready.logs, r.idx);
    if Appends(v, r) {
      if Has(v.logs, r.idx) {
        var p: nat, i: nat :| OldAt(v, r, p, i);
        OffVictim(v.logs, Victim(v), p, i, r.idx);
      }
      WriteReady(v, r);
      UpdatedMeans(ready.logs, Write(v, r).view.logs, r.idx, r.content);
      CollectThenOthers(v.logs, Victim(v), ready.logs, Write(v, r).view.logs, r.idx);
    } else {
      SameOthers(ready.logs, r.idx);
      CollectThenOthers(v.logs, Victim(v), ready.logs, ready.logs, r.idx);
    }
  }

  lemma UpdatedMeans(before: Logs, after: Logs, key: int, v: seq<Byte>)
    requires Updated(before, after, key, v)
    ensures OthersSame(before, after, key) && HoldsOnly(after, key, v)
  {
    hide Holds;
  }

  lemma OffVictim(logs: Logs, victim: nat, p: nat, i: nat, key: int)
    requires At(logs, p, i, key) && !OnPage(logs, victim, key)
    ensures p != victim
  {
  }

  /** A key that is not on the collected page keeps its content and its uniqueness. */
  lemma StaysAlone(before: Logs, p: nat, now: Logs, key: int)
    requires Collected(before, p, now) && AtMostOne(before, key) && KeyValid(key) && !OnPage(before, p, key)
    ensures AtMostOne(now, key) && (Has(now, key) ==> Has(before, key)) && HoldsOld(before, p, now, key)
  {
    hide AtMostOne;
    NothingInvented(before, p, now, key);
    forall w ensures Holds(now, key, w) <==> Kept(before, p, key, w) {
      if Holds(now, key, w) {
        assert Holds(before, key, w);
        var q, j :| At(before, q, j, key) && before[q][j].content == w;
        assert q != p;
        assert OffPage(before, p, key, w);
      }
    }
  }

  /** The new record is the only one on its page, which the old record's page has become. */
  predicate Reopened(v: View, r: Rec)
    requires Four(v)
  {
    Appends(v, r) && Ready(v, r).page == Victim(v)
  }

  /** The four bytes at the offset inside the new record end in its key. */
  ghost predicate SpellsKey(r: Rec, offset: nat)
    requires |Encode(r)| <= CONTENT_MAX
  {
    EncodeOne(r);
    Spells(Image(ACTIVE, [r]), offset, r.idx)
  }

  /**
    The key's only record was on the collected page, and collection completed. Without room the
    write fails. Otherwise the old location means nothing any more: if the page stays empty,
    nothing is deleted and the key holds both contents; if the new record opens it, the new
    record itself is deleted when the location is its start, and when it is further on, the
    bytes there decide.
   */
  lemma CollectHere(v: View, r: Rec)
    requires Shaped(v) && Writable(r) && AtMostOne(v.logs, r.idx) && Collects(v, |r.content|)
    requires OnPage(v.logs, Victim(v), r.idx) && Completes(v, Victim(v))
    ensures |Encode(r)| <= CONTENT_MAX && OldPlace(v, r).page == Victim(v) && exists i: nat :: OldAt(v, r, Victim(v), i)
    ensures var o, offset := Write(v, r), OldPlace(v, r).offset;
      && OthersCollected(v.logs, Victim(v), o.view.logs, r.idx)
      && (GoesStale(v, r) <==> Reopened(v, r) && offset > 0)
      && (o.torn <==> Reopened(v, r) && offset > 0 && SpellsKey(r, offset))
      && (!Appends(v, r) ==> o.ret == -1 && HoldsOld(v.logs, Victim(v), o.view.logs, r.idx))
      && (Appends(v, r) && !Reopened(v, r) ==>
            o.ret == 0 && HoldsBoth(v.logs, Victim(v), o.view.logs, r.idx, r.content))
      && (Reopened(v, r) && offset == 0 ==> o.ret == 0 && HoldsOld(v.logs, Victim(v), o.view.logs, r.idx))
      && (Reopened(v, r) && offset > 0 ==>
            && o.ret == (if SpellsKey(r, offset) then 0 else -1)
            && HoldsBoth(v.logs, Victim(v), o.view.logs, r.idx, r.content))
  {
    hide FindKey, Place, Grown, Strike, Swept, Collected, Victim, Has, Fits, Collects, OnPage, Completes, Encode,
      OthersSame, OthersCollected, HoldsBoth, HoldsOld, Deleted, AtMostOne, Emptied, SpellsKey, Offset;
    CollectedReady(v, r);
    HereIsVictim(v, r);
    var ready, victim := Ready(v, r).view, Victim(v);
    HereIsEmptied(v, r);
    if !Appends(v, r) {
      SameOthers(ready.logs, r.idx);
      CollectThenOthers(v.logs, victim, ready.logs, ready.logs, r.idx);
      EmptiedHolds(v.logs, victim, ready.logs, r.idx);
    } else {
      var q := Ready(v, r).page;
      var g := Grown(ready, q, r);
      AppendOthers(ready.logs, q, r);
      GrownLogs(ready, q, r);
      CollectThenOthers(v.logs, victim, ready.logs, g.logs, r.idx);
      AppendBoth(v.logs, victim, ready.logs, q, r);
      if q != victim {
        StrikeEmpty(g, r.idx, OldPlace(v, r));
      } else {
        StrikeFresh(ready, victim, r, OldPlace(v, r));
        if OldPlace(v, r).offset == 0 {
          var after := Write(v, r).view.logs;
          SameMapOthers(ready.logs, after, r.idx);
          CollectThenOthers(v.logs, victim, ready.logs, after, r.idx);
          EmptiedHolds(v.logs, victim, ready.logs, r.idx);
          SameMapOld(v.logs, victim, ready.logs, after, r.idx);
        }
      }
    }
  }

  lemma GrownLogs(v: View, q: nat, r: Rec)
    requires Four(v) && q < PAGES
    ensures Grown(v, q, r).logs == Appended(v.logs, q, r)
  {
  }

  lemma HereIsVictim(v: View, r: Rec)
    requires Shaped(v) && Writable(r) && AtMostOne(v.logs, r.idx) && OnPage(v.logs, Victim(v), r.idx)
    ensures exists i: nat :: OldAt(v, r, Victim(v), i)
  {
    hide FindKey, Victim, Shaped, Offset;
    OneByHas(v, r);
    var j :| At(v.logs, Victim(v), j, r.idx);
    assert Has(v.logs, r.idx);
    var p: nat, i: nat :| OldAt(v, r, p, i);
    assert At(v.logs, p, i, r.idx);
    assert OldAt(v, r, Victim(v), i);
  }

  lemma HereIsEmptied(v: View, r: Rec)
    requires Shaped(v) && Writable(r) && Collects(v, |r.content|) && Victim(v) < PAGES && Completes(v, Victim(v))
    requires Ready(v, r).view.logs == Swept(v, Victim(v)).logs
    ensures |Encode(r)| <= MAX_CONTENT_LEN
    ensures Emptied(v.logs, Victim(v), Ready(v, r).view.logs) && Ready(v, r).view.logs[Victim(v)] == []
  {
    hide FindKey, Place, Swept, Completes, Victim, Emptied, Aside, Fewest;
    CollectsVictim(v, |r.content|);
    SweptIsCollected(v, Victim(v));
  }

  lemma EmptiedHolds(before: Logs, p: nat, now: Logs, key: int)
    requires Emptied(before, p, now) && KeyValid(key)
    ensures HoldsOld(before, p, now, key)
  {
    hide Holds, Kept;
  }

  lemma AppendBoth(before: Logs, p: nat, ready: Logs, q: nat, r: Rec)
    requires Emptied(before, p, ready) && KeyValid(r.idx) && q < |ready|
    ensures HoldsBoth(before, p, Appended(ready, q, r), r.idx, r.content)
  {
    hide Holds, Kept;
    forall w ensures Holds(Appended(ready, q, r), r.idx, w) <==> w == r.content || Kept(before, p, r.idx, w) {
      AppendHolds(ready, q, r, r.idx, w);
    }
  }

  lemma SameMapOthers(before: Logs, after: Logs, key: int)
    requires SameMap(before, after)
    ensures OthersSame(before, after, key)
  {
    hide Holds;
  }

  lemma SameMapOld(before: Logs, p: nat, ready: Logs, after: Logs, key: int)
    requires HoldsOld(before, p, ready, key) && SameMap(ready, after) && KeyValid(key)
    ensures HoldsOld(before, p, after, key)
  {
    hide Holds, Kept;
  }

  /** On an empty page there is nothing to delete. */
  lemma StrikeEmpty(v: View, key: int, m: Mark)
    requires Four(v) && m.page < PAGES && v.logs[m.page] == []
    ensures Strike(v, key, m) == Struck(v, true, false) && !Astray(v, m)
  {
  }

  /** Deleting through an old location on a page that holds just the new record. */
  lemma StrikeFresh(v: View, p: nat, r: Rec, m: Mark)
    requires Four(v) && p < PAGES && v.logs[p] == [] && KeyValid(r.idx) && |Encode(r)| <= MAX_CONTENT_LEN && m.page == p
    ensures var g := Grown(v, p, r);
      var s := Strike(g, r.idx, m);
      && (Astray(g, m) <==> m.offset > 0)
      && (m.offset == 0 ==> s.ok && !s.torn && SameMap(v.logs, s.view.logs))
      && (m.offset > 0 ==>
            s.view == g && s.ok == SpellsKey(r, m.offset) && s.torn == SpellsKey(r, m.offset))
  {
    hide Spells, Encode, SameMap;
    EmptyLog();
    EncodeOne(r);
    CountOne(r);
    AppendThenKill(v.logs, p, r);
    var g := Grown(v, p, r);
    assert [] + [r] == [r];
    assert g.logs[p] == [r] && g.status[p] == ACTIVE;
    assert [r][..0] == [];
    if m.offset == 0 {
      assert RecordAt([r], 0) == 0;
    }
  }

  /**
    The key's only record was on the collected page, and collection stopped midway. The old
    record is then still in its place, so it is deleted once the new one is written; a copy that
    was already made stays.
   */
  lemma MidwayMap(v: View, r: Rec)
    requires Shaped(v) && Writable(r) && AtMostOne(v.logs, r.idx) && Collects(v, |r.content|)
    requires Victim(v) < PAGES && OnPage(v.logs, Victim(v), r.idx) && !Completes(v, Victim(v))
    ensures var o, victim := Write(v, r), Victim(v);
      && !o.torn && !GoesStale(v, r)
      && (o.ret == 0 <==> Appends(v, r)) && (o.ret == 0 || o.ret == -1)
      && (o.ret == -1 ==> SameMap(v.logs, o.view.logs))
      && (o.ret == 0 ==>
            && OthersCollected(v.logs, victim, o.view.logs, r.idx)
            && HoldsCopies(v.logs, victim, Reach(v, victim), o.view.logs, r.idx, r.content))
  {
    hide FindKey, Place, Grown, Swept, Collected, Victim, Fits, Collects, OnPage, Completes, Astray, Spells, DeleteAt,
      OthersSame, OthersCollected, HoldsCopies, Deleted, AtMostOne, SameMap, Offset, Relocated, Moved;
    CollectedReady(v, r);
    HereIsVictim(v, r);
    var ready, victim := Ready(v, r).view, Victim(v);
    CollectsVictim(v, |r.content|);
    SweptIsCollected(v, victim);
    MovedHolds(v.logs, ready.logs, victim, Reach(v, victim));
    if Appends(v, r) {
      var q := Ready(v, r).page;
      var g := Grown(ready, q, r);
      var i: nat :| OldAt(v, r, victim, i);
      GrownLogs(ready, q, r);
      GrownKeeps(ready, q, r, victim);
      StillNamed(v, g, r.idx, victim, i);
      AppendOthers(ready.logs, q, r);
      DeletedOthers(g, victim, i, r.idx);
      OthersChain(ready.logs, g.logs, Deleted(g, victim, i).logs, r.idx);
      CollectThenOthers(v.logs, victim, ready.logs, Deleted(g, victim, i).logs, r.idx);
      CopiesAndNew(v, victim, ready, q, r, i, g);
    }
  }

  /** Key `key` holds the new content and the copy that collection made of its record, if it came that far. */
  ghost predicate HoldsCopies(before: Logs, p: nat, n: int, after: Logs, key: int, v: seq<Byte>) {
    forall w :: Holds(after, key, w) <==> w == v || Copied(before, p, n, key, w)
  }

  lemma CopiesAndNew(v: View, p: nat, ready: View, q: nat, r: Rec, i: nat, g: View)
    requires Four(v) && Four(ready) && p < PAGES && q < PAGES && KeyValid(r.idx)
    requires Moved(v.logs, ready.logs, p, Reach(v, p)) && AtMostOne(v.logs, r.idx) && At(v.logs, p, i, r.idx)
    requires Four(g) && g.logs == Appended(ready.logs, q, r) && At(g.logs, p, i, r.idx)
    ensures HoldsCopies(v.logs, p, Reach(v, p), Deleted(g, p, i).logs, r.idx, r.content)
  {
    hide CountLive, Reach, Moved, AtMostOne, Holds, OffPage, Copied;
    var killed := Killed(g.logs, p, i);
    if CountLive(killed[p]) == 0 {
      EraseKeepsMap(killed, p);
    }
    NothingElse(v.logs, ready.logs, p, i, Reach(v, p), r.idx);
    forall w ensures Holds(killed, r.idx, w) <==> w == r.content || OffPage(ready.logs, p, r.idx, w) {
      CopyOrNew(ready.logs, q, r, p, i, w);
    }
  }

  /** The key's only record being on page `p`, the other pages hold just the copies made so far. */
  lemma NothingElse(before: Logs, now: Logs, p: nat, i: nat, n: nat, key: int)
    requires Moved(before, now, p, n) && AtMostOne(before, key) && At(before, p, i, key) && KeyValid(key)
    ensures forall w :: OffPage(now, p, key, w) <==> Copied(before, p, n, key, w)
    ensures i < |now[p]| && forall j :: At(now, p, j, key) ==> j == i
  {
    hide Copied;
    assert forall j :: At(now, p, j, key) ==> At(before, p, j, key);
    assert forall w :: !OffPage(before, p, key, w);
  }

  lemma CopyOrNew(now: Logs, q: nat, r: Rec, p: nat, i: nat, w: seq<Byte>)
    requires p < |now| && q < |now| && r.idx != 0 && i < |now[p]|
    requires At(now, p, i, r.idx) && forall j :: At(now, p, j, r.idx) ==> j == i
    ensures Holds(Killed(Appended(now, q, r), p, i), r.idx, w) <==> w == r.content || OffPage(now, p, r.idx, w)
  {
    var g := Appended(now, q, r);
    var killed := Killed(g, p, i);
    forall a, b ensures At(killed, a, b, r.idx) <==> (a != p && At(now, a, b, r.idx)) || (a == q && b == |now[q]|) {
      AtKilled(g, p, i, a, b, r.idx);
      AtAppended(now, q, r, a, b, r.idx);
    }
    if w == r.content {
      assert At(killed, q, |now[q]|, r.idx) && killed[q][|now[q]|].content == w;
    }
    if OffPage(now, p, r.idx, w) {
      var a, b :| a != p && At(now, a, b, r.idx) && now[a][b].content == w;
      assert At(killed, a, b, r.idx) && killed[a][b].content == w;
    }
  }

  // ---------------------------------------------------------------------------------------
  // Stale locations

  /**
    The location of the only old record has become stale: exactly when its page was emptied and
    the new record opened it again.
   */
  ghost predicate Displaced(v: View, r: Rec)
    requires Four(v)
  {
    && Collects(v, |r.content|) && Victim(v) < PAGES && OnPage(v.logs, Victim(v), r.idx) && Completes(v, Victim(v))
    && Reopened(v, r) && OldPlace(v, r).offset > 0
  }

  /**
    When a write deletes through a stale location, and when that tears the page. A stale location
    lies inside the new record, which is then all that its page holds.
   */
  lemma StaleWhen(v: View, r: Rec)
    requires Shaped(v) && Writable(r) && AtMostOne(v.logs, r.idx)
    ensures GoesStale(v, r) <==> Displaced(v, r)
    ensures Displaced(v, r) ==> |Encode(r)| <= CONTENT_MAX
    ensures Write(v, r).torn <==> Displaced(v, r) && SpellsKey(r, OldPlace(v, r).offset)
    ensures GoesStale(v, r) ==> Write(v, r).ret == if Write(v, r).torn then 0 else -1
    ensures Write(v, r).torn ==>
      && OldPlace(v, r).page < PAGES && OldPlace(v, r).offset >= HEADER_SIZE
      && Write(v, r).view.logs[OldPlace(v, r).page] == [r]
  {
    hide Write, PageShaped, AtMostOne, OnPage, Completes, Collects, Appends, RoomFor, Updated, Fewest, Reach,
      OldPlace, Ready, OthersCollected, HoldsOnly, HoldsOld, HoldsBoth, HoldsCopies, SameMap, Victim, IsMap,
      SpellsKey, GoesStale, Encode, LiveOf;
    if !Collects(v, |r.content|) {
      PlainWrite(v, r);
    } else {
      CollectsVictim(v, |r.content|);
      if !OnPage(v.logs, Victim(v), r.idx) {
        CollectElsewhere(v, r);
      } else if Completes(v, Victim(v)) {
        CollectHere(v, r);
        if Write(v, r).torn {
          TornPage(v, r);
        }
      } else {
        MidwayMap(v, r);
      }
    }
  }

  /** The deletion goes through a stale location and clears bytes there that read as the key. */
  ghost predicate Tears(v: View, r: Rec)
    requires Four(v)
  {
    && GoesStale(v, r)
    && var g, m := Appending(v, r), OldPlace(v, r);
       && Spells(Bytes(g, m.page), m.offset, r.idx)
       && !(CountLive(g.logs[m.page]) == 1 && g.status[m.page] == FULL)
  }

  lemma TornWhen(v: View, r: Rec)
    requires Four(v)
    ensures Write(v, r).torn <==> Tears(v, r)
    ensures Tears(v, r) ==>
      && OldPlace(v, r).page < PAGES && OldPlace(v, r).offset + HEADER_SIZE + 1 < PAGE_SIZE
      && Write(v, r).view == Appending(v, r)
  {
    hide FindKey, Grown, Fits, Place, DeleteAt, Bytes, CountLive, RecordAt;
  }

  lemma TornPage(v: View, r: Rec)
    requires Shaped(v) && Writable(r) && AtMostOne(v.logs, r.idx) && Collects(v, |r.content|) && Reopened(v, r)
    requires OnPage(v.logs, Victim(v), r.idx) && Victim(v) < PAGES && Completes(v, Victim(v))
    requires OldPlace(v, r).offset > 0
    ensures OldPlace(v, r).page == Victim(v) && OldPlace(v, r).offset >= HEADER_SIZE
    ensures Write(v, r).view.logs[Victim(v)] == [r]
  {
    hide FindKey, Place, Grown, Strike, Swept, Collected, Victim, Fits, Collects, OnPage, Completes, Encode,
      AtMostOne, Emptied, Offset, SpellsKey, SameMap;
    CollectedReady(v, r);
    HereIsVictim(v, r);
    HereIsEmptied(v, r);
    var i: nat :| OldAt(v, r, Victim(v), i);
    if i > 0 {
      OffsetPositive(v.logs[Victim(v)], i);
    } else {
      OffsetEnd(v.logs[Victim(v)]);
    }
    GrownLogs(Ready(v, r).view, Victim(v), r);
    StrikeFresh(Ready(v, r).view, Victim(v), r, OldPlace(v, r));
    assert [] + [r] == [r];
  }

  // ---------------------------------------------------------------------------------------
  // Deletions case by case

  lemma AliveStrike(g: View, key: int, m: Mark)
    requires Four(g) && Alive(g, key, m) && key != 0
    ensures Strike(g, key, m) == Struck(Deleted(g, m.page, RecordAt(g.logs[m.page], m.offset)), true, false)
  {
    hide RecordAt, Deleted, CountLive, Spells, Bytes;
    var log := g.logs[m.page];
    if CountLive(log) == 0 {
      CountZero(log, RecordAt(log, m.offset));
    }
  }

  /** A deletion case by case, as the driver meets them. */
  lemma StrikeCases(v: View, key: int, m: Mark)
    requires Four(v) && m.page < PAGES && key != 0
    ensures var log, i := v.logs[m.page], RecordAt(v.logs[m.page], m.offset);
      if CountLive(log) == 0 then !Astray(v, m) && !Alive(v, key, m) && Strike(v, key, m) == Struck(v, true, false)
      else if i < |log| then
        && !Astray(v, m) && (Alive(v, key, m) <==> log[i].idx == key)
        && Strike(v, key, m) ==
           (if log[i].idx == key then Struck(Deleted(v, m.page, i), true, false) else Struck(v, false, false))
      else
        && Astray(v, m) && !Alive(v, key, m)
        && Strike(v, key, m) ==
           (if !Spells(Bytes(v, m.page), m.offset, key) then Struck(v, false, false)
            else if CountLive(log) == 1 && v.status[m.page] == FULL then Struck(Wiped(v, m.page), true, false)
            else Struck(v, true, true))
  {
    hide RecordAt, CountLive, Deleted, Spells, Bytes;
    var i := RecordAt(v.logs[m.page], m.offset);
    if CountLive(v.logs[m.page]) == 0 && i < |v.logs[m.page]| {
      CountZero(v.logs[m.page], i);
    }
  }

  /** Deleting a live record: a FULL page is erased exactly when that was its only one. */
  lemma DeletedIs(v: View, p: nat, i: nat)
    requires Four(v) && p < PAGES && i < |v.logs[p]| && v.logs[p][i].idx != 0
    ensures Deleted(v, p, i) ==
      if CountLive(v.logs[p]) == 1 && v.status[p] == FULL then Wiped(v, p) else v.(logs := Killed(v.logs, p, i))
  {
    hide CountLive;
    CountKill(v.logs[p], i);
  }

  lemma StrikeFails(g: View, key: int, m: Mark)
    requires Four(g) && m.page < PAGES
    ensures !Strike(g, key, m).ok ==> Strike(g, key, m).view == g
  {
    hide RecordAt, CountLive, Deleted, Spells, Bytes;
  }

  // ---------------------------------------------------------------------------------------
  // The logs on the way

  /** The logs that the flash goes through from the append on, if the deletion finds its record or fails. */
  ghost function Stages(g: View, key: int, m: Mark, after: Logs): set<Logs>
    requires Four(g)
  {
    if Alive(g, key, m) then {g.logs, Killed(g.logs, m.page, RecordAt(g.logs[m.page], m.offset)), after} else {g.logs}
  }

  /**
    Appending the new record and deleting one of its key loses nothing that collecting page `p`
    keeps, but for the key.
   */
  lemma StagesPreserve(before: Logs, p: nat, ready: View, q: nat, r: Rec, m: Mark)
    requires Four(ready) && q < PAGES && KeyValid(r.idx) && Preserves(before, p, ready.logs, 0, [])
    ensures var g := Grown(ready, q, r);
      && Preserves(before, p, g.logs, r.idx, r.content)
      && (Alive(g, r.idx, m) ==>
            var i := RecordAt(g.logs[m.page], m.offset);
            && Preserves(before, p, Killed(g.logs, m.page, i), r.idx, r.content)
            && Preserves(before, p, Deleted(g, m.page, i).logs, r.idx, r.content))
  {
    hide Preserves, RecordAt, EncodeAll, Encode, CountLive, StatusAfter, SameMap, OnlyKey;
    var g := Grown(ready, q, r);
    AppendPreserves(before, p, ready.logs, q, r);
    if Alive(g, r.idx, m) {
      var i := RecordAt(g.logs[m.page], m.offset);
      var killed := Killed(g.logs, m.page, i);
      KillPreserves(before, p, ready.logs, q, r, m.page, i);
      if CountLive(killed[m.page]) == 0 {
        EraseKeepsMap(killed, m.page);
        SamePreserves(before, p, killed, ErasedAt(killed, m.page), r.idx, r.content);
      }
    }
  }

  lemma StagesKeep(before: Logs, p: nat, ready: View, q: nat, r: Rec, m: Mark)
    requires Four(ready) && q < PAGES && KeyValid(r.idx) && Preserves(before, p, ready.logs, 0, []) && m.page < PAGES
    ensures var g := Grown(ready, q, r);
      forall l :: l in Stages(g, r.idx, m, Strike(g, r.idx, m).view.logs) ==> Preserves(before, p, l, r.idx, r.content)
  {
    hide Preserves, RecordAt, EncodeAll, Encode, Grown, Deleted, Spells, Bytes;
    var g := Grown(ready, q, r);
    StagesPreserve(before, p, ready, q, r, m);
    if Alive(g, r.idx, m) {
      AliveStrike(g, r.idx, m);
    }
  }

  lemma AppendPreserves(before: Logs, p: nat, ready: Logs, q: nat, r: Rec)
    requires q < |ready| && Preserves(before, p, ready, 0, [])
    ensures Preserves(before, p, Appended(ready, q, r), r.idx, r.content)
  {
    hide Kept, Holds;
    forall k, w | KeyValid(k) && Kept(before, p, k, w) ensures Holds(Appended(ready, q, r), k, w) {
      AppendHolds(ready, q, r, k, w);
    }
  }

  lemma SamePreserves(before: Logs, p: nat, now: Logs, after: Logs, k: int, v: seq<Byte>)
    requires Preserves(before, p, now, k, v) && SameMap(now, after) && KeyValid(k)
    ensures Preserves(before, p, after, k, v)
  {
    hide Kept, Holds;
  }

  lemma KillPreserves(before: Logs, p: nat, ready: Logs, q: nat, r: Rec, d: nat, i: nat)
    requires q < |ready| && d < |ready| && KeyValid(r.idx) && At(Appended(ready, q, r), d, i, r.idx)
    requires Preserves(before, p, ready, 0, [])
    ensures Preserves(before, p, Killed(Appended(ready, q, r), d, i), r.idx, r.content)
  {
    hide Kept, Holds;
    var g := Appended(ready, q, r);
    var killed := Killed(g, d, i);
    if d == q && i == |ready[q]| {
      AppendThenKill(ready, q, r);
    } else {
      NewStays(ready, q, r, d, i);
      KillOnlyKey(g, d, i, r.idx);
      AppendPreserves(before, p, ready, q, r);
      OnlyKeyOthers(g, killed, r.idx);
    }
  }

  lemma NewStays(ready: Logs, q: nat, r: Rec, d: nat, i: nat)
    requires q < |ready| && d < |ready| && r.idx != 0 && At(Appended(ready, q, r), d, i, r.idx)
    requires !(d == q && i == |ready[q]|)
    ensures Holds(Killed(Appended(ready, q, r), d, i), r.idx, r.content)
  {
    var killed := Killed(Appended(ready, q, r), d, i);
    assert At(killed, q, |ready[q]|, r.idx) && killed[q][|ready[q]|].content == r.content;
  }
}
