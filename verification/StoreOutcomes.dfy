/**
  Writes as a whole: what each of them means for the map, and how many records each key has
  afterwards. A key with two records is lost at its next lookup.
 */
module StoreOutcomes {
  import opened StoreLog
  import opened StoreMap
  import opened StoreView
  import opened StoreFind
  import opened StoreCollect
  import opened StoreCounts
  import opened StoreLookup
  import opened StoreWrites

  // ---------------------------------------------------------------------------------------
  // How many records a key has afterwards

  /** The number of live records of a key once there is a page for the new one. */
  function Gathered(v: View, len: nat, k: int): int
    requires Four(v)
  {
    if Collects(v, len) && Victim(v) < PAGES then
      var log := v.logs[Victim(v)];
      LiveOf(v.logs, k) + Movers(log[..Reach(v, Victim(v))], k)
        - (if Completes(v, Victim(v)) then CountKey(log, k) else 0)
    else LiveOf(v.logs, k)
  }

  lemma GatheredIs(v: View, len: nat, k: int)
    requires Shaped(v) && k != 0
    ensures LiveOf(Place(v, len).view.logs, k) == Gathered(v, len, k)
  {
    hide Place, Collects, Victim, Swept, PageShaped, Fewest, LiveOf, Movers, CountKey, Aside, Reach, Completes;
    PlaceLogs(v, len);
    if Collects(v, len) {
      CollectsVictim(v, len);
      SweptCounts(v, Victim(v), k);
    }
  }

  /**
    A write deletes the old record of its key, if it has one, except when the collection emptied
    its page: then only the new record is there to be deleted, at the start of the page.
   */
  ghost predicate Replaces(v: View, r: Rec)
    requires Four(v)
  {
    && Appends(v, r) && Has(v.logs, r.idx)
    && (Collects(v, |r.content|) && Victim(v) < PAGES && OnPage(v.logs, Victim(v), r.idx) && Completes(v, Victim(v)) ==>
          Reopened(v, r) && OldPlace(v, r).offset == 0)
  }

  lemma AliveWhen(v: View, r: Rec)
    requires Shaped(v) && Writable(r) && AtMostOne(v.logs, r.idx) && Appends(v, r)
    ensures Alive(Appending(v, r), r.idx, OldPlace(v, r)) <==> Replaces(v, r)
  {
    hide FindKey, Place, Grown, Swept, Collected, Victim, Fits, Collects, OnPage, Completes, Encode, AtMostOne, Emptied,
      Offset, Has, Alive, Aside, Fewest, PageShaped, SameMap, Moved, Preserves;
    OneByHas(v, r);
    var ready, q := Ready(v, r).view, Ready(v, r).page;
    if !Has(v.logs, r.idx) {
      NowhereIsNotAlive(Appending(v, r), r.idx);
    } else {
      var p: nat, i: nat :| OldAt(v, r, p, i);
      assert At(v.logs, p, i, r.idx);
      if !Collects(v, |r.content|) {
        PlaceLogs(v, |r.content|);
        StillAlive(v, ready, q, r, p, i);
      } else {
        CollectedReady(v, r);
        CollectsVictim(v, |r.content|);
        SweptIsCollected(v, Victim(v));
        if OnPage(v.logs, Victim(v), r.idx) {
          HereIsVictim(v, r);
          if Completes(v, Victim(v)) {
            FreshAlive(ready, q, r, OldPlace(v, r));
          } else {
            StillAlive(v, ready, q, r, p, i);
          }
        } else {
          OffVictim(v.logs, Victim(v), p, i, r.idx);
          StillAlive(v, ready, q, r, p, i);
        }
      }
    }
  }

  lemma StillAlive(v: View, ready: View, q: nat, r: Rec, p: nat, i: nat)
    requires Four(v) && Four(ready) && q < PAGES && KeyValid(r.idx) && OldAt(v, r, p, i) && p < PAGES
    requires v.logs[p] <= ready.logs[p]
    ensures Alive(Grown(ready, q, r), r.idx, OldPlace(v, r))
  {
    hide FindKey, Grown, Offset, RecordAt, CountLive, Deleted, DeleteAt, Astray;
    GrownKeeps(ready, q, r, p);
    StillNamed(v, Grown(ready, q, r), r.idx, p, i);
    var log := Grown(ready, q, r).logs[p];
    OffsetPrefix(v.logs[p], log, i);
    RecordAtOffset(log, i);
  }

  /** On a page that was emptied only the new record is alive, if it went there, and only at the start. */
  lemma FreshAlive(ready: View, q: nat, r: Rec, m: Mark)
    requires Four(ready) && q < PAGES && m.page < PAGES && ready.logs[m.page] == []
    ensures Alive(Grown(ready, q, r), r.idx, m) <==> q == m.page && m.offset == 0
  {
    hide EncodeAll, Encode;
    EmptyLog();
    GrownLogs(ready, q, r);
    assert [] + [r] == [r];
    assert [r][..0] == [];
  }

  /**
    The number of live records of each key after a write whose lookup succeeds and whose
    deletion changes no other key.
   */
  lemma LiveFound(v: View, r: Rec, k: int)
    requires Shaped(v) && Writable(r) && KeyValid(k) && !FindKey(v, r.idx, NOTHING).failed
    requires !GoesStale(v, r) || Write(v, r).ret == -1
    ensures LiveOf(Write(v, r).view.logs, k) ==
      Gathered(FindKey(v, r.idx, NOTHING).view, |r.content|, k) +
      (if k == r.idx && Appends(v, r) && !Alive(Appending(v, r), r.idx, OldPlace(v, r)) then 1 else 0)
  {
    hide FindKey, Place, Grown, PageShaped, Fits, Gathered, LiveOf, Alive, DeleteAt, Spells, Astray;
    ShapedAfterFind(v, r.idx);
    GatheredIs(FindKey(v, r.idx, NOTHING).view, |r.content|, k);
    if Appends(v, r) {
      var g, m := Appending(v, r), OldPlace(v, r);
      GrownLogs(Ready(v, r).view, Ready(v, r).page, r);
      LiveOfAppended(Ready(v, r).view.logs, Ready(v, r).page, r, k);
      if m.page >= PAGES {
        NoPageNotAlive(g, r.idx, m);
      } else if Astray(g, m) {
        StrikeCases(g, r.idx, m);
        StrikeFails(g, r.idx, m);
      } else if k == r.idx {
        DeleteCounts(g, r.idx, m);
      } else {
        DeleteOthersCount(g, r.idx, m, k);
      }
    }
  }

  lemma NoPageNotAlive(v: View, key: int, m: Mark)
    requires Four(v) && m.page >= PAGES
    ensures !Alive(v, key, m)
  {
  }

  /** The number of live records of each key after a write that tears nothing. */
  lemma LiveAfter(v: View, r: Rec, k: int)
    requires Shaped(v) && Writable(r) && AtMostOne(v.logs, r.idx) && KeyValid(k) && !Write(v, r).torn
    ensures LiveOf(Write(v, r).view.logs, k) ==
      Gathered(v, |r.content|, k) + (if k == r.idx && Appends(v, r) && !Replaces(v, r) then 1 else 0)
  {
    hide FindKey, PageShaped, Gathered, Replaces, LiveOf, Alive, AtMostOne, Displaced, SpellsKey, Has, Write, Appends,
      GoesStale;
    OneByHas(v, r);
    StaleWhen(v, r);
    LiveFound(v, r, k);
    if Appends(v, r) {
      AliveWhen(v, r);
    }
  }

  /**
    A write of `r` leaves key `k` with two records: a record of `k` was copied, and either the
    collection did not get to erasing the page, or the new record has the key as well and was not
    itself deleted in place of the old one.
   */
  ghost predicate Doubles(v: View, r: Rec, k: int)
    requires Four(v)
  {
    && Collects(v, |r.content|) && Victim(v) < PAGES && CopiesSome(v, Victim(v), k)
    && if k == r.idx && Appends(v, r)
       then !(Completes(v, Victim(v)) && Reopened(v, r) && OldPlace(v, r).offset == 0)
       else !Completes(v, Victim(v))
  }

  /**
    Which keys have two records after a write that tears nothing: of the keys that had at most one
    before, exactly those that the write doubles, and none has more.
   */
  lemma WriteDoubles(v: View, r: Rec, k: int)
    requires Shaped(v) && Writable(r) && AtMostOne(v.logs, r.idx) && !Write(v, r).torn
    requires KeyValid(k) && AtMostOne(v.logs, k)
    ensures var after := Write(v, r).view.logs;
      && (AtMostOne(after, k) <==> !Doubles(v, r, k))
      && LiveOf(after, k) <= 2 && (Doubles(v, r, k) ==> LiveOf(after, k) == 2)
  {
    hide Write, LiveOf, AtMostOne, PageShaped, Collects, Victim, Completes, Appends, Reopened, OldPlace, Movers,
      CountKey, CopiesSome, OnPage, Has, Reach;
    LiveAfter(v, r, k);
    LiveAtMostOne(v.logs, k);
    LiveAtMostOne(Write(v, r).view.logs, k);
    SomeLive(v.logs, k);
    if Victim(v) < PAGES {
      CopiesCount(v, Victim(v), k);
    }
  }

  /** Of the keys that had at most one record, those that the write doubles have two, and the others at most one. */
  ghost predicate Doubled(v: View, r: Rec, after: Logs)
    requires Four(v)
  {
    && |after| == PAGES
    && forall k :: KeyValid(k) && AtMostOne(v.logs, k) ==>
         if Doubles(v, r, k) then LiveOf(after, k) == 2 else AtMostOne(after, k)
  }

  lemma AllDoubled(v: View, r: Rec)
    requires Shaped(v) && Writable(r) && AtMostOne(v.logs, r.idx) && !Write(v, r).torn
    ensures Doubled(v, r, Write(v, r).view.logs)
  {
    hide Write, LiveOf, AtMostOne, PageShaped, Doubles;
    forall k | KeyValid(k) && AtMostOne(v.logs, k)
      ensures if Doubles(v, r, k) then LiveOf(Write(v, r).view.logs, k) == 2 else AtMostOne(Write(v, r).view.logs, k)
    {
      WriteDoubles(v, r, k);
    }
  }

  /**
    A write whose collection stopped midway on the page of its key's record: the map, and which
    keys have two records, the written one included.
   */
  lemma CollectMidway(v: View, r: Rec)
    requires Shaped(v) && Writable(r) && AtMostOne(v.logs, r.idx) && Collects(v, |r.content|)
    requires Victim(v) < PAGES && OnPage(v.logs, Victim(v), r.idx) && !Completes(v, Victim(v))
    ensures var o, victim := Write(v, r), Victim(v);
      && !o.torn && o.ret == (if Appends(v, r) then 0 else -1)
      && (o.ret == -1 ==> SameMap(v.logs, o.view.logs))
      && (o.ret == 0 ==>
            && OthersCollected(v.logs, victim, o.view.logs, r.idx)
            && HoldsCopies(v.logs, victim, Reach(v, victim), o.view.logs, r.idx, r.content))
      && forall k :: KeyValid(k) && AtMostOne(v.logs, k) ==>
           if CopiesSome(v, victim, k) then LiveOf(o.view.logs, k) == 2 else AtMostOne(o.view.logs, k)
  {
    hide Write, LiveOf, AtMostOne, PageShaped, Collects, Victim, OnPage, Completes, Appends, Reopened, Reach,
      CopiesSome, SameMap, OthersCollected, HoldsCopies, GoesStale;
    MidwayMap(v, r);
    AllDoubled(v, r);
  }

  /** After such a write a lookup keeps a key that it had exactly if the write did not double it. */
  lemma LookupAfterWrite(v: View, r: Rec, k: int)
    requires Shaped(v) && Writable(r) && AtMostOne(v.logs, r.idx) && !Write(v, r).torn
    requires KeyValid(k) && AtMostOne(v.logs, k) && Shaped(Write(v, r).view)
    ensures var w := Write(v, r).view;
      Has(FindKey(w, k, NOTHING).view.logs, k) <==> Has(w.logs, k) && !Doubles(v, r, k)
  {
    hide Write, LiveOf, AtMostOne, PageShaped, Doubles, FindKey, Has;
    var w := Write(v, r).view;
    WriteDoubles(v, r, k);
    LiveAtMostOne(w.logs, k);
    SomeLive(w.logs, k);
    LookupKeeps(w, k, NOTHING);
  }

  // ---------------------------------------------------------------------------------------
  // All writes

  /**
    What a write of `r` that tears nothing means, told from the state before it: the map of a key
    with at most one record, and of all the other keys.
   */
  ghost predicate Meaning(v: View, r: Rec, ret: int, after: Logs)
    requires Four(v)
  {
    var victim := Victim(v);
    && Doubled(v, r, after)
    && if !Collects(v, |r.content|) then
      && ret == (if RoomFor(v, |r.content|) then 0 else -1)
      && if ret == 0 then
           Updated(v.logs, after, r.idx, r.content) && AtMostOne(after, r.idx) && (IsMap(v.logs) ==> IsMap(after))
         else after == v.logs
    else
      && Fewest(v, victim) && OthersCollected(v.logs, victim, after, r.idx)
      && (!Appends(v, r) ==> ret == -1)
      && if !OnPage(v.logs, victim, r.idx) then
           && AtMostOne(after, r.idx)
           && if Appends(v, r) then ret == 0 && HoldsOnly(after, r.idx, r.content)
              else HoldsOld(v.logs, victim, after, r.idx)
         else if !Completes(v, victim) then
           if Appends(v, r) then ret == 0 && HoldsCopies(v.logs, victim, Reach(v, victim), after, r.idx, r.content)
           else SameMap(v.logs, after)
         else if !Appends(v, r) then HoldsOld(v.logs, victim, after, r.idx)
         else if !Reopened(v, r) then ret == 0 && HoldsBoth(v.logs, victim, after, r.idx, r.content)
         else if OldPlace(v, r).offset == 0 then ret == 0 && HoldsOld(v.logs, victim, after, r.idx)
         else ret == -1 && HoldsBoth(v.logs, victim, after, r.idx, r.content)
  }

  lemma WriteMeans(v: View, r: Rec)
    requires Shaped(v) && Writable(r) && AtMostOne(v.logs, r.idx) && !Write(v, r).torn
    ensures Meaning(v, r, Write(v, r).ret, Write(v, r).view.logs)
  {
    hide Write, PageShaped, AtMostOne, OnPage, Completes, Collects, Appends, Reopened, RoomFor, Updated, Fewest,
      Reach, OldPlace, OthersCollected, HoldsOnly, HoldsOld, HoldsBoth, HoldsCopies, SameMap, Victim, IsMap,
      SpellsKey, GoesStale, Encode, Doubled;
    AllDoubled(v, r);
    if !Collects(v, |r.content|) {
      PlainWrite(v, r);
    } else {
      CollectsVictim(v, |r.content|);
      if !OnPage(v.logs, Victim(v), r.idx) {
        CollectElsewhere(v, r);
      } else if Completes(v, Victim(v)) {
        CollectHere(v, r);
        ReopenedAppends(v, r);
      } else {
        CollectMidway(v, r);
        if !Appends(v, r) {
          SameMapCollected(v.logs, Victim(v), Write(v, r).view.logs, r.idx);
        }
      }
    }
  }

  lemma ReopenedAppends(v: View, r: Rec)
    requires Four(v)
    ensures Reopened(v, r) ==> Appends(v, r)
  {
    hide Appends, Ready, Victim;
  }

  lemma SameMapCollected(before: Logs, p: nat, after: Logs, key: int)
    requires SameMap(before, after)
    ensures OthersCollected(before, p, after, key)
  {
    forall k, w | KeyValid(k) && Kept(before, p, k, w) ensures Holds(before, k, w) {
      if OffPage(before, p, k, w) {
        var q, j :| q != p && At(before, q, j, k) && before[q][j].content == w;
      } else {
        var j :| Movable(before, p, j, k) && before[p][j].content == w;
        assert At(before, p, j, k);
      }
    }
  }

  // ---------------------------------------------------------------------------------------
  // A key with several records

  /** Key `key` holds nothing but `v`, if anything. */
  ghost predicate HoldsAtMost(logs: Logs, key: int, v: seq<Byte>) {
    forall w :: Holds(logs, key, w) ==> w == v
  }

  /**
    A write of a key with several records, unless it deletes through a stale location. The lookup
    alone deletes them all, or fails; and the deletion of the old record, which is gone by then,
    may fail or even take the new one.
   */
  lemma WriteSeveral(v: View, r: Rec)
    requires Shaped(v) && Writable(r) && LiveOf(v.logs, r.idx) >= 2 && !GoesStale(v, r)
    ensures var f, o := FindKey(v, r.idx, NOTHING), Write(v, r);
      && !o.torn && OnlyKey(v.logs, f.view.logs, r.idx) && (f.failed <==> Stuck(v, r.idx))
      && (f.failed ==> o.ret == -1 && o.view == f.view && (LiveOf(v.logs, r.idx) == 2 ==> !Has(o.view.logs, r.idx)))
      && (!f.failed ==>
            && HoldsAtMost(o.view.logs, r.idx, r.content)
            && OthersCollected(f.view.logs, Picked(f.view, |r.content|), o.view.logs, r.idx)
            && HalfCopied(f.view, |r.content|, o.view.logs))
  {
    hide FindKey, Place, Grown, Strike, PageShaped, OnlyKey, LiveOf, Has, Picked, OthersCollected, HoldsAtMost,
      Collected, Fits, Updated, HoldsOnly, OthersSame, AtMostOne, FirstSeen, GoesStale, HalfCopied, Collects, Stuck;
    FoundMeans(v, r.idx, NOTHING);
    FindFails(v, r.idx, NOTHING);
    var f := FindKey(v, r.idx, NOTHING);
    if !f.failed {
      ShapedAfterFind(v, r.idx);
      var p, ready := Picked(f.view, |r.content|), Ready(v, r).view;
      PickedCollects(f.view, |r.content|);
      NothingInvented(f.view.logs, p, ready.logs, r.idx);
      SeveralHalfCopied(v, r);
      if Appends(v, r) {
        WriteNew(ready.logs, Ready(v, r).page, r);
        GrownLogs(ready, Ready(v, r).page, r);
        UpdatedMeans(ready.logs, Appending(v, r).logs, r.idx, r.content);
        NotStaleShrinks(v, r);
        OthersChain(ready.logs, Appending(v, r).logs, Write(v, r).view.logs, r.idx);
        CollectThenOthers(f.view.logs, p, ready.logs, Write(v, r).view.logs, r.idx);
      } else {
        NoneHeld(ready.logs, r.idx, r.content);
        SameOthers(ready.logs, r.idx);
        CollectThenOthers(f.view.logs, p, ready.logs, ready.logs, r.idx);
      }
    }
  }

  /** Finding a page for `len` bytes, and a write then: which of the keys with at most one record have two. */
  ghost predicate HalfCopied(u: View, len: nat, after: Logs)
    requires Four(u)
  {
    if Collects(u, len) && Victim(u) < PAGES then CopiesCounted(u, Victim(u), after, Completes(u, Victim(u)))
    else forall k :: KeyValid(k) && AtMostOne(u.logs, k) ==> AtMostOne(after, k)
  }

  lemma SeveralHalfCopied(v: View, r: Rec)
    requires Shaped(v) && Writable(r) && !GoesStale(v, r)
    requires !FindKey(v, r.idx, NOTHING).failed && !Has(FindKey(v, r.idx, NOTHING).view.logs, r.idx)
    ensures HalfCopied(FindKey(v, r.idx, NOTHING).view, |r.content|, Write(v, r).view.logs)
  {
    hide Write, FindKey, LiveOf, AtMostOne, PageShaped, Collects, Victim, Completes, Appends, Movers, CountKey,
      CopiesSome, OnPage, Has, Reach, GoesStale, Alive;
    var u, after := FindKey(v, r.idx, NOTHING).view, Write(v, r).view.logs;
    forall k | KeyValid(k) && AtMostOne(u.logs, k)
      ensures if && Collects(u, |r.content|) && Victim(u) < PAGES && !Completes(u, Victim(u))
                 && CopiesSome(u, Victim(u), k)
              then LiveOf(after, k) == 2
              else AtMostOne(after, k)
    {
      LiveFound(v, r, k);
      LiveAtMostOne(u.logs, k);
      LiveAtMostOne(after, k);
      SomeLive(u.logs, k);
      if Victim(u) < PAGES {
        CopiesCount(u, Victim(u), k);
      }
    }
  }

  lemma AppendedHalfCopied(v: View, r: Rec)
    requires Shaped(v) && Writable(r) && Appends(v, r) && !Has(FindKey(v, r.idx, NOTHING).view.logs, r.idx)
    ensures HalfCopied(FindKey(v, r.idx, NOTHING).view, |r.content|, Appending(v, r).logs)
  {
    hide FindKey, Place, Grown, LiveOf, AtMostOne, PageShaped, Collects, Victim, Completes, Movers, CountKey,
      CopiesSome, OnPage, Has, Reach, Fits;
    ShapedAfterFind(v, r.idx);
    var u, after := FindKey(v, r.idx, NOTHING).view, Appending(v, r).logs;
    GrownLogs(Ready(v, r).view, Ready(v, r).page, r);
    forall k | KeyValid(k) && AtMostOne(u.logs, k)
      ensures if && Collects(u, |r.content|) && Victim(u) < PAGES && !Completes(u, Victim(u))
                 && CopiesSome(u, Victim(u), k)
              then LiveOf(after, k) == 2
              else AtMostOne(after, k)
    {
      GatheredIs(u, |r.content|, k);
      LiveOfAppended(Ready(v, r).view.logs, Ready(v, r).page, r, k);
      LiveAtMostOne(u.logs, k);
      LiveAtMostOne(after, k);
      SomeLive(u.logs, k);
      if Victim(u) < PAGES {
        CopiesCount(u, Victim(u), k);
      }
    }
  }

  lemma ShapedAfterFind(v: View, key: int)
    requires Shaped(v)
    ensures Shaped(FindKey(v, key, NOTHING).view)
  {
    hide SearchTo, PageShaped;
    SearchShaped(v, key, NOTHING, PAGES);
  }

  /** Finding a page collects the page picked, or nothing. */
  lemma PickedCollects(v: View, len: nat)
    requires Shaped(v)
    ensures Collected(v.logs, Picked(v, len), Place(v, len).view.logs)
  {
    hide Place, Collects, Victim, Swept, Collected, PageShaped, Fewest, Aside;
    PlaceLogs(v, len);
    if Collects(v, len) {
      CollectsVictim(v, len);
      SweptIsCollected(v, Victim(v));
    } else {
      NothingCollected(v.logs);
    }
  }

  lemma NothingCollected(logs: Logs)
    requires |logs| == PAGES
    ensures Collected(logs, NO_PAGE, logs)
  {
    hide AtMostOne;
  }

  lemma NoneHeld(logs: Logs, key: int, v: seq<Byte>)
    requires !Has(logs, key)
    ensures HoldsAtMost(logs, key, v)
  {
  }

  /** A deletion through a location that is not stale takes at most a record of the key. */
  lemma NotStaleShrinks(v: View, r: Rec)
    requires Four(v) && Writable(r) && Appends(v, r) && !GoesStale(v, r)
    requires HoldsOnly(Appending(v, r).logs, r.idx, r.content)
    ensures !Write(v, r).torn && OthersSame(Appending(v, r).logs, Write(v, r).view.logs, r.idx)
    ensures HoldsAtMost(Write(v, r).view.logs, r.idx, r.content)
  {
    hide FindKey, Grown, Fits, Place, Astray, OthersSame, DeleteAt, Holds, OnlyKey;
    var g, m := Appending(v, r), OldPlace(v, r);
    SameOthers(g.logs, r.idx);
    if m.page < PAGES {
      DeleteOnlyKey(g, r.idx, m);
      OnlyKeyOthers(g.logs, DeleteAt(g, r.idx, m).view.logs, r.idx);
      DeleteShrinks(g, r.idx, m);
    }
  }

  lemma DeleteShrinks(v: View, key: int, m: Mark)
    requires Four(v) && KeyValid(key)
    ensures forall w :: Holds(DeleteAt(v, key, m).view.logs, key, w) ==> Holds(v.logs, key, w)
  {
    hide RecordAt, CountLive;
    if m.page < PAGES && CountLive(v.logs[m.page]) != 0 {
      var i := RecordAt(v.logs[m.page], m.offset);
      if i < |v.logs[m.page]| && v.logs[m.page][i].idx == key {
        var killed := Killed(v.logs, m.page, i);
        forall w | Holds(killed, key, w) ensures Holds(v.logs, key, w) {
          KillHolds(v.logs, m.page, i, key, w);
        }
        if CountLive(killed[m.page]) == 0 {
          EraseKeepsMap(killed, m.page);
        }
      }
    }
  }

  /**
    A write of a key with several records whose deletion goes through a stale location. With the
    new record appended the key holds just that. The deletion then fails, or takes the only live
    record of the location's page along with the page, or tears the page.
   */
  lemma StaleSeveral(v: View, r: Rec)
    requires Shaped(v) && Writable(r) && LiveOf(v.logs, r.idx) >= 2 && GoesStale(v, r)
    ensures var u, g, m, o := FindKey(v, r.idx, NOTHING).view, Appending(v, r), OldPlace(v, r), Write(v, r);
      && HoldsOnly(g.logs, r.idx, r.content)
      && OthersCollected(u.logs, Picked(u, |r.content|), g.logs, r.idx)
      && HalfCopied(u, |r.content|, g.logs)
      && m.page < PAGES
      && if !Spells(Bytes(g, m.page), m.offset, r.idx) then o == Outcome(g, -1, false)
         else if Tears(v, r) then o == Outcome(g, 0, true)
         else
           && o == Outcome(Wiped(g, m.page), 0, false) && CountLive(g.logs[m.page]) == 1
           && forall k, w :: KeyValid(k) ==> (Holds(o.view.logs, k, w) <==> OffPage(g.logs, m.page, k, w))
  {
    hide Place, Grown, PageShaped, LiveOf, Has, Picked, OthersCollected, Collected, Fits, Updated, HoldsOnly,
      OthersSame, AtMostOne, FirstSeen, FindKey, Spells, Bytes, CountLive, Holds, OffPage, HalfCopied;
    FoundMeans(v, r.idx, NOTHING);
    ShapedAfterFind(v, r.idx);
    AppendedHalfCopied(v, r);
    var u, ready, g, m := FindKey(v, r.idx, NOTHING).view, Ready(v, r).view, Appending(v, r), OldPlace(v, r);
    PickedCollects(u, |r.content|);
    NothingInvented(u.logs, Picked(u, |r.content|), ready.logs, r.idx);
    WriteNew(ready.logs, Ready(v, r).page, r);
    GrownLogs(ready, Ready(v, r).page, r);
    UpdatedMeans(ready.logs, g.logs, r.idx, r.content);
    CollectThenOthers(u.logs, Picked(u, |r.content|), ready.logs, g.logs, r.idx);
    WipedHolds(g.logs, m.page);
  }

  lemma WipedHolds(logs: Logs, p: nat)
    requires p < |logs|
    ensures forall k, w :: Holds(ErasedAt(logs, p), k, w) <==> OffPage(logs, p, k, w)
  {
    var after := ErasedAt(logs, p);
    forall k, w ensures Holds(after, k, w) <==> OffPage(logs, p, k, w) {
      if OffPage(logs, p, k, w) {
        var q, j :| q != p && At(logs, q, j, k) && logs[q][j].content == w;
        assert At(after, q, j, k);
      }
      if Holds(after, k, w) {
        var q, j :| At(after, q, j, k) && after[q][j].content == w;
        assert q != p && At(logs, q, j, k);
      }
    }
  }
}
