/**
  Garbage collection told beforehand: which page is picked, where its records go, and what is
  left of the map when it completes or stops midway.
 */
module StoreCollect {
  import opened StoreLog
  import opened StoreMap
  import opened StoreView

  // ---------------------------------------------------------------------------------------
  // Choosing pages

  /**
    `p` is the nearest page with the status, counted upwards from `from` and around; 4 if no page
    has it.
   */
  ghost predicate Nearest(status: seq<Byte>, from: nat, wanted: Byte, p: nat)
    requires |status| == PAGES
  {
    if p < 4 then
      && status[p] == wanted
      && forall q :: 0 <= q < 4 && status[q] == wanted ==> (p - from) % 4 <= (q - from) % 4
    else p == 4 && forall q :: 0 <= q < 4 ==> status[q] != wanted
  }

  /** How many pages `q` lies behind `from`, counted upwards and around. */
  function Behind(from: nat, q: int): (d: int)
    ensures 0 <= d < PAGES
  {
    (q - from) % PAGES
  }

  lemma {:induction false} NearestBeyond(status: seq<Byte>, from: nat, wanted: Byte, d: nat)
    requires |status| == PAGES && d <= PAGES
    ensures var p := FirstFrom(status, from, wanted, d);
      if p < PAGES then
        && d <= Behind(from, p)
        && forall q :: 0 <= q < PAGES && status[q] == wanted && d <= Behind(from, q) ==>
             Behind(from, p) <= Behind(from, q)
      else p == NO_PAGE && forall q :: 0 <= q < PAGES && status[q] == wanted ==> Behind(from, q) < d
    decreases PAGES - d
  {
    hide Cyclic, Behind;
    if d < PAGES {
      NearestBeyond(status, from, wanted, d + 1);
      CyclicBehind(from, d);
    }
  }

  lemma CyclicBehind(from: nat, d: nat)
    requires d < PAGES
    ensures Behind(from, Cyclic(from, d)) == d
    ensures forall q :: 0 <= q < PAGES && Behind(from, q) == d ==> q == Cyclic(from, d)
  {
  }

  /** The page found is the nearest one with the status. */
  lemma FirstIsNearest(status: seq<Byte>, from: nat, wanted: Byte)
    requires |status| == PAGES
    ensures Nearest(status, from, wanted, FirstFrom(status, from, wanted, 0))
  {
    hide FirstFrom;
    NearestBeyond(status, from, wanted, 0);
    assert forall q :: Behind(from, q) == (q - from) % 4;
  }

  lemma NoPageAtAll(status: seq<Byte>, from: nat, wanted: Byte, p: nat)
    requires |status| == PAGES && from < PAGES && p < PAGES && FirstFrom(status, from, wanted, 0) == NO_PAGE
    ensures status[p] != wanted
  {
    hide FirstFrom;
    FirstIsNearest(status, from, wanted);
  }

  /**
    `p` has the fewest live records of the FULL pages, and of those with as few it is the first,
    counted upwards from the active page and around, or from page 0 when no page is active.
   */
  ghost predicate Fewest(v: View, p: nat)
    requires Four(v)
  {
    && p < PAGES && v.status[p] == FULL
    && forall q :: 0 <= q < PAGES && v.status[q] == FULL ==>
         if v.active <= 4 && (q - v.active) % 4 < (p - v.active) % 4
         then CountLive(v.logs[p]) < CountLive(v.logs[q])
         else CountLive(v.logs[p]) <= CountLive(v.logs[q])
  }

  /** The victim among the first `d` pages is within them, beats those before it, and is as good as those after it. */
  lemma {:induction false} VictimSoFar(v: View, d: nat)
    requires Four(v) && d <= PAGES
    ensures var p, from := VictimAmong(v, d), StartOf(v);
      && (p < PAGES ==> Behind(from, p) < d)
      && forall q :: 0 <= q < PAGES && v.status[q] == FULL && Behind(from, q) < d ==>
           && p < PAGES && CountLive(v.logs[p]) <= CountLive(v.logs[q])
           && (Behind(from, q) < Behind(from, p) ==> CountLive(v.logs[p]) < CountLive(v.logs[q]))
  {
    hide Cyclic, CountLive, Behind, StartOf;
    if d > 0 {
      VictimSoFar(v, d - 1);
      CyclicBehind(StartOf(v), d - 1);
    }
  }

  /** Counting from the active page or, without one, from page 0. */
  lemma StartBehind(v: View)
    ensures v.active <= 4 ==> forall q :: 0 <= q < PAGES ==> Behind(StartOf(v), q) == (q - v.active) % 4
  {
  }

  /** The victim is the first page with the fewest live records, and there is one whenever some page is FULL. */
  lemma VictimIsFewest(v: View)
    requires Four(v) && v.active <= NO_PAGE
    ensures Victim(v) < PAGES ==> Fewest(v, Victim(v))
    ensures forall q :: 0 <= q < PAGES && v.status[q] == FULL ==> Victim(v) < PAGES
  {
    hide VictimAmong, CountLive, Behind, StartOf;
    VictimSoFar(v, PAGES);
    StartBehind(v);
  }

  /** There is only one such page. */
  lemma OneFewest(v: View, p: nat, q: nat)
    requires Four(v) && v.active <= NO_PAGE && Fewest(v, p) && Fewest(v, q)
    ensures p == q
  {
    hide CountLive;
  }

  /** With an active page and at most two erased ones, some page is FULL, so a victim is found. */
  lemma VictimExists(v: View)
    requires Shaped(v) && v.active < PAGES && ErasedCount(v.status) <= 2
    ensures Victim(v) < PAGES && Fewest(v, Victim(v)) && Victim(v) != v.active
  {
    hide VictimAmong, CountLive, EncodeAll;
    VictimIsFewest(v);
    assert PageShaped(v, 0) && PageShaped(v, 1) && PageShaped(v, 2) && PageShaped(v, 3);
  }

  // ---------------------------------------------------------------------------------------
  // Relocating the records of a page

  /** Page `p` is FULL, and the active page is another one. */
  ghost predicate Aside(v: View, p: nat) {
    && Four(v) && p < PAGES && v.active <= NO_PAGE && v.active != p && v.status[p] == FULL
    && (v.active < PAGES ==> v.status[v.active] == ACTIVE)
  }

  lemma ShapedAside(v: View, p: nat)
    requires Shaped(v) && p < PAGES && v.status[p] == FULL
    ensures Aside(v, p)
  {
    hide EncodeAll;
    assert PageShaped(v, p);
    if v.active < PAGES {
      assert PageShaped(v, v.active);
    }
  }

  /** The page a relocated record goes to. */
  function Target(v: View, r: Rec): nat
    requires Four(v)
  {
    if v.active < PAGES && Unsigned(Free(v, v.active)) < |Encode(r)| then FirstFrom(v.status, v.active, ERASED, 0)
    else v.active
  }

  /** A relocated record stays on the active page if it fits there, and else goes to the nearest erased page. */
  lemma TargetIsNearest(v: View, r: Rec)
    requires Four(v) && v.active < PAGES && v.status[v.active] == ACTIVE && |EncodeAll(v.logs[v.active])| <= 255
    ensures if |EncodeAll(v.logs[v.active])| + 4 + |r.content| <= 255 then Target(v, r) == v.active
            else Nearest(v.status, v.active, ERASED, Target(v, r))
  {
    hide EncodeAll, FirstFrom;
    FirstIsNearest(v.status, v.active, ERASED);
  }

  lemma RelocateAside(v: View, r: Rec, p: nat)
    requires Aside(v, p)
    ensures var g := Relocate(v, r);
      && Aside(g.view, p) && g.view.logs[p] == v.logs[p]
      && (g.ok ==> Target(v, r) < PAGES && Target(v, r) != p && g.view.logs == Appended(v.logs, Target(v, r), r))
      && (!g.ok ==> g.view.logs == v.logs)
  {
    hide EncodeAll, Encode, FirstFrom;
  }

  lemma {:induction false} RelocatedMoved(v: View, p: nat, n: nat)
    requires Aside(v, p) && n <= |v.logs[p]|
    ensures var c := Relocated(v, v.logs[p], n);
      Aside(c.view, p) && c.view.logs[p] == v.logs[p] && Moved(v.logs, c.view.logs, p, c.upto)
  {
    hide Relocate, Moved, Target;
    if n == 0 {
      MovedStart(v.logs, p);
    } else {
      RelocatedMoved(v, p, n - 1);
      var c, r := Relocated(v, v.logs[p], n - 1), v.logs[p][n - 1];
      if c.upto == n - 1 {
        if r.crc == 0 || r.idx == 0 {
          MovedSkip(v.logs, c.view.logs, p, n - 1);
        } else {
          RelocateAside(c.view, r, p);
          if Relocate(c.view, r).ok {
            MovedCopy(v.logs, c.view.logs, p, n - 1, Target(c.view, r));
          }
        }
      }
    }
  }

  /** A collection that stopped stays where it is. */
  lemma {:induction false} RelocatedStopped(v: View, log: seq<Rec>, k: nat, n: nat)
    requires Four(v) && k <= n <= |log| && Relocated(v, log, k).upto < k
    ensures Relocated(v, log, n) == Relocated(v, log, k)
  {
    hide Relocate;
    if k < n {
      RelocatedStopped(v, log, k, n - 1);
    }
  }

  /** The next record of a collection that has come as far as record `i`. */
  lemma RelocatedNext(v: View, p: nat, i: nat)
    requires Aside(v, p) && i < |v.logs[p]| && Relocated(v, v.logs[p], i).upto == i
    ensures var c, r, next := Relocated(v, v.logs[p], i).view, v.logs[p][i], Relocated(v, v.logs[p], i + 1);
      && c.logs[p] == v.logs[p] && c.status[p] == FULL && Preserves(v.logs, p, c.logs, 0, [])
      && if r.crc == 0 || r.idx == 0 then next == Course(c, i + 1)
         else
           var g := Relocate(c, r);
           && g.view.logs[p] == v.logs[p] && g.view.status[p] == FULL && Preserves(v.logs, p, g.view.logs, 0, [])
           && if g.ok then next == Course(g.view, i + 1) else Swept(v, p) == g.view && !Completes(v, p)
  {
    hide Relocate, Moved, Preserves, Kept, KeepsAll;
    RelocatedMoved(v, p, i);
    RelocatedMoved(v, p, i + 1);
    var c, next := Relocated(v, v.logs[p], i), Relocated(v, v.logs[p], i + 1);
    MovedKeeps(v.logs, c.view.logs, p, i);
    MovedKeeps(v.logs, next.view.logs, p, next.upto);
    KeepsPreserves(v.logs, p, c.view.logs, 0, []);
    KeepsPreserves(v.logs, p, next.view.logs, 0, []);
    if next.upto < i + 1 {
      RelocatedStopped(v, v.logs[p], i + 1, |v.logs[p]|);
    }
  }

  lemma RelocatedStart(v: View, p: nat)
    requires Four(v) && p < PAGES
    ensures Relocated(v, v.logs[p], 0) == Course(v, 0)
  {
  }

  lemma RelocatedEnd(v: View, p: nat, w: View)
    requires Four(v) && p < PAGES && Relocated(v, v.logs[p], |v.logs[p]|) == Course(w, |v.logs[p]|)
    ensures Completes(v, p) && Swept(v, p) == Wiped(w, p)
  {
  }

  // ---------------------------------------------------------------------------------------
  // The map after collection

  /** How far collecting page `p` gets. */
  function Reach(v: View, p: nat): (n: nat)
    requires Four(v) && p < PAGES
    ensures n <= |v.logs[p]|
  {
    Relocated(v, v.logs[p], |v.logs[p]|).upto
  }

  lemma CollectedKeeps(before: Logs, p: nat, now: Logs)
    ensures Collected(before, p, now) ==> KeepsAll(before, p, now) && Preserves(before, p, now, 0, [])
  {
    hide Kept, Holds, AtMostOne;
  }

  /** Every page but the collected one keeps its records, and the map loses at most zero-CRC records. */
  lemma SweptIsCollected(v: View, p: nat)
    requires Aside(v, p)
    ensures var w := Swept(v, p);
      && Collected(v.logs, p, w.logs)
      && (forall q :: 0 <= q < PAGES && q != p ==> v.logs[q] <= w.logs[q])
      && (Completes(v, p) ==>
            && w.logs[p] == [] && w.status[p] == ERASED && Emptied(v.logs, p, w.logs)
            && (forall k :: KeyValid(k) && AtMostOne(v.logs, k) ==> AtMostOne(w.logs, k)))
      && (!Completes(v, p) ==>
            && w.logs[p] == v.logs[p] && w.status[p] == FULL && SameMap(v.logs, w.logs)
            && Moved(v.logs, w.logs, p, Reach(v, p)))
      && Preserves(v.logs, p, w.logs, 0, [])
  {
    hide Relocated, Moved, Collected, KeepsAll, AtMostOne, Kept, Holds, SameMap, Preserves;
    RelocatedMoved(v, p, |v.logs[p]|);
    var c := Relocated(v, v.logs[p], |v.logs[p]|);
    MovedCollected(v.logs, c.view.logs, p, c.upto);
    MovedEvolved(v.logs, c.view.logs, p, c.upto);
    MovedHolds(v.logs, c.view.logs, p, c.upto);
    CollectedKeeps(v.logs, p, Swept(v, p).logs);
    if Completes(v, p) {
      MovedErase(v.logs, c.view.logs, p);
      ErasedCollected(v.logs, p, Swept(v, p).logs);
    }
  }

  /** Finding a page for a new record changes statuses only, apart from the collection it may run. */
  lemma PlaceLogs(v: View, len: nat)
    requires Four(v)
    ensures Place(v, len).view.logs == if Collects(v, len) then Collect(v).logs else v.logs
  {
    hide Collect, ErasedCount, FirstFrom, EncodeAll;
  }

  // ---------------------------------------------------------------------------------------
  // The page for a new record

  ghost predicate Roomy(v: View)
    requires Four(v)
  {
    forall p :: 0 <= p < PAGES ==> |EncodeAll(v.logs[p])| < CONTENT_MAX
  }

  lemma RelocateRoomy(v: View, r: Rec)
    requires Four(v) && Roomy(v)
    ensures Roomy(Relocate(v, r).view)
  {
    hide EncodeAll, Encode, FirstFrom, WithStatus;
    var next := FirstFrom(v.status, v.active, ERASED, 0);
    if v.active < PAGES {
      PutRoomy(v, r);
      if next < PAGES {
        PutRoomy(WithStatus(WithStatus(v, v.active, FULL), next, ACTIVE), r);
      }
    }
  }

  lemma PutRoomy(v: View, r: Rec)
    requires Four(v) && Roomy(v)
    ensures Roomy(Put(v, r).view)
  {
    hide EncodeAll, Encode, WithStatus;
    if Fits(v, v.active, r) {
      var log := v.logs[v.active];
      assert (log + [r])[..|log + [r]| - 1] == log;
      GrownUsed(log, r);
    }
  }

  lemma GrownUsed(log: seq<Rec>, r: Rec)
    ensures |EncodeAll(log + [r])| == |EncodeAll(log)| + |Encode(r)|
  {
    hide Encode;
    assert (log + [r])[..|log + [r]| - 1] == log;
  }

  lemma {:induction false} RelocatedRoomy(v: View, log: seq<Rec>, n: nat)
    requires Four(v) && Roomy(v) && n <= |log|
    ensures Roomy(Relocated(v, log, n).view)
  {
    hide Roomy, Relocate;
    if n > 0 {
      RelocatedRoomy(v, log, n - 1);
      RelocateRoomy(Relocated(v, log, n - 1).view, log[n - 1]);
    }
  }

  lemma CollectRoomy(v: View)
    requires Four(v) && Roomy(v)
    ensures Roomy(Collect(v))
  {
    hide Relocated, Victim;
    EmptyLog();
    if Victim(v) < PAGES {
      RelocatedRoomy(v, v.logs[Victim(v)], |v.logs[Victim(v)]|);
    }
  }

  /** The nearest erased page behind `from` is taken into use, if there is one. */
  ghost predicate Opened(v: View, from: nat, s: Spot)
    requires Four(v)
  {
    exists p: nat :: Nearest(v.status, from, ERASED, p) &&
      s == if p < PAGES then Spot(WithStatus(v, p, ACTIVE), p) else Spot(v, -1)
  }

  /**
    The page for `len` bytes: the active page, after a collection if that was called for, when it
    has room for them and a header. Else it is closed and the nearest erased page behind it is
    opened; without an active page, the first erased one of all.
   */
  ghost predicate Chosen(v: View, len: nat, s: Spot)
    requires Four(v)
  {
    var w := if Collects(v, len) then Collect(v) else v;
    if len > 244 then s == Spot(v, -1)
    else if v.active >= PAGES then Opened(v, 0, s)
    else if w.active >= PAGES then s == Spot(w, NO_PAGE)
    else if |EncodeAll(w.logs[w.active])| + 4 + len <= 255 then s == Spot(w, w.active)
    else Opened(WithStatus(w, w.active, FULL), w.active, s)
  }

  /** Collecting is called for when the active page has no room and at least two pages are in use. */
  lemma CollectsWhen(v: View, len: nat)
    requires Shaped(v)
    ensures Collects(v, len) <==>
      && len <= 244 && v.active < PAGES && |EncodeAll(v.logs[v.active])| + 4 + len > 255
      && exists p, q :: 0 <= p < q < PAGES && v.status[p] != ERASED && v.status[q] != ERASED
  {
    hide EncodeAll;
    assert PageShaped(v, 0) && PageShaped(v, 1) && PageShaped(v, 2) && PageShaped(v, 3);
    if Collects(v, len) {
      TwoInUse(v.status);
    }
  }

  lemma TwoInUse(status: seq<Byte>)
    requires |status| == PAGES && ErasedCount(status) <= 2
    ensures exists p, q :: 0 <= p < q < PAGES && status[p] != ERASED && status[q] != ERASED
  {
    if status[0] != ERASED {
      assert status[1] != ERASED || status[2] != ERASED || status[3] != ERASED;
    } else if status[1] != ERASED {
      assert status[2] != ERASED || status[3] != ERASED;
    } else {
      assert status[2] != ERASED && status[3] != ERASED;
    }
  }

  lemma PlaceIsChosen(v: View, len: nat)
    requires Shaped(v)
    ensures Chosen(v, len, Place(v, len))
  {
    hide EncodeAll, ErasedCount, Collect, OpenNext, WithStatus, Opened, PageShaped, Collects, Unsigned, Free, Roomy;
    ShapedRoomy(v);
    CollectRoomy(v);
    var w := if Collects(v, len) then Collect(v) else v;
    ActiveIs(v, len);
    if v.active >= PAGES {
      OpenIsOpened(v, 0);
    } else if w.active < PAGES {
      FreeNow(w);
      OpenIsOpened(WithStatus(w, w.active, FULL), w.active);
    } else if len <= 244 {
      NoFree(w, len);
    }
  }

  lemma FreeNow(v: View)
    requires Four(v) && Roomy(v) && v.active < PAGES && v.status[v.active] == ACTIVE
    ensures Unsigned(Free(v, v.active)) == 255 - |EncodeAll(v.logs[v.active])|
  {
    hide EncodeAll;
  }

  /** Without an active page the free space reads as -1, which is a large unsigned number. */
  lemma NoFree(v: View, len: nat)
    requires Four(v) && v.active >= PAGES && len <= 244
    ensures Unsigned(Free(v, v.active)) >= len + HEADER_SIZE
  {
  }

  lemma OpenIsOpened(v: View, from: nat)
    requires Four(v)
    ensures Opened(v, from, OpenNext(v, from))
  {
    hide FirstFrom, WithStatus;
    FirstIsNearest(v.status, from, ERASED);
  }

  lemma ShapedRoomy(v: View)
    requires Shaped(v)
    ensures Roomy(v)
  {
    hide EncodeAll;
    forall p | 0 <= p < PAGES ensures |EncodeAll(v.logs[p])| < CONTENT_MAX {
      assert PageShaped(v, p);
    }
  }

  /** After a collection the active page is still one with that status. */
  lemma ActiveIs(v: View, len: nat)
    requires Shaped(v)
    ensures var w := if Collects(v, len) then Collect(v) else v;
      w.active <= NO_PAGE && (w.active < PAGES ==> w.status[w.active] == ACTIVE)
  {
    hide EncodeAll, Relocated, Victim, ErasedCount;
    if v.active < PAGES {
      assert PageShaped(v, v.active);
    }
    if Victim(v) < PAGES {
      ShapedAside(v, Victim(v));
      RelocatedMoved(v, Victim(v), |v.logs[Victim(v)]|);
    }
  }
}
