/**
  When looking up a key with several records fails, and what is left of the key.
 */
module StoreLookup {
  import opened StoreLog
  import opened StoreMap
  import opened StoreView
  import opened StoreFind
  import opened StoreCounts

  /** The live records of other keys on a page. */
  function Others(v: View, p: nat, key: int): int
    requires Four(v) && p < PAGES
  {
    CountLive(v.logs[p]) - CountKey(v.logs[p], key)
  }

  ghost predicate OthersKept(v: View, w: View, key: int)
    requires Four(v) && Four(w)
  {
    forall p :: 0 <= p < PAGES ==> Others(w, p, key) == Others(v, p, key)
  }

  lemma DeleteKeepsOthers(v: View, key: int, m: Mark)
    requires Four(v) && key != 0
    ensures OthersKept(v, DeleteAt(v, key, m).view, key)
  {
    hide RecordAt, CountLive, CountKey;
    if m.page < PAGES {
      var log, j := v.logs[m.page], RecordAt(v.logs[m.page], m.offset);
      if j < |log| && log[j].idx == key {
        CountKeyKill(log, key, j);
        CountKill(log, j);
        CountKeyLive(log[j := Dead(log[j])], key);
        NothingThere(key);
      }
    }
  }

  lemma NothingThere(key: int)
    ensures CountLive([]) == 0 && CountKey([], key) == 0
  {
  }

  lemma {:induction false} ScanKeepsOthers(s: Scan, key: int, p: nat, n: nat, wanted: bool)
    requires Four(s.view) && p < PAGES && key != 0
    ensures OthersKept(s.view, ScanTo(s, key, p, n, wanted).view, key)
  {
    hide DeleteAt, Offset, Others;
    if n > 0 {
      ScanKeepsOthers(s, key, p, n - 1, wanted);
      var t := ScanTo(s, key, p, n - 1, wanted);
      DeleteKeepsOthers(t.view, key, t.last);
    }
  }

  // ---------------------------------------------------------------------------------------
  // Failing

  /** The deletion of the match seen last fails. */
  predicate Refused(v: View, key: int, m: Mark)
    requires Four(v)
  {
    m.page < PAGES && !DeleteAt(v, key, m).ok
  }

  /** A scan fails exactly at its first match, if the match seen before cannot be deleted. */
  lemma {:induction false} ScanFails(s: Scan, key: int, p: nat, n: nat, wanted: bool)
    requires Four(s.view) && p < PAGES && n <= |s.view.logs[p]| && KeyValid(key)
    requires !s.failed && Good(s.view, s.last) && s.last.page != p
    ensures ScanTo(s, key, p, n, wanted).failed <==>
      CountKey(s.view.logs[p][..n], key) > 0 && Refused(s.view, key, s.last)
  {
    hide DeleteAt, OnlyKey, RecordAt, Offset, Good, CountKey, Alive, LiveOf;
    if n == 0 {
      EmptyCount(key);
    } else {
      ScanFails(s, key, p, n - 1, wanted);
      ScanCounts(s, key, p, n - 1, wanted);
      ScanIsCalm(s, key, p, n - 1, wanted);
      NextCount(s.view.logs[p], key, n - 1);
      var t := ScanTo(s, key, p, n - 1, wanted);
      if !t.failed && At(t.view.logs, p, n - 1, key) && t.last.page < PAGES {
        DeleteCounts(t.view, key, t.last);
      }
    }
  }

  /** A location without a live record of the key is refused exactly if its page has some live record. */
  lemma RefusedWhen(v: View, key: int, m: Mark)
    requires Four(v) && key != 0 && m.page < PAGES
    ensures Alive(v, key, m) ==> !Refused(v, key, m)
    ensures CountKey(v.logs[m.page], key) == 0 ==> (Refused(v, key, m) <==> Others(v, m.page, key) > 0)
  {
    hide RecordAt, CountLive, CountKey;
    var log, j := v.logs[m.page], RecordAt(v.logs[m.page], m.offset);
    CountKeyZero(log, key);
    if j < |log| && CountLive(log) == 0 {
      CountZero(log, j);
    }
  }

  /** The step of the search, below `n`, at which the last page with a record of the key was visited. */
  function LastMet(v: View, key: int, n: nat): (d: int)
    requires Four(v)
    ensures -1 <= d < n
  {
    if n == 0 then -1
    else if CountKey(v.logs[Back(StartOf(v), n - 1)], key) > 0 then n - 1
    else LastMet(v, key, n - 1)
  }

  /**
    At step `e` of the search two matches are behind, so the match seen last was deleted, and
    deleting it again fails: there is a page to visit, and the page of that match has live records.
   */
  predicate StuckAt(v: View, key: int, e: nat)
    requires Four(v)
  {
    && e < PAGES && v.status[Back(StartOf(v), e)] != ERASED && Met(v, key, e) >= 2
    && LastMet(v, key, e) >= 0 && Others(v, Back(StartOf(v), LastMet(v, key, e)), key) > 0
  }

  ghost predicate StuckBefore(v: View, key: int, d: nat)
    requires Four(v)
  {
    exists e: nat :: e < d && StuckAt(v, key, e)
  }

  /** The live records of the key on page `q`, if the search comes to that page no later than to page `p`. */
  function MetOn(v: View, key: int, q: nat, p: nat): nat
    requires Four(v) && q < PAGES
  {
    if (v.active - q) % 4 <= (v.active - p) % 4 then CountKey(v.logs[q], key) else 0
  }

  /**
    Looking the key up fails, told by the distances of pages from the active one, downwards and
    around: page `p` has records of the key and live records of others, the search has met two or
    more matches when it is done with it, no page between has records of the key, and page `q` is
    in use.
   */
  ghost predicate StuckBetween(v: View, key: int, p: nat, q: nat)
    requires Four(v) && p < PAGES && q < PAGES
  {
    && (v.active - p) % 4 < (v.active - q) % 4 && v.status[q] != ERASED
    && CountKey(v.logs[p], key) > 0 && Others(v, p, key) > 0
    && MetOn(v, key, 0, p) + MetOn(v, key, 1, p) + MetOn(v, key, 2, p) + MetOn(v, key, 3, p) >= 2
    && forall r :: 0 <= r < PAGES && (v.active - p) % 4 < (v.active - r) % 4 < (v.active - q) % 4 ==>
         CountKey(v.logs[r], key) == 0
  }

  ghost predicate Stuck(v: View, key: int)
    requires Four(v)
  {
    exists p: nat, q: nat :: p < PAGES && q < PAGES && StuckBetween(v, key, p, q)
  }

  // ---------------------------------------------------------------------------------------
  // The same, told by the steps of the search

  /** The live records of the key on page `q`, if that is among the first `d` pages. */
  function MetWithin(v: View, key: int, q: nat, d: nat): nat
    requires Four(v) && q < PAGES
  {
    if Ago(StartOf(v), q) < d then CountKey(v.logs[q], key) else 0
  }

  function AllWithin(v: View, key: int, d: nat): nat
    requires Four(v)
  {
    MetWithin(v, key, 0, d) + MetWithin(v, key, 1, d) + MetWithin(v, key, 2, d) + MetWithin(v, key, 3, d)
  }

  lemma {:induction false} MetIsWithin(v: View, key: int, d: nat)
    requires Four(v) && d <= PAGES
    ensures Met(v, key, d) == AllWithin(v, key, d)
  {
    hide CountKey, Back, Ago, StartOf;
    if d > 0 {
      MetIsWithin(v, key, d - 1);
      BackAgo(StartOf(v), d - 1);
      WithinNext(v, key, 0, d - 1);
      WithinNext(v, key, 1, d - 1);
      WithinNext(v, key, 2, d - 1);
      WithinNext(v, key, 3, d - 1);
    }
  }

  lemma WithinNext(v: View, key: int, q: nat, d: nat)
    requires Four(v) && q < PAGES && d < PAGES
    ensures MetWithin(v, key, q, d + 1) ==
      MetWithin(v, key, q, d) + (if q == Back(StartOf(v), d) then CountKey(v.logs[q], key) else 0)
  {
    hide CountKey, Back, Ago, StartOf;
    BackAgo(StartOf(v), d);
  }

  lemma {:induction false} LastMetIs(v: View, key: int, e: nat)
    requires Four(v)
    ensures var m := LastMet(v, key, e);
      && (m < 0 ==> Met(v, key, e) == 0)
      && (m >= 0 ==> CountKey(v.logs[Back(StartOf(v), m)], key) > 0 && Met(v, key, e) == Met(v, key, m + 1))
      && forall d: nat :: m < d < e ==> CountKey(v.logs[Back(StartOf(v), d)], key) == 0
  {
    hide CountKey, Back, StartOf;
    if e > 0 {
      LastMetIs(v, key, e - 1);
    }
  }

  ghost predicate StuckApart(v: View, key: int, p: nat, q: nat)
    requires Four(v) && p < PAGES && q < PAGES
  {
    var from := StartOf(v);
    && Ago(from, p) < Ago(from, q) && v.status[q] != ERASED
    && CountKey(v.logs[p], key) > 0 && Others(v, p, key) > 0 && AllWithin(v, key, Ago(from, p) + 1) >= 2
    && forall r :: 0 <= r < PAGES && Ago(from, p) < Ago(from, r) < Ago(from, q) ==> CountKey(v.logs[r], key) == 0
  }

  lemma ApartIsBetween(v: View, key: int, p: nat, q: nat)
    requires Four(v) && v.active <= NO_PAGE && p < PAGES && q < PAGES
    ensures StuckApart(v, key, p, q) <==> StuckBetween(v, key, p, q)
  {
    hide CountKey, Ago, StartOf, Others, MetOn, MetWithin;
    StartAgo(v);
    OnIsWithin(v, key, 0, p);
    OnIsWithin(v, key, 1, p);
    OnIsWithin(v, key, 2, p);
    OnIsWithin(v, key, 3, p);
  }

  lemma OnIsWithin(v: View, key: int, q: nat, p: nat)
    requires Four(v) && v.active <= NO_PAGE && p < PAGES && q < PAGES
    ensures MetOn(v, key, q, p) == MetWithin(v, key, q, Ago(StartOf(v), p) + 1)
  {
    hide CountKey, Ago, StartOf;
    StartAgo(v);
  }

  lemma StepStuck(v: View, key: int, e: nat)
    requires Four(v) && StuckAt(v, key, e)
    ensures exists p: nat, q: nat :: p < PAGES && q < PAGES && StuckApart(v, key, p, q)
  {
    hide CountKey, Back, Ago, StartOf, Others, Met, LastMet, AllWithin;
    LastMetIs(v, key, e);
    var from, m: nat := StartOf(v), LastMet(v, key, e);
    var p, q := Back(from, m), Back(from, e);
    BackAgo(from, m);
    BackAgo(from, e);
    MetIsWithin(v, key, m + 1);
    forall r | 0 <= r < PAGES && Ago(from, p) < Ago(from, r) < Ago(from, q) ensures CountKey(v.logs[r], key) == 0 {
      BackAgo(from, Ago(from, r));
    }
    assert StuckApart(v, key, p, q);
  }

  lemma StuckSteps(v: View, key: int, p: nat, q: nat)
    requires Four(v) && p < PAGES && q < PAGES && StuckApart(v, key, p, q)
    ensures StuckAt(v, key, Ago(StartOf(v), q))
  {
    hide CountKey, Back, Ago, StartOf, Others, Met, LastMet, AllWithin;
    var from := StartOf(v);
    var m, e := Ago(from, p), Ago(from, q);
    BackAgo(from, m);
    BackAgo(from, e);
    LastMetIs(v, key, e);
    MetIsWithin(v, key, m + 1);
    if LastMet(v, key, e) > m {
      BackAgo(from, LastMet(v, key, e));
    }
  }

  lemma StuckEither(v: View, key: int)
    requires Four(v) && v.active <= NO_PAGE
    ensures Stuck(v, key) <==> StuckBefore(v, key, PAGES)
  {
    hide StuckAt, StuckBetween, StuckApart, Ago;
    if Stuck(v, key) {
      var p: nat, q: nat :| p < PAGES && q < PAGES && StuckBetween(v, key, p, q);
      ApartIsBetween(v, key, p, q);
      StuckSteps(v, key, p, q);
    }
    if StuckBefore(v, key, PAGES) {
      var e: nat :| e < PAGES && StuckAt(v, key, e);
      StepStuck(v, key, e);
      var p: nat, q: nat :| p < PAGES && q < PAGES && StuckApart(v, key, p, q);
      ApartIsBetween(v, key, p, q);
    }
  }

  /** Where the search stands: the match seen last is on the last page with one, and dead once there are two. */
  ghost predicate Tracked(v: View, s: Search, key: int, d: nat)
    requires Four(v) && Four(s.view)
  {
    && OthersKept(v, s.view, key)
    && (s.cnt == 0 ==> s.last == NOWHERE)
    && (s.cnt > 0 ==> LastMet(v, key, d) >= 0 && s.last.page == Back(StartOf(v), LastMet(v, key, d)))
    && (s.cnt >= 2 ==> CountKey(s.view.logs[s.last.page], key) == 0)
  }

  lemma VisitTracked(v: View, s: Search, key: int, d: nat)
    requires Shaped(v) && Four(s.view) && KeyValid(key) && d < PAGES && !s.failed
    requires SearchCounted(v, s, key, d) && Good(s.view, s.last) && Passed(StartOf(v), d, s.last)
    requires Tracked(v, s, key, d)
    ensures var t := Visit(s, key, Back(StartOf(v), d));
      (t.failed <==> StuckAt(v, key, d)) && (!t.failed ==> Tracked(v, t, key, d + 1))
  {
    hide ScanTo, DeleteAt, CountKey, LiveOf, Alive, Anchored, Passed, Back, OtherPages, Ahead, Met, Others;
    var p := Back(StartOf(v), d);
    AheadHere(v, s.view, d);
    NotPassedHere(v, s.last, d);
    LastNext(v, key, d);
    if s.last.page < PAGES {
      RefusedWhen(s.view, key, s.last);
    }
    if v.status[p] == ERASED {
      assert PageShaped(v, p);
      EmptyCount(key);
    } else {
      var start := Scan(s.view, 0, false, s.result, s.last);
      var n := |s.view.logs[p]|;
      assert s.view.logs[p][..n] == s.view.logs[p];
      ScanFails(start, key, p, n, s.cnt == 0);
      ScanCounts(start, key, p, n, s.cnt == 0);
      ScanKeepsOthers(start, key, p, n, s.cnt == 0);
      var t := ScanTo(start, key, p, n, s.cnt == 0);
      if t.last.page < PAGES {
        DeleteCounts(t.view, key, t.last);
        DeleteKeepsOthers(t.view, key, t.last);
        RefusedWhen(t.view, key, t.last);
      }
    }
  }

  lemma LastNext(v: View, key: int, d: nat)
    requires Four(v)
    ensures LastMet(v, key, d + 1) == if CountKey(v.logs[Back(StartOf(v), d)], key) > 0 then d else LastMet(v, key, d)
    ensures Met(v, key, d + 1) == Met(v, key, d) + CountKey(v.logs[Back(StartOf(v), d)], key)
  {
    hide CountKey, Back;
  }

  lemma {:induction false} SearchTracked(v: View, key: int, item: Rec, d: nat)
    requires Shaped(v) && KeyValid(key) && d <= PAGES
    ensures var s := SearchTo(v, key, item, d);
      (s.failed <==> StuckBefore(v, key, d)) && (!s.failed ==> Tracked(v, s, key, d))
  {
    hide Visit, CountKey, LiveOf, Alive, Anchored, Passed, Back, StuckAt, Others, PageShaped;
    if d > 0 {
      SearchTracked(v, key, item, d - 1);
      SearchIsCalm(v, key, item, d - 1);
      SearchCounts(v, key, item, d - 1);
      StuckNext(v, key, d - 1);
      var s := SearchTo(v, key, item, d - 1);
      if !s.failed {
        VisitTracked(v, s, key, d - 1);
      }
    }
  }

  lemma StuckNext(v: View, key: int, d: nat)
    requires Four(v)
    ensures StuckBefore(v, key, d + 1) <==> StuckBefore(v, key, d) || StuckAt(v, key, d)
  {
    hide StuckAt;
    if StuckBefore(v, key, d) {
      var e: nat :| e < d && StuckAt(v, key, e);
      assert e < d + 1;
    }
  }

  /** A lookup fails exactly when it gets stuck. */
  lemma FindFails(v: View, key: int, item: Rec)
    requires Shaped(v) && KeyValid(key)
    ensures FindKey(v, key, item).failed <==> Stuck(v, key)
  {
    hide SearchTo, StuckBefore, Stuck, PageShaped;
    SearchTracked(v, key, item, PAGES);
    StuckEither(v, key);
  }

  /**
    Of a key with at most two records, a lookup keeps the record exactly if there is just one, and
    two are both lost.
   */
  lemma LookupKeeps(v: View, key: int, item: Rec)
    requires Shaped(v) && KeyValid(key) && LiveOf(v.logs, key) <= 2
    ensures Has(FindKey(v, key, item).view.logs, key) <==> LiveOf(v.logs, key) == 1
  {
    hide FindKey, LiveOf, AtMostOne, Has, PageShaped, FirstSeen;
    LiveAtMostOne(v.logs, key);
    SomeLive(v.logs, key);
    if LiveOf(v.logs, key) == 2 {
      FindSeveral(v, key, item);
    } else {
      FindOne(v, key, item);
    }
  }
}
