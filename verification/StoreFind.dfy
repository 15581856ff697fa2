/**
  Looking a key up: what a search finds and what it does to the records of a key that it meets
  more than once.
 */
module StoreFind {
  import opened StoreLog
  import opened StoreMap
  import opened StoreView

  // ---------------------------------------------------------------------------------------
  // Offsets name records

  lemma {:induction false} OffsetGrows(log: seq<Rec>, i: nat, j: nat)
    requires i < j <= |log|
    ensures Offset(log, i) < Offset(log, j)
  {
    hide EncodeAll;
    EncodeSplit(log, j - 1);
    if i < j - 1 {
      OffsetGrows(log, i, j - 1);
    }
  }

  lemma {:induction false} RecordAtOffset(log: seq<Rec>, i: nat)
    requires i < |log|
    ensures RecordAt(log, Offset(log, i)) == i
  {
    hide EncodeAll;
    var n := |log| - 1;
    if i < n {
      OffsetGrows(log, i, n);
      assert log[..n][..i] == log[..i];
      RecordAtOffset(log[..n], i);
    }
  }

  lemma {:induction false} RecordAtFound(log: seq<Rec>, offset: nat)
    requires RecordAt(log, offset) < |log|
    ensures Offset(log, RecordAt(log, offset)) == offset
  {
    hide EncodeAll;
    var n := |log| - 1;
    if |EncodeAll(log[..n])| != offset {
      RecordAtFound(log[..n], offset);
      var j := RecordAt(log[..n], offset);
      assert log[..n][..j] == log[..j];
    }
  }

  /** A record keeps its place when another one, or itself, becomes a tombstone. */
  lemma RecordAtKilled(log: seq<Rec>, i: nat, offset: nat)
    requires i < |log| && RecordAt(log, offset) < |log|
    ensures RecordAt(log[i := Dead(log[i])], offset) == RecordAt(log, offset)
  {
    hide EncodeAll, Offset;
    var j := RecordAt(log, offset);
    RecordAtFound(log, offset);
    OffsetKilled(log, i, j);
    RecordAtOffset(log[i := Dead(log[i])], j);
  }

  // ---------------------------------------------------------------------------------------
  // Deleting through a good location

  /** A record starts at the location, or the page is empty. */
  predicate Anchored(v: View, m: Mark)
    requires Four(v)
  {
    m.page < PAGES && (v.logs[m.page] == [] || RecordAt(v.logs[m.page], m.offset) < |v.logs[m.page]|)
  }

  predicate Good(v: View, m: Mark)
    requires Four(v)
  {
    m == NOWHERE || Anchored(v, m)
  }

  lemma AnchoredIsNotAstray(v: View, m: Mark)
    requires Four(v) && Anchored(v, m)
    ensures !Astray(v, m)
  {
  }

  lemma DeleteAnchored(v: View, key: int, m: Mark, o: Mark)
    requires Four(v) && Anchored(v, o)
    ensures Anchored(DeleteAt(v, key, m).view, o)
  {
    hide RecordAt, CountLive;
    if m.page < PAGES && m.page == o.page && v.logs[o.page] != [] {
      var j := RecordAt(v.logs[m.page], m.offset);
      if j < |v.logs[m.page]| {
        RecordAtKilled(v.logs[m.page], j, o.offset);
      }
    }
  }

  lemma DeleteOnlyKey(v: View, key: int, m: Mark)
    requires Four(v) && KeyValid(key)
    ensures OnlyKey(v.logs, DeleteAt(v, key, m).view.logs, key)
  {
    hide RecordAt, CountLive, OnlyKey;
    OnlyKeyReflexive(v.logs, key);
    if m.page < PAGES {
      var j := RecordAt(v.logs[m.page], m.offset);
      if j < |v.logs[m.page]| && v.logs[m.page][j].idx == key {
        KillThenErase(v, m.page, j, key);
      }
    }
  }

  lemma KillThenErase(v: View, p: nat, j: nat, key: int)
    requires Four(v) && p < PAGES && At(v.logs, p, j, key) && KeyValid(key)
    ensures OnlyKey(v.logs, Deleted(v, p, j).logs, key)
  {
    hide CountLive;
    KillOnlyKey(v.logs, p, j, key);
    var next := Killed(v.logs, p, j);
    if CountLive(next[p]) == 0 {
      EraseKeepsMap(next, p);
    }
  }

  /** Deleting elsewhere leaves a live record and its page's layout alone. */
  lemma DeleteKeeps(v: View, key: int, m: Mark, p: nat, i: nat)
    requires Four(v) && p < PAGES && At(v.logs, p, i, key) && key != 0
    requires m.page == p ==> RecordAt(v.logs[p], m.offset) != i
    ensures var w := DeleteAt(v, key, m).view;
      && |w.logs[p]| == |v.logs[p]| && w.status[p] == v.status[p]
      && (m.page != p ==> w.logs[p] == v.logs[p])
      && (forall n: nat :: n <= |v.logs[p]| ==> Offset(w.logs[p], n) == Offset(v.logs[p], n))
      && (forall n: nat :: n < |v.logs[p]| && n != RecordAt(v.logs[p], m.offset) ==> w.logs[p][n] == v.logs[p][n])
  {
    hide RecordAt, CountLive, Offset;
    if m.page == p {
      var log := v.logs[p];
      var j := RecordAt(log, m.offset);
      if j < |log| {
        var killed := log[j := Dead(log[j])];
        if CountLive(killed) == 0 {
          CountZero(killed, i);
        }
        forall n: nat | n <= |log| ensures Offset(killed, n) == Offset(log, n) {
          OffsetKilled(log, j, n);
        }
      }
    }
  }

  // ---------------------------------------------------------------------------------------
  // Scanning one page

  /** A scan that failed stays as it is. */
  lemma {:induction false} ScanStopped(s: Scan, key: int, p: nat, k: nat, n: nat, wanted: bool)
    requires Four(s.view) && p < PAGES && k <= n && ScanTo(s, key, p, k, wanted).failed
    ensures ScanTo(s, key, p, n, wanted) == ScanTo(s, key, p, k, wanted)
  {
    hide Meet;
    if k < n {
      ScanStopped(s, key, p, k, n - 1, wanted);
    }
  }

  /** What the first `n` steps of a scan leave alone. */
  ghost predicate ScanKeeps(s: Scan, t: Scan, key: int, p: nat, n: nat)
    requires Four(s.view) && Four(t.view) && p < PAGES
  {
    && |t.view.logs[p]| == |s.view.logs[p]|
    && t.view.status[p] == s.view.status[p]
    && (forall k: nat :: k <= |s.view.logs[p]| ==> Offset(t.view.logs[p], k) == Offset(s.view.logs[p], k))
    && (forall k: nat :: n <= k < |s.view.logs[p]| ==> t.view.logs[p][k] == s.view.logs[p][k])
    && Good(t.view, t.last)
    && (t.last == s.last || (t.last.page == p && RecordAt(t.view.logs[p], t.last.offset) < n))
    && OnlyKey(s.view.logs, t.view.logs, key)
  }

  lemma {:induction false} ScanIsCalm(s: Scan, key: int, p: nat, n: nat, wanted: bool)
    requires Four(s.view) && p < PAGES && n <= |s.view.logs[p]| && KeyValid(key)
    requires !s.failed && Good(s.view, s.last) && s.last.page != p
    ensures ScanKeeps(s, ScanTo(s, key, p, n, wanted), key, p, n)
  {
    hide Meet, OnlyKey, RecordAt, Offset, Good;
    if n == 0 {
      OnlyKeyReflexive(s.view.logs, key);
    } else {
      ScanIsCalm(s, key, p, n - 1, wanted);
      var t := ScanTo(s, key, p, n - 1, wanted);
      if !t.failed && At(t.view.logs, p, n - 1, key) {
        MeetKeeps(t, key, p, n - 1, wanted);
        OnlyKeyTransitive(s.view.logs, t.view.logs, Meet(t, key, p, n - 1, wanted).view.logs, key);
      }
    }
  }

  lemma MeetKeeps(t: Scan, key: int, p: nat, i: nat, wanted: bool)
    requires Four(t.view) && p < PAGES && At(t.view.logs, p, i, key) && KeyValid(key) && Good(t.view, t.last)
    requires t.last.page == p ==> RecordAt(t.view.logs[p], t.last.offset) < i
    ensures var u := Meet(t, key, p, i, wanted);
      && |u.view.logs[p]| == |t.view.logs[p]|
      && u.view.status[p] == t.view.status[p]
      && (forall k: nat :: k <= |t.view.logs[p]| ==> Offset(u.view.logs[p], k) == Offset(t.view.logs[p], k))
      && (forall k: nat :: i <= k < |t.view.logs[p]| ==> u.view.logs[p][k] == t.view.logs[p][k])
      && Good(u.view, u.last)
      && (if u.failed then u.view == t.view && u.last == t.last
          else u.last.page == p && RecordAt(u.view.logs[p], u.last.offset) == i)
      && OnlyKey(t.view.logs, u.view.logs, key)
  {
    hide OnlyKey, RecordAt, Offset, DeleteAt;
    OnlyKeyReflexive(t.view.logs, key);
    RecordAtOffset(t.view.logs[p], i);
    if t.last.page < PAGES {
      DeleteKeeps(t.view, key, t.last, p, i);
      DeleteOnlyKey(t.view, key, t.last);
      DeleteAnchored(t.view, key, t.last, t.last);
      var w := DeleteAt(t.view, key, t.last).view;
      RecordAtOffset(w.logs[p], i);
    }
  }

  lemma ScanStarts(s: Scan, key: int, p: nat, wanted: bool)
    requires Four(s.view) && p < PAGES
    ensures ScanTo(s, key, p, 0, wanted) == s
  {
  }

  /** One step of a scan that has not failed: what it does, and that the page's layout stays. */
  lemma ScanStep(s: Scan, key: int, p: nat, i: nat, wanted: bool)
    requires Four(s.view) && p < PAGES && i < |s.view.logs[p]| && KeyValid(key)
    requires !s.failed && Good(s.view, s.last) && s.last.page != p && !ScanTo(s, key, p, i, wanted).failed
    ensures var t, u := ScanTo(s, key, p, i, wanted), ScanTo(s, key, p, i + 1, wanted);
      && |t.view.logs[p]| == |u.view.logs[p]| == |s.view.logs[p]| && Good(t.view, t.last)
      && Offset(u.view.logs[p], i + 1) == Offset(t.view.logs[p], i + 1)
      && |EncodeAll(u.view.logs[p])| == |EncodeAll(t.view.logs[p])|
      && u == (if At(t.view.logs, p, i, key) then Meet(t, key, p, i, wanted) else t)
      && (u.failed ==> ScanTo(s, key, p, |s.view.logs[p]|, wanted) == u)
      && (At(t.view.logs, p, i, key) ==> u.result == if wanted then t.view.logs[p][i] else t.result)
      && (At(t.view.logs, p, i, key) && !u.failed ==> u.cnt == t.cnt + 1)
  {
    hide Meet, OnlyKey, RecordAt, Offset, Good, EncodeAll;
    ScanIsCalm(s, key, p, i, wanted);
    ScanIsCalm(s, key, p, i + 1, wanted);
    var t, u := ScanTo(s, key, p, i, wanted), ScanTo(s, key, p, i + 1, wanted);
    OffsetEnd(t.view.logs[p]);
    OffsetEnd(u.view.logs[p]);
    if At(t.view.logs, p, i, key) {
      MeetResult(t, key, p, i, wanted);
    }
    if u.failed {
      ScanStopped(s, key, p, i + 1, |s.view.logs[p]|, wanted);
    }
  }

  lemma MeetResult(t: Scan, key: int, p: nat, i: nat, wanted: bool)
    requires Four(t.view) && p < PAGES && i < |t.view.logs[p]|
    ensures var u := Meet(t, key, p, i, wanted);
      && u.result == (if wanted then t.view.logs[p][i] else t.result)
      && (!u.failed ==> u.cnt == t.cnt + 1)
  {
    hide DeleteAt, Offset;
  }

  lemma {:induction false} ScanAnchored(s: Scan, key: int, p: nat, n: nat, wanted: bool, o: Mark)
    requires Four(s.view) && p < PAGES && Good(s.view, o)
    ensures Good(ScanTo(s, key, p, n, wanted).view, o)
  {
    hide DeleteAt, Anchored, Offset;
    if n > 0 && o != NOWHERE {
      ScanAnchored(s, key, p, n - 1, wanted, o);
      var t := ScanTo(s, key, p, n - 1, wanted);
      DeleteAnchored(t.view, key, t.last, o);
    }
  }

  // ---------------------------------------------------------------------------------------
  // The search over the pages

  /** The remembered record is on one of the first `d` pages of the search. */
  ghost predicate Passed(from: nat, d: nat, m: Mark) {
    m == NOWHERE || exists e: nat :: e < d && m.page == Back(from, e)
  }

  lemma NotPassedYet(from: nat, d: nat, m: Mark)
    requires from < PAGES && d < PAGES && Passed(from, d, m)
    ensures m.page != Back(from, d)
  {
  }

  lemma PassedNext(from: nat, d: nat, m: Mark)
    requires Passed(from, d, m) || m.page == Back(from, d)
    ensures Passed(from, d + 1, m)
  {
    if m != NOWHERE && Passed(from, d, m) {
      var e: nat :| e < d && m.page == Back(from, e);
      assert e < d + 1;
    }
  }

  lemma {:induction false} SearchIsCalm(v: View, key: int, item: Rec, d: nat)
    requires Four(v) && KeyValid(key) && d <= PAGES
    ensures var s := SearchTo(v, key, item, d);
      && Good(s.view, s.last) && Good(s.view, s.place) && Passed(StartOf(v), d, s.last)
      && OnlyKey(v.logs, s.view.logs, key)
  {
    hide Visit, Good, OnlyKey, Back, Passed;
    if d == 0 {
      StartsGood(v, key);
    } else {
      SearchIsCalm(v, key, item, d - 1);
      var s := SearchTo(v, key, item, d - 1);
      NotPassedYet(StartOf(v), d - 1, s.last);
      var p := Back(StartOf(v), d - 1);
      if s.failed {
        PassedNext(StartOf(v), d - 1, s.last);
      } else {
        VisitIsCalm(s, key, p);
        PassedNext(StartOf(v), d - 1, Visit(s, key, p).last);
        OnlyKeyTransitive(v.logs, s.view.logs, Visit(s, key, p).view.logs, key);
      }
    }
  }

  lemma StartsGood(v: View, key: int)
    requires Four(v)
    ensures Good(v, NOWHERE) && Passed(StartOf(v), 0, NOWHERE) && OnlyKey(v.logs, v.logs, key)
  {
    hide Anchored;
  }

  lemma VisitIsCalm(s: Search, key: int, p: nat)
    requires Four(s.view) && p < PAGES && KeyValid(key) && !s.failed
    requires Good(s.view, s.last) && Good(s.view, s.place) && s.last.page != p
    ensures var t := Visit(s, key, p);
      && Good(t.view, t.last) && Good(t.view, t.place) && (t.last == s.last || t.last.page == p)
      && OnlyKey(s.view.logs, t.view.logs, key)
  {
    hide ScanTo, DeleteAt, OnlyKey, Anchored, Offset;
    OnlyKeyReflexive(s.view.logs, key);
    if s.view.status[p] != ERASED {
      var start := Scan(s.view, 0, false, s.result, s.last);
      var n := |s.view.logs[p]|;
      ScanIsCalm(start, key, p, n, s.cnt == 0);
      ScanAnchored(start, key, p, n, s.cnt == 0, s.place);
      var t := ScanTo(start, key, p, n, s.cnt == 0);
      DeleteOnlyKey(t.view, key, t.last);
      OnlyKeyTransitive(s.view.logs, t.view.logs, DeleteAt(t.view, key, t.last).view.logs, key);
      GoodDelete(t.view, key, t.last, t.last);
      GoodDelete(t.view, key, t.last, s.place);
    }
  }

  lemma GoodDelete(v: View, key: int, m: Mark, o: Mark)
    requires Four(v) && Good(v, o)
    ensures Good(DeleteAt(v, key, m).view, o)
  {
    hide DeleteAt, Anchored;
    if o != NOWHERE {
      DeleteAnchored(v, key, m, o);
    }
  }

  lemma {:induction false} SearchStopped(v: View, key: int, item: Rec, d: nat, n: nat)
    requires Four(v) && d <= n && SearchTo(v, key, item, d).failed
    ensures SearchTo(v, key, item, n) == SearchTo(v, key, item, d)
  {
    hide Visit;
    if d < n {
      SearchStopped(v, key, item, d, n - 1);
    }
  }

  // ---------------------------------------------------------------------------------------
  // A key with at most one record

  lemma {:induction false} ScanUnique(s: Scan, key: int, p: nat, n: nat, wanted: bool)
    requires Four(s.view) && p < PAGES && n <= |s.view.logs[p]| && !s.failed && AtMostOne(s.view.logs, key)
    requires s.last == NOWHERE || forall i :: !At(s.view.logs, p, i, key)
    ensures var t := ScanTo(s, key, p, n, wanted);
      && t.view == s.view && !t.failed
      && (t == s || exists i: nat :: i < n && MetOnce(s, t, key, p, i, wanted))
      && (forall i :: 0 <= i < n && At(s.view.logs, p, i, key) ==> MetOnce(s, t, key, p, i, wanted))
  {
    hide DeleteAt, Offset;
    if n > 0 {
      ScanUnique(s, key, p, n - 1, wanted);
      var t := ScanTo(s, key, p, n - 1, wanted);
      if At(s.view.logs, p, n - 1, key) {
        assert t == s;
        assert MetOnce(s, ScanTo(s, key, p, n, wanted), key, p, n - 1, wanted);
      }
    }
  }

  /** The scan met record `i` of the page and nothing else. */
  ghost predicate MetOnce(s: Scan, t: Scan, key: int, p: nat, i: int, wanted: bool)
    requires Four(s.view) && p < PAGES
  {
    && At(s.view.logs, p, i, key)
    && t == Scan(s.view, s.cnt + 1, false, if wanted then s.view.logs[p][i] else s.result,
                 Mark(p, Offset(s.view.logs[p], i)))
  }

  /** The search stands at record `i` of page `p`. */
  ghost predicate FoundAt(v: View, s: Search, key: int, p: int, i: int)
    requires Four(v)
  {
    && At(v.logs, p, i, key)
    && s.last == s.place == Mark(p, Offset(v.logs[p], i)) && s.result == v.logs[p][i]
  }

  /** The search over `d` pages has found nothing, or the only record of the key. */
  ghost predicate OneSearched(v: View, s: Search, key: int, item: Rec, d: nat)
    requires Four(v)
  {
    && s.view == v && !s.failed
    && ((s.cnt == 0 && s.last == s.place == NOWHERE && s.result == item && NoneSeen(v, key, d))
        || (s.cnt == 1 && exists p, i :: FoundAt(v, s, key, p, i)))
  }

  /** No record of the key is on the first `d` pages of the search. */
  ghost predicate NoneSeen(v: View, key: int, d: nat)
    requires Four(v)
  {
    forall e: nat, i :: e < d ==> !At(v.logs, Back(StartOf(v), e), i, key)
  }

  lemma {:induction false} SearchUnique(v: View, key: int, item: Rec, d: nat)
    requires Shaped(v) && KeyValid(key) && AtMostOne(v.logs, key) && d <= PAGES
    ensures OneSearched(v, SearchTo(v, key, item, d), key, item, d)
  {
    hide Visit, AtMostOne, FoundAt, Back, Shaped;
    if d > 0 {
      SearchUnique(v, key, item, d - 1);
      SearchIsCalm(v, key, item, d - 1);
      VisitUnique(v, SearchTo(v, key, item, d - 1), key, item, d - 1);
    }
  }

  lemma OnlyThere(logs: Logs, key: int, q: int, j: int, p: int)
    requires AtMostOne(logs, key) && At(logs, q, j, key) && p != q
    ensures forall i :: !At(logs, p, i, key)
  {
  }

  lemma VisitUnique(v: View, s: Search, key: int, item: Rec, d: nat)
    requires Shaped(v) && AtMostOne(v.logs, key) && OneSearched(v, s, key, item, d)
    requires d < PAGES && Passed(StartOf(v), d, s.last)
    ensures OneSearched(v, Visit(s, key, Back(StartOf(v), d)), key, item, d + 1)
  {
    hide ScanTo, DeleteAt, Offset, AtMostOne, Back;
    var p := Back(StartOf(v), d);
    assert PageShaped(v, p);
    if s.cnt == 1 {
      var q, j :| FoundAt(v, s, key, q, j);
      NotPassedYet(StartOf(v), d, s.last);
      if v.status[p] != ERASED {
        OnlyThere(v.logs, key, q, j, p);
        ScanUnique(Scan(v, 0, false, s.result, s.last), key, p, |v.logs[p]|, false);
      }
      assert FoundAt(v, Visit(s, key, p), key, q, j);
    } else if v.status[p] != ERASED {
      var start := Scan(v, 0, false, s.result, s.last);
      ScanUnique(start, key, p, |v.logs[p]|, true);
      var t := ScanTo(start, key, p, |v.logs[p]|, true);
      if t != start {
        var i: nat :| MetOnce(start, t, key, p, i, true);
        assert MetOnce(start, t, key, p, i, true);
        assert FoundAt(v, Visit(s, key, p), key, p, i);
      }
    }
  }

  /** A key with at most one record is found without any change, at its place; otherwise nothing is found. */
  lemma FindOne(v: View, key: int, item: Rec)
    requires Shaped(v) && KeyValid(key) && AtMostOne(v.logs, key)
    ensures var f := FindKey(v, key, item);
      && f.view == v && !f.failed && f.cnt == (if Has(v.logs, key) then 1 else 0)
      && (f.cnt == 0 ==> f.place == NOWHERE && f.result == item)
      && (f.cnt == 1 ==> exists p: nat, i: nat :: PlacedAt(v, f, key, p, i))
  {
    hide SearchTo, AtMostOne, Back, Shaped, Offset;
    SearchUnique(v, key, item, PAGES);
    var f := FindKey(v, key, item);
    if f.cnt == 1 {
      var p, i :| FoundAt(v, f, key, p, i);
      assert PlacedAt(v, f, key, p, i);
    } else {
      NoneSeenNone(v, key);
    }
  }

  ghost predicate PlacedAt(v: View, f: Search, key: int, p: nat, i: nat)
    requires Four(v)
  {
    At(v.logs, p, i, key) && f.place == Mark(p, Offset(v.logs[p], i)) && f.result == v.logs[p][i]
  }

  lemma NoneSeenNone(v: View, key: int)
    requires Four(v) && NoneSeen(v, key, PAGES)
    ensures !Has(v.logs, key)
  {
    var from := StartOf(v);
    forall p, i ensures !At(v.logs, p, i, key) {
      if 0 <= p < PAGES {
        var e: nat := if p <= from then from - p else from + PAGES - p;
        assert Back(from, e) == p;
      }
    }
  }

  // ---------------------------------------------------------------------------------------
  // A key with several records

  function CountKey(log: seq<Rec>, key: int): nat {
    if log == [] then 0 else CountKey(log[..|log| - 1], key) + (if log[|log| - 1].idx == key then 1 else 0)
  }

  /** The number of live records of a key. */
  function LiveOf(logs: Logs, key: int): nat
    requires |logs| == PAGES
  {
    CountKey(logs[0], key) + CountKey(logs[1], key) + CountKey(logs[2], key) + CountKey(logs[3], key)
  }

  lemma {:induction false} CountKeyKill(log: seq<Rec>, key: int, i: nat)
    requires i < |log| && log[i].idx == key && key != 0
    ensures CountKey(log, key) == CountKey(log[i := Dead(log[i])], key) + 1
  {
    var n := |log| - 1;
    var next := log[i := Dead(log[i])];
    if i < n {
      CountKeyKill(log[..n], key, i);
      assert next[..n] == log[..n][i := Dead(log[i])];
    } else {
      assert next[..n] == log[..n];
    }
  }

  lemma {:induction false} CountKeyZero(log: seq<Rec>, key: int)
    ensures CountKey(log, key) == 0 <==> forall i :: 0 <= i < |log| ==> log[i].idx != key
  {
    if log != [] {
      var n := |log| - 1;
      CountKeyZero(log[..n], key);
      assert forall i :: 0 <= i < n ==> log[i] == log[..n][i];
    }
  }

  lemma {:induction false} CountKeyLive(log: seq<Rec>, key: int)
    requires key != 0
    ensures CountKey(log, key) <= CountLive(log)
  {
    if log != [] {
      CountKeyLive(log[..|log| - 1], key);
    }
  }

  /** A live record of the key starts at the location. */
  predicate Alive(v: View, key: int, m: Mark)
    requires Four(v)
  {
    && m.page < PAGES && RecordAt(v.logs[m.page], m.offset) < |v.logs[m.page]|
    && v.logs[m.page][RecordAt(v.logs[m.page], m.offset)].idx == key
  }

  /** A deletion takes away the live record at the location, or nothing. */
  lemma DeleteCounts(v: View, key: int, m: Mark)
    requires Four(v) && key != 0 && m.page < PAGES
    ensures var g := DeleteAt(v, key, m);
      && (Alive(v, key, m) ==>
            && g.ok && LiveOf(g.view.logs, key) + 1 == LiveOf(v.logs, key) && !Alive(g.view, key, m)
            && CountKey(g.view.logs[m.page], key) + 1 == CountKey(v.logs[m.page], key))
      && (!Alive(v, key, m) ==> g.view == v)
      && (forall q :: 0 <= q < PAGES && q != m.page ==> g.view.logs[q] == v.logs[q] && g.view.status[q] == v.status[q])
  {
    hide RecordAt, CountLive, CountKey;
    if Alive(v, key, m) {
      var j := RecordAt(v.logs[m.page], m.offset);
      var log := v.logs[m.page];
      var killed := log[j := Dead(log[j])];
      CountKeyKill(log, key, j);
      CountKeyLive(log, key);
      RecordAtKilled(log, j, m.offset);
      CountKeyLive(killed, key);
      EmptyCount(key);
    }
  }

  lemma EmptyCount(key: int)
    ensures CountKey([], key) == 0 && RecordAt([], 0) == 0
  {
  }

  /** The pages other than `p` and `q` are as they were. */
  ghost predicate OtherPages(v: View, w: View, p: nat, q: nat)
    requires Four(v) && Four(w)
  {
    forall r :: 0 <= r < PAGES && r != p && r != q ==> w.logs[r] == v.logs[r] && w.status[r] == v.status[r]
  }

  /** Where a scan stands that has met `m` records of the key: all but the last are deleted, and the one met before. */
  ghost predicate ScanCounted(s: Scan, t: Scan, key: int, p: nat, m: nat)
    requires Four(s.view) && Four(t.view) && p < PAGES
  {
    var before := if Alive(s.view, key, s.last) then 1 else 0;
    && OtherPages(s.view, t.view, p, s.last.page)
    && (t.failed ==>
          && t.view == s.view && t.cnt == s.cnt && t.last == s.last
          && s.last.page < PAGES && before == 0 && CountKey(s.view.logs[p], key) > 0)
    && (!t.failed ==> t.cnt == s.cnt + m)
    && (!t.failed && m == 0 ==> t == s)
    && (!t.failed && m == 1 && s.last == NOWHERE ==> t.view == s.view)
    && (!t.failed && m > 0 ==>
          && t.last.page == p && Alive(t.view, key, t.last)
          && LiveOf(t.view.logs, key) + (m - 1) + before == LiveOf(s.view.logs, key)
          && CountKey(t.view.logs[p], key) + (m - 1) == CountKey(s.view.logs[p], key)
          && (s.last.page < PAGES ==>
                CountKey(t.view.logs[s.last.page], key) + before == CountKey(s.view.logs[s.last.page], key)))
  }

  lemma {:induction false} ScanCounts(s: Scan, key: int, p: nat, n: nat, wanted: bool)
    requires Four(s.view) && p < PAGES && n <= |s.view.logs[p]| && KeyValid(key)
    requires !s.failed && Good(s.view, s.last) && s.last.page != p
    ensures ScanCounted(s, ScanTo(s, key, p, n, wanted), key, p, CountKey(s.view.logs[p][..n], key))
  {
    hide Meet, OnlyKey, RecordAt, Offset, Good, CountKey, Alive, LiveOf;
    if n == 0 {
      EmptyCount(key);
    } else {
      ScanCounts(s, key, p, n - 1, wanted);
      ScanIsCalm(s, key, p, n - 1, wanted);
      var t := ScanTo(s, key, p, n - 1, wanted);
      NextCount(s.view.logs[p], key, n - 1);
      if !t.failed && At(t.view.logs, p, n - 1, key) {
        MeetCounts(s, t, key, p, n - 1, wanted, CountKey(s.view.logs[p][..n - 1], key));
      }
    }
  }

  lemma NextCount(log: seq<Rec>, key: int, n: nat)
    requires n < |log|
    ensures CountKey(log[..n + 1], key) == CountKey(log[..n], key) + (if log[n].idx == key then 1 else 0)
    ensures log[n].idx == key ==> CountKey(log, key) > 0
  {
    hide CountKey;
    var next := log[..n + 1];
    assert next[..n] == log[..n];
    Unfold(next, key);
    CountKeyZero(log, key);
  }

  lemma Unfold(log: seq<Rec>, key: int)
    requires log != []
    ensures CountKey(log, key) == CountKey(log[..|log| - 1], key) + (if log[|log| - 1].idx == key then 1 else 0)
  {
  }

  lemma MeetCounts(s: Scan, t: Scan, key: int, p: nat, i: nat, wanted: bool, m: nat)
    requires Four(s.view) && Four(t.view) && p < PAGES && !t.failed && KeyValid(key)
    requires ScanCounted(s, t, key, p, m) && ScanKeeps(s, t, key, p, i) && s.last.page != p && Good(s.view, s.last)
    requires At(t.view.logs, p, i, key) && CountKey(s.view.logs[p], key) > 0
    ensures ScanCounted(s, Meet(t, key, p, i, wanted), key, p, m + 1)
  {
    hide OnlyKey, RecordAt, Offset, DeleteAt, CountKey, LiveOf, Anchored;
    MeetKeeps(t, key, p, i, wanted);
    if t.last.page < PAGES {
      DeleteCounts(t.view, key, t.last);
    }
  }

  /** The records of the key on the first `d` pages of the search. */
  function Met(v: View, key: int, d: nat): nat
    requires Four(v)
  {
    if d == 0 then 0 else Met(v, key, d - 1) + CountKey(v.logs[Back(StartOf(v), d - 1)], key)
  }

  /** The pages still to be searched are as they were. */
  ghost predicate Ahead(v: View, w: View, d: nat)
    requires Four(v) && Four(w)
  {
    forall e: nat :: d <= e < PAGES ==>
      && w.logs[Back(StartOf(v), e)] == v.logs[Back(StartOf(v), e)]
      && w.status[Back(StartOf(v), e)] == v.status[Back(StartOf(v), e)]
  }

  /** Where the search stands: with two or more matches, all the records met are deleted. */
  ghost predicate SearchCounted(v: View, s: Search, key: int, d: nat)
    requires Four(v) && Four(s.view)
  {
    && Ahead(v, s.view, d)
    && (!s.failed ==> s.cnt == Met(v, key, d))
    && (s.cnt == 0 ==> s.view == v && s.last == NOWHERE && !s.failed)
    && (s.cnt == 1 ==> s.view == v && Alive(v, key, s.last) && !s.failed)
    && (s.cnt >= 2 ==>
          LiveOf(s.view.logs, key) + s.cnt == LiveOf(v.logs, key) && s.last.page < PAGES && !Alive(s.view, key, s.last))
  }

  lemma NotPassedAhead(from: nat, d: nat, m: Mark, e: nat)
    requires from < PAGES && d <= e < PAGES && (Passed(from, d, m) || (m.page == Back(from, d) && e > d))
    ensures m.page != Back(from, e)
    ensures e > d ==> Back(from, d) != Back(from, e)
  {
  }

  lemma AheadNext(v: View, w: View, u: View, d: nat, m: Mark)
    requires Four(v) && Four(w) && Four(u) && d < PAGES
    requires Ahead(v, w, d) && OtherPages(w, u, Back(StartOf(v), d), m.page) && Passed(StartOf(v), d, m)
    ensures Ahead(v, u, d + 1)
  {
    hide Back, Passed;
    forall e: nat | d + 1 <= e < PAGES
      ensures u.logs[Back(StartOf(v), e)] == v.logs[Back(StartOf(v), e)]
      ensures u.status[Back(StartOf(v), e)] == v.status[Back(StartOf(v), e)]
    {
      NotPassedAhead(StartOf(v), d, m, e);
    }
  }

  lemma OtherPagesChain(v: View, w: View, u: View, p: nat, q: nat)
    requires Four(v) && Four(w) && Four(u) && OtherPages(v, w, p, q) && OtherPages(w, u, p, p)
    ensures OtherPages(v, u, p, q)
  {
  }

  lemma VisitCounts(v: View, s: Search, key: int, d: nat)
    requires Shaped(v) && Four(s.view) && KeyValid(key) && d < PAGES && !s.failed
    requires SearchCounted(v, s, key, d) && Good(s.view, s.last) && Passed(StartOf(v), d, s.last)
    ensures SearchCounted(v, Visit(s, key, Back(StartOf(v), d)), key, d + 1)
  {
    hide ScanTo, DeleteAt, CountKey, LiveOf, Alive, Anchored, Passed, Back, OtherPages, Ahead;
    var p := Back(StartOf(v), d);
    AheadHere(v, s.view, d);
    NotPassedHere(v, s.last, d);
    NowhereIsNotAlive(s.view, key);
    var start := Scan(s.view, 0, false, s.result, s.last);
    var n := |s.view.logs[p]|;
    OthersRefl(s.view, p, s.last.page);
    if v.status[p] == ERASED {
      assert PageShaped(v, p);
      EmptyCount(key);
      AheadNext(v, s.view, s.view, d, s.last);
    } else {
      ScanCounts(start, key, p, n, s.cnt == 0);
      assert s.view.logs[p][..n] == s.view.logs[p];
      var t := ScanTo(start, key, p, n, s.cnt == 0);
      AheadNext(v, s.view, t.view, d, s.last);
      if t.last.page < PAGES {
        DeleteCounts(t.view, key, t.last);
        DeletePage(t.view, key, t.last);
        if t.last.page == p {
          OtherPagesChain(s.view, t.view, DeleteAt(t.view, key, t.last).view, p, s.last.page);
          AheadNext(v, s.view, DeleteAt(t.view, key, t.last).view, d, s.last);
        }
      }
    }
  }

  lemma NowhereIsNotAlive(v: View, key: int)
    requires Four(v)
    ensures !Alive(v, key, NOWHERE)
  {
  }

  lemma AheadHere(v: View, w: View, d: nat)
    requires Four(v) && Four(w) && d < PAGES && Ahead(v, w, d)
    ensures var p := Back(StartOf(v), d); w.logs[p] == v.logs[p] && w.status[p] == v.status[p]
  {
    hide Back;
  }

  lemma NotPassedHere(v: View, m: Mark, d: nat)
    requires d < PAGES && Passed(StartOf(v), d, m)
    ensures m.page != Back(StartOf(v), d)
  {
    NotPassedYet(StartOf(v), d, m);
  }

  lemma OthersRefl(v: View, p: nat, q: nat)
    requires Four(v)
    ensures OtherPages(v, v, p, q)
  {
  }

  lemma DeletePage(v: View, key: int, m: Mark)
    requires Four(v) && m.page < PAGES
    ensures OtherPages(v, DeleteAt(v, key, m).view, m.page, m.page)
  {
    hide RecordAt, CountLive;
  }

  lemma {:induction false} SearchCounts(v: View, key: int, item: Rec, d: nat)
    requires Shaped(v) && KeyValid(key) && d <= PAGES
    ensures SearchCounted(v, SearchTo(v, key, item, d), key, d)
  {
    hide Visit, CountKey, LiveOf, Alive, Anchored, Passed, Back;
    if d > 0 {
      SearchCounts(v, key, item, d - 1);
      SearchIsCalm(v, key, item, d - 1);
      var s := SearchTo(v, key, item, d - 1);
      if !s.failed {
        VisitCounts(v, s, key, d - 1);
      }
    }
  }

  lemma MetAll(v: View, key: int)
    requires Four(v)
    ensures Met(v, key, PAGES) == LiveOf(v.logs, key)
  {
    hide CountKey;
    var from := StartOf(v);
    assert Met(v, key, 1) == CountKey(v.logs[Back(from, 0)], key);
    assert Met(v, key, 2) == Met(v, key, 1) + CountKey(v.logs[Back(from, 1)], key);
    assert Met(v, key, 3) == Met(v, key, 2) + CountKey(v.logs[Back(from, 2)], key);
    assert Met(v, key, 4) == Met(v, key, 3) + CountKey(v.logs[Back(from, 3)], key);
  }

  /**
    A key with several records: the search deletes at least two of them, and all of them unless
    it fails; of exactly two, both are always lost.
   */
  lemma FindSeveral(v: View, key: int, item: Rec)
    requires Shaped(v) && KeyValid(key) && LiveOf(v.logs, key) >= 2
    ensures var f := FindKey(v, key, item);
      && f.cnt >= 2 && LiveOf(f.view.logs, key) + f.cnt == LiveOf(v.logs, key)
      && (!f.failed || LiveOf(v.logs, key) == 2 ==> !Has(f.view.logs, key))
  {
    hide SearchTo, CountKey, LiveOf, Alive, Back;
    SearchCounts(v, key, item, PAGES);
    MetAll(v, key);
    var f := FindKey(v, key, item);
    SomeLive(f.view.logs, key);
  }

  lemma SomeLive(logs: Logs, key: int)
    requires |logs| == PAGES
    ensures LiveOf(logs, key) > 0 <==> Has(logs, key)
  {
    CountKeyZero(logs[0], key);
    CountKeyZero(logs[1], key);
    CountKeyZero(logs[2], key);
    CountKeyZero(logs[3], key);
    if LiveOf(logs, key) > 0 {
      var p: nat :| p < PAGES && CountKey(logs[p], key) > 0;
      var i :| 0 <= i < |logs[p]| && logs[p][i].idx == key;
      assert At(logs, p, i, key);
    }
    if Has(logs, key) {
      var p, i :| At(logs, p, i, key);
      assert logs[p][i].idx == key;
    }
  }

  lemma CountKeyOnly(log: seq<Rec>, key: int, i: nat)
    requires i < |log| && log[i].idx == key && key != 0 && forall j :: 0 <= j < |log| && log[j].idx == key ==> j == i
    ensures CountKey(log, key) == 1
  {
    hide CountKey;
    CountKeyKill(log, key, i);
    CountKeyZero(log[i := Dead(log[i])], key);
  }

  /** A key that has a record, and only one, has one live record. */
  lemma LiveOfOne(logs: Logs, key: int)
    requires |logs| == PAGES && AtMostOne(logs, key) && Has(logs, key) && key != 0
    ensures LiveOf(logs, key) == 1
  {
    hide CountKey;
    var p, i :| At(logs, p, i, key);
    assert forall j :: 0 <= j < |logs[p]| && logs[p][j].idx == key ==> At(logs, p, j, key);
    CountKeyOnly(logs[p], key, i);
    forall q | 0 <= q < PAGES && q != p ensures CountKey(logs[q], key) == 0 {
      CountKeyZero(logs[q], key);
      assert forall j :: 0 <= j < |logs[q]| && logs[q][j].idx == key ==> At(logs, q, j, key);
    }
  }

  /** Record `i` is the last of the key among the first `n` of the log. */
  ghost predicate Latest(log: seq<Rec>, key: int, i: int, n: nat) {
    0 <= i < n <= |log| && log[i].idx == key && forall j :: i < j < n ==> log[j].idx != key
  }

  lemma {:induction false} ScanResult(s: Scan, key: int, p: nat, n: nat, wanted: bool)
    requires Four(s.view) && p < PAGES && n <= |s.view.logs[p]| && KeyValid(key)
    requires !s.failed && Good(s.view, s.last) && s.last.page != p && (wanted ==> s.last == NOWHERE)
    ensures var t := ScanTo(s, key, p, n, wanted);
      if wanted && CountKey(s.view.logs[p][..n], key) > 0 then
        exists i :: Latest(s.view.logs[p], key, i, n) && t.result == s.view.logs[p][i]
      else t.result == s.result
  {
    hide OnlyKey, RecordAt, Offset, Good, CountKey, Alive, LiveOf, Meet, ScanKeeps;
    if n == 0 {
      EmptyCount(key);
    } else {
      ScanResult(s, key, p, n - 1, wanted);
      ScanOneResult(s, key, p, n - 1, wanted);
      NextCount(s.view.logs[p], key, n - 1);
      var log, t := s.view.logs[p], ScanTo(s, key, p, n - 1, wanted);
      if log[n - 1].idx == key {
        assert Latest(log, key, n - 1, n);
      } else if wanted && CountKey(log[..n - 1], key) > 0 {
        var i :| Latest(log, key, i, n - 1) && t.result == log[i];
        assert Latest(log, key, i, n);
      }
    }
  }

  /** One more record changes the result exactly if it is one of the key and the result is wanted. */
  lemma ScanOneResult(s: Scan, key: int, p: nat, i: nat, wanted: bool)
    requires Four(s.view) && p < PAGES && i < |s.view.logs[p]| && KeyValid(key)
    requires !s.failed && Good(s.view, s.last) && s.last.page != p && (wanted ==> s.last == NOWHERE)
    ensures ScanTo(s, key, p, i + 1, wanted).result ==
      if wanted && s.view.logs[p][i].idx == key then s.view.logs[p][i] else ScanTo(s, key, p, i, wanted).result
  {
    hide OnlyKey, RecordAt, Offset, Good, CountKey, Alive, LiveOf, Meet;
    ScanIsCalm(s, key, p, i, wanted);
    ScanCounts(s, key, p, i, wanted);
    var t := ScanTo(s, key, p, i, wanted);
    if At(t.view.logs, p, i, key) {
      MeetResult(t, key, p, i, wanted);
    }
  }

  /**
    `r` is the last record of the key on the active page or, if that has none, on the first page
    that has one, counted downwards from there and around. Without an active page the count
    starts at page 0.
   */
  ghost predicate FirstSeen(v: View, key: int, r: Rec) {
    && Four(v)
    && exists p: nat, i ::
         && p < 4 && Latest(v.logs[p], key, i, |v.logs[p]|) && r == v.logs[p][i]
         && forall q, j :: At(v.logs, q, j, key) ==> (v.active - p) % 4 <= (v.active - q) % 4
  }

  /** How many pages `q` lies before `from`, counted downwards and around. */
  function Ago(from: nat, q: int): (d: nat)
    ensures d < PAGES
  {
    (from - q) % PAGES
  }

  lemma BackAgo(from: nat, d: nat)
    requires d < PAGES
    ensures Ago(from, Back(from, d)) == d
    ensures forall q :: 0 <= q < PAGES && Ago(from, q) == d ==> q == Back(from, d)
  {
  }

  /** Counting from the active page or, without one, from page 0. */
  lemma StartAgo(v: View)
    ensures v.active <= 4 ==> forall q :: 0 <= q < PAGES ==> Ago(StartOf(v), q) == (v.active - q) % 4
  {
  }

  lemma {:induction false} MetPage(v: View, key: int, d: nat, e: nat)
    requires Four(v) && d < e
    ensures CountKey(v.logs[Back(StartOf(v), d)], key) <= Met(v, key, e)
  {
    hide Back, CountKey;
    if d < e - 1 {
      MetPage(v, key, d, e - 1);
    }
  }

  ghost predicate SeenAt(v: View, key: int, e: nat, i: int)
    requires Four(v)
  {
    var log := v.logs[Back(StartOf(v), e)];
    Latest(log, key, i, |log|) && Met(v, key, e) == 0
  }

  lemma VisitResult(v: View, s: Search, key: int, d: nat)
    requires Shaped(v) && Four(s.view) && KeyValid(key) && d < PAGES && !s.failed
    requires SearchCounted(v, s, key, d) && Good(s.view, s.last) && Passed(StartOf(v), d, s.last)
    requires s.cnt > 0 ==> FirstSeen(v, key, s.result)
    ensures var t := Visit(s, key, Back(StartOf(v), d)); t.cnt > 0 ==> FirstSeen(v, key, t.result)
  {
    hide ScanTo, DeleteAt, CountKey, LiveOf, Alive, Anchored, Passed, Back, OtherPages, Ahead, FirstSeen;
    var p := Back(StartOf(v), d);
    NotPassedHere(v, s.last, d);
    if s.view.status[p] != ERASED {
      var start := Scan(s.view, 0, false, s.result, s.last);
      var n := |s.view.logs[p]|;
      ScanResult(start, key, p, n, s.cnt == 0);
      ScanCounts(start, key, p, n, s.cnt == 0);
      assert s.view.logs[p][..n] == s.view.logs[p];
      if s.cnt == 0 && CountKey(s.view.logs[p], key) > 0 {
        var t := ScanTo(start, key, p, n, true);
        var i :| Latest(v.logs[p], key, i, n) && t.result == v.logs[p][i];
        assert SeenAt(v, key, d, i);
        SeenFirst(v, key, d, i);
      }
    }
  }

  lemma SeenFirst(v: View, key: int, e: nat, i: int)
    requires Four(v) && v.active <= NO_PAGE && e < PAGES && SeenAt(v, key, e, i)
    ensures FirstSeen(v, key, v.logs[Back(StartOf(v), e)][i])
  {
    hide Back, Met, Ago, StartOf, CountKey;
    var p := Back(StartOf(v), e);
    StartAgo(v);
    forall q, j | At(v.logs, q, j, key) ensures (v.active - p) % 4 <= (v.active - q) % 4 {
      SeenNearest(v, key, e, q, j);
    }
    assert Latest(v.logs[p], key, i, |v.logs[p]|);
  }

  lemma SeenNearest(v: View, key: int, e: nat, q: int, j: int)
    requires Four(v) && e < PAGES && Met(v, key, e) == 0 && At(v.logs, q, j, key)
    ensures Ago(StartOf(v), Back(StartOf(v), e)) <= Ago(StartOf(v), q)
  {
    hide Back, Met, Ago, StartOf, CountKey;
    var from, d := StartOf(v), Ago(StartOf(v), q);
    BackAgo(from, e);
    BackAgo(from, d);
    if d < e {
      MetPage(v, key, d, e);
      CountKeyZero(v.logs[q], key);
    }
  }

  /** What is found is the last record of the key on the first page of the search that has one. */
  lemma {:induction false} FoundFirst(v: View, key: int, item: Rec, d: nat)
    requires Shaped(v) && KeyValid(key) && d <= PAGES
    ensures var s := SearchTo(v, key, item, d); s.cnt > 0 ==> FirstSeen(v, key, s.result)
  {
    hide Visit, FirstSeen, CountKey, LiveOf, Alive, Anchored, Passed, Back;
    if d > 0 {
      FoundFirst(v, key, item, d - 1);
      SearchIsCalm(v, key, item, d - 1);
      SearchCounts(v, key, item, d - 1);
      var s := SearchTo(v, key, item, d - 1);
      if !s.failed {
        VisitResult(v, s, key, d - 1);
      }
    }
  }

  // ---------------------------------------------------------------------------------------
  // The search as a whole

  /** Going back one page at a time comes around after four. */
  lemma BackAround(from: nat, d: nat)
    requires from < PAGES && d < PAGES
    ensures Back(from, 0) == from
    ensures var p := Back(from, d);
      Back(from, d + 1) == (if p > 0 then p - 1 else PAGES - 1) && (Back(from, d + 1) == from <==> d + 1 == PAGES)
  {
  }

  lemma SearchNext(v: View, key: int, item: Rec, d: nat)
    requires Four(v) && d < PAGES && !SearchTo(v, key, item, d).failed
    ensures SearchTo(v, key, item, 0) == Search(v, 0, false, item, NOWHERE, NOWHERE)
    ensures var t := SearchTo(v, key, item, d + 1);
      && t == Visit(SearchTo(v, key, item, d), key, Back(StartOf(v), d))
      && (t.failed ==> SearchTo(v, key, item, PAGES) == t)
  {
    hide Visit, Back;
    if SearchTo(v, key, item, d + 1).failed {
      SearchStopped(v, key, item, d + 1, PAGES);
    }
  }

  /** What a search finds, by the number of live records of the key. */
  lemma FoundMeans(v: View, key: int, item: Rec)
    requires Shaped(v) && KeyValid(key)
    ensures var f := FindKey(v, key, item);
      && OnlyKey(v.logs, f.view.logs, key)
      && (AtMostOne(v.logs, key) ==> !f.failed && f.cnt == if Has(v.logs, key) then 1 else 0)
      && (LiveOf(v.logs, key) >= 2 ==> f.cnt >= 2 && FirstSeen(v, key, f.result))
      && (LiveOf(v.logs, key) >= 2 && (!f.failed || LiveOf(v.logs, key) == 2) ==> !Has(f.view.logs, key))
      && SearchTo(v, key, item, 0) == Search(v, 0, false, item, NOWHERE, NOWHERE)
  {
    hide Visit, AtMostOne, LiveOf, Has, OnlyKey, FirstSeen, Back, Good, Passed;
    SearchIsCalm(v, key, item, PAGES);
    if AtMostOne(v.logs, key) {
      FindOne(v, key, item);
    }
    if LiveOf(v.logs, key) >= 2 {
      FindSeveral(v, key, item);
      FoundFirst(v, key, item, PAGES);
    }
  }

  // ---------------------------------------------------------------------------------------
  // A search leaves the pages in shape

  lemma KilledSize(log: seq<Rec>, i: nat)
    requires i < |log|
    ensures |EncodeAll(log[i := Dead(log[i])])| == |EncodeAll(log)|
  {
    hide EncodeAll, Offset;
    OffsetKilled(log, i, |log|);
    OffsetEnd(log);
    OffsetEnd(log[i := Dead(log[i])]);
  }

  lemma DeleteShaped(v: View, key: int, m: Mark)
    requires Shaped(v)
    ensures Shaped(DeleteAt(v, key, m).view)
  {
    hide RecordAt, CountLive, EncodeAll;
    var w := DeleteAt(v, key, m).view;
    if m.page < PAGES {
      var j := RecordAt(v.logs[m.page], m.offset);
      assert PageShaped(v, m.page);
      if j < |v.logs[m.page]| {
        KilledSize(v.logs[m.page], j);
        EmptyLog();
      }
    }
    forall p | 0 <= p < PAGES ensures PageShaped(w, p) {
      assert PageShaped(v, p);
    }
  }

  lemma {:induction false} ScanShaped(s: Scan, key: int, p: nat, n: nat, wanted: bool)
    requires Shaped(s.view) && p < PAGES
    ensures Shaped(ScanTo(s, key, p, n, wanted).view)
  {
    hide DeleteAt, Offset, PageShaped;
    if n > 0 {
      ScanShaped(s, key, p, n - 1, wanted);
      var t := ScanTo(s, key, p, n - 1, wanted);
      DeleteShaped(t.view, key, t.last);
    }
  }

  lemma {:induction false} SearchShaped(v: View, key: int, item: Rec, d: nat)
    requires Shaped(v)
    ensures Shaped(SearchTo(v, key, item, d).view)
  {
    hide ScanTo, DeleteAt, PageShaped, Back;
    if d > 0 {
      SearchShaped(v, key, item, d - 1);
      var s, p := SearchTo(v, key, item, d - 1), Back(StartOf(v), d - 1);
      if !s.failed {
        var start := Scan(s.view, 0, false, s.result, s.last);
        ScanShaped(start, key, p, |s.view.logs[p]|, s.cnt == 0);
        var t := ScanTo(start, key, p, |s.view.logs[p]|, s.cnt == 0);
        DeleteShaped(t.view, key, t.last);
      }
    }
  }
}
