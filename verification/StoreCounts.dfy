/**
  How many live records a key has: what collecting a page does to that number, and when it is at
  most one.
 */
module StoreCounts {
  import opened StoreLog
  import opened StoreMap
  import opened StoreView
  import opened StoreFind
  import opened StoreCollect

  // ---------------------------------------------------------------------------------------
  // At most one record

  lemma CountKeyTwo(log: seq<Rec>, key: int, i: nat, j: nat)
    requires i < |log| && j < |log| && i != j && log[i].idx == key && log[j].idx == key && key != 0
    ensures CountKey(log, key) >= 2
  {
    hide CountKey;
    CountKeyKill(log, key, i);
    CountKeyKill(log[i := Dead(log[i])], key, j);
  }

  lemma CountKeyHas(logs: Logs, p: nat, i: nat, key: int)
    requires |logs| == PAGES && At(logs, p, i, key)
    ensures CountKey(logs[p], key) >= 1
  {
    CountKeyZero(logs[p], key);
  }

  /** A key has at most one record exactly when it has at most one live record. */
  lemma LiveAtMostOne(logs: Logs, key: int)
    requires |logs| == PAGES && key != 0
    ensures AtMostOne(logs, key) <==> LiveOf(logs, key) <= 1
  {
    hide CountKey, Has;
    SomeLive(logs, key);
    if AtMostOne(logs, key) {
      if Has(logs, key) {
        LiveOfOne(logs, key);
      }
    } else {
      var p, i, q, j :| At(logs, p, i, key) && At(logs, q, j, key) && !(p == q && i == j);
      CountKeyHas(logs, p, i, key);
      CountKeyHas(logs, q, j, key);
      if p == q {
        CountKeyTwo(logs[p], key, i, j);
      }
    }
  }

  lemma LiveOfAppended(logs: Logs, p: nat, r: Rec, key: int)
    requires |logs| == PAGES && p < PAGES
    ensures LiveOf(Appended(logs, p, r), key) == LiveOf(logs, key) + (if r.idx == key then 1 else 0)
  {
    hide CountKey;
    var log := logs[p] + [r];
    assert log[..|log| - 1] == logs[p];
    Unfold(log, key);
  }

  lemma LiveOfErased(logs: Logs, p: nat, key: int)
    requires |logs| == PAGES && p < PAGES
    ensures LiveOf(ErasedAt(logs, p), key) + CountKey(logs[p], key) == LiveOf(logs, key)
  {
    hide CountKey;
    EmptyCount(key);
  }

  // ---------------------------------------------------------------------------------------
  // Collecting

  /** The records of the key that collection copies: those with a nonzero CRC byte. */
  function Movers(log: seq<Rec>, key: int): nat {
    if log == [] then 0
    else
      var r := log[|log| - 1];
      Movers(log[..|log| - 1], key) + (if r.idx == key && r.crc != 0 then 1 else 0)
  }

  lemma MoversNext(log: seq<Rec>, key: int, n: nat)
    requires n < |log|
    ensures Movers(log[..n + 1], key) ==
      Movers(log[..n], key) + (if log[n].idx == key && log[n].crc != 0 then 1 else 0)
  {
    assert log[..n + 1][..n] == log[..n];
  }

  lemma {:induction false} MoversCounted(log: seq<Rec>, key: int, n: nat)
    requires n <= |log|
    ensures Movers(log[..n], key) <= CountKey(log[..n], key) <= CountKey(log, key)
    ensures Movers(log[..n], key) > 0 <==> exists i :: 0 <= i < n && log[i].idx == key && log[i].crc != 0
  {
    hide CountKey, Movers;
    if n == 0 {
      assert Movers(log[..0], key) == 0 by { NoMovers(key); assert log[..0] == []; }
      assert CountKey(log[..0], key) == 0 by { EmptyCount(key); assert log[..0] == []; }
    } else {
      MoversCounted(log, key, n - 1);
      MoversNext(log, key, n - 1);
      NextCount(log, key, n - 1);
      CountPrefix(log, key, n);
    }
  }

  lemma NoMovers(key: int)
    ensures Movers([], key) == 0
  {
  }

  lemma {:induction false} CountPrefix(log: seq<Rec>, key: int, n: nat)
    requires n <= |log|
    ensures CountKey(log[..n], key) <= CountKey(log, key)
    decreases |log| - n
  {
    hide CountKey;
    if n == |log| {
      assert log[..n] == log;
    } else {
      NextCount(log, key, n);
      CountPrefix(log, key, n + 1);
    }
  }

  lemma {:induction false} RelocatedCounts(v: View, p: nat, n: nat, key: int)
    requires Aside(v, p) && n <= |v.logs[p]| && key != 0
    ensures var c := Relocated(v, v.logs[p], n);
      LiveOf(c.view.logs, key) == LiveOf(v.logs, key) + Movers(v.logs[p][..c.upto], key)
  {
    hide Relocate, LiveOf, Target, Movers;
    if n == 0 {
      NoMovers(key);
      assert v.logs[p][..0] == [];
    } else {
      RelocatedCounts(v, p, n - 1, key);
      RelocatedMoved(v, p, n - 1);
      MoversNext(v.logs[p], key, n - 1);
      var c, r := Relocated(v, v.logs[p], n - 1), v.logs[p][n - 1];
      if c.upto == n - 1 && r.crc != 0 && r.idx != 0 {
        RelocateAside(c.view, r, p);
        if Relocate(c.view, r).ok {
          LiveOfAppended(c.view.logs, Target(c.view, r), r, key);
        }
      }
    }
  }

  /** Collecting adds the copies made, and takes the page's own records once it goes through. */
  lemma SweptCounts(v: View, p: nat, key: int)
    requires Aside(v, p) && key != 0
    ensures LiveOf(Swept(v, p).logs, key) + (if Completes(v, p) then CountKey(v.logs[p], key) else 0) ==
      LiveOf(v.logs, key) + Movers(v.logs[p][..Reach(v, p)], key)
  {
    hide Relocated, LiveOf, Movers, CountKey;
    RelocatedCounts(v, p, |v.logs[p]|, key);
    RelocatedMoved(v, p, |v.logs[p]|);
    var c := Relocated(v, v.logs[p], |v.logs[p]|);
    LiveOfErased(c.view.logs, p, key);
  }

  /** A deletion takes no record of another key. */
  lemma DeleteOthersCount(v: View, key: int, m: Mark, k: int)
    requires Four(v) && KeyValid(key) && KeyValid(k) && k != key
    ensures LiveOf(DeleteAt(v, key, m).view.logs, k) == LiveOf(v.logs, k)
  {
    hide RecordAt, CountLive, CountKey;
    if m.page < PAGES {
      var log, j := v.logs[m.page], RecordAt(v.logs[m.page], m.offset);
      if j < |log| && log[j].idx == key {
        var killed := log[j := Dead(log[j])];
        CountOthersKill(log, k, j);
        CountKeyLive(killed, k);
        EmptyCount(k);
      }
    }
  }

  lemma {:induction false} CountOthersKill(log: seq<Rec>, k: int, i: nat)
    requires i < |log| && log[i].idx != k && k != 0
    ensures CountKey(log[i := Dead(log[i])], k) == CountKey(log, k)
  {
    var n := |log| - 1;
    var next := log[i := Dead(log[i])];
    if i < n {
      CountOthersKill(log[..n], k, i);
      assert next[..n] == log[..n][i := Dead(log[i])];
    } else {
      assert next[..n] == log[..n];
    }
  }

  /** Collecting page `p` copies a record of key `k`. */
  ghost predicate CopiesSome(v: View, p: nat, k: int)
    requires Four(v) && p < PAGES
  {
    exists i :: 0 <= i < Reach(v, p) && Movable(v.logs, p, i, k)
  }

  /** Of a key with at most one record on the page there is at most one to copy. */
  lemma CopiesCount(v: View, p: nat, k: int)
    requires Four(v) && p < PAGES && k != 0
    ensures var n := Movers(v.logs[p][..Reach(v, p)], k);
      && (CopiesSome(v, p, k) <==> n > 0) && n <= CountKey(v.logs[p], k) <= LiveOf(v.logs, k)
      && (OnPage(v.logs, p, k) <==> CountKey(v.logs[p], k) > 0)
  {
    hide Relocated, Movers, CountKey;
    MoversCounted(v.logs[p], k, Reach(v, p));
    CountKeyZero(v.logs[p], k);
    if CopiesSome(v, p, k) {
      var i :| 0 <= i < Reach(v, p) && Movable(v.logs, p, i, k);
      assert v.logs[p][i].idx == k;
    }
    if i :| 0 <= i < Reach(v, p) && v.logs[p][i].idx == k && v.logs[p][i].crc != 0 {
      assert Movable(v.logs, p, i, k);
    }
    if OnPage(v.logs, p, k) {
      var i :| At(v.logs, p, i, k);
      assert v.logs[p][i].idx == k;
    }
    if i :| 0 <= i < |v.logs[p]| && v.logs[p][i].idx == k {
      assert At(v.logs, p, i, k);
    }
  }

  /**
    Collecting a page that went through leaves a key with at most one record so; if it stopped
    midway, the keys of which a record was copied have two.
   */
  ghost predicate CopiesCounted(v: View, p: nat, after: Logs, done: bool)
    requires Four(v) && p < PAGES
  {
    && |after| == PAGES
    && forall k :: KeyValid(k) && AtMostOne(v.logs, k) ==>
         if !done && CopiesSome(v, p, k) then LiveOf(after, k) == 2 else AtMostOne(after, k)
  }

  lemma SweptCounted(v: View, p: nat)
    requires Aside(v, p)
    ensures CopiesCounted(v, p, Swept(v, p).logs, Completes(v, p))
  {
    hide LiveOf, AtMostOne, Swept, Movers, CountKey, CopiesSome, Completes, OnPage;
    var after := Swept(v, p).logs;
    forall k | KeyValid(k) && AtMostOne(v.logs, k)
      ensures if !Completes(v, p) && CopiesSome(v, p, k) then LiveOf(after, k) == 2 else AtMostOne(after, k)
    {
      SweptCounts(v, p, k);
      LiveAtMostOne(v.logs, k);
      LiveAtMostOne(after, k);
      CopiesCount(v, p, k);
    }
  }
}
