/**
  What the logs of the four pages mean: a map from keys to contents, given by the records that
  are not tombstones. Here are the three ways an operation changes the logs (append a record,
  turn one into a tombstone, erase a page) and what each does to the map.
 */
module StoreMap {
  import opened StoreLog

  const PAGES := 4
  const NO_PAGE := 4

  const ERASED: Byte := 0xFF
  const ACTIVE: Byte := 0xFE
  const FULL: Byte := 0xFC

  type Logs = seq<seq<Rec>>

  predicate KeyValid(k: int) {
    0 < k < 0xFFFF
  }

  /** Record `i` of page `p` carries key `k`. */
  predicate At(logs: Logs, p: int, i: int, k: int) {
    0 <= p < |logs| && 0 <= i < |logs[p]| && logs[p][i].idx == k
  }

  ghost predicate Holds(logs: Logs, k: int, v: seq<Byte>) {
    exists p, i :: At(logs, p, i, k) && logs[p][i].content == v
  }

  ghost predicate Has(logs: Logs, k: int) {
    exists p, i :: At(logs, p, i, k)
  }

  ghost predicate AtMostOne(logs: Logs, k: int) {
    forall p, i, q, j :: At(logs, p, i, k) && At(logs, q, j, k) ==> p == q && i == j
  }

  /** No key has two live records: the logs are a map. */
  ghost predicate IsMap(logs: Logs) {
    forall k :: KeyValid(k) ==> AtMostOne(logs, k)
  }

  function CountLive(log: seq<Rec>): nat {
    if log == [] then 0 else CountLive(log[..|log| - 1]) + (if log[|log| - 1].idx != 0 then 1 else 0)
  }

  function Appended(logs: Logs, p: nat, r: Rec): Logs
    requires p < |logs|
  {
    logs[p := logs[p] + [r]]
  }

  function Killed(logs: Logs, p: nat, i: nat): Logs
    requires p < |logs| && i < |logs[p]|
  {
    logs[p := logs[p][i := Dead(logs[p][i])]]
  }

  function ErasedAt(logs: Logs, p: nat): Logs
    requires p < |logs|
  {
    logs[p := []]
  }

  // ---------------------------------------------------------------------------------------
  // Counting live records

  lemma {:induction false} CountConcat(a: seq<Rec>, b: seq<Rec>)
    ensures CountLive(a + b) == CountLive(a) + CountLive(b)
  {
    if b == [] {
      assert a + b == a;
    } else {
      assert (a + b)[..|a + b| - 1] == a + b[..|b| - 1];
      CountConcat(a, b[..|b| - 1]);
    }
  }

  lemma CountOne(r: Rec)
    ensures CountLive([r]) == if r.idx != 0 then 1 else 0
  {
    assert [r][..0] == [];
  }

  lemma CountSplit(log: seq<Rec>, i: nat)
    requires i < |log|
    ensures CountLive(log) == CountLive(log[..i]) + CountLive([log[i]]) + CountLive(log[i + 1..])
  {
    assert log == log[..i] + [log[i]] + log[i + 1..];
    CountConcat(log[..i] + [log[i]], log[i + 1..]);
    CountConcat(log[..i], [log[i]]);
  }

  lemma CountKill(log: seq<Rec>, i: nat)
    requires i < |log| && log[i].idx != 0
    ensures CountLive(log) >= 1 && CountLive(log[i := Dead(log[i])]) == CountLive(log) - 1
  {
    var next := log[i := Dead(log[i])];
    CountSplit(log, i);
    CountSplit(next, i);
    assert next[..i] == log[..i] && next[i + 1..] == log[i + 1..];
    CountOne(log[i]);
    CountOne(next[i]);
  }

  lemma CountAppend(log: seq<Rec>, r: Rec)
    requires r.idx != 0
    ensures CountLive(log + [r]) == CountLive(log) + 1
  {
    CountConcat(log, [r]);
    CountOne(r);
  }

  lemma CountZero(log: seq<Rec>, i: nat)
    requires i < |log| && CountLive(log) == 0
    ensures log[i].idx == 0
  {
    CountSplit(log, i);
    CountOne(log[i]);
  }

  // ---------------------------------------------------------------------------------------
  // What each change does to the map

  lemma AtAppended(logs: Logs, p: nat, r: Rec, q: int, j: int, k: int)
    requires p < |logs|
    ensures At(Appended(logs, p, r), q, j, k) <==> At(logs, q, j, k) || (q == p && j == |logs[p]| && r.idx == k)
  {
  }

  lemma AtKilled(logs: Logs, p: nat, i: nat, q: int, j: int, k: int)
    requires p < |logs| && i < |logs[p]| && k != 0
    ensures At(Killed(logs, p, i), q, j, k) <==> At(logs, q, j, k) && !(q == p && j == i)
    ensures 0 <= q < |logs| && 0 <= j < |logs[q]| ==> Killed(logs, p, i)[q][j].content == logs[q][j].content
  {
  }

  lemma AppendHolds(logs: Logs, p: nat, r: Rec, k: int, v: seq<Byte>)
    requires p < |logs|
    ensures Holds(Appended(logs, p, r), k, v) <==> Holds(logs, k, v) || (r.idx == k && r.content == v)
  {
    var next := Appended(logs, p, r);
    if Holds(logs, k, v) {
      var q, j :| At(logs, q, j, k) && logs[q][j].content == v;
      assert At(next, q, j, k) && next[q][j].content == v;
    }
    if r.idx == k && r.content == v {
      assert At(next, p, |logs[p]|, k) && next[p][|logs[p]|].content == v;
    }
    if Holds(next, k, v) {
      var q, j :| At(next, q, j, k) && next[q][j].content == v;
      assert At(logs, q, j, k) || (q == p && j == |logs[p]|);
    }
  }

  lemma KillHolds(logs: Logs, p: nat, i: nat, k: int, v: seq<Byte>)
    requires p < |logs| && i < |logs[p]| && k != 0
    ensures Holds(Killed(logs, p, i), k, v) <==>
      exists q, j :: At(logs, q, j, k) && !(q == p && j == i) && logs[q][j].content == v
    ensures logs[p][i].idx != k ==> (Holds(Killed(logs, p, i), k, v) <==> Holds(logs, k, v))
  {
    var next := Killed(logs, p, i);
    forall q, j
      ensures At(next, q, j, k) && next[q][j].content == v <==>
        At(logs, q, j, k) && !(q == p && j == i) && logs[q][j].content == v
    {
    }
  }

  lemma EraseHolds(logs: Logs, p: nat, k: int, v: seq<Byte>)
    requires p < |logs| && CountLive(logs[p]) == 0 && k != 0
    ensures Holds(ErasedAt(logs, p), k, v) <==> Holds(logs, k, v)
  {
    var next := ErasedAt(logs, p);
    forall q, j
      ensures At(next, q, j, k) <==> At(logs, q, j, k)
    {
      if At(logs, q, j, k) && q == p {
        CountZero(logs[p], j);
      }
    }
  }

  lemma AppendOther(logs: Logs, p: nat, r: Rec, k: int)
    requires p < |logs| && r.idx != k && AtMostOne(logs, k)
    ensures AtMostOne(Appended(logs, p, r), k)
  {
    forall q, j ensures At(Appended(logs, p, r), q, j, k) <==> At(logs, q, j, k) {
      AtAppended(logs, p, r, q, j, k);
    }
  }

  lemma KillAtMostOne(logs: Logs, p: nat, i: nat, k: int)
    requires p < |logs| && i < |logs[p]| && k != 0 && AtMostOne(logs, k)
    ensures AtMostOne(Killed(logs, p, i), k)
  {
    forall q, j ensures At(Killed(logs, p, i), q, j, k) ==> At(logs, q, j, k) {
    }
  }

  lemma EraseAtMostOne(logs: Logs, p: nat, k: int)
    requires p < |logs| && AtMostOne(logs, k)
    ensures AtMostOne(ErasedAt(logs, p), k)
  {
    forall q, j ensures At(ErasedAt(logs, p), q, j, k) ==> At(logs, q, j, k) {
    }
  }

  // ---------------------------------------------------------------------------------------
  // A write as a whole

  /** `after` is `before` with key `k` mapped to `v`. */
  ghost predicate Updated(before: Logs, after: Logs, k: int, v: seq<Byte>) {
    && (forall w :: Holds(after, k, w) <==> w == v)
    && (forall k', w :: KeyValid(k') && k' != k ==> (Holds(after, k', w) <==> Holds(before, k', w)))
  }

  ghost predicate SameMap(before: Logs, after: Logs) {
    forall k, w :: KeyValid(k) ==> (Holds(after, k, w) <==> Holds(before, k, w))
  }

  lemma WriteNew(logs: Logs, p: nat, r: Rec)
    requires p < |logs| && KeyValid(r.idx) && !Has(logs, r.idx)
    ensures Updated(logs, Appended(logs, p, r), r.idx, r.content)
    ensures IsMap(logs) ==> IsMap(Appended(logs, p, r))
    ensures AtMostOne(Appended(logs, p, r), r.idx)
  {
    var next := Appended(logs, p, r);
    forall k, w ensures Holds(next, k, w) <==> Holds(logs, k, w) || (r.idx == k && r.content == w) {
      AppendHolds(logs, p, r, k, w);
    }
    forall q, j ensures At(next, q, j, r.idx) ==> q == p && j == |logs[p]| {
      AtAppended(logs, p, r, q, j, r.idx);
    }
    if IsMap(logs) {
      forall k | KeyValid(k) ensures AtMostOne(next, k) {
        if k != r.idx {
          AppendOther(logs, p, r, k);
        }
      }
    }
  }

  lemma WriteOver(logs: Logs, p: nat, r: Rec, q: nat, i: nat)
    requires p < |logs| && KeyValid(r.idx) && At(logs, q, i, r.idx) && AtMostOne(logs, r.idx)
    ensures var next := Killed(Appended(logs, p, r), q, i);
      && Updated(logs, next, r.idx, r.content)
      && (IsMap(logs) ==> IsMap(next))
      && AtMostOne(next, r.idx)
  {
    var mid := Appended(logs, p, r);
    var next := Killed(mid, q, i);
    assert At(mid, q, i, r.idx);
    OnlyOther(logs, p, r, q, i);
    forall a, b
      ensures At(next, a, b, r.idx) <==> a == p && b == |logs[p]|
      ensures a == p && b == |logs[p]| ==> next[a][b].content == r.content
    {
      AtKilled(mid, q, i, a, b, r.idx);
    }
    forall w ensures Holds(next, r.idx, w) <==> w == r.content {
      assert At(next, p, |logs[p]|, r.idx);
    }
    forall k, w | k != 0 && k != r.idx
      ensures Holds(next, k, w) <==> Holds(logs, k, w)
    {
      AppendHolds(logs, p, r, k, w);
      KillHolds(mid, q, i, k, w);
    }
    if IsMap(logs) {
      forall k | KeyValid(k) ensures AtMostOne(next, k) {
        if k != r.idx {
          AppendOther(logs, p, r, k);
          KillAtMostOne(mid, q, i, k);
        }
      }
    }
  }

  /** Besides the old record only the new one carries the key. */
  lemma OnlyOther(logs: Logs, p: nat, r: Rec, q: nat, i: nat)
    requires p < |logs| && At(logs, q, i, r.idx) && AtMostOne(logs, r.idx)
    ensures forall a, b :: At(Appended(logs, p, r), a, b, r.idx) && !(a == q && b == i) <==> a == p && b == |logs[p]|
  {
    forall a, b
      ensures At(Appended(logs, p, r), a, b, r.idx) && !(a == q && b == i) <==> a == p && b == |logs[p]|
    {
      AtAppended(logs, p, r, a, b, r.idx);
    }
  }

  // ---------------------------------------------------------------------------------------
  // Deleting records of one key

  /** Only key `key` may have changed, and no key has gained a record. */
  ghost predicate OnlyKey(before: Logs, after: Logs, key: int) {
    && (forall k, w :: KeyValid(k) && k != key ==> (Holds(after, k, w) <==> Holds(before, k, w)))
    && (forall k :: KeyValid(k) && AtMostOne(before, k) ==> AtMostOne(after, k))
  }

  lemma KillOnlyKey(logs: Logs, p: nat, i: nat, key: int)
    requires At(logs, p, i, key) && KeyValid(key)
    ensures OnlyKey(logs, Killed(logs, p, i), key)
  {
    var next := Killed(logs, p, i);
    forall k, w | KeyValid(k) && k != key ensures Holds(next, k, w) <==> Holds(logs, k, w) {
      KillHolds(logs, p, i, k, w);
    }
    forall k | KeyValid(k) && AtMostOne(logs, k) ensures AtMostOne(next, k) {
      KillAtMostOne(logs, p, i, k);
    }
  }

  lemma EraseKeepsMap(logs: Logs, p: nat)
    requires p < |logs| && CountLive(logs[p]) == 0
    ensures SameMap(logs, ErasedAt(logs, p))
    ensures forall k :: KeyValid(k) && AtMostOne(logs, k) ==> AtMostOne(ErasedAt(logs, p), k)
  {
    var next := ErasedAt(logs, p);
    forall k, w | KeyValid(k) ensures Holds(next, k, w) <==> Holds(logs, k, w) {
      EraseHolds(logs, p, k, w);
    }
    forall k | KeyValid(k) && AtMostOne(logs, k) ensures AtMostOne(next, k) {
      EraseAtMostOne(logs, p, k);
    }
  }

  lemma OnlyKeyReflexive(logs: Logs, key: int)
    ensures OnlyKey(logs, logs, key)
  {
  }

  lemma OnlyKeyTransitive(a: Logs, b: Logs, c: Logs, key: int)
    requires OnlyKey(a, b, key) && OnlyKey(b, c, key)
    ensures OnlyKey(a, c, key)
  {
  }

  /** The offsets of a page do not move when one of its records is deleted. */
  lemma OffsetKilled(log: seq<Rec>, i: nat, j: nat)
    requires i < |log| && j <= |log|
    ensures Offset(log[i := Dead(log[i])], j) == Offset(log, j)
  {
    var next := log[i := Dead(log[i])];
    if j <= i {
      assert next[..j] == log[..j];
    } else {
      var a, b := log[..j], next[..j];
      assert b == a[i := Dead(a[i])];
      EncodeSplit(a, i);
      EncodeSplit(b, i);
      assert a[..i] == b[..i] && a[i + 1..] == b[i + 1..];
    }
  }

  /** A scan by byte offset stops exactly behind the last record. */
  lemma OffsetBelowEnd(log: seq<Rec>, i: nat)
    requires i <= |log|
    ensures Offset(log, i) < |EncodeAll(log)| <==> i < |log|
  {
    if i < |log| {
      EncodeSplit(log, i);
    } else {
      OffsetEnd(log);
    }
  }

  // ---------------------------------------------------------------------------------------
  // Moving the live records of a page elsewhere before erasing it

  ghost predicate OffPage(logs: Logs, p: nat, k: int, w: seq<Byte>) {
    exists q, j :: q != p && At(logs, q, j, k) && logs[q][j].content == w
  }

  /** Record `j` of page `p` is one that garbage collection moves: live, with a nonzero CRC byte. */
  predicate Movable(logs: Logs, p: nat, j: int, k: int) {
    At(logs, p, j, k) && logs[p][j].crc != 0
  }

  /** What garbage collection of page `p` preserves: everything but its records with a zero CRC byte. */
  ghost predicate Kept(logs: Logs, p: nat, k: int, w: seq<Byte>) {
    OffPage(logs, p, k, w) || exists j :: Movable(logs, p, j, k) && logs[p][j].content == w
  }

  /** Some of the first `i` records of page `p` have been copied to the other pages. */
  ghost predicate Copied(before: Logs, p: nat, i: int, k: int, w: seq<Byte>) {
    exists j :: j < i && Movable(before, p, j, k) && before[p][j].content == w
  }

  /** A key that was unique stays so off page `p`, and is not there while its record waits on `p`. */
  ghost predicate UniqueOff(before: Logs, now: Logs, p: nat, i: int, k: int) {
    && (forall q, j, r, m :: q != p && r != p && At(now, q, j, k) && At(now, r, m, k) ==> q == r && j == m)
    && (forall q, j, m :: q != p && At(now, q, j, k) && m >= i ==> !At(before, p, m, k))
  }

  ghost predicate Moved(before: Logs, now: Logs, p: nat, i: int) {
    && p < |before| && |now| == |before| && now[p] == before[p] && 0 <= i <= |before[p]|
    && (forall q :: 0 <= q < |before| ==> before[q] <= now[q])
    && (forall k, w :: KeyValid(k) ==>
          (OffPage(now, p, k, w) <==> OffPage(before, p, k, w) || Copied(before, p, i, k, w)))
    && (forall k :: KeyValid(k) && AtMostOne(before, k) ==> UniqueOff(before, now, p, i, k))
  }

  lemma MovedStart(logs: Logs, p: nat)
    requires p < |logs|
    ensures Moved(logs, logs, p, 0)
  {
  }

  lemma MovedSkip(before: Logs, now: Logs, p: nat, i: nat)
    requires Moved(before, now, p, i) && i < |before[p]|
    requires before[p][i].crc == 0 || before[p][i].idx == 0
    ensures Moved(before, now, p, i + 1)
  {
    forall k, w | KeyValid(k) ensures Copied(before, p, i + 1, k, w) <==> Copied(before, p, i, k, w) {
      if Copied(before, p, i + 1, k, w) {
        var j :| j < i + 1 && Movable(before, p, j, k) && before[p][j].content == w;
        assert j < i;
      }
    }
  }

  lemma AppendOffPage(logs: Logs, q: nat, r: Rec, p: nat, k: int, w: seq<Byte>)
    requires q < |logs| && q != p
    ensures OffPage(Appended(logs, q, r), p, k, w) <==> OffPage(logs, p, k, w) || (r.idx == k && r.content == w)
  {
    var next := Appended(logs, q, r);
    if OffPage(logs, p, k, w) {
      var a, b :| a != p && At(logs, a, b, k) && logs[a][b].content == w;
      assert At(next, a, b, k) && next[a][b].content == w;
    }
    if r.idx == k && r.content == w {
      assert At(next, q, |logs[q]|, k) && next[q][|logs[q]|].content == w;
    }
    if OffPage(next, p, k, w) {
      var a, b :| a != p && At(next, a, b, k) && next[a][b].content == w;
      assert At(logs, a, b, k) || (a == q && b == |logs[q]|);
    }
  }

  lemma MovedCopy(before: Logs, now: Logs, p: nat, i: nat, q: nat)
    requires Moved(before, now, p, i) && i < |before[p]| && q < |now| && q != p
    requires before[p][i].crc != 0 && before[p][i].idx != 0
    ensures Moved(before, Appended(now, q, before[p][i]), p, i + 1)
  {
    var r := before[p][i];
    var next := Appended(now, q, r);
    forall k, w | KeyValid(k)
      ensures OffPage(next, p, k, w) <==> OffPage(before, p, k, w) || Copied(before, p, i + 1, k, w)
    {
      AppendOffPage(now, q, r, p, k, w);
      CopiedNext(before, p, i, k, w);
    }
    forall k | KeyValid(k) && AtMostOne(before, k) ensures UniqueOff(before, next, p, i + 1, k) {
      UniqueCopy(before, now, p, i, q, k);
    }
  }

  lemma CopiedNext(before: Logs, p: nat, i: nat, k: int, w: seq<Byte>)
    requires p < |before| && i < |before[p]| && before[p][i].crc != 0
    ensures Copied(before, p, i + 1, k, w) <==>
      Copied(before, p, i, k, w) || (before[p][i].idx == k && before[p][i].content == w)
  {
    if before[p][i].idx == k && before[p][i].content == w {
      assert Movable(before, p, i, k);
    }
    if Copied(before, p, i + 1, k, w) {
      var j :| j < i + 1 && Movable(before, p, j, k) && before[p][j].content == w;
      assert j < i || j == i;
    }
  }

  lemma UniqueCopy(before: Logs, now: Logs, p: nat, i: nat, q: nat, k: int)
    requires p < |before| && |now| == |before| && i < |before[p]| && q < |now| && q != p && k != 0
    requires AtMostOne(before, k) && UniqueOff(before, now, p, i, k)
    ensures UniqueOff(before, Appended(now, q, before[p][i]), p, i + 1, k)
  {
    var r := before[p][i];
    var next := Appended(now, q, r);
    assert r.idx == k ==> At(before, p, i, k);
    forall a, b ensures At(next, a, b, k) <==> At(now, a, b, k) || (a == q && b == |now[q]| && r.idx == k) {
      AtAppended(now, q, r, a, b, k);
    }
  }

  /** The map of a page's collection: nothing is lost but records with a zero CRC byte. */
  lemma MovedErase(before: Logs, now: Logs, p: nat)
    requires p < |before| && Moved(before, now, p, |before[p]|)
    ensures var after := ErasedAt(now, p);
      && (forall k, w :: KeyValid(k) ==> (Holds(after, k, w) <==> Kept(before, p, k, w)))
      && (forall k :: KeyValid(k) && AtMostOne(before, k) ==> AtMostOne(after, k))
      && KeepsAll(before, p, after)
  {
    var after := ErasedAt(now, p);
    forall k, q, j ensures At(after, q, j, k) <==> q != p && At(now, q, j, k) {
    }
    forall k, w | KeyValid(k) ensures Holds(after, k, w) <==> Kept(before, p, k, w) {
      assert Holds(after, k, w) <==> OffPage(now, p, k, w);
      CopiedAll(before, p, k, w);
    }
    forall k | KeyValid(k) && AtMostOne(before, k) ensures AtMostOne(after, k) {
      assert UniqueOff(before, now, p, |before[p]|, k);
    }
  }

  lemma CopiedAll(before: Logs, p: nat, k: int, w: seq<Byte>)
    requires p < |before|
    ensures Copied(before, p, |before[p]|, k, w) <==> exists j :: Movable(before, p, j, k) && before[p][j].content == w
  {
    if j :| Movable(before, p, j, k) && before[p][j].content == w {
      assert j < |before[p]|;
    }
  }

  /** While records are being moved every key still has its content. */
  lemma MovedHolds(before: Logs, now: Logs, p: nat, i: int)
    requires Moved(before, now, p, i)
    ensures SameMap(before, now)
  {
    forall k, w | KeyValid(k) ensures Holds(now, k, w) <==> Holds(before, k, w) {
      if Holds(before, k, w) {
        var q, j :| At(before, q, j, k) && before[q][j].content == w;
        assert At(now, q, j, k) && now[q][j].content == w;
      }
      if Holds(now, k, w) {
        var q, j :| At(now, q, j, k) && now[q][j].content == w;
        if q == p {
          assert At(before, q, j, k);
        } else {
          assert OffPage(now, p, k, w);
          if Copied(before, p, i, k, w) {
            var m :| m < i && Movable(before, p, m, k) && before[p][m].content == w;
            assert At(before, p, m, k);
          } else {
            var a, b :| a != p && At(before, a, b, k) && before[a][b].content == w;
          }
        }
      }
    }
  }

  /** `now` has everything that collecting page `p` of `before` preserves. */
  ghost predicate KeepsAll(before: Logs, p: nat, now: Logs) {
    forall k, w :: KeyValid(k) && Kept(before, p, k, w) ==> Holds(now, k, w)
  }

  lemma MovedKeeps(before: Logs, now: Logs, p: nat, i: int)
    requires Moved(before, now, p, i)
    ensures KeepsAll(before, p, now)
  {
    MovedHolds(before, now, p, i);
    forall k, w | KeyValid(k) && Kept(before, p, k, w) ensures Holds(now, k, w) {
      if OffPage(before, p, k, w) {
        var q, j :| q != p && At(before, q, j, k) && before[q][j].content == w;
        assert Holds(before, k, w);
      } else {
        var j :| Movable(before, p, j, k) && before[p][j].content == w;
        assert At(before, p, j, k);
      }
    }
  }

  /** Whatever collecting page `p` of `before` keeps is still there or, for key `k`, replaced by `v`. */
  ghost predicate Preserves(before: Logs, p: nat, now: Logs, k: int, v: seq<Byte>) {
    forall k', w :: KeyValid(k') && Kept(before, p, k', w) ==> Holds(now, k', w) || (k' == k && Holds(now, k, v))
  }

  lemma KeepsPreserves(before: Logs, p: nat, now: Logs, k: int, v: seq<Byte>)
    requires KeepsAll(before, p, now)
    ensures Preserves(before, p, now, k, v)
  {
    hide Kept, Holds;
  }

  /** Key `k` has a record on page `p`. */
  ghost predicate OnPage(logs: Logs, p: nat, k: int) {
    exists i :: At(logs, p, i, k)
  }

  /**
    Collecting page `p` lost at most its records with a zero CRC byte, invented nothing, and left
    a unique record elsewhere unique.
   */
  ghost predicate Collected(before: Logs, p: nat, now: Logs) {
    && KeepsAll(before, p, now)
    && (forall k, w :: KeyValid(k) && Holds(now, k, w) ==> Holds(before, k, w))
    && (forall k :: KeyValid(k) && AtMostOne(before, k) && !OnPage(before, p, k) ==> AtMostOne(now, k))
  }

  /** Collecting page `p` went through to the end: the page is empty and exactly what is kept is left. */
  ghost predicate Emptied(before: Logs, p: nat, now: Logs) {
    && p < |now| && now[p] == []
    && forall k, w :: KeyValid(k) ==> (Holds(now, k, w) <==> Kept(before, p, k, w))
  }

  ghost predicate HoldsOnly(after: Logs, k: int, v: seq<Byte>) {
    forall w :: Holds(after, k, w) <==> w == v
  }

  /** Key `k` holds `v` and whatever collecting page `p` kept of its old content. */
  ghost predicate HoldsBoth(before: Logs, p: nat, after: Logs, k: int, v: seq<Byte>) {
    forall w :: Holds(after, k, w) <==> w == v || Kept(before, p, k, w)
  }

  /** Key `k` holds just what collecting page `p` kept of its old content. */
  ghost predicate HoldsOld(before: Logs, p: nat, after: Logs, k: int) {
    forall w :: Holds(after, k, w) <==> Kept(before, p, k, w)
  }

  lemma MovedCollected(before: Logs, now: Logs, p: nat, i: int)
    requires Moved(before, now, p, i)
    ensures Collected(before, p, now)
  {
    hide KeepsAll;
    MovedKeeps(before, now, p, i);
    MovedHolds(before, now, p, i);
    forall k | KeyValid(k) && AtMostOne(before, k) && !OnPage(before, p, k) ensures AtMostOne(now, k) {
      assert UniqueOff(before, now, p, i, k);
      assert forall j :: At(now, p, j, k) ==> At(before, p, j, k);
    }
  }

  lemma ErasedCollected(before: Logs, p: nat, now: Logs)
    requires KeepsAll(before, p, now)
    requires forall k, w :: KeyValid(k) ==> (Holds(now, k, w) <==> Kept(before, p, k, w))
    requires forall k :: KeyValid(k) && AtMostOne(before, k) ==> AtMostOne(now, k)
    ensures Collected(before, p, now)
  {
    hide KeepsAll, AtMostOne;
    forall k, w | KeyValid(k) && Kept(before, p, k, w) ensures Holds(before, k, w) {
      if OffPage(before, p, k, w) {
        var q, j :| q != p && At(before, q, j, k) && before[q][j].content == w;
      } else {
        var j :| Movable(before, p, j, k) && before[p][j].content == w;
        assert At(before, p, j, k);
      }
    }
  }

  lemma NothingInvented(before: Logs, p: nat, now: Logs, key: int)
    requires Collected(before, p, now) && KeyValid(key)
    ensures Has(now, key) ==> Has(before, key)
  {
    hide AtMostOne, Kept;
    if Has(now, key) {
      var q, j :| At(now, q, j, key);
      assert Holds(now, key, now[q][j].content);
      var a, b :| At(before, a, b, key);
    }
  }

  /** Keys other than `key` hold what they held. */
  ghost predicate OthersSame(before: Logs, after: Logs, key: int) {
    forall k, w :: KeyValid(k) && k != key ==> (Holds(after, k, w) <==> Holds(before, k, w))
  }

  /** The keys other than `key`, after page `p` was collected: nothing but zero-CRC records lost, nothing invented. */
  ghost predicate OthersCollected(before: Logs, p: nat, after: Logs, key: int) {
    && (forall k, w :: KeyValid(k) && k != key && Kept(before, p, k, w) ==> Holds(after, k, w))
    && (forall k, w :: KeyValid(k) && k != key && Holds(after, k, w) ==> Holds(before, k, w))
  }

  lemma CollectThenOthers(before: Logs, p: nat, mid: Logs, after: Logs, key: int)
    requires Collected(before, p, mid) && OthersSame(mid, after, key)
    ensures OthersCollected(before, p, after, key)
  {
    hide AtMostOne, Holds, Kept;
  }

  /** Deleting the very record that was just appended leaves the map as it was. */
  lemma AppendThenKill(logs: Logs, p: nat, r: Rec)
    requires p < |logs| && KeyValid(r.idx)
    ensures SameMap(logs, Killed(Appended(logs, p, r), p, |logs[p]|))
  {
    var mid := Appended(logs, p, r);
    var after := Killed(mid, p, |logs[p]|);
    assert forall k, q, j :: KeyValid(k) ==> (At(after, q, j, k) <==> At(logs, q, j, k));
    forall k, w | KeyValid(k) ensures Holds(after, k, w) <==> Holds(logs, k, w) {
      if Holds(logs, k, w) {
        var q, j :| At(logs, q, j, k) && logs[q][j].content == w;
        assert At(after, q, j, k);
      }
      if Holds(after, k, w) {
        var q, j :| At(after, q, j, k) && after[q][j].content == w;
        assert At(logs, q, j, k);
      }
    }
  }

  lemma AppendOthers(logs: Logs, p: nat, r: Rec)
    requires p < |logs|
    ensures OthersSame(logs, Appended(logs, p, r), r.idx)
  {
    forall k, w | KeyValid(k) && k != r.idx ensures Holds(Appended(logs, p, r), k, w) <==> Holds(logs, k, w) {
      AppendHolds(logs, p, r, k, w);
    }
  }

  lemma SameOthers(logs: Logs, key: int)
    ensures OthersSame(logs, logs, key)
  {
    hide Holds;
  }

  lemma OthersChain(a: Logs, b: Logs, c: Logs, key: int)
    requires OthersSame(a, b, key) && OthersSame(b, c, key)
    ensures OthersSame(a, c, key)
  {
    hide Holds;
  }

  lemma OnlyKeyOthers(before: Logs, after: Logs, key: int)
    requires OnlyKey(before, after, key)
    ensures OthersSame(before, after, key)
  {
    hide Holds, AtMostOne;
  }

  /** Pages were only appended to, or erased. */
  ghost predicate Evolved(before: Logs, after: Logs) {
    |after| == |before| && forall q :: 0 <= q < |before| ==> after[q] == [] || before[q] <= after[q]
  }

  lemma MovedEvolved(before: Logs, now: Logs, p: nat, i: int)
    requires Moved(before, now, p, i)
    ensures Evolved(before, now) && now[p] == before[p]
    ensures forall q :: 0 <= q < |before| ==> before[q] <= now[q]
  {
  }

  lemma UpdatedThenSame(before: Logs, mid: Logs, after: Logs, k: int, v: seq<Byte>)
    requires KeyValid(k) && Updated(before, mid, k, v) && SameMap(mid, after)
    ensures Updated(before, after, k, v)
  {
  }

  /** Every record but the first starts behind a header. */
  lemma {:induction false} OffsetPositive(log: seq<Rec>, i: nat)
    requires 0 < i <= |log|
    ensures Offset(log, i) >= HEADER_SIZE
  {
    EncodeSplit(log, i - 1);
  }

  /** Appending to a page leaves the records before where they are. */
  lemma OffsetPrefix(a: seq<Rec>, b: seq<Rec>, i: nat)
    requires a <= b && i <= |a|
    ensures Offset(b, i) == Offset(a, i)
  {
    assert b[..i] == a[..i];
  }

  lemma OneHolds(logs: Logs, k: int, p: nat, i: nat)
    requires At(logs, p, i, k) && AtMostOne(logs, k)
    ensures Has(logs, k) && forall v :: Holds(logs, k, v) <==> v == logs[p][i].content
  {
  }
}
