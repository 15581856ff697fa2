/**
  1-Wire ROM codes as 64-bit words in bus order, and the walk of a binary trie that both
  search algorithms of the firmware perform over a shared, wired-AND bus.

  Everything here is mathematics about finite sets of ROM codes: the searches themselves,
  which only see the bus one bit slot at a time, are in RomSearch.
 */
module RomOrder {

  const ROM_BITS := 64

  /** A ROM code, least significant bit of its first (family) byte first. */
  type Rom = r: seq<bool> | |r| == 64 witness seq(64, _ => false)

  /** The first 8 bits of a ROM code are its family byte. */
  predicate ZeroFamily(r: Rom) {
    forall i :: 0 <= i < 8 ==> !r[i]
  }

  ghost predicate Less(a: Rom, b: Rom) {
    exists k :: DivergeAt(a, b, k)
  }

  /** `a` and `b` share exactly their first `k` bits, and `a` goes to the 0 side. */
  ghost predicate DivergeAt(a: Rom, b: Rom, k: int) {
    0 <= k < 64 && (forall j :: 0 <= j < k ==> a[j] == b[j]) && !a[k] && b[k]
  }

  lemma LessTransitive(a: Rom, b: Rom, c: Rom)
    requires Less(a, b) && Less(b, c)
    ensures Less(a, c)
  {
    var j :| DivergeAt(a, b, j);
    var k :| DivergeAt(b, c, k);
    assert DivergeAt(a, c, if j < k then j else k);
  }

  lemma LessIrreflexive(a: Rom, b: Rom)
    requires Less(a, b)
    ensures !Less(b, a) && a != b
  {
    var j :| DivergeAt(a, b, j);
    forall k ensures !DivergeAt(b, a, k) {
      assert k < j || k == j || j < k;
    }
  }

  lemma LessTotal(a: Rom, b: Rom)
    requires a != b
    ensures Less(a, b) || Less(b, a)
  {
    var k := FirstDifference(a, b, 0);
    assert if a[k] then DivergeAt(b, a, k) else DivergeAt(a, b, k);
  }

  ghost function FirstDifference(a: Rom, b: Rom, n: nat): (k: nat)
    requires n <= 64 && a != b && forall j :: 0 <= j < n ==> a[j] == b[j]
    ensures n <= k < 64 && a[k] != b[k] && forall j :: 0 <= j < k ==> a[j] == b[j]
    decreases 64 - n
  {
    assert n < 64;
    if a[n] != b[n] then n else FirstDifference(a, b, n + 1)
  }

  // ---------------------------------------------------------------------------------------
  // The trie of a set of ROM codes: a node is a prefix, and a node with two subtrees is a
  // discrepancy on the bus.

  ghost predicate Has(S: set<Rom>, p: seq<bool>) {
    exists d :: d in S && p <= d
  }

  ghost predicate Fork(S: set<Rom>, p: seq<bool>) {
    Has(S, p + [false]) && Has(S, p + [true])
  }

  lemma ChildPrefix(p: seq<bool>, b: bool, d: Rom)
    requires |p| < 64
    ensures p + [b] <= d <==> p <= d && d[|p|] == b
  {
  }

  lemma HasChild(S: set<Rom>, p: seq<bool>)
    requires Has(S, p) && |p| < 64
    ensures Has(S, p + [false]) || Has(S, p + [true])
  {
    var d: Rom :| d in S && p <= d;
    assert p + [d[|p|]] <= d;
    if d[|p|] {
      assert Has(S, p + [true]);
    } else {
      assert Has(S, p + [false]);
    }
  }

  /**
    The bit a search writes at node `p`: forced where the bus agrees; at a discrepancy the
    bit of the previous ROM before position `last` (counted from 1), 1 at `last` and 0 after.
   */
  ghost function Pick(S: set<Rom>, prev: Rom, last: int, p: seq<bool>): bool
    requires |p| < 64
  {
    if !Fork(S, p) then Has(S, p + [true])
    else if |p| + 1 < last then prev[|p|]
    else |p| + 1 == last
  }

  /** The first `n` bits a search follows. */
  ghost function Descent(S: set<Rom>, prev: Rom, last: int, n: nat): (p: seq<bool>)
    requires n <= 64 && S != {}
    ensures |p| == n && Has(S, p)
  {
    if n == 0 then
      var d :| d in S;
      assert [] <= d;
      []
    else
      var p := Descent(S, prev, last, n - 1);
      HasChild(S, p);
      p + [Pick(S, prev, last, p)]
  }

  lemma DescentStep(S: set<Rom>, prev: Rom, last: int, n: nat)
    requires n < 64 && S != {}
    ensures var p := Descent(S, prev, last, n); Descent(S, prev, last, n + 1) == p + [Pick(S, prev, last, p)]
  {
  }

  /** The ROM code that one pass of either search finds. */
  ghost function Found(S: set<Rom>, prev: Rom, last: int): (r: Rom)
    requires S != {}
    ensures r in S
  {
    var r := Descent(S, prev, last, 64);
    var d :| d in S && r <= d;
    assert r == d;
    r
  }

  /** The positions, counted from 1, of the discrepancies at which `y` takes the 0 branch. */
  ghost function Zeros(S: set<Rom>, y: seq<bool>, n: nat): (z: seq<nat>)
    requires n <= |y| <= 64
    ensures |z| <= n
  {
    if n == 0 then []
    else
      var z := Zeros(S, y, n - 1);
      if !y[n - 1] && Fork(S, y[..n - 1]) then z + [n] else z
  }

  ghost predicate IncreasingWithin(z: seq<nat>, n: nat) {
    && (forall i :: 0 <= i < |z| ==> 1 <= z[i] <= n)
    && (forall i, j :: 0 <= i < j < |z| ==> z[i] < z[j])
  }

  /** The stack of 0-branches is strictly increasing, within 1..n. */
  lemma {:induction false} ZerosIncreasing(S: set<Rom>, y: seq<bool>, n: nat)
    requires n <= |y| <= 64
    ensures IncreasingWithin(Zeros(S, y, n), n)
  {
    if n > 0 {
      ZerosIncreasing(S, y, n - 1);
    }
  }

  /** None is missing, so the topmost is an upper bound. */
  lemma {:induction false} ZerosComplete(S: set<Rom>, y: seq<bool>, n: nat, k: nat)
    requires n <= |y| <= 64 && 1 <= k <= n
    requires !y[k - 1] && Fork(S, y[..k - 1])
    ensures k in Zeros(S, y, n) && k <= Last(Zeros(S, y, n))
  {
    if k < n {
      ZerosComplete(S, y, n - 1, k);
    }
  }

  /** The topmost 0-branch is one. */
  lemma {:induction false} ZerosTop(S: set<Rom>, y: seq<bool>, n: nat)
    requires n <= |y| <= 64
    ensures var last := Last(Zeros(S, y, n));
      && last <= n
      && (last > 0 ==> !y[last - 1] && Fork(S, y[..last - 1]))
      && (Zeros(S, y, n) == [] <==> last == 0)
  {
    if n > 0 {
      ZerosTop(S, y, n - 1);
    }
  }

  ghost function Last(z: seq<nat>): nat {
    if z == [] then 0 else z[|z| - 1]
  }

  ghost function LastZero(S: set<Rom>, y: Rom): nat {
    Last(Zeros(S, y, 64))
  }

  lemma {:induction false} ZerosOfPrefix(S: set<Rom>, a: seq<bool>, b: seq<bool>, n: nat)
    requires n <= |a| <= 64 && n <= |b| <= 64 && a[..n] == b[..n]
    ensures Zeros(S, a, n) == Zeros(S, b, n)
  {
    if n > 0 {
      assert a[..n - 1] == a[..n][..n - 1] == b[..n][..n - 1] == b[..n - 1];
      assert a[n - 1] == a[..n][n - 1] == b[..n][n - 1] == b[n - 1];
      ZerosOfPrefix(S, a, b, n - 1);
    }
  }

  /** The 0-branch that one more bit may add. */
  lemma ZerosAdvance(S: set<Rom>, p: seq<bool>, b: bool)
    requires |p| < 64
    ensures Zeros(S, p + [b], |p| + 1) == Zeros(S, p, |p|) + if Fork(S, p) && !b then [|p| + 1] else []
  {
    var q := p + [b];
    assert q[..|p|] == p;
    assert p[..|p|] == p;
    ZerosOfPrefix(S, q, p, |p|);
  }

  /** Popping the stack of 0-branches leaves those before the one popped. */
  lemma {:induction false} ZerosBelowLast(S: set<Rom>, y: seq<bool>, n: nat)
    requires n <= |y| <= 64 && Zeros(S, y, n) != []
    ensures var z := Zeros(S, y, n); 1 <= Last(z) <= n && Zeros(S, y, Last(z) - 1) == z[..|z| - 1]
  {
    if !y[n - 1] && Fork(S, y[..n - 1]) {
      assert Zeros(S, y, n) == Zeros(S, y, n - 1) + [n];
      assert y[..n] == y[..n - 1] + [y[n - 1]];
    } else {
      ZerosBelowLast(S, y, n - 1);
    }
  }

  lemma {:induction false} DescentPrefix(S: set<Rom>, prev: Rom, last: int, n: nat, m: nat)
    requires n <= m <= 64 && S != {}
    ensures Descent(S, prev, last, m)[..n] == Descent(S, prev, last, n)
  {
    if n < m {
      DescentPrefix(S, prev, last, n, m - 1);
      var p := Descent(S, prev, last, m - 1);
      assert Descent(S, prev, last, m) == p + [Pick(S, prev, last, p)];
      assert (p + [Pick(S, prev, last, p)])[..n] == p[..n];
    } else {
      var p := Descent(S, prev, last, m);
      assert p[..n] == p;
    }
  }

  /** Before the last discrepancy a search retraces the previous ROM. */
  lemma {:induction false} DescentRetraces(S: set<Rom>, prev: Rom, last: nat, n: nat)
    requires prev in S && n < last <= 64
    ensures Descent(S, prev, last, n) == prev[..n]
  {
    if n > 0 {
      DescentRetraces(S, prev, last, n - 1);
      var p := prev[..n - 1];
      assert p + [prev[n - 1]] == prev[..n] <= prev;
      assert Has(S, p + [prev[n - 1]]);
      assert Pick(S, prev, last, p) == prev[n - 1];
    }
  }

  /** After the last discrepancy a search takes the least ROM below its node. */
  lemma FoundIsLeastBelow(S: set<Rom>, prev: Rom, last: nat, d: Rom)
    requires d in S && last <= 64 && Descent(S, prev, last, last) <= d
    ensures d == Found(S, prev, last) || Less(Found(S, prev, last), d)
  {
    var y := Found(S, prev, last);
    if d != y {
      var k := FirstDifference(y, d, 0);
      FoundBits(S, prev, last, last);
      if last <= k {
        FoundBits(S, prev, last, k);
        ForkWhereDifferent(S, y, d, k);
        assert DivergeAt(y, d, k);
      } else {
        assert false;
      }
    }
  }

  lemma ForkWhereDifferent(S: set<Rom>, y: Rom, d: Rom, k: nat)
    requires y in S && d in S && k < 64 && y[k] != d[k]
    requires forall j :: 0 <= j < k ==> y[j] == d[j]
    ensures Fork(S, y[..k])
  {
    assert y[..k] == d[..k];
    assert y[..k] + [y[k]] <= y;
    assert y[..k] + [d[k]] <= d;
    assert Has(S, y[..k] + [y[k]]);
    assert Has(S, y[..k] + [d[k]]);
  }

  /** What a search finds is spelled by its descent, bit by bit. */
  lemma FoundBits(S: set<Rom>, prev: Rom, last: int, k: nat)
    requires S != {} && k <= 64
    ensures Found(S, prev, last)[..k] == Descent(S, prev, last, k)
    ensures k < 64 ==> Found(S, prev, last)[k] == Pick(S, prev, last, Descent(S, prev, last, k))
  {
    DescentPrefix(S, prev, last, k, 64);
    if k < 64 {
      DescentPrefix(S, prev, last, k + 1, 64);
      var y := Found(S, prev, last);
      assert y[k] == y[..k + 1][k];
    }
  }

  /** A search with `last` 0 finds the least ROM. */
  lemma FirstIsMinimum(S: set<Rom>, prev: Rom, d: Rom)
    requires d in S
    ensures d == Found(S, prev, 0) || Less(Found(S, prev, 0), d)
  {
    FoundIsLeastBelow(S, prev, 0, d);
  }

  ghost predicate IsMaximum(S: set<Rom>, x: Rom) {
    forall d :: d in S ==> !Less(x, d)
  }

  /** Whatever is above `x` leaves it at one of its 0-branches. */
  lemma AboveLeavesAtZero(S: set<Rom>, x: Rom, d: Rom, k: int)
    requires x in S && d in S && DivergeAt(x, d, k)
    ensures k + 1 <= LastZero(S, x)
  {
    assert x[..k] == d[..k];
    assert x[..k] + [false] <= x && x[..k] + [true] <= d;
    assert Fork(S, x[..k]);
    ZerosComplete(S, x, 64, k + 1);
  }

  lemma MaximumHasNoZeros(S: set<Rom>, x: Rom)
    requires x in S
    ensures LastZero(S, x) == 0 <==> IsMaximum(S, x)
  {
    if LastZero(S, x) == 0 {
      forall d | d in S ensures !Less(x, d) {
        if Less(x, d) {
          var k :| DivergeAt(x, d, k);
          AboveLeavesAtZero(S, x, d, k);
        }
      }
    } else {
      var k := LastZero(S, x) - 1;
      ZerosTop(S, x, 64);
      assert Has(S, x[..k] + [true]);
      var d :| d in S && x[..k] + [true] <= d;
      assert d[..k] == x[..k] && d[k];
      assert forall j :: 0 <= j < k ==> d[j] == d[..k][j] == x[..k][j] == x[j];
      assert DivergeAt(x, d, k);
    }
  }

  /** One pass yields the successor: the least ROM above the previous one. */
  lemma FoundIsSuccessor(S: set<Rom>, x: Rom, d: Rom)
    requires x in S && LastZero(S, x) != 0 && d in S
    ensures Less(x, Found(S, x, LastZero(S, x)))
    ensures Less(x, d) ==> d == Found(S, x, LastZero(S, x)) || Less(Found(S, x, LastZero(S, x)), d)
  {
    hide Descent, Zeros;
    var last := LastZero(S, x);
    ZerosTop(S, x, 64);
    var y := Found(S, x, last);
    var p := x[..last - 1];
    DescentRetraces(S, x, last, last - 1);
    FoundBits(S, x, last, last - 1);
    assert y[..last - 1] == p && y[last - 1];
    assert forall j :: 0 <= j < last - 1 ==> y[j] == y[..last - 1][j] == p[j] == x[j];
    assert DivergeAt(x, y, last - 1);
    if Less(x, d) {
      var k :| DivergeAt(x, d, k);
      AboveLeavesAtZero(S, x, d, k);
      if k + 1 == last {
        assert p == d[..last - 1];
        DescentStep(S, x, last, last - 1);
        assert Descent(S, x, last, last) == p + [true] <= d;
        FoundIsLeastBelow(S, x, last, d);
      } else {
        assert DivergeAt(y, d, k);
      }
    }
  }

  // ---------------------------------------------------------------------------------------
  // Enumerations

  /** `out` lists the |out| least members of `S`, each once, in increasing order. */
  ghost predicate Lists(S: set<Rom>, out: seq<Rom>) {
    && (forall i, j :: 0 <= i < j < |out| ==> Less(out[i], out[j]))
    && (forall i :: 0 <= i < |out| ==> out[i] in S)
    && (forall i, d :: 0 <= i < |out| && d in S && d !in out ==> Less(out[i], d))
  }

  ghost function Range(out: seq<Rom>): set<Rom> {
    set i | 0 <= i < |out| :: out[i]
  }

  lemma {:induction false} ListsSize(S: set<Rom>, out: seq<Rom>)
    requires forall i, j :: 0 <= i < j < |out| ==> Less(out[i], out[j])
    ensures |Range(out)| == |out|
  {
    if out != [] {
      var n := |out| - 1;
      var init := out[..n];
      ListsSize(S, init);
      forall i | 0 <= i < n ensures out[i] != out[n] {
        LessIrreflexive(out[i], out[n]);
      }
      assert out[n] !in Range(init);
      assert Range(out) == Range(init) + {out[n]} by {
        forall r | r in Range(out) ensures r in Range(init) + {out[n]} {
          var i :| 0 <= i < |out| && out[i] == r;
          assert i < n ==> init[i] == r;
        }
        forall r | r in Range(init) ensures r in Range(out) {
          var i :| 0 <= i < n && init[i] == r;
          assert out[i] == r;
        }
      }
    }
  }

  lemma ListsAtMost(S: set<Rom>, out: seq<Rom>)
    requires Lists(S, out)
    ensures |out| <= |S|
    ensures |out| == |S| <==> forall d :: d in S ==> d in out
  {
    ListsSize(S, out);
    assert Range(out) <= S;
    var rest := S - Range(out);
    assert S == Range(out) + rest;
    assert |S| == |out| + |rest|;
    if |out| == |S| {
      assert rest == {};
      forall d | d in S ensures d in out {
        assert d in Range(out);
      }
    } else {
      var d :| d in rest;
      assert d in S && d !in out;
    }
  }

  /** An enumeration is determined by its length. */
  lemma {:induction false} ListsUnique(S: set<Rom>, a: seq<Rom>, b: seq<Rom>)
    requires Lists(S, a) && Lists(S, b) && |a| <= |b|
    ensures a == b[..|a|]
  {
    var i := 0;
    while i < |a|
      invariant 0 <= i <= |a|
      invariant forall j :: 0 <= j < i ==> a[j] == b[j]
    {
      SameNext(S, a, b, i);
      i := i + 1;
    }
  }

  lemma SameNext(S: set<Rom>, a: seq<Rom>, b: seq<Rom>, i: nat)
    requires Lists(S, a) && Lists(S, b) && i < |a| && i < |b|
    requires forall j :: 0 <= j < i ==> a[j] == b[j]
    ensures a[i] == b[i]
  {
    NotAfter(S, a, b, i);
    NotAfter(S, b, a, i);
    if Less(a[i], b[i]) {
      LessIrreflexive(a[i], b[i]);
    }
  }

  lemma NotAfter(S: set<Rom>, a: seq<Rom>, b: seq<Rom>, i: nat)
    requires Lists(S, a) && Lists(S, b) && i < |a| && i < |b|
    requires forall j :: 0 <= j < i ==> a[j] == b[j]
    ensures a[i] == b[i] || Less(a[i], b[i])
  {
    if a[i] != b[i] && b[i] in a {
      var j :| 0 <= j < |a| && a[j] == b[i];
      if j < i {
        LessIrreflexive(b[j], b[i]);
      }
    }
  }

  lemma ListsNone(S: set<Rom>)
    ensures Lists(S, [])
  {
  }

  lemma ListsFirst(S: set<Rom>, prev: Rom)
    requires S != {}
    ensures Lists(S, [Found(S, prev, 0)])
  {
    forall d | d in S ensures d == Found(S, prev, 0) || Less(Found(S, prev, 0), d) {
      FirstIsMinimum(S, prev, d);
    }
  }

  lemma ListsNext(S: set<Rom>, out: seq<Rom>)
    requires Lists(S, out) && out != []
    requires LastZero(S, out[|out| - 1]) != 0
    ensures var x := out[|out| - 1]; Lists(S, out + [Found(S, x, LastZero(S, x))])
    ensures |out| < |S|
  {
    var x := out[|out| - 1];
    var y := Found(S, x, LastZero(S, x));
    forall d | d in S
      ensures Less(x, y)
      ensures Less(x, d) ==> d == y || Less(y, d)
    {
      FoundIsSuccessor(S, x, d);
    }
    var next := out + [y];
    forall i | 0 <= i < |out| ensures Less(out[i], y) {
      if i < |out| - 1 {
        LessTransitive(out[i], x, y);
      }
    }
    forall i, d | 0 <= i < |next| && d in S && d !in next ensures Less(next[i], d) {
      assert forall j :: 0 <= j < |out| ==> next[j] == out[j];
      assert d !in out;
      assert y in next by { assert next[|out|] == y; }
    }
    assert Lists(S, next);
    ListsAtMost(S, next);
  }

  lemma ListsDone(S: set<Rom>, out: seq<Rom>)
    requires Lists(S, out) && out != []
    requires LastZero(S, out[|out| - 1]) == 0
    ensures |out| == |S|
  {
    var x := out[|out| - 1];
    MaximumHasNoZeros(S, x);
    forall d | d in S ensures d in out {
      assert !Less(x, d);
    }
    ListsAtMost(S, out);
  }
}
