/** One bridge: the fastest hiker of the sorted pool ferries everyone else
    across, slowest first, and walks back alone between ferries. */
module BridgeCrossing {
  import opened Hikers
  import opened PaceOrder

  /** Time for one trip of `length` feet at the pace of `h`. */
  function Trip(h: Hiker, length: real): real
    requires h.pace > 0.0
  {
    length / h.pace
  }

  /** The sum of one trip per hiker of `hs`, each at that hiker's own pace. */
  function TripsTime(hs: seq<Hiker>, length: real): real
    requires PacesPositive(hs)
  {
    if |hs| == 0 then 0.0 else Trip(hs[0], length) + TripsTime(hs[1..], length)
  }

  /** The time of `n` return walks taking `back` each. */
  function Walks(n: nat, back: real): real
  {
    if n == 0 then 0.0 else Walks(n - 1, back) + back
  }

  /** The greatest pace in `hs`. */
  function MaxPace(hs: seq<Hiker>): (m: real)
    requires |hs| > 0
    ensures forall h :: h in hs ==> h.pace <= m
    ensures exists i :: 0 <= i < |hs| && hs[i].pace == m
  {
    if |hs| == 1 then hs[0].pace
    else
      var rest := MaxPace(hs[1..]);
      assert forall h :: h in hs ==> h == hs[0] || h in hs[1..];
      if hs[0].pace >= rest then hs[0].pace else rest
  }

  /** What the rounds add up to when `pool[0]` is the hiker snapshotted as
      the fastest: a lone hiker still makes one trip; otherwise every other
      hiker is ferried once at their own pace and the fastest walks back
      |pool| - 2 times. */
  function BridgeTime(pool: seq<Hiker>, length: real): real
    requires |pool| > 0
    requires PacesPositive(pool)
  {
    if |pool| == 1 then Trip(pool[0], length)
    else TripsTime(pool[1..], length) + Walks(|pool| - 2, Trip(pool[0], length))
  }

  /** The same duration stated without reference to any order of the pool:
      one trip for each hiker, less one trip at the greatest pace (the
      fastest only ever crosses alongside someone slower), plus |pool| - 2
      return walks at the greatest pace. */
  function PoolTime(pool: seq<Hiker>, length: real): real
    requires |pool| > 0
    requires PacesPositive(pool)
  {
    if |pool| == 1 then Trip(pool[0], length)
    else
      var back := length / MaxPace(pool);
      TripsTime(pool, length) - back + Walks(|pool| - 2, back)
  }

  /** The round loop of one bridge, a do-while: each round removes the last
      (slowest) remaining hiker and adds their trip; while more than one
      hiker is left, the fastest, fixed once before the loop as the front of
      the pool, walks back. Besides the time it returns the hikers in the
      order they were ferried, how many return walks were made, and what is
      left of the working copy. */
  method CrossBridge(pool: seq<Hiker>, length: real)
      returns (bridgeTime: real, ferried: seq<Hiker>, returnWalks: nat, notCrossed: seq<Hiker>)
    requires |pool| > 0
    requires PacesPositive(pool)
    ensures bridgeTime == BridgeTime(pool, length)
    ensures |pool| == 1 ==> ferried == pool && returnWalks == 0 && notCrossed == []
    ensures |pool| >= 2 ==> |ferried| == |pool| - 1 && returnWalks == |pool| - 2 && notCrossed == pool[..1]
    ensures forall k :: 0 <= k < |ferried| ==> ferried[k] == pool[|pool| - 1 - k]
  {
    var n := |pool|;
    notCrossed := pool;
    bridgeTime := 0.0;
    ferried := [];
    returnWalks := 0;
    var fastest := notCrossed[0];
    var again := true;
    while again
      invariant |notCrossed| <= n
      invariant notCrossed == pool[..|notCrossed|]
      invariant again ==> |notCrossed| >= 1
      invariant again ==> |notCrossed| > 1 || |notCrossed| == n
      invariant n >= 2 ==> |notCrossed| >= 1
      invariant !again ==> |notCrossed| <= 1
      invariant returnWalks == n - |notCrossed| - (if again then 0 else 1)
      invariant bridgeTime == TripsTime(pool[|notCrossed|..], length) + Walks(returnWalks, Trip(fastest, length))
      invariant |ferried| == n - |notCrossed|
      invariant forall k :: 0 <= k < |ferried| ==> ferried[k] == pool[n - 1 - k]
      decreases |notCrossed|
    {
      var last := |notCrossed| - 1;
      var slowest := notCrossed[last];
      assert pool[last..] == [slowest] + pool[last + 1..];
      notCrossed := notCrossed[..last];
      bridgeTime := bridgeTime + Trip(slowest, length);
      ferried := ferried + [slowest];
      if |notCrossed| > 1 {
        bridgeTime := bridgeTime + Trip(fastest, length);
        returnWalks := returnWalks + 1;
      }
      again := |notCrossed| > 1;
    }
    if n == 1 {
      assert pool[0..] == pool;
      assert ferried == pool;
      assert TripsTime(pool[1..], length) == 0.0;
    } else {
      assert |notCrossed| == 1;
      assert returnWalks == n - 2;
    }
  }

  /** Trip sums add up over concatenation. */
  lemma {:induction false} TripsTimeAppend(a: seq<Hiker>, b: seq<Hiker>, length: real)
    requires PacesPositive(a) && PacesPositive(b)
    ensures PacesPositive(a + b)
    ensures TripsTime(a + b, length) == TripsTime(a, length) + TripsTime(b, length)
  {
    if |a| > 0 {
      assert (a + b)[1..] == a[1..] + b;
      TripsTimeAppend(a[1..], b, length);
    } else {
      assert a + b == b;
    }
  }

  /** Removing the hiker at `j` takes exactly one copy of it out of the
      multiset. */
  lemma RemoveAt(b: seq<Hiker>, j: int)
    requires 0 <= j < |b|
    ensures multiset(b[..j] + b[j + 1..]) == multiset(b) - multiset{b[j]}
  {
    assert b == b[..j] + [b[j]] + b[j + 1..];
  }

  /** The trip sum of `b` is the trip of its `j`-th hiker plus the trip sum
      of the others. */
  lemma TripsTimeRemove(b: seq<Hiker>, j: int, length: real)
    requires 0 <= j < |b|
    requires PacesPositive(b)
    ensures PacesPositive(b[..j] + b[j + 1..])
    ensures TripsTime(b, length) == Trip(b[j], length) + TripsTime(b[..j] + b[j + 1..], length)
  {
    assert b == b[..j] + ([b[j]] + b[j + 1..]);
    TripsTimeAppend(b[..j], [b[j]] + b[j + 1..], length);
    TripsTimeAppend(b[..j], b[j + 1..], length);
    assert ([b[j]] + b[j + 1..])[1..] == b[j + 1..];
  }

  /** Trip sums depend only on the multiset of hikers. */
  lemma {:induction false} TripsTimePermutation(a: seq<Hiker>, b: seq<Hiker>, length: real)
    requires multiset(a) == multiset(b)
    requires PacesPositive(a)
    ensures PacesPositive(b)
    ensures TripsTime(a, length) == TripsTime(b, length)
    decreases |a|
  {
    assert forall h :: h in b ==> h in multiset(a);
    if |a| > 0 {
      var x := a[0];
      assert x in multiset(b);
      var j :| 0 <= j < |b| && b[j] == x;
      RemoveAt(b, j);
      assert a == [x] + a[1..];
      assert multiset(a[1..]) == multiset(a) - multiset{x};
      TripsTimePermutation(a[1..], b[..j] + b[j + 1..], length);
      TripsTimeRemove(b, j, length);
    } else {
      assert b == [];
    }
  }

  /** The greatest pace depends only on the multiset of hikers. */
  lemma MaxPacePermutation(a: seq<Hiker>, b: seq<Hiker>)
    requires multiset(a) == multiset(b)
    requires |a| > 0
    ensures |b| > 0
    ensures MaxPace(a) == MaxPace(b)
  {
    assert |multiset(b)| == |b|;
    var i :| 0 <= i < |a| && a[i].pace == MaxPace(a);
    assert a[i] in multiset(b);
    var j :| 0 <= j < |b| && b[j].pace == MaxPace(b);
    assert b[j] in multiset(a);
  }

  /** The duration of a bridge depends only on the multiset of hikers in its
      pool. */
  lemma PoolTimePermutation(a: seq<Hiker>, b: seq<Hiker>, length: real)
    requires multiset(a) == multiset(b)
    requires |a| > 0
    requires PacesPositive(a)
    ensures |b| > 0 && PacesPositive(b)
    ensures PoolTime(a, length) == PoolTime(b, length)
  {
    assert |multiset(a)| == |a| && |multiset(b)| == |b|;
    TripsTimePermutation(a, b, length);
    MaxPacePermutation(a, b);
    if |a| == 1 {
      assert a[0] in multiset(b);
      assert b[0] == a[0];
    }
  }

  /** On a pace-ordered pool the positional closed form, which snapshots
      the front as the fastest, equals the order-free duration. */
  lemma SortedBridgeTime(pool: seq<Hiker>, length: real)
    requires SortedByPace(pool)
    requires |pool| > 0
    requires PacesPositive(pool)
    ensures BridgeTime(pool, length) == PoolTime(pool, length)
  {
  }

  /** Whatever order the unstable sort leaves equal-pace hikers in, the
      bridge takes the same time. */
  lemma BridgeTimeIgnoresTieOrder(a: seq<Hiker>, b: seq<Hiker>, length: real)
    requires IsPaceOrdering(a, b)
    requires SortedByPace(a)
    requires |a| > 0
    requires PacesPositive(a)
    ensures |b| > 0 && PacesPositive(b)
    ensures BridgeTime(a, length) == BridgeTime(b, length)
  {
    PoolTimePermutation(a, b, length);
    SortedBridgeTime(a, length);
    SortedBridgeTime(b, length);
  }

  /** Trip sums are linear in the length. */
  lemma {:induction false} TripsTimeScales(hs: seq<Hiker>, length: real, c: real)
    requires PacesPositive(hs)
    ensures TripsTime(hs, c * length) == c * TripsTime(hs, length)
  {
    if |hs| > 0 {
      TripsTimeScales(hs[1..], length, c);
      ScaledDivision(c, length, hs[0].pace);
      AddScaled(c, Trip(hs[0], length), TripsTime(hs[1..], length),
        Trip(hs[0], c * length), TripsTime(hs[1..], c * length));
    }
  }

  lemma AddScaled(c: real, a: real, b: real, x: real, y: real)
    requires x == c * a && y == c * b
    ensures x + y == c * (a + b)
  {
  }

  lemma ScaledDivision(c: real, x: real, d: real)
    requires d != 0.0
    ensures (c * x) / d == c * (x / d)
  {
  }

  /** Return walks are linear in the time of one walk. */
  lemma {:induction false} WalksScales(n: nat, back: real, c: real)
    ensures Walks(n, c * back) == c * Walks(n, back)
  {
    if n > 0 {
      var m: nat := n - 1;
      WalksScales(m, back, c);
      AddScaled(c, Walks(m, back), back, Walks(m, c * back), c * back);
    }
  }

  lemma WalksOfScaledTrip(n: nat, c: real, x: real, d: real)
    requires d != 0.0
    ensures Walks(n, (c * x) / d) == c * Walks(n, x / d)
  {
    var y, z := x / d, (c * x) / d;
    ScaledDivision(c, x, d);
    assert z == c * y;
    WalksScales(n, y, c);
    assert Walks(n, z) == Walks(n, c * y);
  }

  lemma Combine(c: real, t: real, b: real, w: real, t': real, b': real, w': real, p: real, p': real)
    requires t' == c * t && b' == c * b && w' == c * w
    requires p == t - b + w && p' == t' - b' + w'
    ensures p' == c * p
  {
  }

  /** A bridge's duration is linear in its length. */
  lemma PoolTimeScales(pool: seq<Hiker>, length: real, c: real)
    requires |pool| > 0
    requires PacesPositive(pool)
    ensures PoolTime(pool, c * length) == c * PoolTime(pool, length)
  {
    if |pool| == 1 {
      ScaledDivision(c, length, pool[0].pace);
    } else {
      CrowdTimeScales(pool, length, c);
    }
  }

  lemma CrowdTimeScales(pool: seq<Hiker>, length: real, c: real)
    requires |pool| > 1
    requires PacesPositive(pool)
    ensures PoolTime(pool, c * length) == c * PoolTime(pool, length)
  {
    var m := MaxPace(pool);
    var k: nat := |pool| - 2;
    TripsTimeScales(pool, length, c);
    ScaledDivision(c, length, m);
    WalksOfScaledTrip(k, c, length, m);
    Combine(c, TripsTime(pool, length), length / m, Walks(k, length / m),
      TripsTime(pool, c * length), (c * length) / m, Walks(k, (c * length) / m),
      PoolTime(pool, length), PoolTime(pool, c * length));
  }
}
