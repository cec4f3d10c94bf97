/** Concrete runs of the crossing, worked out from the definitions. */
module Scenarios {
  import opened Hikers
  import opened PaceOrder
  import opened BridgeCrossing
  import opened Simulation

  /** The classic puzzle: crossing times of 1, 2, 5 and 10 minutes on a
      bridge of length 1. The strategy ferries the three slower hikers at
      2 + 5 + 10 minutes and walks the fastest back twice, 19 minutes in
      all, where the well-known schedule that sends the two slowest
      together needs 17. */
  lemma ClassicPuzzleTakesNineteen()
    ensures var pool := [Hiker("A", 1.0), Hiker("B", 0.5), Hiker("C", 0.2), Hiker("D", 0.1)];
      && SortedByPace(pool)
      && BridgeTime(pool, 1.0) == 19.0
      && PoolTime(pool, 1.0) == 19.0
  {
    var pool := [Hiker("A", 1.0), Hiker("B", 0.5), Hiker("C", 0.2), Hiker("D", 0.1)];
    ClassicPuzzleTrips(pool);
    assert Walks(2, 1.0) == 2.0;
    assert BridgeTime(pool, 1.0) == 19.0;
    SortedBridgeTime(pool, 1.0);
  }

  lemma ClassicPuzzleTrips(pool: seq<Hiker>)
    requires pool == [Hiker("A", 1.0), Hiker("B", 0.5), Hiker("C", 0.2), Hiker("D", 0.1)]
    ensures PacesPositive(pool[1..]) && TripsTime(pool[1..], 1.0) == 17.0
  {
    var slower := pool[1..];
    assert slower[1..][1..] == [pool[3]];
    assert TripsTime([pool[3]], 1.0) == 10.0;
    assert TripsTime(slower[1..], 1.0) == 15.0;
  }

  /** Two hikers cross once, at the slower pace, with no walk back. */
  lemma TwoHikersCrossOnce()
    ensures var pool := [Hiker("A", 2.0), Hiker("B", 1.0)];
      BridgeTime(pool, 10.0) == 10.0 && PoolTime(pool, 10.0) == 10.0
  {
  }

  /** A lone hiker still makes the one trip of the do-while loop. */
  lemma LoneHikerPaysOneTrip(h: Hiker, length: real)
    requires h.pace > 0.0
    ensures PoolTime([h], length) == length / h.pace
    ensures BridgeTime([h], length) == length / h.pace
  {
  }

  /** Two bridges of length 4: A (pace 2) and B (pace 1) arrive at the
      first, C (pace 4) at the second. A and B stay in the pool, so the
      second bridge ferries all three: 4 minutes for the first bridge,
      2 + 4 + 1 for the second, 11 in all. */
  lemma PoolKeepsEveryone()
    ensures var a, b, c := Hiker("A", 2.0), Hiker("B", 1.0), Hiker("C", 4.0);
      var bridges := [Bridge(0, 4.0, [a, b]), Bridge(1, 4.0, [c])];
      && Crossable(bridges)
      && Arrived(bridges[..2]) == [a, b, c]
      && TimeAt(bridges, 0) == 4.0
      && TimeAt(bridges, 1) == 7.0
      && TotalTime(bridges, 2) == 11.0
  {
    var a, b, c := Hiker("A", 2.0), Hiker("B", 1.0), Hiker("C", 4.0);
    var bridges := [Bridge(0, 4.0, [a, b]), Bridge(1, 4.0, [c])];
    TwoBridgesArrivals(a, b, c);
    EveryPoolNonEmptyIff(bridges);
    assert AllPacesPositive(bridges);
    assert Crossable(bridges);
    FirstPoolTime(a, b);
    SecondPoolTime(a, b, c);
    assert TotalTime(bridges, 1) == 4.0;
  }

  lemma TwoBridgesArrivals(a: Hiker, b: Hiker, c: Hiker)
    ensures var bridges := [Bridge(0, 4.0, [a, b]), Bridge(1, 4.0, [c])];
      Arrived(bridges[..1]) == [a, b] && Arrived(bridges[..2]) == [a, b, c]
  {
  }

  lemma FirstPoolTime(a: Hiker, b: Hiker)
    requires a == Hiker("A", 2.0) && b == Hiker("B", 1.0)
    ensures PoolTime([a, b], 4.0) == 4.0
  {
    assert [a, b][1..] == [b];
    assert TripsTime([b], 4.0) == 4.0;
    SortedBridgeTime([a, b], 4.0);
  }

  lemma SecondPoolTime(a: Hiker, b: Hiker, c: Hiker)
    requires a == Hiker("A", 2.0) && b == Hiker("B", 1.0) && c == Hiker("C", 4.0)
    ensures PoolTime([a, b, c], 4.0) == 7.0
  {
    var sorted := [c, a, b];
    assert sorted[1..] == [a, b] && [a, b][1..] == [b];
    assert TripsTime([b], 4.0) == 4.0;
    assert TripsTime([a, b], 4.0) == 6.0;
    assert Walks(1, 1.0) == 1.0;
    assert BridgeTime(sorted, 4.0) == 7.0;
    SortedBridgeTime(sorted, 4.0);
    assert multiset(sorted) == multiset([a, b, c]);
    PoolTimePermutation(sorted, [a, b, c], 4.0);
  }
}
