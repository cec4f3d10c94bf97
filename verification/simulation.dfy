/** The crossing of a whole sequence of bridges: the waiting pool grows by
    each bridge's newcomers, is re-ordered by pace, and a working copy of it
    is ferried across; the duration lands in the bridge's result slot and
    in the running total. */
module Simulation {
  import opened Hikers
  import opened PaceOrder
  import opened BridgeCrossing

  /** The newcomers follow the existing crew, in their own order. */
  function AddHikers(crew: seq<Hiker>, newbies: seq<Hiker>): (r: seq<Hiker>)
    ensures |r| == |crew| + |newbies|
    ensures r[..|crew|] == crew && r[|crew|..] == newbies
    ensures multiset(r) == multiset(crew) + multiset(newbies)
  {
    crew + newbies
  }

  /** Everyone who has joined the pool by the end of `bridges`, in order of
      arrival. Nobody ever leaves it. */
  function Arrived(bridges: seq<Bridge>): seq<Hiker>
  {
    if |bridges| == 0 then []
    else AddHikers(Arrived(bridges[..|bridges| - 1]), bridges[|bridges| - 1].hikers)
  }

  /** The pool holds exactly the hikers who arrived at one of the bridges. */
  lemma {:induction false} ArrivedMembers(bridges: seq<Bridge>)
    ensures forall h :: h in Arrived(bridges) <==> exists k :: 0 <= k < |bridges| && h in bridges[k].hikers
  {
    if |bridges| > 0 {
      var n := |bridges| - 1;
      ArrivedMembers(bridges[..n]);
      assert forall k :: 0 <= k < n ==> bridges[..n][k] == bridges[k];
    }
  }

  /** Arriving hikers have a positive pace when every bridge's hikers do. */
  lemma ArrivedPositive(bridges: seq<Bridge>, n: int)
    requires AllPacesPositive(bridges)
    requires 0 <= n <= |bridges|
    ensures PacesPositive(Arrived(bridges[..n]))
  {
    ArrivedMembers(bridges[..n]);
    forall h | h in Arrived(bridges[..n])
      ensures h.pace > 0.0
    {
      var k :| 0 <= k < n && h in bridges[..n][k].hikers;
      assert bridges[..n][k] == bridges[k];
    }
  }

  /** The pool only grows: the pool after `i` bridges is a prefix of the
      pool after `j >= i` bridges. */
  lemma {:induction false} ArrivedGrows(bridges: seq<Bridge>, i: int, j: int)
    requires 0 <= i <= j <= |bridges|
    ensures Arrived(bridges[..i]) <= Arrived(bridges[..j])
    decreases j - i
  {
    if i < j {
      ArrivedGrows(bridges, i, j - 1);
      assert bridges[..j][..j - 1] == bridges[..j - 1];
    }
  }

  /** No bridge meets an empty pool: the round loop reads the front and the
      back of the pool, which an empty pool does not have. */
  ghost predicate EveryPoolNonEmpty(bridges: seq<Bridge>) {
    forall n :: 1 <= n <= |bridges| ==> |Arrived(bridges[..n])| > 0
  }

  /** Every pool is non-empty exactly when the first bridge brings at least
      one hiker. */
  lemma EveryPoolNonEmptyIff(bridges: seq<Bridge>)
    ensures EveryPoolNonEmpty(bridges) <==> |bridges| == 0 || |bridges[0].hikers| > 0
  {
    if |bridges| > 0 {
      assert bridges[..1][..0] == [];
      assert Arrived(bridges[..1]) == bridges[0].hikers;
      if |bridges[0].hikers| > 0 {
        forall n | 1 <= n <= |bridges|
          ensures |Arrived(bridges[..n])| > 0
        {
          ArrivedGrows(bridges, 1, n);
        }
      }
    }
  }

  /** Inputs the crossing is defined on. */
  ghost predicate Crossable(bridges: seq<Bridge>) {
    AllPacesPositive(bridges) && EveryPoolNonEmpty(bridges)
  }

  /** The duration of bridge `k`: the order-free time of everyone who has
      joined at bridges 0 to `k`. */
  function TimeAt(bridges: seq<Bridge>, k: int): real
    requires Crossable(bridges)
    requires 0 <= k < |bridges|
  {
    ArrivedPositive(bridges, k + 1);
    PoolTime(Arrived(bridges[..k + 1]), bridges[k].length)
  }

  /** The durations of the first `n` bridges added up in input order. */
  function TotalTime(bridges: seq<Bridge>, n: int): real
    requires Crossable(bridges)
    requires 0 <= n <= |bridges|
  {
    if n == 0 then 0.0 else TotalTime(bridges, n - 1) + TimeAt(bridges, n - 1)
  }

  /** The sum of a sequence of reals. */
  function Sum(s: seq<real>): real {
    if |s| == 0 then 0.0 else Sum(s[..|s| - 1]) + s[|s| - 1]
  }

  lemma {:induction false} SumAllZero(s: seq<real>)
    requires AllZero(s)
    ensures Sum(s) == 0.0
  {
    if |s| > 0 {
      SumAllZero(s[..|s| - 1]);
    }
  }

  /** Overwriting one slot changes the sum by the difference. */
  lemma {:induction false} SumUpdate(s: seq<real>, j: int, v: real)
    requires 0 <= j < |s|
    ensures Sum(s[j := v]) == Sum(s) - s[j] + v
  {
    var n := |s| - 1;
    if j < n {
      assert s[j := v][..n] == s[..n][j := v];
      SumUpdate(s[..n], j, v);
    } else {
      assert s[j := v][..n] == s[..n];
    }
  }

  ghost predicate IdsInRange(bridges: seq<Bridge>, slots: int) {
    forall k :: 0 <= k < |bridges| ==> 0 <= bridges[k].id < slots
  }

  ghost predicate DistinctIds(bridges: seq<Bridge>) {
    forall k, k' :: 0 <= k < k' < |bridges| ==> bridges[k].id != bridges[k'].id
  }

  ghost predicate AllZero(s: seq<real>) {
    forall j :: 0 <= j < |s| ==> s[j] == 0.0
  }

  /** Bridge `k` is the last of the first `n` bridges to write its slot. */
  ghost predicate LastWriter(bridges: seq<Bridge>, k: int, n: int)
    requires 0 <= k < n <= |bridges|
  {
    forall k' :: k < k' < n ==> bridges[k'].id != bridges[k].id
  }

  /** None of the first `n` bridges writes slot `j`. */
  ghost predicate Untouched(bridges: seq<Bridge>, j: int, n: int)
    requires 0 <= n <= |bridges|
  {
    forall k :: 0 <= k < n ==> bridges[k].id != j
  }

  /** One bridge: its newcomers join the pool, the pool is re-ordered by
      pace, and a working copy of it is ferried across. The pool handed on
      keeps everyone; the duration is the order-free time of the grown
      pool, whatever order the sort leaves ties in. */
  method VisitBridge(present: seq<Hiker>, bridge: Bridge) returns (pool: seq<Hiker>, bridgeTime: real)
    requires PacesPositive(present) && PacesPositive(bridge.hikers)
    requires |present| + |bridge.hikers| > 0
    ensures IsPaceOrdering(AddHikers(present, bridge.hikers), pool)
    ensures |AddHikers(present, bridge.hikers)| > 0 && PacesPositive(AddHikers(present, bridge.hikers))
    ensures bridgeTime == PoolTime(AddHikers(present, bridge.hikers), bridge.length)
  {
    var joined := AddHikers(present, bridge.hikers);
    assert forall h :: h in joined ==> h in multiset(present) + multiset(bridge.hikers);
    pool := SortHikersByPace(joined);
    assert |multiset(pool)| == |pool|;
    assert forall h :: h in pool ==> h in multiset(joined);
    var notCrossed := pool;
    var ferried, returnWalks, left;
    bridgeTime, ferried, returnWalks, left := CrossBridge(notCrossed, bridge.length);
    SortedBridgeTime(pool, bridge.length);
    PoolTimePermutation(pool, joined, bridge.length);
  }

  /** A pool holding the same hikers as the arrivals before bridge `i`,
      grown by bridge `i`'s newcomers, takes bridge `i`'s time. */
  lemma PoolStep(bridges: seq<Bridge>, i: int, present: seq<Hiker>)
    requires Crossable(bridges)
    requires 0 <= i < |bridges|
    requires multiset(present) == multiset(Arrived(bridges[..i]))
    ensures PacesPositive(present) && PacesPositive(bridges[i].hikers)
    ensures |present| + |bridges[i].hikers| > 0
    ensures multiset(AddHikers(present, bridges[i].hikers)) == multiset(Arrived(bridges[..i + 1]))
    ensures |AddHikers(present, bridges[i].hikers)| > 0 && PacesPositive(AddHikers(present, bridges[i].hikers))
    ensures PoolTime(AddHikers(present, bridges[i].hikers), bridges[i].length) == TimeAt(bridges, i)
  {
    var grown := Arrived(bridges[..i + 1]);
    assert bridges[..i + 1][..i] == bridges[..i];
    assert grown == AddHikers(Arrived(bridges[..i]), bridges[i].hikers);
    ArrivedPositive(bridges, i);
    ArrivedPositive(bridges, i + 1);
    assert forall h :: h in present ==> h in multiset(Arrived(bridges[..i]));
    assert |multiset(present)| == |present|;
    assert |multiset(grown)| == |grown|;
    assert |grown| > 0;
    PoolTimePermutation(grown, AddHikers(present, bridges[i].hikers), bridges[i].length);
  }

  /** Every bridge's duration, in input order. */
  function Durations(bridges: seq<Bridge>): (r: seq<real>)
    requires Crossable(bridges)
    ensures |r| == |bridges|
    ensures forall k :: 0 <= k < |bridges| ==> r[k] == TimeAt(bridges, k)
  {
    seq(|bridges|, k requires 0 <= k < |bridges| => TimeAt(bridges, k))
  }

  /** The running total is the sum of the durations so far. */
  lemma {:induction false} TotalIsSum(bridges: seq<Bridge>, n: int)
    requires Crossable(bridges)
    requires 0 <= n <= |bridges|
    ensures TotalTime(bridges, n) == Sum(Durations(bridges)[..n])
  {
    if n > 0 {
      var m := n - 1;
      var times := Durations(bridges);
      assert times[..n][..m] == times[..m];
      TotalIsSum(bridges, m);
    }
  }

  /** The result slots after the first `n` bridges, bridge `k` taking
      `times[k]`: each bridge in turn overwrites the slot its id names. */
  function Written(bridges: seq<Bridge>, init: seq<real>, times: seq<real>, n: int): (r: seq<real>)
    requires IdsInRange(bridges, |init|)
    requires 0 <= n <= |bridges| && n <= |times|
    ensures |r| == |init|
  {
    if n == 0 then init
    else Written(bridges, init, times, n - 1)[bridges[n - 1].id := times[n - 1]]
  }

  /** The last of the first `n` bridges to name a slot decides its value. */
  lemma {:induction false} WrittenByLastWriter(bridges: seq<Bridge>, init: seq<real>, times: seq<real>, n: int, k: int)
    requires IdsInRange(bridges, |init|)
    requires 0 <= k < n <= |bridges| && n <= |times|
    requires LastWriter(bridges, k, n)
    ensures Written(bridges, init, times, n)[bridges[k].id] == times[k]
  {
    var m := n - 1;
    if k < m {
      assert bridges[m].id != bridges[k].id;
      WrittenByLastWriter(bridges, init, times, m, k);
    }
  }

  /** A slot none of the first `n` bridges names keeps its initial value. */
  lemma {:induction false} WrittenKeepsUntouched(bridges: seq<Bridge>, init: seq<real>, times: seq<real>, n: int, j: int)
    requires IdsInRange(bridges, |init|)
    requires 0 <= n <= |bridges| && n <= |times|
    requires 0 <= j < |init|
    requires Untouched(bridges, j, n)
    ensures Written(bridges, init, times, n)[j] == init[j]
  {
    if n > 0 {
      var m := n - 1;
      WrittenKeepsUntouched(bridges, init, times, m, j);
    }
  }

  /** With distinct ids every bridge writes a fresh slot, so from all-zero
      slots the slots add up to the durations written. */
  lemma {:induction false} WrittenSum(bridges: seq<Bridge>, init: seq<real>, times: seq<real>, n: int)
    requires IdsInRange(bridges, |init|)
    requires 0 <= n <= |bridges| && n <= |times|
    requires DistinctIds(bridges) && AllZero(init)
    ensures Sum(Written(bridges, init, times, n)) == Sum(times[..n])
  {
    if n == 0 {
      SumAllZero(init);
    } else {
      var m := n - 1;
      var id := bridges[m].id;
      assert times[..n][..m] == times[..m];
      WrittenSum(bridges, init, times, m);
      assert Untouched(bridges, id, m);
      WrittenKeepsUntouched(bridges, init, times, m, id);
      SumUpdate(Written(bridges, init, times, m), id, times[m]);
    }
  }

  /** With distinct ids and all-zero slots at the start, as the entry point
      supplies, the slots after the run add up to the total time. */
  lemma SlotsAddUpToTotal(bridges: seq<Bridge>, init: seq<real>)
    requires Crossable(bridges)
    requires IdsInRange(bridges, |init|)
    requires DistinctIds(bridges) && AllZero(init)
    ensures Sum(Written(bridges, init, Durations(bridges), |bridges|)) == TotalTime(bridges, |bridges|)
  {
    var times := Durations(bridges);
    WrittenSum(bridges, init, times, |bridges|);
    TotalIsSum(bridges, |bridges|);
  }

  /** The state of the run after the first `i` bridges: the pool holds
      everyone who arrived so far, the total adds up their durations, and
      the slots are those the bridges wrote. */
  ghost predicate RunSoFar(bridges: seq<Bridge>, init: seq<real>, i: int,
                           present: seq<Hiker>, total: real, slots: seq<real>)
    requires Crossable(bridges)
    requires IdsInRange(bridges, |init|)
  {
    && 0 <= i <= |bridges|
    && multiset(present) == multiset(Arrived(bridges[..i]))
    && total == TotalTime(bridges, i)
    && slots == Written(bridges, init, Durations(bridges), i)
  }

  /** One pass of the loop over bridges: visit bridge `i`, write its
      duration to its slot and add it to the running total. */
  method AdvanceRun(bridges: seq<Bridge>, init: seq<real>, i: int,
                    present: seq<Hiker>, total: real, slots: seq<real>)
      returns (present': seq<Hiker>, total': real, slots': seq<real>)
    requires Crossable(bridges)
    requires IdsInRange(bridges, |init|)
    requires RunSoFar(bridges, init, i, present, total, slots)
    requires i < |bridges|
    ensures RunSoFar(bridges, init, i + 1, present', total', slots')
  {
    var bridge := bridges[i];
    PoolStep(bridges, i, present);
    var bridgeTime;
    ghost var joined := AddHikers(present, bridge.hikers);
    present', bridgeTime := VisitBridge(present, bridge);
    assert multiset(present') == multiset(joined);
    assert bridgeTime == TimeAt(bridges, i);
    assert TotalTime(bridges, i + 1) == total + bridgeTime;
    assert Written(bridges, init, Durations(bridges), i + 1) == slots[bridge.id := bridgeTime];
    slots' := slots[bridge.id := bridgeTime];
    total' := total + bridgeTime;
  }

  /** The whole run. Writing a bridge's duration to `bridgeT[id]` needs the
      id to name a slot. The total is the sum of the bridge durations in
      input order, and the slots are those the bridges wrote in turn. */
  method SimulateOptimalCrossing(bridges: seq<Bridge>, result: Result) returns (out: Result)
    requires Crossable(bridges)
    requires IdsInRange(bridges, |result.bridgeT|)
    ensures out.totalT == TotalTime(bridges, |bridges|)
    ensures out.bridgeT == Written(bridges, result.bridgeT, Durations(bridges), |bridges|)
  {
    var total := 0.0;
    var present: seq<Hiker> := [];
    var bridgeT := result.bridgeT;
    var i := 0;
    while i < |bridges|
      invariant RunSoFar(bridges, result.bridgeT, i, present, total, bridgeT)
    {
      present, total, bridgeT := AdvanceRun(bridges, result.bridgeT, i, present, total, bridgeT);
      i := i + 1;
    }
    out := Result(total, bridgeT);
  }
}
