# Hikers crossing rope bridges

A model of the crossing computation of the hikers program. Hikers reach a
sequence of rope bridges, and each bridge brings its own newcomers. A bridge
holds two hikers at a time. A pair crosses at the slower hiker's pace, and
someone has to carry the single torch back. For every bridge the program puts
the waiting pool in order, fastest first. It takes the front hiker as the
fastest. That hiker ferries the others across, slowest first, and walks back
alone between ferries. Each bridge's duration is written to that bridge's
result slot and added to the total.

The project has five modules:

- `Hikers` (`hikers.dfy`): the `Hiker`, `Bridge` and `Result` records. Pace
  and length are exact `real`s. The positive-pace predicates live here too.
- `PaceOrder` (`pace_order.dfy`): ordering by pace. `SortHikersByPace`
  stands for the library sort. Its contract is only "a permutation of the
  input, in non-increasing pace", so nothing proved downstream can depend on
  how ties are broken.
- `BridgeCrossing` (`crossing.dfy`): one bridge. `CrossBridge` mirrors the
  do-while round loop. `BridgeTime` is the closed form that uses the front of
  the pool as the fastest. `PoolTime` is the same duration written without
  reference to any order: one trip per hiker, minus one trip at the greatest
  pace, plus N − 2 return walks for a pool of N hikers at the greatest pace.
- `Simulation` (`simulation.dfy`): the run over all bridges. `Arrived` is
  the pool, which only grows. `TimeAt` is bridge k's duration, the order-free
  time of everyone who arrived at bridges 0..k. `TotalTime` adds those
  durations up in input order. `Written` is the result slots after each
  bridge in turn overwrites the slot its id names. `SimulateOptimalCrossing`
  is the loop over bridges, including the writes to the result slots.
- `Scenarios` (`scenarios.dfy`): concrete pools and bridge lists worked out
  from the definitions.

Some plausible readings of the program do not match what the code does. The
model follows the code:

- The pool is never cut back. Every hiker who has arrived so far crosses
  every later bridge again, because each bridge's rounds use only a copy of
  the pool. Carrying forward just the one hiker left on the near side would
  be a different program.
- The library sort is not stable. Equal-pace hikers may end up in any order,
  and `BridgeTimeIgnoresTieOrder` shows that no duration depends on it.
- The round loop is a do-while. A lone hiker still makes one trip, so the
  duration is `length / pace`, not 0. An empty pool reads the front of an
  empty vector. The model makes that impossible with a precondition, and
  `EveryPoolNonEmptyIff` shows this is the same as saying the first bridge
  brings somebody.
- The doc comment calls the strategy optimal, but it is not. On the classic
  1, 2, 5, 10 minute puzzle it takes 19 minutes
  (`ClassicPuzzleTakesNineteen`). The well-known schedule that sends the two
  slowest hikers together takes 17.

## Model

| member | source | states |
|---|---|---|
| `PaceOrder.InsertByPace` | hikers.cpp:30-34 | inserting a hiker into a pace-ordered sequence keeps it ordered, and the result holds exactly the old hikers plus the new one |
| `PaceOrder.SortHikersByPace` | hikers.cpp:27-34 | the result is a permutation of the input (same multiset, nothing dropped or duplicated) with pace non-increasing along it; the order of equal-pace hikers is left open |
| `PaceOrder.FrontIsFastest` | hikers.cpp:148 | in a pace-ordered pool the front hiker, the one snapshotted as fastest, is at least as fast as every hiker in the pool |
| `BridgeCrossing.CrossBridge` | hikers.cpp:144-166 | on any non-empty pool of N hikers the round loop ends with the closed-form time: for one hiker a single trip, otherwise the trips of everyone but the front plus N − 2 return walks at the front's pace; each round removes the current last hiker, so they are ferried from the back forwards; exactly N − 2 return walks happen; the working copy ends holding only the front hiker (empty for a lone hiker) |
| `BridgeCrossing.SortedBridgeTime` | hikers.cpp:143-166 | on a pace-ordered pool of N hikers the closed form with the front as fastest equals the order-free duration (all trips, less one at the greatest pace, plus N − 2 walks at the greatest pace) |
| `BridgeCrossing.TripsTimePermutation` | hikers.cpp:150-166 | the sum of the ferrying trips depends only on the multiset of hikers, not their order |
| `BridgeCrossing.PoolTimePermutation` | hikers.cpp:143-166 | a bridge's duration depends only on the multiset of hikers in its pool |
| `BridgeCrossing.BridgeTimeIgnoresTieOrder` | hikers.cpp:30-34 | any two pace orderings of the same pool give the same duration, so the unstable sort's tie order cannot change a result |
| `BridgeCrossing.PoolTimeScales` | hikers.cpp:155-163 | a bridge's duration is linear in its length: scaling the length by c scales the duration by c |
| `Simulation.AddHikers` | hikers.cpp:111-117 | the existing crew is an unchanged prefix, the newcomers follow in their original order, and the multiset is the union of both |
| `Simulation.ArrivedMembers` | hikers.cpp:136-144 | the pool after a run of bridges holds exactly the hikers who arrived at one of those bridges |
| `Simulation.ArrivedGrows` | hikers.cpp:136-144 | the pool never shrinks: the pool after i bridges is a prefix of the pool after any j ≥ i bridges |
| `Simulation.EveryPoolNonEmptyIff` | hikers.cpp:148-153 | every bridge meets a non-empty pool exactly when there are no bridges or the first bridge brings at least one hiker |
| `Simulation.VisitBridge` | hikers.cpp:141-166 | the pool handed on is a pace ordering of the old pool plus the newcomers, so nobody leaves it; the bridge's time is the order-free duration of that grown pool |
| `Simulation.AdvanceRun` | hikers.cpp:139-168 | one pass of the bridge loop keeps the run's invariant: the pool holds everyone who arrived at bridges 0..i, the total is the sum of their durations, and the slots are those bridges 0..i wrote in turn |
| `Simulation.SimulateOptimalCrossing` | hikers.cpp:133-172 | the total is the sum, in input order, of each bridge's duration over everyone who has arrived so far (0 with no bridges), and the slots are those left by every bridge in turn overwriting the slot its id names with its duration |
| `Simulation.TotalIsSum` | hikers.cpp:168 | the running total after n bridges is the sum of the first n bridge durations |
| `Simulation.WrittenByLastWriter` | hikers.cpp:167 | a slot written by several bridges holds the duration of the last of them |
| `Simulation.WrittenKeepsUntouched` | hikers.cpp:167 | a slot no bridge names keeps its value from before the run |
| `Simulation.WrittenSum` | hikers.cpp:167 | with distinct bridge ids and all-zero slots at the start, the slots after n writes add up to the n values written |
| `Simulation.SlotsAddUpToTotal` | hikers.cpp:167-171 | with distinct ids and all-zero slots at the start, as the entry point sets up, the slots after the run add up to the total time |
| `Scenarios.ClassicPuzzleTakesNineteen` | hikers.cpp:150-166 | paces 1, ½, ⅕, ⅒ on a bridge of length 1 take 19, although the doc comment at hikers.cpp:119-128 calls the strategy optimal and a 17-minute schedule exists |
| `Scenarios.TwoHikersCrossOnce` | hikers.cpp:150-166 | paces 2 and 1 on length 10 take 10: one crossing at the slower pace, no walk back |
| `Scenarios.LoneHikerPaysOneTrip` | hikers.cpp:150-166 | a pool of one hiker takes length / pace, not 0 |
| `Scenarios.PoolKeepsEveryone` | hikers.cpp:136-168 | A (2) and B (1) at the first bridge, C (4) at the second, length 4: the second pool is A, B, C; the durations are 4 and 7; the total is 11 |

## Left out

- `parse_bridges` (hikers.cpp:36-59) reads the bridges from a YAML file
  through yaml-cpp, a foreign library, so it is not modelled. It reads a
  length as an `int`. The model allows any real length.
- `print_hikers`, `print_bridges`, `print_result` and `main`
  (hikers.cpp:61-80, 174-208), and the console output inside
  `simulate_optimal_crossing`, are left out because they are output only.
  `main` sizes `bridge_t` to the number of bridges and fills it with zeros.
  `SlotsAddUpToTotal` covers that start state, but `main` itself is not
  modelled.
- The commented-out `get_fastest_hiker` (hikers.cpp:87-103) is dead code.
- IEEE double rounding is not modelled. Pace and length are exact reals.
  Every pace must be positive, because a trip divides by the pace. In the
  source a zero pace gives an infinite time and a negative one gives a
  negative time.
- An empty pool and a bridge id outside `bridge_t` are undefined behaviour
  in the source. They become preconditions, not error results.
- In-place updates are modelled as returned values. This covers the sort,
  `add_hikers` and the `Result` passed by reference.
- The optimality claim of the doc comment (hikers.cpp:119-128) is false, so
  it is not proved.
