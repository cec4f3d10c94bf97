/** The records the crossing computation works on: hikers, bridges and the
    result that collects one duration per bridge plus their total. */
module Hikers {

  /** A hiker, identified by name, crossing at `pace` feet per minute. */
  datatype Hiker = Hiker(name: string, pace: real)

  /** A bridge: `id` is the slot its duration is written to, `length` is in
      feet, and `hikers` are the newcomers who join the waiting pool here. */
  datatype Bridge = Bridge(id: int, length: real, hikers: seq<Hiker>)

  /** The duration of each bridge, indexed by bridge id, and their total,
      in minutes. */
  datatype Result = Result(totalT: real, bridgeT: seq<real>)

  /** Every hiker of `hs` has a strictly positive pace, so every trip
      `length / pace` is defined. */
  ghost predicate PacesPositive(hs: seq<Hiker>) {
    forall h :: h in hs ==> h.pace > 0.0
  }

  /** Every hiker of every bridge has a strictly positive pace. */
  ghost predicate AllPacesPositive(bridges: seq<Bridge>) {
    forall k, h :: 0 <= k < |bridges| && h in bridges[k].hikers ==> h.pace > 0.0
  }
}
