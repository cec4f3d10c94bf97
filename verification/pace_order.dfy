/** Pace ordering: reordering hikers so that pace never increases along the
    sequence. */
module PaceOrder {
  import opened Hikers

  /** Pace never increases from one position to a later one. */
  ghost predicate SortedByPace(s: seq<Hiker>) {
    forall i, j :: 0 <= i < j < |s| ==> s[i].pace >= s[j].pace
  }

  /** `sorted` holds exactly the hikers of `hikers`, fastest first. Nothing
      is said about the relative order of hikers with equal pace. */
  ghost predicate IsPaceOrdering(hikers: seq<Hiker>, sorted: seq<Hiker>) {
    multiset(sorted) == multiset(hikers) && SortedByPace(sorted)
  }

  /** Puts `h` into the already ordered `s` in front of the first hiker
      strictly slower than it. */
  function InsertByPace(h: Hiker, s: seq<Hiker>): (r: seq<Hiker>)
    requires SortedByPace(s)
    ensures SortedByPace(r)
    ensures multiset(r) == multiset(s) + multiset{h}
  {
    if |s| == 0 then [h]
    else if h.pace >= s[0].pace then [h] + s
    else
      var rest := InsertByPace(h, s[1..]);
      assert s == [s[0]] + s[1..];
      NoFasterThanFront(s, h, rest);
      [s[0]] + rest
  }

  /** Everyone in `rest`, which holds the tail of `s` and a hiker slower
      than the front of `s`, is no faster than that front. */
  lemma NoFasterThanFront(s: seq<Hiker>, h: Hiker, rest: seq<Hiker>)
    requires SortedByPace(s) && |s| > 0
    requires h.pace < s[0].pace
    requires multiset(rest) == multiset(s[1..]) + multiset{h}
    ensures forall k :: 0 <= k < |rest| ==> rest[k].pace <= s[0].pace
  {
    forall k | 0 <= k < |rest|
      ensures rest[k].pace <= s[0].pace
    {
      assert rest[k] in multiset(rest);
      if rest[k] != h {
        assert rest[k] in s[1..];
        var j :| 0 <= j < |s[1..]| && s[1..][j] == rest[k];
        assert s[0].pace >= s[j + 1].pace;
      }
    }
  }

  /** Stands for the unstable library sort of the source: callers learn
      only that the result is a pace ordering of the input, so no property
      proved about a caller can depend on how ties are broken. */
  method SortHikersByPace(hikers: seq<Hiker>) returns (sorted: seq<Hiker>)
    ensures IsPaceOrdering(hikers, sorted)
  {
    sorted := [];
    var i := 0;
    while i < |hikers|
      invariant 0 <= i <= |hikers|
      invariant SortedByPace(sorted)
      invariant multiset(sorted) == multiset(hikers[..i])
    {
      assert hikers[..i + 1] == hikers[..i] + [hikers[i]];
      sorted := InsertByPace(hikers[i], sorted);
      i := i + 1;
    }
    assert hikers[..i] == hikers;
  }

  /** In a pace ordering the first hiker is at least as fast as everyone. */
  lemma FrontIsFastest(s: seq<Hiker>)
    requires SortedByPace(s)
    requires |s| > 0
    ensures forall h :: h in s ==> h.pace <= s[0].pace
  {
  }
}
