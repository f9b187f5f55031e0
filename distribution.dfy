/**
 * DistanceDistribution: a sparse map from a distance to the number of node
 * pairs found at that distance. Absent distances count as zero, the counts
 * can be set, incremented and increased by any signed amount, and the total
 * is the sum of all stored counts.
 *
 * Counts are mathematical integers; the Java `long` never wraps here.
 */
module Distribution {

  ghost function Pick(s: set<int>): (x: int)
    requires s != {}
    ensures x in s
  {
    NonemptyHasElement(s);
    var x :| x in s; x
  }

  lemma NonemptyHasElement(s: set<int>)
    requires s != {}
    ensures exists x :: x in s
  {
    if forall y :: y !in s {
      assert false;
    }
  }

  /** The sum of the values of m. */
  ghost function Sum(m: map<int, int>): int
  {
    SumOver(m, m.Keys)
  }

  /** The sum of the values of m at the keys ks. */
  ghost function SumOver(m: map<int, int>, ks: set<int>): int
    requires ks <= m.Keys
    decreases |ks|
  {
    if ks == {} then 0
    else
      var k := Pick(ks);
      m[k] + SumOver(m, ks - {k})
  }

  /** The sum over ks can be split at any key, whichever key the definition picks first. */
  lemma {:induction false} SumOverRemove(m: map<int, int>, ks: set<int>, k: int)
    requires ks <= m.Keys && k in ks
    ensures SumOver(m, ks) == m[k] + SumOver(m, ks - {k})
    decreases |ks|
  {
    var j := Pick(ks);
    if j != k {
      SumOverRemove(m, ks - {j}, k);
      SumOverRemove(m, ks - {k}, j);
      assert ks - {j} - {k} == ks - {k} - {j};
    }
  }

  /** Changing m outside ks leaves the sum over ks alone. */
  lemma {:induction false} SumOverFrame(m: map<int, int>, m': map<int, int>, ks: set<int>)
    requires ks <= m.Keys && ks <= m'.Keys
    requires forall k :: k in ks ==> m[k] == m'[k]
    ensures SumOver(m, ks) == SumOver(m', ks)
    decreases |ks|
  {
    if ks != {} {
      SumOverFrame(m, m', ks - {Pick(ks)});
    }
  }

  lemma SumRemove(m: map<int, int>, k: int)
    requires k in m
    ensures Sum(m) == m[k] + Sum(m - {k})
  {
    SumOverRemove(m, m.Keys, k);
    assert (m - {k}).Keys == m.Keys - {k};
    SumOverFrame(m, m - {k}, m.Keys - {k});
  }

  /** Storing v at k changes the sum by v minus the value k had (zero when absent). */
  lemma SumUpdate(m: map<int, int>, k: int, v: int)
    ensures Sum(m[k := v]) == Sum(m) - (if k in m then m[k] else 0) + v
  {
    SumRemove(m[k := v], k);
    assert m[k := v] - {k} == m - {k};
    if k in m {
      SumRemove(m, k);
    } else {
      assert m - {k} == m;
    }
  }

  /** The count a map stores for a distance, zero when the distance is absent. */
  function ValueIn(m: map<int, int>, distance: int): (n: int)
    ensures distance !in m ==> n == 0
  {
    if distance in m then m[distance] else 0
  }

  /** `DistanceDistribution`: the `distributionMap` field, updated in place. */
  class DistanceDistribution {
    var distributionMap: map<int, int>

    /** `getValue`: the stored count of a distance, zero when it was never stored. */
    function GetValue(distance: int): (n: int)
      reads this
      ensures distance !in distributionMap ==> n == 0
    {
      ValueIn(distributionMap, distance)
    }

    /** The sum of all stored counts, which `getTotal` computes. */
    ghost function Total(): int
      reads this
    {
      Sum(distributionMap)
    }

    /** `iterator`: the distances that have a count; all others read as zero. */
    function Distances(): (ds: set<int>)
      reads this
      ensures forall d :: d !in ds ==> GetValue(d) == 0
    {
      distributionMap.Keys
    }

    constructor ()
      ensures distributionMap == map[]
      ensures forall d :: GetValue(d) == 0
      ensures Total() == 0
    {
      distributionMap := map[];
    }

    /** `setNumberOfPairs`: the distance now holds n; every other distance is unchanged. */
    method SetNumberOfPairs(distance: int, n: int)
      modifies this
      ensures distributionMap == old(distributionMap)[distance := n]
      ensures GetValue(distance) == n
      ensures forall d :: d != distance ==> GetValue(d) == old(GetValue(d))
      ensures Total() == old(Total()) - old(GetValue(distance)) + n
      ensures Distances() == old(Distances()) + {distance}
    {
      SumUpdate(distributionMap, distance, n);
      distributionMap := distributionMap[distance := n];
    }

    /**
     * `incrementNumberOfPairs`: one more pair at the distance (an absent
     * distance starts from zero); returns the new count.
     */
    method IncrementNumberOfPairs(distance: int) returns (numberOfPairs: int)
      modifies this
      ensures numberOfPairs == old(GetValue(distance)) + 1
      ensures distributionMap == old(distributionMap)[distance := numberOfPairs]
      ensures forall d :: d != distance ==> GetValue(d) == old(GetValue(d))
      ensures Total() == old(Total()) + 1
      ensures Distances() == old(Distances()) + {distance}
    {
      if distance in distributionMap {
        numberOfPairs := distributionMap[distance] + 1;
      } else {
        numberOfPairs := 1;
      }
      SumUpdate(distributionMap, distance, numberOfPairs);
      distributionMap := distributionMap[distance := numberOfPairs];
    }

    /**
     * `increaseNumberOfPairs`: adds a signed amount to the count of the
     * distance and returns the new count; a negative result is stored as is.
     */
    method IncreaseNumberOfPairs(distance: int, increase: int) returns (numberOfPairs: int)
      modifies this
      ensures numberOfPairs == old(GetValue(distance)) + increase
      ensures distributionMap == old(distributionMap)[distance := numberOfPairs]
      ensures forall d :: d != distance ==> GetValue(d) == old(GetValue(d))
      ensures Total() == old(Total()) + increase
      ensures Distances() == old(Distances()) + {distance}
    {
      if distance in distributionMap {
        numberOfPairs := distributionMap[distance] + increase;
      } else {
        numberOfPairs := increase;
      }
      SumUpdate(distributionMap, distance, numberOfPairs);
      distributionMap := distributionMap[distance := numberOfPairs];
    }

    /** `getTotal`: the sum of the counts of all distances. */
    method GetTotal() returns (total: int)
      ensures total == Total()
    {
      total := 0;
      var rest := distributionMap;
      while rest.Keys != {}
        invariant total + Sum(rest) == Sum(distributionMap)
        decreases |rest.Keys|
      {
        NonemptyHasElement(rest.Keys);
        var k :| k in rest.Keys;
        SumRemove(rest, k);
        assert (rest - {k}).Keys == rest.Keys - {k};
        total := total + rest[k];
        rest := rest - {k};
      }
    }
  }

  /**
   * The sample distribution of the class's test entry point: counts 10, 20,
   * 40, 70, 50 and 20 at distances 1 to 6 make a total of 210.
   */
  method SampleTotal() returns (total: int)
    ensures total == 210
  {
    var dist := new DistanceDistribution();
    dist.SetNumberOfPairs(1, 10);
    assert dist.Total() == 10 && dist.Distances() == {1};
    dist.SetNumberOfPairs(2, 20);
    assert dist.Total() == 30 && dist.Distances() == {1, 2};
    dist.SetNumberOfPairs(3, 40);
    assert dist.Total() == 70 && dist.Distances() == {1, 2, 3};
    dist.SetNumberOfPairs(4, 70);
    assert dist.Total() == 140 && dist.Distances() == {1, 2, 3, 4};
    dist.SetNumberOfPairs(5, 50);
    assert dist.Total() == 190 && dist.Distances() == {1, 2, 3, 4, 5};
    dist.SetNumberOfPairs(6, 20);
    total := dist.GetTotal();
  }
}
