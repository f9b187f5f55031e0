/**
 * ProbabilityDistribution: a map from a distance to an integer value, read
 * with a default of zero for distances that were never set.
 */
module Probability {

  class ProbabilityDistribution {
    var distributionMap: map<int, int>

    /** `getValue`: the value set for the distance, zero when it was never set. */
    function GetValue(distance: int): (n: int)
      reads this
      ensures distance !in distributionMap ==> n == 0
    {
      if distance in distributionMap then distributionMap[distance] else 0
    }

    constructor ()
      ensures distributionMap == map[]
      ensures forall d :: GetValue(d) == 0
    {
      distributionMap := map[];
    }

    /**
     * `setDistanceValue`: the distance now reads n, overwriting any earlier
     * value, and every other distance reads as before.
     */
    method SetDistanceValue(distance: int, numberOfPairs: int)
      modifies this
      ensures distributionMap == old(distributionMap)[distance := numberOfPairs]
      ensures GetValue(distance) == numberOfPairs
      ensures forall d :: d != distance ==> GetValue(d) == old(GetValue(d))
    {
      distributionMap := distributionMap[distance := numberOfPairs];
    }
  }
}
