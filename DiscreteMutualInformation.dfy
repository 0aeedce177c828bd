/**
 * The discrete mutual-information estimator that receives the ordinal
 * symbols together with the caller's discrete series. Its histograms and
 * its entropy arithmetic are not part of this model: the estimator is
 * represented by its alphabet size and by the observation pairs it has been
 * handed since it was last initialised.
 */
module DiscreteMutualInformation {

  class MutualInformationCalculator {
    /** The size of the single alphabet shared by both variables. */
    const base: int
    /** The time lag between the two series; the symbolic calculator uses 0. */
    const timeDiff: int
    var var1Observations: seq<int>
    var var2Observations: seq<int>

    constructor (base: int, timeDiff: int)
      ensures this.base == base && this.timeDiff == timeDiff
      ensures var1Observations == [] && var2Observations == []
    {
      this.base := base;
      this.timeDiff := timeDiff;
      var1Observations := [];
      var2Observations := [];
    }

    /** Discards every observation handed over so far. */
    method Initialise()
      modifies this
      ensures var1Observations == [] && var2Observations == []
    {
      var1Observations := [];
      var2Observations := [];
    }

    /**
     * Appends paired observations; series of different lengths are
     * rejected and leave the estimator as it was.
     */
    method AddObservations(var1: seq<int>, var2: seq<int>) returns (ok: bool)
      modifies this
      ensures ok <==> |var1| == |var2|
      ensures ok ==> var1Observations == old(var1Observations) + var1
      ensures ok ==> var2Observations == old(var2Observations) + var2
      ensures !ok ==> var1Observations == old(var1Observations) && var2Observations == old(var2Observations)
    {
      ok := |var1| == |var2|;
      if ok {
        var1Observations := var1Observations + var1;
        var2Observations := var2Observations + var2;
      }
    }
  }
}
