// What the trip handlers' use of the fare split implies over a trip's life:
// passengers join with a share of 0.0, each read splits again, and deleting a
// passenger splits over the remaining ones.

module TripLifecycle {
  import opened Sums
  import opened Fare
  import PassengersRouter

  /** The shares after `k` successive splits of the same trip. */
  function Recompute(totalCost: real, shares: seq<real>, k: nat): (r: seq<real>)
    ensures |r| == |shares|
  {
    if k == 0 then shares else Split(totalCost, Recompute(totalCost, shares, k - 1))
  }

  /**
   * A trip whose passengers all still hold the default share 0.0 is split
   * evenly when its cost is not negative, the same split the passengers
   * router computes; a negative cost leaves every share at 0.0.
   */
  lemma SplitOfNewTrip(totalCost: real, n: nat)
    requires n >= 1
    ensures totalCost >= 0.0 ==> Split(totalCost, Constant(n, 0.0)) == PassengersRouter.EqualSplit(totalCost, n)
    ensures totalCost < 0.0 ==> Split(totalCost, Constant(n, 0.0)) == Constant(n, 0.0)
  {
    SumConstant(n, 0.0);
    if totalCost >= 0.0 {
      SplitOfEqualShares(totalCost, n, 0.0);
    } else {
      SplitSaturated(totalCost, Constant(n, 0.0));
    }
  }

  /** However many times a trip is read, its shares stay those of the first split. */
  lemma {:induction false} RecomputeStable(totalCost: real, shares: seq<real>, k: nat)
    requires k >= 1
    ensures Recompute(totalCost, shares, k) == Split(totalCost, shares)
  {
    if k > 1 {
      RecomputeStable(totalCost, shares, k - 1);
      SplitIdempotent(totalCost, shares);
    }
  }

  /**
   * Deleting a passenger whose share was not negative from a trip whose
   * shares added up to its cost, then splitting, brings the sum back to
   * the cost.
   */
  lemma DeleteKeepsTotal(totalCost: real, shares: seq<real>, k: nat)
    requires |shares| >= 2 && k < |shares|
    requires Sum(shares) == totalCost && shares[k] >= 0.0
    ensures Sum(Split(totalCost, Remove(shares, k))) == totalCost
  {
    SumRemove(shares, k);
    SplitConserves(totalCost, Remove(shares, k));
  }

  /**
   * Deleting any passenger from an evenly split trip of non-negative cost,
   * then splitting, splits the cost evenly over the passengers left.
   */
  lemma DeleteFromEvenSplit(totalCost: real, n: nat, k: nat)
    requires n >= 2 && k < n && totalCost >= 0.0
    ensures Split(totalCost, Remove(PassengersRouter.EqualSplit(totalCost, n), k))
         == PassengersRouter.EqualSplit(totalCost, n - 1)
  {
    var v := totalCost / n as real;
    assert Remove(PassengersRouter.EqualSplit(totalCost, n), k) == Constant(n - 1, v);
    assert (n - 1) as real * v <= totalCost by {
      assert n as real * v == totalCost;
    }
    SplitOfEqualShares(totalCost, n - 1, v);
  }
}
