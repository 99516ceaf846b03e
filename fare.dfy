// The fare split the trip handlers run: the passengers' current shares are
// summed, whatever of the total cost they do not yet cover (never less than
// zero) is divided evenly, and each passenger's share is raised by that equal
// part. The previous share plays the role of the passenger's surcharge.

module Fare {
  import opened Sums
  import opened Models

  /** The part of the total cost the current shares do not cover, clamped at 0. */
  function Base(totalCost: real, shares: seq<real>): (r: real)
    ensures r >= 0.0 && r >= totalCost - Sum(shares)
    ensures r == 0.0 || r == totalCost - Sum(shares)
  {
    var uncovered := totalCost - Sum(shares);
    if uncovered > 0.0 then uncovered else 0.0
  }

  /** The number of passengers, or 1 for an empty trip. */
  function Divisor(n: nat): (d: nat)
    ensures d >= 1 && d >= n && (d == n || d == 1)
  {
    if n > 1 then n else 1
  }

  /** What every passenger's share is raised by: the base, divided evenly. */
  function EqualShare(totalCost: real, shares: seq<real>): (r: real)
    ensures r >= 0.0
    ensures Divisor(|shares|) as real * r == Base(totalCost, shares)
  {
    Base(totalCost, shares) / Divisor(|shares|) as real
  }

  /** The shares after one split: each old share plus the same equal part. */
  function Split(totalCost: real, shares: seq<real>): (r: seq<real>)
    ensures |r| == |shares|
    ensures forall i :: 0 <= i < |r| ==> r[i] >= shares[i]
    ensures forall i, j :: 0 <= i < |r| && 0 <= j < |r| ==> r[i] - r[j] == shares[i] - shares[j]
  {
    Shift(shares, EqualShare(totalCost, shares))
  }

  /** A split adds exactly the base to the sum of the shares. */
  lemma SplitAddsBase(totalCost: real, shares: seq<real>)
    requires |shares| >= 1
    ensures Sum(Split(totalCost, shares)) == Sum(shares) + Base(totalCost, shares)
  {
    var e := EqualShare(totalCost, shares);
    assert |shares| as real * e == Base(totalCost, shares) by {
      assert Divisor(|shares|) as real * e == Base(totalCost, shares);
    }
    SumShift(shares, e);
  }

  /** After a split the shares add up to the total cost, or to their old sum if that was larger. */
  lemma SplitSum(totalCost: real, shares: seq<real>)
    requires |shares| >= 1
    ensures Sum(Split(totalCost, shares)) == if Sum(shares) <= totalCost then totalCost else Sum(shares)
  {
    SplitAddsBase(totalCost, shares);
  }

  /** Conservation: shares that did not exceed the total cost add up to it afterwards. */
  lemma SplitConserves(totalCost: real, shares: seq<real>)
    requires |shares| >= 1 && Sum(shares) <= totalCost
    ensures Sum(Split(totalCost, shares)) == totalCost
  {
    SplitSum(totalCost, shares);
  }

  /** Shares that already cover the total cost are left exactly as they were. */
  lemma SplitSaturated(totalCost: real, shares: seq<real>)
    requires Sum(shares) >= totalCost
    ensures EqualShare(totalCost, shares) == 0.0
    ensures Split(totalCost, shares) == shares
  {
  }

  /** Splitting twice in a row gives what splitting once gives. */
  lemma SplitIdempotent(totalCost: real, shares: seq<real>)
    ensures Split(totalCost, Split(totalCost, shares)) == Split(totalCost, shares)
  {
    if |shares| >= 1 {
      SplitSum(totalCost, shares);
      SplitSaturated(totalCost, Split(totalCost, shares));
    }
  }

  /**
   * Equal shares that do not exceed the total cost become the total cost
   * divided evenly, whatever they were.
   */
  lemma SplitOfEqualShares(totalCost: real, n: nat, v: real)
    requires n >= 1 && n as real * v <= totalCost
    ensures Split(totalCost, Constant(n, v)) == Constant(n, totalCost / n as real)
  {
    var shares := Constant(n, v);
    SumConstant(n, v);
    var e := EqualShare(totalCost, shares);
    assert n as real * e == totalCost - n as real * v;
    assert n as real * (v + e) == totalCost;
    assert v + e == totalCost / n as real;
  }

  /** The sum of the passengers' shares, accumulated passenger by passenger. */
  method TotalShareAmount(passengers: seq<Passenger>) returns (total: real)
    ensures total == Sum(Shares(passengers))
  {
    ghost var shares := Shares(passengers);
    total := 0.0;
    var i := 0;
    while i < |passengers|
      invariant 0 <= i <= |passengers|
      invariant total == Sum(shares[..i])
    {
      assert shares[..i + 1][..i] == shares[..i];
      total := total + passengers[i].shareAmount;
      i := i + 1;
    }
    assert shares[..i] == shares;
  }

  /**
   * Splits the trip's fare in place: every passenger's share becomes its
   * old share plus the equal part of the uncovered cost. Returns the trip's
   * own passenger list; the trip itself is not changed.
   */
  method ComputeSplit(trip: Trip) returns (passengers: seq<Passenger>)
    requires Distinct(trip.passengers)
    modifies set p | p in trip.passengers
    ensures unchanged(trip) && passengers == trip.passengers
    ensures Shares(passengers) == Split(trip.totalCost, old(Shares(trip.passengers)))
  {
    passengers := trip.passengers;
    ghost var before := Shares(passengers);
    var totalSurcharge := TotalShareAmount(passengers);
    var base := if trip.totalCost - totalSurcharge > 0.0 then trip.totalCost - totalSurcharge else 0.0;
    assert base == Base(trip.totalCost, before);
    var divisor := if |passengers| > 1 then |passengers| else 1;
    var equalShare := base / divisor as real;
    ghost var target := Split(trip.totalCost, before);
    assert target == Shift(before, equalShare);
    var i := 0;
    while i < |passengers|
      invariant 0 <= i <= |passengers|
      invariant forall k :: 0 <= k < i ==> passengers[k].shareAmount == target[k]
      invariant forall k :: i <= k < |passengers| ==> passengers[k].shareAmount == before[k]
    {
      assert forall k :: 0 <= k < |passengers| && k != i ==> passengers[k] != passengers[i];
      passengers[i].shareAmount := equalShare + passengers[i].shareAmount;
      i := i + 1;
    }
    forall k | 0 <= k < |passengers|
      ensures Shares(passengers)[k] == target[k]
    {
    }
  }
}
