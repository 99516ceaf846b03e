// The older split endpoint of the passengers router: every passenger of the
// trip is charged the total cost divided by the number of passengers, whatever
// it owed before. The trip lookup is replaced by a given trip, or null when no
// trip has the requested id; persisting the rows is not part of this model.

module PassengersRouter {
  import opened Sums
  import opened Models

  /** The total cost divided evenly over `n` passengers. */
  function EqualSplit(totalCost: real, n: nat): (r: seq<real>)
    ensures |r| == n
    ensures forall i, j :: 0 <= i < n && 0 <= j < n ==> r[i] == r[j]
    ensures n >= 1 ==> Sum(r) == totalCost
  {
    if n == 0 then []
    else
      var share := totalCost / n as real;
      SumConstant(n, share);
      Constant(n, share)
  }

  /**
   * Charges every passenger of `trip` an equal part of its total cost and
   * returns the trip's own passenger list; a missing trip or a trip without
   * passengers gives the empty list and changes nothing.
   */
  method ComputeSplit(trip: Trip?) returns (passengers: seq<Passenger>)
    requires trip != null ==> Distinct(trip.passengers)
    modifies if trip == null then {} else set p | p in trip.passengers
    ensures trip == null ==> passengers == []
    ensures trip != null ==> unchanged(trip) && passengers == trip.passengers
    ensures trip != null ==> Shares(passengers) == EqualSplit(trip.totalCost, |passengers|)
  {
    if trip == null || trip.passengers == [] {
      return [];
    }
    var numPassengers := |trip.passengers|;
    var baseShare := trip.totalCost / numPassengers as real;
    passengers := trip.passengers;
    ghost var target := EqualSplit(trip.totalCost, numPassengers);
    assert forall k :: 0 <= k < numPassengers ==> target[k] == baseShare;
    var i := 0;
    while i < numPassengers
      invariant 0 <= i <= numPassengers
      invariant forall k :: 0 <= k < i ==> passengers[k].shareAmount == baseShare
    {
      passengers[i].shareAmount := baseShare;
      i := i + 1;
    }
    forall k | 0 <= k < numPassengers
      ensures Shares(passengers)[k] == target[k]
    {
    }
  }
}
