// The two persisted entities the fare code works on: a trip with its total
// cost and its passengers, and a passenger with the share it owes.

module Models {

  /** A passenger row; `shareAmount` is the share of the trip's cost it owes. */
  class Passenger {
    var shareAmount: real

    /** A new row starts with the column default, a share of 0.0. */
    constructor ()
      ensures shareAmount == 0.0
    {
      shareAmount := 0.0;
    }
  }

  /** A trip row with its passengers in the order the relationship lists them. */
  class Trip {
    var totalCost: real
    var passengers: seq<Passenger>

    constructor (totalCost: real, passengers: seq<Passenger>)
      ensures this.totalCost == totalCost && this.passengers == passengers
    {
      this.totalCost := totalCost;
      this.passengers := passengers;
    }
  }

  /** Each passenger row appears once in the list. */
  predicate Distinct(ps: seq<Passenger>)
  {
    forall i, j :: 0 <= i < j < |ps| ==> ps[i] != ps[j]
  }

  /** The current share amounts of `ps`, in list order. */
  function Shares(ps: seq<Passenger>): (r: seq<real>)
    reads ps
    ensures |r| == |ps|
    ensures forall i :: 0 <= i < |ps| ==> r[i] == ps[i].shareAmount
  {
    seq(|ps|, i reads ps => if 0 <= i < |ps| then ps[i].shareAmount else 0.0)
  }
}
