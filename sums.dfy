// Sums of money amounts, taken left to right as Python's built-in `sum`
// visits a list, together with the sequence shapes the fare code produces.

module Sums {

  /** The sum of `s`, accumulated from the first element to the last. */
  function Sum(s: seq<real>): (r: real)
  {
    if s == [] then 0.0 else Sum(s[..|s| - 1]) + s[|s| - 1]
  }

  /** `n` copies of the amount `v`. */
  function Constant(n: nat, v: real): (r: seq<real>)
    ensures |r| == n
    ensures forall i :: 0 <= i < n ==> r[i] == v
  {
    seq(n, _ => v)
  }

  /** Every amount of `s` raised by the same increment `c`. */
  function Shift(s: seq<real>, c: real): (r: seq<real>)
    ensures |r| == |s|
    ensures forall i :: 0 <= i < |s| ==> r[i] == s[i] + c
  {
    seq(|s|, i requires 0 <= i < |s| => s[i] + c)
  }

  /** `s` without its element at index `k`, the others kept in order. */
  function Remove(s: seq<real>, k: nat): (r: seq<real>)
    requires k < |s|
    ensures |r| == |s| - 1
    ensures forall i :: 0 <= i < k ==> r[i] == s[i]
    ensures forall i :: k <= i < |r| ==> r[i] == s[i + 1]
  {
    s[..k] + s[k + 1..]
  }

  /** Raising every amount by `c` raises the sum by `|s| * c`. */
  lemma {:induction false} SumShift(s: seq<real>, c: real)
    ensures Sum(Shift(s, c)) == Sum(s) + |s| as real * c
  {
    if s != [] {
      var front := s[..|s| - 1];
      assert Shift(s, c)[..|s| - 1] == Shift(front, c);
      SumShift(front, c);
    }
  }

  lemma {:induction false} SumConstant(n: nat, v: real)
    ensures Sum(Constant(n, v)) == n as real * v
  {
    if n > 0 {
      assert Constant(n, v)[..n - 1] == Constant(n - 1, v);
      SumConstant(n - 1, v);
    }
  }

  /** Taking one amount out of a list lowers its sum by exactly that amount. */
  lemma {:induction false} SumRemove(s: seq<real>, k: nat)
    requires k < |s|
    ensures Sum(s) == Sum(Remove(s, k)) + s[k]
  {
    var last := |s| - 1;
    if k < last {
      assert Remove(s, k)[..last - 1] == Remove(s[..last], k);
      SumRemove(s[..last], k);
    } else {
      assert Remove(s, k) == s[..last];
    }
  }
}
