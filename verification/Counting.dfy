// Counting the values of a list that lie in an interval.
module Counting {

  /** How many of the values lie between the bounds, both included. */
  function Count(values: seq<int>, lo: int, hi: int): nat {
    if values == [] then 0
    else Count(values[..|values| - 1], lo, hi) + if lo <= values[|values| - 1] <= hi then 1 else 0
  }

  lemma {:induction false} CountStep(values: seq<int>, last: int, lo: int, hi: int)
    ensures Count(values + [last], lo, hi) == Count(values, lo, hi) + if lo <= last <= hi then 1 else 0
  {
    assert (values + [last])[..|values|] == values;
  }

  lemma {:induction false} CountAfter(values: seq<int>, lo: int, hi: int, k: nat)
    requires k <= |values| && forall i :: 0 <= i < k ==> values[i] < lo
    ensures Count(values, lo, hi) <= |values| - k
  {
    if values != [] {
      CountAfter(values[..|values| - 1], lo, hi, if k == |values| then k - 1 else k);
    }
  }

  /**
   * When values `n` places apart are more than `width` apart, no interval of that width holds more than `n` of them.
   */
  lemma {:induction false} SpreadCount(values: seq<int>, n: nat, width: nat, lo: int)
    requires forall i, j :: 0 <= i && i + n <= j < |values| ==> values[i] + width < values[j]
    ensures Count(values, lo, lo + width) <= n
  {
    if values != [] {
      var last := values[|values| - 1];
      if lo <= last <= lo + width && |values| >= n {
        forall i | 0 <= i < |values| - n ensures values[i] < lo {
          assert values[i] + width < last;
        }
        CountAfter(values, lo, lo + width, |values| - n);
      } else if |values| < n {
        CountAfter(values, lo, lo + width, 0);
      } else {
        SpreadCount(values[..|values| - 1], n, width, lo);
      }
    }
  }

  lemma {:induction false} CountOf(values: seq<int>, i: nat, lo: int, hi: int)
    requires i < |values| && lo <= values[i] <= hi
    ensures Count(values, lo, hi) >= 1
  {
    if i < |values| - 1 {
      CountOf(values[..|values| - 1], i, lo, hi);
    }
  }

  /** Where there is something to count there is a value in the interval. */
  lemma {:induction false} CountWitness(values: seq<int>, lo: int, hi: int) returns (i: nat)
    requires Count(values, lo, hi) >= 1
    ensures i < |values| && lo <= values[i] <= hi
  {
    var n := |values| - 1;
    if lo <= values[n] <= hi {
      i := n;
    } else {
      i := CountWitness(values[..n], lo, hi);
    }
  }

  lemma {:induction false} CountWider(values: seq<int>, lo: int, hi: int, lower: int, higher: int)
    requires lower <= lo && hi <= higher
    ensures Count(values, lo, hi) <= Count(values, lower, higher)
  {
    if values != [] {
      CountWider(values[..|values| - 1], lo, hi, lower, higher);
    }
  }

  /**
   * An interval that holds every value of another one counts at least as many, and more if it holds a further value.
   */
  lemma {:induction false} CountInto(values: seq<int>, lo: int, hi: int, lower: int, higher: int)
    requires forall i :: 0 <= i < |values| && lo <= values[i] <= hi ==> lower <= values[i] <= higher
    ensures Count(values, lo, hi) <= Count(values, lower, higher)
    ensures (exists i :: 0 <= i < |values| && lower <= values[i] <= higher && !(lo <= values[i] <= hi))
        ==> Count(values, lo, hi) < Count(values, lower, higher)
  {
    if values != [] {
      CountInto(values[..|values| - 1], lo, hi, lower, higher);
    }
  }

  /** The earliest value in an interval. */
  lemma {:induction false} Earliest(values: seq<int>, lo: int, hi: int) returns (i: nat)
    requires Count(values, lo, hi) >= 1
    ensures i < |values| && lo <= values[i] <= hi
    ensures forall j :: 0 <= j < |values| && lo <= values[j] <= hi ==> values[i] <= values[j]
  {
    var n := |values| - 1;
    var init := values[..n];
    if Count(init, lo, hi) == 0 {
      i := n;
      forall j | 0 <= j < n ensures !(lo <= values[j] <= hi) {
        if lo <= values[j] <= hi {
          CountOf(init, j, lo, hi);
        }
      }
    } else {
      i := Earliest(init, lo, hi);
      if lo <= values[n] <= hi && values[n] < values[i] {
        i := n;
      }
    }
  }

  /** Two intervals that share one point. */
  lemma {:induction false} CountSplit(values: seq<int>, lo: int, mid: int, hi: int)
    requires lo <= mid <= hi
    ensures Count(values, lo, hi) + Count(values, mid, mid) == Count(values, lo, mid) + Count(values, mid, hi)
  {
    if values != [] {
      CountSplit(values[..|values| - 1], lo, mid, hi);
    }
  }

  /** The count is the number of places. */
  lemma {:induction false} CountIsSize(values: seq<int>, lo: int, hi: int)
    ensures Count(values, lo, hi) == |set i | 0 <= i < |values| && lo <= values[i] <= hi|
  {
    var places := set i | 0 <= i < |values| && lo <= values[i] <= hi;
    if values != [] {
      var n := |values| - 1;
      var init := values[..n];
      CountIsSize(init, lo, hi);
      assert (set i | 0 <= i < |init| && lo <= init[i] <= hi) == places - {n};
      assert lo <= values[n] <= hi <==> n in places;
    }
  }
}
