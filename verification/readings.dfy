/**
 A blood-sugar reading and the reference statistics over a sequence of
 readings: the sum, the largest and the smallest amount. Each is defined by
 recursion on the last element, matching the order in which readings are
 added to the store.
 */
module Readings {
  import opened JavaInt

  /**
   One reading. The date and the time are text the store carries without
   looking at; the amount is a Java `int`.
   */
  datatype Reading = Reading(dateTested: string, timeTested: string, amount: Int32)

  /** The amounts of the readings, in order. */
  function Amounts(rs: seq<Reading>): seq<int> {
    seq(|rs|, i requires 0 <= i < |rs| => rs[i].amount)
  }

  lemma AmountsAppend(rs: seq<Reading>, r: Reading)
    ensures Amounts(rs + [r]) == Amounts(rs) + [r.amount]
  {
    assert forall i :: 0 <= i < |rs| ==> (rs + [r])[i] == rs[i];
  }

  function Min(a: int, b: int): int {
    if a < b then a else b
  }

  function Max(a: int, b: int): int {
    if a < b then b else a
  }

  /** The exact (unbounded) sum. */
  function Sum(xs: seq<int>): int
    decreases |xs|
  {
    if |xs| == 0 then 0 else Sum(xs[..|xs| - 1]) + xs[|xs| - 1]
  }

  /** The largest element: one of the elements, and no element exceeds it. */
  function MaxOf(xs: seq<int>): (m: int)
    requires |xs| > 0
    ensures forall i :: 0 <= i < |xs| ==> xs[i] <= m
    ensures exists i :: 0 <= i < |xs| && xs[i] == m
    decreases |xs|
  {
    if |xs| == 1 then xs[0]
    else
      var init := xs[..|xs| - 1];
      var m := MaxOf(init);
      assert forall i :: 0 <= i < |init| ==> init[i] == xs[i];
      Max(m, xs[|xs| - 1])
  }

  /** The smallest element: one of the elements, and no element is below it. */
  function MinOf(xs: seq<int>): (m: int)
    requires |xs| > 0
    ensures forall i :: 0 <= i < |xs| ==> m <= xs[i]
    ensures exists i :: 0 <= i < |xs| && xs[i] == m
    decreases |xs|
  {
    if |xs| == 1 then xs[0]
    else
      var init := xs[..|xs| - 1];
      var m := MinOf(init);
      assert forall i :: 0 <= i < |init| ==> init[i] == xs[i];
      Min(m, xs[|xs| - 1])
  }

  /** Extending the sequence adds exactly the new element to the sum. */
  lemma SumAppend(xs: seq<int>, x: int)
    ensures Sum(xs + [x]) == Sum(xs) + x
  {
    assert (xs + [x])[..|xs|] == xs;
  }

  lemma MaxOfAppend(xs: seq<int>, x: int)
    requires |xs| > 0
    ensures MaxOf(xs + [x]) == Max(MaxOf(xs), x)
  {
    assert (xs + [x])[..|xs|] == xs;
  }

  lemma MinOfAppend(xs: seq<int>, x: int)
    requires |xs| > 0
    ensures MinOf(xs + [x]) == Min(MinOf(xs), x)
  {
    assert (xs + [x])[..|xs|] == xs;
  }
}
