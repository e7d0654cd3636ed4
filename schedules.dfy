/** Completion orders. The N helper coroutines of a combinator complete in an
    order nobody controls; an order is a sequence of task positions in which
    every position `0 .. N-1` occurs exactly once. */
module Schedules {

  predicate Distinct(order: seq<nat>)
  {
    forall j, k :: 0 <= j < k < |order| ==> order[j] != order[k]
  }

  /** `order` is a completion order of `n` tasks: `n` distinct positions below `n`. */
  predicate IsSchedule(order: seq<nat>, n: nat)
  {
    |order| == n && Distinct(order) && forall k :: 0 <= k < |order| ==> order[k] < n
  }

  /** Removing one entry keeps the others distinct. */
  function RemoveAt(order: seq<nat>, p: nat): (r: seq<nat>)
    requires p < |order|
    ensures |r| == |order| - 1
    ensures forall k :: 0 <= k < p ==> r[k] == order[k]
    ensures forall k :: p <= k < |r| ==> r[k] == order[k + 1]
  {
    order[..p] + order[p + 1..]
  }

  /** Pigeonhole: distinct positions below `m` number at most `m`, and exactly
      `m` of them cover every position below `m`. */
  lemma {:induction false} DistinctBelow(order: seq<nat>, m: nat)
    requires Distinct(order)
    requires forall k :: 0 <= k < |order| ==> order[k] < m
    ensures |order| <= m
    ensures |order| == m ==> forall i :: 0 <= i < m ==> i in order
  {
    if m == 0 {
      // no position lies below 0, so `order` is empty
    } else if m - 1 in order {
      var p :| 0 <= p < |order| && order[p] == m - 1;
      var rest := RemoveAt(order, p);
      forall k | 0 <= k < |rest|
        ensures rest[k] < m - 1
      {
        if k < p {
          assert rest[k] == order[k] && k != p;
        } else {
          assert rest[k] == order[k + 1] && k + 1 != p;
        }
      }
      forall j, k | 0 <= j < k < |rest|
        ensures rest[j] != rest[k]
      {
        var j' := if j < p then j else j + 1;
        var k' := if k < p then k else k + 1;
        assert rest[j] == order[j'] && rest[k] == order[k'] && j' < k';
      }
      DistinctBelow(rest, m - 1);
      if |order| == m {
        forall i | 0 <= i < m
          ensures i in order
        {
          if i < m - 1 {
            assert |rest| == m - 1 && i in rest;
            var q :| 0 <= q < |rest| && rest[q] == i;
            if q < p {
              assert order[q] == i;
            } else {
              assert order[q + 1] == i;
            }
          }
        }
      }
    } else {
      forall k | 0 <= k < |order|
        ensures order[k] < m - 1
      {
        assert order[k] != m - 1;
      }
      DistinctBelow(order, m - 1);
    }
  }

  /** In a completion order of `n` tasks every task completes. */
  lemma ScheduleCovers(order: seq<nat>, n: nat)
    requires IsSchedule(order, n)
    ensures forall i :: 0 <= i < n ==> i in order
  {
    DistinctBelow(order, n);
  }
}
