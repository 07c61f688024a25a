/**
 * When lanes start and end. `start` delays lane i by
 * `i * morphDuration / N` (line 162); the arithmetic here is exact.
 * Lane end times assume every morph lasts exactly `morphDuration` and the
 * next step starts the moment the previous morph completes.
 */
module Timing {
  import opened Partition

  /** The delay before lane i is kicked. */
  function StartDelay(i: nat, n: nat, duration: nat): (delay: real)
    requires n >= 1
  {
    (i * duration) as real / n as real
  }

  /** The delay is the exact quotient: N times it is `i * morphDuration`. */
  lemma StartDelayExact(n: nat, duration: nat, i: nat)
    requires n >= 1
    ensures StartDelay(i, n, duration) * n as real == (i * duration) as real
  {
  }

  /** Lane 0 starts at once, and every delay is below one morph duration. */
  lemma StartDelayBounds(n: nat, duration: nat, i: nat)
    requires n >= 1 && i < n
    ensures StartDelay(0, n, duration) == 0.0
    ensures 0.0 <= StartDelay(i, n, duration)
    ensures duration > 0 ==> StartDelay(i, n, duration) < duration as real
  {
    var nr, dr := n as real, duration as real;
    assert (i * duration) as real == (i as real) * dr;
    if duration > 0 {
      assert (i as real) * dr < nr * dr;
    }
  }

  /** Lanes start in lane order, strictly spaced when the duration is positive. */
  lemma StartDelayIncreasing(n: nat, duration: nat, i: nat, j: nat)
    requires n >= 1 && i < j < n && duration > 0
    ensures StartDelay(i, n, duration) < StartDelay(j, n, duration)
  {
    var dr := duration as real;
    assert (i * duration) as real == (i as real) * dr;
    assert (j * duration) as real == (j as real) * dr;
    assert (i as real) * dr < (j as real) * dr;
  }

  /** The configuration SpellShow uses (3 lanes, 150 ms) staggers lanes by 0, 50 and 100 ms. */
  lemma SpellShowDelays()
    ensures StartDelay(0, 3, 150) == 0.0
    ensures StartDelay(1, 3, 150) == 50.0
    ensures StartDelay(2, 3, 150) == 100.0
  {
  }

  /** When lane i's last morph ends. */
  function LaneEnd<E>(lanes: seq<seq<E>>, n: nat, duration: nat, i: nat): real
    requires n >= 1 && i < |lanes|
  {
    StartDelay(i, n, duration) + (|lanes[i]| * duration) as real
  }

  /** When `complete` fires: right after lane 0's last morph, lane 0 having started at time 0. */
  function CompleteTime<E>(lanes: seq<seq<E>>, duration: nat): real
    requires |lanes| >= 1
  {
    (|lanes[0]| * duration) as real
  }

  /** A later lane ends after `complete` exactly when it holds as many morphs as lane 0. */
  lemma LaterLaneEndsLater<E>(lanes: seq<seq<E>>, n: nat, duration: nat, i: nat)
    requires n >= 1 && 1 <= i < n && i < |lanes| && duration > 0
    requires |lanes[i]| == |lanes[0]| || |lanes[i]| + 1 == |lanes[0]|
    ensures LaneEnd(lanes, n, duration, i) > CompleteTime(lanes, duration) <==> |lanes[i]| == |lanes[0]|
  {
    StartDelayBounds(n, duration, i);
    StartDelayIncreasing(n, duration, 0, i);
    var s0, s := |lanes[0]|, |lanes[i]|;
    if s + 1 == s0 {
      assert s0 * duration == s * duration + duration;
    }
  }

  /** Some lane after lane 0 is not empty and holds as many elements as lane 0. */
  predicate LaterLaneAsFull<E>(lanes: seq<seq<E>>) {
    exists i :: 1 <= i < |lanes| && |lanes[i]| > 0 && |lanes[i]| == |lanes[0]|
  }

  /** Some lane after lane 0 is as full as lane 0 (and not empty) exactly when M > 0 and M % N != 1. */
  lemma LaterLaneAsFullIff<E>(elems: seq<E>, n: nat)
    requires n >= 2
    ensures LaterLaneAsFull(RoundRobin(elems, n)) <==> |elems| > 0 && |elems| % n != 1
  {
    var lanes := RoundRobin(elems, n);
    var m := |elems|;
    var q, r := m / n, m % n;
    LaneSizes(elems, n);
    assert |lanes[0]| == q + (if 0 < r then 1 else 0);
    assert |lanes[1]| == q + (if 1 < r then 1 else 0);
    if m == 0 {
      DivModUnique(0, n, 0, 0);
      assert q == 0 && r == 0;
    } else if r != 1 {
      if r == 0 && q == 0 {
        DivModUnique(m, n, 0, 0);
        assert false;
      }
      assert 1 <= 1 < n && |lanes[1]| > 0 && |lanes[1]| == |lanes[0]|;
      assert LaterLaneAsFull(lanes);
    } else {
      assert |lanes[0]| == q + 1;
      forall i | 1 <= i < n
        ensures |lanes[i]| != |lanes[0]|
      {
        assert |lanes[i]| == q;
      }
    }
  }

  /**
   * With two or more lanes, `complete` fires while another lane is still
   * morphing exactly when there is at least one element and the element
   * count is not 1 more than a multiple of N: then some other lane holds as
   * many elements as lane 0 but started later.
   */
  lemma CompleteBeforeAllLanesEnd<E>(elems: seq<E>, n: nat, duration: nat)
    requires n >= 2 && duration > 0
    ensures var lanes := RoundRobin(elems, n);
      (exists i :: 1 <= i < n && |lanes[i]| > 0 && LaneEnd(lanes, n, duration, i) > CompleteTime(lanes, duration))
      <==> |elems| > 0 && |elems| % n != 1
  {
    var lanes := RoundRobin(elems, n);
    Balanced(elems, n, 0, 0);
    forall i | 1 <= i < n
      ensures LaneEnd(lanes, n, duration, i) > CompleteTime(lanes, duration) <==> |lanes[i]| == |lanes[0]|
    {
      Balanced(elems, n, i, 0);
      Balanced(elems, n, 0, i);
      LaterLaneEndsLater(lanes, n, duration, i);
    }
    LaterLaneAsFullIff(elems, n);
  }
}
