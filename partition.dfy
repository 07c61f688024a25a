/**
 * `getMorphingElementsReorganisedPerChain`: the collected elements dealt
 * round-robin into `concurrentialMorphs` lanes, the element at index k going
 * to lane k % N.
 */
module Partition {
  import opened Seqs

  /** A positive multiple of n is at least n. */
  lemma {:induction false} MulAtLeast(d: int, n: nat)
    requires d >= 1
    ensures d * n >= n
    decreases d
  {
    if d > 1 {
      MulAtLeast(d - 1, n);
      assert d * n == (d - 1) * n + n;
    }
  }

  /** Euclidean division is determined by quotient and remainder. */
  lemma DivModUnique(a: int, n: int, q: int, r: int)
    requires n >= 1 && 0 <= r < n && a == q * n + r
    ensures a / n == q && a % n == r
  {
    var q', r' := a / n, a % n;
    assert a == q' * n + r';
    if q' != q {
      if q' < q {
        MulAtLeast(q - q', n);
      } else {
        MulAtLeast(q' - q, n);
      }
      assert false;
    }
  }

  /** How quotient and remainder move when the dividend grows by one. */
  lemma DivModNext(m: nat, n: nat)
    requires n >= 1
    ensures m % n == n - 1 ==> (m + 1) / n == m / n + 1 && (m + 1) % n == 0
    ensures m % n < n - 1 ==> (m + 1) / n == m / n && (m + 1) % n == m % n + 1
  {
    if m % n == n - 1 {
      DivModUnique(m + 1, n, m / n + 1, 0);
    } else {
      DivModUnique(m + 1, n, m / n, m % n + 1);
    }
  }

  /**
   * The lanes after pushing every element of `elems`, in order, onto lane
   * `index % n` (lines 104-110): the specification of the loop below.
   */
  function RoundRobin<E>(elems: seq<E>, n: nat): (lanes: seq<seq<E>>)
    requires n >= 1
    ensures |lanes| == n
    decreases |elems|
  {
    if |elems| == 0 then seq(n, _ => [])
    else
      var last := |elems| - 1;
      var prev := RoundRobin(elems[..last], n);
      prev[last % n := prev[last % n] + [elems[last]]]
  }

  /** The loop of `getMorphingElementsReorganisedPerChain`, over a lane sequence. */
  method ReorganisePerChain<E>(allElements: seq<E>, n: nat) returns (lanes: seq<seq<E>>)
    requires n >= 1
    ensures lanes == RoundRobin(allElements, n)
  {
    lanes := [];
    for i := 0 to n
      invariant |lanes| == i
      invariant forall k :: 0 <= k < i ==> lanes[k] == []
    {
      lanes := lanes + [[]];
    }
    assert lanes == RoundRobin(allElements[..0], n);
    for index := 0 to |allElements|
      invariant lanes == RoundRobin(allElements[..index], n)
    {
      assert allElements[..index + 1][..index] == allElements[..index];
      lanes := lanes[index % n := lanes[index % n] + [allElements[index]]];
    }
    assert allElements[..|allElements|] == allElements;
  }

  /** Lane i holds M / N elements, plus one when i < M % N. */
  lemma {:induction false} LaneSizes<E>(elems: seq<E>, n: nat)
    requires n >= 1
    ensures forall i :: 0 <= i < n ==>
      |RoundRobin(elems, n)[i]| == |elems| / n + (if i < |elems| % n then 1 else 0)
    decreases |elems|
  {
    if |elems| == 0 {
      DivModUnique(0, n, 0, 0);
    } else {
      var m := |elems| - 1;
      LaneSizes(elems[..m], n);
      DivModNext(m, n);
    }
  }

  /** Position j of lane i holds the element at input index j * N + i: input order is kept in every lane. */
  lemma {:induction false} LaneContents<E>(elems: seq<E>, n: nat, i: nat, j: nat)
    requires n >= 1 && i < n && j < |RoundRobin(elems, n)[i]|
    ensures j * n + i < |elems| && RoundRobin(elems, n)[i][j] == elems[j * n + i]
    decreases |elems|
  {
    var m := |elems| - 1;
    var prev := RoundRobin(elems[..m], n);
    LaneSizes(elems[..m], n);
    if i == m % n && j == |prev[i]| {
      assert j == m / n;
      assert j * n + i == m;
    } else {
      LaneContents(elems[..m], n, i, j);
    }
  }

  /** The element at input index k sits in lane k % N at position k / N. */
  lemma {:induction false} Placement<E>(elems: seq<E>, n: nat, k: nat)
    requires n >= 1 && k < |elems|
    ensures k / n < |RoundRobin(elems, n)[k % n]|
    ensures RoundRobin(elems, n)[k % n][k / n] == elems[k]
    decreases |elems|
  {
    var m := |elems| - 1;
    var prev := RoundRobin(elems[..m], n);
    LaneSizes(elems[..m], n);
    if k < m {
      Placement(elems[..m], n, k);
    }
  }

  /** Lane sizes differ by at most one, and lane 0 is never smaller than another lane. */
  lemma Balanced<E>(elems: seq<E>, n: nat, i: nat, i': nat)
    requires n >= 1 && i < n && i' < n
    ensures |RoundRobin(elems, n)[i]| <= |RoundRobin(elems, n)[0]|
    ensures |RoundRobin(elems, n)[i]| <= |RoundRobin(elems, n)[i']| + 1
  {
    LaneSizes(elems, n);
  }

  /** Lane 0 is empty exactly when there are no elements. */
  lemma FirstLaneEmptyIff<E>(elems: seq<E>, n: nat)
    requires n >= 1
    ensures RoundRobin(elems, n)[0] == [] <==> elems == []
  {
    if elems != [] {
      Placement(elems, n, 0);
      assert 0 % n == 0 && 0 / n == 0;
    }
  }

  /** Every element lands in some lane and nothing else does: the lanes are a permutation of the input. */
  lemma {:induction false} RoundRobinPermutation<E>(elems: seq<E>, n: nat)
    requires n >= 1
    ensures multiset(Flatten(RoundRobin(elems, n))) == multiset(elems)
    ensures |Flatten(RoundRobin(elems, n))| == |elems|
    decreases |elems|
  {
    var lanes := RoundRobin(elems, n);
    if |elems| == 0 {
      FlattenEmpties(lanes);
    } else {
      var m := |elems| - 1;
      RoundRobinPermutation(elems[..m], n);
      FlattenAppendAt(RoundRobin(elems[..m], n), m % n, elems[m]);
      assert elems == elems[..m] + [elems[m]];
    }
    assert |multiset(Flatten(lanes))| == |Flatten(lanes)|;
  }

  /** With distinct elements, an element occupies exactly one lane position. */
  lemma OneLanePerElement<E>(elems: seq<E>, n: nat, i: nat, j: nat, i': nat, j': nat)
    requires n >= 1 && Distinct(elems) && i < n && i' < n
    requires j < |RoundRobin(elems, n)[i]| && j' < |RoundRobin(elems, n)[i']|
    requires RoundRobin(elems, n)[i][j] == RoundRobin(elems, n)[i'][j']
    ensures i == i' && j == j'
  {
    LaneContents(elems, n, i, j);
    LaneContents(elems, n, i', j');
    assert j * n + i == j' * n + i';
    DivModUnique(j * n + i, n, j, i);
    DivModUnique(j' * n + i', n, j', i');
  }

  /** Six elements on three lanes: `[[e0, e3], [e1, e4], [e2, e5]]`. */
  lemma SixOnThree()
    ensures RoundRobin([0, 1, 2, 3, 4, 5], 3) == [[0, 3], [1, 4], [2, 5]]
  {
    var elems := [0, 1, 2, 3, 4, 5];
    var lanes := RoundRobin(elems, 3);
    LaneSizes(elems, 3);
    DivModUnique(6, 3, 2, 0);
    forall i, j | 0 <= i < 3 && 0 <= j < 2
      ensures lanes[i][j] == elems[j * 3 + i]
    {
      LaneContents(elems, 3, i, j);
    }
    assert |lanes[0]| == 2 && |lanes[1]| == 2 && |lanes[2]| == 2;
    assert lanes[0] == [0, 3] && lanes[1] == [1, 4] && lanes[2] == [2, 5];
  }
}
