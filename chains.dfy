/**
 * `createChains`: one MooTools `Chain` queue per lane, and what running the
 * head of a queue (`callChain`) does.
 */
module Chains {

  /**
   * A queued chain function: morph one element over `duration`
   * (lines 128-142), or the terminal step that fires `complete` and then calls
   * the scheduler's own chain (lines 148-151).
   */
  datatype Step<E> = MorphStep(element: E, duration: nat) | TerminalStep

  /** What the scheduler makes observable, in the order it happens. */
  datatype Event<E> =
    | Ready                         // fireEvent('ready')
    | Started                       // fireEvent('start')
    | Styled(element: E)            // initialCss written on one element
    | Morphing(element: E, duration: nat)  // a morph of one element begins
    | Completed                     // fireEvent('complete')
    | OuterChainCalled              // this.callChain() on the scheduler's own chain

  /** One morph step per lane element, in lane order (lines 126-144). */
  function MorphSteps<E>(lane: seq<E>, duration: nat): (q: seq<Step<E>>)
    ensures |q| == |lane|
    ensures forall j :: 0 <= j < |q| ==> q[j] == MorphStep(lane[j], duration)
  {
    if lane == [] then [] else [MorphStep(lane[0], duration)] + MorphSteps(lane[1..], duration)
  }

  /**
   * The lane that receives the terminal step: `elements.length % chains.length`
   * (line 148), where `elements` is the array of lanes, not of elements.
   */
  function TerminalLane(lanesLength: nat, chainsLength: nat): (t: nat)
    requires chainsLength >= 1
    ensures t < chainsLength
  {
    lanesLength % chainsLength
  }

  /** With as many lanes as chains, the terminal step always goes to lane 0. */
  lemma TerminalLaneIsFirst(n: nat)
    requires n >= 1
    ensures TerminalLane(n, n) == 0
  {
    assert n == 1 * n + 0;
  }

  /** The queues `createChains` builds from the lanes. */
  function ChainQueues<E>(lanes: seq<seq<E>>, duration: nat): (queues: seq<seq<Step<E>>>)
    requires |lanes| >= 1
    ensures |queues| == |lanes|
  {
    var queues := seq(|lanes|, i requires 0 <= i < |lanes| => MorphSteps(lanes[i], duration));
    var t := TerminalLane(|lanes|, |queues|);
    queues[t := queues[t] + [TerminalStep]]
  }

  /**
   * Each lane's queue is one morph step per lane element, in order, with the
   * configured duration; lane 0 alone ends with the terminal step.
   */
  lemma ChainQueuesShape<E>(lanes: seq<seq<E>>, duration: nat)
    requires |lanes| >= 1
    ensures |ChainQueues(lanes, duration)| == |lanes|
    ensures forall i :: 0 <= i < |lanes| ==>
      |ChainQueues(lanes, duration)[i]| == |lanes[i]| + (if i == 0 then 1 else 0)
    ensures forall i, j :: 0 <= i < |lanes| && 0 <= j < |lanes[i]| ==>
      ChainQueues(lanes, duration)[i][j] == MorphStep(lanes[i][j], duration)
    ensures ChainQueues(lanes, duration)[0][|lanes[0]|] == TerminalStep
  {
    TerminalLaneIsFirst(|lanes|);
  }

  /** The terminal step sits nowhere but at the end of lane 0. */
  ghost predicate TerminalOnlyLast<E>(queues: seq<seq<Step<E>>>) {
    forall i, k :: 0 <= i < |queues| && 0 <= k < |queues[i]| && queues[i][k].TerminalStep? ==>
      i == 0 && k == |queues[0]| - 1
  }

  /** 1 while the terminal step is still queued, 0 once it has run. */
  function TerminalPending<E>(queues: seq<seq<Step<E>>>): nat {
    if |queues| > 0 && |queues[0]| > 0 && queues[0][|queues[0]| - 1].TerminalStep? then 1 else 0
  }

  /** Freshly built queues hold exactly one terminal step, at the end of lane 0. */
  lemma ChainQueuesTerminal<E>(lanes: seq<seq<E>>, duration: nat)
    requires |lanes| >= 1
    ensures TerminalOnlyLast(ChainQueues(lanes, duration))
    ensures TerminalPending(ChainQueues(lanes, duration)) == 1
  {
    ChainQueuesShape(lanes, duration);
  }

  /** Chain.callChain on a queue: the head is shifted off; an empty queue stays empty. */
  function Shift<E>(queue: seq<Step<E>>): (rest: seq<Step<E>>)
  {
    if queue == [] then [] else queue[1..]
  }

  /** `callChain` removes exactly the head step of a non-empty queue. */
  lemma ShiftMeaning<E>(queue: seq<Step<E>>)
    ensures queue != [] ==> [queue[0]] + Shift(queue) == queue
    ensures queue == [] ==> Shift(queue) == []
  {
  }

  /** The events running the head of `queue` produces; none when the queue is empty. */
  function CallChainEvents<E>(queue: seq<Step<E>>): (events: seq<Event<E>>)
  {
    if queue == [] then []
    else match queue[0]
      case MorphStep(e, d) => [Morphing(e, d)]
      case TerminalStep => [Completed, OuterChainCalled]
  }

  /**
   * Running the head step emits nothing exactly for an empty queue, fires
   * `complete` exactly for the terminal step, and starts one morph, and
   * nothing else, exactly for a morph step.
   */
  lemma CallChainEventsMeaning<E>(queue: seq<Step<E>>)
    ensures CallChainEvents(queue) == [] <==> queue == []
    ensures multiset(CallChainEvents(queue))[Completed] == if queue != [] && queue[0].TerminalStep? then 1 else 0
    ensures |CallChainEvents(queue)| == 1 <==> queue != [] && queue[0].MorphStep?
    ensures queue != [] && queue[0].MorphStep? ==>
      CallChainEvents(queue) == [Morphing(queue[0].element, queue[0].duration)]
    ensures queue != [] && queue[0].TerminalStep? ==> CallChainEvents(queue) == [Completed, OuterChainCalled]
  {
  }

  /** 1 when running the head of `queue` starts a morph (whose end will call the chain again). */
  function MorphsStarted<E>(queue: seq<Step<E>>): nat {
    if queue != [] && queue[0].MorphStep? then 1 else 0
  }

  /** Shifting one lane keeps the terminal step last in lane 0; the terminal count drops exactly when it runs. */
  lemma ShiftKeepsTerminalLast<E>(queues: seq<seq<Step<E>>>, lane: nat)
    requires lane < |queues| && TerminalOnlyLast(queues)
    ensures TerminalOnlyLast(queues[lane := Shift(queues[lane])])
    ensures TerminalPending(queues[lane := Shift(queues[lane])]) + multiset(CallChainEvents(queues[lane]))[Completed]
      == TerminalPending(queues)
  {
    var q := queues[lane];
    var after: seq<seq<Step<E>>> := queues[lane := Shift(q)];
    forall i, k | 0 <= i < |after| && 0 <= k < |after[i]| && after[i][k].TerminalStep?
      ensures i == 0 && k == |after[0]| - 1
    {
      if i == lane {
        assert after[i][k] == q[k + 1];
      }
    }
    if q != [] && q[0].TerminalStep? {
      assert lane == 0 && |q| == 1;
    } else if lane == 0 && |q| >= 2 {
      assert after[0][|after[0]| - 1] == q[|q| - 1];
    }
  }

  /** The events a queue emits when every step in it runs, one after the other. */
  function Drain<E>(queue: seq<Step<E>>): seq<Event<E>> {
    if queue == [] then [] else CallChainEvents(queue) + Drain(queue[1..])
  }

  /** One morph event per element, in order. */
  function MorphEvents<E>(lane: seq<E>, duration: nat): seq<Event<E>> {
    if lane == [] then [] else [Morphing(lane[0], duration)] + MorphEvents(lane[1..], duration)
  }

  lemma {:induction false} DrainMorphSteps<E>(lane: seq<E>, duration: nat, tail: seq<Step<E>>)
    ensures Drain(MorphSteps(lane, duration) + tail) == MorphEvents(lane, duration) + Drain(tail)
  {
    if lane != [] {
      var q := MorphSteps(lane, duration) + tail;
      assert q[1..] == MorphSteps(lane[1..], duration) + tail;
      DrainMorphSteps(lane[1..], duration, tail);
    } else {
      assert MorphSteps(lane, duration) + tail == tail;
    }
  }

  lemma {:induction false} MorphEventsNoCompletion<E>(lane: seq<E>, duration: nat)
    ensures multiset(MorphEvents(lane, duration))[Completed] == 0
  {
    if lane != [] {
      MorphEventsNoCompletion(lane[1..], duration);
    }
  }

  /**
   * Running lane i to its end morphs its elements in order, each over
   * `duration`; lane 0 then fires `complete` and calls the outer chain, and it
   * is the only lane that does.
   */
  lemma LaneRun<E>(lanes: seq<seq<E>>, duration: nat, i: nat)
    requires i < |lanes|
    ensures Drain(ChainQueues(lanes, duration)[i])
      == MorphEvents(lanes[i], duration) + (if i == 0 then [Completed, OuterChainCalled] else [])
    ensures multiset(Drain(ChainQueues(lanes, duration)[i]))[Completed] == if i == 0 then 1 else 0
  {
    TerminalLaneIsFirst(|lanes|);
    var q := ChainQueues(lanes, duration)[i];
    if i == 0 {
      assert q == MorphSteps(lanes[0], duration) + [TerminalStep];
      DrainMorphSteps(lanes[0], duration, [TerminalStep]);
      var last: seq<Step<E>> := [TerminalStep];
      assert Drain(last) == [Completed, OuterChainCalled] by {
        assert last[1..] == [];
      }
    } else {
      assert q == MorphSteps(lanes[i], duration) + [];
      DrainMorphSteps(lanes[i], duration, []);
    }
    MorphEventsNoCompletion(lanes[i], duration);
  }

  /** The events of kicking lanes 0 .. k-1 once each, in lane order. */
  function KickEvents<E>(queues: seq<seq<Step<E>>>, k: nat): seq<Event<E>>
    requires k <= |queues|
  {
    if k == 0 then [] else KickEvents(queues, k - 1) + CallChainEvents(queues[k - 1])
  }

  /** Kicking lanes 0 .. k-1 with only lane 0 able to hold the terminal step. */
  lemma {:induction false} KickEventsCompleted<E>(queues: seq<seq<Step<E>>>, k: nat)
    requires 1 <= k <= |queues| && TerminalOnlyLast(queues)
    ensures multiset(KickEvents(queues, k))[Completed] == (if queues[0] == [TerminalStep] then 1 else 0)
  {
    if k == 1 {
      assert KickEvents(queues, 1) == CallChainEvents(queues[0]);
      if queues[0] != [] && queues[0][0].TerminalStep? {
        assert queues[0] == [TerminalStep];
      }
    } else {
      KickEventsCompleted(queues, k - 1);
      var q := queues[k - 1];
      if q != [] {
        assert !q[0].TerminalStep?;
      }
    }
  }

  /**
   * Kicking every lane of freshly built queues fires `complete` if and only if
   * lane 0 has no element, i.e. the terminal step is lane 0's first step.
   */
  lemma KickAfterBuild<E>(lanes: seq<seq<E>>, duration: nat)
    requires |lanes| >= 1
    ensures multiset(KickEvents(ChainQueues(lanes, duration), |lanes|))[Completed]
      == if lanes[0] == [] then 1 else 0
  {
    var queues := ChainQueues(lanes, duration);
    ChainQueuesTerminal(lanes, duration);
    ChainQueuesShape(lanes, duration);
    KickEventsCompleted(queues, |lanes|);
    if lanes[0] == [] {
      assert queues[0] == [TerminalStep];
    } else {
      assert queues[0][0] == MorphStep(lanes[0][0], duration);
    }
  }
}
