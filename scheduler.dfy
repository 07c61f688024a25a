/**
 * The SmoothSequentialMorph class: `setup` builds one queue per lane,
 * `start` fires `start` and kicks every lane, and each finished morph calls
 * the next step of its lane.
 *
 * Events are recorded in `trace`; how many times an event fired is its
 * multiplicity in `multiset(trace)`.
 */
module Scheduler {
  import opened Seqs
  import opened Collect
  import opened Partition
  import opened Chains
  import opened Timing

  /** `setStyles(initialCss)` on the collected elements: one style write per element, in order. */
  function StyleEvents<E>(elements: seq<E>): (events: seq<Event<E>>)
    ensures |events| == |elements|
    ensures forall k :: 0 <= k < |events| ==> events[k] == Styled(elements[k])
  {
    if elements == [] then [] else [Styled(elements[0])] + StyleEvents(elements[1..])
  }

  /** The queues `setup` leaves in `this.chains`: they depend only on the options and the DOM. */
  function SetupQueues<E(==)>(options: Options<E>, dom: Dom<E>): (queues: seq<seq<Step<E>>>)
    requires options.concurrentialMorphs >= 1
  {
    ChainQueues(RoundRobin(MorphingElements(options, dom), options.concurrentialMorphs), options.morphDuration)
  }

  /** The queues `setup` stores: one per lane, with the terminal step pending once, last in lane 0. */
  lemma SetupQueuesPending<E>(options: Options<E>, dom: Dom<E>)
    requires options.concurrentialMorphs >= 1
    ensures |SetupQueues(options, dom)| == options.concurrentialMorphs
    ensures TerminalOnlyLast(SetupQueues(options, dom)) && TerminalPending(SetupQueues(options, dom)) == 1
  {
    ChainQueuesTerminal(RoundRobin(MorphingElements(options, dom), options.concurrentialMorphs), options.morphDuration);
  }

  /** Kicking one more lane appends that lane's events. */
  lemma KickEventsNext<E>(prefix: seq<Event<E>>, queues: seq<seq<Step<E>>>, i: nat)
    requires i < |queues|
    ensures prefix + KickEvents(queues, i + 1) == (prefix + KickEvents(queues, i)) + CallChainEvents(queues[i])
  {
    assert KickEvents(queues, i + 1) == KickEvents(queues, i) + CallChainEvents(queues[i]);
  }

  /** The queues after lanes 0 .. i-1 have each been called once, in order. */
  function Kicked<E>(queues: seq<seq<Step<E>>>, i: nat): (r: seq<seq<Step<E>>>)
    requires i <= |queues|
    ensures |r| == |queues|
  {
    if i == 0 then queues else Kicked(queues, i - 1)[i - 1 := Shift(queues[i - 1])]
  }

  /** The in-flight counts after lanes 0 .. i-1 have each been called once. */
  function InFlightKicked<E>(inFlight: seq<nat>, queues: seq<seq<Step<E>>>, i: nat): (r: seq<nat>)
    requires |inFlight| == |queues| && i <= |queues|
    ensures |r| == |inFlight|
  {
    if i == 0 then inFlight
    else
      var prev := InFlightKicked(inFlight, queues, i - 1);
      prev[i - 1 := prev[i - 1] + MorphsStarted(queues[i - 1])]
  }

  /** Lane k has been shifted once if it was among the first i lanes, and is untouched otherwise. */
  lemma {:induction false} KickedAt<E>(queues: seq<seq<Step<E>>>, inFlight: seq<nat>, i: nat, k: nat)
    requires i <= |queues| == |inFlight| && k < |queues|
    ensures Kicked(queues, i)[k] == if k < i then Shift(queues[k]) else queues[k]
    ensures InFlightKicked(inFlight, queues, i)[k] == inFlight[k] + if k < i then MorphsStarted(queues[k]) else 0
  {
    if i > 0 {
      KickedAt(queues, inFlight, i - 1, k);
    }
  }

  /** `createChains` once the lanes are known: the nested loops of lines 124-145 and the terminal step. */
  method CreateChains<E>(elements: seq<seq<E>>, concurrentialMorphs: nat, duration: nat)
    returns (chains: array<seq<Step<E>>>)
    requires |elements| == concurrentialMorphs >= 1
    ensures fresh(chains)
    ensures chains[..] == ChainQueues(elements, duration)
  {
    chains := new seq<Step<E>>[concurrentialMorphs];
    for i := 0 to |elements|
      invariant forall k :: 0 <= k < i ==> chains[k] == MorphSteps(elements[k], duration)
    {
      chains[i] := [];
      for j := 0 to |elements[i]|
        invariant |chains[i]| == j
        invariant forall jj :: 0 <= jj < j ==> chains[i][jj] == MorphStep(elements[i][jj], duration)
        invariant forall k :: 0 <= k < i ==> chains[k] == MorphSteps(elements[k], duration)
      {
        chains[i] := chains[i] + [MorphStep(elements[i][j], duration)];
      }
      assert chains[i] == MorphSteps(elements[i], duration);
    }
    var t := TerminalLane(|elements|, chains.Length);
    chains[t] := chains[t] + [TerminalStep];
    assert chains[..] == ChainQueues(elements, duration);
  }

  /**
   * `createChains` from the collected elements: deal them into lanes, then
   * build the queues. The terminal step is pending, last in lane 0.
   */
  method BuildChains<E>(allElements: seq<E>, n: nat, duration: nat) returns (chains: array<seq<Step<E>>>)
    requires n >= 1
    ensures fresh(chains) && chains.Length == n
    ensures chains[..] == ChainQueues(RoundRobin(allElements, n), duration)
    ensures TerminalOnlyLast(chains[..]) && TerminalPending(chains[..]) == 1
  {
    var elements := ReorganisePerChain(allElements, n);
    chains := CreateChains(elements, n, duration);
    ChainQueuesTerminal(elements, duration);
  }

  class SmoothSequentialMorph<E(==)> {
    const options: Options<E>
    /** `this.chains`: one queue of pending steps per lane; empty until the first `setup`. */
    var chains: array<seq<Step<E>>>
    var setUp: bool
    /** Per lane, the morphs started and not yet finished. */
    var inFlight: seq<nat>
    var trace: seq<Event<E>>
    /** Where the trace stood when the queues were last built. */
    ghost var runStart: nat

    /**
     * Object invariant: one queue per lane once set up; the terminal step is
     * only ever the last step of lane 0; and since the last `setup`, `complete`
     * has fired exactly once if the terminal step has run, never otherwise.
     */
    ghost predicate Valid()
      reads this, chains
    {
      && options.concurrentialMorphs >= 1
      && chains.Length == (if setUp then options.concurrentialMorphs else 0)
      && |inFlight| == chains.Length
      && runStart <= |trace|
      && TerminalOnlyLast(chains[..])
      && multiset(trace[runStart..])[Completed] + TerminalPending(chains[..]) == (if setUp then 1 else 0)
    }

    /** `initialize`: store the options and set up unless `noSetup`. */
    constructor (options: Options<E>, dom: Dom<E>)
      requires options.concurrentialMorphs >= 1
      ensures Valid() && this.options == options && fresh(chains)
      ensures setUp == !options.noSetup && (setUp ==> runStart == |trace|)
      ensures setUp ==> chains[..] == SetupQueues(options, dom)
      ensures setUp ==> inFlight == seq(options.concurrentialMorphs, _ => 0)
      ensures trace == if setUp then StyleEvents(MorphingElements(options, dom)) + [Ready] else []
    {
      this.options := options;
      chains := new seq<Step<E>>[0];
      setUp := false;
      inFlight := [];
      trace := [];
      runStart := 0;
      new;
      assert chains[..] == [];
      assert Valid();
      if !options.noSetup {
        ghost var styled := StyleEvents(MorphingElements(options, dom));
        assert [] + styled == styled;
        Setup(dom);
      }
    }

    /**
     * `setup`: collect the elements, write `initialCss` on each, deal them
     * into lanes, build the queues from scratch and fire `ready`.
     */
    method Setup(dom: Dom<E>)
      requires Valid()
      requires forall i :: 0 <= i < |inFlight| ==> inFlight[i] == 0
      modifies this
      ensures Valid() && setUp && fresh(chains) && runStart == |trace|
      ensures chains[..] == SetupQueues(options, dom)
      ensures inFlight == seq(options.concurrentialMorphs, _ => 0)
      ensures trace == old(trace) + StyleEvents(MorphingElements(options, dom)) + [Ready]
    {
      var n := options.concurrentialMorphs;
      var allElements := MorphingElements(options, dom);
      trace := trace + StyleEvents(allElements);
      chains := BuildChains(allElements, n, options.morphDuration);
      setUp := true;
      inFlight := seq(n, _ => 0);
      trace := trace + [Ready];
      runStart := |trace|;
      assert multiset(trace[runStart..])[Completed] == 0 by {
        assert trace[runStart..] == [];
      }
    }

    /** MooTools `Chain.callChain` on lane `lane`: run the head step, if any. */
    method CallChain(lane: nat)
      requires Valid() && lane < chains.Length
      modifies this, chains
      ensures Valid() && setUp == old(setUp) && chains == old(chains) && runStart == old(runStart)
      ensures chains[..] == old(chains[..])[lane := Shift(old(chains[lane]))]
      ensures inFlight == old(inFlight)[lane := old(inFlight[lane]) + MorphsStarted(old(chains[lane]))]
      ensures trace == old(trace) + CallChainEvents(old(chains[lane]))
    {
      var queue := chains[lane];
      if queue == [] {
        return;
      }
      ShiftKeepsTerminalLast(chains[..], lane);
      ghost var events := CallChainEvents(queue);
      assert (trace + events)[runStart..] == trace[runStart..] + events;
      chains[lane] := queue[1..];
      match queue[0] {
        case MorphStep(e, d) =>
          trace := trace + [Morphing(e, d)];
          inFlight := inFlight[lane := inFlight[lane] + 1];
        case TerminalStep =>
          // fireEvent('complete'), then this.callChain() on the scheduler's own chain
          trace := trace + [Completed, OuterChainCalled];
      }
    }

    /**
     * `start`: fire `start`, then kick every lane once, lane i after a delay
     * of `i * morphDuration / N`. The delays are returned; since they rise
     * with the lane index the kicks happen in lane order.
     */
    method Start() returns (delays: seq<real>)
      requires Valid() && setUp
      modifies this, chains
      ensures Valid() && setUp && chains == old(chains) && runStart == old(runStart)
      ensures |delays| == options.concurrentialMorphs
      ensures forall i :: 0 <= i < |delays| ==> delays[i] == StartDelay(i, options.concurrentialMorphs, options.morphDuration)
      ensures |inFlight| == old(|inFlight|) == chains.Length
      ensures forall k :: 0 <= k < chains.Length ==> chains[k] == Shift(old(chains[k]))
      ensures forall k :: 0 <= k < chains.Length ==> inFlight[k] == old(inFlight[k]) + MorphsStarted(old(chains[k]))
      ensures trace == old(trace) + [Started] + KickEvents(old(chains[..]), chains.Length)
    {
      assert (trace + [Started])[runStart..] == trace[runStart..] + [Started];
      trace := trace + [Started];
      delays := KickLanes();
    }

    /** The timers of `start`: every lane's chain is called once, in lane order. */
    method KickLanes() returns (delays: seq<real>)
      requires Valid() && setUp
      modifies this, chains
      ensures Valid() && setUp && chains == old(chains) && runStart == old(runStart)
      ensures |delays| == options.concurrentialMorphs
      ensures forall i :: 0 <= i < |delays| ==> delays[i] == StartDelay(i, options.concurrentialMorphs, options.morphDuration)
      ensures |inFlight| == old(|inFlight|) == chains.Length
      ensures forall k :: 0 <= k < chains.Length ==> chains[k] == Shift(old(chains[k]))
      ensures forall k :: 0 <= k < chains.Length ==> inFlight[k] == old(inFlight[k]) + MorphsStarted(old(chains[k]))
      ensures trace == old(trace) + KickEvents(old(chains[..]), chains.Length)
    {
      var n := chains.Length;
      ghost var queues := chains[..];
      ghost var inFlight0 := inFlight;
      ghost var trace0 := trace;
      delays := seq(n, k requires 0 <= k < n => StartDelay(k, n, options.morphDuration));
      for i := 0 to n
        invariant Valid() && setUp && chains == old(chains) && chains.Length == n && runStart == old(runStart)
        invariant chains[..] == Kicked(queues, i)
        invariant inFlight == InFlightKicked(inFlight0, queues, i)
        invariant trace == trace0 + KickEvents(queues, i)
      {
        KickedAt(queues, inFlight0, i, i);
        ghost var kicked, traceBefore, queue := chains[..], trace, chains[i];
        assert queue == queues[i];
        CallChain(i);
        assert chains[..] == kicked[i := Shift(queue)];
        assert trace == traceBefore + CallChainEvents(queue);
        KickEventsNext(trace0, queues, i);
      }
      forall k | 0 <= k < n
        ensures chains[k] == Shift(queues[k]) && inFlight[k] == inFlight0[k] + MorphsStarted(queues[k])
      {
        KickedAt(queues, inFlight0, n, k);
      }
    }

    /** A morph of lane `lane` finished: its `onComplete` calls the lane's chain. */
    method OnMorphComplete(lane: nat)
      requires Valid() && lane < |inFlight| && inFlight[lane] > 0
      modifies this, chains
      ensures Valid() && setUp && chains == old(chains) && runStart == old(runStart)
      ensures chains[..] == old(chains[..])[lane := Shift(old(chains[lane]))]
      ensures inFlight == old(inFlight)[lane := old(inFlight[lane]) - 1 + MorphsStarted(old(chains[lane]))]
      ensures trace == old(trace) + CallChainEvents(old(chains[lane]))
    {
      inFlight := inFlight[lane := inFlight[lane] - 1];
      CallChain(lane);
    }
  }

  /**
   * A scheduler built with `new` over a parent with no leaf to morph: `start`
   * fires `complete` exactly once, when it kicks lane 0, whose only step is
   * the terminal one.
   */
  method StartWithNothingToMorph<E(==)>(n: nat) returns (completes: nat)
    requires n >= 1
    ensures completes == 1
  {
    var options: Options<E> := Options("stage", "", [], 150, n, false);
    var s := new SmoothSequentialMorph(options, Dom([], []));
    var lanes := RoundRobin(MorphingElements(options, Dom([], [])), n);
    assert s.trace == [Ready];
    var delays := s.Start();
    FirstLaneEmptyIff(MorphingElements(options, Dom([], [])), n);
    KickAfterBuild(lanes, 150);
    completes := multiset(s.trace)[Completed];
  }
}
