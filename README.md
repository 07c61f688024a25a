# SmoothSequentialMorph lane scheduler, in Dafny

This project models the sequential-morph scheduler of SpellShow
(`Source/SmoothSequentialMorph.js`), a MooTools class. It takes a list of page
elements and deals them round-robin into `concurrentialMorphs` lanes (N below).
Each lane then morphs its elements one after the other. The lanes start
staggered by `i * morphDuration / N`, so about N morphs are in flight at any
time. The scheduler fires `ready`, `start` and `complete`, and after `complete`
it calls its own MooTools chain so that it can itself be one link of a chain.

The model follows the source file by file, function by function:

- `collect.dfy` is `getMorphingElements`. The DOM queries are inputs: the
  parent's leaf-most elements and the elements matching the exclusion
  selector. The `filter` and MooTools `combine` calls are functions over
  sequences.
- `partition.dfy` is the round-robin dealing of
  `getMorphingElementsReorganisedPerChain`. `RoundRobin` is its
  specification. `ReorganisePerChain` is the source's loop, proved equal to
  `RoundRobin`. Lemmas cover lane sizes, element placement, order within a
  lane, balance, and that the lanes are a permutation of the input.
- `chains.dfy` is `createChains` and MooTools `Chain.callChain`. A lane's
  queue is a sequence of steps: a morph of one element, or the terminal step
  that fires `complete` and then calls the outer chain. Calling the chain
  shifts the head step off and runs it. Running a step is modelled by the
  events it emits.
- `timing.dfy` covers the start delays and when each lane ends, with every
  morph lasting `morphDuration`.
- `scheduler.dfy` is the class itself. `chains` is an array of queues,
  rebuilt by `Setup`. Each method appends what it does to an event trace.
  `inFlight` counts, per lane, the morphs started and not yet finished.
  `CallChain` is `callChain` on one lane. `Start` fires `start` and kicks every
  lane. `OnMorphComplete(lane)` is a morph's `onComplete` callback: it calls
  its lane's chain again. The class invariant `Valid` counts `complete` events
  since the last `setup`: that count plus 1 while the terminal step is still
  queued always equals 1. So `complete` fires at most once per run, and exactly
  once when the terminal step runs.

The terminal step always lands on lane 0. At line 148 its lane is
`elements.length % chains.length`. There `elements` is the array of N lanes
built at lines 104-107, not the array of collected elements, so the index is
N mod N = 0. The comment at line 147 ("the last chain stack called") and a
reading of the line as "element count mod N" both suggest otherwise. The model
follows the code: `TerminalLane` computes the expression as written, and
`TerminalLaneIsFirst` shows it is 0. Lane 0 is also the lane kicked first.
`Timing.CompleteBeforeAllLanesEnd` states what follows, for N >= 2 and uniform
morph durations: `complete` fires while some other lane is still morphing
exactly when there is at least one element and the element count is not one
more than a multiple of N.

## Model

| member | source | states |
|---|---|---|
| Collect.Without | Source/SmoothSequentialMorph.js:87-90 | The filter keeps only elements of the input that are not excluded, in their input order, and keeps distinctness |
| Collect.WithoutMembers | Source/SmoothSequentialMorph.js:89 | An element survives the filter iff it is in the input and not among the excluded |
| Collect.IncludeMeaning | Source/SmoothSequentialMorph.js:94 | MooTools `include` (`Include`), which `combine` runs per item: the item is present afterwards, and a list that already holds it is left unchanged. The list is kept as a prefix, grows by at most one, and stays distinct if it was |
| Collect.Combine | Source/SmoothSequentialMorph.js:93-95 | `combine` keeps the accumulated list as a prefix. It appends only items absent from that prefix, and introduces no duplicate |
| Collect.CombineMembers | Source/SmoothSequentialMorph.js:94 | An element is in the combined list iff it is in the accumulated list or among the items |
| Collect.CombineKeepsOrder | Source/SmoothSequentialMorph.js:94 | The items `combine` appends form a subsequence of `morphedElements` |
| Collect.CombineFirstOccurrence | Source/SmoothSequentialMorph.js:94 | Two appended items come in the order of their first occurrences in `morphedElements`, so a repeated item is placed where it first appears. |
| Collect.LeafMost | Source/SmoothSequentialMorph.js:80-91 | The leaf-most elements are a subsequence of the parent's leaves in document order. Without a selector they are exactly the leaves, in document order. None are excluded when the selector is set, and there are none without a parent id |
| Collect.LeafMostMembers | Source/SmoothSequentialMorph.js:80-91 | An element is leaf-most iff there is a parent id, it is one of the parent's leaves, and a set selector does not exclude it |
| Collect.MorphingElements | Source/SmoothSequentialMorph.js:79-98 | The collected list starts with the leaves (the non-excluded ones when the selector is set, all of them otherwise) in document order. Distinct leaves give a distinct list. No parent id and no `morphedElements` give the empty list |
| Collect.MorphingElementsMembers | Source/SmoothSequentialMorph.js:79-98 | An element is collected iff it is a leaf under the configured parent that the exclusion selector, when set, does not match, or it is one of `morphedElements` |
| Collect.MorphingElementsAppendInOrder | Source/SmoothSequentialMorph.js:93-95 | What follows the leaves is a subsequence of `morphedElements`. It is ordered by where each element first occurs in `morphedElements` |
| Partition.RoundRobin | Source/SmoothSequentialMorph.js:104-107 | Dealing creates exactly N lanes |
| Partition.ReorganisePerChain | Source/SmoothSequentialMorph.js:101-113 | The loops of the source (N empty lanes, then a push of element k onto lane k % N) compute exactly `RoundRobin` |
| Partition.LaneSizes | Source/SmoothSequentialMorph.js:108-110 | Lane i holds M / N elements, plus one when i < M % N (M elements in all) |
| Partition.LaneContents | Source/SmoothSequentialMorph.js:108-110 | Position j of lane i holds the element at input index j * N + i, so input order is kept within each lane |
| Partition.Placement | Source/SmoothSequentialMorph.js:109 | The element at input index k sits in lane k % N, at position k / N |
| Partition.Balanced | Source/SmoothSequentialMorph.js:108-110 | Lane sizes differ by at most one, and lane 0 is never smaller than another lane |
| Partition.FirstLaneEmptyIff | Source/SmoothSequentialMorph.js:104-110 | Lane 0 is empty iff there are no elements |
| Partition.RoundRobinPermutation | Source/SmoothSequentialMorph.js:108-110 | The lanes together hold every collected element exactly as often as the input does (multiset equality), and their sizes sum to M |
| Partition.OneLanePerElement | Source/SmoothSequentialMorph.js:108-110 | With distinct elements, equal entries in two lane positions mean the same lane and position: each element is in exactly one lane |
| Partition.SixOnThree | Source/SmoothSequentialMorph.js:104-110 | Six elements on three lanes give `[[e0, e3], [e1, e4], [e2, e5]]` |
| Chains.MorphSteps | Source/SmoothSequentialMorph.js:126-144 | A lane's queue has one morph step per lane element, in lane order, each with `morphDuration` |
| Chains.TerminalLane | Source/SmoothSequentialMorph.js:148 | The index `elements.length % chains.length` names an existing chain |
| Chains.TerminalLaneIsFirst | Source/SmoothSequentialMorph.js:148 | `elements.length % chains.length` with N lanes and N chains is 0 |
| Chains.ChainQueues | Source/SmoothSequentialMorph.js:124-151 | The queues `createChains` returns, one per lane. `ChainQueuesShape` gives each queue step by step |
| Chains.ChainQueuesShape | Source/SmoothSequentialMorph.js:124-151 | `createChains` gives N queues. Queue i is lane i's morph steps in order. Lane 0 alone has one extra step, the terminal step, at its end |
| Chains.ChainQueuesTerminal | Source/SmoothSequentialMorph.js:147-151 | Fresh queues hold the terminal step once, as the last step of lane 0 and nowhere else |
| Chains.ShiftMeaning | Source/SmoothSequentialMorph.js:135-137 | `callChain` (`Shift`) removes exactly the head step of a non-empty queue and leaves an empty queue empty |
| Chains.CallChainEventsMeaning | Source/SmoothSequentialMorph.js:128-151 | Running the head step (`CallChainEvents`) emits nothing iff the queue is empty. It fires `complete` once iff that step is the terminal step. It emits exactly one event iff that step is a morph step, and that event is the morph of the step's element over the step's duration. The terminal step emits `complete` followed by the outer `callChain` |
| Chains.ShiftKeepsTerminalLast | Source/SmoothSequentialMorph.js:135-137 | Calling one lane's chain keeps the terminal step last in lane 0. The pending-terminal count drops by exactly the number of `complete` events emitted |
| Chains.DrainMorphSteps | Source/SmoothSequentialMorph.js:128-142 | Running a lane's morph steps to the end morphs its elements one by one, in order, each over `morphDuration` |
| Chains.LaneRun | Source/SmoothSequentialMorph.js:128-151 | Running lane i to its end morphs its elements in order. Then, for lane 0 only, it fires `complete` exactly once, immediately followed by one outer `callChain`. Other lanes never fire `complete` |
| Chains.KickEventsCompleted | Source/SmoothSequentialMorph.js:161-163 | Kicking lanes in order fires `complete` iff lane 0's queue is just the terminal step |
| Chains.KickAfterBuild | Source/SmoothSequentialMorph.js:159-163 | After a fresh build, kicking every lane fires `complete` iff lane 0 has no element, so with no elements `complete` fires as soon as lane 0 is kicked |
| Timing.StartDelayExact | Source/SmoothSequentialMorph.js:162 | The delay of lane i (`StartDelay`) times N is `i * morphDuration`, so it is the exact quotient of line 162 |
| Timing.StartDelayBounds | Source/SmoothSequentialMorph.js:162 | Lane 0 starts at once. Every delay is non-negative and below `morphDuration` |
| Timing.StartDelayIncreasing | Source/SmoothSequentialMorph.js:162 | Delays strictly increase with the lane index |
| Timing.SpellShowDelays | Source/SmoothSequentialMorph.js:162 | With 3 lanes and 150 ms the delays are 0, 50 and 100 ms |
| Timing.LaterLaneEndsLater | Source/SmoothSequentialMorph.js:162 | A later lane (as full as lane 0 or one shorter) ends after `complete` iff it is as full as lane 0 |
| Timing.LaterLaneAsFullIff | Source/SmoothSequentialMorph.js:108-110 | Some non-empty lane after lane 0 is as full as lane 0 iff M > 0 and M mod N != 1 |
| Timing.CompleteBeforeAllLanesEnd | Source/SmoothSequentialMorph.js:147-162 | With N >= 2, `complete` fires before some other lane's last morph ends iff M > 0 and M mod N != 1 |
| Scheduler.SetupQueuesPending | Source/SmoothSequentialMorph.js:63-64 | The queues `setup` stores (`SetupQueues`): N of them, with the terminal step pending once, last in lane 0 and nowhere else |
| Scheduler.StyleEvents | Source/SmoothSequentialMorph.js:103 | `setStyles(initialCss)` writes the style on every collected element, once each, in order |
| Scheduler.BuildChains | Source/SmoothSequentialMorph.js:119-120 | `createChains` from the collected elements gives a fresh array of N queues: those of the round-robin lanes, with the terminal step pending, last in lane 0 and nowhere else |
| Scheduler.CreateChains | Source/SmoothSequentialMorph.js:119-154 | The nested loops and the terminal append fill a fresh array of N queues equal to `ChainQueues` of the lanes |
| Scheduler.SmoothSequentialMorph.constructor | Source/SmoothSequentialMorph.js:56-61 | Stores the options and gives a fresh queue array that the caller may then start. It sets up (styles, queues, `ready`) unless `noSetup`, and otherwise emits nothing |
| Scheduler.SmoothSequentialMorph.Setup | Source/SmoothSequentialMorph.js:63-68 | Styles every collected element. Then it rebuilds the queues from scratch from the options and the DOM, and then fires `ready` once. A new run starts at the end of the trace, and the invariant holds with the terminal step pending |
| Scheduler.SmoothSequentialMorph.CallChain | Source/SmoothSequentialMorph.js:128-151 | Runs the head step of one lane and only that lane. A morph step starts a morph. The terminal step fires `complete` followed by the outer `callChain`. An empty lane is left as is and nothing happens. `complete` stays at most once per run |
| Scheduler.SmoothSequentialMorph.Start | Source/SmoothSequentialMorph.js:159-166 | Fires `start` once, before any lane is kicked. Then every lane is called once, in lane order, with the delay `i * morphDuration / N` returned for lane i |
| Scheduler.SmoothSequentialMorph.KickLanes | Source/SmoothSequentialMorph.js:161-163 | After the loop every lane has been shifted once and its in-flight count raised by the morph it started. The trace gains the kick events in lane order |
| Scheduler.StartWithNothingToMorph | Source/SmoothSequentialMorph.js:56-166 | A scheduler built with `new` over a parent with no leaves, then started, fires `complete` exactly once, while `start` kicks the lanes |
| Scheduler.SmoothSequentialMorph.OnMorphComplete | Source/SmoothSequentialMorph.js:135-137 | A finished morph decrements its lane's in-flight count by one, then calls that lane's chain once |

## Left out

- The DOM is not modelled. `document.id`, `getElements('*:not(br)')`, the `getFirst` leaf test and the exclusion selector query (lines 83-89) are replaced by the `Dom` input: the leaf-most elements in document order, and the excluded elements.
- `initialCss` and `morphProperties` are opaque: a style write is the event `Styled(e)`, and a morph is `Morphing(e, duration)`.
- Fx.Morph, `Function.delay` and real time are not modelled. `Start` kicks the lanes in lane order inside its loop. For one `start` with a positive `morphDuration` this is the real order: the delays strictly increase and all lie below `morphDuration`, so the first morph ends after the last kick. With `morphDuration` 0 every delay is 0, and the lane order then rests on timers with equal delays firing in the order they were set, with each morph's end coming later. The delays are returned as exact rationals; the float division of the source is not modelled.
- Scheduler.SmoothSequentialMorph.Start: a `start` while an earlier run still has morphs in flight is modelled as kicks with nothing in between. In the source, the new timers interleave with the running lanes' `onComplete` calls. For example, with N = 3, a second `start` at 0.9 times `morphDuration` lets lane 0's first morph end between the new kicks of lanes 0 and 1. That ordering is not captured.
- Which busy lane finishes its morph next is the caller's choice: it calls `OnMorphComplete(lane)` for a lane with a morph in flight.
- `Timing` assumes every morph lasts exactly `morphDuration` and the next step starts when the previous morph completes.
- Events are kept as one trace instead of listener calls. How many times `ready`, `start` or `complete` fired is its count in the trace. The MooTools Events and Options machinery is not modelled.
- The outer chain is only recorded as the event `OuterChainCalled`; what it runs is outside the scheduler.
- Scheduler.SmoothSequentialMorph.Setup: requires that no morph is in flight. In the source, calling `setup` during a run leaves the old closures driving the old chains; that case is not modelled.
- Scheduler.SmoothSequentialMorph.Start: requires a previous setup. The source fails on an undefined `this.chains` then.
- Scheduler.SmoothSequentialMorph.constructor: requires N >= 1 and takes N as an integer. The source's `new Array(N)` at line 104 and `N.toInt()` at line 121 disagree for non-integer values, and N = 0 makes line 148 index `chains[NaN]`.
- Fx.Morph instances stored on an element by `set('morph', ...)` keep their `onComplete` listeners across runs. That accumulation is not modelled: each finished morph calls its lane's chain once.
- Scheduler.SmoothSequentialMorph.Setup: with an empty `parentElementId`, the model departs from the source for every configuration. The collected list is then the plain array of line 80, and `combine` at line 94 returns that same array. SpellShow needs MooTools 1.3 or later (`Function.from` and `Object.merge` in `Source/SpellShow.js`), and there Element methods are added to `Elements`, not to `Array`. So `allElements.setStyles` at line 103 presumably throws: no queues are built and `ready` never fires. The model instead styles every collected element, builds the queues and fires `ready`, as the parent-id mode does. The same holds for the constructor, which calls `setup`.
- `Source/SpellShow.js` (text explosion into spans, `Element.spellShow`) is not part of this model. Its fixed configuration (3 lanes, 150 ms) appears only in `Timing.SpellShowDelays`.
