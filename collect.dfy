/**
 * Which elements a SmoothSequentialMorph animates (`getMorphingElements`).
 *
 * The DOM is not modelled: what the two queries on the parent element return
 * (its leaf-most elements in document order, and the elements matching the
 * exclusion selector) is given as a `Dom` value.
 */
module Collect {
  import opened Seqs

  /** The scheduler's options; `initialCss` and the morph properties are opaque and not carried. */
  datatype Options<E> = Options(
    parentElementId: string,
    excludedCssSelector: string,
    morphedElements: seq<E>,
    morphDuration: nat,
    concurrentialMorphs: nat,
    noSetup: bool)

  /** What the DOM queries under the configured parent return at setup time. */
  datatype Dom<E> = Dom(leaves: seq<E>, excluded: seq<E>)

  /** `Array.filter` dropping every item of `excluded`. */
  function Without<E(==)>(s: seq<E>, excluded: seq<E>): (r: seq<E>)
    ensures forall k :: 0 <= k < |r| ==> r[k] in s && r[k] !in excluded
    ensures IsSubsequence(r, s)
    ensures Distinct(s) ==> Distinct(r)
  {
    if s == [] then []
    else if s[0] in excluded then Without(s[1..], excluded)
    else [s[0]] + Without(s[1..], excluded)
  }

  /** An element survives the filter exactly when it is in `s` and not excluded. */
  lemma {:induction false} WithoutMembers<E>(s: seq<E>, excluded: seq<E>, x: E)
    ensures x in Without(s, excluded) <==> x in s && x !in excluded
  {
    if s != [] {
      WithoutMembers(s[1..], excluded, x);
      assert x in s <==> x == s[0] || x in s[1..];
    }
  }

  /** MooTools `Array.include`: push `x` unless it is already present. */
  function Include<E(==)>(acc: seq<E>, x: E): seq<E> {
    if x in acc then acc else acc + [x]
  }

  /**
   * After `include` the item is present; the list is kept as a prefix, grows
   * by at most one, and stays free of duplicates.
   */
  lemma IncludeMeaning<E>(acc: seq<E>, x: E)
    ensures x in Include(acc, x)
    ensures x in acc ==> Include(acc, x) == acc
    ensures |acc| <= |Include(acc, x)| <= |acc| + 1 && Include(acc, x)[..|acc|] == acc
    ensures Distinct(acc) ==> Distinct(Include(acc, x))
  {
    var r := Include(acc, x);
    if Distinct(acc) && x !in acc {
      forall i, j | 0 <= i < j < |r|
        ensures r[i] != r[j]
      {
        if j == |acc| {
          assert r[i] == acc[i];
        }
      }
    }
  }

  /** MooTools `Array.combine`: include every item of `items`, in order. */
  function Combine<E(==)>(acc: seq<E>, items: seq<E>): (r: seq<E>)
    ensures |acc| <= |r| && r[..|acc|] == acc
    ensures forall k :: |acc| <= k < |r| ==> r[k] !in acc
    ensures Distinct(acc) ==> Distinct(r)
    decreases |items|
  {
    if items == [] then acc
    else
      var acc' := Include(acc, items[0]);
      assert Distinct(acc) ==> Distinct(acc') by {
        if Distinct(acc) && items[0] !in acc {
          forall i, j | 0 <= i < j < |acc'|
            ensures acc'[i] != acc'[j]
          {
            if j == |acc| {
              assert acc'[i] == acc[i];
            }
          }
        }
      }
      Combine(acc', items[1..])
  }

  /** An element is in the combined list exactly when it is in `acc` or in `items`. */
  lemma {:induction false} CombineMembers<E>(acc: seq<E>, items: seq<E>, x: E)
    ensures x in Combine(acc, items) <==> x in acc || x in items
    decreases |items|
  {
    if items != [] {
      var acc' := Include(acc, items[0]);
      CombineMembers(acc', items[1..], x);
      assert x in acc' <==> x in acc || x == items[0];
      assert x in items <==> x == items[0] || x in items[1..];
    }
  }

  /** The items `Combine` appends keep the order they have in `items`. */
  lemma {:induction false} CombineKeepsOrder<E>(acc: seq<E>, items: seq<E>)
    ensures IsSubsequence(Combine(acc, items)[|acc|..], items)
    decreases |items|
  {
    if items != [] {
      if items[0] in acc {
        CombineKeepsOrder(acc, items[1..]);
        CombineSkip(acc, items);
      } else {
        CombineKeepsOrder(acc + [items[0]], items[1..]);
        CombineAppend(acc, items);
      }
    }
  }

  /**
   * The appended items come in the order of their FIRST occurrence in
   * `items`: a repeated item is placed where it first appears.
   */
  lemma {:induction false} CombineFirstOccurrence<E>(acc: seq<E>, items: seq<E>, a: nat, b: nat)
    requires |acc| <= a < b < |Combine(acc, items)|
    ensures Combine(acc, items)[a] in items && Combine(acc, items)[b] in items
    ensures IndexOf(items, Combine(acc, items)[a]) < IndexOf(items, Combine(acc, items)[b])
    decreases |items|
  {
    var r := Combine(acc, items);
    CombineMembers(acc, items, r[a]);
    CombineMembers(acc, items, r[b]);
    assert items != [];
    var y := items[0];
    if y in acc {
      assert r == Combine(acc, items[1..]);
      CombineFirstOccurrence(acc, items[1..], a, b);
      assert r[a] != y && r[b] != y;
    } else {
      var acc' := acc + [y];
      assert r == Combine(acc', items[1..]);
      assert r[b] !in acc';
      if a == |acc| {
        assert r[a] == acc'[|acc|] == y;
      } else {
        CombineFirstOccurrence(acc', items[1..], a, b);
        assert r[a] !in acc';
      }
    }
  }

  /** `x` and `y` both occur in `items`, and `x` occurs first. */
  ghost predicate FirstOccursBefore<E>(items: seq<E>, x: E, y: E) {
    x in items && y in items && IndexOf(items, x) < IndexOf(items, y)
  }

  /** From position `from` on, `r` holds items of `items` ordered by where each first occurs there. */
  ghost predicate InFirstOccurrenceOrder<E>(r: seq<E>, from: nat, items: seq<E>) {
    forall a, b :: from <= a < b < |r| ==> FirstOccursBefore(items, r[a], r[b])
  }

  /** The head of `items` is already present: nothing is appended for it. */
  lemma CombineSkip<E>(acc: seq<E>, items: seq<E>)
    requires items != [] && items[0] in acc
    requires IsSubsequence(Combine(acc, items[1..])[|acc|..], items[1..])
    ensures IsSubsequence(Combine(acc, items)[|acc|..], items)
  {
    assert Include(acc, items[0]) == acc;
    SubsequenceExtend(Combine(acc, items)[|acc|..], items);
  }

  /** The head of `items` is new: it is appended first, right after `acc`. */
  lemma CombineAppend<E>(acc: seq<E>, items: seq<E>)
    requires items != [] && items[0] !in acc
    requires IsSubsequence(Combine(acc + [items[0]], items[1..])[|acc| + 1..], items[1..])
    ensures IsSubsequence(Combine(acc, items)[|acc|..], items)
  {
    var acc' := acc + [items[0]];
    assert Include(acc, items[0]) == acc';
    var r := Combine(acc', items[1..]);
    assert Combine(acc, items) == r;
    var tail := r[|acc|..];
    assert tail[0] == r[|acc|] == acc'[|acc|] == items[0];
    assert tail[1..] == r[|acc'|..];
    SubsequenceCons(tail, items);
  }

  /** The leaf-most elements of the parent, minus the excluded ones (lines 80-91). */
  function LeafMost<E(==)>(options: Options<E>, dom: Dom<E>): (r: seq<E>)
    ensures IsSubsequence(r, dom.leaves)
    ensures options.parentElementId == "" ==> r == []
    ensures options.parentElementId != "" && options.excludedCssSelector == "" ==> r == dom.leaves
    ensures options.excludedCssSelector != "" ==> forall k :: 0 <= k < |r| ==> r[k] !in dom.excluded
  {
    if options.parentElementId != "" then
      if options.excludedCssSelector != "" then Without(dom.leaves, dom.excluded)
      else SubsequenceReflexive(dom.leaves); dom.leaves
    else []
  }

  /** `getMorphingElements`: the leaves, then the explicit elements not already present. */
  function MorphingElements<E(==)>(options: Options<E>, dom: Dom<E>): (r: seq<E>)
    ensures var leafMost := LeafMost(options, dom);
      |leafMost| <= |r| && r[..|leafMost|] == leafMost && IsSubsequence(leafMost, dom.leaves)
    ensures Distinct(dom.leaves) ==> Distinct(r)
    ensures options.parentElementId == "" && options.morphedElements == [] ==> r == []
  {
    var leafMost := LeafMost(options, dom);
    if |options.morphedElements| > 0 then Combine(leafMost, options.morphedElements) else leafMost
  }

  /**
   * An element is collected exactly when it is a leaf under the configured
   * parent that the exclusion selector (when set) does not match, or one of
   * `morphedElements`.
   */
  lemma MorphingElementsMembers<E>(options: Options<E>, dom: Dom<E>, x: E)
    ensures x in MorphingElements(options, dom) <==>
      (options.parentElementId != "" && x in dom.leaves &&
       (options.excludedCssSelector == "" || x !in dom.excluded))
      || x in options.morphedElements
  {
    var leafMost := LeafMost(options, dom);
    if options.parentElementId != "" && options.excludedCssSelector != "" {
      WithoutMembers(dom.leaves, dom.excluded, x);
    }
    if |options.morphedElements| > 0 {
      CombineMembers(leafMost, options.morphedElements, x);
    }
  }

  /** An element is a leaf-most element exactly when it is a leaf under the configured parent not excluded by a set selector. */
  lemma LeafMostMembers<E>(options: Options<E>, dom: Dom<E>, x: E)
    ensures x in LeafMost(options, dom) <==>
      options.parentElementId != "" && x in dom.leaves && (options.excludedCssSelector == "" || x !in dom.excluded)
  {
    if options.parentElementId != "" && options.excludedCssSelector != "" {
      WithoutMembers(dom.leaves, dom.excluded, x);
    }
  }

  /**
   * The explicit elements that the leaves do not already hold are appended in
   * their own order, each where it first occurs in `morphedElements`.
   */
  lemma MorphingElementsAppendInOrder<E>(options: Options<E>, dom: Dom<E>)
    ensures var leafMost := LeafMost(options, dom);
      IsSubsequence(MorphingElements(options, dom)[|leafMost|..], options.morphedElements)
    ensures InFirstOccurrenceOrder(MorphingElements(options, dom), |LeafMost(options, dom)|, options.morphedElements)
  {
    var leafMost, items := LeafMost(options, dom), options.morphedElements;
    var r := MorphingElements(options, dom);
    if |items| > 0 {
      CombineKeepsOrder(leafMost, items);
      assert r == Combine(leafMost, items);
      forall a, b | |leafMost| <= a < b < |r|
        ensures FirstOccursBefore(items, r[a], r[b])
      {
        CombineFirstOccurrence(leafMost, items, a, b);
      }
      assert InFirstOccurrenceOrder(r, |leafMost|, items);
    } else {
      assert r[|leafMost|..] == [];
    }
  }
}
