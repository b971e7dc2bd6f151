/**
  `diffParams` (cmd/crunch/main.go:182-204): the parameters added and
  removed between two parameter lists, each reported once and in
  ascending order.
 */
module Diff {
  import opened Order

  datatype ParamDiff = ParamDiff(added: seq<string>, removed: seq<string>)

  /** The elements of `xs` that do not occur in `ys`. */
  function Missing(xs: seq<string>, ys: seq<string>): (r: seq<string>)
    ensures forall p :: p in r <==> p in xs && p !in ys
    decreases |xs|
  {
    if |xs| == 0 then []
    else if xs[0] in ys then Missing(xs[1..], ys)
    else [xs[0]] + Missing(xs[1..], ys)
  }

  /**
    Go collects both lists into sets, walks each set (in Go's unspecified
    map order) keeping the members the other set lacks, and sorts the two
    results; a strictly ascending list of exactly those members is what
    remains of that order-dependent walk.
   */
  function DiffParams(oldParams: seq<string>, newParams: seq<string>): (r: ParamDiff)
    ensures StrictlySorted(r.added) && StrictlySorted(r.removed)
    ensures forall p :: p in r.added <==> p in newParams && p !in oldParams
    ensures forall p :: p in r.removed <==> p in oldParams && p !in newParams
  {
    ParamDiff(SortDistinct(Missing(newParams, oldParams)), SortDistinct(Missing(oldParams, newParams)))
  }

  /** Neither list repeats a parameter, and no parameter is both added and removed. */
  lemma DiffDistinctAndDisjoint(oldParams: seq<string>, newParams: seq<string>)
    ensures var d := DiffParams(oldParams, newParams);
      && (forall i, j :: 0 <= i < j < |d.added| ==> d.added[i] != d.added[j])
      && (forall i, j :: 0 <= i < j < |d.removed| ==> d.removed[i] != d.removed[j])
      && (forall p :: !(p in d.added && p in d.removed))
  {
    var d := DiffParams(oldParams, newParams);
    StrictlySortedDistinct(d.added);
    StrictlySortedDistinct(d.removed);
  }

  /**
    The diff depends only on which parameters each list holds: reordering
    or repeating parameters in either list does not change it.
   */
  lemma DiffDependsOnlyOnMembers(old1: seq<string>, new1: seq<string>, old2: seq<string>, new2: seq<string>)
    requires forall p :: p in old1 <==> p in old2
    requires forall p :: p in new1 <==> p in new2
    ensures DiffParams(old1, new1) == DiffParams(old2, new2)
  {
    var d1 := DiffParams(old1, new1);
    var d2 := DiffParams(old2, new2);
    SortedUnique(d1.added, d2.added);
    SortedUnique(d1.removed, d2.removed);
  }

  /** Diffing a list against itself, or any permutation of it, finds no change. */
  lemma DiffOfPermutationIsEmpty(oldParams: seq<string>, newParams: seq<string>)
    requires multiset(oldParams) == multiset(newParams)
    ensures DiffParams(oldParams, newParams) == ParamDiff([], [])
  {
    var d := DiffParams(oldParams, newParams);
    forall p ensures p in oldParams <==> p in newParams {
      assert p in oldParams <==> p in multiset(oldParams);
      assert p in newParams <==> p in multiset(newParams);
    }
    SortedUnique(d.added, []);
    SortedUnique(d.removed, []);
  }
}
