/**
 * The non-random helpers of Array.swift on a Swift array, modelled as a
 * sequence: appending, the clamped keeping/removing slices, and grouping
 * into runs.  The mutating members live in `ArrayVar`, a variable holding
 * the current sequence.
 */
module Arrays {

  import opened Limits
  import opened Flattening

  // ---------------------------------------------------------------- appending

  /** `appending(_:)` with one element: the array followed by `x`. */
  function Appending<T>(xs: seq<T>, x: T): (r: seq<T>)
    ensures |r| == |xs| + 1 && r[..|xs|] == xs && r[|xs|] == x
  {
    xs + [x]
  }

  /** `appending(_:)` with an array: `xs` followed by `ys`. */
  function AppendingAll<T>(xs: seq<T>, ys: seq<T>): (r: seq<T>)
    ensures |r| == |xs| + |ys| && r[..|xs|] == xs && r[|xs|..] == ys
  {
    xs + ys
  }

  // ---------------------------------------------------------------- keeping

  /** `keeping(at:)`: the one element at the index clamped into `0 ..< count`. */
  function Keeping<T>(xs: seq<T>, n: int): (r: seq<T>)
    requires |xs| > 0
    ensures |r| == 1 && r[0] == xs[LimitedHalfOpen(n, 0, |xs|)]
  {
    [xs[LimitedHalfOpen(n, 0, |xs|)]]
  }

  /**
   * `keepingFirst(_:)`: the prefix whose length is `n` clamped into
   * `0 ..< count`, so asking for `count` or more elements yields `count - 1`.
   */
  function KeepingFirst<T>(xs: seq<T>, n: int := 1): (r: seq<T>)
    requires |xs| > 0
    ensures |r| == LimitedHalfOpen(n, 0, |xs|)
    ensures forall i :: 0 <= i < |r| ==> r[i] == xs[i]
    ensures n >= |xs| ==> |r| == |xs| - 1
  {
    xs[..LimitedHalfOpen(n, 0, |xs|)]
  }

  /** `keepingLast(_:)`: the suffix whose length is `n` clamped into `0 ..< count`. */
  function KeepingLast<T>(xs: seq<T>, n: int := 1): (r: seq<T>)
    requires |xs| > 0
    ensures |r| == LimitedHalfOpen(n, 0, |xs|)
    ensures forall i :: 0 <= i < |r| ==> r[i] == xs[|xs| - |r| + i]
    ensures n >= |xs| ==> |r| == |xs| - 1
  {
    xs[|xs| - LimitedHalfOpen(n, 0, |xs|)..]
  }

  // ---------------------------------------------------------------- removing

  /**
   * The fold inside `removing(at:)`: walk the enumerated array from the
   * front, appending every element whose offset is not `k`.
   */
  function {:induction false} Skipping<T>(xs: seq<T>, k: int): (r: seq<T>)
    ensures 0 <= k < |xs| ==> r == xs[..k] + xs[k + 1..]
    ensures !(0 <= k < |xs|) ==> r == xs
  {
    if |xs| == 0 then []
    else
      var prefix := xs[..|xs| - 1];
      var rest := Skipping(prefix, k);
      assert xs == prefix + [xs[|xs| - 1]];
      if |xs| - 1 == k then rest else rest + [xs[|xs| - 1]]
  }

  /** `removing(at:)`: every element but the one at the index clamped into `0 ..< count`, in order. */
  function Removing<T>(xs: seq<T>, n: int): (r: seq<T>)
    requires |xs| > 0
    ensures |r| == |xs| - 1
    ensures var k := LimitedHalfOpen(n, 0, |xs|); r == xs[..k] + xs[k + 1..]
  {
    Skipping(xs, LimitedHalfOpen(n, 0, |xs|))
  }

  /** `removingFirst(_:)`: drops a prefix whose length is `n` clamped into `0 ..< count`. */
  function RemovingFirst<T>(xs: seq<T>, n: int := 1): (r: seq<T>)
    requires |xs| > 0
    ensures |r| == |xs| - LimitedHalfOpen(n, 0, |xs|)
    ensures forall i :: 0 <= i < |r| ==> r[i] == xs[|xs| - |r| + i]
    ensures n >= |xs| ==> |r| == 1
  {
    xs[LimitedHalfOpen(n, 0, |xs|)..]
  }

  /** `removingLast(_:)`: drops a suffix whose length is `n` clamped into `0 ..< count`. */
  function RemovingLast<T>(xs: seq<T>, n: int := 1): (r: seq<T>)
    requires |xs| > 0
    ensures |r| == |xs| - LimitedHalfOpen(n, 0, |xs|)
    ensures forall i :: 0 <= i < |r| ==> r[i] == xs[i]
    ensures n >= |xs| ==> |r| == 1
  {
    xs[..|xs| - LimitedHalfOpen(n, 0, |xs|)]
  }

  /** What `keepingFirst` keeps, `removingFirst` drops: together they give back the array. */
  lemma KeepingFirstThenRemovingFirst<T>(xs: seq<T>, n: int)
    requires |xs| > 0
    ensures KeepingFirst(xs, n) + RemovingFirst(xs, n) == xs
  {
    var k := LimitedHalfOpen(n, 0, |xs|);
    assert xs[..k] + xs[k..] == xs;
  }

  /** What `removingLast` keeps, `keepingLast` drops: together they give back the array. */
  lemma RemovingLastThenKeepingLast<T>(xs: seq<T>, n: int)
    requires |xs| > 0
    ensures RemovingLast(xs, n) + KeepingLast(xs, n) == xs
  {
    var k := |xs| - LimitedHalfOpen(n, 0, |xs|);
    assert xs[..k] + xs[k..] == xs;
  }

  // ---------------------------------------------------------------- grouping

  function Last<T>(s: seq<T>): T
    requires |s| > 0
  {
    s[|s| - 1]
  }

  /** No run is empty. */
  ghost predicate NonEmptyRuns<T>(groups: seq<seq<T>>)
  {
    forall g :: 0 <= g < |groups| ==> |groups[g]| > 0
  }

  /** `cond` holds between neighbours inside every run. */
  ghost predicate RunsHold<T>(groups: seq<seq<T>>, cond: (T, T) -> bool)
  {
    forall g, k :: 0 <= g < |groups| && 0 < k < |groups[g]| ==> cond(groups[g][k - 1], groups[g][k])
  }

  /** `cond` fails between the last element of each run and the first of the next. */
  ghost predicate RunsBreak<T>(groups: seq<seq<T>>, cond: (T, T) -> bool)
    requires NonEmptyRuns(groups)
  {
    forall g :: 0 < g < |groups| ==> !cond(Last(groups[g - 1]), groups[g][0])
  }

  /**
   * `groups` splits `xs` into maximal runs: concatenated they give `xs`,
   * none is empty, `cond` holds between neighbours inside a run and fails
   * between the last element of a run and the first of the next.
   */
  ghost predicate IsGrouping<T>(groups: seq<seq<T>>, xs: seq<T>, cond: (T, T) -> bool)
  {
    Flatten(groups) == xs && NonEmptyRuns(groups) && RunsHold(groups, cond) && RunsBreak(groups, cond)
  }

  /**
   * `group(condition:)`: `[[]]` for an empty array; otherwise the first
   * element opens a run and each following element joins the current run
   * when `condition(previous, next)` holds, or opens a new one.
   */
  method Group<T>(xs: seq<T>, cond: (T, T) -> bool) returns (groups: seq<seq<T>>)
    ensures xs == [] ==> groups == [[]]
    ensures xs != [] ==> IsGrouping(groups, xs, cond)
  {
    if |xs| == 0 {
      return [[]];
    }
    groups := [[xs[0]]];
    assert Flatten(groups) == [xs[0]] + Flatten([]);
    assert xs[..1] == [xs[0]];
    for k := 1 to |xs|
      invariant |groups| > 0
      invariant IsGrouping(groups, xs[..k], cond)
    {
      var next := xs[k];
      var last := groups[|groups| - 1];
      LastOfGrouping(groups, xs[..k], cond);
      var previous := last[|last| - 1];
      assert xs[..k + 1] == xs[..k] + [next];
      if cond(previous, next) {
        JoinStep(groups, xs[..k], next, cond);
        groups := groups[..|groups| - 1] + [last + [next]];
      } else {
        OpenStep(groups, xs[..k], next, cond);
        groups := groups + [[next]];
      }
    }
    assert xs[..|xs|] == xs;
  }

  /** Flattening splits off the last group. */
  lemma SplitLast<T>(groups: seq<seq<T>>)
    requires |groups| > 0
    ensures Flatten(groups) == Flatten(groups[..|groups| - 1]) + groups[|groups| - 1]
  {
    var last := groups[|groups| - 1];
    assert groups == groups[..|groups| - 1] + [last];
    FlattenAppend(groups[..|groups| - 1], [last]);
    assert Flatten([last]) == last + Flatten([]);
  }

  /** Runs that are all non-empty flatten to nothing only when there are none. */
  lemma FlattenOfNonEmpty<T>(groups: seq<seq<T>>)
    requires NonEmptyRuns(groups)
    ensures |groups| > 0 <==> |Flatten(groups)| > 0
  {
    if |groups| > 0 {
      assert |groups[0]| > 0;
    }
  }

  /** The last element of a non-empty grouped array ends its last run. */
  lemma LastOfGrouping<T>(groups: seq<seq<T>>, xs: seq<T>, cond: (T, T) -> bool)
    requires IsGrouping(groups, xs, cond) && |xs| > 0
    ensures |groups| > 0 && |groups[|groups| - 1]| > 0
    ensures Last(groups[|groups| - 1]) == Last(xs)
  {
    FlattenOfNonEmpty(groups);
    SplitLast(groups);
  }

  /** When `cond(previous, next)` holds, `next` joins the last run. */
  lemma JoinStep<T>(groups: seq<seq<T>>, xs: seq<T>, next: T, cond: (T, T) -> bool)
    requires IsGrouping(groups, xs, cond) && |xs| > 0 && cond(Last(xs), next)
    ensures |groups| > 0
    ensures IsGrouping(groups[..|groups| - 1] + [groups[|groups| - 1] + [next]], xs + [next], cond)
  {
    LastOfGrouping(groups, xs, cond);
    var n := |groups|;
    var last := groups[n - 1];
    var joined := groups[..n - 1] + [last + [next]];
    SplitLast(groups);
    SplitLast(joined);
    assert joined[..n - 1] == groups[..n - 1];
    assert NonEmptyRuns(joined);
    assert RunsHold(joined, cond) by {
      forall g, k | 0 <= g < n && 0 < k < |joined[g]|
        ensures cond(joined[g][k - 1], joined[g][k])
      {
        if g == n - 1 && k == |last| {
          assert joined[g][k - 1] == Last(last);
        } else {
          assert joined[g][k - 1] == groups[g][k - 1] && joined[g][k] == groups[g][k];
        }
      }
    }
    assert RunsBreak(joined, cond) by {
      forall g | 0 < g < n
        ensures !cond(Last(joined[g - 1]), joined[g][0])
      {
        assert joined[g - 1] == groups[g - 1] && joined[g][0] == groups[g][0];
      }
    }
  }

  /** When `cond(previous, next)` fails, `next` opens a run of its own. */
  lemma OpenStep<T>(groups: seq<seq<T>>, xs: seq<T>, next: T, cond: (T, T) -> bool)
    requires IsGrouping(groups, xs, cond) && |xs| > 0 && !cond(Last(xs), next)
    ensures IsGrouping(groups + [[next]], xs + [next], cond)
  {
    LastOfGrouping(groups, xs, cond);
    var extended := groups + [[next]];
    SplitLast(extended);
    assert extended[..|groups|] == groups;
    assert NonEmptyRuns(extended);
    assert RunsHold(extended, cond) by {
      forall g, k | 0 <= g < |extended| && 0 < k < |extended[g]|
        ensures cond(extended[g][k - 1], extended[g][k])
      {
        assert extended[g] == groups[g];
      }
    }
    assert RunsBreak(extended, cond) by {
      forall g | 0 < g < |extended|
        ensures !cond(Last(extended[g - 1]), extended[g][0])
      {
        if g < |groups| {
          assert extended[g - 1] == groups[g - 1] && extended[g] == groups[g];
        }
      }
    }
  }

  /**
   * A grouping of `xs` (two or more elements) without its last element is a
   * grouping of `xs` without its last element, and `cond` between the last
   * two elements decides whether that element joined the last run or
   * opened a run of its own.
   */
  lemma DropLast<T>(groups: seq<seq<T>>, xs: seq<T>, cond: (T, T) -> bool) returns (shorter: seq<seq<T>>)
    requires |xs| >= 2 && IsGrouping(groups, xs, cond)
    ensures IsGrouping(shorter, xs[..|xs| - 1], cond) && |shorter| > 0
    ensures cond(xs[|xs| - 2], Last(xs)) ==>
      groups == shorter[..|shorter| - 1] + [shorter[|shorter| - 1] + [Last(xs)]]
    ensures !cond(xs[|xs| - 2], Last(xs)) ==> groups == shorter + [[Last(xs)]]
  {
    LastOfGrouping(groups, xs, cond);
    if |groups[|groups| - 1]| >= 2 {
      shorter := DropFromLongRun(groups, xs, cond);
    } else {
      shorter := DropSingletonRun(groups, xs, cond);
    }
  }

  /** The last run has two or more elements: drop the last one from it. */
  lemma DropFromLongRun<T>(groups: seq<seq<T>>, xs: seq<T>, cond: (T, T) -> bool) returns (shorter: seq<seq<T>>)
    requires |xs| >= 2 && IsGrouping(groups, xs, cond)
    requires |groups| > 0 && |groups[|groups| - 1]| >= 2
    ensures IsGrouping(shorter, xs[..|xs| - 1], cond) && |shorter| == |groups|
    ensures cond(xs[|xs| - 2], Last(xs))
    ensures groups == shorter[..|shorter| - 1] + [shorter[|shorter| - 1] + [Last(xs)]]
  {
    var n := |groups|;
    var front := groups[..n - 1];
    var last := groups[n - 1];
    SplitLast(groups);
    var cut := last[..|last| - 1];
    shorter := front + [cut];
    SplitLast(shorter);
    assert shorter[..n - 1] == front;
    assert xs == Flatten(front) + last;
    assert last == cut + [Last(xs)];
    assert xs[..|xs| - 1] == Flatten(front) + cut;
    assert xs[|xs| - 2] == last[|last| - 2];
    assert cond(last[|last| - 2], last[|last| - 1]);
    assert groups == front + [last];
    assert NonEmptyRuns(shorter);
    assert RunsHold(shorter, cond) by {
      forall g, k | 0 <= g < n && 0 < k < |shorter[g]|
        ensures cond(shorter[g][k - 1], shorter[g][k])
      {
        assert shorter[g][k - 1] == groups[g][k - 1] && shorter[g][k] == groups[g][k];
      }
    }
    assert RunsBreak(shorter, cond) by {
      forall g | 0 < g < n
        ensures !cond(Last(shorter[g - 1]), shorter[g][0])
      {
        assert shorter[g - 1] == groups[g - 1] && shorter[g][0] == groups[g][0];
      }
    }
  }

  /** The last run is the last element alone: drop the run. */
  lemma DropSingletonRun<T>(groups: seq<seq<T>>, xs: seq<T>, cond: (T, T) -> bool) returns (shorter: seq<seq<T>>)
    requires |xs| >= 2 && IsGrouping(groups, xs, cond)
    requires |groups| > 0 && |groups[|groups| - 1]| == 1
    ensures IsGrouping(shorter, xs[..|xs| - 1], cond) && |shorter| > 0
    ensures !cond(xs[|xs| - 2], Last(xs))
    ensures groups == shorter + [[Last(xs)]]
  {
    var n := |groups|;
    var front := groups[..n - 1];
    var last := groups[n - 1];
    SplitLast(groups);
    shorter := front;
    assert xs == Flatten(front) + last;
    assert last == [Last(xs)];
    assert xs[..|xs| - 1] == Flatten(front);
    assert groups == front + [last];
    assert NonEmptyRuns(front);
    assert RunsHold(front, cond) by {
      forall g, k | 0 <= g < n - 1 && 0 < k < |front[g]|
        ensures cond(front[g][k - 1], front[g][k])
      {
        assert front[g] == groups[g];
      }
    }
    assert RunsBreak(front, cond) by {
      forall g | 0 < g < n - 1
        ensures !cond(Last(front[g - 1]), front[g][0])
      {
        assert front[g - 1] == groups[g - 1] && front[g] == groups[g];
      }
    }
    FlattenOfNonEmpty(front);
    LastOfGrouping(front, xs[..|xs| - 1], cond);
    assert Last(xs[..|xs| - 1]) == xs[|xs| - 2];
    assert !cond(Last(groups[n - 2]), groups[n - 1][0]);
  }

  /** A grouping is unique: `group(condition:)` has exactly one possible answer. */
  lemma {:induction false} GroupingUnique<T>(a: seq<seq<T>>, b: seq<seq<T>>, xs: seq<T>, cond: (T, T) -> bool)
    requires IsGrouping(a, xs, cond) && IsGrouping(b, xs, cond)
    ensures a == b
    decreases |xs|
  {
    FlattenOfNonEmpty(a);
    FlattenOfNonEmpty(b);
    if |xs| == 1 {
      SingleGroup(a, xs, cond);
      SingleGroup(b, xs, cond);
    } else if |xs| >= 2 {
      var a' := DropLast(a, xs, cond);
      var b' := DropLast(b, xs, cond);
      GroupingUnique(a', b', xs[..|xs| - 1], cond);
    }
  }

  /** The only grouping of a one-element array is a single run. */
  lemma SingleGroup<T>(groups: seq<seq<T>>, xs: seq<T>, cond: (T, T) -> bool)
    requires |xs| == 1 && IsGrouping(groups, xs, cond)
    ensures groups == [xs]
  {
    FlattenOfNonEmpty(groups);
    var rest := groups[1..];
    assert Flatten(groups) == groups[0] + Flatten(rest);
    assert |groups[0]| > 0;
    assert NonEmptyRuns(rest) by {
      forall g | 0 <= g < |rest|
        ensures |rest[g]| > 0
      {
        assert rest[g] == groups[g + 1];
      }
    }
    FlattenOfNonEmpty(rest);
    assert |Flatten(rest)| == 0;
    assert |rest| == 0;
    assert groups[0] == xs;
    assert groups == [groups[0]];
  }

  // ---------------------------------------------------------------- mutating members

  /** A Swift `var` array; its mutating members reassign `elements`. */
  class ArrayVar<T> {
    var elements: seq<T>

    constructor (xs: seq<T>)
      ensures elements == xs
    {
      elements := xs;
    }

    /** `append(_:)` with an array: appends the new elements one at a time. */
    method AppendAll(ys: seq<T>)
      modifies this
      ensures elements == AppendingAll(old(elements), ys)
    {
      for k := 0 to |ys|
        invariant elements == old(elements) + ys[..k]
      {
        assert ys[..k + 1] == ys[..k] + [ys[k]];
        elements := elements + [ys[k]];
      }
      assert ys[..|ys|] == ys;
    }

    /** `keep(at:)`. */
    method Keep(n: int)
      requires |elements| > 0
      modifies this
      ensures elements == Keeping(old(elements), n)
    {
      elements := Keeping(elements, n);
    }

    /** `keepFirst(_:)`. */
    method KeepFirst(n: int := 1)
      requires |elements| > 0
      modifies this
      ensures elements == KeepingFirst(old(elements), n)
    {
      elements := KeepingFirst(elements, n);
    }

    /** `keepLast(_:)`. */
    method KeepLast(n: int := 1)
      requires |elements| > 0
      modifies this
      ensures elements == KeepingLast(old(elements), n)
    {
      elements := KeepingLast(elements, n);
    }
  }

  // ---------------------------------------------------------------- counts as intended

  /** `keepingFirst(_:)` as intended: the first `n` elements, `n` clamped into `0 ... count`. */
  function KeepingFirstIntended<T>(xs: seq<T>, n: int := 1): (r: seq<T>)
    ensures |r| == LimitedClosed(n, 0, |xs|)
    ensures forall i :: 0 <= i < |r| ==> r[i] == xs[i]
    ensures n >= |xs| ==> r == xs
  {
    xs[..LimitedClosed(n, 0, |xs|)]
  }

  /** `keepingLast(_:)` as intended: the last `n` elements, `n` clamped into `0 ... count`. */
  function KeepingLastIntended<T>(xs: seq<T>, n: int := 1): (r: seq<T>)
    ensures |r| == LimitedClosed(n, 0, |xs|)
    ensures forall i :: 0 <= i < |r| ==> r[i] == xs[|xs| - |r| + i]
    ensures n >= |xs| ==> r == xs
  {
    xs[|xs| - LimitedClosed(n, 0, |xs|)..]
  }

  /** `removingFirst(_:)` as intended: without the first `n` elements, `n` clamped into `0 ... count`. */
  function RemovingFirstIntended<T>(xs: seq<T>, n: int := 1): (r: seq<T>)
    ensures |r| == |xs| - LimitedClosed(n, 0, |xs|)
    ensures forall i :: 0 <= i < |r| ==> r[i] == xs[|xs| - |r| + i]
    ensures n >= |xs| ==> r == []
  {
    xs[LimitedClosed(n, 0, |xs|)..]
  }

  /** `removingLast(_:)` as intended: without the last `n` elements, `n` clamped into `0 ... count`. */
  function RemovingLastIntended<T>(xs: seq<T>, n: int := 1): (r: seq<T>)
    ensures |r| == |xs| - LimitedClosed(n, 0, |xs|)
    ensures forall i :: 0 <= i < |r| ==> r[i] == xs[i]
    ensures n >= |xs| ==> r == []
  {
    xs[..|xs| - LimitedClosed(n, 0, |xs|)]
  }

  /** The intended forms split the array at the same point from either end. */
  lemma IntendedSplits<T>(xs: seq<T>, n: int)
    ensures KeepingFirstIntended(xs, n) + RemovingFirstIntended(xs, n) == xs
    ensures RemovingLastIntended(xs, n) + KeepingLastIntended(xs, n) == xs
  {
    var k := LimitedClosed(n, 0, |xs|);
    assert xs[..k] + xs[k..] == xs;
    assert xs[..|xs| - k] + xs[|xs| - k..] == xs;
  }

  /**
   * On `[1, 2]` with `n == 2` the code keeps or drops one element too few;
   * with the default count on a one-element array, `keepingFirst()` keeps
   * nothing and `removingLast()` removes nothing.
   */
  lemma CountClampCounterexample()
    ensures KeepingFirst([1]) == [] && KeepingFirstIntended([1]) == [1]
    ensures RemovingLast([1]) == [1] && RemovingLastIntended([1]) == []
    ensures KeepingFirst([1, 2], 2) == [1] && KeepingFirstIntended([1, 2], 2) == [1, 2]
    ensures KeepingLast([1, 2], 2) == [2] && KeepingLastIntended([1, 2], 2) == [1, 2]
    ensures RemovingFirst([1, 2], 2) == [2] && RemovingFirstIntended([1, 2], 2) == []
    ensures RemovingLast([1, 2], 2) == [1] && RemovingLastIntended([1, 2], 2) == []
  {
    assert [1, 2][..1] == [1];
    assert [1, 2][1..] == [2];
  }
}
