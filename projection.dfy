/**
 * Selecting, from a per-frame list, the entries whose index belongs to a
 * list of kept indices: the comprehensions
 * `[xs[i] for i in range(len(xs)) if i in keep]` of `split_by_distance`.
 */
module Projection {

  /** Every entry of `ks` is smaller than every later entry. */
  predicate StrictlyIncreasing(ks: seq<nat>)
  {
    forall s, t :: 0 <= s < t < |ks| ==> ks[s] < ks[t]
  }

  /** The indices `0, 1, ..., n - 1`, in order (Python's `range(n)`). */
  function Range(n: nat): (r: seq<nat>)
    ensures |r| == n
    ensures forall i :: 0 <= i < n ==> r[i] == i
  {
    if n == 0 then [] else Range(n - 1) + [n - 1]
  }

  /**
   * The entries of `xs`, in their original order, whose index occurs in
   * `keep`: the list comprehension filters `range(len(xs))` by membership
   * in `keep`, so an index of `keep` beyond the end of `xs` selects nothing.
   */
  function Project<T>(xs: seq<T>, keep: seq<nat>): (r: seq<T>)
    ensures |r| <= |xs|
    ensures forall x :: x in r ==> x in xs
  {
    if xs == [] then []
    else
      var last := |xs| - 1;
      Project(xs[..last], keep) + (if last in keep then [xs[last]] else [])
  }

  /**
   * How many entries of an increasing `ks` are below `n`; those entries
   * are exactly the prefix of `ks` of that length.
   */
  function CountBelow(ks: seq<nat>, n: nat): (c: nat)
    requires StrictlyIncreasing(ks)
    ensures c <= |ks|
    ensures forall t :: 0 <= t < c ==> ks[t] < n
    ensures forall t :: c <= t < |ks| ==> n <= ks[t]
  {
    if ks == [] || ks[|ks| - 1] < n then |ks|
    else CountBelow(ks[..|ks| - 1], n)
  }

  /** Raising the bound by one adds `n - 1` to the counted prefix exactly when it is kept. */
  lemma {:induction false} CountBelowStep(ks: seq<nat>, n: nat)
    requires StrictlyIncreasing(ks) && 0 < n
    ensures var c' := CountBelow(ks, n - 1);
      if n - 1 in ks
      then c' < |ks| && ks[c'] == n - 1 && CountBelow(ks, n) == c' + 1
      else CountBelow(ks, n) == c'
  {
    if ks != [] {
      var init := ks[..|ks| - 1];
      var last := ks[|ks| - 1];
      if last == n - 1 {
        assert init == [] || init[|init| - 1] < n - 1;
      } else if n <= last {
        CountBelowStep(init, n);
        assert ks == init + [last];
        assert n - 1 in ks <==> n - 1 in init;
      }
    }
  }

  /** Of `range(n)`, the entries below `k` are the first `min(n, k)`. */
  lemma {:induction false} CountBelowRange(n: nat, k: nat)
    ensures CountBelow(Range(n), k) == if n < k then n else k
  {
    if n > 0 {
      CountBelowRange(n - 1, k);
      assert Range(n)[..n - 1] == Range(n - 1);
    }
  }

  /**
   * Projecting onto an increasing index list selects, position by
   * position, the entries `xs[keep[t]]` for every kept index inside `xs`
   * and nothing else: the result is a subsequence of `xs` in original
   * order whose elements are copied, never changed.
   */
  lemma {:induction false} ProjectSelects<T>(xs: seq<T>, keep: seq<nat>)
    requires StrictlyIncreasing(keep)
    ensures |Project(xs, keep)| == CountBelow(keep, |xs|)
    ensures forall t :: 0 <= t < |Project(xs, keep)| ==> Project(xs, keep)[t] == xs[keep[t]]
  {
    if xs == [] {
      assert keep != [] ==> keep[0] >= 0;
    } else {
      var last := |xs| - 1;
      var init := xs[..last];
      ProjectSelects(init, keep);
      CountBelowStep(keep, |xs|);
      var c' := CountBelow(keep, last);
      var before := Project(init, keep);
      assert |before| == c';
      if last in keep {
        var after := before + [xs[last]];
        assert Project(xs, keep) == after;
        forall t | 0 <= t < |after|
          ensures after[t] == xs[keep[t]]
        {
          if t < c' {
            assert after[t] == before[t] == init[keep[t]];
          }
        }
      } else {
        assert Project(xs, keep) == before;
        forall t | 0 <= t < |before|
          ensures before[t] == xs[keep[t]]
        {
          assert before[t] == init[keep[t]];
        }
      }
    }
  }

  /** Projecting onto `range(n)` keeps the first `n` entries (all of them when `n >= |xs|`). */
  lemma {:induction false} ProjectRange<T>(xs: seq<T>, n: nat)
    ensures Project(xs, Range(n)) == xs[..if n < |xs| then n else |xs|]
  {
    var m := if n < |xs| then n else |xs|;
    var ks := Range(n);
    ProjectSelects(xs, ks);
    var c := CountBelow(ks, |xs|);
    CountBelowRange(n, |xs|);
    var r := Project(xs, ks);
    assert |r| == m;
    forall t | 0 <= t < m
      ensures r[t] == xs[t]
    {
      assert ks[t] == t;
    }
  }
}
