/**
 * The stride filter `xs[residue::reduction]`, with Python's slice
 * semantics for a given start and step and an omitted stop.
 */
module StrideFilter {
  import opened Wrappers
  import opened Projection

  /** Python raises `ValueError` for a slice whose step is zero. */
  datatype SliceError = StepZero

  /**
   * Where the slice starts once a negative `start` has been counted from
   * the end of a list of length `len` and the result clamped: into
   * `0..len` for a positive step, into `-1..len - 1` for a negative one.
   */
  function AdjustedStart(len: nat, start: int, step: int): (i: int)
    requires step != 0
    ensures step > 0 ==> 0 <= i <= len
    ensures step < 0 ==> -1 <= i < len
    ensures 0 <= start < len ==> i == start
    ensures start < 0 <= start + len ==> i == start + len
    ensures start >= len ==> i == (if step < 0 then len - 1 else len)
    ensures start + len < 0 ==> i == (if step < 0 then -1 else 0)
  {
    if start < 0 then
      if start + len < 0 then (if step < 0 then -1 else 0) else start + len
    else if start >= len then (if step < 0 then len - 1 else len)
    else start
  }

  /**
   * The entries `xs[i]`, `xs[i + step]`, `xs[i + 2 * step]`, ..., up to the
   * first index outside `xs`.
   */
  function Walk<T>(xs: seq<T>, i: int, step: int): (r: seq<T>)
    requires step != 0
    decreases if step > 0 then |xs| - i else i + 1
  {
    if 0 <= i < |xs| then [xs[i]] + Walk(xs, i + step, step) else []
  }

  /**
   * Entry `t` of the walk is `xs[i + t * step]`, and the walk stops at the
   * first multiple of `step` that leaves `xs`.
   */
  lemma {:induction false} WalkSelects<T>(xs: seq<T>, i: int, step: int)
    requires step != 0
    ensures var r := Walk(xs, i, step);
      && (forall t :: 0 <= t < |r| ==> 0 <= i + t * step < |xs| && r[t] == xs[i + t * step])
      && !(0 <= i + |r| * step < |xs|)
    decreases if step > 0 then |xs| - i else i + 1
  {
    if 0 <= i < |xs| {
      var rest := Walk(xs, i + step, step);
      WalkSelects(xs, i + step, step);
      var r := Walk(xs, i, step);
      assert r == [xs[i]] + rest;
      assert (i + step) + |rest| * step == i + |r| * step;
      forall t | 0 <= t < |r|
        ensures 0 <= i + t * step < |xs| && r[t] == xs[i + t * step]
      {
        if t > 0 {
          assert r[t] == rest[t - 1];
          assert (i + step) + (t - 1) * step == i + t * step;
        }
      }
    }
  }

  /** `xs[start::step]`: fails on a zero step and otherwise walks from the adjusted start. */
  function Slice<T>(xs: seq<T>, start: int, step: int): (r: Result<seq<T>, SliceError>)
    ensures r.Failure? <==> step == 0
  {
    if step == 0 then Failure(StepZero)
    else Success(Walk(xs, AdjustedStart(|xs|, start, step), step))
  }

  /** The length of a walk depends only on the length of the list it walks. */
  lemma {:induction false} WalkSameLength<T, U>(xs: seq<T>, ys: seq<U>, i: int, step: int)
    requires step != 0 && |xs| == |ys|
    ensures |Walk(xs, i, step)| == |Walk(ys, i, step)|
    decreases if step > 0 then |xs| - i else i + 1
  {
    if 0 <= i < |xs| {
      WalkSameLength(xs, ys, i + step, step);
    }
  }

  /** For `b > 0`, `(a + b - 1) / b` is the ceiling of `a / b`. */
  lemma {:induction false} CeilingDivision(a: int, b: int, q: int)
    requires b > 0 && (q - 1) * b < a <= q * b
    ensures (a + b - 1) / b == q
  {
    var n := a + b - 1;
    assert q * b <= n < (q + 1) * b;
    var d, m := n / b, n % b;
    assert n == d * b + m && 0 <= m < b;
  }

  /**
   * `xs[residue::reduction]` with `reduction >= 1` and `residue >= 0` keeps
   * the entries at `residue, residue + reduction, ...` below `len(xs)`, in
   * order: `ceil((len(xs) - residue) / reduction)` of them, or none when
   * `residue >= len(xs)`.
   */
  lemma {:induction false} StrideSelects<T>(xs: seq<T>, residue: int, reduction: int)
    requires reduction >= 1 && residue >= 0
    ensures Slice(xs, residue, reduction).Success?
    ensures var r := Slice(xs, residue, reduction).value;
      && |r| == (if residue >= |xs| then 0 else (|xs| - residue + reduction - 1) / reduction)
      && forall t :: 0 <= t < |r| ==> residue + t * reduction < |xs| && r[t] == xs[residue + t * reduction]
  {
    var i := AdjustedStart(|xs|, residue, reduction);
    var r := Walk(xs, i, reduction);
    WalkSelects(xs, i, reduction);
    if residue < |xs| {
      assert i == residue && 0 < |r|;
      assert (|r| - 1) * reduction < |xs| - residue <= |r| * reduction by {
        assert residue + (|r| - 1) * reduction < |xs|;
      }
      CeilingDivision(|xs| - residue, reduction, |r|);
    } else {
      assert i == |xs| && r == [];
    }
  }

  /** `xs[0::1]` is `xs` itself. */
  lemma {:induction false} StrideIdentity<T>(xs: seq<T>)
    ensures Slice(xs, 0, 1) == Success(xs)
  {
    StrideSelects(xs, 0, 1);
    var r := Slice(xs, 0, 1).value;
    if xs != [] {
      CeilingDivision(|xs|, 1, |xs|);
    }
    assert |r| == |xs|;
    forall t | 0 <= t < |r|
      ensures r[t] == xs[t]
    {
      assert 0 + t * 1 == t;
    }
    assert r == xs;
  }

  /** A residue at or past the end leaves nothing. */
  lemma {:induction false} StridePastEnd<T>(xs: seq<T>, residue: int, reduction: int)
    requires reduction >= 1 && residue >= |xs|
    ensures Slice(xs, residue, reduction) == Success([])
  {
    assert AdjustedStart(|xs|, residue, reduction) == |xs|;
  }

  /** A negative residue counts from the end of the list. */
  lemma {:induction false} StrideNegativeResidue<T>(xs: seq<T>, residue: int, reduction: int)
    requires residue < 0 <= residue + |xs|
    ensures Slice(xs, residue, reduction) == Slice(xs, residue + |xs|, reduction)
  {
  }

  /** The indices `range(n)[residue::reduction]` that the stride keeps. */
  function StrideIndices(n: nat, residue: int, reduction: int): seq<nat>
    requires reduction >= 1 && residue >= 0
  {
    Walk(Range(n), residue, reduction)
  }

  /** Multiplying by a positive factor preserves strict order. */
  lemma {:induction false} MultiplyStrictlyMonotone(s: int, t: int, k: int)
    requires s < t && k > 0
    ensures s * k < t * k
  {
    assert t * k - s * k == (t - s) * k;
  }

  /** The stride's indices increase and are the positions `residue + t * reduction` below `n`. */
  lemma {:induction false} StrideIndicesIncrease(n: nat, residue: int, reduction: int)
    requires reduction >= 1 && residue >= 0
    ensures var ks := StrideIndices(n, residue, reduction);
      && StrictlyIncreasing(ks)
      && CountBelow(ks, n) == |ks|
      && forall t :: 0 <= t < |ks| ==> ks[t] == residue + t * reduction < n
  {
    var ks := StrideIndices(n, residue, reduction);
    WalkSelects(Range(n), residue, reduction);
    forall s, t | 0 <= s < t < |ks|
      ensures ks[s] < ks[t]
    {
      MultiplyStrictlyMonotone(s, t, reduction);
    }
  }

  /**
   * The stride is a projection onto an increasing index list, like the
   * distance filter: applied to several lists of one length, it keeps the
   * same frames of each.
   */
  lemma {:induction false} StrideIsProjection<T>(xs: seq<T>, residue: int, reduction: int)
    requires reduction >= 1 && residue >= 0
    ensures Slice(xs, residue, reduction) == Success(Project(xs, StrideIndices(|xs|, residue, reduction)))
  {
    var n := |xs|;
    var ks := StrideIndices(n, residue, reduction);
    StrideIndicesIncrease(n, residue, reduction);
    ProjectSelects(xs, ks);
    var p := Project(xs, ks);
    var r := Slice(xs, residue, reduction).value;
    StrideSelects(xs, residue, reduction);
    WalkSameLength(xs, Range(n), AdjustedStart(n, residue, reduction), reduction);
    assert |ks| == |Walk(Range(n), AdjustedStart(n, residue, reduction), reduction)| by {
      if residue >= n {
        assert AdjustedStart(n, residue, reduction) == n;
        assert Walk(Range(n), n, reduction) == [];
      }
    }
    assert |r| == |p|;
    forall t | 0 <= t < |r|
      ensures r[t] == p[t]
    {
      assert ks[t] == residue + t * reduction;
    }
    assert r == p;
  }
}
