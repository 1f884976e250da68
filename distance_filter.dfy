/**
 * The greedy distance filter `split_by_distance`: walking the frames in
 * order, frame 0 is always kept, and a later frame is kept when its camera
 * position lies at least `minDist` away from the position of the most
 * recently kept frame.
 */
module DistanceFilter {
  import opened Projection

  /**
   * The foreign numerics, left abstract: `position` turns a frame's pose
   * `(rvec, tvec)` into the vector `rotation_matrix(rvec) . tvec`, and `dist`
   * is the Euclidean norm of the difference of two such vectors.
   */
  datatype Geometry<!P, !V> = Geometry(position: P -> V, dist: (V, V) -> real)

  /** How far frame `m` lies from the reference frame `j`: `norm(tmat_old - tmat)`. */
  function Displacement<P, V>(vecs: seq<P>, g: Geometry<P, V>, j: nat, m: nat): real
    requires j < |vecs| && m < |vecs|
  {
    g.dist(g.position(vecs[j]), g.position(vecs[m]))
  }

  /**
   * The indices that `arg_split` holds after the first `n` frames have been
   * examined: frame 0 unconditionally, then each frame whose displacement
   * from the last kept frame is at least `minDist`.
   */
  function KeptAmong<P, V>(vecs: seq<P>, g: Geometry<P, V>, minDist: real, n: nat): (ks: seq<nat>)
    requires n <= |vecs|
    ensures StrictlyIncreasing(ks)
    ensures forall t :: 0 <= t < |ks| ==> ks[t] < n
    ensures n > 0 ==> |ks| > 0 && ks[0] == 0
  {
    if n == 0 then []
    else if n == 1 then [0]
    else
      var ks := KeptAmong(vecs, g, minDist, n - 1);
      if Displacement(vecs, g, ks[|ks| - 1], n - 1) >= minDist then ks + [n - 1] else ks
  }

  /** The final `arg_split`, once every frame has been examined. */
  function ArgSplit<P, V>(vecs: seq<P>, g: Geometry<P, V>, minDist: real): seq<nat>
  {
    KeptAmong(vecs, g, minDist, |vecs|)
  }

  /** The kept index after the `t`-th, or `n` when the `t`-th is the last one. */
  function NextKept(ks: seq<nat>, t: nat, n: nat): nat
    requires t < |ks|
  {
    if t + 1 < |ks| then ks[t + 1] else n
  }

  /** Each kept frame lies at least `minDist` from the kept frame before it. */
  ghost predicate KeptAreFar<P, V>(vecs: seq<P>, g: Geometry<P, V>, minDist: real, ks: seq<nat>)
    requires forall t :: 0 <= t < |ks| ==> ks[t] < |vecs|
  {
    forall t :: 0 <= t < |ks| - 1 ==> Displacement(vecs, g, ks[t], ks[t + 1]) >= minDist
  }

  /**
   * Each frame skipped after a kept frame, and before the next kept one
   * (or before frame `n`), lies less than `minDist` from that kept frame.
   */
  ghost predicate SkippedAreNear<P, V>(vecs: seq<P>, g: Geometry<P, V>, minDist: real, n: nat, ks: seq<nat>)
    requires n <= |vecs|
    requires forall t :: 0 <= t < |ks| ==> ks[t] < n
  {
    forall t, m :: 0 <= t < |ks| && ks[t] < m < NextKept(ks, t, n) ==> Displacement(vecs, g, ks[t], m) < minDist
  }

  /**
   * The greedy rule, stated without reference to the loop: `ks` lists, in
   * increasing order, indices below `n` starting with 0, and is empty only
   * when there are no frames; each kept frame
   * lies at least `minDist` from the previous kept one; and each frame
   * skipped after a kept frame lies less than `minDist` from it.
   */
  ghost predicate IsGreedySelection<P, V>(vecs: seq<P>, g: Geometry<P, V>, minDist: real, n: nat, ks: seq<nat>)
    requires n <= |vecs|
  {
    && StrictlyIncreasing(ks)
    && (forall t :: 0 <= t < |ks| ==> ks[t] < n)
    && (ks == [] <==> n == 0)
    && (ks != [] ==> ks[0] == 0)
    && KeptAreFar(vecs, g, minDist, ks)
    && SkippedAreNear(vecs, g, minDist, n, ks)
  }

  /** The frames the filter keeps lie at least `minDist` apart from their predecessors. */
  lemma {:induction false} KeptAmongAreFar<P, V>(vecs: seq<P>, g: Geometry<P, V>, minDist: real, n: nat)
    requires n <= |vecs|
    ensures KeptAreFar(vecs, g, minDist, KeptAmong(vecs, g, minDist, n))
  {
    if n > 1 {
      KeptAmongAreFar(vecs, g, minDist, n - 1);
    }
  }

  /** The frames the filter skips lie within `minDist` of the last kept frame before them. */
  lemma {:induction false} KeptAmongSkipsNear<P, V>(vecs: seq<P>, g: Geometry<P, V>, minDist: real, n: nat)
    requires n <= |vecs|
    ensures SkippedAreNear(vecs, g, minDist, n, KeptAmong(vecs, g, minDist, n))
  {
    if n > 1 {
      KeptAmongSkipsNear(vecs, g, minDist, n - 1);
      var ks := KeptAmong(vecs, g, minDist, n - 1);
      if Displacement(vecs, g, ks[|ks| - 1], n - 1) >= minDist {
        var ks' := ks + [n - 1];
        forall t, m | 0 <= t < |ks'| && ks'[t] < m < NextKept(ks', t, n)
          ensures Displacement(vecs, g, ks'[t], m) < minDist
        {
          assert t < |ks| && NextKept(ks', t, n) == NextKept(ks, t, n - 1);
        }
      } else {
        forall t, m | 0 <= t < |ks| && ks[t] < m < NextKept(ks, t, n)
          ensures Displacement(vecs, g, ks[t], m) < minDist
        {
          if m == n - 1 {
            assert t == |ks| - 1;
          } else {
            assert m < NextKept(ks, t, n - 1);
          }
        }
      }
    }
  }

  /** The indices the filter keeps obey the greedy rule. */
  lemma KeptAmongIsGreedy<P, V>(vecs: seq<P>, g: Geometry<P, V>, minDist: real, n: nat)
    requires n <= |vecs|
    ensures IsGreedySelection(vecs, g, minDist, n, KeptAmong(vecs, g, minDist, n))
  {
    KeptAmongAreFar(vecs, g, minDist, n);
    KeptAmongSkipsNear(vecs, g, minDist, n);
  }

  /** A greedy selection over `n` frames that keeps frame `n - 1` extends one over `n - 1` frames. */
  lemma GreedyDropKeptLast<P, V>(vecs: seq<P>, g: Geometry<P, V>, minDist: real, n: nat, ks: seq<nat>)
    requires 1 < n <= |vecs|
    requires IsGreedySelection(vecs, g, minDist, n, ks)
    requires ks[|ks| - 1] == n - 1
    ensures 1 < |ks| && ks == ks[..|ks| - 1] + [n - 1]
    ensures IsGreedySelection(vecs, g, minDist, n - 1, ks[..|ks| - 1])
    ensures Displacement(vecs, g, ks[|ks| - 2], n - 1) >= minDist
  {
    assert ks[0] == 0 < n - 1;
    var init := ks[..|ks| - 1];
    forall t, m | 0 <= t < |init| && init[t] < m < NextKept(init, t, n - 1)
      ensures Displacement(vecs, g, init[t], m) < minDist
    {
      assert NextKept(init, t, n - 1) == NextKept(ks, t, n);
    }
  }

  /** A greedy selection over `n` frames that skips frame `n - 1` is one over `n - 1` frames. */
  lemma GreedyDropSkippedLast<P, V>(vecs: seq<P>, g: Geometry<P, V>, minDist: real, n: nat, ks: seq<nat>)
    requires 1 < n <= |vecs|
    requires IsGreedySelection(vecs, g, minDist, n, ks)
    requires ks[|ks| - 1] != n - 1
    ensures IsGreedySelection(vecs, g, minDist, n - 1, ks)
    ensures Displacement(vecs, g, ks[|ks| - 1], n - 1) < minDist
  {
    forall t, m | 0 <= t < |ks| && ks[t] < m < NextKept(ks, t, n - 1)
      ensures Displacement(vecs, g, ks[t], m) < minDist
    {
      assert NextKept(ks, t, n - 1) <= NextKept(ks, t, n);
    }
    assert NextKept(ks, |ks| - 1, n) == n;
  }

  /** Only the indices the filter keeps obey the greedy rule. */
  lemma {:induction false} GreedySelectionIsKeptAmong<P, V>(vecs: seq<P>, g: Geometry<P, V>, minDist: real, n: nat, ks: seq<nat>)
    requires n <= |vecs|
    requires IsGreedySelection(vecs, g, minDist, n, ks)
    ensures ks == KeptAmong(vecs, g, minDist, n)
  {
    if n == 1 {
      assert ks == [0];
    } else if n > 1 {
      if ks[|ks| - 1] == n - 1 {
        GreedyDropKeptLast(vecs, g, minDist, n, ks);
        var init := ks[..|ks| - 1];
        GreedySelectionIsKeptAmong(vecs, g, minDist, n - 1, init);
        assert KeptAmong(vecs, g, minDist, n) == init + [n - 1];
      } else {
        GreedyDropSkippedLast(vecs, g, minDist, n, ks);
        GreedySelectionIsKeptAmong(vecs, g, minDist, n - 1, ks);
      }
    }
  }

  /** The greedy rule determines the kept indices: they are exactly those of the filter. */
  lemma GreedyCharacterisation<P, V>(vecs: seq<P>, g: Geometry<P, V>, minDist: real, ks: seq<nat>)
    ensures IsGreedySelection(vecs, g, minDist, |vecs|, ks) <==> ks == ArgSplit(vecs, g, minDist)
  {
    KeptAmongIsGreedy(vecs, g, minDist, |vecs|);
    if IsGreedySelection(vecs, g, minDist, |vecs|, ks) {
      GreedySelectionIsKeptAmong(vecs, g, minDist, |vecs|, ks);
    }
  }

  /**
   * With distances never negative and a threshold of at most 0, no frame is
   * ever discarded.
   */
  lemma {:induction false} KeepsAllWhenMinDistNonPositive<P, V>(vecs: seq<P>, g: Geometry<P, V>, minDist: real, n: nat)
    requires n <= |vecs|
    requires minDist <= 0.0
    requires forall p, q :: g.dist(g.position(p), g.position(q)) >= 0.0
    ensures KeptAmong(vecs, g, minDist, n) == Range(n)
  {
    if n > 1 {
      KeepsAllWhenMinDistNonPositive(vecs, g, minDist, n - 1);
      var ks := KeptAmong(vecs, g, minDist, n - 1);
      assert ks[|ks| - 1] == n - 2;
      assert Displacement(vecs, g, n - 2, n - 1) >= 0.0;
    }
  }

  /**
   * Frame 0 survives the filter: each non-empty output list starts with the
   * entry of frame 0.
   */
  lemma SplitKeepsFirstFrame<T, P, V>(xs: seq<T>, vecs: seq<P>, g: Geometry<P, V>, minDist: real)
    requires |vecs| > 0 && |xs| > 0
    ensures var r := Project(xs, ArgSplit(vecs, g, minDist)); |r| > 0 && r[0] == xs[0]
  {
    var ks := ArgSplit(vecs, g, minDist);
    ProjectSelects(xs, ks);
    assert CountBelow(ks, |xs|) > 0 by {
      assert ks[0] == 0 < |xs|;
    }
  }

  /**
   * The three outputs are projections onto the same kept indices: lists of
   * one length give outputs of one length, and position `t` of each comes
   * from frame `ArgSplit[t]`; when the lists have one entry per frame, the
   * outputs have one entry per kept frame.
   */
  lemma SplitKeepsListsAligned<O, I, N, P, V>(objpts: seq<O>, imgpts: seq<I>, names: seq<N>, vecs: seq<P>,
                                              g: Geometry<P, V>, minDist: real)
    requires |objpts| == |imgpts| == |names|
    ensures var ks := ArgSplit(vecs, g, minDist);
      var nobj, nimg, nnames := Project(objpts, ks), Project(imgpts, ks), Project(names, ks);
      && |nobj| == |nimg| == |nnames| <= |ks|
      && (|objpts| == |vecs| ==> |nobj| == |ks|)
      && forall t :: 0 <= t < |nobj| ==>
           ks[t] < |objpts| && nobj[t] == objpts[ks[t]] && nimg[t] == imgpts[ks[t]] && nnames[t] == names[ks[t]]
  {
    var ks := ArgSplit(vecs, g, minDist);
    assert CountBelow(ks, |vecs|) == |ks|;
    ProjectSelects(objpts, ks);
    ProjectSelects(imgpts, ks);
    ProjectSelects(names, ks);
  }

  /**
   * With non-negative distances and `minDist <= 0` the filter is the
   * identity on the first `len(vecs)` entries of each list.
   */
  lemma SplitKeepsAllWhenMinDistNonPositive<T, P, V>(xs: seq<T>, vecs: seq<P>, g: Geometry<P, V>, minDist: real)
    requires minDist <= 0.0
    requires forall p, q :: g.dist(g.position(p), g.position(q)) >= 0.0
    ensures Project(xs, ArgSplit(vecs, g, minDist)) == xs[..if |vecs| < |xs| then |vecs| else |xs|]
  {
    KeepsAllWhenMinDistNonPositive(vecs, g, minDist, |vecs|);
    ProjectRange(xs, |vecs|);
  }

  /**
   * The loop of `split_by_distance`, which builds `arg_split` and keeps the
   * position of the last kept frame in `tmatOld`. The iteration `i == 0`,
   * which keeps frame 0 and sets the reference, is written before the loop.
   */
  method ComputeArgSplit<P, V>(vecs: seq<P>, g: Geometry<P, V>, minDist: real) returns (argSplit: seq<nat>)
    ensures argSplit == ArgSplit(vecs, g, minDist)
  {
    argSplit := [];
    if |vecs| > 0 {
      var tmatOld := g.position(vecs[0]);
      argSplit := [0];
      for i := 1 to |vecs|
        invariant argSplit == KeptAmong(vecs, g, minDist, i)
        invariant tmatOld == g.position(vecs[argSplit[|argSplit| - 1]])
      {
        var tmat := g.position(vecs[i]);
        var dtc := g.dist(tmatOld, tmat);
        if dtc >= minDist {
          tmatOld := tmat;
          argSplit := argSplit + [i];
        }
      }
    }
  }

  /**
   * `split_by_distance(objpts, imgpts, names, vecs, min_dist)`: the three
   * lists projected onto the frames the loop keeps.
   */
  method SplitByDistance<O, I, N, P, V>(objpts: seq<O>, imgpts: seq<I>, names: seq<N>, vecs: seq<P>,
                                        g: Geometry<P, V>, minDist: real)
    returns (nobj: seq<O>, nimg: seq<I>, nnames: seq<N>)
    ensures nobj == Project(objpts, ArgSplit(vecs, g, minDist))
    ensures nimg == Project(imgpts, ArgSplit(vecs, g, minDist))
    ensures nnames == Project(names, ArgSplit(vecs, g, minDist))
  {
    var argSplit := ComputeArgSplit(vecs, g, minDist);
    nobj := Project(objpts, argSplit);
    nimg := Project(imgpts, argSplit);
    nnames := Project(names, argSplit);
  }
}
