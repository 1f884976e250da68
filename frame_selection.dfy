/**
 * The choice between the two filters before calibration: the distance
 * filter when `--filterdist` is given, otherwise the stride filter when
 * `--filtertime` is given, otherwise no filtering.
 */
module FrameSelection {
  import opened Wrappers
  import opened Projection
  import opened DistanceFilter
  import opened StrideFilter

  /** The filtering switches and parameters of the command line. */
  datatype FilterArgs = FilterArgs(filterDist: bool, filterTime: bool, minDist: real, reduction: int, residue: int)

  /** The per-frame lists handed to the calibration: 3D points, 2D points and frame names. */
  datatype Frames<O, I, N> = Frames(objpoints: seq<O>, imgpoints: seq<I>, names: seq<N>)

  /** The three lists have one entry per frame each. */
  predicate Aligned<O, I, N>(f: Frames<O, I, N>)
  {
    |f.objpoints| == |f.imgpoints| == |f.names|
  }

  /**
   * The distance filter's result on all three lists: the function form of
   * `SplitByDistance`'s postcondition, used to state the dispatch.
   */
  function DistanceFrames<O, I, N, P, V>(f: Frames<O, I, N>, vecs: seq<P>, g: Geometry<P, V>, minDist: real): Frames<O, I, N>
  {
    var ks := ArgSplit(vecs, g, minDist);
    Frames(Project(f.objpoints, ks), Project(f.imgpoints, ks), Project(f.names, ks))
  }

  /**
   * The stride filter on all three lists; the first of the three slices
   * already raises when the step is zero.
   */
  function StrideFrames<O, I, N>(f: Frames<O, I, N>, residue: int, reduction: int): (r: Result<Frames<O, I, N>, SliceError>)
    ensures r.Failure? <==> reduction == 0
  {
    if reduction == 0 then Failure(StepZero)
    else
      Success(Frames(Slice(f.objpoints, residue, reduction).value,
                     Slice(f.imgpoints, residue, reduction).value,
                     Slice(f.names, residue, reduction).value))
  }

  /** The distance filter keeps the lists aligned. */
  lemma DistanceFramesAligned<O, I, N, P, V>(f: Frames<O, I, N>, vecs: seq<P>, g: Geometry<P, V>, minDist: real)
    requires Aligned(f)
    ensures Aligned(DistanceFrames(f, vecs, g, minDist))
  {
    SplitKeepsListsAligned(f.objpoints, f.imgpoints, f.names, vecs, g, minDist);
  }

  /**
   * The stride filter keeps the lists aligned, for every residue and
   * reduction, and with `reduction >= 1` and `residue >= 0` entry `t` of
   * each list comes from frame `residue + t * reduction`.
   */
  lemma StrideFramesAligned<O, I, N>(f: Frames<O, I, N>, residue: int, reduction: int)
    requires Aligned(f) && reduction != 0
    ensures StrideFrames(f, residue, reduction).Success?
    ensures var r := StrideFrames(f, residue, reduction).value;
      && Aligned(r)
      && (reduction >= 1 && residue >= 0 ==>
            forall t :: 0 <= t < |r.names| ==>
              && residue + t * reduction < |f.names|
              && r.objpoints[t] == f.objpoints[residue + t * reduction]
              && r.imgpoints[t] == f.imgpoints[residue + t * reduction]
              && r.names[t] == f.names[residue + t * reduction])
  {
    var i := AdjustedStart(|f.names|, residue, reduction);
    WalkSameLength(f.objpoints, f.names, i, reduction);
    WalkSameLength(f.imgpoints, f.names, i, reduction);
    if reduction >= 1 && residue >= 0 {
      StrideSelects(f.objpoints, residue, reduction);
      StrideSelects(f.imgpoints, residue, reduction);
      StrideSelects(f.names, residue, reduction);
    }
  }

  /**
   * Lines 73-81 of the script: the distance filter takes precedence, the
   * stride filter applies only without it, and with neither the lists pass
   * through unchanged; only a zero stride fails, and every path keeps
   * aligned lists aligned.
   */
  method FilterFrames<O, I, N, P, V>(args: FilterArgs, frames: Frames<O, I, N>, vecs: seq<P>, g: Geometry<P, V>)
    returns (r: Result<Frames<O, I, N>, SliceError>)
    ensures args.filterDist ==> r == Success(DistanceFrames(frames, vecs, g, args.minDist))
    ensures !args.filterDist && args.filterTime ==> r == StrideFrames(frames, args.residue, args.reduction)
    ensures !args.filterDist && !args.filterTime ==> r == Success(frames)
    ensures r.Failure? <==> !args.filterDist && args.filterTime && args.reduction == 0
    ensures r.Success? && Aligned(frames) ==> Aligned(r.value)
  {
    if args.filterDist {
      var objpoints, imgpoints, names :=
        SplitByDistance(frames.objpoints, frames.imgpoints, frames.names, vecs, g, args.minDist);
      r := Success(Frames(objpoints, imgpoints, names));
      if Aligned(frames) {
        DistanceFramesAligned(frames, vecs, g, args.minDist);
      }
    } else if args.filterTime {
      r := StrideFrames(frames, args.residue, args.reduction);
      if Aligned(frames) && args.reduction != 0 {
        StrideFramesAligned(frames, args.residue, args.reduction);
      }
    } else {
      r := Success(frames);
    }
  }

  /** Five frames `f0`..`f4` with `--reduction 2 --residue 1` leave `f1` and `f3`. */
  lemma StrideExample()
    ensures Slice(["f0", "f1", "f2", "f3", "f4"], 1, 2) == Success(["f1", "f3"])
  {
    var xs := ["f0", "f1", "f2", "f3", "f4"];
    assert Walk(xs, 5, 2) == [];
    assert Walk(xs, 3, 2) == ["f3"];
    assert Walk(xs, 1, 2) == ["f1", "f3"];
    assert AdjustedStart(5, 1, 2) == 1;
  }

  /** Positions along one axis, compared by absolute difference. */
  function OnALine(): Geometry<real, real>
  {
    Geometry(p => p, (a, b) => if a >= b then a - b else b - a)
  }

  /**
   * Frames at positions `0.0, 0.05, 1.0` with `--mindist 0.5`: frame 1 is
   * too close to frame 0, frame 2 is far enough from it.
   */
  lemma DistanceExample()
    ensures ArgSplit([0.0, 0.05, 1.0], OnALine(), 0.5) == [0, 2]
  {
    var vecs := [0.0, 0.05, 1.0];
    assert KeptAmong(vecs, OnALine(), 0.5, 2) == [0];
  }
}
