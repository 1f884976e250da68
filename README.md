# Frame selection for offline camera calibration

The calibration script `just_calibration.py` loads chessboard
correspondences recorded per frame: 3D object points, 2D image points, a
name and a pose `(rvec, tvec)` for each frame. It may thin out the frames
before calling the calibration solver. This project models that thinning
and proves what it guarantees. It covers the two alternative policies and
the switch between them:

- **Distance filter** (`split_by_distance`). The frames are walked in
  order and frame 0 is always kept. A later frame is kept when the
  distance from its camera position to the position of the most recently
  *kept* frame is at least `min_dist`. The object points, image points and
  names are then reduced to the kept indices.
- **Stride filter** (`--filtertime`). The same Python slice
  `[residue::reduction]` is applied to each of the three lists.
- **Dispatch**. With `--filterdist` the distance filter runs. Otherwise,
  with `--filtertime`, the stride filter runs. Otherwise the lists pass
  through unchanged.

Files, one module each:

- `wrappers.dfy` (`Wrappers`): the `Result` type for operations that can
  raise.
- `projection.dfy` (`Projection`): the list comprehensions
  `[xs[i] for i in range(len(xs)) if i in keep]`, as `Project`. It is
  proved to select `xs[keep[t]]` position by position.
- `distance_filter.dfy` (`DistanceFilter`): the loop that builds
  `arg_split`, as the method `ComputeArgSplit`, called by `SplitByDistance`. Its specification function
  is `KeptAmong`. `IsGreedySelection` states the greedy rule without
  reference to the loop, and `GreedyCharacterisation` proves that exactly
  one index list satisfies it: the one the filter computes. In the method,
  the source's first iteration (`i == 0`: keep frame 0 and take its
  position as the reference) is written before the loop.
- `stride_filter.dfy` (`StrideFilter`): Python's slice `xs[start::step]`
  with the stop omitted, following CPython's rules for adjusting the start.
  A zero step is an error, a negative start counts from the end, and a
  negative step walks backwards.
- `frame_selection.dfy` (`FrameSelection`): the choice of policy
  (`FilterFrames`), alignment of the three lists under both policies, and
  the two worked examples (five names `f0`..`f4` with stride 2 and residue 1;
  positions `0.0, 0.05, 1.0` with `min_dist = 0.5`).

The pose-to-position computation and the norm are left abstract. A
`Geometry` value carries `position`, which stands for
`rotation_matrix(rvec) . tvec`, and `dist`, which stands for the Euclidean
norm of a difference. The reference position is the first argument of
`dist`, as in `norm(tmat_old - tmat)`. Where a property needs `dist` to be
non-negative, the lemma says so in its `requires`.

The help texts of `--reduction` ("Reduction of number of frames
(total/N)") and `--residue` ("Residue or offset for the reduced number of
frames") at just_calibration.py:15-16 suggest `reduction >= 1` and
`0 <= residue < reduction`. The code checks neither and simply evaluates
the slice. The model follows the code: every integer residue and reduction
is accepted, and a zero reduction is the error Python raises.

## Model

| member | source | states |
|---|---|---|
| `Projection.Project` | just_calibration.py:39-41 | the output has at most as many entries as the input, and every entry of the output is an entry of the input |
| `Projection.ProjectSelects` | just_calibration.py:39-41 | for an increasing index list, the output holds one entry per kept index inside the list, and entry `t` is `xs[keep[t]]`: a subsequence in original order with unchanged elements |
| `Projection.ProjectRange` | just_calibration.py:39-41 | projecting onto `range(n)` gives the first `min(n, len(xs))` entries |
| `DistanceFilter.KeptAmong` | just_calibration.py:23-36 | the indices kept among the first `n` frames are strictly increasing and below `n`, and start with 0 whenever `n > 0` |
| `DistanceFilter.KeptAmongAreFar` | just_calibration.py:33-36 | for consecutive kept frames `j < k`, the distance from `j`'s position to `k`'s is at least `min_dist` |
| `DistanceFilter.KeptAmongSkipsNear` | just_calibration.py:33-36 | every frame skipped after a kept frame `j`, before the next kept frame or the end, lies less than `min_dist` from `j`: the reference moves only when a frame is kept |
| `DistanceFilter.KeptAmongIsGreedy` | just_calibration.py:24-36 | the filter's index list satisfies the whole greedy rule `IsGreedySelection` |
| `DistanceFilter.GreedySelectionIsKeptAmong` | just_calibration.py:24-36 | any index list that satisfies the greedy rule is the filter's own list |
| `DistanceFilter.GreedyCharacterisation` | just_calibration.py:24-36 | an index list satisfies the greedy rule over all frames if and only if it equals `arg_split` |
| `DistanceFilter.KeepsAllWhenMinDistNonPositive` | just_calibration.py:29-36 | with non-negative distances and `min_dist <= 0`, every frame is kept: the kept indices are `range(n)` |
| `DistanceFilter.SplitKeepsFirstFrame` | just_calibration.py:29-41 | with at least one pose and a non-empty list, the output list is non-empty and starts with the list's entry for frame 0 |
| `DistanceFilter.SplitKeepsListsAligned` | just_calibration.py:39-41 | three lists of one length give three outputs of one length, and position `t` of each comes from the same frame `arg_split[t]`; with one pose per entry, every kept frame appears |
| `DistanceFilter.SplitKeepsAllWhenMinDistNonPositive` | just_calibration.py:21-42 | with non-negative distances and `min_dist <= 0`, each output is its input cut to the first `len(vecs)` entries |
| `DistanceFilter.ComputeArgSplit` | just_calibration.py:23-36 | the loop keeping `arg_split` and `tmat_old` computes `KeptAmong` over all frames |
| `DistanceFilter.SplitByDistance` | just_calibration.py:21-42 | the three outputs are the projections of the inputs onto the loop's `arg_split` |
| `StrideFilter.AdjustedStart` | just_calibration.py:79 | the adjusted start lies in `0..len` for a positive step and in `-1..len-1` for a negative one; an in-range start is unchanged, a start in `-len..-1` counts from the end, a start at or past the end clamps to `len` (`len - 1` for a negative step), and a start before `-len` clamps to `0` (`-1` for a negative step) |
| `StrideFilter.Slice` | just_calibration.py:79-81 | a slice fails exactly when the step is zero |
| `StrideFilter.WalkSelects` | just_calibration.py:79 | entry `t` of a walk is `xs[i + t * step]`, and the walk ends at the first such index outside the list |
| `StrideFilter.WalkSameLength` | just_calibration.py:79-81 | walks over lists of one length have one length |
| `StrideFilter.StrideSelects` | just_calibration.py:79-81 | for `reduction >= 1` and `residue >= 0` the slice succeeds; it has `ceil((len - residue) / reduction)` entries, or none when `residue >= len`, and entry `t` is `xs[residue + t * reduction]` |
| `StrideFilter.StrideIdentity` | just_calibration.py:79-81 | `xs[0::1]` is `xs` |
| `StrideFilter.StridePastEnd` | just_calibration.py:79-81 | with a positive step, a residue at or past the end gives an empty list |
| `StrideFilter.StrideNegativeResidue` | just_calibration.py:79-81 | a residue in `-len..-1` selects what `residue + len` selects |
| `StrideFilter.StrideIsProjection` | just_calibration.py:79-81 | for `reduction >= 1` and `residue >= 0`, the slice is the projection onto the increasing indices `range(len)[residue::reduction]`, the same form as the distance filter's output |
| `FrameSelection.StrideFrames` | just_calibration.py:79-81 | slicing the three lists fails exactly when the reduction is zero |
| `FrameSelection.DistanceFramesAligned` | just_calibration.py:75 | the distance filter turns three lists of one length into three outputs of one length |
| `FrameSelection.StrideFramesAligned` | just_calibration.py:79-81 | for a non-zero reduction the stride succeeds and keeps the three lists of one length; for `reduction >= 1` and `residue >= 0`, entry `t` of each comes from frame `residue + t * reduction` |
| `FrameSelection.FilterFrames` | just_calibration.py:72-81 | `--filterdist` takes precedence over `--filtertime`, and with neither the lists are unchanged; the only failure is a zero reduction under the stride filter; aligned lists stay aligned |
| `FrameSelection.StrideExample` | just_calibration.py:79-81 | five names `f0`..`f4` with residue 1 and reduction 2 give `f1`, `f3` |
| `FrameSelection.DistanceExample` | just_calibration.py:21-36 | positions `0.0, 0.05, 1.0` on a line with `min_dist = 0.5` keep frames 0 and 2 |

## Left out

- Computing a frame's position: `R.from_rotvec`, `as_matrix` and `np.dot` (lines 27-28). These are foreign floating-point numerics, abstracted as `Geometry.position`.
- The norm `np.linalg.norm` (line 33). It is abstracted as `Geometry.dist`. Its non-negativity is a stated assumption of the lemmas that need it, not a proved fact.
- Floating point. Distances and `min_dist` are reals. A NaN `--mindist` makes every `>=` comparison false in Python, so only frame 0 would be kept. The model has no NaN.
- Argument parsing (lines 8-16, 54). The filter switches and parameters arrive as a `FilterArgs` value.
- Loading the pickle file and unpacking its keys (lines 57-70). This is file I/O. The lists are parameters.
- `cv.calibrateCamera` and `cv.calibrateCameraExtended` (lines 88, 92). These are a foreign numerical solver.
- Sorting per-view errors with `argsort` (lines 89-90). The keys are floats from the solver and are used only for display.
- The `input()` prompt, the `cv.FileStorage` writes and the parsing of names with `int(x[5:])` (lines 99-111). These are interactive I/O and persistence.
- All `print` calls. They are output formatting.
- Python's exceptions from the pose computation on malformed poses. The poses are taken as given.
