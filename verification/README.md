# SORT tracker core in Dafny

This project models the core of SORT (Simple Online and Realtime Tracking), as
implemented in `sort/tracker.py`. It covers four parts:

- **Geometry**: boxes in corner form `[x1, y1, x2, y2]`, the pairwise
  intersection-over-union matrix (`iou_batch`), and the two conversions
  between corner form and the centre form `[x, y, s, r]` (`convert_bbox_to_z`,
  `convert_x_to_bbox`).
- **Motion and one track** (`KalmanBoxTracker`): the constant-velocity
  transition `F`, the area-velocity guard applied before each prediction,
  creation from a detection, `predict`, `update`, and the lifecycle counters
  `age`, `hits`, `hit_streak` and `time_since_update`.
- **Association** (`associate_detections_to_trackers`): the fast path taken
  when the thresholded IoU matrix already pairs rows and columns one to one,
  the fallback to the assignment solver, and the low-IoU filter. It also
  builds the unmatched lists.
- **The tracker** (`SortTracker`): construction with parameter validation,
  then one `update` per frame. A frame predicts every track, drops tracks
  whose prediction is not finite, associates, updates the matched tracks,
  creates one track per unmatched detection, reports, and prunes stale
  tracks.

All arithmetic is over exact reals (`real`); the source works in 32/64-bit
floating point. Identities are natural numbers. A reported row carries the
identity plus one.

Files:

- `wrappers.dfy`: `Option` and `Result`.
- `geometry.dfy`: module `Geometry`.
- `motion.dfy`: module `Motion`, the mean of the state estimator.
- `box_tracker.dfy`: module `BoxTracker`, one track.
- `association.dfy`: module `Association`.
- `sort_tracker.dfy`: module `Sort`, the tracker.

The estimator's covariance arithmetic is not modelled. A track's covariance
has an arbitrary type `C`. A `Filter<C>` value supplies four operations:
- the initial covariance
- the covariance propagation of `predict`
- the measurement correction of `update`, which maps (mean, covariance,
  observation) to a new (mean, covariance)
- the conversion of a mean to a corner box, used both for the predicted
  track boxes that enter the IoU matrix and for the reported rows

Every property below holds for every choice of these operations. The
assignment solver is supplied too: it is the pairing for the frame's IoU
matrix, and it must be in range and use no detection or track twice.

Three behaviours of the code are easy to misread; the model follows the
code:

- The low-IoU filter rejects a pair only when its IoU is strictly below the
  threshold (`sort/tracker.py:215`). A pair at exactly the threshold is kept.
  The fast path, in contrast, only counts cells strictly above the threshold
  (`sort/tracker.py:195`). `Association.SolverPairAtThresholdKept` and
  `Association.FastPathExcludesThreshold` state both sides of this
  difference.
- The fast path requires the largest row sum and the largest column sum to
  be exactly 1 (`sort/tracker.py:196`). A matrix with no cell above the
  threshold therefore goes to the solver. Requiring "at most one" would
  have taken the fast path.
- `hit_streak` is reset by the prediction after a missed frame, not by the
  miss itself (`sort/tracker.py:170-171`). After one missed frame a track
  still shows its streak with `time_since_update == 1`. Only from two
  missed frames on is the streak zero. `BoxTracker.Lifecycle` and
  `BoxTracker.RunCounters` state exactly this.

## Model

| member | source | states |
|---|---|---|
| Geometry.Iou | sort/tracker.py:64-75 | the IoU of one test box and one ground box: the clipped overlap area over the sum of the two areas minus the overlap; its bounds, symmetry and zero case are the lemmas below (a definition, without a contract of its own) |
| Geometry.IouBatch | sort/tracker.py:52-76 | the result is an N x M matrix whose entry (i, j) is the IoU of test box i and ground box j |
| Geometry.IouInUnitInterval | sort/tracker.py:61-76 | for boxes with positive width and height, IoU lies in [0, 1] |
| Geometry.IouBatchInUnitInterval | sort/tracker.py:52-76 | every entry of the batch matrix of valid boxes lies in [0, 1] |
| Geometry.IouSelf | sort/tracker.py:61-76 | a valid box has IoU 1 with itself |
| Geometry.IouZeroIffDisjoint | sort/tracker.py:61-76 | two valid boxes have IoU 0 exactly when they share no interior point (both directions) |
| Geometry.IouSymmetric | sort/tracker.py:61-76 | IoU does not depend on the order of its arguments |
| Geometry.ToZ | sort/tracker.py:79-91 | the centre is the midpoint of the corners, s is the area, r times the height is the width; a valid box has s > 0 and r > 0 |
| Geometry.FromZ | sort/tracker.py:94-104 | given the root w of s * r, the box has width w, height times w equal to s, and the given centre |
| Geometry.ZRoundTrip | sort/tracker.py:79-104 | converting a valid box to centre form and back, with any positive square root of s * r, gives the same box |
| Motion.Transition | sort/tracker.py:120-130 | the constant-velocity step equals the matrix-vector product of the transition matrix F with the state vector |
| Motion.PredictMean | sort/tracker.py:166-168 | centre moves by its velocity; aspect and centre velocities are unchanged; the area velocity is zeroed exactly when s + vs <= 0 and kept otherwise; the new area is s plus the used velocity; the new area is positive exactly when s > 0 or s + vs > 0 |
| Motion.InitialMean | sort/tracker.py:141 | the observed part of a new state is the observation, and the velocities are zero |
| Motion.Degenerate | sort/tracker.py:261-263 | a prediction whose corner box would have a non-finite coordinate, which the tracker drops before association: exactly when s * r is not positive, the case in which the square root or the division by it fails (a definition, without a contract of its own) |
| BoxTracker.Create | sort/tracker.py:114-150 | a new track has the given identity, score and class, observes the detection's centre form at rest, has all counters zero, and keeps the counter invariant |
| BoxTracker.Predict | sort/tracker.py:162-174 | age and time since update grow by one, hits are unchanged, the streak is dropped when the previous prediction went without update and kept otherwise, identity is kept; the counter invariant is preserved and leaves hits below age |
| BoxTracker.Update | sort/tracker.py:152-160 | the estimator is corrected with the box's centre form; time since update becomes 0; hits and streak grow by one; identity, score, class and age are unchanged; the counter invariant is preserved after a prediction |
| BoxTracker.RunCounters | sort/tracker.py:142-172 | for any sequence of matched or missed frames of a new track: age is the number of frames, hits the matched frames, time since update the trailing misses, and the streak is the trailing run of matches, kept over one miss and dropped at the second |
| Association.MaxOf | sort/tracker.py:196 | the result bounds every element and is attained by one |
| Association.CellsMember | sort/tracker.py:195-197 | a pair is an above-threshold cell exactly when it indexes the matrix and its IoU exceeds the threshold |
| Association.ProposedValid | sort/tracker.py:194-201 | the fast-path cells (when the row and column maxima are 1), the solver's pairing, or the empty pairing, use no detection and no track twice |
| Association.KeptMember | sort/tracker.py:212-219 | a pair survives the low-IoU filter exactly when it was proposed and its IoU is not below the threshold |
| Association.UnlistedComplement | sort/tracker.py:203-210 | the indices no proposed pair uses, together with the used ones, are every index exactly once |
| Association.Filtered | sort/tracker.py:203-225 | the matches and the unmatched detections partition the detection indices; the same holds for tracks; matches use each index at most once and have IoU at least the threshold |
| Association.Associate | sort/tracker.py:183-225 | as Filtered, for the whole association; with no tracks, there are no matches and every detection is unmatched, in index order |
| Association.FastPathMatches | sort/tracker.py:194-197 | on the fast path the matches are the above-threshold cells in row-major order: a pair is matched exactly when its IoU exceeds the threshold |
| Association.SolverPathMatches | sort/tracker.py:198-219 | off the fast path the matches are the solver's pairs, in its order, that are not below the threshold (both directions) |
| Association.SolverPairAtThresholdKept | sort/tracker.py:195-219 | a solver pair with IoU exactly at the threshold is matched |
| Association.FastPathExcludesThreshold | sort/tracker.py:195-197 | on the fast path a pair with IoU exactly at the threshold is not matched |
| Sort.Validate | sort/tracker.py:229-238 | the parameters are accepted exactly when both ages are non-negative; a negative maximum age is reported first, then a negative minimum hits; accepted parameters are kept unchanged |
| Sort.New | sort/tracker.py:229-240 | construction fails exactly when validation fails, with the same error; a new tracker has the validated parameters, no tracks, frame count 0, the given first identity, and satisfies the tracker invariant |
| Sort.Truncate | sort/tracker.py:274 | the class is the real truncated toward zero: within one below a non-negative value, within one above a negative one |
| Sort.KeepWhereMembers | sort/tracker.py:263-265 | filtering tracks keeps exactly the tracks satisfying the condition |
| Sort.KeepWhereIds | sort/tracker.py:263-265 | filtering tracks keeps identities in increasing order |
| Sort.ShouldReport | sort/tracker.py:280 | the report rule: the track was updated in this frame, and its streak has reached the minimum hits or the frame is within the warm-up; `Sort.ReportIff` and `Sort.StepReport` state it against the report (a definition, without a contract of its own) |
| Sort.Prune | sort/tracker.py:285-286 | every kept track comes from the input and has time since update within the maximum age, and every such input track is kept |
| Sort.ReportAndPrune | sort/tracker.py:276-286 | the in-place reverse walk produces exactly the rows of the reported tracks and leaves exactly the tracks whose time since update is within the maximum age, in order |
| Sort.ReportRowOrigin | sort/tracker.py:276-282 | every reported row is the row of a track that should be reported |
| Sort.ReportRowOf | sort/tracker.py:276-282 | every track that should be reported has its row in the report |
| Sort.ReportIff | sort/tracker.py:276-282 | with increasing identities, a row carries a track's identity plus one exactly when the track is reported (both directions) |
| Sort.ReportRowsDescending | sort/tracker.py:276-282 | rows come out in strictly decreasing identity order |
| Sort.ApplyMatches | sort/tracker.py:269-270 | each matched track is updated once with its own detection; every other track is unchanged |
| Sort.Spawn | sort/tracker.py:272-275 | one new track per unmatched detection, in order, with consecutive identities from the counter, the detection's score and truncated class, and zero counters |
| Sort.LiveFacts | sort/tracker.py:258-265 | the predicted tracks that survive the finiteness check keep increasing identities below the counter, the counter invariant, and have been missed at least once |
| Sort.CandidatesFacts | sort/tracker.py:266-275 | after updates and creations, identities still increase and stay below the advanced counter, and every track keeps the counter invariant |
| Sort.StepMatched | sort/tracker.py:266-275 | a live track has just been updated exactly when the association matched it; the tracks after the live ones are the new ones, with consecutive identities from the old counter and counted as updated |
| Sort.Step | sort/tracker.py:242-291 | a frame keeps the parameters, adds one to the frame count, and advances the identity counter by the number of unmatched detections |
| Sort.StepPreservesInv | sort/tracker.py:242-291 | a frame preserves the tracker invariant: increasing identities below the counter, the counter invariant on every track, no track missed for longer than the maximum age |
| Sort.StepReport | sort/tracker.py:276-282 | a track present after updates and creations is reported under its identity plus one exactly when it was updated this frame and its streak reached the minimum hits or the frame is within the warm-up |
| Sort.StepReportOrder | sort/tracker.py:276-282 | reported identities are positive and strictly decreasing |
| Sort.StepWarmUp | sort/tracker.py:280 | during the first `min_hits` frames every track created in the frame is reported at once |
| Sort.StepPrunes | sort/tracker.py:284-286 | the tracks kept are exactly the candidates whose time since update is within the maximum age |

## Left out

- The covariance arithmetic of the estimator is an operation supplied by the caller. This covers the matrices `H`, `R`, `P` and `Q`, the covariance propagation of `predict`, and the gain and correction of `update`. Every property holds for any such operation.
- `linear_sum_assignment`: the pairing is supplied per frame. The model only requires that it is in range and uses no index twice. Its optimality is not modelled, since that belongs to the solver library.
- `convert_x_to_bbox` needs a square root. `Geometry.FromZ` takes the root as an argument. The tracker uses a supplied conversion from a mean to a box, both for the predicted boxes it associates and for the boxes it reports.
- Non-finite predictions are modelled by `Motion.Degenerate`: a prediction is non-finite exactly when `s * r <= 0`. The source drops a track only when its box has a NaN coordinate (`np.isnan`). It also removes infinite rows from the matrix (`masked_invalid`). For a box that is infinite but not NaN (`r == 0`, `s != 0`), this misaligns the track list and the matrix. The model drops such tracks too, so that misalignment is not reproduced.
- Geometry.Iou: when the union is exactly zero the model gives 0, where floating point gives NaN or infinity. Only degenerate boxes have a zero union, and detections are required to have positive width and height.
- `KalmanBoxTracker.count` is a class-wide counter shared by all trackers. The model passes its current value to `Sort.New` as `firstId`, and the tracker carries it as `nextId`.
- The `history` list of a track, `get_state` as a separate call, `np.random.seed`, and the array dtype aliases are left out. None of them affect the tracker's state or report.
- Empty `dets` arrays are modelled as an empty detection sequence.
- Malformed detections are left out. `Sort.Step` requires every detection to have positive width and height. The source does not check this and leaves it to the caller. A zero-height detection would divide by zero in `convert_bbox_to_z` (`sort/tracker.py:90`).
- Default arguments are left out: `Association.Associate` and `Sort.New` take the IoU threshold, maximum age and minimum hits as explicit parameters, where the source defaults them to 0.3, 1 and 3 (`sort/tracker.py:183`, `sort/tracker.py:229`).
- Sort.Step: every predicted track box that enters the IoU matrix is the supplied mean-to-box conversion applied to the predicted mean, as are the reported boxes (`sort/tracker.py:173`, `sort/tracker.py:259`, `sort/tracker.py:277`). Because that conversion is a parameter, no lemma relates a match to the geometric position `convert_x_to_bbox` would give for the predicted state; the lemmas relate matches only to the IoU of the supplied boxes.
- Float32 and float64 rounding is not modelled. Thresholds and IoU are exact reals.
- Motion.PredictMean: the guard zeroes the area velocity by multiplying it by 0. Over reals this gives 0. In floating point an infinite velocity would give NaN, which is not modelled.
