# Drift-chamber track reconstruction (`trek::ChamberHandler`)

A Dafny model of the track reconstruction of one four-wire drift chamber in the
`trek` code base. The C++ `ChamberHandler::createTrackDescription(eventTimes, chamDesc)`:

1. turns the raw TDC times of each wire into drift distances (`getDistances`);
2. requires the smallest per-wire count to be exactly 1 (`getDepth`);
3. walks every choice of one distance per wire (four nested loops);
4. fits a line by least squares (`leastSquares`) through each of the 16
   left/right sign variants of that choice;
5. keeps the first track of strictly smallest deviation (ties go to the earliest);
6. corrects the winner for the track angle and fits it again (`systemError`).

Modules:

- `TrekTypes` (`trektypes.dfy`): the data model of `common/trek/trektypes.hpp`.
  - The fixed-size `std::array` aliases become length-4 subset types.
  - `WireParameters`, `ChamberDescription` and `TrackDescription` become datatypes.
  - Getters are datatype fields; setters are functions returning the updated value.
  - A deviation is `Dev`: `Inf`, the search's start value, or `Val(v)`.
- `Fitting` (`fitting.dfy`): `leastSquares` over exact reals.
  - The fit is the minimiser of the sum of squared residuals.
  - The fit recovers collinear points exactly.
  - Degenerate point sets cannot be fitted.
- `Odometer` (`odometer.dfy`): the cross product that the four nested loops walk.
  - The index vectors come in lexicographic order.
  - Each vector in range appears exactly once.
- `Selection` (`selection.dfy`): the "first strictly better" scan that both
  `createTrackDescription` overloads use.
- `ChamberHandler` (`chamberhandler.dfy`): the pipeline. `Reconstruct` returns a
  `Result` in place of the `runtime_error` the C++ throws.
- `Results` (`results.dfy`): `Option` and `Result`.

The angle correction `1/cos(atan(k)) - 1` is a parameter `secExcess: real -> real`
of the operations that use it.

Behaviour of the code worth knowing, which the model keeps as written:

- **Times are not index-aligned with distances.** `createTrackTimes` applies a
  combination's indices to the raw times (chamberhandler.cpp:106). Times that
  `getDistances` dropped still count there, so a track can report a time other
  than the one its distance came from. `TimesNotAlignedWithDistances`
  exhibits such an event.
- **The correction runs once, on the global winner** (chamberhandler.cpp:43).
  When it returns `false`, the whole call fails, even if another combination
  would have succeeded.
- **`systemError` stores its re-fit's deviation even when it is -1, and
  still reports success** (chamberhandler.cpp:86-87). The model keeps this
  (`SystemErrorKeepsUnfittableDeviation`). Inside the pipeline it never happens:
  the wire x coordinates (41, 51, 61, 71) make the fit's denominator 2000 for
  every four-point track (`WireGridDenominator`).
- **Both throw sites raise the same `runtime_error`** (chamberhandler.cpp:46, 48).
  The model tells the reasons apart (`DepthNotOne`, `NoFittableTrack`,
  `UndefinedSide`). The `NoFittableTrack` case is unreachable.
- **The clamp on `r` is asymmetric in sign** (chamberhandler.cpp:76-79).
  - Within the limit, `r` is the signed y, so the shift `sign(y)·r·f` is `|y|·f`.
  - Beyond the limit, `r` is the positive limit, so below the centre line the
    shift flips to `-limit·f`.
  - The model keeps the code's behaviour, and `CorrectionShift` states it in closed form.

## Model

| member | source | states |
|---|---|---|
| TrekTypes.MakeWireParameters | common/trek/trektypes.hpp:25 | the constructor stores its offset and speed, which default to 0 |
| TrekTypes.SetOffset | common/trek/trektypes.hpp:26-29 | after `setOffset(v)` the offset reads back as v and the speed is unchanged |
| TrekTypes.SetSpeed | common/trek/trektypes.hpp:27-29 | after `setSpeed(v)` the speed reads back as v and the offset is unchanged |
| TrekTypes.SetParameters | common/trek/trektypes.hpp:57 | replaces the wire parameters; points, plane and group are unchanged |
| ChamberHandler.Sign | common/trek/chamberhandler.cpp:14-16 | `sign` is 1, -1 or 0 exactly when its argument is positive, negative or zero |
| ChamberHandler.WiresAlternate | common/trek/chamberhandler.cpp:18-23 | the four wires sit at increasing x, alternately above and below the centre line |
| ChamberHandler.DriftDistanceExact | common/trek/chamberhandler.cpp:56-57 | for a kept time the unsigned subtraction does not wrap: the distance is (msr - offset)·speed |
| ChamberHandler.WireDistances | common/trek/chamberhandler.cpp:53-58 | a wire yields no more distances than it has times |
| ChamberHandler.KeptIndicesExact | common/trek/chamberhandler.cpp:54-56 | a time is kept exactly when it is strictly above the wire's offset |
| ChamberHandler.KeptIndicesIncreasing | common/trek/chamberhandler.cpp:54-57 | kept times stay in their original order |
| ChamberHandler.KeptDistanceValues | common/trek/chamberhandler.cpp:51-60 | the k-th distance is the drift distance of the k-th kept time, one distance per kept time |
| ChamberHandler.GetDistances | common/trek/chamberhandler.cpp:51-60 | every wire's distance list is at most as long as its time list |
| ChamberHandler.GetDepth | common/trek/chamberhandler.cpp:62-68 | the depth is at most every wire's count and equals one of them (or the start value `SIZE_MAX`) |
| ChamberHandler.DepthOneMeansAnchored | common/trek/chamberhandler.cpp:28-29 | depth is 1 exactly when no wire is empty and some wire has a single distance |
| ChamberHandler.PickEach | common/trek/chamberhandler.cpp:94-108 | `createTrackDistances` and `createTrackTimes` pick one entry per wire; for non-empty lists each pick is an element of its wire's list, and exactly `list[i]` when the index i is in range |
| ChamberHandler.VariantPoints | common/trek/chamberhandler.cpp:117-125 | point j of variant i is at wire j's x, and its y is wire j's y minus d_j when bit j of i is set, plus d_j otherwise |
| ChamberHandler.SignVariantsCoverAllAssignments | common/trek/chamberhandler.cpp:115-121 | each of the 2^4 left/right assignments is produced by exactly one mask 0..15 |
| ChamberHandler.WireGridDenominator | common/trek/chamberhandler.cpp:18-23 | for points at the wire x's, n·Σxx − (Σx)² = 4·13044 − 224² = 2000, whatever the y's |
| ChamberHandler.WireGridFittable | common/trek/chamberhandler.cpp:146-147 | every four-point track on the wire grid passes the fit's degeneracy test |
| Fitting.FitLine | common/trek/chamberhandler.cpp:136-156 | unfittable exactly for fewer than 2 points or a denominator of magnitude ≤ 1e-60; otherwise the deviation is the line's sum of squared residuals, ≥ 0 |
| Fitting.LeastSquares | common/trek/chamberhandler.cpp:136-156 | returns -1 exactly when the fit fails and then leaves the line argument unchanged; otherwise stores the fitted line and returns its non-negative deviation |
| Fitting.FitIsOptimal | common/trek/chamberhandler.cpp:146-153 | the fitted line's deviation is at most the sum of squared residuals of any other line |
| Fitting.FitRecoversCollinear | common/trek/chamberhandler.cpp:146-153 | points exactly on a line (with a non-degenerate denominator) give back that line's k and b and deviation 0 |
| Fitting.VerticalPointsUnfittable | common/trek/chamberhandler.cpp:146-147 | points sharing one x cannot be fitted |
| Selection.KeepBestIsFirstMinimum | common/trek/chamberhandler.cpp:127-131 | the strict-< scan that skips -1 ends at the start value exactly when nothing is scored; otherwise it ends at the first candidate of minimal deviation |
| Selection.KeepBestIsEveryFirstMinimum | common/trek/chamberhandler.cpp:127-131 | the first minimum is unique: whenever candidate i is a first minimum, the scan returns candidate i |
| Odometer.EnumerateMembers | common/trek/chamberhandler.cpp:33-36 | the nested loops visit exactly the index vectors with every index below its wire's count |
| Odometer.EnumerateIncreasing | common/trek/chamberhandler.cpp:33-36 | they visit them in strictly increasing lexicographic order, wire 0 slowest |
| Odometer.EnumerateDistinct | common/trek/chamberhandler.cpp:33-36 | no index vector is visited twice |
| ChamberHandler.Combinations | common/trek/chamberhandler.cpp:28-36 | an eligible event evaluates exactly n0·n1·n2·n3 combinations, all in range |
| ChamberHandler.SignSearchFindsBestVariant | common/trek/chamberhandler.cpp:110-134 | the inner search returns the first of the 16 variants of minimal deviation, never infinity, and that deviation is at most the squared residuals of any line against any variant |
| ChamberHandler.GetSystemError | common/trek/chamberhandler.cpp:90-92 | the correction r·f has magnitude \|r\|·\|f\| and sign sign(r)·sign(f), where f stands for `1/cos(ang) - 1` |
| ChamberHandler.CorrectPointDefined | common/trek/chamberhandler.cpp:73-83 | a point falls to the `default: return false` case exactly when its y is 0, and its x is never changed |
| ChamberHandler.CorrectionShift | common/trek/chamberhandler.cpp:73-84 | the shift is min(\|y\|, limit)·f, or −limit·f below the centre line beyond the limit; the limit is 6.2 on the wire's side and 3.6 on the other |
| ChamberHandler.SystemError | common/trek/chamberhandler.cpp:70-88 | fails exactly when some point's y is 0; otherwise point i is the loop's correction of input point i against wire i (x, count and times unchanged), and the stored deviation is -1 (old line kept) exactly when the re-fit fails, else the re-fit's line and deviation |
| ChamberHandler.SystemErrorShiftsEachPoint | common/trek/chamberhandler.cpp:72-85 | when no point has y = 0 the call succeeds and each returned point is the input point moved in y by min(\|y\|, limit)·f, or by −limit·f below the centre line beyond the limit (limit 6.2 on the wire's side, 3.6 opposite), with f taken at the old line's slope |
| ChamberHandler.SystemErrorKeepsUnfittableDeviation | common/trek/chamberhandler.cpp:86-87 | with fewer than two points the re-fit fails, yet `systemError` succeeds with deviation -1 and the old line |
| ChamberHandler.Reconstruct | common/trek/chamberhandler.cpp:25-49 | the call fails for the depth reason exactly when the depth is not 1 |
| ChamberHandler.WinnerIsFirstMinimum | common/trek/chamberhandler.cpp:30-42 | on an eligible event the kept track is the first candidate, in loop order, of minimal deviation (and it is the only such candidate); it has four points at the wire x's and a deviation ≥ 0 |
| ChamberHandler.WinnerBeatsEveryHypothesis | common/trek/chamberhandler.cpp:33-42 | the winner's deviation is at most the squared residuals of any line against any sign variant of any combination |
| ChamberHandler.ReconstructOutcome | common/trek/chamberhandler.cpp:43-46 | an eligible event fails only by `systemError`, exactly when the winner has a point with y = 0; otherwise the result is the corrected winner |
| ChamberHandler.ReconstructedTrackIsFitted | common/trek/chamberhandler.cpp:43-44 | a returned track has one point per wire at the wire's x, and its line and deviation are the least-squares fit of those points |
| ChamberHandler.ReconstructSucceedsOffStagger | common/trek/chamberhandler.cpp:74-82 | an eligible event whose distances never equal the wire stagger 0.75 always yields a track |
| ChamberHandler.TimesNotAlignedWithDistances | common/trek/chamberhandler.cpp:102-108 | in a concrete event, wire 0's only distance comes from time 20, yet the returned track reports time 5 |
| ChamberHandler.EligibilityExamples | common/trek/chamberhandler.cpp:62-68 | counts (0,1,1,1) give depth 0, counts (2,2,2,2) give depth 2, and counts (1,2,1,1) give depth 1 |
| ChamberHandler.CombinationExample | common/trek/chamberhandler.cpp:33-36 | counts (1,2,1,1) give the two combinations (0,0,0,0) and then (0,1,0,0) |

## Left out

- **Trigonometry.** `std::atan` and `std::cos` in `getSystemError`
  (chamberhandler.cpp:84, 90-92) are not modelled. The factor `1/cos(atan(k)) - 1`
  is a function parameter.
- **IEEE-754 arithmetic.**
  - Doubles are exact reals, so rounding, overflow and NaN are not modelled.
  - `std::pow(2, 4)` is the constant 16.
  - `std::pow(x, 2)` is `x*x`.
- **The static scratch buffers** `tempPoints` and `tempLine`
  (chamberhandler.cpp:112-113) are local values.
  - Every variant overwrites all four points.
  - Every variant on the wire grid can be fitted.
  - So the values left over from an earlier call never reach a result. `VariantTrack` starts each fit from a default line.
- **Exceptions.** A `runtime_error` is the `Failure` side of a `Result`.
- **`size_t` widths.**
  - Vector sizes are unbounded naturals.
  - `GetDepth` starts from `SIZE_MAX` of a 64-bit target.
  - Loop counters that could overflow are not modelled.
- **Other headers.** `common/trek/chamberhandler.hpp` declares an unrelated, stale
  class and is not part of this model. The `vecmath` types are plain datatypes.
  The `ChamberConfig` map and the `tdcdata` structures are not used by the
  reconstruction and are not part of this model.
- **Getters.** The getters of `WireParameters` and `ChamberDescription`
  (trektypes.hpp:28-29, 53-56) are datatype field selectors. The
  `ChamberDescription` constructor is the datatype constructor. Neither carries a
  contract of its own.
- **Index-aligned times.** No lemma states that a track's times match its
  distances, because the code does not keep them aligned.
