/**
 Track reconstruction of `trek::ChamberHandler` (common/trek/chamberhandler.cpp):
 raw TDC times become drift distances, every choice of one distance per wire
 and every left/right sign assignment is fitted with a line, the first track
 of minimal deviation wins, and the winner gets the angle-dependent
 systematic correction.

 The correction factor `1/cos(atan(k)) - 1` is a parameter `secExcess` of the
 operations that need it: trigonometry is not modelled.
 */
module ChamberHandler {
  import opened TrekTypes
  import opened Results
  import opened Fitting
  import opened Odometer
  import opened Selection

  /** `sign(val)`: `(0 < val) - (val < 0)`. */
  function Sign(v: real): (s: int)
    ensures s == 1 <==> v > 0.0
    ensures s == -1 <==> v < 0.0
    ensures s == 0 <==> v == 0.0
  {
    (if 0.0 < v then 1 else 0) - (if v < 0.0 then 1 else 0)
  }

  /** `mWires`: each wire's position along the chamber (x) and nominal transverse offset (y). */
  const Wires: seq<Vec2> := [Vec2(41.0, 0.75), Vec2(51.0, -0.75), Vec2(61.0, 0.75), Vec2(71.0, -0.75)]

  /** The wires sit at increasing x, on alternating sides of the centre line. */
  lemma WiresAlternate()
    ensures |Wires| == WireCount
    ensures forall j :: 0 <= j < |Wires| ==> Sign(Wires[j].y) == (if j % 2 == 0 then 1 else -1)
    ensures forall i, j :: 0 <= i < j < |Wires| ==> Wires[i].x < Wires[j].x
  {
  }

  // ---------------------------------------------------------------------------
  // getDistances

  /** `msr - offset` on `uint32_t`, which wraps around modulo 2^32. */
  function UInt32Sub(a: uint32, b: uint32): uint32
  {
    (a - b) % UInt32Modulus
  }

  /** `(msr - offset) * speed`, with the subtraction done on `uint32_t`. */
  function DriftDistance(msr: uint32, p: WireParameters): real
  {
    UInt32Sub(msr, p.offset) as real * p.speed
  }

  /** For a time above the offset the unsigned subtraction does not wrap. */
  lemma DriftDistanceExact(msr: uint32, p: WireParameters)
    requires msr > p.offset
    ensures DriftDistance(msr, p) == (msr - p.offset) as real * p.speed
  {
    assert UInt32Sub(msr, p.offset) == msr - p.offset;
  }

  /** The distances of one wire: each time above the offset, shifted and scaled, in order. */
  function WireDistances(times: seq<uint32>, p: WireParameters): (ds: seq<real>)
    ensures |ds| <= |times|
  {
    if |times| == 0 then []
    else
      var ds := WireDistances(times[..|times| - 1], p);
      var msr := times[|times| - 1];
      if msr > p.offset then ds + [DriftDistance(msr, p)] else ds
  }

  /** The positions in `times` of the times strictly above `offset`, in increasing order. */
  function KeptIndices(times: seq<uint32>, offset: uint32): (ks: seq<nat>)
    ensures forall k :: 0 <= k < |ks| ==> ks[k] < |times|
  {
    if |times| == 0 then []
    else
      var ks := KeptIndices(times[..|times| - 1], offset);
      if times[|times| - 1] > offset then ks + [|times| - 1] else ks
  }

  lemma {:induction false} KeptIndicesLength(times: seq<uint32>, p: WireParameters)
    ensures |WireDistances(times, p)| == |KeptIndices(times, p.offset)|
  {
    if |times| > 0 {
      KeptIndicesLength(times[..|times| - 1], p);
    }
  }

  /** A position is kept exactly when its time is strictly above the offset. */
  lemma {:induction false} KeptIndicesExact(times: seq<uint32>, offset: uint32)
    ensures forall i :: 0 <= i < |times| ==> (times[i] > offset <==> i in KeptIndices(times, offset))
  {
    if |times| > 0 {
      var front := times[..|times| - 1];
      KeptIndicesExact(front, offset);
      assert forall i :: 0 <= i < |front| ==> times[i] == front[i];
    }
  }

  /** Kept positions keep the original order. */
  lemma {:induction false} KeptIndicesIncreasing(times: seq<uint32>, offset: uint32)
    ensures forall k, l :: 0 <= k < l < |KeptIndices(times, offset)| ==>
      KeptIndices(times, offset)[k] < KeptIndices(times, offset)[l]
  {
    if |times| > 0 {
      var front := times[..|times| - 1];
      KeptIndicesIncreasing(front, offset);
      var ks0 := KeptIndices(front, offset);
      assert KeptIndices(times, offset) == if times[|times| - 1] > offset then ks0 + [|times| - 1] else ks0;
    }
  }

  /** Distance k is the drift distance of the k-th kept time. */
  lemma {:induction false} KeptDistanceValues(times: seq<uint32>, p: WireParameters)
    ensures |WireDistances(times, p)| == |KeptIndices(times, p.offset)|
    ensures var ks := KeptIndices(times, p.offset);
      forall k :: 0 <= k < |ks| ==>
        times[ks[k]] > p.offset && WireDistances(times, p)[k] == DriftDistance(times[ks[k]], p)
  {
    KeptIndicesLength(times, p);
    if |times| > 0 {
      var front := times[..|times| - 1];
      KeptDistanceValues(front, p);
      KeptIndicesLength(front, p);
      var ks0 := KeptIndices(front, p.offset);
      var ds0 := WireDistances(front, p);
      var ks := KeptIndices(times, p.offset);
      var ds := WireDistances(times, p);
      assert forall k :: 0 <= k < |ks0| ==> times[ks0[k]] == front[ks0[k]];
      var msr := times[|times| - 1];
      assert ks == if msr > p.offset then ks0 + [|times| - 1] else ks0;
      assert ds == if msr > p.offset then ds0 + [DriftDistance(msr, p)] else ds0;
    }
  }

  /** `getDistances`: the distances of every wire, with that wire's calibration. */
  function GetDistances(times: ChamberTimes, chamber: ChamberDescription): (d: ChamberDistances)
    ensures forall w :: 0 <= w < WireCount ==> |d[w]| <= |times[w]|
  {
    seq(WireCount, w requires 0 <= w < WireCount => WireDistances(times[w], chamber.parameters[w]))
  }

  // ---------------------------------------------------------------------------
  // getDepth

  /** `std::numeric_limits<size_t>::max()` on a 64-bit target. */
  const SizeMax: nat := 0xFFFF_FFFF_FFFF_FFFF

  /** The loop of `getDepth` from wire `w` on, with `depth` the minimum so far. */
  function DepthFrom(d: ChamberDistances, w: nat, depth: nat): (r: nat)
    requires w <= WireCount
    ensures r <= depth
    ensures forall j :: w <= j < WireCount ==> r <= |d[j]|
    ensures r == depth || exists j :: w <= j < WireCount && r == |d[j]|
    decreases WireCount - w
  {
    if w == WireCount then depth
    else DepthFrom(d, w + 1, if |d[w]| < depth then |d[w]| else depth)
  }

  /**
   `getDepth`: the smallest per-wire candidate count (capped by the start value
   `SIZE_MAX`, which no vector's size exceeds).
   */
  function GetDepth(d: ChamberDistances): (depth: nat)
    ensures forall w :: 0 <= w < WireCount ==> depth <= |d[w]|
    ensures depth == SizeMax || exists w :: 0 <= w < WireCount && depth == |d[w]|
  {
    DepthFrom(d, 0, SizeMax)
  }

  /**
   The eligibility rule: depth 1 exactly when no wire is empty and at least one
   wire has a single candidate.
   */
  lemma DepthOneMeansAnchored(d: ChamberDistances)
    ensures GetDepth(d) == 1 <==>
      (forall w :: 0 <= w < WireCount ==> |d[w]| >= 1) && (exists w :: 0 <= w < WireCount && |d[w]| == 1)
  {
  }

  // ---------------------------------------------------------------------------
  // createTrackDistances, createTrackTimes

  /** Whether every wire has at least one entry. */
  predicate NoWireEmpty<T>(lists: seq<seq<T>>)
  {
    forall w :: 0 <= w < |lists| ==> |lists[w]| > 0
  }

  /** Entry `i % size` of a non-empty list: always in range. */
  function Pick<T>(list: seq<T>, i: nat): (x: T)
    requires |list| > 0
    ensures x in list
    ensures i < |list| ==> x == list[i]
  {
    list[i % |list|]
  }

  /** Entry `indices[i] % size` of every wire's list: the loop shared by the two functions below. */
  function PickEach<T>(lists: seq<seq<T>>, indices: Indices): (r: seq<T>)
    requires |lists| == WireCount && NoWireEmpty(lists)
    ensures |r| == WireCount
    ensures forall w :: 0 <= w < WireCount ==> r[w] in lists[w]
    ensures forall w :: 0 <= w < WireCount && indices[w] < |lists[w]| ==> r[w] == lists[w][indices[w]]
  {
    seq(WireCount, w requires 0 <= w < WireCount => Pick(lists[w], indices[w]))
  }

  /** `createTrackDistances`: one distance per wire. */
  function CreateTrackDistances(d: ChamberDistances, indices: Indices): TrackDistances
    requires NoWireEmpty(d)
  {
    PickEach(d, indices)
  }

  /** `createTrackTimes`: one raw time per wire, indexed like the distances. */
  function CreateTrackTimes(times: ChamberTimes, indices: Indices): TrackTimes
    requires NoWireEmpty(times)
  {
    PickEach(times, indices)
  }

  // ---------------------------------------------------------------------------
  // createTrackDescription(TrackDistances): the 16 left/right variants

  /** `std::pow(2, distances.size())`. */
  const NumPermutations: nat := 16

  /** `i & (1 << j)`: whether sign variant `mask` flips wire `j`. */
  predicate Flipped(mask: nat, j: nat)
    requires mask < NumPermutations && j < WireCount
  {
    (mask as bv4) & ((1 as bv4) << j) != 0
  }

  /** The points of sign variant `mask`: wire x, wire y plus or minus the distance. */
  function VariantPoints(dist: TrackDistances, mask: nat): (ps: seq<Vec2>)
    requires mask < NumPermutations
    ensures |ps| == |Wires|
    ensures forall j :: 0 <= j < |ps| ==> ps[j].x == Wires[j].x
    ensures forall j :: 0 <= j < |ps| ==> ps[j].y - Wires[j].y == (if FlipsOf(mask)[j] then -dist[j] else dist[j])
  {
    seq(WireCount, j requires 0 <= j < WireCount =>
      Vec2(Wires[j].x, (if Flipped(mask, j) then -dist[j] else dist[j]) + Wires[j].y))
  }

  /** The wires a mask flips. */
  function FlipsOf(mask: nat): (flips: seq<bool>)
    requires mask < NumPermutations
    ensures |flips| == WireCount
  {
    seq(WireCount, j requires 0 <= j < WireCount => Flipped(mask, j))
  }

  /** A mask is the binary number its flips spell, wire 0 the lowest bit. */
  lemma MaskFromFlips(mask: nat)
    requires mask < NumPermutations
    ensures mask == (if Flipped(mask, 0) then 1 else 0) + (if Flipped(mask, 1) then 2 else 0)
                  + (if Flipped(mask, 2) then 4 else 0) + (if Flipped(mask, 3) then 8 else 0)
  {
  }

  /** Every assignment of flips to the four wires is made by exactly one mask. */
  lemma SignVariantsCoverAllAssignments(flips: seq<bool>)
    requires |flips| == WireCount
    ensures exists mask :: 0 <= mask < NumPermutations && FlipsOf(mask) == flips
    ensures forall m1, m2 ::
      (0 <= m1 < NumPermutations && 0 <= m2 < NumPermutations && FlipsOf(m1) == flips && FlipsOf(m2) == flips)
      ==> m1 == m2
  {
    var mask := (if flips[0] then 1 else 0) + (if flips[1] then 2 else 0)
              + (if flips[2] then 4 else 0) + (if flips[3] then 8 else 0);
    assert FlipsOf(mask) == flips;
    forall m1, m2 | 0 <= m1 < NumPermutations && 0 <= m2 < NumPermutations
      && FlipsOf(m1) == flips && FlipsOf(m2) == flips
      ensures m1 == m2
    {
      MaskFromFlips(m1);
      MaskFromFlips(m2);
      assert FlipsOf(m1)[0] == FlipsOf(m2)[0] && FlipsOf(m1)[1] == FlipsOf(m2)[1];
      assert FlipsOf(m1)[2] == FlipsOf(m2)[2] && FlipsOf(m1)[3] == FlipsOf(m2)[3];
    }
  }

  /** The x coordinates of the wires make the fit's denominator 2000, whatever the y coordinates. */
  lemma WireGridDenominator(ps: seq<Vec2>)
    requires |ps| == |Wires|
    requires forall j :: 0 <= j < |ps| ==> ps[j].x == Wires[j].x
    ensures Denominator(ps) == 2000.0
  {
    SumOfFour(ps, (p: Vec2) => p.x);
    SumOfFour(ps, (p: Vec2) => p.x * p.x);
    assert SumX(ps) == 224.0;
    assert SumXX(ps) == 13044.0;
  }

  lemma SumOfFour(ps: seq<Vec2>, f: Vec2 -> real)
    requires |ps| == 4
    ensures Sum(ps, f) == f(ps[0]) + f(ps[1]) + f(ps[2]) + f(ps[3])
  {
    var t1, t2, t3 := ps[1..], ps[2..], ps[3..];
    assert t1[1..] == t2 && t2[1..] == t3 && t3[1..] == [];
    assert Sum(t3, f) == f(ps[3]) + Sum([], f);
    assert Sum(t2, f) == f(ps[2]) + Sum(t3, f);
    assert Sum(t1, f) == f(ps[1]) + Sum(t2, f);
  }

  /** Any four points at the wires' x coordinates can be fitted. */
  lemma WireGridFittable(ps: seq<Vec2>)
    requires |ps| == |Wires|
    requires forall j :: 0 <= j < |ps| ==> ps[j].x == Wires[j].x
    ensures FitLine(ps).Fitted?
  {
    WireGridDenominator(ps);
  }

  /** Sign variant `mask` fitted with `leastSquares` (the fitter's line argument starts as a default line). */
  function VariantTrack(dist: TrackDistances, mask: nat): (t: TrackDescription)
    requires mask < NumPermutations
    ensures t.points == VariantPoints(dist, mask)
  {
    var pts := VariantPoints(dist, mask);
    var fit := LeastSquares(pts, DefaultLine);
    TrackDescription(fit.line, pts, Val(fit.deviation), NoTimes)
  }

  /** The 16 sign variants in the order the mask loop visits them. */
  function Variants(dist: TrackDistances): (vs: seq<TrackDescription>)
    ensures |vs| == NumPermutations
  {
    seq(NumPermutations, m requires 0 <= m < NumPermutations => VariantTrack(dist, m))
  }

  /**
   `createTrackDescription(distances)`: the first sign variant of minimal
   deviation, or `Unset` when no variant can be fitted.
   */
  function SignSearch(dist: TrackDistances): (t: TrackDescription)
    ensures t == Unset || t in Variants(dist)
    ensures |t.points| <= |Wires|
  {
    KeepBest(Variants(dist))
  }

  /**
   Every variant can be fitted, so the search always finds the first variant
   of minimal deviation; its deviation is at most the squared residuals of
   any line against any of the 16 sign variants.
   */
  lemma SignSearchFindsBestVariant(dist: TrackDistances)
    ensures exists m :: IsFirstMinimum(Variants(dist), m) && SignSearch(dist) == Variants(dist)[m]
    ensures SignSearch(dist).deviation.Val? && SignSearch(dist).deviation.v >= 0.0
    ensures forall m, line :: 0 <= m < NumPermutations ==>
      SignSearch(dist).deviation.v <= SquaredResiduals(VariantPoints(dist, m), line)
  {
    var vs := Variants(dist);
    forall m | 0 <= m < NumPermutations
      ensures Scored(vs[m].deviation) && FitLine(VariantPoints(dist, m)) == Fitted(vs[m].line, vs[m].deviation.v)
    {
      WireGridFittable(VariantPoints(dist, m));
    }
    KeepBestIsFirstMinimum(vs);
    assert Scored(vs[0].deviation);
    var w :| IsFirstMinimum(vs, w) && SignSearch(dist) == vs[w];
    forall m, line | 0 <= m < NumPermutations
      ensures SignSearch(dist).deviation.v <= SquaredResiduals(VariantPoints(dist, m), line)
    {
      FitIsOptimal(VariantPoints(dist, m), line);
    }
  }

  // ---------------------------------------------------------------------------
  // systemError

  /** Largest r used for a point on the same side as its wire. */
  const SameSideLimit: real := 6.2

  /** Largest r used for a point on the opposite side from its wire. */
  const OppositeSideLimit: real := 3.6

  /** `r`: the point's y, or the (positive) limit when |y| exceeds it. */
  function ClampedRadius(y: real, limit: real): real
  {
    if Abs(y) > limit then limit else y
  }

  /** `getSystemError(r, atan(k))`, with `secExcess(k)` standing for `1/cos(atan(k)) - 1`. */
  function GetSystemError(r: real, slope: real, secExcess: real -> real): (e: real)
    ensures Abs(e) == Abs(r) * Abs(secExcess(slope))
    ensures Sign(e) == Sign(r) * Sign(secExcess(slope))
  {
    r * secExcess(slope)
  }

  /** +1 for a point on its wire's side of the centre line, -1 for the other side, 0 on it. */
  function Side(p: Vec2, wire: Vec2): int
  {
    Sign(p.y) * Sign(wire.y)
  }

  /** One iteration of the `systemError` loop: `None` stands for `return false`. */
  function CorrectPoint(p: Vec2, wire: Vec2, slope: real, secExcess: real -> real): Option<Vec2>
  {
    var s := Sign(p.y);
    var side := Side(p, wire);
    if side == 1 then
      Some(p.(y := p.y + s as real * GetSystemError(ClampedRadius(p.y, SameSideLimit), slope, secExcess)))
    else if side == -1 then
      Some(p.(y := p.y + s as real * GetSystemError(ClampedRadius(p.y, OppositeSideLimit), slope, secExcess)))
    else
      None
  }

  function Min(a: real, b: real): real
  {
    if a <= b then a else b
  }

  /**
   The shift applied to a point off the centre line: min(|y|, limit) times the
   correction factor, except below the centre line beyond the limit, where it
   is -limit times the factor. The limit is 6.2 on the wire's side and 3.6 on
   the other.
   */
  lemma CorrectionShift(p: Vec2, i: nat, slope: real, secExcess: real -> real)
    requires i < |Wires| && p.y != 0.0
    ensures var limit := if Sign(p.y) == Sign(Wires[i].y) then SameSideLimit else OppositeSideLimit;
      var shift := if p.y < 0.0 && Abs(p.y) > limit then -limit else Min(Abs(p.y), limit);
      CorrectPoint(p, Wires[i], slope, secExcess) == Some(Vec2(p.x, p.y + shift * secExcess(slope)))
  {
    WiresAlternate();
  }

  /** A point is left without a correction exactly when it lies on the centre line. */
  lemma CorrectPointDefined(p: Vec2, i: nat, slope: real, secExcess: real -> real)
    requires i < |Wires|
    ensures CorrectPoint(p, Wires[i], slope, secExcess).None? <==> p.y == 0.0
    ensures CorrectPoint(p, Wires[i], slope, secExcess).Some? ==>
      CorrectPoint(p, Wires[i], slope, secExcess).value.x == p.x
  {
    WiresAlternate();
  }

  /** The corrected points of the `systemError` loop, or `None` when it returns false. */
  function CorrectPoints(ps: seq<Vec2>, slope: real, secExcess: real -> real): (r: Option<seq<Vec2>>)
    requires |ps| <= |Wires|
    ensures r.None? <==> exists i :: 0 <= i < |ps| && ps[i].y == 0.0
    ensures r.Some? ==> |r.value| == |ps| && forall i :: 0 <= i < |ps| ==> r.value[i].x == ps[i].x
    ensures r.Some? ==> forall i :: 0 <= i < |ps| ==> Some(r.value[i]) == CorrectPoint(ps[i], Wires[i], slope, secExcess)
  {
    var corrected := seq(|ps|, i requires 0 <= i < |ps| => CorrectPoint(ps[i], Wires[i], slope, secExcess));
    forall i | 0 <= i < |ps|
      ensures corrected[i].None? <==> ps[i].y == 0.0
      ensures corrected[i].Some? ==> corrected[i].value.x == ps[i].x
    {
      CorrectPointDefined(ps[i], i, slope, secExcess);
    }
    if exists i :: 0 <= i < |ps| && corrected[i].None? then None
    else Some(seq(|ps|, i requires 0 <= i < |ps| => corrected[i].value))
  }

  /**
   `systemError(track)`: `None` when some point lies on the centre line;
   otherwise every point's y is corrected with the slope of the track's line
   and the points are re-fitted. The re-fit's deviation is stored even when it
   is the -1 of an unfittable set, and the line is then left as it was.
   */
  function SystemError(t: TrackDescription, secExcess: real -> real): (r: Option<TrackDescription>)
    requires |t.points| <= |Wires|
    ensures r.None? <==> exists i :: 0 <= i < |t.points| && t.points[i].y == 0.0
    ensures r.Some? ==> |r.value.points| == |t.points| && r.value.times == t.times
    ensures r.Some? ==> forall i :: 0 <= i < |t.points| ==> r.value.points[i].x == t.points[i].x
    ensures r.Some? ==> forall i :: 0 <= i < |t.points| ==>
      Some(r.value.points[i]) == CorrectPoint(t.points[i], Wires[i], t.line.k, secExcess)
    ensures r.Some? ==> r.value.deviation.Val?
    ensures r.Some? ==> (r.value.deviation.v == UnfittableDeviation <==> FitLine(r.value.points).Unfittable?)
    ensures r.Some? ==>
      (r.value.deviation.v == UnfittableDeviation && r.value.line == t.line)
      || FitLine(r.value.points) == Fitted(r.value.line, r.value.deviation.v)
  {
    match CorrectPoints(t.points, t.line.k, secExcess)
    case None => None
    case Some(pts) =>
      var fit := LeastSquares(pts, t.line);
      Some(t.(points := pts, line := fit.line, deviation := Val(fit.deviation)))
  }

  /** The point `CorrectionShift` describes: `p` moved in y by the clamped shift times the factor. */
  function ShiftedPoint(p: Vec2, i: nat, slope: real, secExcess: real -> real): Vec2
    requires i < |Wires|
  {
    var limit := if Sign(p.y) == Sign(Wires[i].y) then SameSideLimit else OppositeSideLimit;
    var shift := if p.y < 0.0 && Abs(p.y) > limit then -limit else Min(Abs(p.y), limit);
    Vec2(p.x, p.y + shift * secExcess(slope))
  }

  /**
   Every point `systemError` returns is the input point shifted in y by the
   closed-form amount of `CorrectionShift`.
   */
  lemma SystemErrorShiftsEachPoint(t: TrackDescription, secExcess: real -> real, i: nat)
    requires |t.points| <= |Wires| && i < |t.points|
    requires forall j :: 0 <= j < |t.points| ==> t.points[j].y != 0.0
    ensures SystemError(t, secExcess).Some?
    ensures SystemError(t, secExcess).value.points[i] == ShiftedPoint(t.points[i], i, t.line.k, secExcess)
  {
    var q := SystemError(t, secExcess).value.points[i];
    assert Some(q) == CorrectPoint(t.points[i], Wires[i], t.line.k, secExcess);
    assert t.points[i].y != 0.0;
    CorrectedPointIsShifted(t.points[i], q, i, t.line.k, secExcess);
  }

  lemma CorrectedPointIsShifted(p: Vec2, q: Vec2, i: nat, slope: real, secExcess: real -> real)
    requires i < |Wires| && p.y != 0.0
    requires Some(q) == CorrectPoint(p, Wires[i], slope, secExcess)
    ensures q == ShiftedPoint(p, i, slope, secExcess)
  {
    CorrectionShift(p, i, slope, secExcess);
  }

  /** With fewer than two points the re-fit fails, yet `systemError` still succeeds, with deviation -1. */
  lemma SystemErrorKeepsUnfittableDeviation(t: TrackDescription, secExcess: real -> real)
    requires |t.points| < 2
    requires forall i :: 0 <= i < |t.points| ==> t.points[i].y != 0.0
    ensures SystemError(t, secExcess).Some?
    ensures SystemError(t, secExcess).value.deviation == Val(UnfittableDeviation)
    ensures SystemError(t, secExcess).value.line == t.line
  {
  }

  // ---------------------------------------------------------------------------
  // createTrackDescription(eventTimes, chamDesc)

  /** The number of distances on each wire: the bounds of the four nested loops. */
  function Counts(d: ChamberDistances): (counts: seq<nat>)
    ensures |counts| == WireCount
    ensures forall w :: 0 <= w < WireCount ==> counts[w] == |d[w]|
  {
    seq(WireCount, w requires 0 <= w < WireCount => |d[w]|)
  }

  /** The index vectors in the order the nested loops visit them (wire 0 outermost). */
  function Combinations(d: ChamberDistances): (combos: seq<seq<nat>>)
    ensures |combos| == |d[0]| * |d[1]| * |d[2]| * |d[3]|
    ensures forall c :: 0 <= c < |combos| ==> InRange(combos[c], Counts(d))
  {
    var combos := Enumerate(Counts(d));
    forall c | 0 <= c < |combos|
      ensures InRange(combos[c], Counts(d))
    {
      EnumerateMembers(Counts(d), combos[c]);
    }
    assert Product(Counts(d)) == |d[0]| * |d[1]| * |d[2]| * |d[3]| by {
      var c0 := Counts(d);
      var c1, c2, c3 := c0[1..], c0[2..], c0[3..];
      assert c1[1..] == c2 && c2[1..] == c3 && c3[1..] == [];
      assert Product(c3) == |d[3]| * Product([]);
      assert Product(c2) == |d[2]| * Product(c3);
      assert Product(c1) == |d[1]| * Product(c2);
      assert Product(c0) == |d[0]| * Product(c1);
    }
    combos
  }

  /** The track of one combination: its best sign variant, stamped with the combination's times. */
  function Candidate(times: ChamberTimes, d: ChamberDistances, indices: Indices): (t: TrackDescription)
    requires NoWireEmpty(d) && NoWireEmpty(times)
    ensures |t.points| <= |Wires|
    ensures t.times == CreateTrackTimes(times, indices)
  {
    SignSearch(CreateTrackDistances(d, indices)).(times := CreateTrackTimes(times, indices))
  }

  /** One candidate per combination, in loop order. */
  function Candidates(times: ChamberTimes, d: ChamberDistances): (cs: seq<TrackDescription>)
    requires NoWireEmpty(d) && NoWireEmpty(times)
    ensures |cs| == |Combinations(d)|
    ensures forall c :: 0 <= c < |cs| ==> |cs[c].points| <= |Wires|
  {
    var combos := Combinations(d);
    seq(|combos|, c requires 0 <= c < |combos| => Candidate(times, d, combos[c]))
  }

  /** The candidates of an eligible event (depth 1 rules out empty wires). */
  function EventCandidates(times: ChamberTimes, chamber: ChamberDescription): (cs: seq<TrackDescription>)
    requires GetDepth(GetDistances(times, chamber)) == 1
    ensures NoWireEmpty(GetDistances(times, chamber)) && NoWireEmpty(times)
    ensures |cs| == |Combinations(GetDistances(times, chamber))|
    ensures forall c :: 0 <= c < |cs| ==> |cs[c].points| <= |Wires|
  {
    DepthOneMeansAnchored(GetDistances(times, chamber));
    Candidates(times, GetDistances(times, chamber))
  }

  /** The track the nested loops keep: the first candidate whose deviation is strictly the lowest. */
  function Winner(times: ChamberTimes, chamber: ChamberDescription): (t: TrackDescription)
    requires GetDepth(GetDistances(times, chamber)) == 1
    ensures t == Unset || t in EventCandidates(times, chamber)
    ensures |t.points| <= |Wires|
  {
    KeepBest(EventCandidates(times, chamber))
  }

  /** Why no track could be built; the source raises one and the same runtime error for all three. */
  datatype ReconstructionError =
    | DepthNotOne     // some wire is empty, or every wire has two or more distances
    | NoFittableTrack // no combination produced a track
    | UndefinedSide   // the winning track has a point on the chamber's centre line

  /**
   `createTrackDescription(eventTimes, chamDesc)`: the first minimal-deviation
   track over all combinations and sign variants, corrected by `systemError`.
   `secExcess(k)` stands for `1/cos(atan(k)) - 1`.
   */
  function Reconstruct(times: ChamberTimes, chamber: ChamberDescription, secExcess: real -> real)
    : (r: Result<TrackDescription, ReconstructionError>)
    ensures GetDepth(GetDistances(times, chamber)) != 1 <==> r == Failure(DepthNotOne)
  {
    if GetDepth(GetDistances(times, chamber)) != 1 then Failure(DepthNotOne)
    else
      var best := Winner(times, chamber);
      if best.deviation == Inf then Failure(NoFittableTrack)
      else
        match SystemError(best, secExcess)
        case None => Failure(UndefinedSide)
        case Some(t) => Success(t)
  }

  lemma PositiveProduct(a: nat, b: nat, c: nat, d: nat)
    requires a >= 1 && b >= 1 && c >= 1 && d >= 1
    ensures a * b * c * d >= 1
  {
    assert a * b >= 1;
    assert a * b * c >= 1;
  }

  /** Every candidate is scored and lies on the wire grid. */
  lemma CandidateOnGrid(times: ChamberTimes, d: ChamberDistances, indices: Indices)
    requires NoWireEmpty(d) && NoWireEmpty(times)
    ensures Scored(Candidate(times, d, indices).deviation)
    ensures Candidate(times, d, indices).deviation.v >= 0.0
    ensures |Candidate(times, d, indices).points| == |Wires|
    ensures forall j :: 0 <= j < |Wires| ==> Candidate(times, d, indices).points[j].x == Wires[j].x
  {
    var dist := CreateTrackDistances(d, indices);
    SignSearchFindsBestVariant(dist);
    var m :| IsFirstMinimum(Variants(dist), m) && SignSearch(dist) == Variants(dist)[m];
    assert Candidate(times, d, indices).points == VariantPoints(dist, m);
  }

  /**
   On an eligible event every combination yields a scored track, so the
   winner is the first candidate of minimal deviation: a four-point track at
   the wires' x coordinates, fitted with a non-negative deviation.
   */
  lemma WinnerIsFirstMinimum(times: ChamberTimes, chamber: ChamberDescription)
    requires GetDepth(GetDistances(times, chamber)) == 1
    ensures exists c :: (IsFirstMinimum(EventCandidates(times, chamber), c)
      && Winner(times, chamber) == EventCandidates(times, chamber)[c])
    ensures forall c :: IsFirstMinimum(EventCandidates(times, chamber), c) ==>
      Winner(times, chamber) == EventCandidates(times, chamber)[c]
    ensures Winner(times, chamber).deviation.Val? && Winner(times, chamber).deviation.v >= 0.0
    ensures |Winner(times, chamber).points| == |Wires|
    ensures forall j :: 0 <= j < |Wires| ==> Winner(times, chamber).points[j].x == Wires[j].x
  {
    var d := GetDistances(times, chamber);
    var cs := EventCandidates(times, chamber);
    var combos := Combinations(d);
    forall c | 0 <= c < |cs|
      ensures OnGrid(cs[c])
    {
      assert cs[c] == Candidate(times, d, combos[c]);
      CandidateOnGrid(times, d, combos[c]);
    }
    DepthOneMeansAnchored(d);
    PositiveProduct(|d[0]|, |d[1]|, |d[2]|, |d[3]|);
    GridWinner(cs);
    forall c | IsFirstMinimum(cs, c)
      ensures KeepBest(cs) == cs[c]
    {
      KeepBestIsEveryFirstMinimum(cs, c);
    }
  }

  /** A scored four-point track at the wires' x coordinates. */
  predicate OnGrid(t: TrackDescription)
  {
    && Scored(t.deviation)
    && t.deviation.v >= 0.0
    && |t.points| == |Wires|
    && forall j :: 0 <= j < |Wires| ==> t.points[j].x == Wires[j].x
  }

  lemma GridWinner(cs: seq<TrackDescription>)
    requires |cs| > 0
    requires forall c :: 0 <= c < |cs| ==> OnGrid(cs[c])
    ensures exists c :: IsFirstMinimum(cs, c) && KeepBest(cs) == cs[c]
    ensures OnGrid(KeepBest(cs)) && KeepBest(cs).deviation.v >= 0.0
  {
    assert Scored(cs[0].deviation);
    KeepBestIsFirstMinimum(cs);
    var w :| IsFirstMinimum(cs, w) && KeepBest(cs) == cs[w];
    assert OnGrid(cs[w]);
  }

  /**
   The winner's deviation is at most the squared residuals of ANY line against
   ANY sign variant of ANY combination: the search is exhaustive.
   */
  lemma WinnerBeatsEveryHypothesis(times: ChamberTimes, chamber: ChamberDescription, c: nat, m: nat, line: Line2)
    requires GetDepth(GetDistances(times, chamber)) == 1
    requires c < |Combinations(GetDistances(times, chamber))| && m < NumPermutations
    ensures NoWireEmpty(GetDistances(times, chamber))
    ensures Winner(times, chamber).deviation.Val?
    ensures Winner(times, chamber).deviation.v <= SquaredResiduals(
      VariantPoints(CreateTrackDistances(GetDistances(times, chamber), Combinations(GetDistances(times, chamber))[c]), m), line)
  {
    var d := GetDistances(times, chamber);
    var cs := EventCandidates(times, chamber);
    var dist := CreateTrackDistances(d, Combinations(d)[c]);
    WinnerIsFirstMinimum(times, chamber);
    SignSearchFindsBestVariant(dist);
    assert cs[c] == Candidate(times, d, Combinations(d)[c]);
    assert cs[c].deviation == SignSearch(dist).deviation;
  }

  /**
   On an eligible event the call fails only when the winner has a point on the
   centre line; otherwise it returns the winner corrected by `systemError`.
   */
  lemma ReconstructOutcome(times: ChamberTimes, chamber: ChamberDescription, secExcess: real -> real)
    requires GetDepth(GetDistances(times, chamber)) == 1
    ensures Reconstruct(times, chamber, secExcess).Failure? <==>
      exists j :: 0 <= j < |Winner(times, chamber).points| && Winner(times, chamber).points[j].y == 0.0
    ensures Reconstruct(times, chamber, secExcess).Failure? ==>
      Reconstruct(times, chamber, secExcess).error == UndefinedSide
    ensures Reconstruct(times, chamber, secExcess).Success? ==>
      Some(Reconstruct(times, chamber, secExcess).value) == SystemError(Winner(times, chamber), secExcess)
  {
    WinnerIsFirstMinimum(times, chamber);
    var best := Winner(times, chamber);
    assert best.deviation != Inf;
    assert Reconstruct(times, chamber, secExcess) ==
      match SystemError(best, secExcess)
      case None => Failure(UndefinedSide)
      case Some(t) => Success(t);
  }

  /**
   A reconstructed track has one point per wire at the wire's x coordinate,
   its line is the least-squares fit of those points, and its deviation is
   that fit's non-negative sum of squared residuals.
   */
  lemma ReconstructedTrackIsFitted(times: ChamberTimes, chamber: ChamberDescription, secExcess: real -> real)
    requires Reconstruct(times, chamber, secExcess).Success?
    ensures var t := Reconstruct(times, chamber, secExcess).value;
      && |t.points| == |Wires|
      && (forall j :: 0 <= j < |Wires| ==> t.points[j].x == Wires[j].x)
      && t.deviation.Val? && t.deviation.v >= 0.0
      && FitLine(t.points) == Fitted(t.line, t.deviation.v)
  {
    WinnerIsFirstMinimum(times, chamber);
    ReconstructOutcome(times, chamber, secExcess);
    CorrectedGridTrackIsFitted(Winner(times, chamber), secExcess);
  }

  /** Correcting a track on the wire grid keeps it on the grid, so the re-fit succeeds. */
  lemma CorrectedGridTrackIsFitted(w: TrackDescription, secExcess: real -> real)
    requires |w.points| == |Wires|
    requires forall j :: 0 <= j < |Wires| ==> w.points[j].x == Wires[j].x
    requires SystemError(w, secExcess).Some?
    ensures var t := SystemError(w, secExcess).value;
      && |t.points| == |Wires|
      && (forall j :: 0 <= j < |Wires| ==> t.points[j].x == Wires[j].x)
      && t.deviation.Val? && t.deviation.v >= 0.0
      && FitLine(t.points) == Fitted(t.line, t.deviation.v)
  {
    var t := SystemError(w, secExcess).value;
    WireGridFittable(t.points);
  }

  /** A point of a sign variant lies on the centre line only when its distance equals the wire's stagger. */
  lemma VariantOffCentre(dist: TrackDistances, mask: nat)
    requires mask < NumPermutations
    requires forall j :: 0 <= j < WireCount ==> Abs(dist[j]) != Abs(Wires[j].y)
    ensures forall j :: 0 <= j < WireCount ==> VariantPoints(dist, mask)[j].y != 0.0
  {
  }

  /**
   When no distance of an eligible event equals the wire stagger (0.75), the
   call succeeds: no winning point can land on the centre line.
   */
  lemma ReconstructSucceedsOffStagger(times: ChamberTimes, chamber: ChamberDescription, secExcess: real -> real)
    requires GetDepth(GetDistances(times, chamber)) == 1
    requires forall w, i :: 0 <= w < WireCount && 0 <= i < |GetDistances(times, chamber)[w]| ==>
      Abs(GetDistances(times, chamber)[w][i]) != Abs(Wires[w].y)
    ensures Reconstruct(times, chamber, secExcess).Success?
  {
    var d := GetDistances(times, chamber);
    var cs := EventCandidates(times, chamber);
    WinnerIsFirstMinimum(times, chamber);
    var c :| IsFirstMinimum(cs, c) && Winner(times, chamber) == cs[c];
    var dist := CreateTrackDistances(d, Combinations(d)[c]);
    assert cs[c] == Candidate(times, d, Combinations(d)[c]);
    SignSearchFindsBestVariant(dist);
    var m :| IsFirstMinimum(Variants(dist), m) && SignSearch(dist) == Variants(dist)[m];
    VariantOffCentre(dist, m);
    assert Winner(times, chamber).points == VariantPoints(dist, m);
    ReconstructOutcome(times, chamber, secExcess);
  }

  /** A chamber whose four wires all have offset 10 and unit drift speed. */
  const ExampleChamber: ChamberDescription := ChamberDescription(
    [Vec3(0.0, 0.0, 0.0), Vec3(0.0, 0.0, 0.0), Vec3(0.0, 0.0, 0.0)],
    [WireParameters(10, 1.0), WireParameters(10, 1.0), WireParameters(10, 1.0), WireParameters(10, 1.0)],
    0, 0)

  /** Wire 0 has an early time (5, dropped by the offset) before a kept one (20). */
  const ExampleTimes: ChamberTimes := [[5, 20], [20], [20], [20]]

  /** Wire 0 drops its time 5; every wire keeps 20 as distance 10. */
  lemma ExampleDistances()
    ensures GetDistances(ExampleTimes, ExampleChamber) == [[10.0], [10.0], [10.0], [10.0]]
  {
    var p := WireParameters(10, 1.0);
    assert [5, 20][..1] == [5] && [5][..0] == [] && [20][..0] == [];
    assert WireDistances([5], p) == [];
    assert WireDistances([5, 20], p) == [10.0];
    assert WireDistances([20], p) == [10.0];
  }

  /** One distance per wire gives the single combination (0, 0, 0, 0). */
  lemma SingleCombination(d: ChamberDistances)
    requires forall w :: 0 <= w < WireCount ==> |d[w]| == 1
    ensures Combinations(d) == [[0, 0, 0, 0]]
  {
    var combos := Combinations(d);
    assert |combos| == 1;
    var v := combos[0];
    assert InRange(v, Counts(d));
    assert v[0] == 0 && v[1] == 0 && v[2] == 0 && v[3] == 0;
    assert v == [0, 0, 0, 0];
  }

  /** A returned track carries the winner's times. */
  lemma ReconstructKeepsWinnerTimes(times: ChamberTimes, chamber: ChamberDescription, secExcess: real -> real)
    requires Reconstruct(times, chamber, secExcess).Success?
    ensures GetDepth(GetDistances(times, chamber)) == 1
    ensures Reconstruct(times, chamber, secExcess).value.times == Winner(times, chamber).times
  {
    ReconstructOutcome(times, chamber, secExcess);
  }

  /** The example's only candidate takes its times from index 0 of every wire's raw list. */
  lemma ExampleWinnerTimes()
    requires GetDepth(GetDistances(ExampleTimes, ExampleChamber)) == 1
    requires Combinations(GetDistances(ExampleTimes, ExampleChamber)) == [[0, 0, 0, 0]]
    ensures Winner(ExampleTimes, ExampleChamber).times == [5, 20, 20, 20]
  {
    var d := GetDistances(ExampleTimes, ExampleChamber);
    var cs := EventCandidates(ExampleTimes, ExampleChamber);
    WinnerIsFirstMinimum(ExampleTimes, ExampleChamber);
    assert cs[0] == Candidate(ExampleTimes, d, [0, 0, 0, 0]);
    var tt := CreateTrackTimes(ExampleTimes, [0, 0, 0, 0]);
    assert tt[0] == 5 && tt[1] == 20 && tt[2] == 20 && tt[3] == 20;
    assert cs[0].times == [5, 20, 20, 20];
  }

  /**
   The reported times are not aligned with the distances: wire 0's only
   distance comes from its time 20, yet the track reports time 5, because the
   combination's index is applied to the raw times.
   */
  lemma TimesNotAlignedWithDistances(secExcess: real -> real)
    ensures GetDistances(ExampleTimes, ExampleChamber) == [[10.0], [10.0], [10.0], [10.0]]
    ensures Reconstruct(ExampleTimes, ExampleChamber, secExcess).Success?
    ensures Reconstruct(ExampleTimes, ExampleChamber, secExcess).value.times == [5, 20, 20, 20]
  {
    ExampleDistances();
    var d := GetDistances(ExampleTimes, ExampleChamber);
    DepthOneMeansAnchored(d);
    ReconstructSucceedsOffStagger(ExampleTimes, ExampleChamber, secExcess);
    SingleCombination(d);
    ExampleWinnerTimes();
    ReconstructKeepsWinnerTimes(ExampleTimes, ExampleChamber, secExcess);
  }

  /**
   The eligibility rule on small examples: an empty wire or no single-hit wire
   rejects the event, one single-hit wire among non-empty ones admits it.
   */
  lemma EligibilityExamples()
    ensures GetDepth([[], [1.0], [1.0], [1.0]]) == 0
    ensures GetDepth([[1.0, 2.0], [1.0, 2.0], [1.0, 2.0], [1.0, 2.0]]) == 2
    ensures GetDepth([[1.0], [1.0, 2.0], [1.0], [1.0]]) == 1
  {
    DepthOneMeansAnchored([[1.0], [1.0, 2.0], [1.0], [1.0]]);
  }

  /** Counts (1, 2, 1, 1) give two combinations, visited with wire 1's index rising. */
  lemma CombinationExample()
    ensures Combinations([[1.0], [1.0, 2.0], [1.0], [1.0]]) == [[0, 0, 0, 0], [0, 1, 0, 0]]
  {
    var d: ChamberDistances := [[1.0], [1.0, 2.0], [1.0], [1.0]];
    var combos := Combinations(d);
    assert Counts(d) == [1, 2, 1, 1];
    assert |combos| == 2;
    EnumerateIncreasing(Counts(d));
    OrderedPairOfOneTwoOneOne(combos[0], combos[1]);
  }

  lemma OrderedPairOfOneTwoOneOne(a: seq<nat>, b: seq<nat>)
    requires InRange(a, [1, 2, 1, 1]) && InRange(b, [1, 2, 1, 1]) && LexLess(a, b)
    ensures a == [0, 0, 0, 0] && b == [0, 1, 0, 0]
  {
    assert a[0] == 0 && b[0] == 0 && a[2] == 0 && b[2] == 0 && a[3] == 0 && b[3] == 0;
    assert !LexLess(a[3..][1..], b[3..][1..]);
    assert !LexLess(a[3..], b[3..]);
    assert a[2..][1..] == a[3..] && b[2..][1..] == b[3..];
    assert !LexLess(a[2..], b[2..]);
    assert a[1..][1..] == a[2..] && b[1..][1..] == b[2..];
    assert LexLess(a[1..], b[1..]);
    assert a[1] < b[1];
  }
}
