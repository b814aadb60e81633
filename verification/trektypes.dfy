/**
 Data model of the drift-chamber reconstruction (common/trek/trektypes.hpp).

 The four-wire `std::array` aliases become sequences whose length is fixed to 4
 by a subset type, so "one entry per wire, in wire order" holds by construction.
 `double` is modelled as `real`, `uint32_t` as the subset type `uint32`.
 */
module TrekTypes {

  const UInt32Modulus: int := 0x1_0000_0000

  /** `uint32_t`. */
  type uint32 = x: int | 0 <= x < UInt32Modulus

  /** The number of sense wires in one chamber. */
  const WireCount: nat := 4

  /** Raw TDC hit times, one list per wire (`ChamberTimes`). */
  type ChamberTimes = s: seq<seq<uint32>> | |s| == WireCount witness [[], [], [], []]

  /** Drift distances, one list per wire (`ChamberDistances`). */
  type ChamberDistances = s: seq<seq<real>> | |s| == WireCount witness [[], [], [], []]

  /** One chosen drift distance per wire (`TrackDistances`). */
  type TrackDistances = s: seq<real> | |s| == WireCount witness [0.0, 0.0, 0.0, 0.0]

  /** One chosen raw time per wire (`TrackTimes`). */
  type TrackTimes = s: seq<uint32> | |s| == WireCount witness [0, 0, 0, 0]

  /** One candidate index per wire (`Indecies`). */
  type Indices = s: seq<nat> | |s| == WireCount witness [0, 0, 0, 0]

  /** `vecmath::Vec2`: a point in the chamber plane. */
  datatype Vec2 = Vec2(x: real, y: real)

  /** `vecmath::Vec3`: a point in space. */
  datatype Vec3 = Vec3(x: real, y: real, z: real)

  /** `vecmath::Line2`: the line y = k*x + b. */
  datatype Line2 = Line2(k: real, b: real)

  /** The line of a default-constructed `Line2`. */
  const DefaultLine: Line2 := Line2(0.0, 0.0)

  /** `ChamberPoints`: three reference points of a chamber. */
  type ChamberPoints = s: seq<Vec3> | |s| == 3
    witness [Vec3(0.0, 0.0, 0.0), Vec3(0.0, 0.0, 0.0), Vec3(0.0, 0.0, 0.0)]

  /** Calibration of one wire: TDC time-zero offset and drift speed. */
  datatype WireParameters = WireParameters(offset: uint32, speed: real)

  /** The `WireParameters` constructor, whose arguments default to zero. */
  function MakeWireParameters(offset: uint32 := 0, speed: real := 0.0): (p: WireParameters)
    ensures p.offset == offset && p.speed == speed
  {
    WireParameters(offset, speed)
  }

  /** `setOffset`: only the offset changes. */
  function SetOffset(p: WireParameters, offset: uint32): (q: WireParameters)
    ensures q.offset == offset
    ensures q.speed == p.speed
  {
    p.(offset := offset)
  }

  /** `setSpeed`: only the speed changes. */
  function SetSpeed(p: WireParameters, speed: real): (q: WireParameters)
    ensures q.speed == speed
    ensures q.offset == p.offset
  {
    p.(speed := speed)
  }

  /** Calibration of the four wires (`ChamberParameters`). */
  type ChamberParameters = s: seq<WireParameters> | |s| == WireCount
    witness [WireParameters(0, 0.0), WireParameters(0, 0.0), WireParameters(0, 0.0), WireParameters(0, 0.0)]

  /** A chamber: reference points, per-wire calibration, plane and group numbers. */
  datatype ChamberDescription = ChamberDescription(
    points: ChamberPoints,
    parameters: ChamberParameters,
    plane: uint32,
    group: uint32)

  /** `setParameters`: replaces the calibration and nothing else. */
  function SetParameters(c: ChamberDescription, parameters: ChamberParameters): (d: ChamberDescription)
    ensures d.parameters == parameters
    ensures d.points == c.points && d.plane == c.plane && d.group == c.group
  {
    c.(parameters := parameters)
  }

  /**
   A deviation as the C++ `double` carries it: infinity (the "nothing found yet"
   start value) or a finite number; the fitter's "unfittable" answer is the
   finite value -1.
   */
  datatype Dev = Inf | Val(v: real)

  /** The strict `<` of `double` restricted to the values a `Dev` can take. */
  predicate Below(a: Dev, b: Dev)
  {
    match (a, b)
    case (Val(x), Val(y)) => x < y
    case (Val(_), Inf) => true
    case (Inf, _) => false
  }

  /** The `-1` returned by the fitter for an unfittable point set. */
  const UnfittableDeviation: real := -1.0

  /** A reconstructed track: fitted line, the points it was fitted to, deviation, raw times. */
  datatype TrackDescription = TrackDescription(
    line: Line2,
    points: seq<Vec2>,
    deviation: Dev,
    times: TrackTimes)

  /** The raw times of a track that never received any (uninitialised in the source). */
  const NoTimes: TrackTimes := [0, 0, 0, 0]

  /** The track a search starts from: no points and an infinite deviation. */
  const Unset: TrackDescription := TrackDescription(DefaultLine, [], Inf, NoTimes)
}
