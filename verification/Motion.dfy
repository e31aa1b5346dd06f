/**
 * Kinematics of one bot, on values: its cells, the cached total mass, the
 * centre of mass, the mass-dependent speed, the clamp that keeps every cell
 * inside the 3000 x 3000 arena, and one motion tick (`Advance`).
 *
 * Everything the service draws from `random`, `uuid` or `time` arrives here as
 * data (`Tick`), and the heading that `atan2`, `cos` and `sin` produce arrives
 * as a function from a vector to a direction.  Arithmetic is over `real`.
 */
module Motion {

  const WorldWidth: real := 3000.0
  const WorldHeight: real := 3000.0
  /** `math.pi`: the shortest decimal that Python prints for the double nearest pi. */
  const Pi: real := 3.141592653589793
  const InitialRadius: real := 15.0
  const InitialMass: real := Pi * 15.0 * 15.0
  const BaseSpeed: real := 2.5
  const MinSpeed: real := 0.5
  /** A wander target closer than this to the centre of mass is re-rolled. */
  const RerollDistance: real := 50.0
  /** Probability of a spontaneous re-roll on any tick. */
  const RerollChance: real := 0.01
  /** Cells are spawned this far inside every arena edge. */
  const SpawnInset: real := 100.0

  // ---------------------------------------------------------------------------
  // Arithmetic helpers

  lemma MulMonotone(a: real, b: real, c: real)
    requires a <= b && 0.0 <= c
    ensures a * c <= b * c && c * a <= c * b
  {
  }

  lemma MulStrict(k: real, a: real, b: real)
    requires 0.0 < k && a < b
    ensures k * a < k * b && a * k < b * k
  {
  }

  lemma SquareStrict(r1: real, r2: real)
    requires 0.0 <= r1 < r2
    ensures r1 * r1 < r2 * r2
  {
    var d := r2 - r1;
    assert r2 * r2 == (r1 + d) * (r1 + d);
    assert (r1 + d) * (r1 + d) == r1 * r1 + 2.0 * r1 * d + d * d;
    assert 0.0 < d * d;
    assert 0.0 <= r1 * d;
  }

  /**
   * Adding a weight m at a point x >= lo to a weighted sum that is at least lo
   * times its weight gives a moment at least lo times the new total.
   */
  lemma WeightedAbove(lo: real, x: real, m: real, rest: real, sum: real, total: real, moment: real)
    requires lo <= x && 0.0 <= m && lo * rest <= sum
    requires total == m + rest && moment == x * m + sum
    ensures lo * total <= moment
  {
    MulMonotone(lo, x, m);
    assert lo * (m + rest) == lo * m + lo * rest;
  }

  /**
   * Adding a weight m at a point x <= hi to a weighted sum that is at most hi
   * times its weight gives a moment at most hi times the new total.
   */
  lemma WeightedBelow(hi: real, x: real, m: real, rest: real, sum: real, total: real, moment: real)
    requires x <= hi && 0.0 <= m && sum <= hi * rest
    requires total == m + rest && moment == x * m + sum
    ensures moment <= hi * total
  {
    MulMonotone(x, hi, m);
    assert hi * (m + rest) == hi * m + hi * rest;
  }

  /** Dividing a positive number by at least one gives a positive number no larger. */
  lemma DivAtMost(n: real, d: real)
    ensures 0.0 < n && 1.0 <= d ==> 0.0 < n / d <= n
  {
    if 0.0 < n && 1.0 <= d {
      assert n / d * d == n;
    }
  }

  /** A quotient by a positive number keeps the bounds its dividend has in multiples of it. */
  lemma DivBetween(lo: real, hi: real, m: real, t: real)
    requires 0.0 < t && lo * t <= m <= hi * t
    ensures lo <= m / t <= hi
  {
    var q := m / t;
    assert q * t == m;
    if q < lo {
      MulStrict(t, q, lo);
    }
    if hi < q {
      MulStrict(t, hi, q);
    }
  }

  /** Dividing a positive number by a larger divisor gives less. */
  lemma DivDecreasing(n: real, d1: real, d2: real)
    requires 0.0 < n && 0.0 < d1 < d2
    ensures n / d2 < n / d1
  {
    var s1 := n / d1;
    var s2 := n / d2;
    assert s1 * d1 == n && s2 * d2 == n;
    assert 0.0 < s2;
    MulStrict(s2, d1, d2);
    if s1 <= s2 {
      MulMonotone(s1, s2, d1);
    }
  }

  lemma DivAddMultiple(m: real, d: real, t: real)
    requires t != 0.0
    ensures (m + d * t) / t == m / t + d
  {
    var q := m / t;
    assert q * t == m;
    assert (q + d) * t == m + d * t;
  }

  // ---------------------------------------------------------------------------
  // Mass and radius

  /**
   * `radius` is the square root of `mass / Pi`.  The square root itself is not
   * computed by the model: a radius is supplied together with its mass and
   * this relation is required of it.
   */
  predicate IsRadiusOf(radius: real, mass: real): (b: bool)
    ensures b ==> 0.0 <= mass
  {
    0.0 <= radius && Pi * radius * radius == mass
  }

  /**
   * `radius_to_mass`: the mass of a cell of this radius.  It undoes
   * `mass_to_radius`: a non-negative radius is the radius of its mass.
   */
  function RadiusToMass(radius: real): (mass: real)
    ensures 0.0 <= mass
    ensures 0.0 <= radius ==> IsRadiusOf(radius, mass)
  {
    Pi * radius * radius
  }

  /** The mass of a larger radius is strictly larger. */
  lemma RadiusToMassIncreasing(r1: real, r2: real)
    requires 0.0 <= r1 < r2
    ensures RadiusToMass(r1) < RadiusToMass(r2)
  {
    SquareStrict(r1, r2);
    assert 0.0 < Pi;
    MulStrict(Pi, r1 * r1, r2 * r2);
  }

  /**
   * Taking the radius of a mass is monotone, so two radii of one mass
   * coincide: `mass_to_radius` is a function of the mass.
   */
  lemma RadiusMonotone(r1: real, m1: real, r2: real, m2: real)
    requires IsRadiusOf(r1, m1) && IsRadiusOf(r2, m2)
    ensures m1 <= m2 ==> r1 <= r2
    ensures m1 == m2 ==> r1 == r2
  {
    if r2 < r1 {
      RadiusToMassIncreasing(r2, r1);
    } else if r1 < r2 {
      RadiusToMassIncreasing(r1, r2);
    }
  }

  /** The initial cell's radius is exactly 15. */
  lemma InitialRadiusMatches()
    ensures IsRadiusOf(InitialRadius, InitialMass)
  {
  }

  // ---------------------------------------------------------------------------
  // Values

  datatype CellState = CellState(id: string, x: real, y: real, mass: real, radius: real)

  /** One bot as the motion step sees it; `totalMass` is the cached total. */
  datatype BotState = BotState(
    cells: seq<CellState>,
    targetX: real,
    targetY: real,
    lastUpdate: real,
    totalMass: real)

  datatype Axis = X | Y

  function Coord(c: CellState, a: Axis): real
  {
    match a
    case X => c.x
    case Y => c.y
  }

  predicate InArena(x: real, y: real)
  {
    0.0 <= x <= WorldWidth && 0.0 <= y <= WorldHeight
  }

  /** Every cell carries a mass with a matching radius. */
  predicate CellsValid(cells: seq<CellState>)
  {
    forall i :: 0 <= i < |cells| ==> IsRadiusOf(cells[i].radius, cells[i].mass)
  }

  /** The total of the cell masses, `sum(cell.mass for cell in cells)`. */
  function SumMass(cells: seq<CellState>): (total: real)
    ensures (forall i :: 0 <= i < |cells| ==> 0.0 <= cells[i].mass) ==> 0.0 <= total
  {
    if cells == [] then 0.0 else cells[0].mass + SumMass(cells[1..])
  }

  /** The mass-weighted sum of the cell coordinates along one axis. */
  function Moment(cells: seq<CellState>, a: Axis): real
  {
    if cells == [] then 0.0 else Coord(cells[0], a) * cells[0].mass + Moment(cells[1..], a)
  }

  /** The total mass depends on the masses only, not on the positions. */
  lemma {:induction false} SumMassOfSameMasses(c1: seq<CellState>, c2: seq<CellState>)
    requires |c1| == |c2|
    requires forall i :: 0 <= i < |c1| ==> c1[i].mass == c2[i].mass
    ensures SumMass(c1) == SumMass(c2)
  {
    if c1 != [] {
      SumMassOfSameMasses(c1[1..], c2[1..]);
    }
  }

  // ---------------------------------------------------------------------------
  // Centre of mass

  /**
   * The centre of mass along one axis: the target when there are no cells,
   * the first cell when the cached total mass is zero, and the weighted
   * average otherwise.
   */
  function CenterAlong(s: BotState, a: Axis): (c: real)
    ensures |s.cells| > 0 && s.totalMass != 0.0 ==> c * s.totalMass == Moment(s.cells, a)
    ensures |s.cells| > 0 && s.totalMass == 0.0 ==> c == Coord(s.cells[0], a)
    ensures |s.cells| == 1 && s.totalMass == SumMass(s.cells) ==> c == Coord(s.cells[0], a)
  {
    if |s.cells| == 0 then
      (match a case X => s.targetX case Y => s.targetY)
    else if s.totalMass == 0.0 then
      Coord(s.cells[0], a)
    else
      var m := Moment(s.cells, a);
      assert m / s.totalMass * s.totalMass == m;
      SingleCellQuotient(s.cells, a, s.totalMass);
      m / s.totalMass
  }

  /** A single cell's moment divided by its own non-zero mass is its coordinate. */
  lemma SingleCellQuotient(cells: seq<CellState>, a: Axis, total: real)
    ensures |cells| == 1 && total == SumMass(cells) && total != 0.0 ==>
              Moment(cells, a) / total == Coord(cells[0], a)
  {
    if |cells| == 1 && total == SumMass(cells) && total != 0.0 {
      assert cells[1..] == [];
      var x := Coord(cells[0], a);
      assert SumMass(cells) == cells[0].mass;
      assert Moment(cells, a) == x * cells[0].mass;
      assert x * total / total == x;
    }
  }

  /**
   * `get_center_of_mass()`: the target for a bot without cells; for a bot
   * whose cached total is its true total and whose cells all lie in the
   * arena, a point of the arena.
   */
  function CenterOfMass(s: BotState): (com: (real, real))
    ensures |s.cells| == 0 ==> com == (s.targetX, s.targetY)
    ensures |s.cells| > 0 && CellsValid(s.cells) && s.totalMass == SumMass(s.cells)
            && (forall i :: 0 <= i < |s.cells| ==> InsideArena(s.cells[i]))
            ==> InArena(com.0, com.1)
  {
    CenterInArena(s);
    (CenterAlong(s, X), CenterAlong(s, Y))
  }

  /** With non-negative masses the moment lies between lo and hi times the total mass. */
  lemma MomentBounds(cells: seq<CellState>, a: Axis, lo: real, hi: real)
    requires forall i :: 0 <= i < |cells| ==> 0.0 <= cells[i].mass && lo <= Coord(cells[i], a) <= hi
    ensures lo * SumMass(cells) <= Moment(cells, a) <= hi * SumMass(cells)
  {
    MomentAbove(cells, a, lo);
    MomentBelow(cells, a, hi);
  }

  lemma {:induction false} MomentAbove(cells: seq<CellState>, a: Axis, lo: real)
    requires forall i :: 0 <= i < |cells| ==> 0.0 <= cells[i].mass && lo <= Coord(cells[i], a)
    ensures lo * SumMass(cells) <= Moment(cells, a)
  {
    if cells != [] {
      var c := cells[0];
      MomentAbove(cells[1..], a, lo);
      WeightedAbove(lo, Coord(c, a), c.mass, SumMass(cells[1..]), Moment(cells[1..], a), SumMass(cells), Moment(cells, a));
    }
  }

  lemma {:induction false} MomentBelow(cells: seq<CellState>, a: Axis, hi: real)
    requires forall i :: 0 <= i < |cells| ==> 0.0 <= cells[i].mass && Coord(cells[i], a) <= hi
    ensures Moment(cells, a) <= hi * SumMass(cells)
  {
    if cells != [] {
      var c := cells[0];
      MomentBelow(cells[1..], a, hi);
      WeightedBelow(hi, Coord(c, a), c.mass, SumMass(cells[1..]), Moment(cells[1..], a), SumMass(cells), Moment(cells, a));
    }
  }

  /**
   * When the cached total is the true total, the centre of mass lies within
   * any interval that holds all the cells' coordinates.
   */
  lemma CenterWithinBounds(s: BotState, a: Axis, lo: real, hi: real)
    requires |s.cells| > 0 && CellsValid(s.cells) && s.totalMass == SumMass(s.cells)
    requires forall i :: 0 <= i < |s.cells| ==> lo <= Coord(s.cells[i], a) <= hi
    ensures lo <= CenterAlong(s, a) <= hi
  {
    if s.totalMass != 0.0 {
      forall i | 0 <= i < |s.cells| ensures 0.0 <= s.cells[i].mass {
        assert IsRadiusOf(s.cells[i].radius, s.cells[i].mass);
      }
      MomentBounds(s.cells, a, lo, hi);
      DivBetween(lo, hi, Moment(s.cells, a), s.totalMass);
    } else {
      assert lo <= Coord(s.cells[0], a) <= hi;
    }
  }

  /** Every cell moved by the same offset, without clamping. */
  function Shift(cells: seq<CellState>, dx: real, dy: real): (moved: seq<CellState>)
  {
    seq(|cells|, i requires 0 <= i < |cells| => cells[i].(x := cells[i].x + dx, y := cells[i].y + dy))
  }

  function Offset(a: Axis, dx: real, dy: real): real
  {
    match a
    case X => dx
    case Y => dy
  }

  /** A rigid shift moves the moment by the offset times the total mass. */
  lemma MomentOfShift(cells: seq<CellState>, a: Axis, dx: real, dy: real)
    ensures Moment(Shift(cells, dx, dy), a) == Moment(cells, a) + Offset(a, dx, dy) * SumMass(cells)
  {
    MomentOfMoved(cells, Shift(cells, dx, dy), a, Offset(a, dx, dy));
  }

  /** Cells moved by `d` along one axis, masses kept, move the moment by `d` times the total mass. */
  lemma MomentOfMoved(cells: seq<CellState>, moved: seq<CellState>, a: Axis, d: real)
    requires |moved| == |cells|
    requires forall i :: 0 <= i < |cells| ==> moved[i].mass == cells[i].mass && Coord(moved[i], a) == Coord(cells[i], a) + d
    ensures Moment(moved, a) == Moment(cells, a) + d * SumMass(cells)
  {
    MomentOfMovedScaled(cells, moved, a, d);
    ScaledSum(cells, d);
  }

  /** The sum of `d` times each mass. */
  function ScaledMass(cells: seq<CellState>, d: real): real
  {
    if cells == [] then 0.0 else d * cells[0].mass + ScaledMass(cells[1..], d)
  }

  /** The same, with the shift of the moment written as `d` times each mass. */
  lemma {:induction false} MomentOfMovedScaled(cells: seq<CellState>, moved: seq<CellState>, a: Axis, d: real)
    requires |moved| == |cells|
    requires forall i :: 0 <= i < |cells| ==> moved[i].mass == cells[i].mass && Coord(moved[i], a) == Coord(cells[i], a) + d
    ensures Moment(moved, a) == Moment(cells, a) + ScaledMass(cells, d)
  {
    if cells != [] {
      MomentOfMovedScaled(cells[1..], moved[1..], a, d);
      MovedTerm(Coord(cells[0], a), cells[0].mass, d, Coord(moved[0], a), moved[0].mass);
    }
  }

  /** One cell's term of `MomentOfMovedScaled`, on plain numbers. */
  lemma MovedTerm(x: real, m: real, d: real, movedX: real, movedM: real)
    requires movedX == x + d && movedM == m
    ensures movedX * movedM == x * m + d * m
  {
  }

  /** Scaling each mass by `d` scales their sum by `d`. */
  lemma {:induction false} ScaledSum(cells: seq<CellState>, d: real)
    ensures ScaledMass(cells, d) == d * SumMass(cells)
  {
    if cells != [] {
      ScaledSum(cells[1..], d);
      assert d * (cells[0].mass + SumMass(cells[1..])) == d * cells[0].mass + d * SumMass(cells[1..]);
    }
  }

  /**
   * Moving every cell rigidly moves the centre of mass by the same offset,
   * whenever the cached total mass is the true total.
   */
  lemma CenterOfShift(s: BotState, dx: real, dy: real, a: Axis)
    requires |s.cells| > 0 && s.totalMass == SumMass(s.cells)
    ensures CenterAlong(s.(cells := Shift(s.cells, dx, dy)), a) == CenterAlong(s, a) + Offset(a, dx, dy)
  {
    var moved := s.(cells := Shift(s.cells, dx, dy));
    if s.totalMass != 0.0 {
      var t := s.totalMass;
      var d := Offset(a, dx, dy);
      MomentOfShift(s.cells, a, dx, dy);
      var m := Moment(s.cells, a);
      assert Moment(moved.cells, a) == m + d * t;
      DivAddMultiple(m, d, t);
    }
  }

  // ---------------------------------------------------------------------------
  // Speed

  /** The speed formula divides by this; it is zero for exactly one mass. */
  predicate SpeedDefined(totalMass: real)
  {
    1.0 + totalMass / (InitialMass * 20.0) != 0.0
  }

  lemma SpeedDefinedForNonNegative(totalMass: real)
    requires 0.0 <= totalMass
    ensures SpeedDefined(totalMass)
  {
    assert 0.0 <= totalMass / (InitialMass * 20.0);
  }

  /** The unfloored speed, base speed over one plus the mass in units of twenty initial masses. */
  function RawSpeed(totalMass: real): (speed: real)
    requires SpeedDefined(totalMass)
    ensures 0.0 <= totalMass ==> 0.0 < speed <= BaseSpeed
  {
    var d := 1.0 + totalMass / (InitialMass * 20.0);
    assert 0.0 <= totalMass ==> 1.0 <= d;
    DivAtMost(BaseSpeed, d);
    BaseSpeed / d
  }

  /** The speed of a bot: the raw speed, floored at the minimum speed. */
  function Speed(totalMass: real): (speed: real)
    requires SpeedDefined(totalMass)
    ensures MinSpeed <= speed
    ensures 0.0 <= totalMass ==> speed <= BaseSpeed
  {
    var raw := RawSpeed(totalMass);
    if raw < MinSpeed then MinSpeed else raw
  }

  /** For non-negative masses the raw speed strictly decreases as the mass grows. */
  lemma RawSpeedDecreasing(m1: real, m2: real)
    requires 0.0 <= m1 < m2
    ensures SpeedDefined(m1) && SpeedDefined(m2)
    ensures RawSpeed(m2) < RawSpeed(m1)
  {
    SpeedDefinedForNonNegative(m1);
    SpeedDefinedForNonNegative(m2);
    var k := InitialMass * 20.0;
    assert m1 / k < m2 / k;
    DivDecreasing(BaseSpeed, 1.0 + m1 / k, 1.0 + m2 / k);
  }

  /** Heavier bots are never faster: speed is non-increasing in the total mass. */
  lemma SpeedNonIncreasing(m1: real, m2: real)
    requires 0.0 <= m1 <= m2
    ensures SpeedDefined(m1) && SpeedDefined(m2)
    ensures Speed(m2) <= Speed(m1)
  {
    SpeedDefinedForNonNegative(m1);
    SpeedDefinedForNonNegative(m2);
    if m1 < m2 {
      RawSpeedDecreasing(m1, m2);
    }
  }

  /** Above the floor, a heavier bot is strictly slower. */
  lemma SpeedDecreasingAboveFloor(m1: real, m2: real)
    requires 0.0 <= m1 < m2
    requires SpeedDefined(m2) && MinSpeed < Speed(m2)
    ensures SpeedDefined(m1) && Speed(m2) < Speed(m1)
  {
    RawSpeedDecreasing(m1, m2);
  }

  // ---------------------------------------------------------------------------
  // Displacement

  /**
   * The displacement of one tick: the heading scaled by the speed, by the
   * elapsed time and by 60.  Along a unit heading its length is the stride.
   */
  function Displacement(speed: real, deltaTime: real, heading: (real, real)): (d: (real, real))
    ensures SquaredLength(heading) == 1.0 ==>
              SquaredLength(d) == Stride(speed, deltaTime) * Stride(speed, deltaTime)
  {
    var k := Stride(speed, deltaTime);
    ScaledLength(heading.0, heading.1, k);
    (heading.0 * k, heading.1 * k)
  }

  /** Scaling a vector by k scales its squared length by k * k. */
  lemma ScaledLength(u: real, v: real, k: real)
    ensures (u * k) * (u * k) + (v * k) * (v * k) == (u * u + v * v) * (k * k)
  {
    assert (u * k) * (u * k) == u * u * (k * k);
    assert (v * k) * (v * k) == v * v * (k * k);
  }

  function SquaredLength(v: (real, real)): real
  {
    v.0 * v.0 + v.1 * v.1
  }

  /** The distance one tick covers along a unit heading. */
  function Stride(speed: real, deltaTime: real): real
  {
    speed * deltaTime * 60.0
  }

  /** A slower bot covers no more ground in the same time. */
  lemma StrideMonotone(s1: real, s2: real, deltaTime: real)
    ensures 0.0 <= s2 <= s1 ==>
              Stride(s2, deltaTime) * Stride(s2, deltaTime) <= Stride(s1, deltaTime) * Stride(s1, deltaTime)
  {
    if 0.0 <= s2 <= s1 {
      var c := deltaTime * 60.0;
      assert Stride(s1, deltaTime) == s1 * c && Stride(s2, deltaTime) == s2 * c;
      assert (s1 * c) * (s1 * c) == (s1 * s1) * (c * c);
      assert (s2 * c) * (s2 * c) == (s2 * s2) * (c * c);
      MulMonotone(s2, s1, s2);
      MulMonotone(s2, s1, s1);
      assert 0.0 <= c * c;
      MulMonotone(s2 * s2, s1 * s1, c * c);
    }
  }

  /**
   * For a fixed elapsed time and a unit heading, a heavier bot never moves
   * further in one tick than a lighter one.
   */
  lemma DisplacementNonIncreasingInMass(m1: real, m2: real, deltaTime: real, h1: (real, real), h2: (real, real))
    requires 0.0 <= m1 <= m2
    requires SquaredLength(h1) == 1.0 && SquaredLength(h2) == 1.0
    ensures SpeedDefined(m1) && SpeedDefined(m2)
    ensures SquaredLength(Displacement(Speed(m2), deltaTime, h2))
         <= SquaredLength(Displacement(Speed(m1), deltaTime, h1))
  {
    SpeedNonIncreasing(m1, m2);
    StrideMonotone(Speed(m1), Speed(m2), deltaTime);
  }

  // ---------------------------------------------------------------------------
  // Clamping

  function Max(a: real, b: real): real { if a < b then b else a }

  function Min(a: real, b: real): real { if b < a then b else a }

  /**
   * `max(radius, min(extent - radius, v))`: the coordinate of a cell of this
   * radius pulled back inside [radius, extent - radius].
   */
  function Clamp(v: real, radius: real, extent: real): (c: real)
    ensures radius <= c
    ensures radius <= extent - radius ==> c <= extent - radius
    ensures radius <= v <= extent - radius ==> c == v
    ensures extent - radius < radius ==> c == radius
    ensures radius <= extent - radius && v < radius ==> c == radius
    ensures radius <= extent - radius && extent - radius < v ==> c == extent - radius
  {
    Max(radius, Min(extent - radius, v))
  }

  /** A cell moved by (dx, dy) and then clamped into the arena. */
  function MoveCell(c: CellState, dx: real, dy: real): (m: CellState)
    ensures m.id == c.id && m.mass == c.mass && m.radius == c.radius
    ensures c.radius <= m.x && c.radius <= m.y
    ensures c.radius <= WorldWidth / 2.0 ==> InsideArena(m)
  {
    c.(x := Clamp(c.x + dx, c.radius, WorldWidth), y := Clamp(c.y + dy, c.radius, WorldHeight))
  }

  /** The cell loop of `update_position`: every cell moved by the same offset and clamped. */
  function MoveAll(cells: seq<CellState>, dx: real, dy: real): (moved: seq<CellState>)
    ensures |moved| == |cells|
    ensures forall i :: 0 <= i < |cells| ==> moved[i] == MoveCell(cells[i], dx, dy)
    ensures SumMass(moved) == SumMass(cells)
    ensures CellsValid(cells) ==> CellsValid(moved)
  {
    var moved := seq(|cells|, i requires 0 <= i < |cells| => MoveCell(cells[i], dx, dy));
    SumMassOfSameMasses(cells, moved);
    moved
  }

  /** When no moved cell reaches an edge, clamping changes nothing: the move is a plain shift. */
  lemma MoveAllUnclamped(cells: seq<CellState>, dx: real, dy: real)
    requires forall i :: 0 <= i < |cells| ==> InsideArena(cells[i].(x := cells[i].x + dx, y := cells[i].y + dy))
    ensures MoveAll(cells, dx, dy) == Shift(cells, dx, dy)
  {
    forall i | 0 <= i < |cells|
      ensures MoveAll(cells, dx, dy)[i] == Shift(cells, dx, dy)[i]
    {
      assert InsideArena(cells[i].(x := cells[i].x + dx, y := cells[i].y + dy));
    }
  }

  /** Both coordinates of the cell lie in [radius, extent - radius]. */
  predicate InsideArena(c: CellState)
  {
    c.radius <= c.x <= WorldWidth - c.radius && c.radius <= c.y <= WorldHeight - c.radius
  }

  // ---------------------------------------------------------------------------
  // Wander target

  /** Draws consumed by one tick: the re-roll draw, a candidate target and the clock. */
  datatype Tick = Tick(draw: real, newTargetX: real, newTargetY: real, now: real)
  {
    /** `random.random()` lies in [0, 1) and `random.uniform(0, 3000)` in the arena. */
    predicate InRange()
    {
      0.0 <= draw < 1.0 && InArena(newTargetX, newTargetY)
    }
  }

  function SquaredDistance(ax: real, ay: real, bx: real, bY: real): (d: real)
    ensures 0.0 <= d
  {
    (ax - bx) * (ax - bx) + (ay - bY) * (ay - bY)
  }

  /**
   * The target after the re-roll step: replaced by the tick's candidate when
   * the centre of mass is within 50 of it, or else when the draw is below
   * 0.01; kept otherwise.  Distances are compared squared.
   */
  function NextTarget(com: (real, real), s: BotState, t: Tick): (target: (real, real))
    requires t.InRange()
    ensures SquaredDistance(s.targetX, s.targetY, com.0, com.1) < RerollDistance * RerollDistance
            ==> InArena(target.0, target.1)
    ensures t.draw < RerollChance ==> InArena(target.0, target.1)
    ensures (SquaredDistance(s.targetX, s.targetY, com.0, com.1) < RerollDistance * RerollDistance
             || t.draw < RerollChance) ==> target == (t.newTargetX, t.newTargetY)
    ensures (RerollDistance * RerollDistance <= SquaredDistance(s.targetX, s.targetY, com.0, com.1)
             && RerollChance <= t.draw) ==> target == (s.targetX, s.targetY)
    ensures InArena(s.targetX, s.targetY) ==> InArena(target.0, target.1)
  {
    if SquaredDistance(s.targetX, s.targetY, com.0, com.1) < RerollDistance * RerollDistance
       || t.draw < RerollChance
    then (t.newTargetX, t.newTargetY)
    else (s.targetX, s.targetY)
  }

  // ---------------------------------------------------------------------------
  // One tick

  /**
   * The displacement a non-empty bot applies to all its cells in one tick.
   * `direction` gives the unit vector (cos a, sin a) for a = atan2(dy, dx).
   */
  function StepMove(s: BotState, deltaTime: real, t: Tick, direction: (real, real) -> (real, real)): (d: (real, real))
    requires SpeedDefined(s.totalMass) && t.InRange()
    ensures var com := CenterOfMass(s);
            var target := NextTarget(com, s, t);
            SquaredLength(direction(target.0 - com.0, target.1 - com.1)) == 1.0 && 0.0 <= s.totalMass ==>
              Stride(MinSpeed, deltaTime) * Stride(MinSpeed, deltaTime) <= SquaredLength(d)
              <= Stride(BaseSpeed, deltaTime) * Stride(BaseSpeed, deltaTime)
  {
    var com := CenterOfMass(s);
    var target := NextTarget(com, s, t);
    var speed := Speed(s.totalMass);
    StrideMonotone(speed, MinSpeed, deltaTime);
    StrideMonotone(BaseSpeed, speed, deltaTime);
    Displacement(speed, deltaTime, direction(target.0 - com.0, target.1 - com.1))
  }

  /** One call of `update_position(deltaTime)` on a bot. */
  function Advance(s: BotState, deltaTime: real, t: Tick, direction: (real, real) -> (real, real)): (r: BotState)
    requires SpeedDefined(s.totalMass) && t.InRange()
    ensures |s.cells| == 0 ==> r == s
    ensures |r.cells| == |s.cells| && r.totalMass == s.totalMass
    ensures SumMass(r.cells) == SumMass(s.cells)
    ensures CellsValid(s.cells) ==> CellsValid(r.cells)
    ensures forall i :: 0 <= i < |s.cells| ==>
              r.cells[i].id == s.cells[i].id && r.cells[i].mass == s.cells[i].mass
              && r.cells[i].radius == s.cells[i].radius
    ensures forall i :: 0 <= i < |r.cells| ==>
              r.cells[i].radius <= r.cells[i].x && r.cells[i].radius <= r.cells[i].y
    ensures forall i :: 0 <= i < |r.cells| && r.cells[i].radius <= WorldWidth / 2.0 ==> InsideArena(r.cells[i])
    ensures InArena(s.targetX, s.targetY) ==> InArena(r.targetX, r.targetY)
    ensures |s.cells| > 0 ==> (r.targetX, r.targetY) == NextTarget(CenterOfMass(s), s, t) && r.lastUpdate == t.now
  {
    if |s.cells| == 0 then s
    else
      var com := CenterOfMass(s);
      var target := NextTarget(com, s, t);
      var move := StepMove(s, deltaTime, t, direction);
      var moved := MoveAll(s.cells, move.0, move.1);
      SumMassOfSameMasses(s.cells, moved);
      BotState(moved, target.0, target.1, t.now, s.totalMass)
  }

  /**
   * Every cell of a non-empty bot receives the same displacement: a cell that
   * stays inside the arena after it is moved by exactly that offset, and
   * every cell's position is the clamp of the displaced one.
   */
  lemma AdvanceIsRigid(s: BotState, deltaTime: real, t: Tick, direction: (real, real) -> (real, real), i: int)
    requires SpeedDefined(s.totalMass) && t.InRange()
    requires 0 <= i < |s.cells|
    ensures var move := StepMove(s, deltaTime, t, direction);
            var r := Advance(s, deltaTime, t, direction);
            r.cells[i].x == Clamp(s.cells[i].x + move.0, s.cells[i].radius, WorldWidth)
            && r.cells[i].y == Clamp(s.cells[i].y + move.1, s.cells[i].radius, WorldHeight)
            && (InsideArena(s.cells[i].(x := s.cells[i].x + move.0, y := s.cells[i].y + move.1))
                ==> r.cells[i].x == s.cells[i].x + move.0 && r.cells[i].y == s.cells[i].y + move.1)
  {
  }

  /**
   * When no cell touches the arena edge, one tick moves the centre of mass by
   * exactly the tick's displacement.
   */
  lemma AdvanceMovesCenter(s: BotState, deltaTime: real, t: Tick, direction: (real, real) -> (real, real))
    requires SpeedDefined(s.totalMass) && t.InRange()
    requires |s.cells| > 0 && s.totalMass == SumMass(s.cells)
    requires var move := StepMove(s, deltaTime, t, direction);
             forall i :: 0 <= i < |s.cells| ==>
               InsideArena(s.cells[i].(x := s.cells[i].x + move.0, y := s.cells[i].y + move.1))
    ensures var move := StepMove(s, deltaTime, t, direction);
            var r := Advance(s, deltaTime, t, direction);
            CenterAlong(r, X) == CenterAlong(s, X) + move.0
            && CenterAlong(r, Y) == CenterAlong(s, Y) + move.1
  {
    var move := StepMove(s, deltaTime, t, direction);
    var r := Advance(s, deltaTime, t, direction);
    MoveAllUnclamped(s.cells, move.0, move.1);
    assert r.cells == Shift(s.cells, move.0, move.1);
    CenterOfShift(s.(targetX := r.targetX, targetY := r.targetY), move.0, move.1, X);
    CenterOfShift(s.(targetX := r.targetX, targetY := r.targetY), move.0, move.1, Y);
  }

  /**
   * A bot whose cached total is its true total and whose cells all fit the
   * arena has its centre of mass in the arena.
   */
  lemma CenterInArena(s: BotState)
    ensures |s.cells| > 0 && CellsValid(s.cells) && s.totalMass == SumMass(s.cells)
            && (forall i :: 0 <= i < |s.cells| ==> InsideArena(s.cells[i]))
            ==> InArena(CenterAlong(s, X), CenterAlong(s, Y))
  {
    if |s.cells| > 0 && CellsValid(s.cells) && s.totalMass == SumMass(s.cells)
       && (forall i :: 0 <= i < |s.cells| ==> InsideArena(s.cells[i]))
    {
      forall i | 0 <= i < |s.cells|
        ensures 0.0 <= Coord(s.cells[i], X) <= WorldWidth && 0.0 <= Coord(s.cells[i], Y) <= WorldHeight
      {
        assert InsideArena(s.cells[i]);
      }
      CenterWithinBounds(s, X, 0.0, WorldWidth);
      CenterWithinBounds(s, Y, 0.0, WorldHeight);
    }
  }

  /**
   * After a tick of a bot whose cached total is its true total and whose cells
   * are no wider than half the arena, the centre of mass lies in the arena.
   */
  lemma AdvanceKeepsCenterInArena(s: BotState, deltaTime: real, t: Tick, direction: (real, real) -> (real, real))
    requires SpeedDefined(s.totalMass) && t.InRange()
    requires |s.cells| > 0 && CellsValid(s.cells) && s.totalMass == SumMass(s.cells)
    requires forall i :: 0 <= i < |s.cells| ==> s.cells[i].radius <= WorldWidth / 2.0
    ensures var r := Advance(s, deltaTime, t, direction);
            InArena(CenterAlong(r, X), CenterAlong(r, Y))
  {
    var r := Advance(s, deltaTime, t, direction);
    assert forall i :: 0 <= i < |r.cells| ==> InsideArena(r.cells[i]);
    CenterInArena(r);
  }

  // ---------------------------------------------------------------------------
  // Spawning

  /**
   * Draws consumed by constructing one bot, in the order the constructor
   * makes them: the id's uuid text, the colour value, the target, the clock,
   * the initial cell's position and the cell id's uuid text.
   */
  datatype Spawn = Spawn(
    idUuid: string,
    colorValue: int,
    targetX: real,
    targetY: real,
    now: real,
    cellX: real,
    cellY: real,
    cellUuid: string)
  {
    /** The ranges of `random.randint(0, 0xFFFFFF)` and of the `random.uniform` calls. */
    predicate InRange()
    {
      0 <= colorValue <= 0xFF_FFFF
      && InArena(targetX, targetY)
      && SpawnInset <= cellX <= WorldWidth - SpawnInset
      && SpawnInset <= cellY <= WorldHeight - SpawnInset
    }
  }

  /** What a freshly constructed bot looks like. */
  predicate IsNewBot(s: BotState)
  {
    && |s.cells| == 1
    && s.cells[0].mass == InitialMass
    && s.cells[0].radius == InitialRadius
    && s.totalMass == InitialMass
    && s.totalMass == SumMass(s.cells)
    && CellsValid(s.cells)
    && InArena(s.targetX, s.targetY)
    && SpawnInset <= s.cells[0].x <= WorldWidth - SpawnInset
    && SpawnInset <= s.cells[0].y <= WorldHeight - SpawnInset
  }

  /** The state of a bot built from these draws, its one cell carrying `cellId`. */
  function Spawned(sp: Spawn, cellId: string): (s: BotState)
    requires sp.InRange()
    ensures IsNewBot(s)
    ensures InsideArena(s.cells[0])
    ensures CenterOfMass(s) == (sp.cellX, sp.cellY)
  {
    var s := BotState([CellState(cellId, sp.cellX, sp.cellY, InitialMass, InitialRadius)],
                      sp.targetX, sp.targetY, sp.now, InitialMass);
    assert SumMass(s.cells) == InitialMass;
    s
  }
}
