/**
 * Model of the voxel-hologram synthesis of hologram.py (`hologram` and
 * `_update_voxels`), over unbounded reals instead of float32.
 *
 * The sine and the square root are not computed here: every member that needs
 * them takes them as parameters `sin` and `sqrt` of type `real -> real`. The
 * facts assumed of `sqrt` everywhere are `sqrt(0) == 0` and `sqrt(r) >= 0` for
 * `r >= 0`, stated as preconditions where they are used. NormalizedStepBelowOne
 * alone adds a local hypothesis: that `sqrt` is exact at the sum of squares of
 * the step it speaks about.
 */
module Hologram {

  // ------------------------------------------------------------------ data

  /** A sensor position: the first three entries of a channel's `loc`. */
  datatype Vec3 = Vec3(x: real, y: real, z: real)
  {
    function Axis(a: nat): real
      requires a < 3
    {
      if a == 0 then x else if a == 1 then y else z
    }
  }

  /** The integer grid cell of a sensor (one row of `xyz_ch_pos`). */
  datatype Cell = Cell(x: int, y: int, z: int)
  {
    function Axis(a: nat): int
      requires a < 3
    {
      if a == 0 then x else if a == 1 then y else z
    }
  }

  /** A dense R x R x R block, indexed [x][y][z]. */
  type Field = seq<seq<seq<real>>>

  /** The output volume, indexed [t][x][y][z]. */
  type Volume = seq<seq<seq<seq<real>>>>

  /** A spectral magnitude tensor, indexed [sensor][frequency][time]. */
  type Tensor = seq<seq<seq<real>>>

  /** One (sensor, frequency) pair of the accumulation loop. */
  datatype Pair = Pair(ch: nat, freq: nat)

  predicate IsCube(b: Field, R: nat)
  {
    |b| == R &&
    forall x :: 0 <= x < R ==>
      |b[x]| == R && forall y :: 0 <= y < R ==> |b[x][y]| == R
  }

  predicate IsVolume(v: Volume, T: nat, R: nat)
  {
    |v| == T && forall t :: 0 <= t < T ==> IsCube(v[t], R)
  }

  /** One R x R x R block per sensor: the shape of `dist`. */
  predicate IsDistField(d: seq<Field>, C: nat, R: nat)
  {
    |d| == C && forall c :: 0 <= c < C ==> IsCube(d[c], R)
  }

  predicate IsTensor(m: Tensor, C: nat, F: nat, T: nat)
  {
    |m| == C &&
    forall c :: 0 <= c < C ==>
      |m[c]| == F && forall f :: 0 <= f < F ==> |m[c][f]| == T
  }

  /** The assumptions made about the uninterpreted square root. */
  ghost predicate SqrtNonNegative(sqrt: real -> real)
  {
    forall r :: 0.0 <= r ==> 0.0 <= sqrt(r)
  }

  predicate SqrtOfZero(sqrt: real -> real)
  {
    sqrt(0.0) == 0.0
  }

  /** `astype(int32)` of a real: truncation toward zero. */
  function Trunc(r: real): (i: int)
    ensures 0.0 <= r ==> 0 <= i && i as real <= r < i as real + 1.0
    ensures r < 0.0 ==> i <= 0 && r <= i as real < r + 1.0
  {
    if 0.0 <= r then r.Floor else -((-r).Floor)
  }

  // ------------------------------------------------------- grid projection

  /** `pos.min(axis=0)` along one axis. */
  function AxisMin(pos: seq<Vec3>, a: nat): (lo: real)
    requires |pos| > 0 && a < 3
    ensures forall i :: 0 <= i < |pos| ==> lo <= pos[i].Axis(a)
    ensures exists i :: 0 <= i < |pos| && pos[i].Axis(a) == lo
    decreases |pos|
  {
    if |pos| == 1 then pos[0].Axis(a)
    else
      var rest := AxisMin(pos[1..], a);
      assert forall i :: 1 <= i < |pos| ==> pos[i] == pos[1..][i - 1];
      if pos[0].Axis(a) <= rest then pos[0].Axis(a) else rest
  }

  /** `pos.max(axis=0)` along one axis. */
  function AxisMax(pos: seq<Vec3>, a: nat): (hi: real)
    requires |pos| > 0 && a < 3
    ensures forall i :: 0 <= i < |pos| ==> pos[i].Axis(a) <= hi
    ensures exists i :: 0 <= i < |pos| && pos[i].Axis(a) == hi
    decreases |pos|
  {
    if |pos| == 1 then pos[0].Axis(a)
    else
      var rest := AxisMax(pos[1..], a);
      assert forall i :: 1 <= i < |pos| ==> pos[i] == pos[1..][i - 1];
      if rest <= pos[0].Axis(a) then pos[0].Axis(a) else rest
  }

  /**
   * The sensor set has nonzero extent on every axis. The source divides by
   * `vmax - vmin` without a guard, so this is what it needs of its input.
   */
  predicate NonDegenerate(pos: seq<Vec3>)
  {
    |pos| > 0 && forall a :: 0 <= a < 3 ==> AxisMin(pos, a) < AxisMax(pos, a)
  }

  /** Division by a positive extent keeps order and maps [0, b] into [0, 1]. */
  lemma DivideByExtent(a1: real, a2: real, b: real)
    requires 0.0 <= a1 <= a2 <= b && 0.0 < b
    ensures 0.0 <= a1 / b <= a2 / b <= 1.0
    ensures a1 == 0.0 ==> a1 / b == 0.0
    ensures a2 == b ==> a2 / b == 1.0
  {
    var q1, q2 := a1 / b, a2 / b;
    assert q1 * b == a1 && q2 * b == a2;
    assert (q2 - q1) * b == a2 - a1;
    assert (1.0 - q2) * b == b - a2;
  }

  /** Scaling by a resolution R >= 0 keeps order. */
  lemma ScaleByResolution(q1: real, q2: real, R: nat)
    requires q1 <= q2
    ensures q1 * (R as real) <= q2 * (R as real)
  {
    assert q2 * (R as real) - q1 * (R as real) == (q2 - q1) * (R as real);
  }

  /** `trunc((v - lo) / (hi - lo) * R)` for one coordinate. */
  function ProjectAxis(v: real, lo: real, hi: real, R: nat): (k: int)
    requires lo < hi && lo <= v <= hi
    ensures 0 <= k <= R
    ensures v == lo ==> k == 0
    ensures v == hi ==> k == R
    ensures k as real <= (v - lo) / (hi - lo) * (R as real) < k as real + 1.0
  {
    var q := (v - lo) / (hi - lo);
    DivideByExtent(v - lo, v - lo, hi - lo);
    ScaleByResolution(0.0, q, R);
    ScaleByResolution(q, 1.0, R);
    assert 0.0 <= q * (R as real) <= 1.0 * (R as real);
    Trunc(q * (R as real))
  }

  lemma ProjectAxisMonotone(v1: real, v2: real, lo: real, hi: real, R: nat)
    requires lo < hi && lo <= v1 <= v2 <= hi
    ensures ProjectAxis(v1, lo, hi, R) <= ProjectAxis(v2, lo, hi, R)
  {
    DivideByExtent(v1 - lo, v2 - lo, hi - lo);
    var r1, r2 := (v1 - lo) / (hi - lo) * (R as real), (v2 - lo) / (hi - lo) * (R as real);
    ScaleByResolution((v1 - lo) / (hi - lo), (v2 - lo) / (hi - lo), R);
    assert 0.0 <= r1 <= r2;
    assert Trunc(r1) as real <= r1 <= r2 < Trunc(r2) as real + 1.0;
  }

  /** The projected coordinate of sensor i on axis a. */
  function ProjectCoord(pos: seq<Vec3>, i: nat, a: nat, R: nat): (k: int)
    requires NonDegenerate(pos) && i < |pos| && a < 3
  {
    ProjectAxis(pos[i].Axis(a), AxisMin(pos, a), AxisMax(pos, a), R)
  }

  /**
   * `xyz_ch_pos`: one cell per sensor, in sensor order, each coordinate
   * projected on its own axis against the bounding box of all sensors.
   */
  function Project(pos: seq<Vec3>, R: nat): (cells: seq<Cell>)
    requires NonDegenerate(pos)
    ensures |cells| == |pos|
    ensures forall i, a :: 0 <= i < |pos| && 0 <= a < 3 ==>
      cells[i].Axis(a) == ProjectAxis(pos[i].Axis(a), AxisMin(pos, a), AxisMax(pos, a), R)
  {
    var cells := seq(|pos|, i requires 0 <= i < |pos| =>
      Cell(ProjectCoord(pos, i, 0, R), ProjectCoord(pos, i, 1, R), ProjectCoord(pos, i, 2, R)));
    assert forall i, a :: 0 <= i < |pos| && 0 <= a < 3 ==> cells[i].Axis(a) == ProjectCoord(pos, i, a, R) by {
      forall i, a | 0 <= i < |pos| && 0 <= a < 3
        ensures cells[i].Axis(a) == ProjectCoord(pos, i, a, R)
      {
        assert a == 0 || a == 1 || a == 2;
      }
    }
    cells
  }

  /**
   * Every cell coordinate lies in [0, R]: a sensor on the minimum face of an
   * axis gets 0 and one on the maximum face gets R itself, which is not clamped.
   */
  lemma ProjectBounds(pos: seq<Vec3>, R: nat, i: nat, a: nat)
    requires NonDegenerate(pos) && i < |pos| && a < 3
    ensures 0 <= Project(pos, R)[i].Axis(a) <= R
    ensures pos[i].Axis(a) == AxisMin(pos, a) ==> Project(pos, R)[i].Axis(a) == 0
    ensures pos[i].Axis(a) == AxisMax(pos, a) ==> Project(pos, R)[i].Axis(a) == R
  {
  }

  /** A larger raw coordinate never yields a smaller cell index. */
  lemma ProjectMonotone(pos: seq<Vec3>, R: nat, i: nat, j: nat, a: nat)
    requires NonDegenerate(pos) && i < |pos| && j < |pos| && a < 3
    requires pos[i].Axis(a) <= pos[j].Axis(a)
    ensures Project(pos, R)[i].Axis(a) <= Project(pos, R)[j].Axis(a)
  {
    ProjectAxisMonotone(pos[i].Axis(a), pos[j].Axis(a), AxisMin(pos, a), AxisMax(pos, a), R);
  }

  /**
   * Some sensor lands on index R of every axis: one past the last lattice
   * index, because the source truncates and does not clamp.
   */
  lemma ProjectReachesR(pos: seq<Vec3>, R: nat, a: nat)
    requires NonDegenerate(pos) && a < 3
    ensures exists i :: 0 <= i < |pos| && Project(pos, R)[i].Axis(a) == R
  {
    var i :| 0 <= i < |pos| && pos[i].Axis(a) == AxisMax(pos, a);
    assert Project(pos, R)[i].Axis(a) == R;
  }

  // -------------------------------------------------------- distance field

  /** The integer squared distance from lattice point (x, y, z) to cell c. */
  function SqDist(c: Cell, x: int, y: int, z: int): (d: int)
    ensures d >= 0
    ensures d == 0 <==> (x == c.x && y == c.y && z == c.z)
  {
    var dx, dy, dz := x - c.x, y - c.y, z - c.z;
    assert dx * dx >= 0 && dy * dy >= 0 && dz * dz >= 0;
    assert dx != 0 ==> dx * dx > 0;
    assert dy != 0 ==> dy * dy > 0;
    assert dz != 0 ==> dz * dz > 0;
    dx * dx + dy * dy + dz * dz
  }

  /**
   * `dist`: for every sensor's cell, the square root of the integer squared
   * distance to every point of the R x R x R index lattice (`meshgrid` with
   * `indexing="ij"`, so the lattice point at [x][y][z] is (x, y, z)).
   */
  function Dist(cells: seq<Cell>, R: nat, sqrt: real -> real): (d: seq<Field>)
    ensures IsDistField(d, |cells|, R)
    ensures forall c, x, y, z :: 0 <= c < |cells| && 0 <= x < R && 0 <= y < R && 0 <= z < R ==>
      d[c][x][y][z] == sqrt(SqDist(cells[c], x, y, z) as real)
  {
    seq(|cells|, c requires 0 <= c < |cells| =>
      seq(R, x =>
        seq(R, y =>
          seq(R, z => sqrt(SqDist(cells[c], x, y, z) as real)))))
  }

  /** Every distance is non-negative. */
  lemma DistNonNegative(cells: seq<Cell>, R: nat, sqrt: real -> real)
    requires SqrtNonNegative(sqrt)
    ensures forall c, x, y, z :: 0 <= c < |cells| && 0 <= x < R && 0 <= y < R && 0 <= z < R ==>
      Dist(cells, R, sqrt)[c][x][y][z] >= 0.0
  {
  }

  /** The distance is zero at the sensor's own cell when that cell is inside the lattice. */
  lemma DistZeroAtOwnCell(cells: seq<Cell>, R: nat, sqrt: real -> real, c: nat)
    requires SqrtOfZero(sqrt) && c < |cells|
    requires 0 <= cells[c].x < R && 0 <= cells[c].y < R && 0 <= cells[c].z < R
    ensures Dist(cells, R, sqrt)[c][cells[c].x][cells[c].y][cells[c].z] == 0.0
  {
  }

  /** Two sensors in the same cell have the same distance block. */
  lemma DistSameCell(cells: seq<Cell>, R: nat, sqrt: real -> real, i: nat, j: nat)
    requires i < |cells| && j < |cells| && cells[i] == cells[j]
    ensures Dist(cells, R, sqrt)[i] == Dist(cells, R, sqrt)[j]
  {
  }

  // ------------------------------------------------------- frequency scale

  /**
   * `jnp.linspace(low, high, n)`: n evenly spaced values from low to high,
   * both ends included; `[low]` when n is 1.
   */
  function Linspace(low: real, high: real, n: nat): (s: seq<real>)
    ensures |s| == n
    ensures n >= 1 ==> s[0] == low
    ensures n >= 2 ==> s[n - 1] == high
    ensures n == 1 ==> s == [low]
    ensures n >= 2 ==> forall f :: 0 <= f < n ==> s[f] == low + (f as real) * LinspaceStep(low, high, n)
  {
    if n == 0 then []
    else if n == 1 then [low]
    else seq(n, f requires 0 <= f < n => LinspaceEntry(low, high, n, f))
  }

  /** The spacing (high - low) / (n - 1) of `jnp.linspace(low, high, n)` for n >= 2. */
  function LinspaceStep(low: real, high: real, n: nat): real
    requires n >= 2
  {
    (high - low) / ((n - 1) as real)
  }

  /**
   * Entry f of `jnp.linspace(low, high, n)` for n >= 2: jax's interpolation
   * `low * (1 - f / div) + high * (f / div)` with div = n - 1, and `high`
   * itself at the last position.
   */
  function LinspaceEntry(low: real, high: real, n: nat, f: nat): (v: real)
    requires 2 <= n && f < n
    ensures v == low + (f as real) * LinspaceStep(low, high, n)
    ensures f == 0 ==> v == low
    ensures f == n - 1 ==> v == high
  {
    InterpolateStep(low, high, f as real, (n - 1) as real);
    if f < n - 1 then
      low * (1.0 - (f as real) / ((n - 1) as real)) + high * ((f as real) / ((n - 1) as real))
    else high
  }

  lemma InterpolateStep(low: real, high: real, x: real, div: real)
    requires div > 0.0
    ensures low * (1.0 - x / div) + high * (x / div) == low + x * ((high - low) / div)
    ensures x == 0.0 ==> low + x * ((high - low) / div) == low
    ensures x == div ==> low + x * ((high - low) / div) == high
  {
    var q := x / div;
    assert q * div == x;
    assert x * ((high - low) / div) == q * (high - low);
  }

  /** Consecutive entries differ by the same step. */
  lemma LinspaceEvenlySpaced(low: real, high: real, n: nat, f: nat)
    requires f + 1 < n
    ensures Linspace(low, high, n)[f + 1] - Linspace(low, high, n)[f] == LinspaceStep(low, high, n)
  {
    var s, step := Linspace(low, high, n), LinspaceStep(low, high, n);
    assert s[f + 1] == low + ((f + 1) as real) * step;
    assert s[f] == low + (f as real) * step;
    NextMultiple(f, step);
  }

  lemma NextMultiple(f: nat, step: real)
    ensures ((f + 1) as real) * step - (f as real) * step == step
  {
  }

  // --------------------------------------------------------- normalisation

  /** The `1e-6` added to every norm before dividing. */
  const EPS: real := 0.000001

  /** Every (sensor, frequency) series of m has an entry at time step t. */
  predicate HasStep(m: Tensor, t: nat)
  {
    forall c, f :: 0 <= c < |m| && 0 <= f < |m[c]| ==> t < |m[c][f]|
  }

  /** Sum of squares of row[f][t] over the first n frequencies f. */
  function RowSumSq(row: seq<seq<real>>, t: nat, n: nat): (s: real)
    requires n <= |row| && forall f :: 0 <= f < |row| ==> t < |row[f]|
    ensures s >= 0.0
  {
    if n == 0 then 0.0 else RowSumSq(row, t, n - 1) + row[n - 1][t] * row[n - 1][t]
  }

  /** Sum of squares of m[c][f][t] over the first n sensors c and all frequencies f. */
  function SensorSumSq(m: Tensor, t: nat, n: nat): (s: real)
    requires n <= |m| && HasStep(m, t)
    ensures s >= 0.0
  {
    if n == 0 then 0.0 else SensorSumSq(m, t, n - 1) + RowSumSq(m[n - 1], t, |m[n - 1]|)
  }

  /**
   * The squared Frobenius norm of time step t's [sensor, frequency] slice:
   * `jnp.linalg.norm(tfr_data, axis=(0, 1))[t]` is its square root.
   */
  function SliceSumSq(m: Tensor, t: nat): (s: real)
    requires HasStep(m, t)
    ensures s >= 0.0
  {
    SensorSumSq(m, t, |m|)
  }

  /** The sum of a sequence of reals, added from the front. */
  function Sum(xs: seq<real>): real
  {
    if |xs| == 0 then 0.0 else Sum(xs[..|xs| - 1]) + xs[|xs| - 1]
  }

  /** The divisor of time step t: its slice norm plus `1e-6`. */
  function Divisor(m: Tensor, t: nat, sqrt: real -> real): (d: real)
    requires HasStep(m, t) && SqrtNonNegative(sqrt)
    ensures d >= EPS
  {
    sqrt(SliceSumSq(m, t)) + EPS
  }

  /**
   * Line 36: every entry divided by the divisor of its own time step, so
   * each time step is scaled by one factor across all sensors and frequencies.
   */
  function Normalize(m: Tensor, F: nat, T: nat, sqrt: real -> real): (r: Tensor)
    requires IsTensor(m, |m|, F, T) && SqrtNonNegative(sqrt)
    ensures IsTensor(r, |m|, F, T)
    ensures forall c, f, t :: 0 <= c < |m| && 0 <= f < F && 0 <= t < T ==>
      r[c][f][t] * Divisor(m, t, sqrt) == m[c][f][t]
  {
    var den := seq(T, t requires 0 <= t < T => Divisor(m, t, sqrt));
    seq(|m|, c requires 0 <= c < |m| =>
      seq(F, f requires 0 <= f < F =>
        seq(T, t requires 0 <= t < T => m[c][f][t] / den[t])))
  }

  /** Scaling every term of a sum by d squared scales the sum by d squared. */
  lemma {:induction false} SumScaled(xs: seq<real>, ys: seq<real>, d: real)
    requires |xs| == |ys|
    requires forall i :: 0 <= i < |xs| ==> xs[i] * (d * d) == ys[i]
    ensures Sum(xs) * (d * d) == Sum(ys)
  {
    if |xs| > 0 {
      var n := |xs| - 1;
      SumScaled(xs[..n], ys[..n], d);
      AddScaled(Sum(xs[..n]), xs[n], Sum(ys[..n]), ys[n], d);
    }
  }

  lemma AddScaled(a: real, b: real, a2: real, b2: real, d: real)
    requires a * (d * d) == a2 && b * (d * d) == b2
    ensures (a + b) * (d * d) == a2 + b2
  {
  }

  /** x * d == y gives x^2 * d^2 == y^2. */
  lemma SquareScaled(x: real, y: real, d: real)
    requires x * d == y
    ensures x * x * (d * d) == y * y
  {
  }

  /** The squares row[f][t]^2 of one sensor's entries at time step t, by frequency. */
  function RowSquares(row: seq<seq<real>>, t: nat): (sq: seq<real>)
    requires forall f :: 0 <= f < |row| ==> t < |row[f]|
    ensures |sq| == |row|
  {
    seq(|row|, f requires 0 <= f < |row| => row[f][t] * row[f][t])
  }

  /** The row sums of squares of time step t, by sensor. */
  function StepRowSums(m: Tensor, t: nat): (rs: seq<real>)
    requires HasStep(m, t)
    ensures |rs| == |m|
  {
    seq(|m|, c requires 0 <= c < |m| => RowSumSq(m[c], t, |m[c]|))
  }

  /** RowSumSq adds up the first n squares of the row. */
  lemma {:induction false} RowSumSqIsSum(row: seq<seq<real>>, t: nat, n: nat)
    requires n <= |row| && forall f :: 0 <= f < |row| ==> t < |row[f]|
    ensures RowSumSq(row, t, n) == Sum(RowSquares(row, t)[..n])
  {
    if n > 0 {
      RowSumSqIsSum(row, t, n - 1);
      assert RowSquares(row, t)[..n][..n - 1] == RowSquares(row, t)[..n - 1];
    }
  }

  /** SensorSumSq adds up the first n row sums of squares. */
  lemma {:induction false} SensorSumSqIsSum(m: Tensor, t: nat, n: nat)
    requires n <= |m| && HasStep(m, t)
    ensures SensorSumSq(m, t, n) == Sum(StepRowSums(m, t)[..n])
  {
    if n > 0 {
      SensorSumSqIsSum(m, t, n - 1);
      assert StepRowSums(m, t)[..n][..n - 1] == StepRowSums(m, t)[..n - 1];
    }
  }

  /** Rows that agree on step t up to one factor d have sums of squares that differ by d squared. */
  lemma RowSumSqScaled(r: seq<seq<real>>, row: seq<seq<real>>, t: nat, d: real)
    requires |r| == |row|
    requires forall f :: 0 <= f < |row| ==> t < |row[f]| && t < |r[f]|
    requires forall f :: 0 <= f < |row| ==> r[f][t] * d == row[f][t]
    ensures RowSumSq(r, t, |r|) * (d * d) == RowSumSq(row, t, |row|)
  {
    var xs, ys := RowSquares(r, t), RowSquares(row, t);
    forall f | 0 <= f < |row|
      ensures xs[f] * (d * d) == ys[f]
    {
      SquareScaled(r[f][t], row[f][t], d);
    }
    SumScaled(xs, ys, d);
    RowSumSqIsSum(r, t, |r|);
    RowSumSqIsSum(row, t, |row|);
    assert xs[..|r|] == xs && ys[..|row|] == ys;
  }

  /** Tensors that agree on step t up to one factor d have slice sums of squares that differ by d squared. */
  lemma SliceSumSqScaled(r: Tensor, m: Tensor, t: nat, d: real)
    requires |r| == |m| && HasStep(m, t) && HasStep(r, t)
    requires forall c :: 0 <= c < |m| ==> |r[c]| == |m[c]|
    requires forall c, f :: 0 <= c < |m| && 0 <= f < |m[c]| ==> r[c][f][t] * d == m[c][f][t]
    ensures SliceSumSq(r, t) * (d * d) == SliceSumSq(m, t)
  {
    RowsScaled(r, m, t, d);
    RowSumsScaled(r, m, t, d);
  }

  lemma RowsScaled(r: Tensor, m: Tensor, t: nat, d: real)
    requires |r| == |m| && HasStep(m, t) && HasStep(r, t)
    requires forall c :: 0 <= c < |m| ==> |r[c]| == |m[c]|
    requires forall c, f :: 0 <= c < |m| && 0 <= f < |m[c]| ==> r[c][f][t] * d == m[c][f][t]
    ensures forall c :: 0 <= c < |m| ==> StepRowSums(r, t)[c] * (d * d) == StepRowSums(m, t)[c]
  {
    forall c | 0 <= c < |m|
      ensures StepRowSums(r, t)[c] * (d * d) == StepRowSums(m, t)[c]
    {
      RowSumSqScaled(r[c], m[c], t, d);
    }
  }

  lemma RowSumsScaled(r: Tensor, m: Tensor, t: nat, d: real)
    requires |r| == |m| && HasStep(m, t) && HasStep(r, t)
    requires forall c :: 0 <= c < |m| ==> StepRowSums(r, t)[c] * (d * d) == StepRowSums(m, t)[c]
    ensures SliceSumSq(r, t) * (d * d) == SliceSumSq(m, t)
  {
    var xs, ys := StepRowSums(r, t), StepRowSums(m, t);
    SumScaled(xs, ys, d);
    SensorSumSqIsSum(r, t, |r|);
    SensorSumSqIsSum(m, t, |m|);
    assert xs[..|r|] == xs && ys[..|m|] == ys;
  }

  /** Rows that agree at step t have the same sums of squares there. */
  lemma {:induction false} RowSumSqAgree(a: seq<seq<real>>, b: seq<seq<real>>, t: nat, n: nat)
    requires |a| == |b| && n <= |b|
    requires forall f :: 0 <= f < |b| ==> t < |a[f]| && t < |b[f]| && a[f][t] == b[f][t]
    ensures RowSumSq(a, t, n) == RowSumSq(b, t, n)
  {
    if n > 0 {
      RowSumSqAgree(a, b, t, n - 1);
    }
  }

  lemma {:induction false} SensorSumSqAgree(a: Tensor, b: Tensor, t: nat, n: nat)
    requires |a| == |b| && n <= |b| && HasStep(a, t) && HasStep(b, t)
    requires forall c :: 0 <= c < |b| ==> |a[c]| == |b[c]|
    requires forall c, f :: 0 <= c < |b| && 0 <= f < |b[c]| ==> a[c][f][t] == b[c][f][t]
    ensures SensorSumSq(a, t, n) == SensorSumSq(b, t, n)
  {
    if n > 0 {
      SensorSumSqAgree(a, b, t, n - 1);
      RowSumSqAgree(a[n - 1], b[n - 1], t, |b[n - 1]|);
    }
  }

  /**
   * After normalisation the squared norm of step t, times the square of
   * that step's divisor, is the old squared norm.
   */
  lemma NormalizedStepEnergy(m: Tensor, F: nat, T: nat, sqrt: real -> real, t: nat)
    requires IsTensor(m, |m|, F, T) && SqrtNonNegative(sqrt) && t < T
    ensures SliceSumSq(Normalize(m, F, T, sqrt), t) * (Divisor(m, t, sqrt) * Divisor(m, t, sqrt))
         == SliceSumSq(m, t)
  {
    SliceSumSqScaled(Normalize(m, F, T, sqrt), m, t, Divisor(m, t, sqrt));
  }

  /**
   * Where n, the norm of step t, is a true square root of the step's sum of
   * squares, the normalised step has sum of squares (n / (n + 1e-6))^2 < 1.
   */
  lemma NormalizedStepBelowOne(m: Tensor, F: nat, T: nat, sqrt: real -> real, t: nat)
    requires IsTensor(m, |m|, F, T) && SqrtNonNegative(sqrt) && t < T
    requires sqrt(SliceSumSq(m, t)) * sqrt(SliceSumSq(m, t)) == SliceSumSq(m, t)
    ensures var n := sqrt(SliceSumSq(m, t));
      SliceSumSq(Normalize(m, F, T, sqrt), t) == (n / (n + EPS)) * (n / (n + EPS))
    ensures SliceSumSq(Normalize(m, F, T, sqrt), t) < 1.0
  {
    NormalizedStepEnergy(m, F, T, sqrt, t);
    RatioBelowOne(SliceSumSq(Normalize(m, F, T, sqrt), t), sqrt(SliceSumSq(m, t)), Divisor(m, t, sqrt));
  }

  /** For e = n + EPS with n >= 0, sr * e^2 == n^2 makes sr the square of n / e, which is below 1. */
  lemma RatioBelowOne(sr: real, n: real, e: real)
    requires n >= 0.0 && e == n + EPS && sr * (e * e) == n * n
    ensures sr == (n / e) * (n / e)
    ensures sr < 1.0
  {
    var q := n / e;
    assert q * e == n;
    assert e * e > 0.0;
    assert (sr - q * q) * (e * e) == sr * (e * e) - (q * e) * (q * e);
    ZeroProduct(sr - q * q, e * e);
    assert 0.0 <= q < 1.0 by {
      assert (1.0 - q) * e == EPS;
    }
    assert q * q <= q * 1.0;
  }

  /** x * p == 0 with p > 0 forces x == 0. */
  lemma ZeroProduct(x: real, p: real)
    requires p > 0.0 && x * p == 0.0
    ensures x == 0.0
  {
  }

  /** Normalisation keeps the sign of every entry, and an all-zero step stays zero. */
  lemma NormalizePreservesSign(m: Tensor, F: nat, T: nat, sqrt: real -> real, c: nat, f: nat, t: nat)
    requires IsTensor(m, |m|, F, T) && SqrtNonNegative(sqrt) && c < |m| && f < F && t < T
    ensures var r := Normalize(m, F, T, sqrt);
      (r[c][f][t] > 0.0 <==> m[c][f][t] > 0.0) &&
      (r[c][f][t] == 0.0 <==> m[c][f][t] == 0.0) &&
      (r[c][f][t] < 0.0 <==> m[c][f][t] < 0.0)
  {
    var r, d := Normalize(m, F, T, sqrt), Divisor(m, t, sqrt);
    assert r[c][f][t] * d == m[c][f][t];
    if r[c][f][t] > 0.0 {
      assert r[c][f][t] * d > 0.0;
    } else if r[c][f][t] < 0.0 {
      assert r[c][f][t] * d < 0.0;
    }
  }

  // -------------------------------------------------------- time truncation

  /** Python keeps index i of an axis of length n under the slice `[:k]`. */
  predicate SliceKeeps(i: nat, k: int, n: nat)
  {
    if k >= 0 then i < k else i < n + k
  }

  /**
   * The stop index of the Python slice `[:k]` on an axis of length n: index
   * i is kept exactly when i < k, where a negative k counts from the end.
   */
  function SliceStop(k: int, n: nat): (e: nat)
    ensures e <= n
    ensures forall i: nat :: i < n ==> (i < e <==> SliceKeeps(i, k, n))
  {
    if k >= 0 then (if k < n then k else n)
    else if n + k >= 0 then n + k else 0
  }

  /** The cases the source's callers meet: the default -1, a cap inside the axis, a cap past it. */
  lemma SliceStopCases(k: int, n: nat)
    ensures k == -1 && n >= 1 ==> SliceStop(k, n) == n - 1
    ensures k == -1 && n == 0 ==> SliceStop(k, n) == 0
    ensures 0 <= k <= n ==> SliceStop(k, n) == k
    ensures k > n ==> SliceStop(k, n) == n
  {
    var e := SliceStop(k, n);
    if k == -1 && n >= 1 {
      assert (n - 1 < e) == false;
      assert n >= 2 ==> n - 2 < e;
    } else if 0 <= k <= n {
      if k > 0 { assert k - 1 < e; }
      if k < n { assert !(k < e); }
    } else if k > n {
      if n > 0 { assert n - 1 < e; }
    }
  }

  /** `tfr_data[:, :, :k]`: every (sensor, frequency) series cut to its first SliceStop(k, T) steps. */
  function Truncate(m: Tensor, F: nat, T: nat, k: int): (r: Tensor)
    requires IsTensor(m, |m|, F, T)
    ensures IsTensor(r, |m|, F, SliceStop(k, T))
    ensures forall c, f, t :: 0 <= c < |m| && 0 <= f < F && 0 <= t < SliceStop(k, T) ==>
      r[c][f][t] == m[c][f][t]
  {
    seq(|m|, c requires 0 <= c < |m| =>
      seq(F, f requires 0 <= f < F => m[c][f][..SliceStop(k, T)]))
  }

  /** Tensors of one shape that agree everywhere are equal. */
  lemma TensorExt(a: Tensor, b: Tensor, C: nat, F: nat, T: nat)
    requires IsTensor(a, C, F, T) && IsTensor(b, C, F, T)
    requires forall c, f, t :: 0 <= c < C && 0 <= f < F && 0 <= t < T ==> a[c][f][t] == b[c][f][t]
    ensures a == b
  {
    forall c | 0 <= c < C
      ensures a[c] == b[c]
    {
      forall f | 0 <= f < F
        ensures a[c][f] == b[c][f]
      {
      }
    }
  }

  /** Cutting the time axis leaves the divisor of every kept step unchanged. */
  lemma TruncateKeepsDivisor(m: Tensor, F: nat, T: nat, k: int, sqrt: real -> real, t: nat)
    requires IsTensor(m, |m|, F, T) && SqrtNonNegative(sqrt) && t < SliceStop(k, T)
    ensures Divisor(Truncate(m, F, T, k), t, sqrt) == Divisor(m, t, sqrt)
  {
    var cut := Truncate(m, F, T, k);
    assert HasStep(cut, t) && HasStep(m, t);
    SensorSumSqAgree(cut, m, t, |m|);
  }

  /** Entry (c, f, t) of the normalised tensor is the raw entry over the divisor of step t. */
  lemma NormalizeEntry(m: Tensor, F: nat, T: nat, sqrt: real -> real, c: nat, f: nat, t: nat)
    requires IsTensor(m, |m|, F, T) && SqrtNonNegative(sqrt) && c < |m| && f < F && t < T
    ensures Normalize(m, F, T, sqrt)[c][f][t] == m[c][f][t] / Divisor(m, t, sqrt)
  {
  }

  /**
   * Normalising the full tensor and then cutting it gives the same tensor as
   * cutting first: each step's divisor depends on that step alone.
   */
  lemma TruncateNormalizeCommute(m: Tensor, F: nat, T: nat, k: int, sqrt: real -> real)
    requires IsTensor(m, |m|, F, T) && SqrtNonNegative(sqrt)
    ensures Truncate(Normalize(m, F, T, sqrt), F, T, k)
         == Normalize(Truncate(m, F, T, k), F, SliceStop(k, T), sqrt)
  {
    var e := SliceStop(k, T);
    var cut := Truncate(m, F, T, k);
    var a := Truncate(Normalize(m, F, T, sqrt), F, T, k);
    var b := Normalize(cut, F, e, sqrt);
    forall c, f, t | 0 <= c < |m| && 0 <= f < F && 0 <= t < e
      ensures a[c][f][t] == b[c][f][t]
    {
      TruncateKeepsDivisor(m, F, T, k, sqrt, t);
      NormalizeEntry(m, F, T, sqrt, c, f, t);
      NormalizeEntry(cut, F, e, sqrt, c, f, t);
    }
    TensorExt(a, b, |m|, F, e);
  }

  // ---------------------------------------------------------- voxel update

  /** `jnp.zeros((T, R, R, R))`. */
  function Zeros(T: nat, R: nat): (v: Volume)
    ensures IsVolume(v, T, R)
    ensures forall t, x, y, z :: 0 <= t < T && 0 <= x < R && 0 <= y < R && 0 <= z < R ==>
      v[t][x][y][z] == 0.0
  {
    seq(T, t => seq(R, x => seq(R, y => seq(R, z => 0.0))))
  }

  /** Volumes of one shape that agree everywhere are equal. */
  lemma VolumeExt(a: Volume, b: Volume, T: nat, R: nat)
    requires IsVolume(a, T, R) && IsVolume(b, T, R)
    requires forall t, x, y, z :: 0 <= t < T && 0 <= x < R && 0 <= y < R && 0 <= z < R ==>
      a[t][x][y][z] == b[t][x][y][z]
    ensures a == b
  {
    forall t | 0 <= t < T
      ensures a[t] == b[t]
    {
      forall x | 0 <= x < R
        ensures a[t][x] == b[t][x]
      {
        forall y | 0 <= y < R
          ensures a[t][x][y] == b[t][x][y]
        {
        }
      }
    }
  }

  /**
   * The argument of the sine: a distance times a frequency scale. Naming the
   * product keeps `sin`'s argument one term, so the entries built in
   * ShiftLine match the ones its ensures speaks about.
   */
  function Phase(d: real, s: real): real
  {
    d * s
  }

  /** One line of `b + sin(d * s) * a` along z. */
  function ShiftLine(b: seq<real>, d: seq<real>, s: real, a: real, R: nat, sin: real -> real): (r: seq<real>)
    requires |b| == R && |d| == R
    ensures |r| == R
    ensures forall z :: 0 <= z < R ==> r[z] == b[z] + sin(d[z] * s) * a
  {
    var r := seq(R, z requires 0 <= z < R => b[z] + sin(Phase(d[z], s)) * a);
    assert forall z :: 0 <= z < R ==> r[z] == b[z] + sin(Phase(d[z], s)) * a;
    r
  }

  /** One plane of `b + sin(d * s) * a`, indexed [y][z]. */
  function ShiftPlane(b: seq<seq<real>>, d: seq<seq<real>>, s: real, a: real, R: nat,
                      sin: real -> real): (r: seq<seq<real>>)
    requires |b| == R && |d| == R && forall y :: 0 <= y < R ==> |b[y]| == R && |d[y]| == R
    ensures |r| == R && forall y :: 0 <= y < R ==> |r[y]| == R
    ensures forall y, z :: 0 <= y < R && 0 <= z < R ==> r[y][z] == b[y][z] + sin(d[y][z] * s) * a
  {
    seq(R, y requires 0 <= y < R => ShiftLine(b[y], d[y], s, a, R, sin))
  }

  /** One block of `b + sin(d * s) * a`, indexed [x][y][z]. */
  function ShiftBlock(b: Field, d: Field, s: real, a: real, R: nat, sin: real -> real): (r: Field)
    requires IsCube(b, R) && IsCube(d, R)
    ensures IsCube(r, R)
    ensures forall x, y, z :: 0 <= x < R && 0 <= y < R && 0 <= z < R ==>
      r[x][y][z] == b[x][y][z] + sin(d[x][y][z] * s) * a
  {
    seq(R, x requires 0 <= x < R => ShiftPlane(b[x], d[x], s, a, R, sin))
  }

  /**
   * `_update_voxels`: broadcasting `sin(dist[ch] * s)` over time and the
   * (T, 1, 1, 1) magnitude series over space, it adds
   * `sin(dist[ch][x][y][z] * s) * mcf[t]` at every (t, x, y, z). The shape
   * is kept and every entry moves by exactly that amount.
   */
  function UpdateVoxels(vol: Volume, dist: seq<Field>, mcf: seq<real>, s: real, ch: nat, R: nat,
                        sin: real -> real): (r: Volume)
    requires ch < |dist| && IsCube(dist[ch], R) && IsVolume(vol, |mcf|, R)
    ensures IsVolume(r, |mcf|, R)
    ensures forall t, x, y, z :: 0 <= t < |mcf| && 0 <= x < R && 0 <= y < R && 0 <= z < R ==>
      r[t][x][y][z] - vol[t][x][y][z] == sin(dist[ch][x][y][z] * s) * mcf[t]
  {
    seq(|mcf|, t requires 0 <= t < |mcf| => ShiftBlock(vol[t], dist[ch], s, mcf[t], R, sin))
  }

  /** An all-zero magnitude series leaves the volume unchanged. */
  lemma UpdateSilentIsIdentity(vol: Volume, dist: seq<Field>, mcf: seq<real>, s: real, ch: nat, R: nat,
                               sin: real -> real)
    requires ch < |dist| && IsCube(dist[ch], R) && IsVolume(vol, |mcf|, R)
    requires forall t :: 0 <= t < |mcf| ==> mcf[t] == 0.0
    ensures UpdateVoxels(vol, dist, mcf, s, ch, R, sin) == vol
  {
    VolumeExt(UpdateVoxels(vol, dist, mcf, s, ch, R, sin), vol, |mcf|, R);
  }

  // ------------------------------------------------ (sensor, frequency) pairs

  /**
   * `product(range(C), range(F))`: position k holds the pair whose
   * sensor-major rank `ch * F + freq` is k.
   */
  function Pairs(C: nat, F: nat): (ps: seq<Pair>)
    ensures |ps| == C * F
    ensures forall k :: 0 <= k < |ps| ==>
      ps[k].ch < C && ps[k].freq < F && ps[k].ch * F + ps[k].freq == k
  {
    if C == 0 then []
    else
      var front := Pairs(C - 1, F);
      assert C * F == (C - 1) * F + F;
      front + seq(F, f requires 0 <= f < F => Pair(C - 1, f))
  }

  /** The pair at rank r: ch * F + f < C * F and the ranks of two pairs decide their order. */
  lemma RankOrder(a: nat, b: nat, c: nat, d: nat, F: nat)
    requires b < F && d < F
    ensures a * F + b < c * F + d <==> a < c || (a == c && b < d)
  {
    if a < c {
      NextRowStart(a, c, F);
    } else if a > c {
      NextRowStart(c, a, F);
    }
  }

  /** Row a + 1 of a row-major layout with rows of F starts at or before row c > a. */
  lemma NextRowStart(a: nat, c: nat, F: nat)
    requires a < c
    ensures a * F + F <= c * F
  {
    var k: nat := c - (a + 1);
    assert c * F == a * F + F + k * F;
  }

  /** Every (sensor, frequency) pair is visited exactly once, at position ch * F + f. */
  lemma PairsExactlyOnce(C: nat, F: nat, ch: nat, f: nat)
    requires ch < C && f < F
    ensures ch * F + f < |Pairs(C, F)| && Pairs(C, F)[ch * F + f] == Pair(ch, f)
    ensures forall k :: 0 <= k < |Pairs(C, F)| && Pairs(C, F)[k] == Pair(ch, f) ==> k == ch * F + f
  {
    var ps := Pairs(C, F);
    RankOrder(ch, f, C, 0, F);
    var p := ps[ch * F + f];
    RankOrder(p.ch, p.freq, ch, f, F);
    RankOrder(ch, f, p.ch, p.freq, F);
  }

  /** Pairs come in sensor-major, frequency-minor order. */
  lemma PairsSensorMajor(C: nat, F: nat, i: nat, j: nat)
    requires i < j < |Pairs(C, F)|
    ensures var ps := Pairs(C, F);
      ps[i].ch < ps[j].ch || (ps[i].ch == ps[j].ch && ps[i].freq < ps[j].freq)
  {
    var ps := Pairs(C, F);
    RankOrder(ps[i].ch, ps[i].freq, ps[j].ch, ps[j].freq, F);
  }

  // ----------------------------------------------------------- accumulation

  /** The shapes the accumulation loop needs: one distance block per sensor, [C, F, T] magnitudes. */
  predicate Consistent(dist: seq<Field>, mag: Tensor, scale: seq<real>, T: nat, R: nat)
  {
    IsDistField(dist, |mag|, R) && IsTensor(mag, |mag|, |scale|, T)
  }

  predicate ValidPairs(pairs: seq<Pair>, C: nat, F: nat)
  {
    forall k :: 0 <= k < |pairs| ==> pairs[k].ch < C && pairs[k].freq < F
  }

  /** What one pair adds at (t, x, y, z). */
  function Contribution(dist: seq<Field>, mag: Tensor, scale: seq<real>, T: nat, R: nat,
                        sin: real -> real, p: Pair, t: nat, x: nat, y: nat, z: nat): real
    requires Consistent(dist, mag, scale, T, R) && p.ch < |mag| && p.freq < |scale|
    requires t < T && x < R && y < R && z < R
  {
    sin(dist[p.ch][x][y][z] * scale[p.freq]) * mag[p.ch][p.freq][t]
  }

  /** The volume after `_update_voxels` has been applied for each pair of `pairs` in turn. */
  function ApplyPairs(vol: Volume, dist: seq<Field>, mag: Tensor, scale: seq<real>, pairs: seq<Pair>,
                      T: nat, R: nat, sin: real -> real): (r: Volume)
    requires Consistent(dist, mag, scale, T, R) && IsVolume(vol, T, R)
    requires ValidPairs(pairs, |mag|, |scale|)
    ensures IsVolume(r, T, R)
    decreases |pairs|
  {
    if pairs == [] then vol
    else
      var p := pairs[|pairs| - 1];
      var before := ApplyPairs(vol, dist, mag, scale, pairs[..|pairs| - 1], T, R, sin);
      UpdateVoxels(before, dist, mag[p.ch][p.freq], scale[p.freq], p.ch, R, sin)
  }

  /** One more pair applies one more update. */
  lemma ApplyPairsStep(vol: Volume, dist: seq<Field>, mag: Tensor, scale: seq<real>, pairs: seq<Pair>,
                       k: nat, T: nat, R: nat, sin: real -> real)
    requires Consistent(dist, mag, scale, T, R) && IsVolume(vol, T, R)
    requires ValidPairs(pairs, |mag|, |scale|) && k < |pairs|
    ensures ValidPairs(pairs[..k], |mag|, |scale|) && ValidPairs(pairs[..k + 1], |mag|, |scale|)
    ensures var p := pairs[k];
      ApplyPairs(vol, dist, mag, scale, pairs[..k + 1], T, R, sin)
      == UpdateVoxels(ApplyPairs(vol, dist, mag, scale, pairs[..k], T, R, sin),
                      dist, mag[p.ch][p.freq], scale[p.freq], p.ch, R, sin)
  {
    assert pairs[..k + 1][..k] == pairs[..k];
  }

  /**
   * The contribution at (t, x, y, z) as a function of the pair; a pair out
   * of range contributes nothing.
   */
  function ContributionAt(dist: seq<Field>, mag: Tensor, scale: seq<real>, T: nat, R: nat,
                          sin: real -> real, t: nat, x: nat, y: nat, z: nat): Pair -> real
    requires Consistent(dist, mag, scale, T, R) && t < T && x < R && y < R && z < R
  {
    (p: Pair) => if p.ch < |mag| && p.freq < |scale| then Contribution(dist, mag, scale, T, R, sin, p, t, x, y, z) else 0.0
  }

  /** The sum of g over the pairs, in order. */
  function PairSum(pairs: seq<Pair>, g: Pair -> real): real
    decreases |pairs|
  {
    if pairs == [] then 0.0 else PairSum(pairs[..|pairs| - 1], g) + g(pairs[|pairs| - 1])
  }

  /** Applying the pairs in turn adds exactly the sum of their contributions to every entry. */
  lemma {:induction false} ApplyPairsIsSum(vol: Volume, dist: seq<Field>, mag: Tensor, scale: seq<real>,
                                           pairs: seq<Pair>, T: nat, R: nat, sin: real -> real,
                                           t: nat, x: nat, y: nat, z: nat)
    requires Consistent(dist, mag, scale, T, R) && IsVolume(vol, T, R)
    requires ValidPairs(pairs, |mag|, |scale|)
    requires t < T && x < R && y < R && z < R
    ensures ApplyPairs(vol, dist, mag, scale, pairs, T, R, sin)[t][x][y][z]
         == vol[t][x][y][z] + PairSum(pairs, ContributionAt(dist, mag, scale, T, R, sin, t, x, y, z))
    decreases |pairs|
  {
    if pairs != [] {
      ApplyPairsIsSum(vol, dist, mag, scale, pairs[..|pairs| - 1], T, R, sin, t, x, y, z);
    }
  }

  /** A sum of terms that are all zero is zero. */
  lemma {:induction false} PairSumSilent(pairs: seq<Pair>, g: Pair -> real)
    requires forall k :: 0 <= k < |pairs| ==> g(pairs[k]) == 0.0
    ensures PairSum(pairs, g) == 0.0
    decreases |pairs|
  {
    if pairs != [] {
      PairSumSilent(pairs[..|pairs| - 1], g);
    }
  }

  lemma {:induction false} PairSumConcat(a: seq<Pair>, b: seq<Pair>, g: Pair -> real)
    ensures PairSum(a + b, g) == PairSum(a, g) + PairSum(b, g)
    decreases |b|
  {
    if b == [] {
      assert a + b == a;
    } else {
      var b' := b[..|b| - 1];
      PairSumConcat(a, b', g);
      assert (a + b)[..|a + b| - 1] == a + b';
    }
  }

  /** Taking one pair out of the middle of a sequence takes its term out of the sum. */
  lemma PairSumRemove(a: seq<Pair>, p: Pair, b: seq<Pair>, g: Pair -> real)
    ensures PairSum(a + [p] + b, g) == PairSum(a + b, g) + g(p)
  {
    PairSumConcat(a, b, g);
    PairSumConcat(a + [p], b, g);
    PairSumConcat(a, [p], g);
    assert [p][..0] == [];
  }

  /** Removing one occurrence of the last element of p1 from p2 keeps the multisets equal. */
  lemma MultisetRemove(p1: seq<Pair>, p2: seq<Pair>, j: nat)
    requires |p1| > 0 && j < |p2| && p2[j] == p1[|p1| - 1] && multiset(p1) == multiset(p2)
    ensures multiset(p1[..|p1| - 1]) == multiset(p2[..j] + p2[j + 1..])
  {
    var last := p1[|p1| - 1];
    assert p1 == p1[..|p1| - 1] + [last];
    assert p2 == p2[..j] + [last] + p2[j + 1..];
    calc {
      multiset(p1[..|p1| - 1]);
      multiset(p1[..|p1| - 1]) + multiset{last} - multiset{last};
      multiset(p1) - multiset{last};
      multiset(p2) - multiset{last};
      multiset(p2[..j]) + multiset(p2[j + 1..]);
      multiset(p2[..j] + p2[j + 1..]);
    }
  }

  /** The sum does not depend on the order of the pairs: any rearrangement of them sums to the same value. */
  lemma {:induction false} PairSumOrderIndependent(p1: seq<Pair>, p2: seq<Pair>, g: Pair -> real)
    requires multiset(p1) == multiset(p2)
    ensures PairSum(p1, g) == PairSum(p2, g)
    decreases |p1|
  {
    if p1 == [] {
      assert |multiset(p2)| == 0;
    } else {
      var last := p1[|p1| - 1];
      assert last in multiset(p2);
      var j :| 0 <= j < |p2| && p2[j] == last;
      MultisetRemove(p1, p2, j);
      PairSumRemove(p2[..j], last, p2[j + 1..], g);
      PairSumOrderIndependent(p1[..|p1| - 1], p2[..j] + p2[j + 1..], g);
      assert p2 == p2[..j] + [last] + p2[j + 1..];
    }
  }

  // -------------------------------------------------------------- hologram

  /** What `hologram` needs of its inputs. */
  ghost predicate HologramInputs(pos: seq<Vec3>, m: Tensor, F: nat, T: nat, sqrt: real -> real)
  {
    NonDegenerate(pos) && F >= 1 && IsTensor(m, |pos|, F, T) && SqrtNonNegative(sqrt)
  }

  /** The normalised magnitudes, cut to the first SliceStop(maxSteps, T) steps (lines 35-38). */
  function Magnitudes(m: Tensor, F: nat, T: nat, maxSteps: int, sqrt: real -> real): (mag: Tensor)
    requires IsTensor(m, |m|, F, T) && SqrtNonNegative(sqrt)
    ensures IsTensor(mag, |m|, F, SliceStop(maxSteps, T))
  {
    Truncate(Normalize(m, F, T, sqrt), F, T, maxSteps)
  }

  /** The volume the accumulation loop of `hologram` produces. */
  function HologramVolume(pos: seq<Vec3>, m: Tensor, F: nat, T: nat, maxSteps: int, R: nat,
                          low: real, high: real, sin: real -> real, sqrt: real -> real): (v: Volume)
    requires HologramInputs(pos, m, F, T, sqrt)
    ensures IsVolume(v, SliceStop(maxSteps, T), R)
  {
    var steps := SliceStop(maxSteps, T);
    var dist := Dist(Project(pos, R), R, sqrt);
    var mag := Magnitudes(m, F, T, maxSteps, sqrt);
    var scale := Linspace(low, high, F);
    ApplyPairs(Zeros(steps, R), dist, mag, scale, Pairs(|pos|, F), steps, R, sin)
  }

  /**
   * `hologram`: projects the sensors, normalises and cuts the magnitudes,
   * builds the distance blocks and the frequency scale, and then adds the
   * contribution of every (sensor, frequency) pair, sensor-major, into a
   * volume that starts at zero. It returns that volume and the cells.
   */
  method Hologram(pos: seq<Vec3>, m: Tensor, F: nat, T: nat, maxSteps: int, R: nat,
                  low: real, high: real, sin: real -> real, sqrt: real -> real)
    returns (voxels: Volume, cells: seq<Cell>)
    requires HologramInputs(pos, m, F, T, sqrt)
    ensures cells == Project(pos, R)
    ensures voxels == HologramVolume(pos, m, F, T, maxSteps, R, low, high, sin, sqrt)
    ensures IsVolume(voxels, SliceStop(maxSteps, T), R)
  {
    cells := Project(pos, R);
    var mag := Magnitudes(m, F, T, maxSteps, sqrt);
    var dist := Dist(cells, R, sqrt);
    var scale := Linspace(low, high, F);
    voxels := Accumulate(dist, mag, scale, SliceStop(maxSteps, T), R, sin);
  }

  /**
   * Lines 48-53: start from the zero volume and apply `_update_voxels` once
   * for each pair of `product(range(C), range(F))`, in that order.
   */
  method Accumulate(dist: seq<Field>, mag: Tensor, scale: seq<real>, steps: nat, R: nat, sin: real -> real)
    returns (voxels: Volume)
    requires Consistent(dist, mag, scale, steps, R)
    ensures voxels == ApplyPairs(Zeros(steps, R), dist, mag, scale, Pairs(|mag|, |scale|), steps, R, sin)
    ensures IsVolume(voxels, steps, R)
  {
    voxels := Zeros(steps, R);
    var pairs := Pairs(|mag|, |scale|);
    var k := 0;
    assert pairs[..0] == [];
    while k < |pairs|
      invariant 0 <= k <= |pairs|
      invariant ValidPairs(pairs[..k], |mag|, |scale|)
      invariant voxels == ApplyPairs(Zeros(steps, R), dist, mag, scale, pairs[..k], steps, R, sin)
    {
      var p := pairs[k];
      ApplyPairsStep(Zeros(steps, R), dist, mag, scale, pairs, k, steps, R, sin);
      voxels := UpdateVoxels(voxels, dist, mag[p.ch][p.freq], scale[p.freq], p.ch, R, sin);
      k := k + 1;
    }
    assert pairs[..k] == pairs;
  }

  /** Every entry of the hologram is the sum of all pair contributions at that entry. */
  lemma HologramIsPairSum(pos: seq<Vec3>, m: Tensor, F: nat, T: nat, maxSteps: int, R: nat,
                          low: real, high: real, sin: real -> real, sqrt: real -> real,
                          t: nat, x: nat, y: nat, z: nat)
    requires HologramInputs(pos, m, F, T, sqrt)
    requires t < SliceStop(maxSteps, T) && x < R && y < R && z < R
    ensures HologramVolume(pos, m, F, T, maxSteps, R, low, high, sin, sqrt)[t][x][y][z]
         == PairSum(Pairs(|pos|, F), ContributionAt(Dist(Project(pos, R), R, sqrt), Magnitudes(m, F, T, maxSteps, sqrt),
                                                    Linspace(low, high, F), SliceStop(maxSteps, T), R, sin, t, x, y, z))
  {
    var steps := SliceStop(maxSteps, T);
    ApplyPairsIsSum(Zeros(steps, R), Dist(Project(pos, R), R, sqrt), Magnitudes(m, F, T, maxSteps, sqrt),
                    Linspace(low, high, F), Pairs(|pos|, F), steps, R, sin, t, x, y, z);
  }

  /** All-zero magnitudes stay zero through normalisation and truncation. */
  lemma MagnitudesSilent(m: Tensor, F: nat, T: nat, maxSteps: int, sqrt: real -> real)
    requires IsTensor(m, |m|, F, T) && SqrtNonNegative(sqrt)
    requires forall c, f, t :: 0 <= c < |m| && 0 <= f < F && 0 <= t < T ==> m[c][f][t] == 0.0
    ensures var mag := Magnitudes(m, F, T, maxSteps, sqrt);
      forall c, f, t :: 0 <= c < |m| && 0 <= f < F && 0 <= t < SliceStop(maxSteps, T) ==> mag[c][f][t] == 0.0
  {
    var mag := Magnitudes(m, F, T, maxSteps, sqrt);
    forall c, f, t | 0 <= c < |m| && 0 <= f < F && 0 <= t < SliceStop(maxSteps, T)
      ensures mag[c][f][t] == 0.0
    {
      NormalizePreservesSign(m, F, T, sqrt, c, f, t);
    }
  }

  /** An all-zero magnitude tensor yields an all-zero volume. */
  lemma HologramOfSilence(pos: seq<Vec3>, m: Tensor, F: nat, T: nat, maxSteps: int, R: nat,
                          low: real, high: real, sin: real -> real, sqrt: real -> real)
    requires HologramInputs(pos, m, F, T, sqrt)
    requires forall c, f, t :: 0 <= c < |pos| && 0 <= f < F && 0 <= t < T ==> m[c][f][t] == 0.0
    ensures HologramVolume(pos, m, F, T, maxSteps, R, low, high, sin, sqrt) == Zeros(SliceStop(maxSteps, T), R)
  {
    var steps := SliceStop(maxSteps, T);
    var mag := Magnitudes(m, F, T, maxSteps, sqrt);
    var dist := Dist(Project(pos, R), R, sqrt);
    var scale := Linspace(low, high, F);
    MagnitudesSilent(m, F, T, maxSteps, sqrt);
    assert Consistent(dist, mag, scale, steps, R);
    AccumulateSilent(dist, mag, scale, steps, R, sin);
  }

  /** With all magnitudes zero, no pair contributes anything. */
  lemma ContributionAtSilent(dist: seq<Field>, mag: Tensor, scale: seq<real>, T: nat, R: nat,
                             sin: real -> real, t: nat, x: nat, y: nat, z: nat)
    requires Consistent(dist, mag, scale, T, R) && t < T && x < R && y < R && z < R
    requires forall c, f, u :: 0 <= c < |mag| && 0 <= f < |scale| && 0 <= u < T ==> mag[c][f][u] == 0.0
    ensures forall p :: ContributionAt(dist, mag, scale, T, R, sin, t, x, y, z)(p) == 0.0
  {
    forall p: Pair
      ensures ContributionAt(dist, mag, scale, T, R, sin, t, x, y, z)(p) == 0.0
    {
      if p.ch < |mag| && p.freq < |scale| {
        assert mag[p.ch][p.freq][t] == 0.0;
      }
    }
  }

  /** The accumulation loop over all-zero magnitudes leaves the zero volume as it is. */
  lemma AccumulateSilent(dist: seq<Field>, mag: Tensor, scale: seq<real>, steps: nat, R: nat, sin: real -> real)
    requires Consistent(dist, mag, scale, steps, R)
    requires forall c, f, u :: 0 <= c < |mag| && 0 <= f < |scale| && 0 <= u < steps ==> mag[c][f][u] == 0.0
    ensures ValidPairs(Pairs(|mag|, |scale|), |mag|, |scale|)
    ensures ApplyPairs(Zeros(steps, R), dist, mag, scale, Pairs(|mag|, |scale|), steps, R, sin) == Zeros(steps, R)
  {
    var pairs := Pairs(|mag|, |scale|);
    assert ValidPairs(pairs, |mag|, |scale|);
    var v := ApplyPairs(Zeros(steps, R), dist, mag, scale, pairs, steps, R, sin);
    forall t, x, y, z | 0 <= t < steps && 0 <= x < R && 0 <= y < R && 0 <= z < R
      ensures v[t][x][y][z] == 0.0
    {
      ApplyPairsIsSum(Zeros(steps, R), dist, mag, scale, pairs, steps, R, sin, t, x, y, z);
      ContributionAtSilent(dist, mag, scale, steps, R, sin, t, x, y, z);
      PairSumSilent(pairs, ContributionAt(dist, mag, scale, steps, R, sin, t, x, y, z));
    }
    VolumeExt(v, Zeros(steps, R), steps, R);
  }
}
