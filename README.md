# brain-hologram: a Dafny model of the voxel-hologram synthesis

This project models the two computational parts of brain-hologram in Dafny:

- **Hologram synthesis** (`hologram.py`, functions `hologram` and
  `_update_voxels`), in module `Hologram` (hologram.dfy). Sensor positions are
  projected onto an integer grid by truncation against their bounding box. The
  [sensor, frequency, time] magnitude tensor is normalised per time step and
  cut to `max_steps` with Python slice semantics. A distance block is built
  for every sensor over the R x R x R index lattice, and the frequency scale
  is a `linspace`. A loop over every (sensor, frequency) pair adds
  `sin(dist * scale) * magnitude` into a (T', R, R, R) volume that starts at
  zero. The pure steps are functions. The loop is a method, `Accumulate`, whose
  invariant says the volume equals the fold of `_update_voxels` over the pairs
  processed so far. `Hologram` runs the whole pipeline.
- **Frame conversion** (`video_recorder.py`, `VideoRecorder.write` up to the
  pipe write), in module `VideoRecorder` (video_recorder.dfy). It rejects
  shapes other than (H, W, 3) and (H, W, 4). It turns non-uint8 frames into
  bytes by clipping to [0, 1], scaling by 255 and truncating. It composites
  RGBA onto black as `trunc(rgb * a / 255)`. It is written as pure functions
  with a `Result` for the `ValueError`.

All arithmetic is over Dafny's unbounded `real` and `int`. The sine and the
square root are function parameters `sin, sqrt: real -> real`. The facts
assumed of `sqrt` throughout are `sqrt(0) == 0` and `sqrt(r) >= 0` for
`r >= 0`. They are stated as preconditions (`SqrtOfZero`, `SqrtNonNegative`)
of the members that need them. `NormalizedStepBelowOne` alone adds a local
hypothesis: that `sqrt` is exact at the sum of squares of the step it speaks
about.

Points where the code's behaviour is easy to misread:

- **Normalisation.** Each entry is divided by the Frobenius norm of its own
  time step's [sensor, frequency] slice plus `1e-6`
  (`jnp.linalg.norm(..., axis=(0, 1))`), not by a per-(sensor, frequency)
  norm along time.
- **Order of truncation.** The tensor is cut to `max_steps` after it is
  normalised. Because each divisor depends on its own time step only,
  cutting first would give the same tensor (`TruncateNormalizeCommute`).
- **Out-of-range cells.** Cells are not clamped: the projection truncates,
  so a sensor on the maximum face of an axis gets index R, one past the
  lattice (`ProjectReachesR`).
- **Zero extent.** An axis on which all sensors agree makes the projection
  divide by zero, so nonzero extent is a precondition (`NonDegenerate`).
- **Shape.** No shape check is made on the magnitude tensor: its shape comes
  with it from the time-frequency object. The model therefore requires a
  well-shaped [C, F, T] tensor.

## Model

| member | source | states |
|---|---|---|
| `Hologram.Trunc` | hologram.py:33 | `astype(int32)` rounds toward zero: a non-negative value is at most one above its result, a negative one at most one below |
| `Hologram.AxisMin` | hologram.py:32 | the axis minimum is at most every sensor's coordinate and is attained by some sensor |
| `Hologram.AxisMax` | hologram.py:32 | the axis maximum is at least every sensor's coordinate and is attained by some sensor |
| `Hologram.ProjectAxis` | hologram.py:33 | a coordinate inside the box projects to trunc((v - lo) / (hi - lo) * R), which is in [0, R]; the minimum gives 0 and the maximum gives exactly R |
| `Hologram.ProjectAxisMonotone` | hologram.py:33 | a larger raw coordinate never gives a smaller index |
| `Hologram.Project` | hologram.py:31-33 | one cell per sensor, in sensor order, each axis projected against the box of all sensors |
| `Hologram.ProjectBounds` | hologram.py:32-33 | every cell coordinate is in [0, R], 0 for a sensor at the axis minimum and R, unclamped, for one at the maximum |
| `Hologram.ProjectMonotone` | hologram.py:31-33 | per axis, sensor order by coordinate is kept by the cell indices |
| `Hologram.ProjectReachesR` | hologram.py:32-33 | on every axis some sensor's cell index is R, one past the lattice |
| `Hologram.SqDist` | hologram.py:43-44 | the integer squared distance is non-negative and zero exactly at the sensor's cell |
| `Hologram.Dist` | hologram.py:40-45 | C blocks of R x R x R; entry [c][x][y][z] is `sqrt` of the integer (x-cx)^2+(y-cy)^2+(z-cz)^2 |
| `Hologram.DistNonNegative` | hologram.py:43-45 | every distance is >= 0 |
| `Hologram.DistZeroAtOwnCell` | hologram.py:43-45 | the distance is 0 at the sensor's own cell when that cell is in the lattice |
| `Hologram.DistSameCell` | hologram.py:42-45 | sensors in the same cell get identical distance blocks |
| `Hologram.Linspace` | hologram.py:47 | length F; first entry low, last entry high; for F >= 2 entry f is low + f * step with step (high - low) / (F - 1); `[low]` for F = 1 |
| `Hologram.LinspaceEvenlySpaced` | hologram.py:47 | consecutive entries differ by the same step (high - low) / (F - 1) |
| `Hologram.SliceSumSq` | hologram.py:36 | the squared Frobenius norm of a time step's [sensor, frequency] slice is >= 0 |
| `Hologram.Divisor` | hologram.py:36 | the divisor norm + 1e-6 is at least 1e-6, so never zero |
| `Hologram.Normalize` | hologram.py:35-36 | same shape; each entry times its own time step's divisor gives back the raw entry |
| `Hologram.RowSumSqScaled` | hologram.py:36 | if every entry of one frequency row times d is the other row's entry, the sums of squares differ by the factor d * d |
| `Hologram.SensorSumSqAgree` | hologram.py:36 | two tensors equal at step t have the same squared norm at step t, whatever their other steps hold |
| `Hologram.NormalizedStepEnergy` | hologram.py:36 | a normalised step's sum of squares times the squared divisor is the raw step's sum of squares |
| `Hologram.NormalizedStepBelowOne` | hologram.py:36 | with n the step's norm, the normalised step has sum of squares (n/(n+1e-6))^2 < 1 |
| `Hologram.NormalizePreservesSign` | hologram.py:36 | normalising keeps each entry's sign, and a zero entry stays zero |
| `Hologram.SliceStop` | hologram.py:38 | `[:k]` keeps index i exactly when i < k, a negative k counting from the end |
| `Hologram.SliceStopCases` | hologram.py:30-38 | the default -1 keeps T-1 steps, 0 <= k <= T keeps k, k > T keeps T |
| `Hologram.Truncate` | hologram.py:38 | shape [C, F, SliceStop(k, T)], and every kept entry is the original one |
| `Hologram.TruncateKeepsDivisor` | hologram.py:36-38 | cutting the time axis leaves the divisor of every kept step unchanged |
| `Hologram.TruncateNormalizeCommute` | hologram.py:36-38 | truncating after normalising gives the same tensor as truncating before |
| `Hologram.Zeros` | hologram.py:48 | a (T, R, R, R) volume of zeros |
| `Hologram.UpdateVoxels` | hologram.py:25-27 | shape kept; every (t, x, y, z) grows by sin(dist[ch][x][y][z] * s) * m[t] |
| `Hologram.UpdateSilentIsIdentity` | hologram.py:26-27 | an all-zero magnitude series leaves the volume unchanged |
| `Hologram.Pairs` | hologram.py:52 | `product(range(C), range(F))` has C*F pairs, and position k holds the pair whose sensor-major rank ch*F + f is k |
| `Hologram.PairsExactlyOnce` | hologram.py:51-52 | each (sensor, frequency) pair occurs at position ch*F + f and nowhere else |
| `Hologram.PairsSensorMajor` | hologram.py:52 | an earlier position holds a lower sensor, or the same sensor with a lower frequency |
| `Hologram.ApplyPairs` | hologram.py:52-53 | applying `_update_voxels` for a list of pairs keeps the (T', R, R, R) shape |
| `Hologram.ApplyPairsIsSum` | hologram.py:48-53 | after the pairs are applied, each entry is its start value plus the sum over the pairs of sin(dist * scale) * magnitude at that entry |
| `Hologram.PairSumSilent` | hologram.py:53 | pairs that each contribute zero sum to zero |
| `Hologram.PairSumOrderIndependent` | hologram.py:50-53 | any rearrangement of the pairs (same multiset) gives the same accumulated value, so the sensor-major order of the loop does not matter |
| `Hologram.Accumulate` | hologram.py:48-53 | the loop returns the zero volume with one update per pair of `product(range(C), range(F))`, applied in order |
| `Hologram.Magnitudes` | hologram.py:35-38 | the normalised, truncated tensor has shape [C, F, SliceStop(max_steps, T)] |
| `Hologram.HologramVolume` | hologram.py:30-55 | the hologram volume has shape (SliceStop(max_steps, T), R, R, R) |
| `Hologram.Hologram` | hologram.py:30-55 | returns the projected cells and the accumulated volume of that shape |
| `Hologram.HologramIsPairSum` | hologram.py:48-55 | every voxel is the sum over all (sensor, frequency) pairs of their contributions at that voxel |
| `Hologram.MagnitudesSilent` | hologram.py:35-38 | all-zero magnitudes stay zero through normalisation and truncation |
| `Hologram.AccumulateSilent` | hologram.py:48-53 | with all magnitudes zero, applying every pair to the zero volume leaves it zero |
| `Hologram.HologramOfSilence` | hologram.py:35-55 | an all-zero magnitude tensor yields an all-zero volume |
| `VideoRecorder.Clip01` | video_recorder.py:45 | the clipped value is in [0, 1]: 0 below 0, 1 above 1, and the input itself in between |
| `VideoRecorder.ToByte` | video_recorder.py:45-46 | a byte in 0..255: 0 for inputs <= 0, 255 for inputs >= 1, floor(255 v) in between |
| `VideoRecorder.ElementByte` | video_recorder.py:44-46 | a uint8 value passes as it is; any other value goes through the clip-and-scale conversion |
| `VideoRecorder.AsBytes` | video_recorder.py:44-46 | same height, width and channels; every value is a byte obtained element by element |
| `VideoRecorder.Blend` | video_recorder.py:50-52 | trunc(c * alpha) is in [0, c]; alpha 1 keeps c, alpha 0 gives 0 |
| `VideoRecorder.CompositePixel` | video_recorder.py:49-52 | an RGBA byte pixel becomes 3 channels, channel k being trunc(px[k] * px[3] / 255), at most its colour byte; alpha 255 keeps the colour, alpha 0 gives black |
| `VideoRecorder.Composite` | video_recorder.py:49-52 | an (H, W, 4) byte frame becomes (H, W, 3) bytes, pixel by pixel |
| `VideoRecorder.Write` | video_recorder.py:42-52 | `ValueError` exactly for shapes that are not (H, W, 3\|4); otherwise an (H, W, 3) frame of bytes |
| `VideoRecorder.WriteUint8RgbUnchanged` | video_recorder.py:44-49 | a uint8 RGB frame is written unchanged |
| `VideoRecorder.WriteFloatRgb` | video_recorder.py:40-46 | a float RGB frame is clipped and scaled: <= 0 gives 0, >= 1 gives 255, so a float frame in [0, 255] saturates |
| `VideoRecorder.WriteRgbaComposites` | video_recorder.py:49-52 | an RGBA frame's colour bytes become trunc(c * a / 255), at most c, equal to c for a = 255 and 0 for a = 0 |

## Left out

- Data acquisition and the time-frequency transform (hologram.py:17-22). These are calls into `mne`. Sensor positions and the [C, F, T] magnitude tensor are inputs of the model.
- Saving the outputs and the script driver (hologram.py:58-60), the `tqdm` progress bar and `jax.jit` (hologram.py:25, 52). They are I/O or performance wrappers with no effect on values.
- float32 rounding, and the values of `sin` and `sqrt`. All arithmetic is over reals, and `sin`/`sqrt` are uninterpreted parameters.
- int32 width of the cell coordinates and of the squared distances. Integers are unbounded. The projected coordinates lie in [0, R], and the squares stay far below 2^31 for the resolutions used.
- The reshape at hologram.py:37. It only adds the unit axes that broadcast the magnitude series over space, and the model indexes [sensor][frequency][time] directly. With F = 0 the reshape raises, so `Hologram` requires F >= 1.
- Hologram.NormalizedStepBelowOne: needs `sqrt` to be exact at the step's sum of squares, stated as a hypothesis. Nothing else is assumed of `sqrt`.
- Hologram.Dist: states each distance as `sqrt` of the integer squared distance, not as "the square of the distance is that integer". Only the latter would need an exact `sqrt`.
- NaN and infinite frame values in `write`. The model's frames hold reals.
- `VideoRecorder.__init__`, `close`, `frame.tobytes()` and the `stdin.write` (video_recorder.py:5-36, 54, 56-63). They are subprocess and pipe I/O to `ffmpeg`. `Write` yields the (H, W, 3) byte frame that would be serialised.
- viz.py. It is `vispy` rendering and playback, which are UI state.
