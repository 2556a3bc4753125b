# Diamond-square height maps

This is a model of the height-map generator in `src/diamond_square.rs`.
The generator allocates a square grid of `f32` samples and seeds its four corners with 100.0.
It then runs the diamond-square algorithm: a square step and then a diamond step, at a feature size that starts at the largest coordinate and halves until it drops below 2.
Each step sets the cells of its lattice to the mean of four neighbours plus a random displacement.
The neighbours are read with wraparound, so the grid tiles like a torus.
Finally `normalize_pixel_map` rescales a finished map so that its largest sample becomes 255.

The model is written in Dafny, one module per concern:

- `Arith` covers the `i32`/`u32` values of the source as subset types. It also holds Rust's truncating `%`, the `modulo` helper and the `as` casts.
- `PixelMaps` holds `PixelMap`, a class with a constant side and a buffer `array<real>`. It also holds the coordinate iterator `EnumeratePixelMap`, a class whose `x`/`y` fields `Next` updates.
- `Sampling` covers `sample`, `set_sample`, `diamond_sample` and `square_sample`. It also holds `Read`, the reference wraparound read they are proved against.
- `Lattices` lists the coordinates the loops of each step visit and characterises them by congruences.
- `DiamondSquare` holds `square_step`, `diamond_step` and `divide` as loops on the buffer.
  - Each loop is proved against a recursive function of the old buffer that follows the loop states.
  - Lemmas show that this function writes the step's lattice in row-major order, one cell after another.
  - They also show which cells a step leaves alone and what value each cell it visits receives.
- `Construction` holds `construct`. It also proves which cells a run writes, and that a side `2^k + 1` gets every cell written.
- `Normalization` holds `normalize_pixel_map` as its two enumeration passes. It is proved against `Peak`, the maximum of zero and all samples, and `Rescaled`.

`PixelMap.GetPixel` and `PixelMap.Size` are plain reads. Their bodies are their specification, so they have no rows below.

The code makes these choices, and the model follows them:

- The seed value is 100.0.
- Both steps read their neighbours at distance `feature_size`, not `feature_size / 2`.
- The displacement is a draw in `[0, 1)` times `0.8 * feature_size`.
- `construct` takes the side length itself, not a detail level.
- Normalisation divides by the maximum of zero and the samples. It has no minimum and no guard against a zero divisor.

## Model

| member | source | states |
|---|---|---|
| Arith.AsInt32 | src/diamond_square.rs:42 | `u32 as i32` is congruent to its argument modulo 2^32 and equal to it when it fits in `i32` |
| Arith.AsUint32 | src/diamond_square.rs:167-168 | `i32 as u32` is its argument modulo 2^32, the argument itself when non-negative |
| Arith.Rem | src/diamond_square.rs:173 | Rust's `%` for a positive divisor lies strictly between `-m` and `m` and is zero or has the dividend's sign |
| Arith.RemCongruent | src/diamond_square.rs:173 | Rust's `%` leaves a remainder congruent to the dividend |
| Arith.Modulo | src/diamond_square.rs:172-174 | `modulo(x, m)` lies in `[0, m)` whenever `(x % m) + m` does not overflow |
| Arith.ModuloIsMod | src/diamond_square.rs:172-174 | `modulo(x, m)` is the true mathematical modulus, negative `x` included |
| Arith.WrapIsMod | src/diamond_square.rs:172-174 | adding or subtracting the side until a coordinate lands in `[0, n)` gives the same cell as the modulus |
| PixelMaps.IdxInjective | src/diamond_square.rs:45-55 | two in-grid coordinates share a buffer index `x + y * size` exactly when they are equal |
| PixelMaps.RowMajorEnumeratesGrid | src/diamond_square.rs:17-31 | the row-major order lists every cell once, item `k` at buffer index `k`, and each cell appears at its own index |
| PixelMaps.PendingIsSuffix | src/diamond_square.rs:17-31 | from any iterator state inside the grid, the coordinates still to come are the rest of the row-major order |
| PixelMaps.PendingFromStart | src/diamond_square.rs:61-67 | from `(0, 0)` the iterator has the whole grid in row-major order still to yield |
| PixelMaps.EnumeratePixelMap.constructor | src/diamond_square.rs:62-66 | a new iterator starts at `(0, 0)` over the given side |
| PixelMaps.EnumeratePixelMap.Next | src/diamond_square.rs:19-31 | `next` yields the first pending coordinate and drops it, yields `None` (and keeps doing so) once none is pending, and updates `x`/`y` as the source does |
| PixelMaps.PixelMap.constructor | src/diamond_square.rs:73-76 | a new map has `size * size` samples, all zero, in a fresh buffer |
| PixelMaps.PixelMap.Max | src/diamond_square.rs:41-43 | `max` is `size - 1` whenever that fits in `i32` |
| PixelMaps.PixelMap.SetPixel | src/diamond_square.rs:51-55 | `set_pixel` changes exactly the sample at `x + y * size`, and `get_pixel` then returns the new value |
| PixelMaps.PixelMap.EnumeratePixels | src/diamond_square.rs:61-67 | the fresh iterator will yield exactly the row-major order of the map's grid |
| PixelMaps.ReadAfterWrite | src/diamond_square.rs:45-55 | after a write, the written cell reads the new value and every other cell its old one |
| Sampling.ReadWraps | src/diamond_square.rs:165-170 | shifting a read by whole sides in either direction reads the same cell (toroidal wraparound) |
| Sampling.ReadInGrid | src/diamond_square.rs:165-170 | a read at an in-grid coordinate is the plain cell |
| Sampling.Sample | src/diamond_square.rs:165-170 | `sample` returns the reference wraparound read for any `i32` coordinates, negative ones included, and changes nothing |
| Sampling.SquareMean | src/diamond_square.rs:153-161 | the mean of a square write is the average of the four diagonal reads at distance `size` |
| Sampling.DiamondMean | src/diamond_square.rs:141-149 | the mean of a diamond write is the average of the reads above, left, right and below at distance `size` |
| Sampling.SampleWritesOneCell | src/diamond_square.rs:149-150 | a write changes exactly its own cell, to the mean plus the displacement, and leaves every other cell |
| Sampling.NeighboursInSmallGrid | src/diamond_square.rs:145-148 | on a grid of side at most 2^30, every neighbour offset of an in-grid write fits in `i32`, so no read overflows |
| Sampling.SetSample | src/diamond_square.rs:177-181 | `set_sample` writes the value at the `u32` casts of the coordinates and nothing else |
| Sampling.DiamondSample | src/diamond_square.rs:141-151 | `diamond_sample` sets its cell to the mean of the four orthogonal wraparound reads plus `rand_value` and changes nothing else |
| Sampling.SquareSample | src/diamond_square.rs:153-163 | `square_sample` sets its cell to the mean of the four diagonal wraparound reads plus `rand_value` and changes nothing else |
| Lattices.RowMembers | src/diamond_square.rs:127-135 | one pass of an inner loop visits exactly the columns in `[x0, end)` congruent to `x0` modulo the stride |
| Lattices.SquareLatticeOrdered | src/diamond_square.rs:125-137 | `square_step` visits its cells in strictly increasing row-major order, so none twice |
| Lattices.SquareLatticeMembers | src/diamond_square.rs:125-137 | `square_step` visits exactly the cells `(fs/2 + i*fs, fs/2 + j*fs)` below `max` |
| Lattices.DiamondRowStart | src/diamond_square.rs:107-115 | a diamond row visits exactly the columns in `[0, max]` congruent to `y + fs/2` modulo `fs` |
| Lattices.DiamondLatticeOrdered | src/diamond_square.rs:105-117 | `diamond_step` visits its cells in strictly increasing row-major order, so none twice |
| Lattices.DiamondLatticeMembers | src/diamond_square.rs:105-117 | `diamond_step` visits exactly the cells with `y` a multiple of `fs/2` and `x ≡ y + fs/2 (mod fs)` in `[0, max]` |
| Lattices.SquareLatticeVisits | src/diamond_square.rs:125-137 | the coordinates in the order the loops of `square_step` reach them are its lattice, row by row |
| Lattices.DiamondLatticeVisits | src/diamond_square.rs:105-117 | the coordinates in the order the loops of `diamond_step` reach them are its lattice, row by row |
| DiamondSquare.ApplyFrame | src/diamond_square.rs:177-181 | a sequence of writes leaves every cell that none of them addresses |
| DiamondSquare.WrittenOnce | src/diamond_square.rs:149-150 | on a walk in strictly increasing row-major order, each visited cell ends as the mean of its neighbours as found on arrival plus its displacement |
| DiamondSquare.SquareAdvance | src/diamond_square.rs:128-135 | one turn of the inner loop of `square_step` writes the current cell and leaves the same result from the next column |
| DiamondSquare.SquareStep | src/diamond_square.rs:120-138 | `square_step` leaves the buffer its loop-state function assigns to the old buffer |
| DiamondSquare.SquareRow | src/diamond_square.rs:127-135 | one row of `square_step` takes the buffer from the state before the row to the state before the next row |
| DiamondSquare.SquareStepIsFold | src/diamond_square.rs:120-138 | `square_step` is the writes of its lattice applied one after the other in row-major order |
| DiamondSquare.SquareStepFrame | src/diamond_square.rs:120-138 | `square_step` leaves every cell that is not a square centre unchanged |
| DiamondSquare.SquareStepWrites | src/diamond_square.rs:120-138 | the `k`-th visited cell ends as the mean of its diagonal neighbours after the first `k` writes, plus `0.8 * fs` times its draw |
| DiamondSquare.DiamondAdvance | src/diamond_square.rs:108-115 | one turn of the inner loop of `diamond_step` writes the current cell and leaves the same result from the next column |
| DiamondSquare.DiamondStep | src/diamond_square.rs:100-118 | `diamond_step` leaves the buffer its loop-state function assigns to the old buffer |
| DiamondSquare.DiamondRow | src/diamond_square.rs:107-115 | one row of `diamond_step`, from column `(y + fs/2) % fs`, takes the buffer to the state before the next row |
| DiamondSquare.DiamondStepIsFold | src/diamond_square.rs:100-118 | `diamond_step` is the writes of its lattice applied one after the other in row-major order |
| DiamondSquare.DiamondStepFrame | src/diamond_square.rs:100-118 | `diamond_step` leaves every cell that is not a diamond centre unchanged |
| DiamondSquare.DiamondStepWrites | src/diamond_square.rs:100-118 | the `k`-th visited cell ends as the mean of its orthogonal neighbours after the first `k` writes, plus `0.8 * fs` times its draw |
| DiamondSquare.Divide | src/diamond_square.rs:90-98 | `divide` terminates and leaves the square-then-diamond steps at `size`, `size/2`, ... down to 2 applied to the old buffer |
| DiamondSquare.SubdividedFrame | src/diamond_square.rs:90-98 | `divide` leaves every cell that is no square or diamond centre at any of its feature sizes unchanged |
| Construction.SeededCells | src/diamond_square.rs:80-84 | after the seeding loops the four corners hold 100.0 and every other cell is unchanged |
| Construction.Construct | src/diamond_square.rs:71-88 | `construct` returns a fresh map of the given side: zeros, the corners seeded, then `divide` from `max` |
| Construction.ConstructFrame | src/diamond_square.rs:71-88 | a cell that is neither a corner nor any step's centre is still 0.0 after `construct`, whatever the draws |
| Construction.CentreAtLevel | src/diamond_square.rs:100-137 | a cell on the multiples of `h` but not of `2h` is a square or a diamond centre at feature size `2h` |
| Construction.CoverLevel | src/diamond_square.rs:79-86 | on side `2^k + 1`, every cell whose coordinates are multiples of `2^j` is a corner or a centre of some step |
| Construction.EveryCellWritten | src/diamond_square.rs:79-86 | on side `2^k + 1`, every cell is a corner or a centre of some step |
| Construction.SideTenLeavesCellUnset | src/main.rs:7-9 | with the side 10 the entry point passes, cell `(9, 1)` is never written and stays 0.0 for any draws |
| Construction.ConstructDetail | src/diamond_square.rs:71-88 | `construct` on the side `2^detail + 1` returns that side with every cell written |
| Normalization.PeakIsMax | src/diamond_square.rs:191-197 | the first pass's result is non-negative, no sample exceeds it, and it is zero or one of the samples |
| Normalization.LevelBounds | src/diamond_square.rs:200-202 | a sample at most a positive peak rescales to at most 255, keeps its sign, and the peak itself maps to 255 |
| Normalization.RescaledBounds | src/diamond_square.rs:199-204 | with a positive peak, every output is at most 255, non-negative exactly when its sample is, and some output is 255 |
| Normalization.NormalizePixelMap | src/diamond_square.rs:184-207 | the result is a fresh map of the same side whose samples are the inputs divided by the peak, times 255 |
| Normalization.LargestSample | src/diamond_square.rs:191-197 | the first pass returns the maximum of zero and all samples |
| Normalization.RescaleInto | src/diamond_square.rs:199-204 | the second pass sets every cell of the new map to its sample divided by the divisor, times 255 |

## Left out

- `src/main.rs` is left out: it writes the normalised map to a PNG through the `image` crate. Only its call of `construct(10)` is used, under Findings.
- `rand::thread_rng` is not modelled. The draws are a parameter `rng`, a map from (step, feature size, cell) to a value, and a missing entry reads as 0.0. The model does not require the values to lie in `[0, 1)`, so its results hold for any draws.
- `f32` arithmetic is modelled as exact `real` arithmetic: no rounding, no infinities, no NaN.
- Normalization.NormalizePixelMap: requires a positive peak. The source divides by zero when every sample is at most zero and then yields infinities or NaN, which reals cannot express.
- Normalization.NormalizePixelMap: the source consumes its map by value; the model reads it through a reference and leaves it unchanged.
- Sides above 2^30 are excluded by preconditions, because the `i32` expressions `x ± size` (src/diamond_square.rs:145-148, :157-160) and `(x % m) + m` (:173) could overflow there.
- `usize` is taken to be 64 bits wide, so `size_vec * size_vec` (:74) and `x + y * size` (:48, :54) never overflow for a `u32` side; on a 32-bit target they would from side 65536 up, which the model does not capture.
- PixelMaps.PixelMap.GetPixel and PixelMaps.PixelMap.SetPixel: require the index `x + y * size` to lie in the buffer, so the index-out-of-bounds panic of `self.map[...]` (:48, :54) is not modelled; every call in the model is proved to be in range, so the generator and normaliser never reach it.
- Size 0 is excluded by preconditions, because `size - 1` underflows `u32` in `max`.
- PixelMaps.EnumeratePixelMap.Next: `x` and `y` are unbounded naturals, so the `u32` overflow of `y` is not modelled. The reset at src/diamond_square.rs:20-23 keeps `x` at most `max(size, 1)`, but once the grid is exhausted every further `size` calls (every call at size 0) add one to `y`. After roughly `(2^32 - size) * size` calls past the end, `y` overflows: a debug build panics, and a release build wraps `y` to 0 so the iterator yields row 0 again. The model keeps yielding `None`.
- The inner loops of the two steps are separate methods, `SquareRow` and `DiamondRow`, and so are the two passes of normalisation, `LargestSample` and `RescaleInto`. The loops themselves are the source's.
- DiamondSquare.Divide: the source's tail recursion is a loop; `Subdivided`, the function it is proved against, recurses as the source does.
- The scale `0.8 * feature_size` is computed once per step in the source and once per write in the model. Both give the same value.
- DiamondSquare.SquareStep: requires feature size at least 1. At 0 the strides are 0 and the source's loops never advance; `divide` never calls a step below 2.
- DiamondSquare.DiamondStep: requires feature size at least 2. Below 2 the stride `fs / 2` is 0 and the source never leaves row 0.
- Construction.ConstructDetail: "written" means that the cell is a corner or lies on some step's lattice. `SquareStepWrites` and `DiamondStepWrites` give the value each such write stores, but the model does not prove that a cell's final value is its last write across all levels.

## Findings

| source | as written | input that shows it | evidently intended | confidence | as-written member | corrected member |
|---|---|---|---|---|---|---|
| src/main.rs:7-9 with src/diamond_square.rs:71-86 | `construct` uses its argument as the side length, and the entry point passes the detail level 10 | side 10: cell `(9, 1)` is no corner and no square or diamond centre at feature size 9, 4 or 2, so it stays 0.0 whatever the draws | a side of `2^detail + 1`, which gets every cell set, as the comment at src/diamond_square.rs:79 promises | not executed | Construction.SideTenLeavesCellUnset | Construction.ConstructDetail |
