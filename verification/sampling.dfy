/**
 * Wraparound reads and the two single-cell writes of the generator,
 * `diamond_sample` and `square_sample`.
 *
 * Reads are toroidal: a coordinate outside the grid is taken modulo the side
 * length, so the left edge neighbours the right one and the top edge the
 * bottom one. `Sample` computes a read the way the source does (casts and a
 * double truncating remainder); `Read` is the reference definition it is
 * proved against, and the one the specifications of the writes use.
 */
module Sampling {
  import opened Arith
  import opened PixelMaps

  /** The largest side length for which no `i32` expression of the generator overflows. */
  const MAX_SIDE: int := 0x4000_0000

  /** Which neighbours a write averages: diagonal ones for a square, orthogonal ones for a diamond. */
  datatype Phase = Square | Diamond

  /** The reference wraparound read: the cell at the coordinates of `c` wrapped onto the grid. */
  function Read(m: seq<real>, n: int, c: Coord): real
    requires 1 <= n && |m| == Mul(n, n)
  {
    IdxBound(Wrap(c.x, n), Wrap(c.y, n), n);
    m[Idx(Wrap(c.x, n), Wrap(c.y, n), n)]
  }

  /** Shifting a read by whole grid sides, in either direction, reads the same cell. */
  lemma ReadWraps(m: seq<real>, n: int, c: Coord, k: int, j: int)
    requires 1 <= n && |m| == Mul(n, n)
    ensures Read(m, n, Coord(c.x + k * n, c.y + j * n)) == Read(m, n, c)
  {
    WrapIsMod(c.x, n);
    WrapIsMod(c.y, n);
    WrapIsMod(c.x + k * n, n);
    WrapIsMod(c.y + j * n, n);
    ModAddMultiple(c.x, k, n);
    ModAddMultiple(c.y, j, n);
  }

  /** A read inside the grid is the plain cell. */
  lemma ReadInGrid(m: seq<real>, n: int, c: Coord)
    requires 1 <= n && |m| == Mul(n, n) && InGrid(c, n)
    ensures 0 <= Idx(c.x, c.y, n) < |m| && Read(m, n, c) == m[Idx(c.x, c.y, n)]
  {
    IdxBound(c.x, c.y, n);
  }

  /**
   * A wraparound read at `c` is defined: its coordinates are `i32` values and
   * the grid is at most `MAX_SIDE` wide, so `(x % size) + size` cannot
   * overflow.
   */
  predicate Readable(n: int, c: Coord) {
    1 <= n <= MAX_SIDE && InInt32(c.x) && InInt32(c.y)
  }

  /** On a readable coordinate the source's `modulo` is defined for both components. */
  lemma ReadableModulo(n: int, c: Coord)
    requires Readable(n, c)
    ensures ModuloDefined(c.x, n) && ModuloDefined(c.y, n)
  {
  }

  /**
   * `sample`: `get_pixel` at `modulo(x, size as i32) as u32` and likewise for
   * `y`. Whatever the sign of the coordinates, the double remainder of
   * `modulo` and both casts land on the cell the reference read names, and
   * nothing changes.
   */
  method Sample(ds: PixelMap, x: int32, y: int32) returns (v: real)
    requires ds.Valid() && Readable(ds.size, Coord(x, y))
    ensures v == Read(ds.buffer[..], ds.size, Coord(x, y))
  {
    var n := AsInt32(ds.size);
    ReadableModulo(ds.size, Coord(x, y));
    var wx, wy := AsUint32(Modulo(x, n)), AsUint32(Modulo(y, n));
    ModuloIsMod(x, n);
    ModuloIsMod(y, n);
    WrapIsMod(x, n);
    WrapIsMod(y, n);
    IdxBound(wx, wy, ds.size);
    v := ds.GetPixel(wx, wy);
  }

  /**
   * Neighbour `k` (0 to 3) of a write at `(x, y)` at distance `d`, in the
   * order the source reads them: above, left, right and below for a diamond;
   * top left, top right, bottom left and bottom right for a square.
   */
  function Neighbour(phase: Phase, x: int, y: int, d: int, k: int): Coord {
    match phase
    case Diamond =>
      if k == 0 then Coord(x, y - d) else if k == 1 then Coord(x - d, y) else if k == 2 then Coord(x + d, y) else Coord(x, y + d)
    case Square =>
      if k == 0 then Coord(x - d, y - d) else if k == 1 then Coord(x + d, y - d) else if k == 2 then Coord(x - d, y + d) else Coord(x + d, y + d)
  }

  /** All four neighbour reads of a write are defined, and their `i32` offsets do not overflow. */
  predicate NeighboursReadable(n: int, phase: Phase, x: int, y: int, d: int) {
    Readable(n, Neighbour(phase, x, y, d, 0)) && Readable(n, Neighbour(phase, x, y, d, 1))
    && Readable(n, Neighbour(phase, x, y, d, 2)) && Readable(n, Neighbour(phase, x, y, d, 3))
  }

  /** The sum of the wraparound reads at the first `k` neighbours. */
  function NeighbourSum(m: seq<real>, n: int, phase: Phase, x: int, y: int, d: int, k: nat): real
    requires 1 <= n && |m| == Mul(n, n)
  {
    if k == 0 then 0.0 else NeighbourSum(m, n, phase, x, y, d, k - 1) + Read(m, n, Neighbour(phase, x, y, d, k - 1))
  }

  /** The average of the four wraparound reads around `(x, y)` at distance `d`. */
  function Mean(m: seq<real>, n: int, phase: Phase, x: int, y: int, d: int): real
    requires 1 <= n && |m| == Mul(n, n)
  {
    NeighbourSum(m, n, phase, x, y, d, 4) / 4.0
  }

  /** The mean is the average of the four reads: given the reads `a`, `b`, `c`, `e` in neighbour order, it is their average. */
  lemma MeanOfFour(m: seq<real>, n: int, phase: Phase, x: int, y: int, d: int, a: real, b: real, c: real, e: real)
    requires 1 <= n && |m| == Mul(n, n)
    requires a == Read(m, n, Neighbour(phase, x, y, d, 0)) && b == Read(m, n, Neighbour(phase, x, y, d, 1))
    requires c == Read(m, n, Neighbour(phase, x, y, d, 2)) && e == Read(m, n, Neighbour(phase, x, y, d, 3))
    ensures Mean(m, n, phase, x, y, d) == (a + b + c + e) / 4.0
  {
    assert NeighbourSum(m, n, phase, x, y, d, 1) == a;
    assert NeighbourSum(m, n, phase, x, y, d, 2) == a + b;
    assert NeighbourSum(m, n, phase, x, y, d, 3) == a + b + c;
  }

  /** The mean of a square write, from the reads at its four diagonal neighbours. */
  lemma SquareMean(m: seq<real>, n: int, x: int, y: int, d: int, a: real, b: real, c: real, e: real)
    requires 1 <= n && |m| == Mul(n, n)
    requires a == Read(m, n, Coord(x - d, y - d)) && b == Read(m, n, Coord(x + d, y - d))
    requires c == Read(m, n, Coord(x - d, y + d)) && e == Read(m, n, Coord(x + d, y + d))
    ensures Mean(m, n, Square, x, y, d) == (a + b + c + e) / 4.0
  {
    MeanOfFour(m, n, Square, x, y, d, a, b, c, e);
  }

  /** The mean of a diamond write, from the reads above, left, right and below it. */
  lemma DiamondMean(m: seq<real>, n: int, x: int, y: int, d: int, a: real, b: real, c: real, e: real)
    requires 1 <= n && |m| == Mul(n, n)
    requires a == Read(m, n, Coord(x, y - d)) && b == Read(m, n, Coord(x - d, y))
    requires c == Read(m, n, Coord(x + d, y)) && e == Read(m, n, Coord(x, y + d))
    ensures Mean(m, n, Diamond, x, y, d) == (a + b + c + e) / 4.0
  {
    MeanOfFour(m, n, Diamond, x, y, d, a, b, c, e);
  }

  /** Where `set_sample` writes: `set_pixel` at the `u32` casts of the coordinates. */
  function SampleIdx(x: int32, y: int32, n: int): int {
    Idx(AsUint32(x), AsUint32(y), n)
  }

  /** The buffer after a write at `(x, y)`: that cell becomes the mean of its four neighbours plus `r`. */
  function AfterSample(m: seq<real>, n: int, phase: Phase, x: int32, y: int32, r: real, d: int): (w: seq<real>)
    requires 1 <= n && |m| == Mul(n, n) && 0 <= SampleIdx(x, y, n) < |m|
    ensures |w| == |m|
  {
    m[SampleIdx(x, y, n) := Mean(m, n, phase, x, y, d) + r]
  }

  /**
   * A write inside the grid changes exactly its own cell, to the mean plus
   * `r`; with `r == 0` that cell becomes the exact mean of its neighbours.
   */
  lemma SampleWritesOneCell(m: seq<real>, n: int, phase: Phase, x: int32, y: int32, r: real, d: int, x': int, y': int)
    requires 1 <= n && |m| == Mul(n, n)
    requires 0 <= x < n && 0 <= y < n && 0 <= x' < n && 0 <= y' < n
    ensures 0 <= SampleIdx(x, y, n) < |m| && 0 <= Idx(x', y', n) < |m|
    ensures AfterSample(m, n, phase, x, y, r, d)[Idx(x', y', n)]
            == if x' == x && y' == y then Mean(m, n, phase, x, y, d) + r else m[Idx(x', y', n)]
  {
    assert SampleIdx(x, y, n) == Idx(x, y, n);
    ReadAfterWrite(m, n, x, y, Mean(m, n, phase, x, y, d) + r, x', y');
  }

  /** Inside a grid no wider than `MAX_SIDE`, every write at distance at most `MAX_SIDE` is defined. */
  lemma NeighboursInSmallGrid(n: uint32, phase: Phase, x: int, y: int, d: int)
    requires 1 <= n <= MAX_SIDE && 0 <= x < n && 0 <= y < n && 0 <= d <= MAX_SIDE
    ensures InInt32(x) && InInt32(y) && NeighboursReadable(n, phase, x, y, d)
    ensures 0 <= SampleIdx(x, y, n) < Mul(n, n)
  {
    IdxBound(x, y, n);
  }

  /** `set_sample`: writes `value` through `set_pixel` at the `u32` casts of `x` and `y`. */
  method SetSample(ds: PixelMap, x: int32, y: int32, value: real)
    requires SampleIdx(x, y, ds.size) < ds.buffer.Length
    modifies ds.buffer
    ensures ds.buffer[..] == old(ds.buffer[..])[SampleIdx(x, y, ds.size) := value]
  {
    ds.SetPixel(AsUint32(x), AsUint32(y), value);
  }

  /**
   * `diamond_sample`: sets `(x, y)` to the mean of the wraparound reads above,
   * left, right and below at distance `size`, plus `randValue`.
   */
  method DiamondSample(ds: PixelMap, x: int32, y: int32, randValue: real, size: int32)
    requires ds.Valid() && NeighboursReadable(ds.size, Diamond, x, y, size)
    requires 0 <= SampleIdx(x, y, ds.size) < ds.buffer.Length
    modifies ds.buffer
    ensures ds.buffer[..] == AfterSample(old(ds.buffer[..]), ds.size, Diamond, x, y, randValue, size)
  {
    var a := Sample(ds, x, y - size);
    var b := Sample(ds, x - size, y);
    var c := Sample(ds, x + size, y);
    var d := Sample(ds, x, y + size);
    DiamondMean(ds.buffer[..], ds.size, x, y, size, a, b, c, d);
    var value := (a + b + c + d) / 4.0 + randValue;
    SetSample(ds, x, y, value);
  }

  /**
   * `square_sample`: sets `(x, y)` to the mean of the four diagonal
   * wraparound reads at distance `size`, plus `randValue`.
   */
  method SquareSample(ds: PixelMap, x: int32, y: int32, randValue: real, size: int32)
    requires ds.Valid() && NeighboursReadable(ds.size, Square, x, y, size)
    requires 0 <= SampleIdx(x, y, ds.size) < ds.buffer.Length
    modifies ds.buffer
    ensures ds.buffer[..] == AfterSample(old(ds.buffer[..]), ds.size, Square, x, y, randValue, size)
  {
    var a := Sample(ds, x - size, y - size);
    var b := Sample(ds, x + size, y - size);
    var c := Sample(ds, x - size, y + size);
    var d := Sample(ds, x + size, y + size);
    SquareMean(ds.buffer[..], ds.size, x, y, size, a, b, c, d);
    var value := (a + b + c + d) / 4.0 + randValue;
    SetSample(ds, x, y, value);
  }
}
