/**
 * `construct`: a zeroed map of the requested side, its four corners seeded
 * with `INITIAL`, then `divide` from the largest coordinate down.
 *
 * The side length is taken as given. For sides `2^k + 1` the lattices of the
 * steps cover every cell of the grid; for other sides some cells are never
 * written and keep the zero of the fresh buffer.
 */
module Construction {
  import opened Arith
  import opened PixelMaps
  import opened Sampling
  import opened Lattices
  import opened DiamondSquare

  /** The buffer of a fresh side-`n` map. */
  function Zeros(n: nat): (r: seq<real>)
    ensures |r| == Mul(n, n)
  {
    seq(Mul(n, n), _ => 0.0)
  }

  /**
   * The `k`-th corner the seeding loops write on a grid whose largest
   * coordinate is `max`: the outer loop runs over `x` in `{0, max}`, the
   * inner one over `y`.
   */
  function Corner(max: int, k: int): Coord {
    Coord(if k < 2 then 0 else max, if k == 0 || k == 2 then 0 else max)
  }

  predicate IsCorner(c: Coord, max: int) {
    (c.x == 0 || c.x == max) && (c.y == 0 || c.y == max)
  }

  /** The buffer after the seeding loops have written their first `k` corners. */
  function Seeded(m: seq<real>, n: uint32, k: nat): (r: seq<real>)
    requires 1 <= n && |m| == Mul(n, n) && k <= 4
    ensures |r| == |m|
  {
    if k == 0 then m
    else
      var c := Corner(n - 1, k - 1);
      IdxBound(c.x, c.y, n);
      Seeded(m, n, k - 1)[Idx(c.x, c.y, n) := INITIAL]
  }

  /** Once seeded, the four corners hold `INITIAL` and every other cell its old value. */
  lemma SeededCells(m: seq<real>, n: uint32, c: Coord)
    requires 1 <= n && |m| == Mul(n, n) && InGrid(c, n)
    ensures 0 <= Idx(c.x, c.y, n) < |m|
    ensures Seeded(m, n, 4)[Idx(c.x, c.y, n)] == if IsCorner(c, n - 1) then INITIAL else m[Idx(c.x, c.y, n)]
  {
    var max := n - 1;
    assert Seeded(m, n, 1) == m[Idx(0, 0, n) := INITIAL];
    assert Seeded(m, n, 2) == Seeded(m, n, 1)[Idx(0, max, n) := INITIAL];
    assert Seeded(m, n, 3) == Seeded(m, n, 2)[Idx(max, 0, n) := INITIAL];
    assert Seeded(m, n, 4) == Seeded(m, n, 3)[Idx(max, max, n) := INITIAL];
    ReadAfterWrite(m, n, 0, 0, INITIAL, c.x, c.y);
    ReadAfterWrite(Seeded(m, n, 1), n, 0, max, INITIAL, c.x, c.y);
    ReadAfterWrite(Seeded(m, n, 2), n, max, 0, INITIAL, c.x, c.y);
    ReadAfterWrite(Seeded(m, n, 3), n, max, max, INITIAL, c.x, c.y);
  }

  /**
   * `construct`: a fresh map of side `size`, every sample zero; `set_sample`
   * of `INITIAL` at each pair of coordinates from `{0, max}`; then `divide`
   * with `max` as the first feature size.
   */
  method Construct(size: uint32, rng: Rng) returns (ds: PixelMap)
    requires 1 <= size <= MAX_SIDE
    ensures fresh(ds) && fresh(ds.buffer) && ds.size == size && ds.Valid()
    ensures ds.buffer[..] == Subdivided(Seeded(Zeros(size), size, 4), size, size - 1, rng)
  {
    ds := new PixelMap(size);
    assert ds.buffer[..] == Zeros(size);
    var coords: seq<int32> := [0, ds.Max()];
    var i := 0;
    while i < 2
      invariant 0 <= i <= 2
      invariant ds.buffer[..] == Seeded(Zeros(size), size, 2 * i)
    {
      var j := 0;
      while j < 2
        invariant 0 <= j <= 2
        invariant ds.buffer[..] == Seeded(Zeros(size), size, 2 * i + j)
      {
        ghost var k := 2 * i + j;
        assert Corner(size - 1, k) == Coord(coords[i], coords[j]);
        IdxBound(coords[i], coords[j], size);
        SetSample(ds, coords[i], coords[j], INITIAL);
        assert ds.buffer[..] == Seeded(Zeros(size), size, k + 1);
        j := j + 1;
      }
      i := i + 1;
    }
    var initialSize := ds.Max();
    Divide(ds, initialSize, rng);
  }

  /** The cells `construct` writes on a grid whose largest coordinate is `max`. */
  predicate Written(c: Coord, max: int) {
    IsCorner(c, max) || Touched(c, max, max)
  }

  /** A cell `construct` never writes keeps the zero of the fresh buffer. */
  lemma ConstructFrame(n: uint32, rng: Rng, c: Coord)
    requires 1 <= n <= MAX_SIDE && InGrid(c, n) && !Written(c, n - 1)
    ensures 0 <= Idx(c.x, c.y, n) < Mul(n, n)
    ensures Subdivided(Seeded(Zeros(n), n, 4), n, n - 1, rng)[Idx(c.x, c.y, n)] == 0.0
  {
    SeededCells(Zeros(n), n, c);
    SubdividedFrame(Seeded(Zeros(n), n, 4), n, n - 1, rng, c);
  }

  /* ---------------------------------------------------------------------- */
  /* Sides 2^k + 1                                                           */
  /* ---------------------------------------------------------------------- */

  function Pow2(k: nat): (r: nat)
    ensures 1 <= r
  {
    if k == 0 then 1 else 2 * Pow2(k - 1)
  }

  lemma {:induction false} Pow2Divides(j: nat, k: nat)
    requires j <= k
    ensures Pow2(k) % Pow2(j) == 0
    decreases k
  {
    if j < k {
      Pow2Divides(j, k - 1);
      var q := Pow2(k - 1) / Pow2(j);
      assert Pow2(k) == (2 * q) * Pow2(j);
      DivModUnique(Pow2(k), 2 * q, 0, Pow2(j));
    } else {
      DivModUnique(Pow2(k), 1, 0, Pow2(j));
    }
  }

  /** A multiple of `h` is, modulo `2h`, either `0` or `h`. */
  lemma HalfResidue(x: int, h: int)
    requires 1 <= h && 0 <= x && x % h == 0
    ensures x % (2 * h) == 0 || x % (2 * h) == h
  {
    var q := x / h;
    var p, r := q / 2, q % 2;
    assert x == q * h;
    assert q * h == (2 * p + r) * h == p * (2 * h) + r * h;
    if r == 0 {
      DivModUnique(x, p, 0, 2 * h);
    } else {
      DivModUnique(x, p, h, 2 * h);
    }
  }

  /** A non-negative `x` with residue `r` modulo `m` is `r` plus a multiple of `m`. */
  lemma ResidueShift(x: int, r: int, m: int)
    requires 0 <= x && 0 < m && x % m == r
    ensures r <= x && (x - r) % m == 0
  {
    DivModUnique(x - r, x / m, 0, m);
  }

  /** A centre at feature size `2^j` is touched by `divide` from `2^k` on. */
  lemma {:induction false} TouchedAt(c: Coord, max: int, j: nat, k: nat)
    requires 1 <= j <= k
    requires SquareCentre(c, Pow2(j), max) || DiamondCentre(c, Pow2(j), max)
    ensures Touched(c, max, Pow2(k))
    decreases k
  {
    assert Pow2(k) / 2 == Pow2(k - 1) >= 1;
    if j < k {
      TouchedAt(c, max, j, k - 1);
    }
  }

  /**
   * On the side-`2^k + 1` grid, a cell whose coordinates are both multiples
   * of `2^j` is written: a corner when `j == k`, otherwise a square or
   * diamond centre at feature size `2^(j+1)` or a cell of the coarser level.
   */
  lemma {:induction false} CoverLevel(k: nat, j: nat, c: Coord)
    requires j <= k && 0 <= c.x <= Pow2(k) && 0 <= c.y <= Pow2(k)
    requires c.x % Pow2(j) == 0 && c.y % Pow2(j) == 0
    ensures Written(c, Pow2(k))
    decreases k - j
  {
    var max := Pow2(k);
    if j == k {
      if c.x < max {
        DivModUnique(c.x, 0, c.x, max);
      }
      if c.y < max {
        DivModUnique(c.y, 0, c.y, max);
      }
      assert IsCorner(c, max);
    } else {
      var h, fs := Pow2(j), Pow2(j + 1);
      assert fs == 2 * h && fs / 2 == h;
      Pow2Divides(j + 1, k);
      if c.x % fs == 0 && c.y % fs == 0 {
        CoverLevel(k, j + 1, c);
      } else {
        CentreAtLevel(max, h, c);
        TouchedAt(c, max, j + 1, k);
      }
    }
  }

  /**
   * A cell whose coordinates are multiples of `h` but not both multiples of
   * `2h` is, at feature size `2h`, the centre of a square (both coordinates
   * odd multiples of `h`) or of a diamond (exactly one of them).
   */
  lemma CentreAtLevel(max: int, h: int, c: Coord)
    requires 1 <= h && max % (2 * h) == 0 && 0 <= c.x <= max && 0 <= c.y <= max
    requires c.x % h == 0 && c.y % h == 0 && !(c.x % (2 * h) == 0 && c.y % (2 * h) == 0)
    ensures SquareCentre(c, 2 * h, max) || DiamondCentre(c, 2 * h, max)
  {
    var fs := 2 * h;
    assert fs / 2 == h;
    HalfResidue(c.x, h);
    HalfResidue(c.y, h);
    if c.x % fs == h && c.y % fs == h {
      ResidueShift(c.x, h, fs);
      ResidueShift(c.y, h, fs);
      assert SquareCentre(c, fs, max);
    } else if c.y % fs == 0 {
      DivModUnique(c.y + h, c.y / fs, h, fs);
      assert DiamondCentre(c, fs, max);
    } else {
      DivModUnique(c.y + h, c.y / fs + 1, 0, fs);
      assert DiamondCentre(c, fs, max);
    }
  }

  /** On a grid of side `2^k + 1`, `construct` writes every cell. */
  lemma EveryCellWritten(k: nat, c: Coord)
    requires InGrid(c, Pow2(k) + 1)
    ensures Written(c, Pow2(k))
  {
    DivModUnique(c.x, c.x, 0, 1);
    DivModUnique(c.y, c.y, 0, 1);
    CoverLevel(k, 0, c);
  }

  /**
   * On a grid of side 10, as the program's entry point requests, cell
   * `(9, 1)` is no corner and no centre of any step, so whatever the draws
   * it leaves `construct` as the zero of the fresh buffer.
   */
  lemma SideTenLeavesCellUnset(n: uint32, rng: Rng)
    requires n == 10
    ensures InGrid(Coord(9, 1), n) && !Written(Coord(9, 1), n - 1)
    ensures 0 <= Idx(9, 1, n) < Mul(n, n)
    ensures Subdivided(Seeded(Zeros(n), n, 4), n, n - 1, rng)[Idx(9, 1, n)] == 0.0
  {
    var c := Coord(9, 1);
    assert !SquareCentre(c, 9, 9) && !DiamondCentre(c, 9, 9);
    assert !SquareCentre(c, 4, 9) && !DiamondCentre(c, 4, 9);
    assert !SquareCentre(c, 2, 9) && !DiamondCentre(c, 2, 9);
    assert !Touched(c, 9, 1);
    assert !Written(c, 9);
    ConstructFrame(n, rng, c);
  }

  /**
   * `construct` with the side derived from a detail level, `2^detail + 1`:
   * every cell of the result has been written.
   */
  method ConstructDetail(detail: nat, rng: Rng) returns (ds: PixelMap)
    requires Pow2(detail) + 1 <= MAX_SIDE
    ensures fresh(ds) && fresh(ds.buffer) && ds.size == Pow2(detail) + 1 && ds.Valid()
    ensures ds.buffer[..] == Subdivided(Seeded(Zeros(ds.size), ds.size, 4), ds.size, ds.size - 1, rng)
    ensures forall c :: InGrid(c, ds.size) ==> Written(c, ds.size - 1)
  {
    ds := Construct(Pow2(detail) + 1, rng);
    forall c | InGrid(c, ds.size) ensures Written(c, ds.size - 1) {
      EveryCellWritten(detail, c);
    }
  }
}
