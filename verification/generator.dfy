/**
 * The two steps of the diamond-square generator and `divide`, which
 * alternates them while halving the feature size.
 *
 * Each step is a nested `while` loop. It is proved against three mutually
 * recursive functions, one per loop state (about to start a row, at a column
 * of a row, writing a cell), which say what buffer the loops leave from that
 * state on. Lemmas then show that this buffer is `Apply`, the fold of
 * single-cell writes over the lattice the step visits, and from there which
 * cells change and what each receives. `divide` is proved against
 * `Subdivided`, which recurses over the feature size as the source does.
 */
module DiamondSquare {
  import opened Arith
  import opened PixelMaps
  import opened Sampling
  import opened Lattices

  /** Scales each displacement with the feature size. */
  const ROUGHNESS: real := 0.8
  /** The seed value of the four corners. */
  const INITIAL: real := 100.0

  /**
   * The uniform draws in `[0, 1)` that the steps take from the thread-local
   * generator, keyed by the step, the feature size and the cell each is
   * drawn for; a draw the map does not hold reads as `0.0`. Within one run a
   * step visits no cell twice and every feature size occurs once, so any
   * sequence of draws a run consumes is described by one of these maps.
   */
  datatype Draw = Draw(phase: Phase, fs: int, x: int, y: int)
  type Rng = map<Draw, real>

  /** The scale of the draws at feature size `fs`: `ROUGHNESS * fs`. */
  function Scale(fs: int): real {
    ROUGHNESS * fs as real
  }

  /** The displacement of the write at `c`: its draw times the scale of the step. */
  function Displacement(rng: Rng, phase: Phase, fs: int, c: Coord): real {
    var d := Draw(phase, fs, c.x, c.y);
    (if d in rng then rng[d] else 0.0) * Scale(fs)
  }

  /** Every coordinate of `cs` lies in the side-`n` grid. */
  predicate AllInGrid(cs: seq<Coord>, n: int)
    decreases |cs|
  {
    cs == [] || (InGrid(cs[0], n) && AllInGrid(cs[1..], n))
  }

  lemma {:induction false} AllInGridIff(cs: seq<Coord>, n: int)
    ensures AllInGrid(cs, n) <==> forall i :: 0 <= i < |cs| ==> InGrid(cs[i], n)
    decreases |cs|
  {
    if cs != [] {
      AllInGridIff(cs[1..], n);
      assert forall i :: 0 < i < |cs| ==> cs[i] == cs[1..][i - 1];
    }
  }

  lemma AllInGridConcat(a: seq<Coord>, b: seq<Coord>, n: int)
    requires AllInGrid(a, n) && AllInGrid(b, n)
    ensures AllInGrid(a + b, n)
  {
    AllInGridIff(a, n);
    AllInGridIff(b, n);
    AllInGridIff(a + b, n);
    forall i | 0 <= i < |a + b| ensures InGrid((a + b)[i], n) {
      if i < |a| {
        assert (a + b)[i] == a[i];
      } else {
        assert (a + b)[i] == b[i - |a|];
      }
    }
  }

  /** The buffer indices the coordinates `cs` address. */
  function Cells(cs: seq<Coord>, n: int): set<int> {
    set c | c in cs :: Idx(c.x, c.y, n)
  }

  /**
   * The buffer after one step of kind `phase` at feature size `fs` has
   * written, in order, each coordinate of `cs`.
   */
  function Apply(m: seq<real>, n: uint32, phase: Phase, fs: int, rng: Rng, cs: seq<Coord>): (r: seq<real>)
    requires |m| == Mul(n, n) && 1 <= n <= MAX_SIDE && 1 <= fs <= MAX_SIDE && AllInGrid(cs, n)
    ensures |r| == |m|
    decreases |cs|, 1
  {
    if cs == [] then m else ApplyFirst(m, n, phase, fs, rng, cs)
  }

  /** Writing the first coordinate of `cs` and then the others. */
  function ApplyFirst(m: seq<real>, n: uint32, phase: Phase, fs: int, rng: Rng, cs: seq<Coord>): (r: seq<real>)
    requires |m| == Mul(n, n) && 1 <= n <= MAX_SIDE && 1 <= fs <= MAX_SIDE && AllInGrid(cs, n) && cs != []
    ensures |r| == |m|
    decreases |cs|, 0
  {
    NeighboursInSmallGrid(n, phase, cs[0].x, cs[0].y, fs);
    var w := AfterSample(m, n, phase, cs[0].x, cs[0].y, Displacement(rng, phase, fs, cs[0]), fs);
    Apply(w, n, phase, fs, rng, cs[1..])
  }

  /** Writing `c` and then `rest`. */
  lemma ApplyCons(m: seq<real>, n: uint32, phase: Phase, fs: int, rng: Rng, c: Coord, rest: seq<Coord>)
    requires |m| == Mul(n, n) && 1 <= n <= MAX_SIDE && 1 <= fs <= MAX_SIDE && InGrid(c, n) && AllInGrid(rest, n)
    ensures InInt32(c.x) && InInt32(c.y) && NeighboursReadable(n, phase, c.x, c.y, fs)
    ensures 0 <= SampleIdx(c.x, c.y, n) < |m| && AllInGrid([c] + rest, n)
    ensures Apply(m, n, phase, fs, rng, [c] + rest)
            == Apply(AfterSample(m, n, phase, c.x, c.y, Displacement(rng, phase, fs, c), fs), n, phase, fs, rng, rest)
  {
    NeighboursInSmallGrid(n, phase, c.x, c.y, fs);
    assert ([c] + rest)[0] == c && ([c] + rest)[1..] == rest;
    assert Apply(m, n, phase, fs, rng, [c] + rest) == ApplyFirst(m, n, phase, fs, rng, [c] + rest);
  }

  /** A cell no coordinate of `cs` addresses keeps its value. */
  lemma {:induction false} ApplyFrame(m: seq<real>, n: uint32, phase: Phase, fs: int, rng: Rng, cs: seq<Coord>, i: int)
    requires |m| == Mul(n, n) && 1 <= n <= MAX_SIDE && 1 <= fs <= MAX_SIDE && AllInGrid(cs, n)
    requires 0 <= i < |m| && i !in Cells(cs, n)
    ensures Apply(m, n, phase, fs, rng, cs)[i] == m[i]
    decreases |cs|
  {
    if cs != [] {
      var c := cs[0];
      NeighboursInSmallGrid(n, phase, c.x, c.y, fs);
      assert c in cs;
      var w := AfterSample(m, n, phase, c.x, c.y, Displacement(rng, phase, fs, c), fs);
      assert w[i] == m[i];
      assert i !in Cells(cs[1..], n) by {
        forall c' | c' in cs[1..] ensures Idx(c'.x, c'.y, n) != i {
          assert c' in cs;
        }
      }
      ApplyFrame(w, n, phase, fs, rng, cs[1..], i);
    }
  }

  /** Writing `a` and then `b` is writing `a + b`. */
  lemma {:induction false} ApplySplit(m: seq<real>, n: uint32, phase: Phase, fs: int, rng: Rng, a: seq<Coord>, b: seq<Coord>)
    requires |m| == Mul(n, n) && 1 <= n <= MAX_SIDE && 1 <= fs <= MAX_SIDE && AllInGrid(a, n) && AllInGrid(b, n)
    ensures AllInGrid(a + b, n)
    ensures Apply(m, n, phase, fs, rng, a + b) == Apply(Apply(m, n, phase, fs, rng, a), n, phase, fs, rng, b)
    decreases |a|
  {
    AllInGridConcat(a, b, n);
    if a != [] {
      var c := a[0];
      NeighboursInSmallGrid(n, phase, c.x, c.y, fs);
      var w := AfterSample(m, n, phase, c.x, c.y, Displacement(rng, phase, fs, c), fs);
      assert (a + b)[0] == c && (a + b)[1..] == a[1..] + b;
      ApplySplit(w, n, phase, fs, rng, a[1..], b);
    } else {
      assert a + b == b;
    }
  }

  /** Writing `cs` is writing the coordinates before `cs[k]`, then `cs[k]`, then the rest. */
  lemma ApplyAround(m: seq<real>, n: uint32, phase: Phase, fs: int, rng: Rng, cs: seq<Coord>, k: int)
    requires |m| == Mul(n, n) && 1 <= n <= MAX_SIDE && 1 <= fs <= MAX_SIDE && AllInGrid(cs, n) && 0 <= k < |cs|
    ensures InGrid(cs[k], n) && AllInGrid(cs[..k], n) && AllInGrid(cs[k + 1..], n)
    ensures InInt32(cs[k].x) && InInt32(cs[k].y) && NeighboursReadable(n, phase, cs[k].x, cs[k].y, fs)
    ensures 0 <= SampleIdx(cs[k].x, cs[k].y, n) < |m|
    ensures Apply(m, n, phase, fs, rng, cs)
            == Apply(AfterSample(Apply(m, n, phase, fs, rng, cs[..k]), n, phase, cs[k].x, cs[k].y,
                                 Displacement(rng, phase, fs, cs[k]), fs),
                     n, phase, fs, rng, cs[k + 1..])
  {
    var c := cs[k];
    AllInGridIff(cs, n);
    AllInGridIff(cs[..k], n);
    AllInGridIff(cs[k..], n);
    AllInGridIff(cs[k + 1..], n);
    assert cs == cs[..k] + cs[k..];
    ApplySplit(m, n, phase, fs, rng, cs[..k], cs[k..]);
    assert cs[k..] == [c] + cs[k + 1..];
    ApplyCons(Apply(m, n, phase, fs, rng, cs[..k]), n, phase, fs, rng, c, cs[k + 1..]);
  }

  /** In an ordered walk inside the grid, no coordinate after `cs[k]` addresses its cell. */
  lemma OrderedLaterCells(cs: seq<Coord>, n: int, k: int)
    requires Ordered(cs) && 0 <= k < |cs| && AllInGrid(cs, n)
    ensures Idx(cs[k].x, cs[k].y, n) !in Cells(cs[k + 1..], n)
  {
    AllInGridIff(cs, n);
    forall c' | c' in cs[k + 1..] ensures Idx(c'.x, c'.y, n) != Idx(cs[k].x, cs[k].y, n) {
      var j :| k + 1 <= j < |cs| && cs[j] == c';
      assert Before(cs[k], cs[j]);
      IdxInjective(cs[k].x, cs[k].y, c'.x, c'.y, n);
    }
  }

  /**
   * On an ordered walk every visited cell is written exactly once: its final
   * value is the mean of its neighbours as the walk found them on arriving
   * there, plus the displacement drawn for it.
   */
  lemma WrittenOnce(m: seq<real>, n: uint32, phase: Phase, fs: int, rng: Rng, cs: seq<Coord>, k: int)
    requires |m| == Mul(n, n) && 1 <= n <= MAX_SIDE && 1 <= fs <= MAX_SIDE && AllInGrid(cs, n)
    requires Ordered(cs) && 0 <= k < |cs|
    ensures NeighboursReadable(n, phase, cs[k].x, cs[k].y, fs)
    ensures AllInGrid(cs[..k], n) && 0 <= Idx(cs[k].x, cs[k].y, n) < |m|
    ensures Apply(m, n, phase, fs, rng, cs)[Idx(cs[k].x, cs[k].y, n)]
            == Mean(Apply(m, n, phase, fs, rng, cs[..k]), n, phase, cs[k].x, cs[k].y, fs) + Displacement(rng, phase, fs, cs[k])
  {
    var c := cs[k];
    ApplyAround(m, n, phase, fs, rng, cs, k);
    var before := Apply(m, n, phase, fs, rng, cs[..k]);
    var w := AfterSample(before, n, phase, c.x, c.y, Displacement(rng, phase, fs, c), fs);
    SampleWritesOneCell(before, n, phase, c.x, c.y, Displacement(rng, phase, fs, c), fs, c.x, c.y);
    OrderedLaterCells(cs, n, k);
    ApplyFrame(w, n, phase, fs, rng, cs[k + 1..], Idx(c.x, c.y, n));
  }

  /* ---------------------------------------------------------------------- */
  /* square_step                                                             */
  /* ---------------------------------------------------------------------- */

  /** The grids a step runs on: side at most `MAX_SIDE`, feature size positive and at most `MAX_SIDE`. */
  predicate StepGrid(m: seq<real>, n: int, fs: int) {
    |m| == Mul(n, n) && 1 <= n <= MAX_SIDE && 1 <= fs <= MAX_SIDE
  }

  /**
   * What `square_step` leaves when its outer loop is about to test row `y`:
   * rows below `max = n - 1` are walked, the others end the step.
   */
  function SquareFromRow(m: seq<real>, n: uint32, fs: int, rng: Rng, y: int): (r: seq<real>)
    requires StepGrid(m, n, fs) && 0 <= y
    ensures |r| == |m|
    decreases n - y, n + 1, 0
  {
    if n - 1 <= y then m else SquareFromCell(m, n, fs, rng, fs / 2, y)
  }

  /** What `square_step` leaves when its inner loop is about to test column `x` of row `y`. */
  function SquareFromCell(m: seq<real>, n: uint32, fs: int, rng: Rng, x: int, y: int): (r: seq<real>)
    requires StepGrid(m, n, fs) && 0 <= x && 0 <= y < n
    ensures |r| == |m|
    decreases n - y, n - x, 2
  {
    if n - 1 <= x then SquareFromRow(m, n, fs, rng, y + fs) else SquareAtCell(m, n, fs, rng, x, y)
  }

  /** What `square_step` leaves when its inner loop enters the body at `(x, y)`: the draw for that cell is taken. */
  function SquareAtCell(m: seq<real>, n: uint32, fs: int, rng: Rng, x: int, y: int): (r: seq<real>)
    requires StepGrid(m, n, fs) && 0 <= x < n - 1 && 0 <= y < n
    ensures |r| == |m|
    decreases n - y, n - x, 1
  {
    SquareWrite(m, n, fs, rng, x, y, Displacement(rng, Square, fs, Coord(x, y)))
  }

  /** What `square_step` leaves when it writes `(x, y)` with displacement `r` and moves on to the next column. */
  function SquareWrite(m: seq<real>, n: uint32, fs: int, rng: Rng, x: int, y: int, r: real): (w: seq<real>)
    requires StepGrid(m, n, fs) && 0 <= x < n - 1 && 0 <= y < n
    ensures |w| == |m|
    decreases n - y, n - x, 0
  {
    NeighboursInSmallGrid(n, Square, x, y, fs);
    SquareFromCell(AfterSample(m, n, Square, x, y, r, fs), n, fs, rng, x + fs, y)
  }

  /** One turn of the inner loop of `square_step`: the write at `(x, y)` leaves the walk from the next column. */
  lemma SquareAdvance(m: seq<real>, m': seq<real>, n: uint32, fs: int, rng: Rng, x: int32, y: int32)
    requires StepGrid(m, n, fs) && 0 <= x < n - 1 && 0 <= y < n
    requires NeighboursReadable(n, Square, x, y, fs) && 0 <= SampleIdx(x, y, n) < |m|
    requires m' == AfterSample(m, n, Square, x, y, Displacement(rng, Square, fs, Coord(x, y)), fs)
    ensures StepGrid(m', n, fs) && SquareFromCell(m', n, fs, rng, x + fs, y) == SquareFromCell(m, n, fs, rng, x, y)
  {
    assert SquareFromCell(m, n, fs, rng, x, y) == SquareAtCell(m, n, fs, rng, x, y);
    assert SquareAtCell(m, n, fs, rng, x, y) == SquareWrite(m, n, fs, rng, x, y, Displacement(rng, Square, fs, Coord(x, y)));
  }

  /**
   * `square_step`: for rows `y = fs/2, fs/2 + fs, ...` below `max` and, in
   * each, columns `x` likewise, sets `(x, y)` to the mean of its diagonal
   * neighbours at distance `fs` (not `fs/2`) plus a draw scaled by
   * `ROUGHNESS * fs`.
   */
  method SquareStep(ds: PixelMap, featureSize: int32, rng: Rng)
    requires ds.Valid() && 1 <= ds.size <= MAX_SIDE && 1 <= featureSize <= MAX_SIDE
    modifies ds.buffer
    ensures ds.buffer[..] == SquareFromRow(old(ds.buffer[..]), ds.size, featureSize, rng, featureSize / 2)
  {
    ghost var n := ds.size;
    ghost var target := SquareFromRow(ds.buffer[..], n, featureSize, rng, featureSize / 2);
    var halfStep := featureSize / 2;
    var y := halfStep;
    while y < ds.Max()
      invariant 0 <= y
      invariant SquareFromRow(ds.buffer[..], n, featureSize, rng, y) == target
    {
      SquareRow(ds, featureSize, rng, y);
      y := y + featureSize;
    }
  }

  /** The inner loop of `square_step`: row `y`, from column `fs / 2` on. */
  method SquareRow(ds: PixelMap, featureSize: int32, rng: Rng, y: int32)
    requires ds.Valid() && 1 <= ds.size <= MAX_SIDE && 1 <= featureSize <= MAX_SIDE && 0 <= y < ds.size - 1
    modifies ds.buffer
    ensures SquareFromRow(ds.buffer[..], ds.size, featureSize, rng, y + featureSize)
            == SquareFromRow(old(ds.buffer[..]), ds.size, featureSize, rng, y)
  {
    ghost var n := ds.size;
    ghost var target := SquareFromRow(ds.buffer[..], n, featureSize, rng, y);
    var halfStep := featureSize / 2;
    var x := halfStep;
    while x < ds.Max()
      invariant 0 <= x
      invariant SquareFromCell(ds.buffer[..], n, featureSize, rng, x, y) == target
    {
      NeighboursInSmallGrid(n, Square, x, y, featureSize);
      ghost var before := ds.buffer[..];
      SquareSample(ds, x, y, Displacement(rng, Square, featureSize, Coord(x, y)), featureSize);
      SquareAdvance(before, ds.buffer[..], n, featureSize, rng, x, y);
      x := x + featureSize;
    }
  }

  /* ---------------------------------------------------------------------- */
  /* diamond_step                                                            */
  /* ---------------------------------------------------------------------- */

  /**
   * What `diamond_step` leaves when its outer loop is about to test row `y`:
   * rows up to `max = n - 1` are walked, the others end the step.
   */
  function DiamondFromRow(m: seq<real>, n: uint32, fs: int, rng: Rng, y: int): (r: seq<real>)
    requires StepGrid(m, n, fs) && 2 <= fs && 0 <= y
    ensures |r| == |m|
    decreases n - y, n + 1, 0
  {
    if n - 1 < y then m else DiamondFromCell(m, n, fs, rng, Wrap(y + fs / 2, fs), y)
  }

  /** What `diamond_step` leaves when its inner loop is about to test column `x` of row `y`. */
  function DiamondFromCell(m: seq<real>, n: uint32, fs: int, rng: Rng, x: int, y: int): (r: seq<real>)
    requires StepGrid(m, n, fs) && 2 <= fs && 0 <= x && 0 <= y < n
    ensures |r| == |m|
    decreases n - y, n - x, 2
  {
    if n - 1 < x then DiamondFromRow(m, n, fs, rng, y + fs / 2) else DiamondAtCell(m, n, fs, rng, x, y)
  }

  /** What `diamond_step` leaves when its inner loop enters the body at `(x, y)`: the draw for that cell is taken. */
  function DiamondAtCell(m: seq<real>, n: uint32, fs: int, rng: Rng, x: int, y: int): (r: seq<real>)
    requires StepGrid(m, n, fs) && 2 <= fs && 0 <= x < n && 0 <= y < n
    ensures |r| == |m|
    decreases n - y, n - x, 1
  {
    DiamondWrite(m, n, fs, rng, x, y, Displacement(rng, Diamond, fs, Coord(x, y)))
  }

  /** What `diamond_step` leaves when it writes `(x, y)` with displacement `r` and moves on to the next column. */
  function DiamondWrite(m: seq<real>, n: uint32, fs: int, rng: Rng, x: int, y: int, r: real): (w: seq<real>)
    requires StepGrid(m, n, fs) && 2 <= fs && 0 <= x < n && 0 <= y < n
    ensures |w| == |m|
    decreases n - y, n - x, 0
  {
    NeighboursInSmallGrid(n, Diamond, x, y, fs);
    DiamondFromCell(AfterSample(m, n, Diamond, x, y, r, fs), n, fs, rng, x + fs, y)
  }

  /** One turn of the inner loop of `diamond_step`: the write at `(x, y)` leaves the walk from the next column. */
  lemma DiamondAdvance(m: seq<real>, m': seq<real>, n: uint32, fs: int, rng: Rng, x: int32, y: int32)
    requires StepGrid(m, n, fs) && 2 <= fs && 0 <= x < n && 0 <= y < n
    requires NeighboursReadable(n, Diamond, x, y, fs) && 0 <= SampleIdx(x, y, n) < |m|
    requires m' == AfterSample(m, n, Diamond, x, y, Displacement(rng, Diamond, fs, Coord(x, y)), fs)
    ensures StepGrid(m', n, fs) && DiamondFromCell(m', n, fs, rng, x + fs, y) == DiamondFromCell(m, n, fs, rng, x, y)
  {
    assert DiamondFromCell(m, n, fs, rng, x, y) == DiamondAtCell(m, n, fs, rng, x, y);
    assert DiamondAtCell(m, n, fs, rng, x, y) == DiamondWrite(m, n, fs, rng, x, y, Displacement(rng, Diamond, fs, Coord(x, y)));
  }

  /**
   * `diamond_step`: for rows `y = 0, fs/2, fs, ...` up to `max` and, in each,
   * columns `x = (y + fs/2) % fs, ... + fs, ...` up to `max`, sets `(x, y)`
   * to the mean of its orthogonal neighbours at distance `fs` (not `fs/2`)
   * plus a draw scaled by `ROUGHNESS * fs`. With `fs < 2` the source would
   * never leave row 0 (or divide by zero), so `fs >= 2` is required.
   */
  method DiamondStep(ds: PixelMap, featureSize: int32, rng: Rng)
    requires ds.Valid() && 1 <= ds.size <= MAX_SIDE && 2 <= featureSize <= MAX_SIDE
    modifies ds.buffer
    ensures ds.buffer[..] == DiamondFromRow(old(ds.buffer[..]), ds.size, featureSize, rng, 0)
  {
    ghost var n := ds.size;
    ghost var target := DiamondFromRow(ds.buffer[..], n, featureSize, rng, 0);
    var halfStep := featureSize / 2;
    var y := 0;
    while y <= ds.Max()
      invariant 0 <= y
      invariant DiamondFromRow(ds.buffer[..], n, featureSize, rng, y) == target
    {
      DiamondRow(ds, featureSize, rng, y);
      y := y + halfStep;
    }
  }

  /** The inner loop of `diamond_step`: one row, from column `(y + fs/2) % fs` on. */
  method DiamondRow(ds: PixelMap, featureSize: int32, rng: Rng, y: int32)
    requires ds.Valid() && 1 <= ds.size <= MAX_SIDE && 2 <= featureSize <= MAX_SIDE && 0 <= y <= ds.size - 1
    modifies ds.buffer
    ensures DiamondFromRow(ds.buffer[..], ds.size, featureSize, rng, y + featureSize / 2)
            == DiamondFromRow(old(ds.buffer[..]), ds.size, featureSize, rng, y)
  {
    ghost var n := ds.size;
    ghost var target := DiamondFromRow(ds.buffer[..], n, featureSize, rng, y);
    var halfStep := featureSize / 2;
    var x := Rem(y + halfStep, featureSize);
    WrapIsMod(y + halfStep, featureSize);
    while x <= ds.Max()
      invariant 0 <= x
      invariant DiamondFromCell(ds.buffer[..], n, featureSize, rng, x, y) == target
    {
      NeighboursInSmallGrid(n, Diamond, x, y, featureSize);
      ghost var before := ds.buffer[..];
      DiamondSample(ds, x, y, Displacement(rng, Diamond, featureSize, Coord(x, y)), featureSize);
      DiamondAdvance(before, ds.buffer[..], n, featureSize, rng, x, y);
      x := x + featureSize;
    }
  }

  /* ---------------------------------------------------------------------- */
  /* divide                                                                  */
  /* ---------------------------------------------------------------------- */

  /**
   * What `divide` leaves from feature size `fs` on: nothing once `fs / 2 < 1`
   * (`fs < 2`, for Rust's truncating division as for Dafny's), otherwise a
   * square step and a diamond step at `fs` and then the same at `fs / 2`.
   */
  function Subdivided(m: seq<real>, n: uint32, fs: int32, rng: Rng): (r: seq<real>)
    requires |m| == Mul(n, n) && 1 <= n <= MAX_SIDE && fs <= MAX_SIDE
    ensures |r| == |m|
    decreases fs
  {
    if fs / 2 < 1 then m
    else
      var squared := SquareFromRow(m, n, fs, rng, fs / 2);
      Subdivided(DiamondFromRow(squared, n, fs, rng, 0), n, fs / 2, rng)
  }

  /**
   * `divide`: the source recurses on `size / 2`; the recursion is a tail
   * call, modelled as a loop that halves the feature size until it drops
   * below 2.
   */
  method Divide(ds: PixelMap, size: int32, rng: Rng)
    requires ds.Valid() && 1 <= ds.size <= MAX_SIDE && size <= MAX_SIDE
    modifies ds.buffer
    ensures ds.buffer[..] == Subdivided(old(ds.buffer[..]), ds.size, size, rng)
  {
    var featureSize: int32 := size;
    while featureSize / 2 >= 1
      invariant featureSize <= MAX_SIDE
      invariant Subdivided(ds.buffer[..], ds.size, featureSize, rng) == Subdivided(old(ds.buffer[..]), ds.size, size, rng)
      decreases featureSize
    {
      SquareStep(ds, featureSize, rng);
      DiamondStep(ds, featureSize, rng);
      featureSize := featureSize / 2;
    }
  }

  /* ---------------------------------------------------------------------- */
  /* What each step writes                                                   */
  /* ---------------------------------------------------------------------- */

  /** From row `y` on, `square_step` writes the coordinates its loops visit from there, in order. */
  lemma {:induction false} SquareFromRowIsFold(m: seq<real>, n: uint32, fs: int, rng: Rng, y: int)
    requires StepGrid(m, n, fs) && 0 <= y
    ensures AllInGrid(SquareVisitsFromRow(fs, n - 1, y), n)
    ensures SquareFromRow(m, n, fs, rng, y) == Apply(m, n, Square, fs, rng, SquareVisitsFromRow(fs, n - 1, y))
    decreases n - y, n + 1, 0
  {
    if y < n - 1 {
      SquareFromCellIsFold(m, n, fs, rng, fs / 2, y);
    }
  }

  /** From column `x` of row `y` on, `square_step` writes the coordinates its loops visit from there, in order. */
  lemma {:induction false} SquareFromCellIsFold(m: seq<real>, n: uint32, fs: int, rng: Rng, x: int, y: int)
    requires StepGrid(m, n, fs) && 0 <= x && 0 <= y < n - 1
    ensures AllInGrid(SquareVisitsFromCell(fs, n - 1, x, y), n)
    ensures SquareFromCell(m, n, fs, rng, x, y) == Apply(m, n, Square, fs, rng, SquareVisitsFromCell(fs, n - 1, x, y))
    decreases n - y, n - x, 2
  {
    if n - 1 <= x {
      SquareFromRowIsFold(m, n, fs, rng, y + fs);
    } else {
      SquareAtCellIsFold(m, n, fs, rng, x, y);
      assert SquareFromCell(m, n, fs, rng, x, y) == SquareAtCell(m, n, fs, rng, x, y);
    }
  }

  /** Entering the inner loop's body at `(x, y)`, `square_step` writes `(x, y)` and then the coordinates after it. */
  lemma {:induction false} SquareAtCellIsFold(m: seq<real>, n: uint32, fs: int, rng: Rng, x: int, y: int)
    requires StepGrid(m, n, fs) && 0 <= x < n - 1 && 0 <= y < n - 1
    ensures AllInGrid(SquareVisitsFromCell(fs, n - 1, x, y), n)
    ensures SquareAtCell(m, n, fs, rng, x, y) == Apply(m, n, Square, fs, rng, SquareVisitsFromCell(fs, n - 1, x, y))
    decreases n - y, n - x, 1
  {
    NeighboursInSmallGrid(n, Square, x, y, fs);
    var r := Displacement(rng, Square, fs, Coord(x, y));
    var w := AfterSample(m, n, Square, x, y, r, fs);
    var rest := SquareVisitsFromCell(fs, n - 1, x + fs, y);
    SquareFromCellIsFold(w, n, fs, rng, x + fs, y);
    assert AllInGrid(rest, n);
    assert InGrid(Coord(x, y), n);
    ApplyCons(m, n, Square, fs, rng, Coord(x, y), rest);
    assert SquareVisitsFromCell(fs, n - 1, x, y) == [Coord(x, y)] + rest;
    assert SquareAtCell(m, n, fs, rng, x, y) == SquareWrite(m, n, fs, rng, x, y, r);
    assert SquareWrite(m, n, fs, rng, x, y, r) == SquareFromCell(w, n, fs, rng, x + fs, y);
  }

  /** `square_step` writes the cells of its lattice, one after the other in row-major order. */
  lemma SquareStepIsFold(m: seq<real>, n: uint32, fs: int, rng: Rng)
    requires StepGrid(m, n, fs)
    ensures AllInGrid(SquareLattice(fs, n - 1), n)
    ensures SquareFromRow(m, n, fs, rng, fs / 2) == Apply(m, n, Square, fs, rng, SquareLattice(fs, n - 1))
  {
    SquareFromRowIsFold(m, n, fs, rng, fs / 2);
    SquareLatticeVisits(fs, n - 1);
  }

  /** From row `y` on, `diamond_step` writes the coordinates its loops visit from there, in order. */
  lemma {:induction false} DiamondFromRowIsFold(m: seq<real>, n: uint32, fs: int, rng: Rng, y: int)
    requires StepGrid(m, n, fs) && 2 <= fs && 0 <= y
    ensures AllInGrid(DiamondVisitsFromRow(fs, n - 1, y), n)
    ensures DiamondFromRow(m, n, fs, rng, y) == Apply(m, n, Diamond, fs, rng, DiamondVisitsFromRow(fs, n - 1, y))
    decreases n - y, n + 1, 0
  {
    if y <= n - 1 {
      DiamondFromCellIsFold(m, n, fs, rng, Wrap(y + fs / 2, fs), y);
    }
  }

  /** From column `x` of row `y` on, `diamond_step` writes the coordinates its loops visit from there, in order. */
  lemma {:induction false} DiamondFromCellIsFold(m: seq<real>, n: uint32, fs: int, rng: Rng, x: int, y: int)
    requires StepGrid(m, n, fs) && 2 <= fs && 0 <= x && 0 <= y < n
    ensures AllInGrid(DiamondVisitsFromCell(fs, n - 1, x, y), n)
    ensures DiamondFromCell(m, n, fs, rng, x, y) == Apply(m, n, Diamond, fs, rng, DiamondVisitsFromCell(fs, n - 1, x, y))
    decreases n - y, n - x, 2
  {
    if n - 1 < x {
      DiamondFromRowIsFold(m, n, fs, rng, y + fs / 2);
    } else {
      DiamondAtCellIsFold(m, n, fs, rng, x, y);
      assert DiamondFromCell(m, n, fs, rng, x, y) == DiamondAtCell(m, n, fs, rng, x, y);
    }
  }

  /** Entering the inner loop's body at `(x, y)`, `diamond_step` writes `(x, y)` and then the coordinates after it. */
  lemma {:induction false} DiamondAtCellIsFold(m: seq<real>, n: uint32, fs: int, rng: Rng, x: int, y: int)
    requires StepGrid(m, n, fs) && 2 <= fs && 0 <= x < n && 0 <= y < n
    ensures AllInGrid(DiamondVisitsFromCell(fs, n - 1, x, y), n)
    ensures DiamondAtCell(m, n, fs, rng, x, y) == Apply(m, n, Diamond, fs, rng, DiamondVisitsFromCell(fs, n - 1, x, y))
    decreases n - y, n - x, 1
  {
    NeighboursInSmallGrid(n, Diamond, x, y, fs);
    var r := Displacement(rng, Diamond, fs, Coord(x, y));
    var w := AfterSample(m, n, Diamond, x, y, r, fs);
    var rest := DiamondVisitsFromCell(fs, n - 1, x + fs, y);
    DiamondFromCellIsFold(w, n, fs, rng, x + fs, y);
    assert AllInGrid(rest, n);
    assert InGrid(Coord(x, y), n);
    ApplyCons(m, n, Diamond, fs, rng, Coord(x, y), rest);
    assert DiamondVisitsFromCell(fs, n - 1, x, y) == [Coord(x, y)] + rest;
    assert DiamondAtCell(m, n, fs, rng, x, y) == DiamondWrite(m, n, fs, rng, x, y, r);
    assert DiamondWrite(m, n, fs, rng, x, y, r) == DiamondFromCell(w, n, fs, rng, x + fs, y);
  }

  /** `diamond_step` writes the cells of its lattice, one after the other in row-major order. */
  lemma DiamondStepIsFold(m: seq<real>, n: uint32, fs: int, rng: Rng)
    requires StepGrid(m, n, fs) && 2 <= fs
    ensures AllInGrid(DiamondLattice(fs, n - 1), n)
    ensures DiamondFromRow(m, n, fs, rng, 0) == Apply(m, n, Diamond, fs, rng, DiamondLattice(fs, n - 1))
  {
    DiamondFromRowIsFold(m, n, fs, rng, 0);
    DiamondLatticeVisits(fs, n - 1);
  }

  /* ---------------------------------------------------------------------- */
  /* What each step changes                                                  */
  /* ---------------------------------------------------------------------- */

  /** `square_step` leaves every cell that is not the centre of one of its squares as it was. */
  lemma SquareStepFrame(m: seq<real>, n: uint32, fs: int, rng: Rng, c: Coord)
    requires StepGrid(m, n, fs) && InGrid(c, n) && !SquareCentre(c, fs, n - 1)
    ensures 0 <= Idx(c.x, c.y, n) < |m|
    ensures SquareFromRow(m, n, fs, rng, fs / 2)[Idx(c.x, c.y, n)] == m[Idx(c.x, c.y, n)]
  {
    IdxBound(c.x, c.y, n);
    SquareStepIsFold(m, n, fs, rng);
    var cs := SquareLattice(fs, n - 1);
    forall c' | c' in cs ensures Idx(c'.x, c'.y, n) != Idx(c.x, c.y, n) {
      SquareLatticeMembers(fs, n - 1, c');
      IdxInjective(c.x, c.y, c'.x, c'.y, n);
    }
    ApplyFrame(m, n, Square, fs, rng, cs, Idx(c.x, c.y, n));
  }

  /**
   * The `k`-th cell `square_step` visits ends as the mean of its diagonal
   * neighbours, as the step found them on arriving there, plus its draw.
   */
  lemma SquareStepWrites(m: seq<real>, n: uint32, fs: int, rng: Rng, k: int)
    requires StepGrid(m, n, fs) && 0 <= k < |SquareLattice(fs, n - 1)|
    ensures SquareCentre(SquareLattice(fs, n - 1)[k], fs, n - 1)
    ensures AllInGrid(SquareLattice(fs, n - 1)[..k], n)
    ensures var c := SquareLattice(fs, n - 1)[k];
            0 <= Idx(c.x, c.y, n) < |m| && NeighboursReadable(n, Square, c.x, c.y, fs)
            && SquareFromRow(m, n, fs, rng, fs / 2)[Idx(c.x, c.y, n)]
               == Mean(Apply(m, n, Square, fs, rng, SquareLattice(fs, n - 1)[..k]), n, Square, c.x, c.y, fs)
                  + Displacement(rng, Square, fs, c)
  {
    var cs := SquareLattice(fs, n - 1);
    SquareStepIsFold(m, n, fs, rng);
    SquareLatticeOrdered(fs, n - 1);
    WrittenOnce(m, n, Square, fs, rng, cs, k);
    assert cs[k] in cs;
    SquareLatticeMembers(fs, n - 1, cs[k]);
  }

  /** `diamond_step` leaves every cell that is not the centre of one of its diamonds as it was. */
  lemma DiamondStepFrame(m: seq<real>, n: uint32, fs: int, rng: Rng, c: Coord)
    requires StepGrid(m, n, fs) && 2 <= fs && InGrid(c, n) && !DiamondCentre(c, fs, n - 1)
    ensures 0 <= Idx(c.x, c.y, n) < |m|
    ensures DiamondFromRow(m, n, fs, rng, 0)[Idx(c.x, c.y, n)] == m[Idx(c.x, c.y, n)]
  {
    IdxBound(c.x, c.y, n);
    DiamondStepIsFold(m, n, fs, rng);
    var cs := DiamondLattice(fs, n - 1);
    forall c' | c' in cs ensures Idx(c'.x, c'.y, n) != Idx(c.x, c.y, n) {
      DiamondLatticeMembers(fs, n - 1, c');
      IdxInjective(c.x, c.y, c'.x, c'.y, n);
    }
    ApplyFrame(m, n, Diamond, fs, rng, cs, Idx(c.x, c.y, n));
  }

  /**
   * The `k`-th cell `diamond_step` visits ends as the mean of its orthogonal
   * neighbours, as the step found them on arriving there, plus its draw.
   */
  lemma DiamondStepWrites(m: seq<real>, n: uint32, fs: int, rng: Rng, k: int)
    requires StepGrid(m, n, fs) && 2 <= fs && 0 <= k < |DiamondLattice(fs, n - 1)|
    ensures DiamondCentre(DiamondLattice(fs, n - 1)[k], fs, n - 1)
    ensures AllInGrid(DiamondLattice(fs, n - 1)[..k], n)
    ensures var c := DiamondLattice(fs, n - 1)[k];
            0 <= Idx(c.x, c.y, n) < |m| && NeighboursReadable(n, Diamond, c.x, c.y, fs)
            && DiamondFromRow(m, n, fs, rng, 0)[Idx(c.x, c.y, n)]
               == Mean(Apply(m, n, Diamond, fs, rng, DiamondLattice(fs, n - 1)[..k]), n, Diamond, c.x, c.y, fs)
                  + Displacement(rng, Diamond, fs, c)
  {
    var cs := DiamondLattice(fs, n - 1);
    DiamondStepIsFold(m, n, fs, rng);
    DiamondLatticeOrdered(fs, n - 1);
    WrittenOnce(m, n, Diamond, fs, rng, cs, k);
    assert cs[k] in cs;
    DiamondLatticeMembers(fs, n - 1, cs[k]);
  }

  /**
   * The cells `divide` writes from feature size `fs` on, on a grid whose
   * largest coordinate is `max`: the square and diamond centres at `fs` and
   * at every halved size down to 2.
   */
  predicate Touched(c: Coord, max: int, fs: int)
    decreases fs
  {
    fs / 2 >= 1 && (SquareCentre(c, fs, max) || DiamondCentre(c, fs, max) || Touched(c, max, fs / 2))
  }

  /** `divide` leaves every cell it does not touch as it was. */
  lemma {:induction false} SubdividedFrame(m: seq<real>, n: uint32, fs: int32, rng: Rng, c: Coord)
    requires |m| == Mul(n, n) && 1 <= n <= MAX_SIDE && fs <= MAX_SIDE
    requires InGrid(c, n) && !Touched(c, n - 1, fs)
    ensures 0 <= Idx(c.x, c.y, n) < |m|
    ensures Subdivided(m, n, fs, rng)[Idx(c.x, c.y, n)] == m[Idx(c.x, c.y, n)]
    decreases fs
  {
    IdxBound(c.x, c.y, n);
    if fs / 2 >= 1 {
      var squared := SquareFromRow(m, n, fs, rng, fs / 2);
      SquareStepFrame(m, n, fs, rng, c);
      var diamonded := DiamondFromRow(squared, n, fs, rng, 0);
      DiamondStepFrame(squared, n, fs, rng, c);
      SubdividedFrame(diamonded, n, fs / 2, rng, c);
    }
  }
}
