/**
 * The integer lattices the two steps of the generator walk.
 *
 * Both steps are nested `while` loops: the outer one over rows `y`, the inner
 * one over columns `x`, each advancing by a fixed stride. The functions here
 * list the coordinates those loops visit, in visiting order, so the step
 * methods can be proved against them and the lattices can be characterised
 * by congruences.
 */
module Lattices {
  import opened Arith
  import opened PixelMaps

  /** Strict row-major order: an earlier row, or the same row and an earlier column. */
  predicate Before(a: Coord, b: Coord) {
    a.y < b.y || (a.y == b.y && a.x < b.x)
  }

  /** Every coordinate of `cs` comes strictly after the ones before it, so none repeats. */
  predicate Ordered(cs: seq<Coord>) {
    forall i, j :: 0 <= i < j < |cs| ==> Before(cs[i], cs[j])
  }

  lemma OrderedConcat(a: seq<Coord>, b: seq<Coord>)
    requires Ordered(a) && Ordered(b)
    requires forall i, j :: 0 <= i < |a| && 0 <= j < |b| ==> Before(a[i], b[j])
    ensures Ordered(a + b)
  {
    forall i, j | 0 <= i < j < |a + b|
      ensures Before((a + b)[i], (a + b)[j])
    {
      if j < |a| {
        assert (a + b)[i] == a[i] && (a + b)[j] == a[j];
      } else if i < |a| {
        assert (a + b)[i] == a[i] && (a + b)[j] == b[j - |a|];
      } else {
        assert (a + b)[i] == b[i - |a|] && (a + b)[j] == b[j - |a|];
      }
    }
  }

  /** A row followed by coordinates of later rows stays ordered. */
  lemma RowThenLater(row: seq<Coord>, rest: seq<Coord>, y: int)
    requires Ordered(row) && Ordered(rest)
    requires forall i :: 0 <= i < |row| ==> row[i].y == y
    requires forall i :: 0 <= i < |rest| ==> y < rest[i].y
    ensures Ordered(row + rest)
  {
    OrderedConcat(row, rest);
  }

  /**
   * One pass of an inner loop: columns `x0`, `x0 + step`, ... strictly below
   * `end`, all in row `y`.
   */
  function Row(x0: int, y: int, step: int, end: int): seq<Coord>
    requires 1 <= step
    decreases end - x0
  {
    if x0 < end then [Coord(x0, y)] + Row(x0 + step, y, step, end) else []
  }

  /** A row stays in row `y` and in the columns `[x0, end)`. */
  lemma {:induction false} RowBounds(x0: int, y: int, step: int, end: int, c: Coord)
    requires 1 <= step
    ensures c in Row(x0, y, step, end) ==> c.y == y && x0 <= c.x < end
    decreases end - x0
  {
    if x0 < end {
      RowBounds(x0 + step, y, step, end, c);
    }
  }

  /** A row runs left to right. */
  lemma {:induction false} RowOrdered(x0: int, y: int, step: int, end: int)
    requires 1 <= step
    ensures Ordered(Row(x0, y, step, end))
    decreases end - x0
  {
    if x0 < end {
      var rest := Row(x0 + step, y, step, end);
      RowOrdered(x0 + step, y, step, end);
      forall j | 0 <= j < |rest| ensures Before(Coord(x0, y), rest[j]) {
        RowBounds(x0 + step, y, step, end, rest[j]);
      }
      OrderedConcat([Coord(x0, y)], rest);
    }
  }

  /** Values `base`, `base + step`, ...: either the first one, or one of those from `base + step` on. */
  lemma StrideStep(v: int, base: int, step: int)
    requires 1 <= step
    ensures base <= v && (v - base) % step == 0 <==>
              v == base || (base + step <= v && (v - base - step) % step == 0)
  {
    if v == base {
      DivModUnique(0, 0, 0, step);
    } else if base < v < base + step {
      DivModUnique(v - base, 0, v - base, step);
    } else if base + step <= v {
      ModAddMultiple(v - base - step, 1, step);
    }
  }

  /** A row holds exactly the columns in `[x0, end)` that are congruent to `x0` modulo the stride. */
  lemma {:induction false} RowMembers(x0: int, y: int, step: int, end: int, c: Coord)
    requires 1 <= step
    ensures c in Row(x0, y, step, end) <==> c.y == y && x0 <= c.x < end && (c.x - x0) % step == 0
    decreases end - x0
  {
    if x0 < end {
      RowMembers(x0 + step, y, step, end, c);
      StrideStep(c.x, x0, step);
    }
  }

  /**
   * The rows of `square_step` from row `y` on: rows `y`, `y + fs`, ...
   * strictly below `max`, each the columns `fs / 2`, `fs / 2 + fs`, ...
   * strictly below `max`.
   */
  function SquareRows(y: int, fs: int, max: int): seq<Coord>
    requires 1 <= fs
    decreases max - y
  {
    if y < max then Row(fs / 2, y, fs, max) + SquareRows(y + fs, fs, max) else []
  }

  /** The rows from `y` on lie in row `y` or below. */
  lemma {:induction false} SquareRowsFrom(y: int, fs: int, max: int, c: Coord)
    requires 1 <= fs
    ensures c in SquareRows(y, fs, max) ==> y <= c.y
    decreases max - y
  {
    if y < max {
      RowBounds(fs / 2, y, fs, max, c);
      SquareRowsFrom(y + fs, fs, max, c);
    }
  }

  lemma {:induction false} SquareRowsOrdered(y: int, fs: int, max: int)
    requires 1 <= fs
    ensures Ordered(SquareRows(y, fs, max))
    decreases max - y
  {
    if y < max {
      var row, rest := Row(fs / 2, y, fs, max), SquareRows(y + fs, fs, max);
      RowOrdered(fs / 2, y, fs, max);
      SquareRowsOrdered(y + fs, fs, max);
      forall i | 0 <= i < |row| ensures row[i].y == y {
        RowBounds(fs / 2, y, fs, max, row[i]);
      }
      forall i | 0 <= i < |rest| ensures y < rest[i].y {
        SquareRowsFrom(y + fs, fs, max, rest[i]);
      }
      RowThenLater(row, rest, y);
    }
  }

  /** Every coordinate `square_step` visits for feature size `fs` on a grid whose largest coordinate is `max`. */
  function SquareLattice(fs: int, max: int): seq<Coord>
    requires 1 <= fs
  {
    SquareRows(fs / 2, fs, max)
  }

  /** `square_step` walks its lattice in row-major order, so it visits no cell twice. */
  lemma SquareLatticeOrdered(fs: int, max: int)
    requires 1 <= fs
    ensures Ordered(SquareLattice(fs, max))
  {
    SquareRowsOrdered(fs / 2, fs, max);
  }

  lemma {:induction false} SquareRowsMembers(y: int, fs: int, max: int, c: Coord)
    requires 1 <= fs
    ensures c in SquareRows(y, fs, max) <==>
              y <= c.y < max && (c.y - y) % fs == 0 && fs / 2 <= c.x < max && (c.x - fs / 2) % fs == 0
    decreases max - y
  {
    if y < max {
      RowMembers(fs / 2, y, fs, max, c);
      SquareRowsMembers(y + fs, fs, max, c);
      StrideStep(c.y, y, fs);
    }
  }

  /** `c` is `(fs/2 + i*fs, fs/2 + j*fs)` for some `i, j >= 0`, with both coordinates below `max`. */
  predicate SquareCentre(c: Coord, fs: int, max: int)
    requires 1 <= fs
  {
    fs / 2 <= c.x < max && fs / 2 <= c.y < max && (c.x - fs / 2) % fs == 0 && (c.y - fs / 2) % fs == 0
  }

  /**
   * `square_step` visits exactly the cells `(fs/2 + i*fs, fs/2 + j*fs)` with
   * both coordinates below `max`: the centres of the squares of side `fs`.
   */
  lemma SquareLatticeMembers(fs: int, max: int, c: Coord)
    requires 1 <= fs
    ensures c in SquareLattice(fs, max) <==> SquareCentre(c, fs, max)
  {
    SquareRowsMembers(fs / 2, fs, max, c);
  }

  /**
   * The rows of `diamond_step` from row `y` on: rows `y`, `y + fs/2`, ... up
   * to `max`; row `y` starts at column `(y + fs/2) % fs` and steps by `fs`
   * up to `max`. A stride of `fs / 2 == 0` would never leave the first row.
   */
  function DiamondRows(y: int, fs: int, max: int): seq<Coord>
    requires 2 <= fs && 0 <= y
    decreases max - y
  {
    if y <= max then Row(Wrap(y + fs / 2, fs), y, fs, max + 1) + DiamondRows(y + fs / 2, fs, max) else []
  }

  /** The rows from `y` on lie in row `y` or below. */
  lemma {:induction false} DiamondRowsFrom(y: int, fs: int, max: int, c: Coord)
    requires 2 <= fs && 0 <= y
    ensures c in DiamondRows(y, fs, max) ==> y <= c.y
    decreases max - y
  {
    if y <= max {
      RowBounds(Wrap(y + fs / 2, fs), y, fs, max + 1, c);
      DiamondRowsFrom(y + fs / 2, fs, max, c);
    }
  }

  lemma {:induction false} DiamondRowsOrdered(y: int, fs: int, max: int)
    requires 2 <= fs && 0 <= y
    ensures Ordered(DiamondRows(y, fs, max))
    decreases max - y
  {
    if y <= max {
      var x0 := Wrap(y + fs / 2, fs);
      var row, rest := Row(x0, y, fs, max + 1), DiamondRows(y + fs / 2, fs, max);
      RowOrdered(x0, y, fs, max + 1);
      DiamondRowsOrdered(y + fs / 2, fs, max);
      forall i | 0 <= i < |row| ensures row[i].y == y {
        RowBounds(x0, y, fs, max + 1, row[i]);
      }
      forall i | 0 <= i < |rest| ensures y < rest[i].y {
        DiamondRowsFrom(y + fs / 2, fs, max, rest[i]);
      }
      RowThenLater(row, rest, y);
    }
  }

  /** Every coordinate `diamond_step` visits for feature size `fs` on a grid whose largest coordinate is `max`. */
  function DiamondLattice(fs: int, max: int): seq<Coord>
    requires 2 <= fs
  {
    DiamondRows(0, fs, max)
  }

  /** `diamond_step` walks its lattice in row-major order, so it visits no cell twice. */
  lemma DiamondLatticeOrdered(fs: int, max: int)
    requires 2 <= fs
    ensures Ordered(DiamondLattice(fs, max))
  {
    DiamondRowsOrdered(0, fs, max);
  }

  /** Starting at residue `x0` and stepping by `m` reaches exactly the non-negative values with that residue. */
  lemma ResidueStart(x: int, x0: int, m: int)
    requires 0 <= x0 < m
    ensures x0 <= x && (x - x0) % m == 0 <==> 0 <= x && x % m == x0
  {
    if x0 <= x && (x - x0) % m == 0 {
      DivModUnique(x, (x - x0) / m, x0, m);
    }
    if 0 <= x && x % m == x0 {
      DivModUnique(x - x0, x / m, 0, m);
    }
  }

  /** In its own row, the first row of `DiamondRows(y, ..)` holds the columns in `[0, max]` congruent to `y + fs/2`. */
  lemma DiamondRowStart(y: int, fs: int, max: int, c: Coord)
    requires 2 <= fs && 0 <= y && c.y == y
    ensures c in Row(Wrap(y + fs / 2, fs), y, fs, max + 1) <==> 0 <= c.x <= max && c.x % fs == (c.y + fs / 2) % fs
  {
    var x0 := Wrap(y + fs / 2, fs);
    RowMembers(x0, y, fs, max + 1, c);
    WrapIsMod(y + fs / 2, fs);
    ResidueStart(c.x, x0, fs);
  }

  /** `c` is in the rows `y`, `y + fs/2`, ... up to `max`, on a column congruent to `c.y + fs/2` modulo `fs`. */
  predicate InDiamondRows(c: Coord, y: int, fs: int, max: int)
    requires 2 <= fs
  {
    y <= c.y <= max && (c.y - y) % (fs / 2) == 0 && 0 <= c.x <= max && c.x % fs == (c.y + fs / 2) % fs
  }

  /** A coordinate in row `y` itself is visited exactly when its column is on the diamond lattice. */
  lemma DiamondRowsFirst(y: int, fs: int, max: int, c: Coord)
    requires 2 <= fs && 0 <= y <= max && c.y == y
    ensures c in DiamondRows(y, fs, max) <==> InDiamondRows(c, y, fs, max)
  {
    var row, rest := Row(Wrap(y + fs / 2, fs), y, fs, max + 1), DiamondRows(y + fs / 2, fs, max);
    assert DiamondRows(y, fs, max) == row + rest;
    DiamondRowsFrom(y + fs / 2, fs, max, c);
    DiamondRowStart(y, fs, max, c);
    assert (c.y - y) % (fs / 2) == 0;
  }

  /** A coordinate below row `y` is visited exactly when the rows from `y + fs/2` on visit it. */
  lemma DiamondRowsLater(y: int, fs: int, max: int, c: Coord)
    requires 2 <= fs && 0 <= y <= max && c.y != y
    requires c in DiamondRows(y + fs / 2, fs, max) <==> InDiamondRows(c, y + fs / 2, fs, max)
    ensures c in DiamondRows(y, fs, max) <==> InDiamondRows(c, y, fs, max)
  {
    var row, rest := Row(Wrap(y + fs / 2, fs), y, fs, max + 1), DiamondRows(y + fs / 2, fs, max);
    assert DiamondRows(y, fs, max) == row + rest;
    RowBounds(Wrap(y + fs / 2, fs), y, fs, max + 1, c);
    StrideStep(c.y, y, fs / 2);
  }

  lemma {:induction false} DiamondRowsMembers(y: int, fs: int, max: int, c: Coord)
    requires 2 <= fs && 0 <= y
    ensures c in DiamondRows(y, fs, max) <==> InDiamondRows(c, y, fs, max)
    decreases max - y
  {
    if y <= max {
      if c.y == y {
        DiamondRowsFirst(y, fs, max, c);
      } else {
        DiamondRowsMembers(y + fs / 2, fs, max, c);
        DiamondRowsLater(y, fs, max, c);
      }
    }
  }

  /** `c` lies in `[0, max]` squared, on a row that is a multiple of `fs/2`, with `c.x ≡ c.y + fs/2 (mod fs)`. */
  predicate DiamondCentre(c: Coord, fs: int, max: int)
    requires 2 <= fs
  {
    0 <= c.y <= max && c.y % (fs / 2) == 0 && 0 <= c.x <= max && c.x % fs == (c.y + fs / 2) % fs
  }

  /**
   * `diamond_step` visits exactly the rows `y` in `[0, max]` that are
   * multiples of `fs / 2`, and in each the columns `x` in `[0, max]` with
   * `x ≡ y + fs/2 (mod fs)`: the centres of the diamonds of side `fs`.
   */
  lemma DiamondLatticeMembers(fs: int, max: int, c: Coord)
    requires 2 <= fs
    ensures c in DiamondLattice(fs, max) <==> DiamondCentre(c, fs, max)
  {
    DiamondRowsMembers(0, fs, max, c);
  }

  /**
   * The coordinates the loops of `square_step` visit from the state where
   * the outer loop is about to test row `y`, in visiting order.
   */
  function SquareVisitsFromRow(fs: int, max: int, y: int): seq<Coord>
    requires 1 <= fs
    decreases max - y, 1, 0
  {
    if y < max then SquareVisitsFromCell(fs, max, fs / 2, y) else []
  }

  /** The coordinates `square_step` visits from the state where its inner loop is about to test column `x` of row `y`. */
  function SquareVisitsFromCell(fs: int, max: int, x: int, y: int): seq<Coord>
    requires 1 <= fs && y < max
    decreases max - y, 0, max - x
  {
    if x < max then [Coord(x, y)] + SquareVisitsFromCell(fs, max, x + fs, y) else SquareVisitsFromRow(fs, max, y + fs)
  }

  /** The visiting order of `square_step` is its lattice, row by row. */
  lemma {:induction false} SquareVisitsFromRowAreRows(fs: int, max: int, y: int)
    requires 1 <= fs
    ensures SquareVisitsFromRow(fs, max, y) == SquareRows(y, fs, max)
    decreases max - y, 1, 0
  {
    if y < max {
      SquareVisitsFromCellAreRows(fs, max, fs / 2, y);
    }
  }

  lemma {:induction false} SquareVisitsFromCellAreRows(fs: int, max: int, x: int, y: int)
    requires 1 <= fs && y < max
    ensures SquareVisitsFromCell(fs, max, x, y) == Row(x, y, fs, max) + SquareRows(y + fs, fs, max)
    decreases max - y, 0, max - x
  {
    if x < max {
      SquareVisitsFromCellAreRows(fs, max, x + fs, y);
      assert Row(x, y, fs, max) == [Coord(x, y)] + Row(x + fs, y, fs, max);
    } else {
      SquareVisitsFromRowAreRows(fs, max, y + fs);
      assert Row(x, y, fs, max) == [];
    }
  }

  /** `square_step` visits its lattice in the order of its loops. */
  lemma SquareLatticeVisits(fs: int, max: int)
    requires 1 <= fs
    ensures SquareVisitsFromRow(fs, max, fs / 2) == SquareLattice(fs, max)
  {
    SquareVisitsFromRowAreRows(fs, max, fs / 2);
  }

  /**
   * The coordinates the loops of `diamond_step` visit from the state where
   * the outer loop is about to test row `y`, in visiting order.
   */
  function DiamondVisitsFromRow(fs: int, max: int, y: int): seq<Coord>
    requires 2 <= fs && 0 <= y
    decreases max - y, 1, 0
  {
    if y <= max then DiamondVisitsFromCell(fs, max, Wrap(y + fs / 2, fs), y) else []
  }

  /** The coordinates `diamond_step` visits from the state where its inner loop is about to test column `x` of row `y`. */
  function DiamondVisitsFromCell(fs: int, max: int, x: int, y: int): seq<Coord>
    requires 2 <= fs && 0 <= y <= max
    decreases max - y, 0, max - x
  {
    if x <= max then [Coord(x, y)] + DiamondVisitsFromCell(fs, max, x + fs, y) else DiamondVisitsFromRow(fs, max, y + fs / 2)
  }

  /** The visiting order of `diamond_step` is its lattice, row by row. */
  lemma {:induction false} DiamondVisitsFromRowAreRows(fs: int, max: int, y: int)
    requires 2 <= fs && 0 <= y
    ensures DiamondVisitsFromRow(fs, max, y) == DiamondRows(y, fs, max)
    decreases max - y, 1, 0
  {
    if y <= max {
      DiamondVisitsFromCellAreRows(fs, max, Wrap(y + fs / 2, fs), y);
    }
  }

  lemma {:induction false} DiamondVisitsFromCellAreRows(fs: int, max: int, x: int, y: int)
    requires 2 <= fs && 0 <= y <= max
    ensures DiamondVisitsFromCell(fs, max, x, y) == Row(x, y, fs, max + 1) + DiamondRows(y + fs / 2, fs, max)
    decreases max - y, 0, max - x
  {
    if x <= max {
      DiamondVisitsFromCellAreRows(fs, max, x + fs, y);
      assert Row(x, y, fs, max + 1) == [Coord(x, y)] + Row(x + fs, y, fs, max + 1);
    } else {
      DiamondVisitsFromRowAreRows(fs, max, y + fs / 2);
      assert Row(x, y, fs, max + 1) == [];
    }
  }

  /** `diamond_step` visits its lattice in the order of its loops. */
  lemma DiamondLatticeVisits(fs: int, max: int)
    requires 2 <= fs
    ensures DiamondVisitsFromRow(fs, max, 0) == DiamondLattice(fs, max)
  {
    DiamondVisitsFromRowAreRows(fs, max, 0);
  }
}
