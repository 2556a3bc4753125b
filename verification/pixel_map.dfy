/**
 * The square height-map buffer and its coordinate enumeration.
 *
 * A `PixelMap` holds `size * size` samples in one flat buffer, the sample of
 * column `x` in row `y` at index `x + y * size`. `EnumeratePixelMap` walks the
 * coordinates row by row, `x` fastest.
 */
module PixelMaps {
  import opened Arith

  datatype Option<T> = None | Some(value: T)

  /** A column `x` and a row `y` of the grid. */
  datatype Coord = Coord(x: int, y: int)

  /** Row-major linearisation: where `get_pixel` and `set_pixel` find column `x` of row `y`. */
  function Idx(x: int, y: int, n: int): (i: int)
    ensures 0 <= x && 0 <= y && 0 <= n ==> 0 <= i
  {
    x + Mul(y, n)
  }

  predicate InGrid(c: Coord, n: int) {
    0 <= c.x < n && 0 <= c.y < n
  }

  lemma IdxBound(x: int, y: int, n: int)
    requires 0 <= x <= n && 0 <= y < n
    ensures 0 <= Idx(x, y, n) <= Mul(n, n)
    ensures x < n ==> Idx(x, y, n) < Mul(n, n)
  {
    MulIsProduct(y, n);
    MulIsProduct(n, n);
    assert y * n <= (n - 1) * n;
  }

  /** An index recovers its coordinates: the column is the remainder, the row the quotient. */
  lemma IdxDecompose(x: int, y: int, n: int)
    requires 0 <= x < n && 0 <= y
    ensures Idx(x, y, n) % n == x && Idx(x, y, n) / n == y
  {
    MulIsProduct(y, n);
    DivModUnique(Idx(x, y, n), y, x, n);
  }

  /** Distinct cells of the grid have distinct indices. */
  lemma IdxInjective(x: int, y: int, x': int, y': int, n: int)
    requires 0 <= x < n && 0 <= y && 0 <= x' < n && 0 <= y'
    ensures Idx(x, y, n) == Idx(x', y', n) <==> x == x' && y == y'
  {
    IdxDecompose(x, y, n);
    IdxDecompose(x', y', n);
  }

  /** Every coordinate of a side-`n` grid in row-major order: index `k` holds column `k % n` of row `k / n`. */
  function RowMajor(n: nat): seq<Coord> {
    seq(Mul(n, n), k requires 0 <= k < Mul(n, n) => Coord(k % n, k / n))
  }

  lemma MulLe(a: int, b: int, c: int)
    requires 0 <= a <= b && 0 <= c
    ensures a * c <= b * c
  {
    assert b * c - a * c == (b - a) * c;
  }

  /** Index `k` of a side-`n` grid is column `k % n` of row `k / n`, both inside the grid. */
  lemma RowMajorAt(n: nat, k: int)
    requires 0 <= k < Mul(n, n)
    ensures 0 < n && 0 <= k % n < n && 0 <= k / n < n && Idx(k % n, k / n, n) == k
  {
    MulIsProduct(n, n);
    var q, r := k / n, k % n;
    assert k == q * n + r;
    if q >= n {
      MulLe(n, q, n);
      assert false;
    }
    MulIsProduct(q, n);
  }

  /** Item `k` of the row-major order lies in the grid, at buffer index `k`. */
  lemma RowMajorItem(n: nat, k: int)
    requires 0 <= k < Mul(n, n)
    ensures InGrid(RowMajor(n)[k], n) && Idx(RowMajor(n)[k].x, RowMajor(n)[k].y, n) == k
  {
    RowMajorAt(n, k);
    assert RowMajor(n)[k] == Coord(k % n, k / n);
  }

  /**
   * `RowMajor(n)` lists each of the `n * n` cells exactly once, each at its
   * own buffer index, so in row-major order with `x` fastest.
   */
  lemma RowMajorEnumeratesGrid(n: nat)
    ensures |RowMajor(n)| == Mul(n, n)
    ensures forall k :: 0 <= k < Mul(n, n) ==>
              InGrid(RowMajor(n)[k], n) && Idx(RowMajor(n)[k].x, RowMajor(n)[k].y, n) == k
    ensures forall x, y :: 0 <= x < n && 0 <= y < n ==>
              0 <= Idx(x, y, n) < Mul(n, n) && RowMajor(n)[Idx(x, y, n)] == Coord(x, y)
  {
    var r := RowMajor(n);
    forall k | 0 <= k < Mul(n, n)
      ensures InGrid(r[k], n) && Idx(r[k].x, r[k].y, n) == k
    {
      RowMajorItem(n, k);
    }
    forall x, y | 0 <= x < n && 0 <= y < n
      ensures 0 <= Idx(x, y, n) < Mul(n, n) && r[Idx(x, y, n)] == Coord(x, y)
    {
      RowMajorHolds(n, x, y);
    }
  }

  lemma RowMajorHolds(n: nat, x: int, y: int)
    requires 0 <= x < n && 0 <= y < n
    ensures 0 <= Idx(x, y, n) < Mul(n, n) && RowMajor(n)[Idx(x, y, n)] == Coord(x, y)
  {
    var i := Idx(x, y, n);
    IdxBound(x, y, n);
    IdxDecompose(x, y, n);
    assert RowMajor(n)[i] == Coord(i % n, i / n);
  }

  /**
   * The coordinates an enumeration in state `(x, y)` has still to yield:
   * a column past the end moves to the start of the next row, and nothing is
   * left once the row reaches `n`.
   */
  function Pending(x: nat, y: nat, n: nat): seq<Coord>
    decreases n - y, n - x
  {
    if y >= n then []
    else if x >= n then Pending(0, y + 1, n)
    else [Coord(x, y)] + Pending(x + 1, y, n)
  }

  /** From a state inside the grid, the pending coordinates are the rest of the row-major order. */
  lemma {:induction false} PendingIsSuffix(x: nat, y: nat, n: nat)
    requires x <= n && y < n
    ensures 0 <= Idx(x, y, n) <= Mul(n, n)
    ensures Pending(x, y, n) == RowMajor(n)[Idx(x, y, n)..]
    decreases n - y, n - x
  {
    IdxBound(x, y, n);
    if x == n {
      assert Idx(x, y, n) == Idx(0, y + 1, n);
      if y + 1 < n {
        PendingIsSuffix(0, y + 1, n);
      } else {
        assert Idx(x, y, n) == Mul(n, n);
      }
    } else {
      PendingIsSuffix(x + 1, y, n);
      PendingNext(x, y, n);
    }
  }

  /** Yielding `(x, y)` moves one place along the row-major order. */
  lemma PendingNext(x: nat, y: nat, n: nat)
    requires x < n && y < n
    requires 0 <= Idx(x + 1, y, n) <= Mul(n, n)
    requires Pending(x + 1, y, n) == RowMajor(n)[Idx(x + 1, y, n)..]
    ensures 0 <= Idx(x, y, n) < Mul(n, n)
    ensures Pending(x, y, n) == RowMajor(n)[Idx(x, y, n)..]
  {
    var k := Idx(x, y, n);
    RowMajorHolds(n, x, y);
    assert RowMajor(n)[k..] == [RowMajor(n)[k]] + RowMajor(n)[k + 1..];
  }

  /** A fresh enumeration, at `(0, 0)`, has the whole grid in row-major order still to yield. */
  lemma PendingFromStart(n: nat)
    ensures Pending(0, 0, n) == RowMajor(n)
  {
    if n > 0 {
      PendingIsSuffix(0, 0, n);
    }
  }

  /** `EnumeratePixelMap`: an iterator over the coordinates of a side-`size` grid. */
  class EnumeratePixelMap {
    var x: nat
    var y: nat
    const size: uint32

    /** The iterator `enumerate_pixels` builds: positioned at `(0, 0)`. */
    constructor (size: uint32)
      ensures x == 0 && y == 0 && this.size == size
    {
      x, y := 0, 0;
      this.size := size;
    }

    /** The coordinates still to be yielded. */
    ghost function Remaining(): seq<Coord>
      reads this
    {
      Pending(x, y, size)
    }

    /**
     * `next`: yields the first pending coordinate and drops it, or yields
     * `None` once nothing is pending (and keeps doing so).
     */
    method Next() returns (item: Option<Coord>)
      modifies this
      ensures old(Remaining()) == [] ==> item == None && Remaining() == []
      ensures old(Remaining()) != [] ==>
                item == Some(old(Remaining())[0]) && Remaining() == old(Remaining())[1..]
      ensures (x, y) == if old(x) >= size then (1, old(y) + 1) else (old(x) + 1, old(y))
    {
      if x >= size {
        assert y < size ==> Pending(x, y, size) == Pending(0, y + 1, size);
        x := 0;
        y := y + 1;
      }
      assert y < size ==> Pending(x, y, size) == [Coord(x, y)] + Pending(x + 1, y, size);
      var cx, cy := x, y;
      x := x + 1;
      if y >= size {
        item := None;
      } else {
        item := Some(Coord(cx, cy));
      }
    }
  }

  /** `PixelMap`: a side length and a buffer of `size * size` samples. */
  class PixelMap {
    const size: uint32
    const buffer: array<real>

    ghost predicate Valid() {
      buffer.Length == Mul(size, size)
    }

    /** The literal `PixelMap { map: vec![0.0; size * size], size }`: every sample zero. */
    constructor (size: uint32)
      ensures Valid() && this.size == size && fresh(buffer)
      ensures forall i :: 0 <= i < buffer.Length ==> buffer[i] == 0.0
    {
      this.size := size;
      buffer := new real[size * size](_ => 0.0);
      MulIsProduct(size, size);
    }

    /** `max`: the largest coordinate, `size - 1` cast to `i32` (the `u32` subtraction underflows at size 0). */
    function Max(): (r: int32)
      requires 1 <= size
      ensures size - 1 <= I32_MAX ==> r == size - 1
    {
      AsInt32(size - 1)
    }

    /** `size`. */
    function Size(): uint32 {
      size
    }

    /** `get_pixel`: the sample at index `x + y * size`; out of the buffer it panics. */
    function GetPixel(x: uint32, y: uint32): real
      reads buffer
      requires Idx(x, y, size) < buffer.Length
    {
      buffer[Idx(x, y, size)]
    }

    /** `set_pixel`: overwrites the sample at index `x + y * size` and nothing else. */
    method SetPixel(x: uint32, y: uint32, value: real)
      requires Idx(x, y, size) < buffer.Length
      modifies buffer
      ensures buffer[..] == old(buffer[..])[Idx(x, y, size) := value]
      ensures GetPixel(x, y) == value
    {
      buffer[Idx(x, y, size)] := value;
    }

    /** `enumerate_pixels`: a fresh iterator that will yield the whole grid in row-major order. */
    method EnumeratePixels() returns (it: EnumeratePixelMap)
      ensures fresh(it) && it.size == size
      ensures it.Remaining() == RowMajor(size)
    {
      it := new EnumeratePixelMap(size);
      PendingFromStart(size);
    }
  }

  /**
   * Reading a cell after writing one: the written cell holds the new value,
   * every other cell of the grid its old one.
   */
  lemma ReadAfterWrite(m: seq<real>, n: nat, x: nat, y: nat, v: real, x': nat, y': nat)
    requires |m| == Mul(n, n) && x < n && y < n && x' < n && y' < n
    ensures 0 <= Idx(x, y, n) < |m| && 0 <= Idx(x', y', n) < |m|
    ensures m[Idx(x, y, n) := v][Idx(x', y', n)] == if x' == x && y' == y then v else m[Idx(x', y', n)]
  {
    IdxBound(x, y, n);
    IdxBound(x', y', n);
    IdxInjective(x, y, x', y', n);
  }
}
