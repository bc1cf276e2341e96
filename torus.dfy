/**
 * Row-major indexing of the grid and the toroidal eight-neighbour count.
 */
module Torus {
  import opened Cells

  /** Side length of the fixed-capacity grid. */
  const Size: nat := 64

  /** Number of cells in each of the two buffers, `SIZE*SIZE`. */
  const Capacity: nat := Size * Size

  /** `get_index`: the row-major position of `(row, col)` for a grid `width` wide.
    * For a column inside the width, division and remainder by the width give the
    * row and the column back. */
  function Index(width: nat, row: nat, col: nat): (i: nat)
    ensures col < width ==> i / width == row && i % width == col
  {
    RowMajorRoundTrip(width, row, col);
    row * width + col
  }

  /** Every coordinate inside a `width` by `height` grid has an index below `width * height`. */
  lemma IndexInGrid(width: nat, height: nat, row: nat, col: nat)
    requires row < height && col < width
    ensures Index(width, row, col) < width * height
  {
    calc {
      Index(width, row, col);
    <  row * width + width;
    == (row + 1) * width;
    <= { MulLeft(row + 1, height, width); }
       height * width;
    }
  }

  lemma MulLeft(a: nat, b: nat, c: nat)
    requires a <= b
    ensures a * c <= b * c
  {
  }

  /** Division and remainder by the width invert the row-major layout. */
  lemma RowMajorRoundTrip(width: nat, row: nat, col: nat)
    ensures col < width ==> (row * width + col) / width == row && (row * width + col) % width == col
  {
    if col < width {
      var i := row * width + col;
      var q, r := i / width, i % width;
      assert i == q * width + r && 0 <= r < width;
      if q > row {
        assert q * width >= (row + 1) * width by { MulLeft(row + 1, q, width); }
        assert false;
      } else if q < row {
        assert row * width >= (q + 1) * width by { MulLeft(q + 1, row, width); }
        assert false;
      }
    }
  }

  /** Every index inside the grid is the index of a coordinate inside the grid. */
  lemma CoordinatesInGrid(width: nat, height: nat, i: nat)
    requires i < width * height
    ensures width > 0
    ensures i / width < height && i % width < width
    ensures Index(width, i / width, i % width) == i
    ensures forall r: nat, c: nat :: c < width && Index(width, r, c) == i ==> r == i / width && c == i % width
  {
    var q := i / width;
    if q >= height {
      MulLeft(height, q, width);
      assert false;
    }
  }

  /** The coordinate before `x` on a ring of `n` positions: the row north of a
    * cell, or the column west of it, wrapping from 0 to `n - 1`. */
  function WrapBack(x: nat, n: nat): (r: nat)
    requires x < n
    ensures r < n
  {
    if x == 0 then n - 1 else x - 1
  }

  /** The coordinate after `x` on a ring of `n` positions: the row south of a
    * cell, or the column east of it, wrapping from `n - 1` to 0. */
  function WrapForward(x: nat, n: nat): (r: nat)
    requires x < n
    ensures r < n
  {
    if x == n - 1 then 0 else x + 1
  }

  /** The edge cases of the wrap are arithmetic modulo the ring size. */
  lemma WrapIsModular(x: nat, n: nat)
    requires x < n
    ensures WrapBack(x, n) == (x - 1) % n
    ensures WrapForward(x, n) == (x + 1) % n
    ensures x % n == x
  {
    if x == 0 {
      MinusOneMod(n);
    } else {
      SmallMod(x - 1, n);
    }
    if x == n - 1 {
      SelfMod(n);
    } else {
      SmallMod(x + 1, n);
    }
    SmallMod(x, n);
  }

  lemma SmallMod(r: int, n: int)
    requires 0 <= r < n
    ensures r % n == r
  {
  }

  lemma MinusOneMod(n: int)
    requires 0 < n
    ensures (-1) % n == n - 1
  {
  }

  lemma SelfMod(n: int)
    requires 0 < n
    ensures n % n == 0
  {
  }

  /** The indices of the eight neighbours, in the order the engine adds them:
    * north-west, north, north-east, west, east, south-west, south, south-east. */
  function NeighbourIndices(width: nat, height: nat, row: nat, col: nat): (r: seq<nat>)
    requires row < height && col < width
    ensures |r| == 8
  {
    var north, south := WrapBack(row, height), WrapForward(row, height);
    var west, east := WrapBack(col, width), WrapForward(col, width);
    [Index(width, north, west), Index(width, north, col), Index(width, north, east),
     Index(width, row, west), Index(width, row, east),
     Index(width, south, west), Index(width, south, col), Index(width, south, east)]
  }

  /** All eight neighbour indices of an in-grid cell lie inside the grid. */
  lemma NeighbourIndicesInGrid(width: nat, height: nat, row: nat, col: nat)
    requires row < height && col < width
    ensures forall k :: 0 <= k < 8 ==> NeighbourIndices(width, height, row, col)[k] < width * height
  {
    var north, south := WrapBack(row, height), WrapForward(row, height);
    var west, east := WrapBack(col, width), WrapForward(col, width);
    IndexInGrid(width, height, north, west);
    IndexInGrid(width, height, north, col);
    IndexInGrid(width, height, north, east);
    IndexInGrid(width, height, row, west);
    IndexInGrid(width, height, row, east);
    IndexInGrid(width, height, south, west);
    IndexInGrid(width, height, south, col);
    IndexInGrid(width, height, south, east);
  }

  /** `live_neighbor_count`: the byte sum of the eight neighbours of `(row, col)`
    * in the buffer `g`, with the grid wrapped around at its edges. */
  function LiveNeighbours(g: seq<Cell>, width: nat, height: nat, row: nat, col: nat): (n: nat)
    requires row < height && col < width && width * height <= |g|
    ensures n <= 8
  {
    var ix := NeighbourIndices(width, height, row, col);
    NeighbourIndicesInGrid(width, height, row, col);
    g[ix[0]].Value() + g[ix[1]].Value() + g[ix[2]].Value() + g[ix[3]].Value()
      + g[ix[4]].Value() + g[ix[5]].Value() + g[ix[6]].Value() + g[ix[7]].Value()
  }

  /** The eight displacements `(drow, dcol)` of a cell's neighbourhood. */
  const Offsets: seq<(int, int)> :=
    [(-1, -1), (-1, 0), (-1, 1), (0, -1), (0, 1), (1, -1), (1, 0), (1, 1)]

  /** The cell displaced from `(row, col)` by `d`, coordinates taken modulo the grid size. */
  function Displaced(g: seq<Cell>, width: nat, height: nat, row: nat, col: nat, d: (int, int)): Cell
    requires row < height && col < width && width * height <= |g|
  {
    var r, c := (row + d.0) % height, (col + d.1) % width;
    IndexInGrid(width, height, r, c);
    g[Index(width, r, c)]
  }

  /** The number of live cells among the displacements `Offsets[k..]`. */
  function AliveFrom(g: seq<Cell>, width: nat, height: nat, row: nat, col: nat, k: nat): nat
    requires row < height && col < width && width * height <= |g|
    decreases |Offsets| - k
  {
    if k >= |Offsets| then
      0
    else
      Displaced(g, width, height, row, col, Offsets[k]).Value() + AliveFrom(g, width, height, row, col, k + 1)
  }

  /** The reference definition of the torus neighbour count. */
  function TorusCount(g: seq<Cell>, width: nat, height: nat, row: nat, col: nat): nat
    requires row < height && col < width && width * height <= |g|
  {
    AliveFrom(g, width, height, row, col, 0)
  }

  /** The engine's edge-case wrap arithmetic counts exactly the live cells at the
    * eight displacements taken modulo the grid, with multiplicity on small grids. */
  lemma LiveNeighboursIsTorusCount(g: seq<Cell>, width: nat, height: nat, row: nat, col: nat)
    requires row < height && col < width && width * height <= |g|
    ensures LiveNeighbours(g, width, height, row, col) == TorusCount(g, width, height, row, col)
  {
    WrapIsModular(row, height);
    WrapIsModular(col, width);
    var ix := NeighbourIndices(width, height, row, col);
    NeighbourIndicesInGrid(width, height, row, col);
    assert Displaced(g, width, height, row, col, Offsets[0]) == g[ix[0]];
    assert Displaced(g, width, height, row, col, Offsets[1]) == g[ix[1]];
    assert Displaced(g, width, height, row, col, Offsets[2]) == g[ix[2]];
    assert Displaced(g, width, height, row, col, Offsets[3]) == g[ix[3]];
    assert Displaced(g, width, height, row, col, Offsets[4]) == g[ix[4]];
    assert Displaced(g, width, height, row, col, Offsets[5]) == g[ix[5]];
    assert Displaced(g, width, height, row, col, Offsets[6]) == g[ix[6]];
    assert Displaced(g, width, height, row, col, Offsets[7]) == g[ix[7]];
    // Unfold the reference sum one displacement at a time, from the last one back.
    assert AliveFrom(g, width, height, row, col, 8) == 0;
    assert AliveFrom(g, width, height, row, col, 7) == g[ix[7]].Value();
    assert AliveFrom(g, width, height, row, col, 6) == g[ix[6]].Value() + g[ix[7]].Value();
    assert AliveFrom(g, width, height, row, col, 5) == g[ix[5]].Value() + AliveFrom(g, width, height, row, col, 6);
    assert AliveFrom(g, width, height, row, col, 4) == g[ix[4]].Value() + AliveFrom(g, width, height, row, col, 5);
    assert AliveFrom(g, width, height, row, col, 3) == g[ix[3]].Value() + AliveFrom(g, width, height, row, col, 4);
    assert AliveFrom(g, width, height, row, col, 2) == g[ix[2]].Value() + AliveFrom(g, width, height, row, col, 3);
    assert AliveFrom(g, width, height, row, col, 1) == g[ix[1]].Value() + AliveFrom(g, width, height, row, col, 2);
  }

  /** The neighbourhood of a cell of an all-dead buffer is empty. */
  lemma DeadNeighbourhood(g: seq<Cell>, width: nat, height: nat, row: nat, col: nat)
    requires row < height && col < width && width * height <= |g|
    requires forall i :: 0 <= i < width * height ==> g[i] == Dead
    ensures LiveNeighbours(g, width, height, row, col) == 0
  {
    NeighbourIndicesInGrid(width, height, row, col);
  }
}
