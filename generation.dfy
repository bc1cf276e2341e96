/**
 * The Game of Life transition rule (B3/S23) and the sweep that applies it to
 * every cell of the grid, reading one buffer and writing the other.
 */
module Generation {
  import opened Cells
  import opened Torus

  /** The rule match of `tick`. Its three guarded arms for a live cell cover every
    * count (underpopulation, survival, overpopulation), so its catch-all arm, which
    * returns the cell unchanged, is reached by dead cells only. A cell is alive next
    * exactly when it has three live neighbours, or is alive and has two. */
  function Rule(cell: Cell, n: nat): (next: Cell)
    ensures next == Alive <==> (n == 3 || (cell == Alive && n == 2))
  {
    match cell
    case Alive =>
      if n < 2 then Dead
      else if n == 2 || n == 3 then Alive
      else Dead
    case Dead =>
      if n == 3 then Alive else cell
  }

  /** The four named arms of the rule, and the default arm that keeps a dead cell dead. */
  lemma RuleCases(cell: Cell, n: nat)
    ensures cell == Alive && n < 2 ==> Rule(cell, n) == Dead
    ensures cell == Alive && (n == 2 || n == 3) ==> Rule(cell, n) == Alive
    ensures cell == Alive && n > 3 ==> Rule(cell, n) == Dead
    ensures cell == Dead && n == 3 ==> Rule(cell, n) == Alive
    ensures cell == Dead && n != 3 ==> Rule(cell, n) == Dead
  {
  }

  /** The next state of the cell at index `i` of the grid held in the buffer `src`:
    * alive exactly when the cell at row `i / width`, column `i % width` has three
    * live neighbours in `src`, or is alive there and has two. */
  function Next(src: seq<Cell>, width: nat, height: nat, i: nat): (c: Cell)
    requires i < width * height <= |src|
    ensures width > 0 && i / width < height && i % width < width
    ensures var n := LiveNeighbours(src, width, height, i / width, i % width);
      c == Alive <==> (n == 3 || (src[i] == Alive && n == 2))
  {
    CoordinatesInGrid(width, height, i);
    Rule(src[i], LiveNeighbours(src, width, height, i / width, i % width))
  }

  /** One sweep of `tick`: every in-grid index of the target buffer `dst` gets the
    * next state computed from `src`; indices beyond the grid keep what `dst` held. */
  function Sweep(src: seq<Cell>, dst: seq<Cell>, width: nat, height: nat): (r: seq<Cell>)
    requires width * height <= |src| == |dst|
    ensures |r| == |dst|
  {
    seq(|dst|, i requires 0 <= i < |dst| => if i < width * height then Next(src, width, height, i) else dst[i])
  }

  /** The cell at `(row, col)` after a sweep is the rule applied to its old state and
    * to the number of its live neighbours in the source buffer. */
  lemma SweepAt(src: seq<Cell>, dst: seq<Cell>, width: nat, height: nat, row: nat, col: nat)
    requires width * height <= |src| == |dst|
    requires row < height && col < width
    ensures Index(width, row, col) < |dst|
    ensures Sweep(src, dst, width, height)[Index(width, row, col)]
         == Rule(src[Index(width, row, col)], LiveNeighbours(src, width, height, row, col))
  {
    IndexInGrid(width, height, row, col);
  }

  /** A sweep writes only the grid: every index at or beyond `width * height` keeps its old value. */
  lemma SweepBeyondGrid(src: seq<Cell>, dst: seq<Cell>, width: nat, height: nat, i: nat)
    requires width * height <= |src| == |dst|
    requires width * height <= i < |dst|
    ensures Sweep(src, dst, width, height)[i] == dst[i]
  {
  }

  /** Generation isolation: inside the grid the result depends on the source
    * buffer alone, never on what the target buffer held before. */
  lemma SweepIgnoresTarget(src: seq<Cell>, dst1: seq<Cell>, dst2: seq<Cell>, width: nat, height: nat, i: nat)
    requires width * height <= |src| == |dst1| == |dst2|
    requires i < width * height
    ensures Sweep(src, dst1, width, height)[i] == Sweep(src, dst2, width, height)[i]
  {
  }

  /** Sweeping again from the same source changes nothing. */
  lemma SweepIdempotent(src: seq<Cell>, dst: seq<Cell>, width: nat, height: nat)
    requires width * height <= |src| == |dst|
    ensures Sweep(src, Sweep(src, dst, width, height), width, height) == Sweep(src, dst, width, height)
  {
  }

  /** `k` sweeps, each reading `src` and rewriting the target: what the `tick_rate`
    * loop of `tick` does, since the roles are only swapped after the loop. */
  function Repeat(src: seq<Cell>, dst: seq<Cell>, width: nat, height: nat, k: nat): (r: seq<Cell>)
    requires width * height <= |src| == |dst|
    ensures |r| == |dst|
  {
    if k == 0 then dst else Sweep(src, Repeat(src, dst, width, height, k - 1), width, height)
  }

  /** However many sweeps the loop does, from one on the result is one generation. */
  lemma {:induction false} RepeatIsOneSweep(src: seq<Cell>, dst: seq<Cell>, width: nat, height: nat, k: nat)
    requires width * height <= |src| == |dst|
    requires k >= 1
    ensures Repeat(src, dst, width, height, k) == Sweep(src, dst, width, height)
  {
    if k > 1 {
      RepeatIsOneSweep(src, dst, width, height, k - 1);
      SweepIdempotent(src, dst, width, height);
    }
  }

  /** An all-dead grid stays dead: nothing is born without three live neighbours. */
  lemma DeadGridStaysDead(src: seq<Cell>, dst: seq<Cell>, width: nat, height: nat, i: nat)
    requires width * height <= |src| == |dst|
    requires forall j :: 0 <= j < width * height ==> src[j] == Dead
    requires i < width * height
    ensures Sweep(src, dst, width, height)[i] == Dead
  {
    CoordinatesInGrid(width, height, i);
    DeadNeighbourhood(src, width, height, i / width, i % width);
  }
}
