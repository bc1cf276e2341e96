/**
 * The `Universe` of the engine: two fixed-capacity cell arrays used as a double
 * buffer, the flag that says which one is visible, the grid dimensions and the
 * number of sweeps per tick.
 */
module Engine {
  import opened Cells
  import opened Torus
  import opened Generation

  /** An unsigned 32-bit integer: the type of the dimensions, the tick rate and all coordinates. */
  type U32 = x: int | 0 <= x < 0x1_0000_0000

  /** Some coordinate of `alive` addresses index `i` of a grid `width` wide. */
  ghost predicate Listed(alive: seq<(U32, U32)>, width: nat, i: nat)
  {
    exists k :: 0 <= k < |alive| && Index(width, alive[k].0, alive[k].1) == i
  }

  /** The fixed pattern of `reset_grid`: index `i` is alive exactly when it is
    * divisible by 2 or by 7. */
  predicate Striped(i: nat)
  {
    i % 2 == 0 || i % 7 == 0
  }

  /** The two nested loops of one `tick` sweep: for every row and then every column,
    * the rule applied to the cell of `src` and its live neighbours in `src` is written
    * into `dst` at the same index. `src` is only read. */
  method SweepInto(src: array<Cell>, dst: array<Cell>, width: nat, height: nat)
    requires src != dst && src.Length == dst.Length && width * height <= src.Length
    modifies dst
    ensures dst[..] == Sweep(src[..], old(dst[..]), width, height)
  {
    ghost var s0, d0 := src[..], dst[..];
    var row := 0;
    while row < height
      invariant row <= height
      invariant row * width <= width * height
      invariant forall i :: 0 <= i < dst.Length ==>
        dst[i] == if i < row * width then Next(s0, width, height, i) else d0[i]
    {
      MulLeft(row + 1, height, width);
      assert row * width + width == (row + 1) * width;
      SweepRow(src, dst, width, height, row, s0, d0);
      row := row + 1;
    }
    assert row * width == width * height;
    assert forall i :: 0 <= i < dst.Length ==> dst[i] == Sweep(s0, d0, width, height)[i];
  }

  /** The inner loop of a sweep: the cells of row `row`, column by column. */
  method SweepRow(src: array<Cell>, dst: array<Cell>, width: nat, height: nat, row: nat,
                  ghost s0: seq<Cell>, ghost d0: seq<Cell>)
    requires src != dst && src[..] == s0 && |s0| == dst.Length == |d0| && width * height <= |s0|
    requires row < height && row * width + width <= width * height
    requires forall i :: 0 <= i < dst.Length ==>
      dst[i] == if i < row * width then Next(s0, width, height, i) else d0[i]
    modifies dst
    ensures forall i :: 0 <= i < dst.Length ==>
      dst[i] == if i < row * width + width then Next(s0, width, height, i) else d0[i]
  {
    var col := 0;
    while col < width
      invariant col <= width
      invariant forall i :: 0 <= i < dst.Length ==>
        dst[i] == if i < row * width + col then Next(s0, width, height, i) else d0[i]
    {
      var idx := Index(width, row, col);
      IndexInGrid(width, height, row, col);
      var cell := src[idx];
      var liveNeighbours := LiveNeighbours(src[..], width, height, row, col);
      dst[idx] := Rule(cell, liveNeighbours);
      col := col + 1;
    }
  }

  class Universe {
    var width: U32
    var height: U32
    var tickRate: U32
    var cells: array<Cell>
    var double: array<Cell>
    var state: BufferState

    /** Both buffers hold `SIZE*SIZE` cells, they are distinct arrays, and the grid fits in them. */
    ghost predicate Valid()
      reads this
    {
      && cells.Length == Capacity
      && double.Length == Capacity
      && cells != double
      && width * height <= Capacity
    }

    /** The initializer of the engine's one instance: a 64 by 64 grid, one sweep
      * per tick, every cell of both buffers dead, `cells` visible. */
    constructor ()
      ensures Valid() && fresh(cells) && fresh(double)
      ensures width == Size && height == Size && tickRate == 1 && state == First
      ensures forall i :: 0 <= i < Capacity ==> cells[i] == Dead && double[i] == Dead
    {
      width, height, tickRate := Size, Size, 1;
      cells := new Cell[Capacity](_ => Dead);
      double := new Cell[Capacity](_ => Dead);
      state := First;
    }

    /** `get_cells`: the whole buffer the role flag selects as the visible generation. */
    function GetCells(): (a: array<Cell>)
      reads this
      requires Valid()
      ensures state == First ==> a == cells
      ensures state == Second ==> a == double
      ensures a.Length == Capacity
    {
      match state
      case First => cells
      case Second => double
    }

    /** The buffer `tick` writes into: the one `get_cells` does not return. */
    function Scratch(): (a: array<Cell>)
      reads this
      requires Valid()
      ensures a != GetCells()
      ensures a == cells || a == double
      ensures a.Length == Capacity
    {
      match state
      case First => double
      case Second => cells
    }

    /** `width`: the current grid width, which with the height fits the buffers. */
    function Width(): (w: U32)
      reads this
      requires Valid()
      ensures w == width && w * height <= Capacity
    {
      width
    }

    /** `height`: the current grid height, which with the width fits the buffers. */
    function Height(): (h: U32)
      reads this
      requires Valid()
      ensures h == height && width * h <= Capacity
    {
      height
    }

    /** `tick`: `tickRate` sweeps, each reading the visible buffer and rewriting the
      * scratch buffer, then one role swap. The previously visible buffer is not
      * written, so it becomes the scratch buffer unchanged. */
    method Tick()
      requires Valid()
      modifies this`state, cells, double
      ensures Valid()
      ensures state == old(state).Flip()
      ensures GetCells() == old(Scratch())
      ensures GetCells()[..] == Repeat(old(GetCells()[..]), old(Scratch()[..]), width, height, tickRate)
      ensures tickRate >= 1 ==> GetCells()[..] == Sweep(old(GetCells()[..]), old(Scratch()[..]), width, height)
      ensures tickRate == 0 ==> GetCells()[..] == old(Scratch()[..])
      ensures Scratch()[..] == old(GetCells()[..])
    {
      var src, dst := GetCells(), Scratch();
      ghost var s0, d0 := src[..], dst[..];
      var t := 0;
      while t < tickRate
        invariant t <= tickRate && state == old(state)
        invariant src[..] == s0
        invariant dst[..] == Repeat(s0, d0, width, height, t)
      {
        SweepInto(src, dst, width, height);
        t := t + 1;
      }
      if tickRate >= 1 {
        RepeatIsOneSweep(s0, d0, width, height, tickRate);
      }
      state := state.Flip();
    }

    /** The `for_each` loop shared by the resets: each in-grid index `i` of `cells`
      * (whichever buffer is visible) gets `pattern(i)`; the rest of `cells` is kept. */
    method Fill(pattern: nat -> Cell)
      requires Valid()
      modifies cells
      ensures forall i :: 0 <= i < Capacity ==>
        cells[i] == if i < width * height then pattern(i) else old(cells[i])
    {
      var i := 0;
      while i < width * height
        invariant i <= width * height
        invariant forall j :: 0 <= j < Capacity ==> cells[j] == if j < i then pattern(j) else old(cells[j])
      {
        cells[i] := pattern(i);
        i := i + 1;
      }
    }

    /** `self.double = self.cells.clone()`: all `SIZE*SIZE` cells copied. */
    method Mirror()
      requires Valid()
      modifies double
      ensures double[..] == cells[..]
    {
      forall i | 0 <= i < Capacity {
        double[i] := cells[i];
      }
    }

    /** `reset_dead`: every in-grid cell dead, and both buffers equal. */
    method ResetDead()
      requires Valid()
      modifies cells, double
      ensures forall i :: 0 <= i < width * height ==> cells[i] == Dead
      ensures forall i :: 0 <= i < Capacity && width * height <= i ==> cells[i] == old(cells[i])
      ensures double[..] == cells[..]
    {
      Fill(_ => Dead);
      Mirror();
    }

    /** `reset_random`, with the random source injected: `coin(i)` is whether the
      * `i`-th draw fell below one half. Both buffers equal afterwards. */
    method ResetRandom(coin: nat -> bool)
      requires Valid()
      modifies cells, double
      ensures forall i :: 0 <= i < width * height ==> (cells[i] == Alive <==> coin(i))
      ensures forall i :: 0 <= i < Capacity && width * height <= i ==> cells[i] == old(cells[i])
      ensures double[..] == cells[..]
    {
      Fill((i: nat) => if coin(i) then Alive else Dead);
      Mirror();
    }

    /** `reset_grid`: the in-grid cells take the `Striped` pattern. Both buffers
      * equal afterwards. */
    method ResetGrid()
      requires Valid()
      modifies cells, double
      ensures forall i :: 0 <= i < width * height ==> (cells[i] == Alive <==> Striped(i))
      ensures forall i :: 0 <= i < Capacity && width * height <= i ==> cells[i] == old(cells[i])
      ensures double[..] == cells[..]
    {
      Fill((i: nat) => if Striped(i) then Alive else Dead);
      Mirror();
    }

    /** `reset`: the same as `reset_grid`. */
    method Reset()
      requires Valid()
      modifies cells, double
      ensures forall i :: 0 <= i < width * height ==> (cells[i] == Alive <==> Striped(i))
      ensures forall i :: 0 <= i < Capacity && width * height <= i ==> cells[i] == old(cells[i])
      ensures double[..] == cells[..]
    {
      ResetGrid();
    }

    /** `set_width`: the new width, then `reset_dead` on the grid of the new size. */
    method SetWidth(w: U32)
      requires Valid() && w * height <= Capacity
      modifies this`width, cells, double
      ensures Valid() && width == w
      ensures forall i :: 0 <= i < width * height ==> cells[i] == Dead
      ensures forall i :: 0 <= i < Capacity && width * height <= i ==> cells[i] == old(cells[i])
      ensures double[..] == cells[..]
    {
      width := w;
      ResetDead();
    }

    /** `set_height`: the new height, then `reset_dead` on the grid of the new size. */
    method SetHeight(h: U32)
      requires Valid() && width * h <= Capacity
      modifies this`height, cells, double
      ensures Valid() && height == h
      ensures forall i :: 0 <= i < width * height ==> cells[i] == Dead
      ensures forall i :: 0 <= i < Capacity && width * height <= i ==> cells[i] == old(cells[i])
      ensures double[..] == cells[..]
    {
      height := h;
      ResetDead();
    }

    /** `toggle_cell`: flips the one visible cell at `row * width + col`. Only the
      * array bound is required; a column beyond the width lands on a later row. */
    method ToggleCell(row: U32, col: U32)
      requires Valid() && Index(width, row, col) < Capacity
      modifies GetCells()
      ensures GetCells()[..] == ToggleAt(old(GetCells()[..]), Index(width, row, col))
      ensures Scratch()[..] == old(Scratch()[..])
    {
      var idx := Index(width, row, col);
      match state {
        case First => cells[idx] := cells[idx].Toggle();
        case Second => double[idx] := double[idx].Toggle();
      }
    }

    /** `set_cells_alive`: every listed coordinate becomes alive in the visible
      * buffer; unlisted indices and the scratch buffer are untouched. */
    method SetCellsAlive(alive: seq<(U32, U32)>)
      requires Valid()
      requires forall k :: 0 <= k < |alive| ==> Index(width, alive[k].0, alive[k].1) < Capacity
      modifies GetCells()
      ensures forall i :: 0 <= i < Capacity ==>
        GetCells()[i] == if Listed(alive, width, i) then Alive else old(GetCells()[i])
      ensures Scratch()[..] == old(Scratch()[..])
    {
      var k := 0;
      while k < |alive|
        invariant k <= |alive|
        invariant forall i :: 0 <= i < Capacity ==>
          GetCells()[i] == if Listed(alive[..k], width, i) then Alive else old(GetCells()[i])
      {
        var (row, col) := alive[k];
        var idx := Index(width, row, col);
        match state {
          case First => cells[idx] := Alive;
          case Second => double[idx] := Alive;
        }
        k := k + 1;
      }
      assert alive[..k] == alive;
    }
  }
}
