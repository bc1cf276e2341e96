/**
 * The two value types of the engine: a grid cell and the flag that says
 * which of the two cell arrays holds the visible generation.
 */
module Cells {

  /** A grid cell. The engine stores it as one byte: Dead is 0, Alive is 1. */
  datatype Cell = Dead | Alive {

    /** The byte a cell is cast to when live neighbours are added up. */
    function Value(): (v: nat)
      ensures v <= 1
      ensures v == 1 <==> this == Alive
    {
      if this == Alive then 1 else 0
    }

    /** `Cell::toggle`: the other of the two states. */
    function Toggle(): (r: Cell)
      ensures r != this
    {
      match this
      case Dead => Alive
      case Alive => Dead
    }
  }

  /** Toggling is an involution. */
  lemma ToggleInvolution(c: Cell)
    ensures c.Toggle().Toggle() == c
  {
  }

  /** `BufferState`: `First` means `cells` is visible, `Second` means `double` is. */
  datatype BufferState = First | Second {

    /** The role swap done at the end of every tick. */
    function Flip(): (r: BufferState)
      ensures r != this
    {
      match this
      case First => Second
      case Second => First
    }
  }

  /** The buffer contents after toggling the cell at index `i` in place. */
  function ToggleAt(s: seq<Cell>, i: nat): (r: seq<Cell>)
    requires i < |s|
    ensures |r| == |s|
    ensures r[i] != s[i]
    ensures forall j :: 0 <= j < |s| && j != i ==> r[j] == s[j]
  {
    s[i := s[i].Toggle()]
  }

  /** Toggling the same index twice restores the buffer. */
  lemma ToggleAtTwice(s: seq<Cell>, i: nat)
    requires i < |s|
    ensures ToggleAt(ToggleAt(s, i), i) == s
  {
    ToggleInvolution(s[i]);
  }
}
