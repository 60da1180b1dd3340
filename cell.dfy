/**
 * The state of one cell of the Game of Life grid (src/cell.rs).
 */
module Cells {

  /** A cell is either alive or dead; `Dead` is the default. */
  datatype Cell = Alive | Dead {

    /** `Cell::is_alive`: the cell is the `Alive` variant. */
    function IsAlive(): (b: bool)
      ensures b <==> this == Alive
    {
      this.Alive?
    }

    /** `Cell::is_dead`: the negation of `IsAlive`. */
    function IsDead(): (b: bool)
      ensures b <==> this == Dead
    {
      !IsAlive()
    }

    /** The `!` operator: the opposite state, used to toggle a cell. */
    function Not(): (r: Cell)
      ensures r != this
      ensures r.IsAlive() == IsDead()
    {
      match this
      case Alive => Dead
      case Dead => Alive
    }

    /** The `#[repr(u8)]` discriminant: `Alive = 1`, `Dead = 0`. */
    function Discriminant(): (d: nat)
      ensures d <= 1
      ensures d == 1 <==> IsAlive()
    {
      match this
      case Alive => 1
      case Dead => 0
    }
  }

  /** `Cell::default()`. */
  function Default(): (c: Cell)
    ensures c.IsDead() && c.Discriminant() == 0
  {
    Dead
  }

  /** Negation is an involution: toggling twice gives back the cell. */
  lemma NotInvolution(c: Cell)
    ensures c.Not().Not() == c
  {
  }
}
