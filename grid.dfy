/**
 * The Game of Life grid (src/grid.rs): a fixed W x H table of cells, updated
 * in place by `Set`/`Toggle`, and a generation counter; `Step` builds the next
 * generation as a new grid by the B3/S23 rule, every cell reading the old grid.
 */
module Grids {
  import opened Cells
  import opened Math

  /** `Grid<W, H>`: `cells[y, x]` is the cell in row `y`, column `x`. */
  class Grid {
    const W: nat
    const H: nat
    const cells: array2<Cell>
    var generation: nat

    /** The table has exactly H rows of W cells. */
    predicate Valid()
    {
      cells.Length0 == H && cells.Length1 == W
    }

    /** Whether `pos` indexes a cell of the grid. */
    predicate Contains(pos: Coord)
    {
      pos.0 < W && pos.1 < H
    }

    /** `Grid::new`: every cell dead, generation 0. */
    constructor (w: nat, h: nat)
      ensures W == w && H == h && Valid() && fresh(cells)
      ensures AllDead() && generation == 0
    {
      W, H := w, h;
      cells := new Cell[h, w]((y: nat, x: nat) => Dead);
      generation := 0;
    }

    /** A grid holding the given table and generation, as `Step` assembles it. */
    constructor Assemble(table: array2<Cell>, generation: nat)
      ensures W == table.Length1 && H == table.Length0 && Valid()
      ensures cells == table && this.generation == generation
    {
      W, H := table.Length1, table.Length0;
      cells := table;
      this.generation := generation;
    }

    /** `Index<Coord>`: the cell in row `pos.1`, column `pos.0`; out of range is a panic. */
    function Index(pos: Coord): (c: Cell)
      reads cells
      requires Valid() && Contains(pos)
      ensures AllDead() ==> c == Dead
    {
      cells[pos.1, pos.0]
    }

    /** Every cell is dead. */
    predicate AllDead()
      reads cells
      requires Valid()
    {
      forall y, x | 0 <= y < H && 0 <= x < W :: cells[y, x] == Dead
    }

    /** The number of live cells among `ps`, counted as `.filter(Cell::is_alive).count()` does. */
    function CountAlive(ps: seq<Coord>): (n: nat)
      reads cells
      requires Valid() && forall q | q in ps :: Contains(q)
      ensures n <= |ps|
      ensures AllDead() ==> n == 0
    {
      if ps == [] then 0
      else (if Index(ps[0]).IsAlive() then 1 else 0) + CountAlive(ps[1..])
    }

    /** The live cells of the grid adjacent to `pos`. */
    ghost function AliveAround(pos: Coord): set<Coord>
      reads cells
      requires Valid()
    {
      set x: nat, y: nat | x < W && y < H && Adjacent(pos, (x, y)) && cells[y, x] == Alive :: (x, y)
    }

    /**
     * The live-neighbour count `state_next` matches on: the in-grid
     * neighbours of `pos` that are alive.  Cells outside the grid never count.
     */
    function LiveNeighbors(pos: Coord): (n: nat)
      reads cells
      requires Valid() && Contains(pos)
      ensures n <= 8
      ensures (pos.0 == 0 || pos.0 + 1 == W) && (pos.1 == 0 || pos.1 + 1 == H) ==> n <= 3
      ensures AllDead() ==> n == 0
    {
      var ps := CoordNeighbors(pos, (W, H));
      assert forall q | q in ps :: Contains(q) by {
        forall q | q in ps ensures Contains(q) {
          assert InGrid(q, (W, H));
        }
      }
      CornerNeighbors(pos, (W, H));
      CountAlive(ps)
    }

    /** The live positions among `ps`. */
    ghost function AliveAmong(ps: seq<Coord>): set<Coord>
      reads cells
      requires Valid() && forall q | q in ps :: Contains(q)
    {
      set q | q in ps && Index(q) == Alive
    }

    /** Counting a list of distinct positions counts the set of its live positions. */
    lemma {:induction false} CountAliveIsSetSize(ps: seq<Coord>)
      requires Valid() && forall q | q in ps :: Contains(q)
      requires Distinct(ps)
      ensures CountAlive(ps) == |AliveAmong(ps)|
    {
      if ps != [] {
        var tail := ps[1..];
        assert Distinct(tail) by {
          forall j, k | 0 <= j < k < |tail| ensures tail[j] != tail[k] {
            assert tail[j] == ps[j + 1] && tail[k] == ps[k + 1];
          }
        }
        CountAliveIsSetSize(tail);
        var all, later := AliveAmong(ps), AliveAmong(tail);
        assert ps[0] !in tail by {
          forall k | 0 <= k < |tail| ensures tail[k] != ps[0] {
            assert tail[k] == ps[k + 1];
          }
        }
        assert ps == [ps[0]] + tail;
        assert ps[0] in ps;
        assert CountAlive(tail) == |later|;
        if Index(ps[0]) == Alive {
          assert all == {ps[0]} + later;
          assert ps[0] !in later;
          assert |all| == 1 + |later|;
          assert CountAlive(ps) == 1 + CountAlive(tail);
        } else {
          assert all == later;
          assert CountAlive(ps) == CountAlive(tail);
        }
        assert CountAlive(ps) == |all|;
      }
    }

    /** The live-neighbour count is the number of live cells adjacent to `pos` inside the grid. */
    lemma LiveNeighborsCountsAliveAround(pos: Coord)
      requires Valid() && Contains(pos)
      ensures LiveNeighbors(pos) == |AliveAround(pos)|
    {
      var ps := CoordNeighbors(pos, (W, H));
      CountAliveIsSetSize(ps);
      var listed := AliveAmong(ps);
      forall q: Coord
        ensures q in listed <==> q in AliveAround(pos)
      {
        CoordNeighborsExactly(pos, (W, H), q);
      }
      assert listed == AliveAround(pos);
    }

    /**
     * `state_next`: the cell at `pos` in the next generation, by the B3/S23
     * rule: a dead cell with exactly three live neighbours is born, a live
     * cell with two or three survives, every other cell is dead.
     */
    function StateNext(pos: Coord): (r: Cell)
      reads cells
      requires Valid() && Contains(pos)
      ensures var n := LiveNeighbors(pos);
              r == Alive <==> (Index(pos) == Dead && n == 3) || (Index(pos) == Alive && (n == 2 || n == 3))
    {
      match LiveNeighbors(pos)
      case 2 => Index(pos)
      case 3 => Alive
      case _ => Dead
    }

    /**
     * `step`: a new grid of the same size whose every cell is `StateNext` of
     * this grid, one generation later; this grid is left as it was.
     */
    method Step() returns (next: Grid)
      requires Valid()
      ensures fresh(next) && fresh(next.cells) && next.Valid()
      ensures next.W == W && next.H == H
      ensures next.generation == generation + 1
      ensures forall y, x | 0 <= y < H && 0 <= x < W :: next.cells[y, x] == StateNext((x, y))
      ensures AllDead() ==> next.AllDead()
    {
      var table := new Cell[H, W]((y: nat, x: nat) reads cells requires y < H && x < W => StateNext((x, y)));
      next := new Grid.Assemble(table, generation + 1);
    }

    /** `set` (and `IndexMut`): overwrite the cell at `pos`; nothing else changes. */
    method Set(pos: Coord, state: Cell)
      requires Valid() && Contains(pos)
      modifies cells
      ensures Index(pos) == state
      ensures forall y, x | 0 <= y < H && 0 <= x < W && (x, y) != pos :: cells[y, x] == old(cells[y, x])
      ensures generation == old(generation)
    {
      cells[pos.1, pos.0] := state;
    }

    /** `toggle`: negate the cell at `pos`; nothing else changes. */
    method Toggle(pos: Coord)
      requires Valid() && Contains(pos)
      modifies cells
      ensures Index(pos) == old(Index(pos)).Not()
      ensures forall y, x | 0 <= y < H && 0 <= x < W && (x, y) != pos :: cells[y, x] == old(cells[y, x])
      ensures generation == old(generation)
    {
      Set(pos, Index(pos).Not());
    }
  }

  /** `Grid::default`: the same grid as `Grid::new`. */
  method Default(w: nat, h: nat) returns (g: Grid)
    ensures fresh(g) && fresh(g.cells) && g.W == w && g.H == h && g.Valid()
    ensures g.AllDead() && g.generation == 0
  {
    g := new Grid(w, h);
  }

  /** Stepping an all-dead grid gives an all-dead grid: no cell has a live neighbour. */
  lemma DeadStaysDead(g: Grid, pos: Coord)
    requires g.Valid() && g.Contains(pos) && g.AllDead()
    ensures g.StateNext(pos) == Dead
  {
  }

  /** Toggling the same cell twice gives back the original grid. */
  method ToggleTwice(g: Grid, pos: Coord)
    requires g.Valid() && g.Contains(pos)
    modifies g.cells
    ensures forall y, x | 0 <= y < g.H && 0 <= x < g.W :: g.cells[y, x] == old(g.cells[y, x])
    ensures g.generation == old(g.generation)
  {
    g.Toggle(pos);
    g.Toggle(pos);
    NotInvolution(old(g.Index(pos)));
  }
}
