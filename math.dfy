/**
 * Positions and their neighbourhoods (src/math.rs).
 *
 * `SVec2` is the 1-based vector of the source: a position built by `New` or
 * `Svec2` has both components at least 1, and a grid of extents (w, h) holds
 * the positions [1, w] x [1, h].  `Coord` is the 0-based pair that the grid
 * indexes with; its neighbourhood uses the same eight slots in the same order
 * over [0, w) x [0, h).
 */
module Math {
  import opened Wrappers

  /** A component that `NonZeroUsize` guarantees to be non-zero. */
  type NonZero = n: nat | n != 0 witness 1

  /**
   * The eight compass directions, in the order the neighbours are yielded:
   * top-left, top, top-right, right, bottom-right, bottom, bottom-left, left.
   * `y` grows downwards, so "up" is `y - 1`.
   */
  function Offset(i: nat): (int, int)
    requires i < 8
  {
    match i
    case 0 => (-1, -1)
    case 1 => (0, -1)
    case 2 => (1, -1)
    case 3 => (1, 0)
    case 4 => (1, 1)
    case 5 => (0, 1)
    case 6 => (-1, 1)
    case 7 => (-1, 0)
  }

  /** A vector of two unsigned components. */
  datatype SVec2 = SVec2(x: nat, y: nat) {

    /** One step up; `self.y - 1` must not underflow. */
    function Up(): (r: SVec2)
      requires y >= 1
      ensures r.x == x && r.y + 1 == y
    {
      SVec2(x, y - 1)
    }

    /** One step down. */
    function Down(): (r: SVec2)
      ensures r.x == x && r.y == y + 1
    {
      SVec2(x, y + 1)
    }

    /** One step left; `self.x - 1` must not underflow. */
    function Left(): (r: SVec2)
      requires x >= 1
      ensures r.y == y && r.x + 1 == x
    {
      SVec2(x - 1, y)
    }

    /** One step right. */
    function Right(): (r: SVec2)
      ensures r.y == y && r.x == x + 1
    {
      SVec2(x + 1, y)
    }

    /**
     * `SVec2::neighbors`: each slot is present unless the position lies on
     * the edge that slot would cross (left edge `x == 1`, right edge
     * `x == extents.x`, top edge `y == 1`, bottom edge `y == extents.y`).
     * A position with a zero component would make the source underflow.
     */
    function Neighbors(extents: SVec2): (n: Neighbors)
      requires x >= 1 && y >= 1
      ensures forall i | 0 <= i < 8 && n.Slot(i).Some? ::
                n.Slot(i).value.x == x + Offset(i).0 && n.Slot(i).value.y == y + Offset(i).1
      ensures 1 < x < extents.x && 1 < y < extents.y ==> forall i | 0 <= i < 8 :: n.Slot(i).Some?
    {
      var atLeft, atRight, atTop, atBottom := x == 1, x == extents.x, y == 1, y == extents.y;
      Slots(
        if atTop || atLeft then None else Some(Up().Left()),
        if atTop then None else Some(Up()),
        if atTop || atRight then None else Some(Up().Right()),
        if atRight then None else Some(Right()),
        if atBottom || atRight then None else Some(Down().Right()),
        if atBottom then None else Some(Down()),
        if atBottom || atLeft then None else Some(Down().Left()),
        if atLeft then None else Some(Left()))
    }
  }

  /** `SVec2::new`: both components come from non-zero arguments. */
  function New(x: NonZero, y: NonZero): (r: SVec2)
    ensures r.x >= 1 && r.y >= 1
    ensures r.x == x && r.y == y
  {
    SVec2(x, y)
  }

  /** `svec2`: `None` stands for the panic on a zero argument. */
  function Svec2(x: nat, y: nat): (r: Option<SVec2>)
    ensures r.Some? <==> x != 0 && y != 0
    ensures r.Some? ==> r.value == New(x, y)
  {
    if x != 0 && y != 0 then Some(New(x, y)) else None
  }

  /** `SVec2::default()`, which is `svec2(1, 1)`. */
  function Default(): (r: SVec2)
    ensures Svec2(1, 1) == Some(r)
    ensures r.x == 1 && r.y == 1
  {
    Svec2(1, 1).value
  }

  /** The neighbours of one position, slot by slot. */
  datatype Neighbors = Slots(
    topLeft: Option<SVec2>,
    top: Option<SVec2>,
    topRight: Option<SVec2>,
    right: Option<SVec2>,
    bottomRight: Option<SVec2>,
    bottom: Option<SVec2>,
    bottomLeft: Option<SVec2>,
    left: Option<SVec2>)
  {
    /** `NeighborsIter::get_current`: slot `index` of the fixed order, `None` past the eighth. */
    function Slot(index: nat): (r: Option<SVec2>)
      ensures index >= 8 ==> r.None?
    {
      match index
      case 0 => topLeft
      case 1 => top
      case 2 => topRight
      case 3 => right
      case 4 => bottomRight
      case 5 => bottom
      case 6 => bottomLeft
      case 7 => left
      case _ => None
    }

    /** What an iterator standing at `index` still yields: the present slots from `index` on, in order. */
    function Rest(index: nat): (r: seq<SVec2>)
      decreases 8 - index
    {
      if index >= 8 then []
      else if Slot(index).Some? then [Slot(index).value] + Rest(index + 1)
      else Rest(index + 1)
    }
  }

  /** The indices of the present slots at or after `index`. */
  ghost function PresentFrom(n: Neighbors, index: nat): set<nat>
  {
    set i | index <= i < 8 && n.Slot(i).Some?
  }

  /** An iterator yields exactly one item per present slot. */
  lemma {:induction false} RestCountsPresentSlots(n: Neighbors, index: nat)
    requires index <= 8
    ensures |n.Rest(index)| == |PresentFrom(n, index)|
    decreases 8 - index
  {
    if index == 8 {
      assert PresentFrom(n, index) == {};
    } else {
      RestCountsPresentSlots(n, index + 1);
      if n.Slot(index).Some? {
        assert PresentFrom(n, index) == {index} + PresentFrom(n, index + 1);
      } else {
        assert PresentFrom(n, index) == PresentFrom(n, index + 1);
      }
    }
  }

  /** `NeighborsIter`: walks the eight slots once, skipping the absent ones. */
  class NeighborsIter {
    const neighbors: Neighbors
    var index: nat

    ghost predicate Valid()
      reads this
    {
      index <= 8
    }

    /** `Neighbors::into_iter`: an iterator at the first slot. */
    constructor (neighbors: Neighbors)
      ensures Valid() && this.neighbors == neighbors && index == 0
    {
      this.neighbors := neighbors;
      index := 0;
    }

    /**
     * `Iterator::next`: the first present slot from `index` on, with `index`
     * moved just past it; `None` once the eight slots are used up.
     */
    method Next() returns (r: Option<SVec2>)
      requires Valid()
      modifies this
      ensures Valid() && old(index) <= index
      ensures neighbors.Rest(old(index)) == if r.Some? then [r.value] + neighbors.Rest(index) else []
      ensures r.Some? ==> old(index) < index
      ensures r.None? ==> index == 8
      ensures r.Some? ==> index >= 1 && neighbors.Slot(index - 1) == r
      ensures r.Some? ==> forall j | old(index) <= j < index - 1 :: neighbors.Slot(j).None?
    {
      while index < 8
        invariant old(index) <= index <= 8
        invariant neighbors.Rest(old(index)) == neighbors.Rest(index)
        invariant forall j | old(index) <= j < index :: neighbors.Slot(j).None?
      {
        var current := neighbors.Slot(index);
        if current.Some? {
          index := index + 1;
          return current;
        }
        index := index + 1;
      }
      return None;
    }
  }

  /** Whether a position lies in the 1-based extents. */
  predicate InExtents(q: (int, int), extents: SVec2)
  {
    1 <= q.0 <= extents.x && 1 <= q.1 <= extents.y
  }

  /**
   * For a position inside the extents, slot `i` is present exactly when the
   * position moved in direction `i` is still inside, and then holds that position.
   */
  lemma SlotClipping(p: SVec2, extents: SVec2, i: nat)
    requires InExtents((p.x, p.y), extents) && i < 8
    ensures var q := (p.x + Offset(i).0, p.y + Offset(i).1);
            var slot := p.Neighbors(extents).Slot(i);
            && (slot.Some? <==> InExtents(q, extents))
            && (slot.Some? ==> slot.value.x == q.0 && slot.value.y == q.1)
  {
  }

  /** How many of the three columns (or rows) around `v` are inside [1, hi]. */
  function Span(v: nat, hi: nat): nat
  {
    (if v == 1 then 0 else 1) + 1 + (if v == hi then 0 else 1)
  }

  /** The number of neighbours is the product of the open columns and rows, less the position itself. */
  lemma NeighborCount(p: SVec2, extents: SVec2)
    requires p.x >= 1 && p.y >= 1
    ensures |p.Neighbors(extents).Rest(0)| == Span(p.x, extents.x) * Span(p.y, extents.y) - 1
  {
  }

  /** Corners have three neighbours, other edge positions five, interior positions eight. */
  lemma CornerEdgeInterior(p: SVec2, extents: SVec2)
    requires InExtents((p.x, p.y), extents) && extents.x >= 2 && extents.y >= 2
    ensures var count := |p.Neighbors(extents).Rest(0)|;
            var onX, onY := p.x == 1 || p.x == extents.x, p.y == 1 || p.y == extents.y;
            && (onX && onY ==> count == 3)
            && (onX != onY ==> count == 5)
            && (!onX && !onY ==> count == 8)
  {
    NeighborCount(p, extents);
  }

  /** The order pinned down for the middle of a 3 x 3 grid. */
  lemma MiddleOrder()
    ensures SVec2(2, 2).Neighbors(SVec2(3, 3)).Rest(0) ==
      [SVec2(1, 1), SVec2(2, 1), SVec2(3, 1), SVec2(3, 2), SVec2(3, 3), SVec2(2, 3), SVec2(1, 3), SVec2(1, 2)]
  {
  }

  /** The orders pinned down for the four corners of a 3 x 3 grid. */
  lemma CornerOrders()
    ensures SVec2(1, 1).Neighbors(SVec2(3, 3)).Rest(0) == [SVec2(2, 1), SVec2(2, 2), SVec2(1, 2)]
    ensures SVec2(3, 1).Neighbors(SVec2(3, 3)).Rest(0) == [SVec2(3, 2), SVec2(2, 2), SVec2(2, 1)]
    ensures SVec2(1, 3).Neighbors(SVec2(3, 3)).Rest(0) == [SVec2(1, 2), SVec2(2, 2), SVec2(2, 3)]
    ensures SVec2(3, 3).Neighbors(SVec2(3, 3)).Rest(0) == [SVec2(2, 2), SVec2(3, 2), SVec2(2, 3)]
  {
  }

  // ---------------------------------------------------------------------------
  // The 0-based coordinates the grid indexes with.

  /** A 0-based grid position `(x, y)`: column `x`, row `y`. */
  type Coord = (nat, nat)

  /** Whether `q` lies in [0, extents.0) x [0, extents.1). */
  predicate InGrid(q: (int, int), extents: Coord)
  {
    0 <= q.0 < extents.0 && 0 <= q.1 < extents.1
  }

  /** `q` is one of the eight positions around `c`. */
  predicate Adjacent(c: Coord, q: Coord)
  {
    q != c && -1 <= q.0 - c.0 <= 1 && -1 <= q.1 - c.1 <= 1
  }

  /** The slot (argument of `Offset`) that leads from `c` to `q`, or 8 when none does. */
  function SlotOf(c: Coord, q: Coord): (i: nat)
    ensures i <= 8
    ensures i < 8 ==> c.0 + Offset(i).0 == q.0 && c.1 + Offset(i).1 == q.1
    ensures i == 8 <==> !Adjacent(c, q)
  {
    var dx, dy := q.0 - c.0, q.1 - c.1;
    if dy == -1 then (if dx == -1 then 0 else if dx == 0 then 1 else if dx == 1 then 2 else 8)
    else if dy == 0 then (if dx == 1 then 3 else if dx == -1 then 7 else 8)
    else if dy == 1 then (if dx == 1 then 4 else if dx == 0 then 5 else if dx == -1 then 6 else 8)
    else 8
  }

  /** Moving from `c` in direction `i` and asking for the slot gives `i` back. */
  lemma SlotOfOffset(c: Coord, i: nat)
    requires i < 8 && c.0 + Offset(i).0 >= 0 && c.1 + Offset(i).1 >= 0
    ensures SlotOf(c, (c.0 + Offset(i).0, c.1 + Offset(i).1)) == i
  {
  }

  /** No position occurs twice. */
  predicate Distinct(s: seq<Coord>)
  {
    forall j, k | 0 <= j < k < |s| :: s[j] != s[k]
  }

  /** The in-grid positions around `c` in directions `i` to 7, in slot order. */
  function Clip(c: Coord, extents: Coord, i: nat): (r: seq<Coord>)
    ensures i <= 8 ==> |r| <= 8 - i
    ensures forall q | q in r :: InGrid(q, extents)
    decreases 8 - i
  {
    if i >= 8 then []
    else
      var q := (c.0 + Offset(i).0, c.1 + Offset(i).1);
      if InGrid(q, extents) then [(q.0, q.1)] + Clip(c, extents, i + 1)
      else Clip(c, extents, i + 1)
  }

  /** `Clip(c, extents, i)` holds each position of directions `i` to 7 at most once. */
  lemma {:induction false} ClipSound(c: Coord, extents: Coord, i: nat)
    ensures forall q | q in Clip(c, extents, i) :: i <= SlotOf(c, q) < 8
    ensures Distinct(Clip(c, extents, i))
    decreases 8 - i
  {
    if i < 8 {
      ClipSound(c, extents, i + 1);
      var h := (c.0 + Offset(i).0, c.1 + Offset(i).1);
      var rest := Clip(c, extents, i + 1);
      if InGrid(h, extents) {
        var v := (h.0 as nat, h.1 as nat);
        SlotOfOffset(c, i);
        assert Clip(c, extents, i) == [v] + rest;
        assert v !in rest;
      } else {
        assert Clip(c, extents, i) == rest;
      }
    }
  }

  /**
   * `Coord::neighbors` as the grid uses it: the 8-slot order of
   * `SVec2::neighbors`, clipped to [0, extents.0) x [0, extents.1).
   */
  function CoordNeighbors(c: Coord, extents: Coord): (r: seq<Coord>)
    ensures |r| <= 8 && Distinct(r)
    ensures forall q | q in r :: InGrid(q, extents) && Adjacent(c, q)
  {
    ClipSound(c, extents, 0);
    Clip(c, extents, 0)
  }

  /** The in-grid position `q` in direction `j` from `c` is among `Clip(c, extents, i)` when `i <= j`. */
  lemma {:induction false} ClipComplete(c: Coord, extents: Coord, i: nat, j: nat, q: Coord)
    requires i <= j < 8 && q.0 == c.0 + Offset(j).0 && q.1 == c.1 + Offset(j).1
    requires InGrid(q, extents)
    ensures q in Clip(c, extents, i)
    decreases 8 - i
  {
    var h := (c.0 + Offset(i).0, c.1 + Offset(i).1);
    var rest := Clip(c, extents, i + 1);
    if j == i {
      assert Clip(c, extents, i) == [q] + rest;
    } else {
      ClipComplete(c, extents, i + 1, j, q);
      if InGrid(h, extents) {
        assert Clip(c, extents, i) == [(h.0, h.1)] + rest;
      } else {
        assert Clip(c, extents, i) == rest;
      }
    }
  }

  /** The neighbours are exactly the in-grid positions adjacent to `c`. */
  lemma CoordNeighborsExactly(c: Coord, extents: Coord, q: Coord)
    ensures q in CoordNeighbors(c, extents) <==> InGrid(q, extents) && Adjacent(c, q)
  {
    if InGrid(q, extents) && Adjacent(c, q) {
      ClipComplete(c, extents, 0, SlotOf(c, q), q);
    }
  }

  /** The 1-based vector one step right and down of a 0-based coordinate. */
  function ToSVec2(q: Coord): (v: SVec2)
    ensures v.x >= 1 && v.y >= 1
  {
    SVec2(q.0 + 1, q.1 + 1)
  }

  function ToSVec2s(s: seq<Coord>): (r: seq<SVec2>)
    ensures |r| == |s|
  {
    if s == [] then [] else [ToSVec2(s[0])] + ToSVec2s(s[1..])
  }

  /** Slot `i` of `n` holds, shifted by one, exactly the in-grid position in direction `i` from `c`. */
  ghost predicate SlotMatches(n: Neighbors, c: Coord, extents: Coord, i: nat)
    requires i < 8
  {
    var h := (c.0 + Offset(i).0, c.1 + Offset(i).1);
    && (n.Slot(i).Some? <==> InGrid(h, extents))
    && (n.Slot(i).Some? ==> n.Slot(i).value == ToSVec2((h.0, h.1)))
  }

  /** When slots `i` to 7 match, the rest of the iteration is the clipping shifted by one. */
  lemma {:induction false} ClipShift(n: Neighbors, c: Coord, extents: Coord, i: nat)
    requires i <= 8
    requires forall j | i <= j < 8 :: SlotMatches(n, c, extents, j)
    ensures ToSVec2s(Clip(c, extents, i)) == n.Rest(i)
    decreases 8 - i
  {
    if i < 8 {
      ClipShift(n, c, extents, i + 1);
      assert SlotMatches(n, c, extents, i);
      var h := (c.0 + Offset(i).0, c.1 + Offset(i).1);
      var rest := Clip(c, extents, i + 1);
      if InGrid(h, extents) {
        var v := (h.0 as nat, h.1 as nat);
        calc {
          ToSVec2s(Clip(c, extents, i));
          { assert Clip(c, extents, i) == [v] + rest; }
          ToSVec2s([v] + rest);
          { assert ([v] + rest)[1..] == rest; }
          [ToSVec2(v)] + ToSVec2s(rest);
          [n.Slot(i).value] + n.Rest(i + 1);
        }
      } else {
        assert Clip(c, extents, i) == rest;
      }
    }
  }

  /** `CoordNeighbors` is `SVec2::neighbors` of the shifted position, shifted back. */
  lemma CoordNeighborsShifted(c: Coord, extents: Coord)
    requires InGrid(c, extents)
    ensures ToSVec2s(CoordNeighbors(c, extents)) == ToSVec2(c).Neighbors(SVec2(extents.0, extents.1)).Rest(0)
  {
    var n := ToSVec2(c).Neighbors(SVec2(extents.0, extents.1));
    forall j | 0 <= j < 8
      ensures SlotMatches(n, c, extents, j)
    {
      SlotClipping(ToSVec2(c), SVec2(extents.0, extents.1), j);
    }
    ClipShift(n, c, extents, 0);
  }

  /** A position on a column edge and a row edge (a corner) has at most three neighbours. */
  lemma CornerNeighbors(c: Coord, extents: Coord)
    requires InGrid(c, extents)
    ensures (c.0 == 0 || c.0 + 1 == extents.0) && (c.1 == 0 || c.1 + 1 == extents.1) ==>
              |CoordNeighbors(c, extents)| <= 3
  {
    var p, e := ToSVec2(c), SVec2(extents.0, extents.1);
    CoordNeighborsShifted(c, extents);
    NeighborCount(p, e);
  }
}
