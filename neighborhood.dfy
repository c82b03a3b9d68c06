/**
 * Neighbourhood addressing (`moore_neighborhood_wrapping` in src/lib.rs): the eight
 * cells around a cell, clockwise from the top-left, on a grid whose edges wrap.
 */
module Neighborhood {

  /** A cell or a grid size: (column, row) or (width, height). */
  type Coord = (nat, nat)

  /**
   * The function as the source writes it. When both coordinates are nonzero it steps
   * back by one; otherwise (either coordinate zero) it uses the last column and the
   * last row as the "early" column and row, whichever coordinate was the zero one.
   */
  function MooreNeighborhoodWrapping(cell: Coord, size: Coord): (r: seq<Coord>)
    requires size.0 >= 1 && size.1 >= 1
    ensures |r| == 8
    ensures cell.0 < size.0 && cell.1 < size.1 ==>
      forall k :: 0 <= k < 8 ==> r[k].0 < size.0 && r[k].1 < size.1
  {
    var (x, y) := cell;
    var (w, h) := size;
    if x != 0 && y != 0 then
      [ (x - 1, y - 1), (x, y - 1), ((x + 1) % w, y - 1),
        ((x + 1) % w, y),
        ((x + 1) % w, (y + 1) % h), (x, (y + 1) % h), (x - 1, (y + 1) % h),
        (x - 1, y) ]
    else
      var earlyColumn := w - 1;
      var earlyRow := h - 1;
      [ (earlyColumn, earlyRow), (x, earlyRow), ((x + 1) % w, earlyRow),
        ((x + 1) % w, y),
        ((x + 1) % w, (y + 1) % h), (x, (y + 1) % h), (earlyColumn, (y + 1) % h),
        (earlyColumn, y) ]
  }

  /** Column and row offsets of the eight directions, clockwise from the top-left. */
  const Offsets: seq<(int, int)> :=
    [(-1, -1), (0, -1), (1, -1), (1, 0), (1, 1), (0, 1), (-1, 1), (-1, 0)]

  /** The toroidal Moore neighbourhood: every offset taken modulo the grid size. */
  function TorusNeighborhood(cell: Coord, size: Coord): (r: seq<Coord>)
    requires size.0 >= 1 && size.1 >= 1
    ensures |r| == 8
    ensures forall k :: 0 <= k < 8 ==> r[k].0 < size.0 && r[k].1 < size.1
  {
    seq(8, k requires 0 <= k < 8 =>
      (((cell.0 + Offsets[k].0) % size.0) as nat, ((cell.1 + Offsets[k].1) % size.1) as nat))
  }

  /** One step along an axis of length `n`, wrapping at both ends, for a coordinate inside it. */
  lemma WrapStep(v: nat, d: int, n: nat)
    requires v < n && -1 <= d <= 1
    ensures (v + d) % n == if v + d < 0 then n - 1 else if v + d >= n then 0 else v + d
  {
  }

  /**
   * On the cells where both coordinates are zero, or both nonzero, the source's result is
   * the true toroidal neighbourhood.
   */
  lemma AgreesWithTorus(cell: Coord, size: Coord)
    requires size.0 >= 1 && size.1 >= 1
    requires cell.0 < size.0 && cell.1 < size.1
    requires (cell.0 == 0) == (cell.1 == 0)
    ensures MooreNeighborhoodWrapping(cell, size) == TorusNeighborhood(cell, size)
  {
    var m, t := MooreNeighborhoodWrapping(cell, size), TorusNeighborhood(cell, size);
    forall k | 0 <= k < 8 ensures m[k] == t[k] {
      WrapStep(cell.0, Offsets[k].0, size.0);
      WrapStep(cell.1, Offsets[k].1, size.1);
    }
  }

  /**
   * On every other cell (exactly one coordinate zero) the source's result is not the
   * toroidal neighbourhood: with x == 0 the top neighbour is put on the last row, with
   * y == 0 the left neighbour on the last column.
   */
  lemma DiffersFromTorusOnEdges(cell: Coord, size: Coord)
    requires size.0 >= 1 && size.1 >= 1
    requires cell.0 < size.0 && cell.1 < size.1
    requires (cell.0 == 0) != (cell.1 == 0)
    ensures MooreNeighborhoodWrapping(cell, size) != TorusNeighborhood(cell, size)
  {
    var m, t := MooreNeighborhoodWrapping(cell, size), TorusNeighborhood(cell, size);
    if cell.0 == 0 {
      WrapStep(cell.1, -1, size.1);
      assert m[1].1 == size.1 - 1 && t[1].1 == cell.1 - 1;
    } else {
      WrapStep(cell.0, -1, size.0);
      assert m[7].0 == size.0 - 1 && t[7].0 == cell.0 - 1;
    }
  }

  /** The toroidal neighbourhood lists eight distinct cells once the grid is at least 3 by 3. */
  lemma TorusDistinct(cell: Coord, size: Coord, i: nat, j: nat)
    requires size.0 >= 3 && size.1 >= 3
    requires cell.0 < size.0 && cell.1 < size.1
    requires i < j < 8
    ensures TorusNeighborhood(cell, size)[i] != TorusNeighborhood(cell, size)[j]
  {
    WrapStep(cell.0, Offsets[i].0, size.0);
    WrapStep(cell.0, Offsets[j].0, size.0);
    WrapStep(cell.1, Offsets[i].1, size.1);
    WrapStep(cell.1, Offsets[j].1, size.1);
  }

  /** The source's tested neighbourhood of the centre of a 3 by 3 grid. */
  lemma CentreOfThreeByThree()
    ensures MooreNeighborhoodWrapping((1, 1), (3, 3))
         == [(0, 0), (1, 0), (2, 0), (2, 1), (2, 2), (1, 2), (0, 2), (0, 1)]
  {
  }

  /** The source's tested neighbourhood of the corner (0, 0) of a 3 by 3 grid. */
  lemma CornerOfThreeByThree()
    ensures MooreNeighborhoodWrapping((0, 0), (3, 3))
         == [(2, 2), (0, 2), (1, 2), (1, 0), (1, 1), (0, 1), (2, 1), (2, 0)]
  {
  }

  /**
   * Cell (0, 1) of a 3 by 3 grid: its three upper neighbours are put on row 2 instead
   * of row 0, and the list repeats cells, so the distinctness that holds for the torus
   * fails for the source's function.
   */
  lemma EdgeCellOfThreeByThree()
    ensures MooreNeighborhoodWrapping((0, 1), (3, 3))
         == [(2, 2), (0, 2), (1, 2), (1, 1), (1, 2), (0, 2), (2, 2), (2, 1)]
    ensures MooreNeighborhoodWrapping((0, 1), (3, 3))[2] == MooreNeighborhoodWrapping((0, 1), (3, 3))[4]
  {
  }
}
