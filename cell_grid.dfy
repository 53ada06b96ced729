// `CellGrid` of src/main.rs: a width x height grid of cells stored row-major in one
// vector that the automaton updates in place.

module Grid {
  import opened Cells
  import opened Automaton

  /** The grid size the application creates (`CellGrid::new(WIDTH, HEIGHT)`). */
  const WIDTH: nat := 600
  const HEIGHT: nat := 400

  /** The cell `CellGrid::new` puts at flat index `i` of a grid of `n` cells: Water strictly
      above the midpoint `n / 2` (integer division), Empty at and below it, all bytes zero. */
  function InitialCell(i: nat, n: nat): Cell
  {
    if i > n / 2 then Cell(Water, 0, 0, 0) else Cell(Empty, 0, 0, 0)
  }

  /** The whole initial fill of a grid of `n` cells. */
  function InitialCells(n: nat): (r: seq<Cell>)
    ensures |r| == n && forall i :: 0 <= i < n ==> r[i] == InitialCell(i, n)
  {
    seq(n, i requires 0 <= i < n => InitialCell(i, n))
  }

  /** The first `m` cells of a fill that is Water exactly above index `t` hold
      `max(0, m - 1 - t)` water cells and the rest Empty. */
  lemma {:induction false} ThresholdCounts(n: nat, m: nat)
    requires m <= n
    ensures SpeciesCount(InitialCells(n)[..m], Water) == if m <= n / 2 then 0 else m - 1 - n / 2
    ensures SpeciesCount(InitialCells(n)[..m], Empty) == if m <= n / 2 then m else n / 2 + 1
    decreases m
  {
    var s := InitialCells(n);
    if m > 0 {
      ThresholdCounts(n, m - 1);
      assert s[..m] == s[..m - 1] + [s[m - 1]];
      CountSnoc(s[..m - 1], s[m - 1], Water);
      CountSnoc(s[..m - 1], s[m - 1], Empty);
    } else {
      assert Kinds(s[..m]) == [];
    }
  }

  /** A new grid of `n > 0` cells holds `n - 1 - n / 2` Water cells and `n / 2 + 1` Empty ones,
      and nothing else. */
  lemma InitialCounts(n: nat)
    requires n > 0
    ensures SpeciesCount(InitialCells(n), Water) == n - 1 - n / 2
    ensures SpeciesCount(InitialCells(n), Empty) == n / 2 + 1
    ensures forall sp :: sp != Water && sp != Empty ==> SpeciesCount(InitialCells(n), sp) == 0
  {
    ThresholdCounts(n, n);
    assert InitialCells(n)[..n] == InitialCells(n);
  }

  /** The application's 600 x 400 grid starts with 119999 Water cells and 120001 Empty ones. */
  lemma AppGridCounts()
    ensures SpeciesCount(InitialCells(WIDTH * HEIGHT), Water) == 119999
    ensures SpeciesCount(InitialCells(WIDTH * HEIGHT), Empty) == 120001
  {
    InitialCounts(WIDTH * HEIGHT);
  }

  class CellGrid {
    const width: nat
    const height: nat
    /** The `cells: Vec<Cell>` of the source; its length never changes. */
    const cells: array<Cell>

    predicate Valid()
    {
      cells.Length == width * height
    }

    /** `CellGrid::new(width, height)`: pushes `width * height` cells in index order. */
    constructor (width: nat, height: nat)
      ensures Valid() && this.width == width && this.height == height
      ensures fresh(cells)
      ensures cells[..] == InitialCells(width * height)
    {
      var n := width * height;
      var a := new Cell[n];
      for i := 0 to n
        invariant forall k :: 0 <= k < i ==> a[k] == InitialCell(k, n)
      {
        if i > n / 2 {
          a[i] := Cell(Water, 0, 0, 0);
        } else {
          a[i] := Cell(Empty, 0, 0, 0);
        }
      }
      this.width := width;
      this.height := height;
      this.cells := a;
    }

    /** `get(x, y)`: None exactly when (x, y) is off the grid, else the cell at `y * width + x`. */
    function Get(x: nat, y: nat): (r: Option<Cell>)
      requires Valid()
      reads cells
      ensures r.None? <==> x >= width || y >= height
      ensures r.Some? ==> Index(width, x, y) < cells.Length && r.value == cells[Index(width, x, y)]
    {
      if x < width && y < height then
        IndexInGrid(width, height, x, y);
        Some(cells[Index(width, x, y)])
      else None
    }

    /** `get_mut(x, y)`: the same bounds test as `get`; the mutable reference it hands out
        is modelled as the flat index of the slot. */
    function GetMut(x: nat, y: nat): (r: Option<nat>)
      requires Valid()
      ensures r.None? <==> x >= width || y >= height
      ensures r.Some? ==> r.value < cells.Length && r.value == Index(width, x, y)
    {
      if x < width && y < height then
        IndexInGrid(width, height, x, y);
        Some(Index(width, x, y))
      else None
    }

    /** `swap_cells`: exchanges the cells at `y1 * width + x1` and `y2 * width + x2`.
        `Vec::swap` panics on an index past the end, so both must be in range. */
    method SwapCells(x1: nat, y1: nat, x2: nat, y2: nat)
      requires Valid()
      requires Index(width, x1, y1) < cells.Length && Index(width, x2, y2) < cells.Length
      modifies cells
      ensures cells[..] == SwapAt(old(cells[..]), Index(width, x1, y1), Index(width, x2, y2))
    {
      var idx1 := y1 * width + x1;
      var idx2 := y2 * width + x2;
      cells[idx1], cells[idx2] := cells[idx2], cells[idx1];
    }

    /** `update_sand(x, y)`. */
    method UpdateSand(x: nat, y: nat)
      requires Valid()
      requires SandFalls(cells[..], width, height, x, y) ==> y < height
      modifies cells
      ensures cells[..] == SandStep(old(cells[..]), width, height, x, y)
    {
      if y == 0 {
        return;
      }
      var below := Get(x, y - 1);
      if below.Some? {
        if below.value.species == Empty {
          IndexInGrid(width, height, x, y);
          SwapCells(x, y, x, y - 1);
        } else if below.value.species == Water {
          IndexInGrid(width, height, x, y);
          SwapCells(x, y, x, y - 1);
        }
      }
    }

    /** `update_water(x, y)`: probe the five directions in order and swap with the first
        on-grid Empty neighbour, then stop. */
    method UpdateWater(x: nat, y: nat)
      requires Valid()
      requires WaterTarget(cells[..], width, height, x, y).Some? ==> Index(width, x, y) < cells.Length
      modifies cells
      ensures cells[..] == WaterStep(old(cells[..]), width, height, x, y)
    {
      for d := 0 to |WaterDirections|
        invariant cells[..] == old(cells[..])
        invariant forall e :: 0 <= e < d ==> !OpenAt(cells[..], width, height, x, y, e)
      {
        var (dx, dy) := WaterDirections[d];
        var nx, ny := x + dx, y + dy;
        if nx >= 0 && ny >= 0 {
          var slot := GetMut(nx, ny);
          if slot.Some? && cells[slot.value].species == Empty {
            WaterTargetUnique(cells[..], width, height, x, y, d);
            SwapCells(x, y, nx, ny);
            return;
          }
        }
      }
    }

    /** `update_fire(x, y)`: on the grid, the clock is bumped and the cell is then reset to
        `Cell::default()` unconditionally (the burn-time threshold is commented out); off the
        grid nothing happens. The bump wraps as in a release build. */
    method UpdateFire(x: nat, y: nat)
      requires Valid()
      modifies cells
      ensures x < width && y < height ==>
        Index(width, x, y) < cells.Length &&
        cells[..] == old(cells[..])[Index(width, x, y) := DefaultCell]
      ensures x >= width || y >= height ==> cells[..] == old(cells[..])
    {
      var slot := GetMut(x, y);
      if slot.Some? {
        var i := slot.value;
        cells[i] := cells[i].(clock := (cells[i].clock + 1) % 256);
        cells[i] := DefaultCell;
      }
    }

    /** The body of the sweep for one position: dispatch on the species found there now. */
    method Visit(x: nat, y: nat)
      requires Valid() && x < width && y < height
      modifies cells
      ensures cells[..] == CellStep(old(cells[..]), width, height, x, y)
    {
      var slot := GetMut(x, y);
      if slot.Some? {
        match cells[slot.value].species
        case Sand => UpdateSand(x, y);
        case Water => UpdateWater(x, y);
        case Empty => UpdateSand(x, y);
        case _ =>
      }
    }

    /** `update_simulation`: visit every (x, y), y ascending and x ascending within a row.
        The result is the `Tick` of the old cells, which only rearranges them. */
    method UpdateSimulation()
      requires Valid()
      modifies cells
      ensures cells[..] == Tick(old(cells[..]), width, height)
      ensures Conserves(old(cells[..]), cells[..])
      ensures forall sp :: SpeciesCount(cells[..], sp) == SpeciesCount(old(cells[..]), sp)
    {
      ghost var start := cells[..];
      for y := 0 to height
        invariant cells[..] == Sweep(start, width, height, y)
      {
        ghost var rowStart := cells[..];
        for x := 0 to width
          invariant cells[..] == RowSweep(rowStart, width, height, y, x)
        {
          Visit(x, y);
        }
      }
      TickConserves(start, width, height);
    }
  }
}
