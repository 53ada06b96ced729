// The falling-sand rules of src/main.rs stated on the row-major cell sequence: what
// `swap_cells`, `update_sand`, `update_water` and the `update_simulation` sweep compute.
// The class in cell_grid.dfy runs these rules in place on an array; its methods are
// proved to produce exactly the sequences defined here.

module Automaton {
  import opened Cells

  /** Flat index of (x, y) in a row-major grid `w` cells wide: `y * width + x`. */
  function Index(w: nat, x: nat, y: nat): nat
  {
    y * w + x
  }

  lemma IndexInGrid(w: nat, h: nat, x: nat, y: nat)
    requires x < w && y < h
    ensures Index(w, x, y) < w * h
  {
    var k: nat := h - 1 - y;
    assert h * w == y * w + w + k * w;
  }

  /** `Vec::swap(i, j)`: the two slots trade contents and nothing else moves. */
  function SwapAt<T>(s: seq<T>, i: nat, j: nat): (r: seq<T>)
    requires i < |s| && j < |s|
    ensures |r| == |s|
    ensures r[i] == s[j] && r[j] == s[i]
    ensures forall k :: 0 <= k < |s| && k != i && k != j ==> r[k] == s[k]
    ensures multiset(r) == multiset(s)
  {
    s[i := s[j]][j := s[i]]
  }

  /** Swapping the same two slots again restores the sequence; equal slots are a no-op. */
  lemma SwapAtInvolution<T>(s: seq<T>, i: nat, j: nat)
    requires i < |s| && j < |s|
    ensures SwapAt(SwapAt(s, i, j), i, j) == s
    ensures i == j ==> SwapAt(s, i, j) == s
  {
    var r := SwapAt(SwapAt(s, i, j), i, j);
    assert forall k | 0 <= k < |s| :: r[k] == s[k];
  }

  /** The species column of a cell sequence; its multiset counts the cells of each species. */
  function Kinds(s: seq<Cell>): (r: seq<Species>)
    ensures |r| == |s| && forall i :: 0 <= i < |s| ==> r[i] == s[i].species
  {
    seq(|s|, i requires 0 <= i < |s| => s[i].species)
  }

  /** How many cells of species `sp` the sequence holds. */
  function SpeciesCount(s: seq<Cell>, sp: Species): nat
  {
    multiset(Kinds(s))[sp]
  }

  lemma KindsAppend(a: seq<Cell>, b: seq<Cell>)
    ensures Kinds(a + b) == Kinds(a) + Kinds(b)
  {
  }

  /** Appending one cell adds one to the count of its species and leaves the others alone. */
  lemma CountSnoc(s: seq<Cell>, c: Cell, sp: Species)
    ensures SpeciesCount(s + [c], sp) == SpeciesCount(s, sp) + if c.species == sp then 1 else 0
  {
    KindsAppend(s, [c]);
    assert Kinds([c]) == [c.species];
  }

  /** Taking the cell at `j` out of `r` takes one copy of it out of the multiset. */
  lemma RemoveAt(r: seq<Cell>, j: nat)
    requires j < |r|
    ensures multiset(r) == multiset(r[..j] + r[j + 1..]) + multiset{r[j]}
  {
    assert r == r[..j] + [r[j]] + r[j + 1..];
  }

  /** ... and one copy of its species out of the multiset of species. */
  lemma KindsRemoveAt(r: seq<Cell>, j: nat)
    requires j < |r|
    ensures multiset(Kinds(r)) == multiset(Kinds(r[..j] + r[j + 1..])) + multiset{r[j].species}
  {
    assert r == r[..j] + [r[j]] + r[j + 1..];
    KindsAppend(r[..j] + [r[j]], r[j + 1..]);
    KindsAppend(r[..j], [r[j]]);
    KindsAppend(r[..j], r[j + 1..]);
  }

  lemma MultisetCancel<T>(a: multiset<T>, b: multiset<T>, c: T)
    requires a + multiset{c} == b + multiset{c}
    ensures a == b
  {
    forall x ensures a[x] == b[x] {
      assert (a + multiset{c})[x] == (b + multiset{c})[x];
    }
  }

  /** A position holding `c`, which must occur in `r`. */
  function IndexOf(r: seq<Cell>, c: Cell): (j: nat)
    requires c in multiset(r)
    ensures j < |r| && r[j] == c
    decreases |r|
  {
    if r[0] == c then 0
    else
      assert r == [r[0]] + r[1..];
      1 + IndexOf(r[1..], c)
  }

  /** Taking the same cell out of two rearrangements of each other leaves two rearrangements. */
  lemma RemoveMatching(s: seq<Cell>, r: seq<Cell>, j: nat)
    requires multiset(s) == multiset(r) && 0 < |s| && j < |r| && r[j] == s[0]
    ensures multiset(s[..0] + s[1..]) == multiset(r[..j] + r[j + 1..])
  {
    RemoveAt(s, 0);
    RemoveAt(r, j);
    MultisetCancel(multiset(s[..0] + s[1..]), multiset(r[..j] + r[j + 1..]), s[0]);
  }

  /** Rearranging cells rearranges their species: equal multisets of cells give equal
      multisets of species. */
  lemma {:induction false} KindsPermutation(s: seq<Cell>, r: seq<Cell>)
    requires multiset(s) == multiset(r)
    ensures multiset(Kinds(s)) == multiset(Kinds(r))
    decreases |s|
  {
    if |s| == 0 {
      assert |r| == |multiset(r)| == 0;
      assert Kinds(s) == Kinds(r) == [];
    } else {
      var j := IndexOf(r, s[0]);
      var tail, rest := s[..0] + s[1..], r[..j] + r[j + 1..];
      RemoveMatching(s, r, j);
      KindsPermutation(tail, rest);
      KindsRemoveAt(s, 0);
      KindsRemoveAt(r, j);
    }
  }

  // ---------------------------------------------------------------- update_sand

  /** `update_sand(x, y)` swaps when (x, y) is not on the bottom row and the cell below it
      is on the grid and is Empty or Water. */
  predicate SandFalls(s: seq<Cell>, w: nat, h: nat, x: nat, y: nat)
    requires |s| == w * h
  {
    y > 0 && x < w && y - 1 < h &&
    (IndexInGrid(w, h, x, y - 1);
     s[Index(w, x, y - 1)].species == Empty || s[Index(w, x, y - 1)].species == Water)
  }

  /** The cells after `update_sand(x, y)`. The source panics inside `swap_cells` when the
      cell itself lies past the end of the vector, so a swap requires its index in range. */
  function SandStep(s: seq<Cell>, w: nat, h: nat, x: nat, y: nat): (r: seq<Cell>)
    requires |s| == w * h
    requires SandFalls(s, w, h, x, y) ==> y < h
    ensures |r| == |s|
  {
    if SandFalls(s, w, h, x, y) then
      IndexInGrid(w, h, x, y);
      IndexInGrid(w, h, x, y - 1);
      SwapAt(s, Index(w, x, y), Index(w, x, y - 1))
    else s
  }

  /** On the bottom row `update_sand` is a no-op. Elsewhere the cell at (x, y) trades places
      with the cell below exactly when that one is Empty or Water, and no other cell changes. */
  lemma SandStepEffect(s: seq<Cell>, w: nat, h: nat, x: nat, y: nat)
    requires |s| == w * h && x < w && y < h
    ensures y == 0 ==> SandStep(s, w, h, x, y) == s
    ensures y > 0 ==> Index(w, x, y - 1) < |s| && Index(w, x, y) < |s|
    ensures y > 0 && (s[Index(w, x, y - 1)].species == Empty || s[Index(w, x, y - 1)].species == Water) ==>
      var r := SandStep(s, w, h, x, y);
      r[Index(w, x, y - 1)] == s[Index(w, x, y)] && r[Index(w, x, y)] == s[Index(w, x, y - 1)] &&
      forall k :: 0 <= k < |s| && k != Index(w, x, y) && k != Index(w, x, y - 1) ==> r[k] == s[k]
    ensures y > 0 && s[Index(w, x, y - 1)].species != Empty && s[Index(w, x, y - 1)].species != Water ==>
      SandStep(s, w, h, x, y) == s
  {
    IndexInGrid(w, h, x, y);
    if y > 0 {
      IndexInGrid(w, h, x, y - 1);
    }
  }

  // ---------------------------------------------------------------- update_water

  /** The five probe directions of `update_water`, in priority order:
      down, down-left, down-right, left, right (y grows upwards, so down is y - 1). */
  const WaterDirections: seq<(int, int)> := [(0, -1), (-1, -1), (1, -1), (-1, 0), (1, 0)]

  /** The neighbour of (x, y) in direction `d`, when both its coordinates are non-negative
      and it lies on the grid (the `nx >= 0 && ny >= 0` test and then `get_mut`). */
  function Neighbour(w: nat, h: nat, x: nat, y: nat, d: nat): (r: Option<(nat, nat)>)
    requires d < |WaterDirections|
    ensures r.Some? ==> r.value.0 < w && r.value.1 < h
    ensures r.Some? ==> r.value.0 == x + WaterDirections[d].0 && r.value.1 == y + WaterDirections[d].1
    ensures r.None? ==> var nx, ny := x + WaterDirections[d].0, y + WaterDirections[d].1;
      nx < 0 || ny < 0 || nx >= w || ny >= h
  {
    var nx := x + WaterDirections[d].0;
    var ny := y + WaterDirections[d].1;
    if 0 <= nx < w && 0 <= ny < h then Some((nx, ny)) else None
  }

  /** Direction `d` leads to an on-grid Empty cell. */
  predicate OpenAt(s: seq<Cell>, w: nat, h: nat, x: nat, y: nat, d: nat)
    requires |s| == w * h && d < |WaterDirections|
  {
    var n := Neighbour(w, h, x, y, d);
    n.Some? &&
    (IndexInGrid(w, h, n.value.0, n.value.1);
     s[Index(w, n.value.0, n.value.1)].species == Empty)
  }

  /** The first direction at or after `d` that is open. */
  function FirstOpenFrom(s: seq<Cell>, w: nat, h: nat, x: nat, y: nat, d: nat): (r: Option<nat>)
    requires |s| == w * h && d <= |WaterDirections|
    ensures r.Some? ==> d <= r.value < |WaterDirections| && OpenAt(s, w, h, x, y, r.value)
    ensures r.Some? ==> forall e :: d <= e < r.value ==> !OpenAt(s, w, h, x, y, e)
    ensures r.None? ==> forall e :: d <= e < |WaterDirections| ==> !OpenAt(s, w, h, x, y, e)
    decreases |WaterDirections| - d
  {
    if d == |WaterDirections| then None
    else if OpenAt(s, w, h, x, y, d) then Some(d)
    else FirstOpenFrom(s, w, h, x, y, d + 1)
  }

  /** The direction `update_water(x, y)` moves in, if any. */
  function WaterTarget(s: seq<Cell>, w: nat, h: nat, x: nat, y: nat): Option<nat>
    requires |s| == w * h
  {
    FirstOpenFrom(s, w, h, x, y, 0)
  }

  /** The target is determined by "open, and nothing before it is open". */
  lemma WaterTargetUnique(s: seq<Cell>, w: nat, h: nat, x: nat, y: nat, d: nat)
    requires |s| == w * h && d < |WaterDirections|
    requires OpenAt(s, w, h, x, y, d)
    requires forall e :: 0 <= e < d ==> !OpenAt(s, w, h, x, y, e)
    ensures WaterTarget(s, w, h, x, y) == Some(d)
  {
  }

  /** The cells after `update_water(x, y)`: one swap with the target, or nothing. As with
      sand, a swap needs the cell's own index in range or `swap_cells` panics. */
  function WaterStep(s: seq<Cell>, w: nat, h: nat, x: nat, y: nat): (r: seq<Cell>)
    requires |s| == w * h
    requires WaterTarget(s, w, h, x, y).Some? ==> Index(w, x, y) < |s|
    ensures |r| == |s|
  {
    match WaterTarget(s, w, h, x, y)
    case None => s
    case Some(d) =>
      var n := Neighbour(w, h, x, y, d).value;
      IndexInGrid(w, h, n.0, n.1);
      SwapAt(s, Index(w, x, y), Index(w, n.0, n.1))
  }

  /** `update_water` on an on-grid cell: with no open neighbour nothing changes; otherwise
      the cell trades places with the first open neighbour in priority order, and every
      other cell is unchanged, so it makes at most one swap. */
  lemma WaterStepEffect(s: seq<Cell>, w: nat, h: nat, x: nat, y: nat)
    requires |s| == w * h && x < w && y < h
    ensures Index(w, x, y) < |s|
    ensures (forall d :: 0 <= d < |WaterDirections| ==> !OpenAt(s, w, h, x, y, d)) ==>
      WaterStep(s, w, h, x, y) == s
    ensures forall d :: 0 <= d < |WaterDirections| && OpenAt(s, w, h, x, y, d) &&
                        (forall e :: 0 <= e < d ==> !OpenAt(s, w, h, x, y, e)) ==>
      var n := Neighbour(w, h, x, y, d).value;
      var i, j := Index(w, x, y), Index(w, n.0, n.1);
      var r := WaterStep(s, w, h, x, y);
      j < |s| && r[j] == s[i] && r[i] == s[j] && r[i].species == Empty &&
      forall k :: 0 <= k < |s| && k != i && k != j ==> r[k] == s[k]
  {
    IndexInGrid(w, h, x, y);
    forall d | 0 <= d < |WaterDirections| && OpenAt(s, w, h, x, y, d) &&
               (forall e :: 0 <= e < d ==> !OpenAt(s, w, h, x, y, e))
      ensures var n := Neighbour(w, h, x, y, d).value;
        var i, j := Index(w, x, y), Index(w, n.0, n.1);
        var r := WaterStep(s, w, h, x, y);
        j < |s| && r[j] == s[i] && r[i] == s[j] && r[i].species == Empty &&
        forall k :: 0 <= k < |s| && k != i && k != j ==> r[k] == s[k]
    {
      WaterTargetUnique(s, w, h, x, y, d);
      var n := Neighbour(w, h, x, y, d).value;
      IndexInGrid(w, h, n.0, n.1);
    }
  }

  // ---------------------------------------------------------------- update_simulation

  /** One visit of the sweep: dispatch on the species the cell has at the moment it is
      visited. Sand and Empty go to `update_sand`, Water to `update_water`, every other
      species (Fire included) to the empty arm. */
  function CellStep(s: seq<Cell>, w: nat, h: nat, x: nat, y: nat): (r: seq<Cell>)
    requires |s| == w * h && x < w && y < h
    ensures |r| == |s|
  {
    IndexInGrid(w, h, x, y);
    var sp := s[Index(w, x, y)].species;
    if sp == Sand || sp == Empty then SandStep(s, w, h, x, y)
    else if sp == Water then WaterStep(s, w, h, x, y)
    else s
  }

  /** The cells after the sweep has visited (0, y) .. (x - 1, y) of row `y`, starting from `s`. */
  function RowSweep(s: seq<Cell>, w: nat, h: nat, y: nat, x: nat): (r: seq<Cell>)
    requires |s| == w * h && y < h && x <= w
    ensures |r| == |s|
    decreases x
  {
    if x == 0 then s else CellStep(RowSweep(s, w, h, y, x - 1), w, h, x - 1, y)
  }

  /** The cells after the sweep has finished rows 0 .. y - 1, y ascending. */
  function Sweep(s: seq<Cell>, w: nat, h: nat, y: nat): (r: seq<Cell>)
    requires |s| == w * h && y <= h
    ensures |r| == |s|
    decreases y
  {
    if y == 0 then s else RowSweep(Sweep(s, w, h, y - 1), w, h, y - 1, w)
  }

  /** One full `update_simulation`. */
  function Tick(s: seq<Cell>, w: nat, h: nat): (r: seq<Cell>)
    requires |s| == w * h
    ensures |r| == |s|
  {
    Sweep(s, w, h, h)
  }

  /** `r` is `s` rearranged: the same multiset of cells, and every cell whose species is not
      Sand, Water or Empty is still where it was. */
  predicate Conserves(s: seq<Cell>, r: seq<Cell>)
  {
    |r| == |s| &&
    multiset(r) == multiset(s) &&
    forall i :: 0 <= i < |s| && !Mobile(s[i].species) ==> r[i] == s[i]
  }

  lemma ConservesTrans(a: seq<Cell>, b: seq<Cell>, c: seq<Cell>)
    requires Conserves(a, b) && Conserves(b, c)
    ensures Conserves(a, c)
  {
  }

  /** A swap of two cells both of which are Sand, Water or Empty conserves the grid. */
  lemma SwapConserves(s: seq<Cell>, i: nat, j: nat)
    requires i < |s| && j < |s|
    requires Mobile(s[i].species) && Mobile(s[j].species)
    ensures Conserves(s, SwapAt(s, i, j))
  {
  }

  /** Each visit only swaps two cells drawn from Sand, Water and Empty. */
  lemma {:induction false} CellStepConserves(s: seq<Cell>, w: nat, h: nat, x: nat, y: nat)
    requires |s| == w * h && x < w && y < h
    ensures Conserves(s, CellStep(s, w, h, x, y))
  {
    IndexInGrid(w, h, x, y);
    var i := Index(w, x, y);
    var sp := s[i].species;
    if sp == Sand || sp == Empty {
      if SandFalls(s, w, h, x, y) {
        IndexInGrid(w, h, x, y - 1);
        SwapConserves(s, i, Index(w, x, y - 1));
      }
    } else if sp == Water {
      var t := WaterTarget(s, w, h, x, y);
      if t.Some? {
        var n := Neighbour(w, h, x, y, t.value).value;
        IndexInGrid(w, h, n.0, n.1);
        SwapConserves(s, i, Index(w, n.0, n.1));
      }
    }
  }

  lemma RowSweepUnfold(s: seq<Cell>, w: nat, h: nat, y: nat, x: nat)
    requires |s| == w * h && y < h && 0 < x <= w
    ensures RowSweep(s, w, h, y, x) == CellStep(RowSweep(s, w, h, y, x - 1), w, h, x - 1, y)
  {
  }

  lemma ConservesSame(a: seq<Cell>, b: seq<Cell>, c: seq<Cell>)
    requires Conserves(a, b) && b == c
    ensures Conserves(a, c)
  {
  }

  /** Visiting position (x - 1, y) takes the row state before it to the one after it. */
  lemma RowSweepStepConserves(s: seq<Cell>, w: nat, h: nat, y: nat, x: nat)
    requires |s| == w * h && y < h && 0 < x <= w
    ensures Conserves(RowSweep(s, w, h, y, x - 1), RowSweep(s, w, h, y, x))
  {
    var prev := RowSweep(s, w, h, y, x - 1);
    CellStepConserves(prev, w, h, x - 1, y);
    RowSweepUnfold(s, w, h, y, x);
    ConservesSame(prev, CellStep(prev, w, h, x - 1, y), RowSweep(s, w, h, y, x));
  }

  lemma {:induction false} RowSweepConserves(s: seq<Cell>, w: nat, h: nat, y: nat, x: nat)
    requires |s| == w * h && y < h && x <= w
    ensures Conserves(s, RowSweep(s, w, h, y, x))
    decreases x
  {
    if x > 0 {
      RowSweepConserves(s, w, h, y, x - 1);
      RowSweepStepConserves(s, w, h, y, x);
      ConservesTrans(s, RowSweep(s, w, h, y, x - 1), RowSweep(s, w, h, y, x));
    }
  }

  lemma {:induction false} SweepConserves(s: seq<Cell>, w: nat, h: nat, y: nat)
    requires |s| == w * h && y <= h
    ensures Conserves(s, Sweep(s, w, h, y))
    decreases y
  {
    if y > 0 {
      var prev := Sweep(s, w, h, y - 1);
      var cur := RowSweep(prev, w, h, y - 1, w);
      assert Sweep(s, w, h, y) == cur;
      SweepConserves(s, w, h, y - 1);
      RowSweepConserves(prev, w, h, y - 1, w);
      ConservesTrans(s, prev, cur);
    }
  }

  /** `update_simulation` only permutes the grid: the same multiset of cells, the same count
      of each species, and no cell of a species other than Sand, Water or Empty moves. */
  lemma TickConserves(s: seq<Cell>, w: nat, h: nat)
    requires |s| == w * h
    ensures Conserves(s, Tick(s, w, h))
    ensures forall sp :: SpeciesCount(Tick(s, w, h), sp) == SpeciesCount(s, sp)
  {
    SweepConserves(s, w, h, h);
    KindsPermutation(s, Tick(s, w, h));
  }

  // ---------------------------------------------------------------- sand over a whole tick

  /** Sand sinks into a cell exactly when the cell is Empty or Water. */
  predicate Passable(c: Cell)
  {
    c.species == Empty || c.species == Water
  }

  /** Distinct on-grid positions have distinct flat indices. */
  lemma IndexInjective(w: nat, x1: nat, y1: nat, x2: nat, y2: nat)
    requires x1 < w && x2 < w
    ensures Index(w, x1, y1) == Index(w, x2, y2) ==> x1 == x2 && y1 == y2
  {
    if y1 < y2 {
      var k: nat := y2 - y1 - 1;
      assert y2 * w == y1 * w + w + k * w;
    } else if y2 < y1 {
      var k: nat := y1 - y2 - 1;
      assert y1 * w == y2 * w + w + k * w;
    }
  }

  /** A visit moves a Sand cell only when it visits that very cell, and not even then on
      row 0: the partner of a swap is always Empty or Water. */
  lemma VisitKeepsSand(t: seq<Cell>, w: nat, h: nat, qx: nat, qy: nat, kx: nat, ky: nat)
    requires |t| == w * h && qx < w && qy < h && kx < w && ky < h
    requires (IndexInGrid(w, h, kx, ky); t[Index(w, kx, ky)].species == Sand)
    requires (qx, qy) != (kx, ky) || ky == 0
    ensures (IndexInGrid(w, h, kx, ky);
             CellStep(t, w, h, qx, qy)[Index(w, kx, ky)] == t[Index(w, kx, ky)])
  {
    IndexInGrid(w, h, kx, ky);
    IndexInGrid(w, h, qx, qy);
    IndexInjective(w, qx, qy, kx, ky);
    var sp := t[Index(w, qx, qy)].species;
    if sp == Sand || sp == Empty {
      SandStepEffect(t, w, h, qx, qy);
    } else if sp == Water {
      WaterStepEffect(t, w, h, qx, qy);
      var target := WaterTarget(t, w, h, qx, qy);
      if target.Some? {
        var n := Neighbour(w, h, qx, qy, target.value).value;
        IndexInGrid(w, h, n.0, n.1);
      }
    }
  }

  /** A visit leaves an Empty or Water cell Empty or Water, unless it visits the cell
      directly above it (whose sand may sink into it). */
  lemma VisitKeepsPassable(t: seq<Cell>, w: nat, h: nat, qx: nat, qy: nat, kx: nat, ky: nat)
    requires |t| == w * h && qx < w && qy < h && kx < w && ky < h
    requires (IndexInGrid(w, h, kx, ky); Passable(t[Index(w, kx, ky)]))
    requires (qx, qy) != (kx, ky + 1)
    ensures (IndexInGrid(w, h, kx, ky); Passable(CellStep(t, w, h, qx, qy)[Index(w, kx, ky)]))
  {
    IndexInGrid(w, h, kx, ky);
    IndexInGrid(w, h, qx, qy);
    var sp := t[Index(w, qx, qy)].species;
    if sp == Sand || sp == Empty {
      SandStepEffect(t, w, h, qx, qy);
      if qy > 0 {
        IndexInjective(w, qx, qy - 1, kx, ky);
      }
    } else if sp == Water {
      WaterStepEffect(t, w, h, qx, qy);
      var target := WaterTarget(t, w, h, qx, qy);
      if target.Some? {
        var n := Neighbour(w, h, qx, qy, target.value).value;
        IndexInGrid(w, h, n.0, n.1);
      }
    }
  }

  lemma RowStepKeepsSand(t: seq<Cell>, w: nat, h: nat, y: nat, b: nat, kx: nat, ky: nat)
    requires |t| == w * h && y < h && 0 < b <= w && kx < w && ky < h
    requires (IndexInGrid(w, h, kx, ky); RowSweep(t, w, h, y, b - 1)[Index(w, kx, ky)].species == Sand)
    requires (b - 1, y) != (kx, ky) || ky == 0
    ensures (IndexInGrid(w, h, kx, ky);
             RowSweep(t, w, h, y, b)[Index(w, kx, ky)] == RowSweep(t, w, h, y, b - 1)[Index(w, kx, ky)])
  {
    var prev := RowSweep(t, w, h, y, b - 1);
    VisitKeepsSand(prev, w, h, b - 1, y, kx, ky);
    RowSweepUnfold(t, w, h, y, b);
  }

  lemma RowStepKeepsPassable(t: seq<Cell>, w: nat, h: nat, y: nat, b: nat, kx: nat, ky: nat)
    requires |t| == w * h && y < h && 0 < b <= w && kx < w && ky < h
    requires (IndexInGrid(w, h, kx, ky); Passable(RowSweep(t, w, h, y, b - 1)[Index(w, kx, ky)]))
    requires (b - 1, y) != (kx, ky + 1)
    ensures (IndexInGrid(w, h, kx, ky); Passable(RowSweep(t, w, h, y, b)[Index(w, kx, ky)]))
  {
    var prev := RowSweep(t, w, h, y, b - 1);
    VisitKeepsPassable(prev, w, h, b - 1, y, kx, ky);
    RowSweepUnfold(t, w, h, y, b);
  }

  /** The visits a .. b - 1 of row `y` leave a Sand cell in place unless one of them visits
      it off row 0. */
  lemma {:induction false} RowKeepsSand(t: seq<Cell>, w: nat, h: nat, y: nat, a: nat, b: nat, kx: nat, ky: nat)
    requires |t| == w * h && y < h && a <= b <= w && kx < w && ky < h
    requires (IndexInGrid(w, h, kx, ky); RowSweep(t, w, h, y, a)[Index(w, kx, ky)].species == Sand)
    requires ky != y || ky == 0 || kx < a || b <= kx
    ensures (IndexInGrid(w, h, kx, ky);
             RowSweep(t, w, h, y, b)[Index(w, kx, ky)] == RowSweep(t, w, h, y, a)[Index(w, kx, ky)])
    decreases b
  {
    if b > a {
      RowKeepsSand(t, w, h, y, a, b - 1, kx, ky);
      RowStepKeepsSand(t, w, h, y, b, kx, ky);
    }
  }

  /** The visits a .. b - 1 of row `y` keep an Empty or Water cell Empty or Water unless one
      of them visits the cell above it. */
  lemma {:induction false} RowKeepsPassable(t: seq<Cell>, w: nat, h: nat, y: nat, a: nat, b: nat, kx: nat, ky: nat)
    requires |t| == w * h && y < h && a <= b <= w && kx < w && ky < h
    requires (IndexInGrid(w, h, kx, ky); Passable(RowSweep(t, w, h, y, a)[Index(w, kx, ky)]))
    requires ky + 1 != y || kx < a || b <= kx
    ensures (IndexInGrid(w, h, kx, ky); Passable(RowSweep(t, w, h, y, b)[Index(w, kx, ky)]))
    decreases b
  {
    if b > a {
      RowKeepsPassable(t, w, h, y, a, b - 1, kx, ky);
      RowStepKeepsPassable(t, w, h, y, b, kx, ky);
    }
  }

  lemma SweepUnfold(s: seq<Cell>, w: nat, h: nat, y: nat)
    requires |s| == w * h && 0 < y <= h
    ensures Sweep(s, w, h, y) == RowSweep(Sweep(s, w, h, y - 1), w, h, y - 1, w)
    ensures RowSweep(Sweep(s, w, h, y - 1), w, h, y - 1, 0) == Sweep(s, w, h, y - 1)
  {
  }

  lemma SweepStepKeepsSand(s: seq<Cell>, w: nat, h: nat, b: nat, kx: nat, ky: nat)
    requires |s| == w * h && 0 < b <= h && kx < w && ky < h
    requires (IndexInGrid(w, h, kx, ky); Sweep(s, w, h, b - 1)[Index(w, kx, ky)].species == Sand)
    requires ky == 0 || ky != b - 1
    ensures (IndexInGrid(w, h, kx, ky);
             Sweep(s, w, h, b)[Index(w, kx, ky)] == Sweep(s, w, h, b - 1)[Index(w, kx, ky)])
  {
    SweepUnfold(s, w, h, b);
    RowKeepsSand(Sweep(s, w, h, b - 1), w, h, b - 1, 0, w, kx, ky);
  }

  lemma SweepStepKeepsPassable(s: seq<Cell>, w: nat, h: nat, b: nat, kx: nat, ky: nat)
    requires |s| == w * h && 0 < b <= h && kx < w && ky < h
    requires (IndexInGrid(w, h, kx, ky); Passable(Sweep(s, w, h, b - 1)[Index(w, kx, ky)]))
    requires ky + 1 != b - 1
    ensures (IndexInGrid(w, h, kx, ky); Passable(Sweep(s, w, h, b)[Index(w, kx, ky)]))
  {
    SweepUnfold(s, w, h, b);
    RowKeepsPassable(Sweep(s, w, h, b - 1), w, h, b - 1, 0, w, kx, ky);
  }

  /** Rows a .. b - 1 of the sweep leave a Sand cell in place when it lies on row 0 or
      outside those rows. */
  lemma {:induction false} SweepKeepsSand(s: seq<Cell>, w: nat, h: nat, a: nat, b: nat, kx: nat, ky: nat)
    requires |s| == w * h && a <= b <= h && kx < w && ky < h
    requires (IndexInGrid(w, h, kx, ky); Sweep(s, w, h, a)[Index(w, kx, ky)].species == Sand)
    requires ky == 0 || ky < a || b <= ky
    ensures (IndexInGrid(w, h, kx, ky);
             Sweep(s, w, h, b)[Index(w, kx, ky)] == Sweep(s, w, h, a)[Index(w, kx, ky)])
    decreases b
  {
    if b > a {
      SweepKeepsSand(s, w, h, a, b - 1, kx, ky);
      SweepStepKeepsSand(s, w, h, b, kx, ky);
    }
  }

  /** Rows a .. b - 1 of the sweep keep an Empty or Water cell Empty or Water when the row
      above it is not among them. */
  lemma {:induction false} SweepKeepsPassable(s: seq<Cell>, w: nat, h: nat, a: nat, b: nat, kx: nat, ky: nat)
    requires |s| == w * h && a <= b <= h && kx < w && ky < h
    requires (IndexInGrid(w, h, kx, ky); Passable(Sweep(s, w, h, a)[Index(w, kx, ky)]))
    requires ky + 1 < a || b <= ky + 1
    ensures (IndexInGrid(w, h, kx, ky); Passable(Sweep(s, w, h, b)[Index(w, kx, ky)]))
    decreases b
  {
    if b > a {
      SweepKeepsPassable(s, w, h, a, b - 1, kx, ky);
      SweepStepKeepsPassable(s, w, h, b, kx, ky);
    }
  }

  /** Sand resting on Empty or Water ends one `update_simulation` exactly one row lower. Rows
      are visited bottom-up, so the cell below is still Empty or Water when the sand is
      visited, and the sand then lands on a row that is already finished. */
  lemma TickSandFallsOneRow(s: seq<Cell>, w: nat, h: nat, x: nat, y: nat)
    requires |s| == w * h && x < w && 0 < y < h
    requires (IndexInGrid(w, h, x, y); s[Index(w, x, y)].species == Sand)
    requires (IndexInGrid(w, h, x, y - 1); Passable(s[Index(w, x, y - 1)]))
    ensures (IndexInGrid(w, h, x, y); IndexInGrid(w, h, x, y - 1);
             Tick(s, w, h)[Index(w, x, y - 1)] == s[Index(w, x, y)])
  {
    IndexInGrid(w, h, x, y);
    IndexInGrid(w, h, x, y - 1);
    // rows below y: the sand stays put and the cell below it stays Empty or Water
    SweepKeepsSand(s, w, h, 0, y, x, y);
    SweepKeepsPassable(s, w, h, 0, y, x, y - 1);
    var start := Sweep(s, w, h, y);
    // row y up to x: likewise
    RowKeepsSand(start, w, h, y, 0, x, x, y);
    RowKeepsPassable(start, w, h, y, 0, x, x, y - 1);
    // the visit of (x, y) drops the sand
    RowSweepUnfold(start, w, h, y, x + 1);
    SandStepEffect(RowSweep(start, w, h, y, x), w, h, x, y);
    // nothing visited afterwards moves it
    RowKeepsSand(start, w, h, y, x + 1, w, x, y - 1);
    SweepUnfold(s, w, h, y + 1);
    SweepKeepsSand(s, w, h, y + 1, h, x, y - 1);
  }

  /** Sand on the bottom row never moves during `update_simulation`. */
  lemma TickBottomSandStays(s: seq<Cell>, w: nat, h: nat, x: nat)
    requires |s| == w * h && x < w && 0 < h
    requires (IndexInGrid(w, h, x, 0); s[Index(w, x, 0)].species == Sand)
    ensures (IndexInGrid(w, h, x, 0); Tick(s, w, h)[Index(w, x, 0)] == s[Index(w, x, 0)])
  {
    SweepKeepsSand(s, w, h, 0, h, x, 0);
  }

  /** Empty is routed to `update_sand`, so when the sweep visits an Empty cell that sits
      directly above Water, the two trade places: the water moves up. */
  lemma EmptyAboveWaterRises(s: seq<Cell>, w: nat, h: nat, x: nat, y: nat)
    requires |s| == w * h && x < w && 0 < y < h
    requires (IndexInGrid(w, h, x, y); IndexInGrid(w, h, x, y - 1);
              s[Index(w, x, y)].species == Empty && s[Index(w, x, y - 1)].species == Water)
    ensures CellStep(s, w, h, x, y)[Index(w, x, y)] == s[Index(w, x, y - 1)]
    ensures CellStep(s, w, h, x, y)[Index(w, x, y - 1)] == s[Index(w, x, y)]
  {
    SandStepEffect(s, w, h, x, y);
  }

  /** A water cell whose only way out is to the right lands on the very position the sweep
      visits next, so the same sweep dispatches it to `update_water` a second time. */
  lemma WaterMovedRightIsRevisited(t: seq<Cell>, w: nat, h: nat, x: nat, y: nat)
    requires |t| == w * h && x < w && y < h
    requires (IndexInGrid(w, h, x, y); RowSweep(t, w, h, y, x)[Index(w, x, y)].species == Water)
    requires WaterTarget(RowSweep(t, w, h, y, x), w, h, x, y) == Some(4)
    ensures x + 2 <= w
    ensures var before, after := RowSweep(t, w, h, y, x), RowSweep(t, w, h, y, x + 1);
      (IndexInGrid(w, h, x, y);
       IndexInGrid(w, h, x + 1, y);
       after[Index(w, x + 1, y)] == before[Index(w, x, y)] &&
       RowSweep(t, w, h, y, x + 2) == WaterStep(after, w, h, x + 1, y))
  {
    var s := RowSweep(t, w, h, y, x);
    IndexInGrid(w, h, x, y);
    var n := Neighbour(w, h, x, y, 4).value;
    assert n == (x + 1, y);
    IndexInGrid(w, h, x + 1, y);
  }
}
