/**
 * The value-level state of the Eulerian fluid simulation (Simulation.cs):
 * a staggered (MAC) grid of numCellsX by numCellsY cells carrying the
 * horizontal velocity u (left faces), the vertical velocity v (bottom faces),
 * the pressure p, the solid/fluid mask s and the smoke density m, plus the
 * scratch buffers newu, newv and newm used by advection.
 *
 * Every field is a Grid indexed g[i][j], i the column (x) and j the row (y),
 * exactly as the source indexes its float[,] arrays: f[i, j].
 * Floating point is abstracted: every field holds mathematical reals.
 */
module FluidState {

  /** One field of the grid, indexed g[i][j] with 0 <= i < nx and 0 <= j < ny. */
  type Grid = seq<seq<real>>

  // Constants of the simulation. The constructor ignores the density and
  // over-relaxation it is given and uses these; every caller passes a grid
  // spacing of 1.0.
  const GridSpacing: real := 1.0
  const Density: real := 1.0
  const OverRelaxation: real := 1.9
  const NumIterations: nat := 10
  const Gravity: real := -9.8
  /** The largest time step one call of StepSimulation simulates. */
  const MaxTimeStep: real := 0.033

  predicate IsGrid(g: Grid, nx: nat, ny: nat) {
    |g| == nx && forall i :: 0 <= i < nx ==> |g[i]| == ny
  }

  /** The grid of the given extents holding 0.0 everywhere. */
  function ZeroGrid(nx: nat, ny: nat): (g: Grid)
    ensures IsGrid(g, nx, ny)
    ensures forall i, j :: 0 <= i < nx && 0 <= j < ny ==> g[i][j] == 0.0
  {
    seq(nx, i => seq(ny, j => 0.0))
  }

  /** g with the single entry (i, j) replaced by x. */
  function Update(g: Grid, i: nat, j: nat, x: real): (r: Grid)
    requires i < |g| && j < |g[i]|
    ensures |r| == |g| && forall a :: 0 <= a < |g| ==> |r[a]| == |g[a]|
    ensures r[i][j] == x
    ensures forall a, b :: 0 <= a < |g| && 0 <= b < |g[a]| && (a != i || b != j) ==> r[a][b] == g[a][b]
  {
    g[i := g[i][j := x]]
  }

  /** Two grids of the same extents are equal when they agree entry by entry. */
  lemma GridExt(g: Grid, h: Grid, nx: nat, ny: nat)
    requires IsGrid(g, nx, ny) && IsGrid(h, nx, ny)
    requires forall i, j :: 0 <= i < nx && 0 <= j < ny ==> g[i][j] == h[i][j]
    ensures g == h
  {
    forall i | 0 <= i < nx
      ensures g[i] == h[i]
    {
      assert |g[i]| == |h[i]| == ny;
      assert forall j :: 0 <= j < ny ==> g[i][j] == h[i][j];
    }
  }

  /**
   * isEdge: a cell lies on the border of the box. For the cells of the grid,
   * that is exactly the complement of the interior [1, nx-2] x [1, ny-2].
   */
  function IsEdge(nx: nat, ny: nat, x: int, y: int): (r: bool)
    ensures 0 <= x < nx && 0 <= y < ny ==> (r <==> !(1 <= x <= nx - 2 && 1 <= y <= ny - 2))
  {
    x == 0 || x == nx - 1 || y == 0 || y == ny - 1
  }

  /**
   * The mask invariant: every cell is solid (0.0) or fluid (1.0) and every
   * border cell is solid, so the fluid is enclosed in a closed box.
   */
  predicate ClosedBox(s: Grid, nx: nat, ny: nat) {
    && IsGrid(s, nx, ny)
    && (forall i, j :: 0 <= i < nx && 0 <= j < ny ==> s[i][j] == 0.0 || s[i][j] == 1.0)
    && (forall i, j :: 0 <= i < nx && 0 <= j < ny && IsEdge(nx, ny, i, j) ==> s[i][j] == 0.0)
  }

  datatype State = State(
    nx: nat, ny: nat,
    u: Grid, v: Grid, p: Grid, s: Grid, m: Grid,
    newu: Grid, newv: Grid, newm: Grid)
  {
    /** All eight fields have the grid's extents; the grid has at least two columns and one row. */
    predicate WellFormed() {
      && nx >= 2 && ny >= 1
      && IsGrid(u, nx, ny) && IsGrid(v, nx, ny) && IsGrid(p, nx, ny) && IsGrid(s, nx, ny)
      && IsGrid(m, nx, ny) && IsGrid(newu, nx, ny) && IsGrid(newv, nx, ny) && IsGrid(newm, nx, ny)
    }

    /** A well-formed state whose mask is a closed box. */
    predicate Valid() {
      WellFormed() && ClosedBox(s, nx, ny)
    }

    /** A fluid cell is never on the border of a valid state. */
    lemma FluidIsInterior(i: int, j: int)
      requires Valid() && 0 <= i < nx && 0 <= j < ny && s[i][j] != 0.0
      ensures 1 <= i <= nx - 2 && 1 <= j <= ny - 2
    {
      assert !IsEdge(nx, ny, i, j);
    }
  }
}
