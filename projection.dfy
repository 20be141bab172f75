/**
 * The pressure projection of Simulation.cs (SolveCompressibility and
 * IterativelySolveCompressibility) on values: one relaxation of a cell, one
 * Gauss-Seidel sweep over the interior cells in the source's order (row j
 * outer, column i inner, each cell seeing the updates of the cells before it),
 * and the fixed number of sweeps after the pressure is cleared.
 */
module Projection {
  import opened FluidState

  /** The cells the sweep visits: columns 1..nx-2 and rows 1..ny-2. */
  predicate Interior(st: State, i: int, j: int) {
    1 <= i < st.nx - 1 && 1 <= j < st.ny - 1
  }

  /** The net outflow of cell (i, j) through its four faces. */
  function Divergence(st: State, i: int, j: int): real
    requires st.WellFormed() && Interior(st, i, j)
  {
    st.u[i + 1][j] - st.u[i][j] + st.v[i][j + 1] - st.v[i][j]
  }

  /** The number of fluid neighbours of cell (i, j), as a sum of mask values. */
  function MaskSum(st: State, i: int, j: int): real
    requires st.WellFormed() && Interior(st, i, j)
  {
    st.s[i + 1][j] + st.s[i - 1][j] + st.s[i][j + 1] + st.s[i][j - 1]
  }

  /** b differs from a at most in u, v and p, and has the same extents. */
  predicate SameFrame(a: State, b: State) {
    b == a.(u := b.u, v := b.v, p := b.p)
  }

  /**
   * A u face the sweep never writes: face (a, b) is written by cell (a, b)
   * only when the cell to its left is fluid, and by cell (a-1, b) only when
   * cell (a, b) is fluid.
   */
  predicate UFaceFixed(s: Grid, nx: nat, ny: nat, a: int, b: int)
    requires IsGrid(s, nx, ny) && 0 <= a < nx && 0 <= b < ny
  {
    && !(1 <= a < nx - 1 && 1 <= b < ny - 1 && s[a - 1][b] != 0.0)
    && !(1 <= a - 1 < nx - 1 && 1 <= b < ny - 1 && s[a][b] != 0.0)
  }

  /** The same for a v face: written by cell (a, b) or by cell (a, b-1). */
  predicate VFaceFixed(s: Grid, nx: nat, ny: nat, a: int, b: int)
    requires IsGrid(s, nx, ny) && 0 <= a < nx && 0 <= b < ny
  {
    && !(1 <= a < nx - 1 && 1 <= b < ny - 1 && s[a][b - 1] != 0.0)
    && !(1 <= a < nx - 1 && 1 <= b - 1 < ny - 1 && s[a][b] != 0.0)
  }

  /**
   * What the faces, the pressure and the rest of the state look like after
   * b has been obtained from a by relaxing cells: nothing but u, v and p
   * changed, fixed faces kept their values and the pressure changed only
   * inside.
   */
  predicate KeepsFixed(a: State, b: State)
    requires a.WellFormed() && b.WellFormed()
  {
    && SameFrame(a, b)
    && (forall x, y :: 0 <= x < a.nx && 0 <= y < a.ny && UFaceFixed(a.s, a.nx, a.ny, x, y) ==> b.u[x][y] == a.u[x][y])
    && (forall x, y :: 0 <= x < a.nx && 0 <= y < a.ny && VFaceFixed(a.s, a.nx, a.ny, x, y) ==> b.v[x][y] == a.v[x][y])
    && (forall x, y :: 0 <= x < a.nx && 0 <= y < a.ny && !Interior(a, x, y) ==> b.p[x][y] == a.p[x][y])
  }

  /**
   * One step of SolveCompressibility at cell (i, j): when the cell has a
   * fluid neighbour, the over-relaxed divergence is spread over the faces
   * towards fluid neighbours, in proportion to their mask values, and the
   * pressure is lowered by the corresponding amount.
   */
  function RelaxCell(st: State, i: int, j: int, dt: real): (r: State)
    requires st.WellFormed() && Interior(st, i, j) && dt > 0.0
    ensures r.WellFormed() && SameFrame(st, r)
  {
    var sum := MaskSum(st, i, j);
    if sum == 0.0 then st else Relaxed(st, i, j, dt, Divergence(st, i, j) * OverRelaxation, sum)
  }

  /**
   * The state after cell (i, j) pushed d onto its faces: the faces move by
   * the shares d*w/sum, w the mask value of the neighbour across the face,
   * and the pressure drops by d/sum times density * spacing / dt.
   */
  function Relaxed(st: State, i: int, j: int, dt: real, d: real, sum: real): (r: State)
    requires st.WellFormed() && Interior(st, i, j) && dt > 0.0 && sum != 0.0
    ensures r.WellFormed() && SameFrame(st, r)
  {
    st.(u := RelaxedU(st.u, st.s, i, j, d, sum),
        v := RelaxedV(st.v, st.s, i, j, d, sum),
        p := Update(st.p, i, j, st.p[i][j] - PressureDrop(d, sum, dt)))
  }

  /** The part d * w / sum of the over-relaxed divergence d a face with mask value w takes. */
  function Share(d: real, w: real, sum: real): real
    requires sum != 0.0
  {
    d * w / sum
  }

  /** The pressure change of a relaxation: d / sum times density * spacing / dt. */
  function PressureDrop(d: real, sum: real, dt: real): real
    requires sum != 0.0 && dt > 0.0
  {
    (d / sum) * (Density * GridSpacing / dt)
  }

  /** The horizontal velocities after a relaxation of cell (i, j): its left and right faces move. */
  function RelaxedU(u: Grid, s: Grid, i: nat, j: nat, d: real, sum: real): (r: Grid)
    requires 1 <= i && i + 1 < |u| && |u| == |s| && j < |u[i]| && j < |u[i + 1]|
    requires j < |s[i - 1]| && j < |s[i + 1]| && sum != 0.0
    ensures |r| == |u| && forall a :: 0 <= a < |u| ==> |r[a]| == |u[a]|
  {
    var u1 := Update(u, i, j, u[i][j] + Share(d, s[i - 1][j], sum));
    Update(u1, i + 1, j, u[i + 1][j] - Share(d, s[i + 1][j], sum))
  }

  /** The vertical velocities after a relaxation of cell (i, j): its bottom and top faces move. */
  function RelaxedV(v: Grid, s: Grid, i: nat, j: nat, d: real, sum: real): (r: Grid)
    requires i < |v| && i < |s| && 1 <= j && j + 1 < |v[i]| && j + 1 < |s[i]| && sum != 0.0
    ensures |r| == |v| && forall a :: 0 <= a < |v| ==> |r[a]| == |v[a]|
  {
    var v1 := Update(v, i, j, v[i][j] + Share(d, s[i][j - 1], sum));
    Update(v1, i, j + 1, v[i][j + 1] - Share(d, s[i][j + 1], sum))
  }

  /**
   * The five values a relaxation with a fluid neighbour writes: each face of
   * the cell moves by its share d*w/sum of the over-relaxed divergence d, and
   * the pressure drops by d/sum times density * spacing / dt.
   */
  lemma RelaxCellValues(st: State, i: int, j: int, dt: real)
    requires st.WellFormed() && Interior(st, i, j) && dt > 0.0 && MaskSum(st, i, j) != 0.0
    ensures var r := RelaxCell(st, i, j, dt);
      var d := Divergence(st, i, j) * OverRelaxation;
      var sum := MaskSum(st, i, j);
      && r.u[i][j] == st.u[i][j] + Share(d, st.s[i - 1][j], sum)
      && r.u[i + 1][j] == st.u[i + 1][j] - Share(d, st.s[i + 1][j], sum)
      && r.v[i][j] == st.v[i][j] + Share(d, st.s[i][j - 1], sum)
      && r.v[i][j + 1] == st.v[i][j + 1] - Share(d, st.s[i][j + 1], sum)
      && r.p[i][j] == st.p[i][j] - PressureDrop(d, sum, dt)
  {
  }

  /**
   * What relaxing cell (i, j) does: nothing when no neighbour is fluid;
   * otherwise the divergence of the cell becomes (1 - OverRelaxation) times
   * what it was, only the four faces of the cell and its pressure change,
   * and a face whose neighbour is solid keeps its value.
   */
  lemma RelaxCellEffect(st: State, i: int, j: int, dt: real)
    requires st.WellFormed() && Interior(st, i, j) && dt > 0.0
    ensures var r := RelaxCell(st, i, j, dt);
      && (MaskSum(st, i, j) == 0.0 ==> r == st)
      && (MaskSum(st, i, j) != 0.0 ==> Divergence(r, i, j) == (1.0 - OverRelaxation) * Divergence(st, i, j))
      && (forall a, b :: 0 <= a < st.nx && 0 <= b < st.ny && (a, b) != (i, j) && (a, b) != (i + 1, j) ==>
            r.u[a][b] == st.u[a][b])
      && (forall a, b :: 0 <= a < st.nx && 0 <= b < st.ny && (a, b) != (i, j) && (a, b) != (i, j + 1) ==>
            r.v[a][b] == st.v[a][b])
      && (forall a, b :: 0 <= a < st.nx && 0 <= b < st.ny && (a, b) != (i, j) ==> r.p[a][b] == st.p[a][b])
      && (st.s[i - 1][j] == 0.0 ==> r.u[i][j] == st.u[i][j])
      && (st.s[i + 1][j] == 0.0 ==> r.u[i + 1][j] == st.u[i + 1][j])
      && (st.s[i][j - 1] == 0.0 ==> r.v[i][j] == st.v[i][j])
      && (st.s[i][j + 1] == 0.0 ==> r.v[i][j + 1] == st.v[i][j + 1])
  {
    var sum := MaskSum(st, i, j);
    if sum != 0.0 {
      RelaxCellValues(st, i, j, dt);
      var d := Divergence(st, i, j) * OverRelaxation;
      SharesSumToWhole(d, st.s[i - 1][j], st.s[i + 1][j], st.s[i][j - 1], st.s[i][j + 1]);
    }
  }

  /** The four shares of the relaxation add up to the whole over-relaxed divergence d. */
  lemma SharesSumToWhole(d: real, a: real, b: real, c: real, e: real)
    requires b + a + e + c != 0.0
    ensures var sum := b + a + e + c;
      Share(d, a, sum) + Share(d, b, sum) + Share(d, c, sum) + Share(d, e, sum) == d
  {
    var sum := b + a + e + c;
    assert d * a / sum + d * b / sum + d * c / sum + d * e / sum == d * (a + b + c + e) / sum;
    assert d * (a + b + c + e) / sum == d * sum / sum;
  }

  /** RelaxCell field by field, as the grids the in-place relaxation writes. */
  lemma RelaxCellGrids(st: State, i: int, j: int, dt: real)
    requires st.WellFormed() && Interior(st, i, j) && dt > 0.0
    ensures var r := RelaxCell(st, i, j, dt);
      && r.s == st.s
      && (MaskSum(st, i, j) == 0.0 ==> r.u == st.u && r.v == st.v && r.p == st.p)
      && (MaskSum(st, i, j) != 0.0 ==>
            var d := Divergence(st, i, j) * OverRelaxation;
            var sum := MaskSum(st, i, j);
            && r.u == RelaxedU(st.u, st.s, i, j, d, sum)
            && r.v == RelaxedV(st.v, st.s, i, j, d, sum)
            && r.p == Update(st.p, i, j, st.p[i][j] - PressureDrop(d, sum, dt)))
  {
  }



  /** The cells (1, j) .. (i-1, j) of row j relaxed one after the other. */
  function SweepRow(st: State, j: int, i: int, dt: real): (r: State)
    requires st.WellFormed() && 1 <= j < st.ny - 1 && 1 <= i <= st.nx - 1 && dt > 0.0
    ensures r.WellFormed() && SameFrame(st, r)
    decreases i
  {
    if i == 1 then st else RelaxCell(SweepRow(st, j, i - 1, dt), i - 1, j, dt)
  }

  /** The rows 1 .. j-1 swept one after the other. */
  function SweepRows(st: State, j: int, dt: real): (r: State)
    requires st.WellFormed() && 1 <= j && (j == 1 || j <= st.ny - 1) && dt > 0.0
    ensures r.WellFormed() && SameFrame(st, r)
    decreases j
  {
    if j == 1 then st else SweepRow(SweepRows(st, j - 1, dt), j - 1, st.nx - 1, dt)
  }

  /** The last row index the sweep stops before: rows 1..ny-2 are swept. */
  function RowBound(ny: int): int {
    if ny >= 2 then ny - 1 else 1
  }

  /** SolveCompressibility: one sweep over all interior cells. */
  function Sweep(st: State, dt: real): (r: State)
    requires st.WellFormed() && dt > 0.0
    ensures r.WellFormed() && SameFrame(st, r)
  {
    SweepRows(st, RowBound(st.ny), dt)
  }

  /** n sweeps one after the other. */
  function Iterate(st: State, n: nat, dt: real): (r: State)
    requires st.WellFormed() && dt > 0.0
    ensures r.WellFormed() && SameFrame(st, r)
  {
    if n == 0 then st else Sweep(Iterate(st, n - 1, dt), dt)
  }

  /** IterativelySolveCompressibility: clear the pressure, then NumIterations sweeps. */
  function SolveIncompressibility(st: State, dt: real): (r: State)
    requires st.WellFormed() && dt > 0.0
    ensures r.WellFormed() && SameFrame(st, r)
  {
    Iterate(st.(p := ZeroGrid(st.nx, st.ny)), NumIterations, dt)
  }

  // ---------------------------------------------------------------------
  // What the sweeps leave alone

  lemma KeepsFixedTrans(a: State, b: State, c: State)
    requires a.WellFormed() && b.WellFormed() && c.WellFormed()
    requires KeepsFixed(a, b) && KeepsFixed(b, c)
    ensures KeepsFixed(a, c)
  {
  }

  /** Relaxing one cell writes no fixed face and no pressure outside the interior. */
  lemma RelaxCellKeepsFixed(st: State, i: int, j: int, dt: real)
    requires st.WellFormed() && Interior(st, i, j) && dt > 0.0
    ensures KeepsFixed(st, RelaxCell(st, i, j, dt))
  {
    var r := RelaxCell(st, i, j, dt);
    RelaxCellEffect(st, i, j, dt);
    forall x, y | 0 <= x < st.nx && 0 <= y < st.ny && UFaceFixed(st.s, st.nx, st.ny, x, y)
      ensures r.u[x][y] == st.u[x][y]
    {
      if (x, y) == (i, j) {
        assert st.s[i - 1][j] == 0.0;
      } else if (x, y) == (i + 1, j) {
        assert st.s[i + 1][j] == 0.0;
      }
    }
    forall x, y | 0 <= x < st.nx && 0 <= y < st.ny && VFaceFixed(st.s, st.nx, st.ny, x, y)
      ensures r.v[x][y] == st.v[x][y]
    {
      if (x, y) == (i, j) {
        assert st.s[i][j - 1] == 0.0;
      } else if (x, y) == (i, j + 1) {
        assert st.s[i][j + 1] == 0.0;
      }
    }
  }

  lemma {:induction false} SweepRowKeepsFixed(st: State, j: int, i: int, dt: real)
    requires st.WellFormed() && 1 <= j < st.ny - 1 && 1 <= i <= st.nx - 1 && dt > 0.0
    ensures KeepsFixed(st, SweepRow(st, j, i, dt))
    decreases i
  {
    if i > 1 {
      var mid := SweepRow(st, j, i - 1, dt);
      SweepRowKeepsFixed(st, j, i - 1, dt);
      RelaxCellKeepsFixed(mid, i - 1, j, dt);
      KeepsFixedTrans(st, mid, RelaxCell(mid, i - 1, j, dt));
    }
  }

  lemma {:induction false} SweepRowsKeepsFixed(st: State, j: int, dt: real)
    requires st.WellFormed() && 1 <= j && (j == 1 || j <= st.ny - 1) && dt > 0.0
    ensures KeepsFixed(st, SweepRows(st, j, dt))
    decreases j
  {
    if j > 1 {
      var mid := SweepRows(st, j - 1, dt);
      SweepRowsKeepsFixed(st, j - 1, dt);
      SweepRowKeepsFixed(mid, j - 1, st.nx - 1, dt);
      KeepsFixedTrans(st, mid, SweepRows(st, j, dt));
    }
  }

  /** One full sweep keeps the fixed faces, the border pressure and the other fields. */
  lemma SweepKeepsFixed(st: State, dt: real)
    requires st.WellFormed() && dt > 0.0
    ensures KeepsFixed(st, Sweep(st, dt))
  {
    SweepRowsKeepsFixed(st, RowBound(st.ny), dt);
  }

  /**
   * Any number of sweeps leaves the fixed faces, the border pressure and
   * every field other than u, v and p as they were.
   */
  lemma {:induction false} IterateKeepsFixed(st: State, n: nat, dt: real)
    requires st.WellFormed() && dt > 0.0
    ensures KeepsFixed(st, Iterate(st, n, dt))
  {
    if n > 0 {
      var mid := Iterate(st, n - 1, dt);
      IterateKeepsFixed(st, n - 1, dt);
      SweepKeepsFixed(mid, dt);
      KeepsFixedTrans(st, mid, Sweep(mid, dt));
    }
  }

  /**
   * In a closed box, the faces on the border of the domain and the faces
   * next to it that open onto a solid border cell are never written: u in
   * columns 0, 1 and nx-1 and in rows 0 and ny-1, v in rows 0, 1 and ny-1
   * and in columns 0 and nx-1.
   */
  lemma BorderFacesFixed(s: Grid, nx: nat, ny: nat, a: int, b: int)
    requires ClosedBox(s, nx, ny) && 0 <= a < nx && 0 <= b < ny
    ensures a == 0 || a == 1 || a == nx - 1 || b == 0 || b == ny - 1 ==> UFaceFixed(s, nx, ny, a, b)
    ensures b == 0 || b == 1 || b == ny - 1 || a == 0 || a == nx - 1 ==> VFaceFixed(s, nx, ny, a, b)
  {
    if a == 1 && 0 < b < ny - 1 {
      assert IsEdge(nx, ny, 0, b);
    }
    if a == nx - 1 {
      assert IsEdge(nx, ny, a, b);
    }
    if b == 1 && 0 < a < nx - 1 {
      assert IsEdge(nx, ny, a, 0);
    }
    if b == ny - 1 {
      assert IsEdge(nx, ny, a, b);
    }
  }

  /**
   * IterativelySolveCompressibility on a closed box: the pressure on the
   * border is 0 afterwards, the border faces of u and v keep their values,
   * and nothing but u, v and p changes.
   */
  lemma SolveKeepsBorder(st: State, dt: real)
    requires st.Valid() && dt > 0.0
    ensures var r := SolveIncompressibility(st, dt);
      && r.s == st.s && r.m == st.m && r.newu == st.newu && r.newv == st.newv && r.newm == st.newm
      && (forall a, b :: 0 <= a < st.nx && 0 <= b < st.ny && (a == 0 || a == st.nx - 1 || b == 0 || b == st.ny - 1) ==>
            r.p[a][b] == 0.0)
      && (forall a, b :: 0 <= a < st.nx && 0 <= b < st.ny && (a == 0 || a == 1 || a == st.nx - 1 || b == 0 || b == st.ny - 1) ==>
            r.u[a][b] == st.u[a][b])
      && (forall a, b :: 0 <= a < st.nx && 0 <= b < st.ny && (b == 0 || b == 1 || b == st.ny - 1 || a == 0 || a == st.nx - 1) ==>
            r.v[a][b] == st.v[a][b])
  {
    var z := st.(p := ZeroGrid(st.nx, st.ny));
    IterateKeepsFixed(z, NumIterations, dt);
    forall a, b | 0 <= a < st.nx && 0 <= b < st.ny
      ensures a == 0 || a == 1 || a == st.nx - 1 || b == 0 || b == st.ny - 1 ==> UFaceFixed(st.s, st.nx, st.ny, a, b)
      ensures b == 0 || b == 1 || b == st.ny - 1 || a == 0 || a == st.nx - 1 ==> VFaceFixed(st.s, st.nx, st.ny, a, b)
    {
      BorderFacesFixed(st.s, st.nx, st.ny, a, b);
    }
  }
}
