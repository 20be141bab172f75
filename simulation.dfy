/**
 * The Simulation class of Simulation.cs: the eight fields of the staggered
 * grid are two-dimensional arrays the methods update in place, loop by loop,
 * as the source does. Each method is proved against the value-level model:
 * its new state is the corresponding function of the modules FluidState,
 * Setup, Projection, Advection and Stepping applied to the old state, and the
 * properties proved about those functions carry over to the arrays.
 */
module FluidSimulation {
  import opened FluidState
  import opened Sampling
  import opened Setup
  import Projection
  import Advection
  import Stepping

  /** The contents of an array as a grid, a[i, j] becoming g[i][j]. */
  ghost function Snap(a: array2<real>): (g: Grid)
    reads a
    ensures IsGrid(g, a.Length0, a.Length1)
    ensures forall i, j :: 0 <= i < a.Length0 && 0 <= j < a.Length1 ==> g[i][j] == a[i, j]
  {
    SnapAfter(a, 2)
  }

  ghost function SnapAfter(a: array2<real>, n: nat): (g: Grid)
    reads a
    ensures IsGrid(g, a.Length0, a.Length1)
    ensures forall i, j :: 0 <= i < a.Length0 && 0 <= j < a.Length1 ==> g[i][j] == a[i, j]
  {
    if n == 0 then
      seq(a.Length0, i requires 0 <= i < a.Length0 reads a =>
        seq(a.Length1, j requires 0 <= j < a.Length1 reads a => a[i, j]))
    else SnapAfter(a, n - 1)
  }

  /** An array that agrees with g entry by entry snaps to g. */
  lemma SnapIs(a: array2<real>, g: Grid)
    requires IsGrid(g, a.Length0, a.Length1)
    requires forall i, j :: 0 <= i < a.Length0 && 0 <= j < a.Length1 ==> a[i, j] == g[i][j]
    ensures Snap(a) == g
  {
    GridExt(Snap(a), g, a.Length0, a.Length1);
  }

  /** Writing one entry of an array updates its snapshot at that entry only. */
  method Put(a: array2<real>, i: nat, j: nat, x: real)
    requires i < a.Length0 && j < a.Length1
    modifies a
    ensures Snap(a) == Update(old(Snap(a)), i, j, x)
  {
    ghost var g := Snap(a);
    a[i, j] := x;
    SnapIs(a, Update(g, i, j, x));
  }

  /** The writes of one relaxation to the left and right faces of cell (i, j). */
  method RelaxFacesU(u: array2<real>, s: array2<real>, i: nat, j: nat, d: real, sum: real)
    requires u != s && u.Length0 == s.Length0 && u.Length1 == s.Length1
    requires 1 <= i && i + 1 < u.Length0 && j < u.Length1 && sum != 0.0
    modifies u
    ensures Snap(u) == Projection.RelaxedU(old(Snap(u)), Snap(s), i, j, d, sum)
  {
    Put(u, i, j, u[i, j] + Projection.Share(d, s[i - 1, j], sum));
    Put(u, i + 1, j, u[i + 1, j] - Projection.Share(d, s[i + 1, j], sum));
  }

  /** The writes of one relaxation to the bottom and top faces of cell (i, j). */
  method RelaxFacesV(v: array2<real>, s: array2<real>, i: nat, j: nat, d: real, sum: real)
    requires v != s && v.Length0 == s.Length0 && v.Length1 == s.Length1
    requires i < v.Length0 && 1 <= j && j + 1 < v.Length1 && sum != 0.0
    modifies v
    ensures Snap(v) == Projection.RelaxedV(old(Snap(v)), Snap(s), i, j, d, sum)
  {
    Put(v, i, j, v[i, j] + Projection.Share(d, s[i, j - 1], sum));
    Put(v, i, j + 1, v[i, j + 1] - Projection.Share(d, s[i, j + 1], sum));
  }

  /**
   * The body of the loop of SolveCompressibility at cell (i, j), once the
   * cells before it in row j have been relaxed: when the cell has a fluid
   * neighbour, the over-relaxed divergence is pushed onto the four faces in
   * proportion to the neighbours' mask values and the pressure lowered
   * accordingly, exactly as Projection.RelaxCell states. The arrays then
   * hold row j relaxed up to and including cell (i, j).
   */
  method RelaxCell(u: array2<real>, v: array2<real>, p: array2<real>, s: array2<real>, i: int, j: int, dt: real, ghost row: State)
    requires u != v && u != p && u != s && v != p && v != s && p != s
    requires row.WellFormed() && 1 <= i < row.nx - 1 && 1 <= j < row.ny - 1 && dt > 0.0
    requires u.Length0 == v.Length0 == p.Length0 == s.Length0 == row.nx
    requires u.Length1 == v.Length1 == p.Length1 == s.Length1 == row.ny
    requires var cur := Projection.SweepRow(row, j, i, dt);
      Snap(u) == cur.u && Snap(v) == cur.v && Snap(p) == cur.p && Snap(s) == row.s
    modifies u, v, p
    ensures var r := Projection.SweepRow(row, j, i + 1, dt);
      Snap(u) == r.u && Snap(v) == r.v && Snap(p) == r.p
  {
    ghost var cur := Projection.SweepRow(row, j, i, dt);
    Projection.RelaxCellGrids(cur, i, j, dt);
    var d := u[i + 1, j] - u[i, j] + v[i, j + 1] - v[i, j];
    var st := s[i + 1, j] + s[i - 1, j] + s[i, j + 1] + s[i, j - 1];
    if st != 0.0 {
      d := d * OverRelaxation;
      assert d == Projection.Divergence(cur, i, j) * OverRelaxation && st == Projection.MaskSum(cur, i, j);
      RelaxFacesU(u, s, i, j, d, st);
      RelaxFacesV(v, s, i, j, d, st);
      assert p[i, j] == cur.p[i][j];
      Put(p, i, j, p[i, j] - Projection.PressureDrop(d, st, dt));
    }
  }

  /** The inner loop of SolveCompressibility: the cells of row j relaxed from left to right. */
  method SweepRow(u: array2<real>, v: array2<real>, p: array2<real>, s: array2<real>, j: int, dt: real, ghost st: State)
    requires u != v && u != p && u != s && v != p && v != s && p != s
    requires st.WellFormed() && 1 <= j < st.ny - 1 && dt > 0.0
    requires u.Length0 == v.Length0 == p.Length0 == s.Length0 == st.nx
    requires u.Length1 == v.Length1 == p.Length1 == s.Length1 == st.ny
    requires Snap(u) == st.u && Snap(v) == st.v && Snap(p) == st.p && Snap(s) == st.s
    modifies u, v, p
    ensures var r := Projection.SweepRow(st, j, st.nx - 1, dt);
      Snap(u) == r.u && Snap(v) == r.v && Snap(p) == r.p
  {
    var i := 1;
    while i < u.Length0 - 1
      invariant 1 <= i <= st.nx - 1
      invariant var cur := Projection.SweepRow(st, j, i, dt);
        Snap(u) == cur.u && Snap(v) == cur.v && Snap(p) == cur.p
    {
      RelaxCell(u, v, p, s, i, j, dt, st);
      i := i + 1;
    }
  }

  /** The outer loop of SolveCompressibility: rows 1..ny-2 swept from bottom to top. */
  method SweepCells(u: array2<real>, v: array2<real>, p: array2<real>, s: array2<real>, dt: real, ghost st: State)
    requires u != v && u != p && u != s && v != p && v != s && p != s
    requires st.WellFormed() && dt > 0.0
    requires u.Length0 == v.Length0 == p.Length0 == s.Length0 == st.nx
    requires u.Length1 == v.Length1 == p.Length1 == s.Length1 == st.ny
    requires Snap(u) == st.u && Snap(v) == st.v && Snap(p) == st.p && Snap(s) == st.s
    modifies u, v, p
    ensures var r := Projection.Sweep(st, dt);
      Snap(u) == r.u && Snap(v) == r.v && Snap(p) == r.p
  {
    var j := 1;
    while j < u.Length1 - 1
      invariant 1 <= j && (j == 1 || j <= st.ny - 1)
      invariant var cur := Projection.SweepRows(st, j, dt);
        Snap(u) == cur.u && Snap(v) == cur.v && Snap(p) == cur.p
    {
      SweepRow(u, v, p, s, j, dt, Projection.SweepRows(st, j, dt));
      j := j + 1;
    }
  }

  /**
   * The grids the velocity loop of AdvectVelocities leaves in newu and newv:
   * the sampled velocity on every face it recomputes, the copied field on
   * every other face. The sampled values are stated face by face, so they
   * are only unfolded where a face is actually recomputed.
   */
  ghost predicate VelocityTargets(st0: State, tu: Grid, tv: Grid, dt: real)
    requires st0.Valid()
  {
    var nu0 := Advection.CopyInterior(st0.u, st0.newu, st0.nx, st0.ny);
    var nv0 := Advection.CopyInterior(st0.v, st0.newv, st0.nx, st0.ny);
    && IsGrid(tu, st0.nx, st0.ny) && IsGrid(tv, st0.nx, st0.ny)
    && (forall a, b {:trigger Advection.AdvectedU(st0, a, b, dt)} ::
          0 <= a < st0.nx && 0 <= b < st0.ny && Advection.AdvectsU(st0, a, b) ==>
            tu[a][b] == Advection.AdvectedU(st0, a, b, dt))
    && (forall a, b {:trigger Advection.AdvectedV(st0, a, b, dt)} ::
          0 <= a < st0.nx && 0 <= b < st0.ny && Advection.AdvectsV(st0, a, b) ==>
            tv[a][b] == Advection.AdvectedV(st0, a, b, dt))
    && (forall a, b :: 0 <= a < st0.nx && 0 <= b < st0.ny && !Advection.AdvectsU(st0, a, b) ==>
          tu[a][b] == nu0[a][b])
    && (forall a, b :: 0 <= a < st0.nx && 0 <= b < st0.ny && !Advection.AdvectsV(st0, a, b) ==>
          tv[a][b] == nv0[a][b])
  }

  /** The grids of Advection.AdvectVelocities are such targets. */
  lemma VelocityTargetsExist(st0: State, dt: real)
    requires st0.Valid()
    ensures VelocityTargets(st0, Advection.AdvectedUGrid(st0, dt), Advection.AdvectedVGrid(st0, dt), dt)
  {
  }

  /** ... and the only ones. */
  lemma VelocityTargetsUnique(st0: State, dt: real, tu: Grid, tv: Grid)
    requires st0.Valid() && VelocityTargets(st0, tu, tv, dt)
    ensures tu == Advection.AdvectedUGrid(st0, dt) && tv == Advection.AdvectedVGrid(st0, dt)
  {
    var gu, gv := Advection.AdvectedUGrid(st0, dt), Advection.AdvectedVGrid(st0, dt);
    forall a, b | 0 <= a < st0.nx && 0 <= b < st0.ny
      ensures tu[a][b] == gu[a][b] && tv[a][b] == gv[a][b]
    {
      if Advection.AdvectsU(st0, a, b) {
        assert tu[a][b] == Advection.AdvectedU(st0, a, b, dt);
      }
      if Advection.AdvectsV(st0, a, b) {
        assert tv[a][b] == Advection.AdvectedV(st0, a, b, dt);
      }
    }
    GridExt(tu, gu, st0.nx, st0.ny);
    GridExt(tv, gv, st0.nx, st0.ny);
  }

  /**
   * The grid the smoke loop of AdvectSmoke leaves in newm: the sampled smoke
   * on every cell it recomputes, the copied smoke on every other cell.
   */
  ghost predicate SmokeTarget(st0: State, target: Grid, dt: real)
    requires st0.Valid()
  {
    var nm0 := Advection.CopyInterior(st0.m, st0.newm, st0.nx, st0.ny);
    && IsGrid(target, st0.nx, st0.ny)
    && (forall a, b {:trigger Advection.AdvectedM(st0, a, b, dt)} ::
          0 <= a < st0.nx && 0 <= b < st0.ny && Advection.AdvectsM(st0, a, b) ==>
            target[a][b] == Advection.AdvectedM(st0, a, b, dt))
    && (forall a, b :: 0 <= a < st0.nx && 0 <= b < st0.ny && !Advection.AdvectsM(st0, a, b) ==>
          target[a][b] == nm0[a][b])
  }

  /** The grid of Advection.AdvectSmoke is such a target. */
  lemma SmokeTargetExists(st0: State, dt: real)
    requires st0.Valid()
    ensures SmokeTarget(st0, Advection.AdvectedMGrid(st0, dt), dt)
  {
  }

  /** ... and the only one. */
  lemma SmokeTargetUnique(st0: State, dt: real, target: Grid)
    requires st0.Valid() && SmokeTarget(st0, target, dt)
    ensures target == Advection.AdvectedMGrid(st0, dt)
  {
    var g := Advection.AdvectedMGrid(st0, dt);
    forall a, b | 0 <= a < st0.nx && 0 <= b < st0.ny
      ensures target[a][b] == g[a][b]
    {
      if Advection.AdvectsM(st0, a, b) {
        assert target[a][b] == Advection.AdvectedM(st0, a, b, dt);
      }
    }
    GridExt(target, g, st0.nx, st0.ny);
  }

  /**
   * The scratch grid a loop over the faces of rows 1.. and columns 1.., row
   * by row, has produced when it reaches face (i, j): target on the faces
   * already visited, start on all others.
   */
  ghost function Visited(target: Grid, start: Grid, nx: nat, ny: nat, i: int, j: int): (g: Grid)
    requires IsGrid(target, nx, ny) && IsGrid(start, nx, ny)
    ensures IsGrid(g, nx, ny)
  {
    seq(nx, a requires 0 <= a < nx =>
      seq(ny, b requires 0 <= b < ny =>
        if 1 <= a && 1 <= b && (b < j || (b == j && a < i)) then target[a][b] else start[a][b]))
  }

  /** Before the first face nothing has been visited. */
  lemma VisitedStart(target: Grid, start: Grid, nx: nat, ny: nat)
    requires IsGrid(target, nx, ny) && IsGrid(start, nx, ny)
    ensures Visited(target, start, nx, ny, 1, 1) == start
  {
    GridExt(Visited(target, start, nx, ny, 1, 1), start, nx, ny);
  }

  /** Visiting face (i, j) writes target[i][j] there and changes nothing else. */
  lemma VisitedNext(target: Grid, start: Grid, nx: nat, ny: nat, i: nat, j: nat)
    requires IsGrid(target, nx, ny) && IsGrid(start, nx, ny) && 1 <= i < nx && 1 <= j < ny
    ensures Visited(target, start, nx, ny, i + 1, j) == Update(Visited(target, start, nx, ny, i, j), i, j, target[i][j])
  {
    GridExt(Visited(target, start, nx, ny, i + 1, j), Update(Visited(target, start, nx, ny, i, j), i, j, target[i][j]), nx, ny);
  }

  /** Skipping a face whose target is its start value loses nothing. */
  lemma VisitedSkip(target: Grid, start: Grid, nx: nat, ny: nat, i: nat, j: nat)
    requires IsGrid(target, nx, ny) && IsGrid(start, nx, ny) && 1 <= i < nx && 1 <= j < ny
    requires target[i][j] == start[i][j]
    ensures Visited(target, start, nx, ny, i + 1, j) == Visited(target, start, nx, ny, i, j)
  {
    GridExt(Visited(target, start, nx, ny, i + 1, j), Visited(target, start, nx, ny, i, j), nx, ny);
  }

  /** The end of a row is the start of the next one. */
  lemma VisitedRow(target: Grid, start: Grid, nx: nat, ny: nat, j: int)
    requires IsGrid(target, nx, ny) && IsGrid(start, nx, ny)
    ensures Visited(target, start, nx, ny, nx, j) == Visited(target, start, nx, ny, 1, j + 1)
  {
    GridExt(Visited(target, start, nx, ny, nx, j), Visited(target, start, nx, ny, 1, j + 1), nx, ny);
  }

  /** After the last row the whole target is there, if it agrees with start on column 0 and row 0. */
  lemma VisitedEnd(target: Grid, start: Grid, nx: nat, ny: nat)
    requires IsGrid(target, nx, ny) && IsGrid(start, nx, ny)
    requires forall a, b :: 0 <= a < nx && 0 <= b < ny && (a == 0 || b == 0) ==> target[a][b] == start[a][b]
    ensures Visited(target, start, nx, ny, 1, ny) == target
  {
    GridExt(Visited(target, start, nx, ny, 1, ny), target, nx, ny);
  }

  class Simulation {
    const numCellsX: nat
    const numCellsY: nat
    const u: array2<real>
    const v: array2<real>
    const newu: array2<real>
    const newv: array2<real>
    const p: array2<real>
    const s: array2<real>
    const m: array2<real>
    const newm: array2<real>
    /** The inflow speed per unit of time; a public property of the source. */
    var flowRate: real

    ghost predicate Sized(a: array2<real>) {
      a.Length0 == numCellsX && a.Length1 == numCellsY
    }

    /** Eight distinct arrays of numCellsX by numCellsY entries, at least two columns and one row. */
    ghost predicate Shaped() {
      && numCellsX >= 2 && numCellsY >= 1
      && Sized(u) && Sized(v) && Sized(newu) && Sized(newv)
      && Sized(p) && Sized(s) && Sized(m) && Sized(newm)
      && u != v && u != newu && u != newv && u != p && u != s && u != m && u != newm
      && v != newu && v != newv && v != p && v != s && v != m && v != newm
      && newu != newv && newu != p && newu != s && newu != m && newu != newm
      && newv != p && newv != s && newv != m && newv != newm
      && p != s && p != m && p != newm
      && s != m && s != newm
      && m != newm
    }

    /** The class invariant: the arrays are well shaped and the mask is a closed box. */
    ghost predicate Valid()
      reads s
    {
      Shaped() && ClosedBox(Snap(s), numCellsX, numCellsY)
    }

    /** The state of the simulation as a value of the model. */
    ghost function Current(): (st: State)
      reads u, v, p, s, m, newu, newv, newm
      ensures Shaped() ==> st.WellFormed()
      ensures Valid() ==> st.Valid()
      ensures st.nx == numCellsX && st.ny == numCellsY
    {
      State(numCellsX, numCellsY, Snap(u), Snap(v), Snap(p), Snap(s), Snap(m), Snap(newu), Snap(newv), Snap(newm))
    }

    /**
     * The constructor: zero fields, a closed box with the circular obstacle of
     * radius 0.2 * min(nx, ny) around (nx/4, ny/2), and 0.1 units of smoke in
     * the strip SetLeftSmoke seeds in column 0. The density and
     * over-relaxation arguments are ignored, as in the source; the grid
     * spacing must be the 1.0 every caller passes.
     */
    constructor(numCellsX: nat, numCellsY: nat, density: real, gridSpacing: real, overRelaxation: real)
      requires numCellsX >= 2 && numCellsY >= 1 && gridSpacing == GridSpacing
      ensures Valid() && this.numCellsX == numCellsX && this.numCellsY == numCellsY
      ensures fresh(u) && fresh(v) && fresh(p) && fresh(s) && fresh(m) && fresh(newu) && fresh(newv) && fresh(newm)
      ensures flowRate == 1000.0
      ensures forall i, j :: 0 <= i < numCellsX && 0 <= j < numCellsY ==>
        s[i, j] == if IsEdge(numCellsX, numCellsY, i, j) || InCircle(i, j, numCellsX / 4, numCellsY / 2, ObstacleRadius(numCellsX, numCellsY))
                   then 0.0 else 1.0
      ensures forall i, j :: 0 <= i < numCellsX && 0 <= j < numCellsY ==>
        && m[i, j] == (if i == 0 && SmokeStrip(numCellsY).0 <= j < SmokeStrip(numCellsY).1 then 0.1 else 0.0)
        && newm[i, j] == m[i, j]
      ensures forall i, j :: 0 <= i < numCellsX && 0 <= j < numCellsY ==>
        u[i, j] == 0.0 && v[i, j] == 0.0 && p[i, j] == 0.0 && newu[i, j] == 0.0 && newv[i, j] == 0.0
    {
      this.numCellsX := numCellsX;
      this.numCellsY := numCellsY;
      u := new real[numCellsX, numCellsY]((i, j) => 0.0);
      v := new real[numCellsX, numCellsY]((i, j) => 0.0);
      newu := new real[numCellsX, numCellsY]((i, j) => 0.0);
      newv := new real[numCellsX, numCellsY]((i, j) => 0.0);
      p := new real[numCellsX, numCellsY]((i, j) => 0.0);
      s := new real[numCellsX, numCellsY]((i, j) => 0.0);
      m := new real[numCellsX, numCellsY]((i, j) => 0.0);
      newm := new real[numCellsX, numCellsY]((i, j) => 0.0);
      flowRate := 1000.0;
      new;
      assert Shaped();
      Populate();
    }

    /**
     * The rest of the constructor, once the arrays exist: the closed box,
     * the obstacle and the smoke strip.
     */
    method Populate()
      requires Shaped()
      modifies s, m, newm
      ensures Valid()
      ensures forall i, j :: 0 <= i < numCellsX && 0 <= j < numCellsY ==>
        s[i, j] == if IsEdge(numCellsX, numCellsY, i, j) || InCircle(i, j, numCellsX / 4, numCellsY / 2, ObstacleRadius(numCellsX, numCellsY))
                   then 0.0 else 1.0
      ensures forall i, j :: 0 <= i < numCellsX && 0 <= j < numCellsY ==>
        && m[i, j] == (if i == 0 && SmokeStrip(numCellsY).0 <= j < SmokeStrip(numCellsY).1 then 0.1 else old(m[i, j]))
        && newm[i, j] == (if i == 0 && SmokeStrip(numCellsY).0 <= j < SmokeStrip(numCellsY).1 then 0.1 else old(newm[i, j]))
    {
      InitAsContainedBox();
      var size := numCellsX;
      if size > numCellsY {
        size := numCellsY;
      }
      ObstacleFits(numCellsX, numCellsY);
      BlockCircle(numCellsX / 4, numCellsY / 2, size as real * 0.2);
      SetLeftSmoke(0.1);
    }

    /** InitAsContainedBox: every border cell solid (0.0), every other cell fluid (1.0). */
    method InitAsContainedBox()
      requires Shaped()
      modifies s
      ensures Valid()
      ensures forall i, j :: 0 <= i < numCellsX && 0 <= j < numCellsY ==>
        s[i, j] == if IsEdge(numCellsX, numCellsY, i, j) then 0.0 else 1.0
    {
      var y := 0;
      while y < numCellsY
        invariant 0 <= y <= numCellsY
        invariant forall i, j :: 0 <= i < numCellsX && 0 <= j < y ==>
          s[i, j] == if IsEdge(numCellsX, numCellsY, i, j) then 0.0 else 1.0
      {
        var x := 0;
        while x < numCellsX
          invariant 0 <= x <= numCellsX
          invariant forall i, j :: 0 <= i < numCellsX && 0 <= j < y ==>
            s[i, j] == if IsEdge(numCellsX, numCellsY, i, j) then 0.0 else 1.0
          invariant forall i :: 0 <= i < x ==> s[i, y] == if IsEdge(numCellsX, numCellsY, i, y) then 0.0 else 1.0
        {
          s[x, y] := if IsEdge(numCellsX, numCellsY, x, y) then 0.0 else 1.0;
          x := x + 1;
        }
        y := y + 1;
      }
    }

    /**
     * BlockCircle: make solid every cell strictly inside the circle of the
     * given radius around (x, y), and leave every other cell as it was.
     * Only zeros are written, so the mask stays a closed box.
     */
    method BlockCircle(x: int, y: int, radius: real)
      requires Valid() && CircleInGrid(numCellsX, numCellsY, x, y, radius)
      modifies s
      ensures Valid()
      ensures forall i, j :: 0 <= i < numCellsX && 0 <= j < numCellsY ==>
        s[i, j] == if InCircle(i, j, x, y, radius) then 0.0 else old(s[i, j])
    {
      // (int)radius truncates toward zero
      var fl := if radius >= 0.0 then radius.Floor else -((-radius).Floor);
      var j := y - fl;
      while (j as real) < y as real + radius
        invariant y - fl <= j && (j == y - fl || ((j - 1) as real) < y as real + radius)
        invariant Valid()
        invariant forall a, b :: 0 <= a < numCellsX && 0 <= b < numCellsY ==>
          s[a, b] == if y - fl <= b < j && x - fl <= a && (a as real) < x as real + radius && InCircle(a, b, x, y, radius)
                     then 0.0 else old(s[a, b])
        decreases y + radius.Floor + 1 - j
      {
        var i := x - fl;
        while (i as real) < x as real + radius
          invariant x - fl <= i && (i == x - fl || ((i - 1) as real) < x as real + radius)
          invariant Valid()
          invariant forall a, b :: 0 <= a < numCellsX && 0 <= b < numCellsY ==>
            s[a, b] == if ((y - fl <= b < j && x - fl <= a && (a as real) < x as real + radius) || (b == j && x - fl <= a < i))
                          && InCircle(a, b, x, y, radius)
                       then 0.0 else old(s[a, b])
          decreases x + radius.Floor + 1 - i
        {
          if InCircle(i, j, x, y, radius) {
            s[i, j] := 0.0;
          }
          i := i + 1;
        }
        j := j + 1;
      }
      forall a, b | 0 <= a < numCellsX && 0 <= b < numCellsY && InCircle(a, b, x, y, radius)
        ensures y - fl <= b < j && x - fl <= a && (a as real) < x as real + radius
      {
        InCircleInLoops(a, b, x, y, radius);
      }
    }

    /** SetLeftSmoke: the given amount of smoke in column 0 of m and newm, on the rows of SmokeStrip. */
    method SetLeftSmoke(amount: real)
      requires Shaped()
      modifies m, newm
      ensures forall i, j :: 0 <= i < numCellsX && 0 <= j < numCellsY ==>
        m[i, j] == if i == 0 && SmokeStrip(numCellsY).0 <= j < SmokeStrip(numCellsY).1 then amount else old(m[i, j])
      ensures forall i, j :: 0 <= i < numCellsX && 0 <= j < numCellsY ==>
        newm[i, j] == if i == 0 && SmokeStrip(numCellsY).0 <= j < SmokeStrip(numCellsY).1 then amount else old(newm[i, j])
    {
      var strip := SmokeStrip(numCellsY);
      var y := strip.0;
      while y < strip.1
        invariant strip.0 <= y <= strip.1
        invariant forall i, j :: 0 <= i < numCellsX && 0 <= j < numCellsY ==>
          m[i, j] == if i == 0 && strip.0 <= j < y then amount else old(m[i, j])
        invariant forall i, j :: 0 <= i < numCellsX && 0 <= j < numCellsY ==>
          newm[i, j] == if i == 0 && strip.0 <= j < y then amount else old(newm[i, j])
      {
        m[0, y] := amount;
        newm[0, y] := amount;
        y := y + 1;
      }
    }

    /** SetLeftToRightFlow: the inflow faces of u set to the given rate, all other faces kept. */
    method SetLeftToRightFlow(rate: real)
      requires Shaped()
      modifies u
      ensures Snap(u) == Stepping.Inflow(old(Snap(u)), numCellsX, numCellsY, rate)
    {
      ghost var u0 := Snap(u);
      var y := 1;
      while y < numCellsY - 1
        invariant 1 <= y && (y == 1 || y <= numCellsY - 1)
        invariant forall i, j :: 0 <= i < numCellsX && 0 <= j < numCellsY ==>
          u[i, j] == if Stepping.InflowFace(numCellsX, numCellsY, i, j) && j < y then rate else u0[i][j]
      {
        u[0, y] := rate;
        u[1, y] := rate;
        u[numCellsX - 1, y] := rate;
        y := y + 1;
      }
      SnapIs(u, Stepping.Inflow(u0, numCellsX, numCellsY, rate));
    }

    /** UpdateVelocities: gravity on the v faces between two fluid cells, then the inflow at flowRate * dt. */
    method UpdateVelocities(dt: real)
      requires Valid()
      modifies u, v
      ensures Current() == Stepping.UpdateVelocities(old(Current()), dt, flowRate)
    {
      ghost var st0 := Current();
      var j := 1;
      while j < numCellsY
        invariant 1 <= j <= numCellsY
        invariant Snap(u) == st0.u
        invariant forall a, b :: 0 <= a < numCellsX && 0 <= b < numCellsY ==>
          v[a, b] == if b < j && Stepping.Falls(st0, a, b) then st0.v[a][b] + Gravity * dt else st0.v[a][b]
        modifies v
      {
        var i := 1;
        while i < numCellsX
          invariant 1 <= i <= numCellsX
          invariant forall a, b :: 0 <= a < numCellsX && 0 <= b < numCellsY ==>
            v[a, b] == if (b < j || (b == j && a < i)) && Stepping.Falls(st0, a, b) then st0.v[a][b] + Gravity * dt else st0.v[a][b]
          modifies v
        {
          if s[i, j] != 0.0 && s[i, j - 1] != 0.0 {
            v[i, j] := v[i, j] + Gravity * dt;
          }
          i := i + 1;
        }
        j := j + 1;
      }
      ghost var gv := Stepping.ApplyGravity(st0, dt);
      SnapIs(v, gv);
      var rate := flowRate * dt;
      assert Snap(u) == st0.u;
      SetLeftToRightFlow(rate);
      assert rate == flowRate * dt;
      assert Snap(v) == gv;
      assert Snap(u) == Stepping.Inflow(st0.u, numCellsX, numCellsY, rate);
      assert Snap(p) == st0.p && Snap(s) == st0.s && Snap(m) == st0.m;
      assert Snap(newu) == st0.newu && Snap(newv) == st0.newv && Snap(newm) == st0.newm;
      assert Current() == st0.(v := gv, u := Stepping.Inflow(st0.u, numCellsX, numCellsY, rate));
    }

    /**
     * SolveCompressibility: one Gauss-Seidel sweep over the interior cells,
     * row by row, each cell relaxed in place and seeing the updates of the
     * cells before it.
     */
    method SolveCompressibility(dt: real)
      requires Shaped() && dt > 0.0
      modifies u, v, p
      ensures Current() == Projection.Sweep(old(Current()), dt)
    {
      ghost var st0 := Current();
      SweepCells(u, v, p, s, dt, st0);
      assert Snap(m) == st0.m && Snap(newu) == st0.newu && Snap(newv) == st0.newv && Snap(newm) == st0.newm;
    }

    /** IterativelySolveCompressibility: clear the pressure, then NumIterations sweeps in sequence. */
    method IterativelySolveCompressibility(dt: real)
      requires Shaped() && dt > 0.0
      modifies u, v, p
      ensures Current() == Projection.SolveIncompressibility(old(Current()), dt)
    {
      ghost var start := Current().(p := ZeroGrid(numCellsX, numCellsY));
      var j := 0;
      while j < numCellsY
        invariant 0 <= j <= numCellsY
        invariant forall a, b :: 0 <= a < numCellsX && 0 <= b < j ==> p[a, b] == 0.0
        modifies p
      {
        var i := 0;
        while i < numCellsX
          invariant 0 <= i <= numCellsX
          invariant forall a, b :: 0 <= a < numCellsX && 0 <= b < j ==> p[a, b] == 0.0
          invariant forall a :: 0 <= a < i ==> p[a, j] == 0.0
          modifies p
        {
          p[i, j] := 0.0;
          i := i + 1;
        }
        j := j + 1;
      }
      SnapIs(p, ZeroGrid(numCellsX, numCellsY));
      var it := 0;
      while it < NumIterations
        invariant 0 <= it <= NumIterations
        invariant Current() == Projection.Iterate(start, it, dt)
      {
        SolveCompressibility(dt);
        it := it + 1;
      }
    }

    /** CopyArrays: columns 0..nx-2 and rows 0..ny-2 of `from` copied into `to`; the last column and row of `to` kept. */
    method CopyArrays(from: array2<real>, to: array2<real>)
      requires Shaped() && Sized(from) && Sized(to)
      modifies to
      ensures Snap(to) == Advection.CopyInterior(old(Snap(from)), old(Snap(to)), numCellsX, numCellsY)
    {
      ghost var f0, t0 := Snap(from), Snap(to);
      var j := 0;
      while j < numCellsY - 1
        invariant 0 <= j && (j == 0 || j <= numCellsY - 1)
        invariant forall a, b :: 0 <= a < numCellsX && 0 <= b < numCellsY ==>
          to[a, b] == if a < numCellsX - 1 && b < j then f0[a][b] else t0[a][b]
        invariant forall a, b :: 0 <= a < numCellsX && 0 <= b < numCellsY && !(a < numCellsX - 1 && b < j) ==>
          from[a, b] == f0[a][b]
      {
        var i := 0;
        while i < numCellsX - 1
          invariant 0 <= i <= numCellsX - 1
          invariant forall a, b :: 0 <= a < numCellsX && 0 <= b < numCellsY ==>
            to[a, b] == if a < numCellsX - 1 && (b < j || (b == j && a < i)) then f0[a][b] else t0[a][b]
          invariant forall a, b :: 0 <= a < numCellsX && 0 <= b < numCellsY && !(a < numCellsX - 1 && (b < j || (b == j && a < i))) ==>
            from[a, b] == f0[a][b]
        {
          to[i, j] := from[i, j];
          i := i + 1;
        }
        j := j + 1;
      }
      SnapIs(to, Advection.CopyInterior(f0, t0, numCellsX, numCellsY));
    }

    /**
     * sampleField: the bilinear sampler over u, v or m, reading the arrays as
     * they are; it is Sampling.Sample over their contents.
     */
    function SampleField(x: real, y: real, field: Field): (r: real)
      requires Shaped()
      reads u, v, m
      ensures r == Sample(Snap(match field case UField => u case VField => v case SField => m),
                          numCellsX, numCellsY, x, y, field)
    {
      var f := match field case UField => u case VField => v case SField => m;
      var st := StencilAt(numCellsX, numCellsY, x, y, field);
      Blend(f[st.x0, st.y0], f[st.x1, st.y0], f[st.x1, st.y1], f[st.x0, st.y1], st.tx, st.ty)
    }

    /** The arrays u, v, m and s hold the fields of st0. */
    ghost predicate Holds(st0: State)
      reads u, v, m, s
    {
      && Shaped() && st0.Valid() && st0.nx == numCellsX && st0.ny == numCellsY
      && Snap(u) == st0.u && Snap(v) == st0.v && Snap(m) == st0.m && Snap(s) == st0.s
    }

    /** The u velocity found at the departure point of face (i, j), read from the arrays. */
    method AdvectedUAt(i: int, j: int, dt: real, ghost st0: State, ghost tu: Grid, ghost tv: Grid) returns (r: real)
      requires Holds(st0) && Advection.AdvectsU(st0, i, j) && VelocityTargets(st0, tu, tv, dt)
      ensures r == tu[i][j]
    {
      st0.FluidIsInterior(i, j);
      var vprime := (v[i, j] + v[i, j + 1] + v[i + 1, j] + v[i + 1, j + 1]) / 4.0;
      var x := Advection.Trace(i as real * GridSpacing, u[i, j], dt);
      var y := Advection.Trace(j as real * GridSpacing + GridSpacing / 2.0, vprime, dt);
      ghost var pos := Advection.UDeparture(st0, i, j, dt);
      assert u[i, j] == st0.u[i][j];
      assert vprime == (st0.v[i][j] + st0.v[i][j + 1] + st0.v[i + 1][j] + st0.v[i + 1][j + 1]) / 4.0;
      assert x == pos.0 && y == pos.1;
      r := SampleField(x, y, UField);
      assert r == Advection.AdvectedU(st0, i, j, dt);
    }

    /** The v velocity found at the departure point of face (i, j), read from the arrays. */
    method AdvectedVAt(i: int, j: int, dt: real, ghost st0: State, ghost tu: Grid, ghost tv: Grid) returns (r: real)
      requires Holds(st0) && Advection.AdvectsV(st0, i, j) && VelocityTargets(st0, tu, tv, dt)
      ensures r == tv[i][j]
    {
      st0.FluidIsInterior(i, j);
      var uprime := (u[i, j] + u[i, j + 1] + u[i + 1, j] + u[i + 1, j + 1]) / 4.0;
      var x := Advection.Trace(i as real * GridSpacing + GridSpacing / 2.0, uprime, dt);
      var y := Advection.Trace(j as real * GridSpacing, v[i, j], dt);
      ghost var pos := Advection.VDeparture(st0, i, j, dt);
      assert uprime == (st0.u[i][j] + st0.u[i][j + 1] + st0.u[i + 1][j] + st0.u[i + 1][j + 1]) / 4.0;
      assert x == pos.0 && y == pos.1;
      r := SampleField(x, y, VField);
      assert r == Advection.AdvectedV(st0, i, j, dt);
    }

    /**
     * The u half of one iteration of the loop of AdvectVelocities: face (i, j)
     * of newu gets the sampled velocity when both cells beside it are fluid
     * and it is not in the last row.
     */
    method AdvectFaceU(i: nat, j: nat, dt: real, ghost st0: State, ghost tu: Grid, ghost tv: Grid, ghost nu0: Grid)
      requires Holds(st0) && VelocityTargets(st0, tu, tv, dt) && 1 <= i < numCellsX && 1 <= j < numCellsY
      requires nu0 == Advection.CopyInterior(st0.u, st0.newu, numCellsX, numCellsY)
      requires Snap(newu) == Visited(tu, nu0, numCellsX, numCellsY, i, j)
      modifies newu
      ensures Snap(newu) == Visited(tu, nu0, numCellsX, numCellsY, i + 1, j)
    {
      if s[i, j] != 0.0 && s[i - 1, j] != 0.0 && j < numCellsY - 1 {
        ghost var before := Snap(newu);
        newu[i, j] := AdvectedUAt(i, j, dt, st0, tu, tv);
        SnapIs(newu, Update(before, i, j, tu[i][j]));
        VisitedNext(tu, nu0, numCellsX, numCellsY, i, j);
      } else {
        VisitedSkip(tu, nu0, numCellsX, numCellsY, i, j);
      }
    }

    /**
     * The v half of one iteration of the loop of AdvectVelocities: face (i, j)
     * of newv gets the sampled velocity when both cells beside it are fluid
     * and it is not in the last column.
     */
    method AdvectFaceV(i: nat, j: nat, dt: real, ghost st0: State, ghost tu: Grid, ghost tv: Grid, ghost nv0: Grid)
      requires Holds(st0) && VelocityTargets(st0, tu, tv, dt) && 1 <= i < numCellsX && 1 <= j < numCellsY
      requires nv0 == Advection.CopyInterior(st0.v, st0.newv, numCellsX, numCellsY)
      requires Snap(newv) == Visited(tv, nv0, numCellsX, numCellsY, i, j)
      modifies newv
      ensures Snap(newv) == Visited(tv, nv0, numCellsX, numCellsY, i + 1, j)
    {
      if s[i, j] != 0.0 && s[i, j - 1] != 0.0 && i < numCellsX - 1 {
        ghost var before := Snap(newv);
        newv[i, j] := AdvectedVAt(i, j, dt, st0, tu, tv);
        SnapIs(newv, Update(before, i, j, tv[i][j]));
        VisitedNext(tv, nv0, numCellsX, numCellsY, i, j);
      } else {
        VisitedSkip(tv, nv0, numCellsX, numCellsY, i, j);
      }
    }

    /** The loop nest of AdvectVelocities: every face from row 1 and column 1 on, row by row. */
    method AdvectFaces(dt: real, ghost st0: State, ghost tu: Grid, ghost tv: Grid, ghost nu0: Grid, ghost nv0: Grid)
      requires Holds(st0) && VelocityTargets(st0, tu, tv, dt)
      requires nu0 == Advection.CopyInterior(st0.u, st0.newu, numCellsX, numCellsY)
      requires nv0 == Advection.CopyInterior(st0.v, st0.newv, numCellsX, numCellsY)
      requires Snap(newu) == nu0 && Snap(newv) == nv0
      modifies newu, newv
      ensures Snap(newu) == Visited(tu, nu0, numCellsX, numCellsY, 1, numCellsY)
      ensures Snap(newv) == Visited(tv, nv0, numCellsX, numCellsY, 1, numCellsY)
    {
      VisitedStart(tu, nu0, numCellsX, numCellsY);
      VisitedStart(tv, nv0, numCellsX, numCellsY);
      var j := 1;
      while j < numCellsY
        invariant 1 <= j <= numCellsY
        invariant Holds(st0)
        invariant Snap(newu) == Visited(tu, nu0, numCellsX, numCellsY, 1, j)
        invariant Snap(newv) == Visited(tv, nv0, numCellsX, numCellsY, 1, j)
      {
        AdvectRow(j, dt, st0, tu, tv, nu0, nv0);
        j := j + 1;
      }
    }

    /** The inner loop of AdvectVelocities: the faces of row j, from column 1 on. */
    method AdvectRow(j: nat, dt: real, ghost st0: State, ghost tu: Grid, ghost tv: Grid, ghost nu0: Grid, ghost nv0: Grid)
      requires Holds(st0) && VelocityTargets(st0, tu, tv, dt) && 1 <= j < numCellsY
      requires nu0 == Advection.CopyInterior(st0.u, st0.newu, numCellsX, numCellsY)
      requires nv0 == Advection.CopyInterior(st0.v, st0.newv, numCellsX, numCellsY)
      requires Snap(newu) == Visited(tu, nu0, numCellsX, numCellsY, 1, j)
      requires Snap(newv) == Visited(tv, nv0, numCellsX, numCellsY, 1, j)
      modifies newu, newv
      ensures Snap(newu) == Visited(tu, nu0, numCellsX, numCellsY, 1, j + 1)
      ensures Snap(newv) == Visited(tv, nv0, numCellsX, numCellsY, 1, j + 1)
    {
      var i := 1;
      while i < numCellsX
        invariant 1 <= i <= numCellsX
        invariant Holds(st0)
        invariant Snap(newu) == Visited(tu, nu0, numCellsX, numCellsY, i, j)
        invariant Snap(newv) == Visited(tv, nv0, numCellsX, numCellsY, i, j)
      {
        AdvectFaceU(i, j, dt, st0, tu, tv, nu0);
        AdvectFaceV(i, j, dt, st0, tu, tv, nv0);
        i := i + 1;
      }
      VisitedRow(tu, nu0, numCellsX, numCellsY, j);
      VisitedRow(tv, nv0, numCellsX, numCellsY, j);
    }

    /**
     * AdvectVelocities: the faces between two fluid cells get the velocity
     * found at their departure point; the loop writes only newu and newv and
     * reads u and v as they were before the pass.
     */
    method AdvectVelocities(dt: real)
      requires Valid()
      modifies u, v, newu, newv
      ensures Current() == Advection.AdvectVelocities(old(Current()), dt)
    {
      ghost var st0 := Current();
      CopyArrays(u, newu);
      CopyArrays(v, newv);
      ghost var nu0, nv0 := Snap(newu), Snap(newv);
      VelocityTargetsExist(st0, dt);
      ghost var tu: Grid, tv: Grid :| VelocityTargets(st0, tu, tv, dt);
      assert VelocityTargets(st0, tu, tv, dt);
      assert IsGrid(tu, st0.nx, st0.ny);
      assert Holds(st0);
      AdvectFaces(dt, st0, tu, tv, nu0, nv0);
      VisitedEnd(tu, nu0, numCellsX, numCellsY);
      VisitedEnd(tv, nv0, numCellsX, numCellsY);
      VelocityTargetsUnique(st0, dt, tu, tv);
      CopyArrays(newu, u);
      CopyArrays(newv, v);
    }

    /** The smoke found at the departure point of cell (i, j), read from the arrays. */
    method AdvectedMAt(i: int, j: int, dt: real, ghost st0: State, ghost target: Grid) returns (r: real)
      requires Holds(st0) && Advection.AdvectsM(st0, i, j) && SmokeTarget(st0, target, dt)
      ensures r == target[i][j]
    {
      var cu := (u[i, j] + u[i + 1, j]) * 0.5;
      var cv := (v[i, j] + v[i, j + 1]) * 0.5;
      var x := Advection.Trace(i as real * GridSpacing + GridSpacing / 2.0, cu, dt);
      var y := Advection.Trace(j as real * GridSpacing + GridSpacing / 2.0, cv, dt);
      ghost var pos := Advection.SmokeDeparture(st0, i, j, dt);
      assert cu == (st0.u[i][j] + st0.u[i + 1][j]) * 0.5 && cv == (st0.v[i][j] + st0.v[i][j + 1]) * 0.5;
      assert x == pos.0 && y == pos.1;
      r := SampleField(x, y, SField);
      assert r == Advection.AdvectedM(st0, i, j, dt);
    }

    /** The inner loop of AdvectSmoke: the cells of row j but the last. */
    method AdvectSmokeRow(j: int, dt: real, ghost st0: State, ghost target: Grid, ghost nm0: Grid)
      requires Holds(st0) && SmokeTarget(st0, target, dt) && 0 <= j < numCellsY - 1
      requires nm0 == Advection.CopyInterior(st0.m, st0.newm, numCellsX, numCellsY)
      requires forall a, b :: 0 <= a < numCellsX && 0 <= b < numCellsY ==>
        newm[a, b] == if a < numCellsX - 1 && b < j then target[a][b] else nm0[a][b]
      modifies newm
      ensures forall a, b :: 0 <= a < numCellsX && 0 <= b < numCellsY ==>
        newm[a, b] == if a < numCellsX - 1 && b < j + 1 then target[a][b] else nm0[a][b]
    {
      var i := 0;
      while i < numCellsX - 1
        invariant 0 <= i <= numCellsX - 1
        invariant forall a, b :: 0 <= a < numCellsX && 0 <= b < numCellsY ==>
          newm[a, b] == if a < numCellsX - 1 && (b < j || (b == j && a < i)) then target[a][b] else nm0[a][b]
      {
        if s[i, j] != 0.0 {
          newm[i, j] := AdvectedMAt(i, j, dt, st0, target);
        } else {
          assert target[i][j] == nm0[i][j];
        }
        i := i + 1;
      }
    }

    /**
     * AdvectSmoke: every fluid cell off the last column and row gets the smoke
     * found at its departure point; the loop writes only newm and reads m as
     * it was before the pass.
     */
    method AdvectSmoke(dt: real)
      requires Valid()
      modifies m, newm
      ensures Current() == Advection.AdvectSmoke(old(Current()), dt)
    {
      ghost var st0 := Current();
      CopyArrays(m, newm);
      ghost var nm0 := Snap(newm);
      SmokeTargetExists(st0, dt);
      ghost var target: Grid :| SmokeTarget(st0, target, dt);
      assert SmokeTarget(st0, target, dt);
      var j := 0;
      while j < numCellsY - 1
        invariant 0 <= j && (j == 0 || j <= numCellsY - 1)
        invariant Holds(st0)
        invariant forall a, b :: 0 <= a < numCellsX && 0 <= b < numCellsY ==>
          newm[a, b] == if a < numCellsX - 1 && b < j then target[a][b] else nm0[a][b]
      {
        AdvectSmokeRow(j, dt, st0, target, nm0);
        j := j + 1;
      }
      SnapIs(newm, target);
      SmokeTargetUnique(st0, dt, target);
      CopyArrays(newm, m);
    }

    /**
     * StepSimulation: clamp the time step to MaxTimeStep, then the four passes
     * in order. The mask is not written, so the class invariant survives, and
     * the new state is Stepping.Step of the old one.
     */
    method StepSimulation(timeStep: real)
      requires Valid() && timeStep > 0.0
      modifies u, v, p, m, newu, newv, newm
      ensures Valid()
      ensures Current() == Stepping.Step(old(Current()), timeStep, flowRate)
    {
      var dt := timeStep;
      if dt > MaxTimeStep {
        dt := MaxTimeStep;
      }
      UpdateVelocities(dt);
      IterativelySolveCompressibility(dt);
      AdvectVelocities(dt);
      AdvectSmoke(dt);
    }

    /**
     * extrapolate (never called by StepSimulation): the border rows of u and
     * the border columns of v take the values of the adjacent inner row or
     * column. With only two rows (columns) the second write reads the value
     * the first one just wrote, so that edge keeps its own value.
     */
    method Extrapolate()
      requires Shaped() && numCellsY >= 2
      modifies u, v
      ensures forall i, j :: 0 <= i < numCellsX && 0 <= j < numCellsY ==>
        u[i, j] == if j == 0 then old(u[i, 1])
                   else if j == numCellsY - 1 && numCellsY > 2 then old(u[i, numCellsY - 2])
                   else old(u[i, j])
      ensures forall i, j :: 0 <= i < numCellsX && 0 <= j < numCellsY ==>
        v[i, j] == if i == 0 then old(v[1, j])
                   else if i == numCellsX - 1 && numCellsX > 2 then old(v[numCellsX - 2, j])
                   else old(v[i, j])
    {
      var i := 0;
      while i < numCellsX
        invariant 0 <= i <= numCellsX
        invariant forall a, b :: 0 <= a < numCellsX && 0 <= b < numCellsY ==>
          u[a, b] == if a < i && b == 0 then old(u[a, 1])
                     else if a < i && b == numCellsY - 1 && numCellsY > 2 then old(u[a, numCellsY - 2])
                     else old(u[a, b])
        modifies u
      {
        u[i, 0] := u[i, 1];
        u[i, numCellsY - 1] := u[i, numCellsY - 2];
        i := i + 1;
      }
      var j := 0;
      while j < numCellsY
        invariant 0 <= j <= numCellsY
        invariant forall a, b :: 0 <= a < numCellsX && 0 <= b < numCellsY ==>
          v[a, b] == if b < j && a == 0 then old(v[1, b])
                     else if b < j && a == numCellsX - 1 && numCellsX > 2 then old(v[numCellsX - 2, b])
                     else old(v[a, b])
        modifies v
      {
        v[0, j] := v[1, j];
        v[numCellsX - 1, j] := v[numCellsX - 2, j];
        j := j + 1;
      }
    }
  }
}
