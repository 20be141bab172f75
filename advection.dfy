/**
 * The semi-Lagrangian advection passes of Simulation.cs on values:
 * CopyArrays, AdvectVelocities and AdvectSmoke. Each pass first copies a
 * field into its scratch buffer, then writes the scratch buffer only, reading
 * the field as it was before the pass, and finally copies the scratch buffer
 * back. CopyArrays skips the last column and the last row.
 */
module Advection {
  import opened FluidState
  import opened Sampling

  /**
   * CopyArrays(from, to): the entries of columns 0..nx-2 and rows 0..ny-2
   * come from `from`; the last column and the last row keep the values of `to`.
   */
  function CopyInterior(from: Grid, to: Grid, nx: nat, ny: nat): (r: Grid)
    requires IsGrid(from, nx, ny) && IsGrid(to, nx, ny)
    ensures IsGrid(r, nx, ny)
    ensures forall i, j :: 0 <= i < nx && 0 <= j < ny ==>
      r[i][j] == if i < nx - 1 && j < ny - 1 then from[i][j] else to[i][j]
  {
    seq(nx, i requires 0 <= i < nx =>
      seq(ny, j requires 0 <= j < ny => if i < nx - 1 && j < ny - 1 then from[i][j] else to[i][j]))
  }

  /** Copying a grid's copy back onto the grid gives the grid back. */
  lemma CopyInteriorRoundTrip(g: Grid, scratch: Grid, nx: nat, ny: nat)
    requires IsGrid(g, nx, ny) && IsGrid(scratch, nx, ny)
    ensures CopyInterior(CopyInterior(g, scratch, nx, ny), g, nx, ny) == g
  {
    GridExt(CopyInterior(CopyInterior(g, scratch, nx, ny), g, nx, ny), g, nx, ny);
  }

  // ---------------------------------------------------------------------
  // AdvectVelocities

  /** The u faces AdvectVelocities recomputes: both cells beside the face are fluid. */
  predicate AdvectsU(st: State, i: int, j: int)
    requires st.WellFormed()
  {
    1 <= i < st.nx && 1 <= j < st.ny && st.s[i][j] != 0.0 && st.s[i - 1][j] != 0.0 && j < st.ny - 1
  }

  /** The v faces AdvectVelocities recomputes: both cells beside the face are fluid. */
  predicate AdvectsV(st: State, i: int, j: int)
    requires st.WellFormed()
  {
    1 <= i < st.nx && 1 <= j < st.ny && st.s[i][j] != 0.0 && st.s[i][j - 1] != 0.0 && i < st.nx - 1
  }

  /** The coordinate x0 traced back over a time step dt against the velocity vel. */
  function Trace(x0: real, vel: real, dt: real): real {
    x0 - dt * vel
  }

  /**
   * The departure point of u face (i, j): the face moved back over dt along
   * its velocity, whose v component is the average of four v faces.
   */
  function UDeparture(st: State, i: int, j: int, dt: real): (real, real)
    requires st.WellFormed() && 0 <= i < st.nx - 1 && 0 <= j < st.ny - 1
  {
    var vprime := (st.v[i][j] + st.v[i][j + 1] + st.v[i + 1][j] + st.v[i + 1][j + 1]) / 4.0;
    (Trace(i as real * GridSpacing, st.u[i][j], dt), Trace(j as real * GridSpacing + GridSpacing / 2.0, vprime, dt))
  }

  /** The departure point of v face (i, j), symmetrically. */
  function VDeparture(st: State, i: int, j: int, dt: real): (real, real)
    requires st.WellFormed() && 0 <= i < st.nx - 1 && 0 <= j < st.ny - 1
  {
    var uprime := (st.u[i][j] + st.u[i][j + 1] + st.u[i + 1][j] + st.u[i + 1][j + 1]) / 4.0;
    (Trace(i as real * GridSpacing + GridSpacing / 2.0, uprime, dt), Trace(j as real * GridSpacing, st.v[i][j], dt))
  }

  /** The new u on face (i, j): u sampled at the face's departure point. */
  function AdvectedU(st: State, i: int, j: int, dt: real): real
    requires st.Valid() && AdvectsU(st, i, j)
  {
    st.FluidIsInterior(i, j);
    var pos := UDeparture(st, i, j, dt);
    Sample(st.u, st.nx, st.ny, pos.0, pos.1, UField)
  }

  /** The new v on face (i, j): v sampled at the face's departure point. */
  function AdvectedV(st: State, i: int, j: int, dt: real): real
    requires st.Valid() && AdvectsV(st, i, j)
  {
    st.FluidIsInterior(i, j);
    var pos := VDeparture(st, i, j, dt);
    Sample(st.v, st.nx, st.ny, pos.0, pos.1, VField)
  }

  /** The scratch buffer newu at the end of the loop of AdvectVelocities. */
  function AdvectedUGrid(st: State, dt: real): (g: Grid)
    requires st.Valid()
    ensures IsGrid(g, st.nx, st.ny)
  {
    var start := CopyInterior(st.u, st.newu, st.nx, st.ny);
    seq(st.nx, i requires 0 <= i < st.nx =>
      seq(st.ny, j requires 0 <= j < st.ny =>
        if AdvectsU(st, i, j) then AdvectedU(st, i, j, dt) else start[i][j]))
  }

  /** The scratch buffer newv at the end of the loop of AdvectVelocities. */
  function AdvectedVGrid(st: State, dt: real): (g: Grid)
    requires st.Valid()
    ensures IsGrid(g, st.nx, st.ny)
  {
    var start := CopyInterior(st.v, st.newv, st.nx, st.ny);
    seq(st.nx, i requires 0 <= i < st.nx =>
      seq(st.ny, j requires 0 <= j < st.ny =>
        if AdvectsV(st, i, j) then AdvectedV(st, i, j, dt) else start[i][j]))
  }

  /** AdvectVelocities: the new u and v, with the scratch buffers as the loop left them. */
  function AdvectVelocities(st: State, dt: real): (r: State)
    requires st.Valid()
    ensures r.Valid() && r == st.(u := r.u, v := r.v, newu := r.newu, newv := r.newv)
  {
    var nu := AdvectedUGrid(st, dt);
    var nv := AdvectedVGrid(st, dt);
    st.(u := CopyInterior(nu, st.u, st.nx, st.ny), v := CopyInterior(nv, st.v, st.nx, st.ny),
        newu := nu, newv := nv)
  }

  /**
   * Every face of u and v ends up either recomputed from the velocities
   * before the pass (where both adjacent cells are fluid) or unchanged: the
   * recomputation never sees a value written earlier in the same pass.
   */
  lemma AdvectVelocitiesFaces(st: State, dt: real, i: int, j: int)
    requires st.Valid() && 0 <= i < st.nx && 0 <= j < st.ny
    ensures AdvectVelocities(st, dt).u[i][j] == if AdvectsU(st, i, j) then AdvectedU(st, i, j, dt) else st.u[i][j]
    ensures AdvectVelocities(st, dt).v[i][j] == if AdvectsV(st, i, j) then AdvectedV(st, i, j, dt) else st.v[i][j]
  {
    if AdvectsU(st, i, j) || AdvectsV(st, i, j) {
      st.FluidIsInterior(i, j);
    }
  }

  // ---------------------------------------------------------------------
  // AdvectSmoke

  /** The cells AdvectSmoke recomputes: fluid cells outside the last column and row. */
  predicate AdvectsM(st: State, i: int, j: int)
    requires st.WellFormed()
  {
    0 <= i < st.nx - 1 && 0 <= j < st.ny - 1 && st.s[i][j] != 0.0
  }

  /** The departure point of cell (i, j): its centre moved back over dt along the cell-centre velocity. */
  function SmokeDeparture(st: State, i: int, j: int, dt: real): (real, real)
    requires st.WellFormed() && 0 <= i < st.nx - 1 && 0 <= j < st.ny - 1
  {
    var cu := (st.u[i][j] + st.u[i + 1][j]) * 0.5;
    var cv := (st.v[i][j] + st.v[i][j + 1]) * 0.5;
    (Trace(i as real * GridSpacing + GridSpacing / 2.0, cu, dt), Trace(j as real * GridSpacing + GridSpacing / 2.0, cv, dt))
  }

  /** The new smoke of cell (i, j): m sampled at the cell's departure point. */
  function AdvectedM(st: State, i: int, j: int, dt: real): real
    requires st.Valid() && AdvectsM(st, i, j)
  {
    var pos := SmokeDeparture(st, i, j, dt);
    Sample(st.m, st.nx, st.ny, pos.0, pos.1, SField)
  }

  /** The scratch buffer newm at the end of the loop of AdvectSmoke. */
  function AdvectedMGrid(st: State, dt: real): (g: Grid)
    requires st.Valid()
    ensures IsGrid(g, st.nx, st.ny)
  {
    var start := CopyInterior(st.m, st.newm, st.nx, st.ny);
    seq(st.nx, i requires 0 <= i < st.nx =>
      seq(st.ny, j requires 0 <= j < st.ny =>
        if AdvectsM(st, i, j) then AdvectedM(st, i, j, dt) else start[i][j]))
  }

  /** AdvectSmoke: the new m, with the scratch buffer as the loop left it. */
  function AdvectSmoke(st: State, dt: real): (r: State)
    requires st.Valid()
    ensures r.Valid() && r == st.(m := r.m, newm := r.newm)
  {
    var nm := AdvectedMGrid(st, dt);
    st.(m := CopyInterior(nm, st.m, st.nx, st.ny), newm := nm)
  }

  /**
   * Every smoke cell ends up recomputed (fluid cells off the last column and
   * row) or unchanged; in particular solid cells, such as the inflow column
   * 0, keep their smoke.
   */
  lemma AdvectSmokeCells(st: State, dt: real, i: int, j: int)
    requires st.Valid() && 0 <= i < st.nx && 0 <= j < st.ny
    ensures AdvectSmoke(st, dt).m[i][j] == if AdvectsM(st, i, j) then AdvectedM(st, i, j, dt) else st.m[i][j]
    ensures st.s[i][j] == 0.0 || i == st.nx - 1 || j == st.ny - 1 ==> AdvectSmoke(st, dt).m[i][j] == st.m[i][j]
  {
  }

  /**
   * Smoke advection never leaves the range of the smoke before the pass:
   * if every m lies in [lo, hi], so does every m afterwards.
   */
  lemma AdvectSmokeWithin(st: State, dt: real, lo: real, hi: real)
    requires st.Valid()
    requires forall i, j :: 0 <= i < st.nx && 0 <= j < st.ny ==> lo <= st.m[i][j] <= hi
    ensures forall i, j :: 0 <= i < st.nx && 0 <= j < st.ny ==> lo <= AdvectSmoke(st, dt).m[i][j] <= hi
  {
    forall i, j | 0 <= i < st.nx && 0 <= j < st.ny
      ensures lo <= AdvectSmoke(st, dt).m[i][j] <= hi
    {
      AdvectSmokeCells(st, dt, i, j);
      if AdvectsM(st, i, j) {
        AdvectedMWithin(st, dt, i, j, lo, hi);
      }
    }
  }

  /** One recomputed smoke value lies in the range of the smoke before the pass. */
  lemma AdvectedMWithin(st: State, dt: real, i: int, j: int, lo: real, hi: real)
    requires st.Valid() && AdvectsM(st, i, j)
    requires forall a, b :: 0 <= a < st.nx && 0 <= b < st.ny ==> lo <= st.m[a][b] <= hi
    ensures lo <= AdvectedM(st, i, j, dt) <= hi
  {
    var pos := SmokeDeparture(st, i, j, dt);
    SampleWithin(st.m, st.nx, st.ny, pos.0, pos.1, SField, lo, hi);
  }
}
