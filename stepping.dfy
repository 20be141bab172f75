/**
 * One time step of Simulation.cs on values: the time-step clamp, the
 * forcing pass (gravity and the left-to-right inflow) and the four passes of
 * StepSimulation in their fixed order, with what a whole step preserves.
 */
module Stepping {
  import opened FluidState
  import opened Sampling
  import opened Projection
  import opened Advection

  /** StepSimulation simulates at most MaxTimeStep per call. */
  function ClampTimeStep(timeStep: real): (dt: real)
    ensures dt <= MaxTimeStep && dt <= timeStep
    ensures dt == timeStep || dt == MaxTimeStep
    ensures timeStep > 0.0 ==> dt > 0.0
  {
    if timeStep > MaxTimeStep then MaxTimeStep else timeStep
  }

  /** Clamping is the identity up to MaxTimeStep, so clamping twice is clamping once. */
  lemma ClampTimeStepIdempotent(timeStep: real)
    ensures ClampTimeStep(ClampTimeStep(timeStep)) == ClampTimeStep(timeStep)
    ensures timeStep <= MaxTimeStep <==> ClampTimeStep(timeStep) == timeStep
  {
  }

  // ---------------------------------------------------------------------
  // UpdateVelocities and SetLeftToRightFlow

  /** The v faces gravity acts on: both cells beside the face are fluid. */
  predicate Falls(st: State, i: int, j: int)
    requires st.WellFormed()
  {
    1 <= i < st.nx && 1 <= j < st.ny && st.s[i][j] != 0.0 && st.s[i][j - 1] != 0.0
  }

  /** The u faces SetLeftToRightFlow writes: columns 0, 1 and nx-1 in rows 1..ny-2. */
  predicate InflowFace(nx: int, ny: int, i: int, j: int) {
    (i == 0 || i == 1 || i == nx - 1) && 1 <= j < ny - 1
  }

  /** SetLeftToRightFlow: the inflow faces set to rate, every other face of u kept. */
  function Inflow(u: Grid, nx: nat, ny: nat, rate: real): (r: Grid)
    requires IsGrid(u, nx, ny)
    ensures IsGrid(r, nx, ny)
  {
    seq(nx, i requires 0 <= i < nx =>
      seq(ny, j requires 0 <= j < ny => if InflowFace(nx, ny, i, j) then rate else u[i][j]))
  }

  /** The gravity loop of UpdateVelocities. */
  function ApplyGravity(st: State, dt: real): (r: Grid)
    requires st.WellFormed()
    ensures IsGrid(r, st.nx, st.ny)
  {
    seq(st.nx, i requires 0 <= i < st.nx =>
      seq(st.ny, j requires 0 <= j < st.ny => if Falls(st, i, j) then st.v[i][j] + Gravity * dt else st.v[i][j]))
  }

  /** UpdateVelocities: gravity on v, then the inflow on u at flowRate * dt. */
  function UpdateVelocities(st: State, dt: real, flowRate: real): (r: State)
    requires st.WellFormed()
    ensures r.WellFormed() && r == st.(u := r.u, v := r.v)
  {
    st.(v := ApplyGravity(st, dt), u := Inflow(st.u, st.nx, st.ny, flowRate * dt))
  }

  /**
   * UpdateVelocities changes v by exactly Gravity * dt where both cells
   * beside the face are fluid, and for a positive dt nowhere else; it sets
   * the inflow faces of u to flowRate * dt and changes no other face of u.
   */
  lemma UpdateVelocitiesFaces(st: State, dt: real, flowRate: real, i: int, j: int)
    requires st.WellFormed() && dt > 0.0 && 0 <= i < st.nx && 0 <= j < st.ny
    ensures var r := UpdateVelocities(st, dt, flowRate);
      && (Falls(st, i, j) ==> r.v[i][j] == st.v[i][j] + Gravity * dt)
      && (r.v[i][j] != st.v[i][j] <==> Falls(st, i, j))
      && (InflowFace(st.nx, st.ny, i, j) ==> r.u[i][j] == flowRate * dt)
      && (!InflowFace(st.nx, st.ny, i, j) ==> r.u[i][j] == st.u[i][j])
  {
    var r := UpdateVelocities(st, dt, flowRate);
    if Falls(st, i, j) {
      assert Gravity * dt < 0.0;
    }
  }

  // ---------------------------------------------------------------------
  // StepSimulation

  /** StepSimulation: clamp the time step, then the four passes in order. */
  function Step(st: State, timeStep: real, flowRate: real): (r: State)
    requires st.Valid() && timeStep > 0.0
    ensures r.Valid() && r.nx == st.nx && r.ny == st.ny
  {
    var dt := ClampTimeStep(timeStep);
    var forced := UpdateVelocities(st, dt, flowRate);
    var projected := SolveIncompressibility(forced, dt);
    var moved := AdvectVelocities(projected, dt);
    AdvectSmoke(moved, dt)
  }

  /** No pass of a step writes the mask, so the mask and the closed box survive every step. */
  lemma StepKeepsMask(st: State, timeStep: real, flowRate: real)
    requires st.Valid() && timeStep > 0.0
    ensures Step(st, timeStep, flowRate).s == st.s
    ensures ClosedBox(Step(st, timeStep, flowRate).s, st.nx, st.ny)
  {
    var dt := ClampTimeStep(timeStep);
    var forced := UpdateVelocities(st, dt, flowRate);
    var projected := SolveIncompressibility(forced, dt);
    assert projected.s == st.s;
  }

  /**
   * After a step the inflow faces (u in columns 0, 1 and nx-1, rows 1..ny-2)
   * hold flowRate times the clamped time step: the projection never writes
   * them and the velocity advection skips them, because they open onto a
   * solid border cell.
   */
  lemma StepInflow(st: State, timeStep: real, flowRate: real, i: int, j: int)
    requires st.Valid() && timeStep > 0.0
    requires 0 <= i < st.nx && InflowFace(st.nx, st.ny, i, j)
    ensures Step(st, timeStep, flowRate).u[i][j] == flowRate * ClampTimeStep(timeStep)
  {
    var dt := ClampTimeStep(timeStep);
    var projected := SolveIncompressibility(UpdateVelocities(st, dt, flowRate), dt);
    ProjectedInflow(st, dt, flowRate, i, j);
    AdvectedInflow(projected, dt, i, j);
  }

  /** The forcing pass sets an inflow face and the projection leaves it alone. */
  lemma ProjectedInflow(st: State, dt: real, flowRate: real, i: int, j: int)
    requires st.Valid() && dt > 0.0
    requires 0 <= i < st.nx && InflowFace(st.nx, st.ny, i, j)
    ensures SolveIncompressibility(UpdateVelocities(st, dt, flowRate), dt).u[i][j] == flowRate * dt
  {
    UpdateVelocitiesFaces(st, dt, flowRate, i, j);
    SolveKeepsBorder(UpdateVelocities(st, dt, flowRate), dt);
  }

  /** Neither advection pass changes an inflow face. */
  lemma AdvectedInflow(st: State, dt: real, i: int, j: int)
    requires st.Valid() && 0 <= i < st.nx && InflowFace(st.nx, st.ny, i, j)
    ensures AdvectSmoke(AdvectVelocities(st, dt), dt).u[i][j] == st.u[i][j]
  {
    AdvectVelocitiesFaces(st, dt, i, j);
    InflowFaceNotAdvected(st, i, j);
  }

  /** An inflow face opens onto a solid border cell, so velocity advection skips it. */
  lemma InflowFaceNotAdvected(st: State, i: int, j: int)
    requires st.Valid() && 0 <= i < st.nx && InflowFace(st.nx, st.ny, i, j)
    ensures !AdvectsU(st, i, j)
  {
    if i == 1 {
      assert IsEdge(st.nx, st.ny, 0, j);
    } else if i == st.nx - 1 {
      assert IsEdge(st.nx, st.ny, i, j);
    }
  }

  /** After a step the pressure on the border of the grid is 0. */
  lemma StepPressureBorder(st: State, timeStep: real, flowRate: real, i: int, j: int)
    requires st.Valid() && timeStep > 0.0
    requires 0 <= i < st.nx && 0 <= j < st.ny && (i == 0 || i == st.nx - 1 || j == 0 || j == st.ny - 1)
    ensures Step(st, timeStep, flowRate).p[i][j] == 0.0
  {
    var dt := ClampTimeStep(timeStep);
    var forced := UpdateVelocities(st, dt, flowRate);
    SolveKeepsBorder(forced, dt);
  }

  /**
   * A step never takes the smoke outside the range it had before: if every
   * m lies in [lo, hi], so does every m after the step.
   */
  lemma StepSmokeWithin(st: State, timeStep: real, flowRate: real, lo: real, hi: real)
    requires st.Valid() && timeStep > 0.0
    requires forall a, b :: 0 <= a < st.nx && 0 <= b < st.ny ==> lo <= st.m[a][b] <= hi
    ensures forall a, b :: 0 <= a < st.nx && 0 <= b < st.ny ==> lo <= Step(st, timeStep, flowRate).m[a][b] <= hi
  {
    var dt := ClampTimeStep(timeStep);
    var forced := UpdateVelocities(st, dt, flowRate);
    var projected := SolveIncompressibility(forced, dt);
    var moved := AdvectVelocities(projected, dt);
    assert moved.m == st.m;
    AdvectSmokeWithin(moved, dt, lo, hi);
  }

  /**
   * A step keeps the smoke of every solid cell and of the last column and
   * row; in particular the smoke seeded in column 0 persists from step to step.
   */
  lemma StepSmokeSolid(st: State, timeStep: real, flowRate: real, i: int, j: int)
    requires st.Valid() && timeStep > 0.0
    requires 0 <= i < st.nx && 0 <= j < st.ny && (st.s[i][j] == 0.0 || i == st.nx - 1 || j == st.ny - 1)
    ensures Step(st, timeStep, flowRate).m[i][j] == st.m[i][j]
  {
    var dt := ClampTimeStep(timeStep);
    var forced := UpdateVelocities(st, dt, flowRate);
    var projected := SolveIncompressibility(forced, dt);
    var moved := AdvectVelocities(projected, dt);
    assert moved.m == st.m && moved.s == st.s;
    AdvectSmokeCells(moved, dt, i, j);
  }
}
