# EulerianFluidSim in Dafny

This project models the core of EulerianFluidSim in Dafny. EulerianFluidSim is a two-dimensional, grid-based (Eulerian) fluid simulation. The model has two parts.

**The simulation** (`Simulation`) holds its fields on a staggered MAC grid of `numCellsX` by `numCellsY` cells:
- `u`: horizontal velocity on the left face of each cell;
- `v`: vertical velocity on the bottom face of each cell;
- `p`: pressure;
- `s`: the solid/fluid mask (0 solid, 1 fluid);
- `m`: smoke density;
- `newu`, `newv`, `newm`: scratch buffers.

The constructor builds a closed box of solid border cells. It carves a circular obstacle into the box and seeds a strip of smoke in column 0.

One `StepSimulation` first clamps the time step to 0.033. It then runs four passes in order:
1. gravity on the vertical faces between fluid cells, and the left-to-right inflow;
2. ten over-relaxed Gauss–Seidel sweeps that push every interior cell towards zero divergence and accumulate the pressure;
3. semi-Lagrangian advection of the velocities through the bilinear sampler `sampleField`;
4. semi-Lagrangian advection of the smoke.

**The renderer** (`ColorSimRenderer`) turns the pressure and smoke fields into a 24-bit byte buffer with the rows flipped vertically. It has three modes:
- grey smoke;
- pressure as a hue from red to violet;
- smoke tinted by the pressure hue.

Each mode first finds the minimum, maximum and spread of the field it draws.

The model has two layers:
- **Value level.** `FluidState`, `Sampling`, `Projection`, `Advection`, `Stepping` and `Setup` describe each pass as a function from one `State` to the next, and prove what the passes promise: the closed box survives, border pressure is zero, the inflow faces hold their prescribed velocity, smoke stays within its previous range, and the sampler interpolates convexly and reproduces values at grid nodes.
- **Imperative level.** `FluidSimulation.Simulation` and `ColorRendering.ColorSimRenderer` are classes over arrays, with the source's loops. Each method is proved against the value level. For example, `StepSimulation` ensures `Current() == Stepping.Step(old(Current()), timeStep, flowRate)`. Each render method ensures that every pixel of `bits` holds the bytes of its cell.

Numbers:
- Floats are modelled as unbounded reals.
- The float-to-byte cast is `Floor` on values the proof shows to lie in [0, 255].
- The renderer's pixel and byte offsets are integers.

The renderer addresses the fields as flat arrays, with cell (i, j) at `i + j * numCellsX`. The model gives them to it as sequences in that layout.

## Model

| member | source | states |
|---|---|---|
| FluidState.ZeroGrid | EulerianFluidSim/Simulation.cs:43-51 | a freshly allocated field has the grid's extents and holds 0 everywhere |
| FluidState.IsEdge | EulerianFluidSim/Simulation.cs:83-86 | for cells of the grid, a cell is an edge cell exactly when it lies outside the interior [1, nx-2] x [1, ny-2] |
| FluidState.State.FluidIsInterior | EulerianFluidSim/Simulation.cs:76-86 | in a closed box every fluid cell is an interior cell |
| Sampling.Offset | EulerianFluidSim/Simulation.cs:523-535 | each field's sub-cell offset lies between 0 and half a cell on both axes |
| Sampling.Axis | EulerianFluidSim/Simulation.cs:520-543 | after clamping the position into [h, n], both stencil indices lie inside the grid, the upper is the lower plus one or both are the last cell, and the fraction lies in [0, 1] |
| Sampling.StencilAt | EulerianFluidSim/Simulation.cs:513-543 | the 2 x 2 stencil of any query point, for any field, lies inside the grid, with fractions in [0, 1] |
| Sampling.BlendProperties | EulerianFluidSim/Simulation.cs:545-551 | the bilinear blend lies between the smallest and largest corner value, reproduces a constant field, and returns the first corner at fraction (0, 0) |
| Sampling.SampleWithin | EulerianFluidSim/Simulation.cs:513-554 | a sample never leaves the range of the field it is taken from, wherever it is taken |
| Sampling.AxisAtNode | EulerianFluidSim/Simulation.cs:537-543 | querying an axis at a node shifted by the field offset yields that node with fraction 0 |
| Sampling.SampleAtNode | EulerianFluidSim/Simulation.cs:513-554 | sampling a field exactly at one of its own nodes inside the clamp box returns the stored value |
| Projection.RelaxCell | EulerianFluidSim/Simulation.cs:152-164 | relaxing one cell changes nothing but u, v and p and keeps the grid's extents |
| Projection.RelaxCellValues | EulerianFluidSim/Simulation.cs:157-164 | with a fluid neighbour, each of the four faces moves by its share d*w/sum of the over-relaxed divergence, and the pressure drops by d/sum times density*spacing/dt |
| Projection.RelaxCellEffect | EulerianFluidSim/Simulation.cs:152-164 | without a fluid neighbour nothing changes; otherwise the cell's divergence becomes (1 - 1.9) times what it was, only the cell's four faces and its pressure change, and a face towards a solid neighbour keeps its value |
| Projection.SharesSumToWhole | EulerianFluidSim/Simulation.cs:159-162 | the four face shares add up to the whole over-relaxed divergence |
| Projection.RelaxCellGrids | EulerianFluidSim/Simulation.cs:154-164 | relaxing a cell writes exactly the four face updates and the pressure update to whole grids; the mask is untouched |
| Projection.SweepRow | EulerianFluidSim/Simulation.cs:150-165 | relaxing a row of cells changes nothing but u, v and p |
| Projection.SweepRows | EulerianFluidSim/Simulation.cs:148-166 | relaxing rows one after the other changes nothing but u, v and p |
| Projection.Sweep | EulerianFluidSim/Simulation.cs:146-167 | one Gauss–Seidel sweep changes nothing but u, v and p |
| Projection.Iterate | EulerianFluidSim/Simulation.cs:142-143 | any number of sweeps changes nothing but u, v and p |
| Projection.SolveIncompressibility | EulerianFluidSim/Simulation.cs:136-144 | clearing the pressure and sweeping ten times changes nothing but u, v and p |
| Projection.KeepsFixedTrans | EulerianFluidSim/Simulation.cs:142-143 | keeping the fixed faces and the border pressure composes across successive relaxations |
| Projection.RelaxCellKeepsFixed | EulerianFluidSim/Simulation.cs:152-164 | relaxing a cell writes no face that opens onto a solid cell and no pressure outside the interior |
| Projection.SweepRowKeepsFixed | EulerianFluidSim/Simulation.cs:150-165 | the same for a whole row, by induction over the cells |
| Projection.SweepRowsKeepsFixed | EulerianFluidSim/Simulation.cs:148-166 | the same for successive rows, by induction over the rows |
| Projection.SweepKeepsFixed | EulerianFluidSim/Simulation.cs:146-167 | one sweep keeps the fixed faces, the border pressure and every other field |
| Projection.IterateKeepsFixed | EulerianFluidSim/Simulation.cs:142-143 | any number of sweeps keeps them, by induction over the iterations |
| Projection.BorderFacesFixed | EulerianFluidSim/Simulation.cs:76-86 | in a closed box the faces on the border, and the faces opening onto a solid border cell (u in column 1, v in row 1), are never written by a relaxation |
| Projection.SolveKeepsBorder | EulerianFluidSim/Simulation.cs:136-167 | after the pressure solve on a closed box the border pressure is 0, the border faces of u and v keep their values, and s, m and the scratch buffers are unchanged |
| Advection.CopyInteriorRoundTrip | EulerianFluidSim/Simulation.cs:381-388 | copying a field into a scratch buffer and copying the result back gives the field back |
| Advection.AdvectVelocities | EulerianFluidSim/Simulation.cs:318-353 | velocity advection keeps the mask a closed box and changes only u, v and their scratch buffers |
| Advection.AdvectVelocitiesFaces | EulerianFluidSim/Simulation.cs:324-352 | every face ends up either sampled at its departure point from the velocities before the pass (both cells beside it fluid) or unchanged; no face sees a value written in the same pass |
| Advection.AdvectSmoke | EulerianFluidSim/Simulation.cs:355-379 | smoke advection keeps the mask a closed box and changes only m and newm |
| Advection.AdvectSmokeCells | EulerianFluidSim/Simulation.cs:361-378 | every smoke cell is either recomputed (fluid, off the last column and row) or unchanged; solid cells and the last column and row keep their smoke |
| Advection.AdvectedMWithin | EulerianFluidSim/Simulation.cs:368-372 | one recomputed smoke value lies in the range of the smoke before the pass |
| Advection.AdvectSmokeWithin | EulerianFluidSim/Simulation.cs:355-379 | after smoke advection every cell lies in the range all cells had before the pass |
| Stepping.ClampTimeStep | EulerianFluidSim/Simulation.cs:112-113 | the simulated time step is never above 0.033 or above the requested one, is one of the two, and stays positive |
| Stepping.ClampTimeStepIdempotent | EulerianFluidSim/Simulation.cs:112-113 | clamping twice is clamping once, and a step up to 0.033 is left as it is |
| Stepping.UpdateVelocities | EulerianFluidSim/Simulation.cs:122-134 | the forcing pass changes only u and v |
| Stepping.UpdateVelocitiesFaces | EulerianFluidSim/Simulation.cs:122-134 | v changes by exactly gravity*dt on faces between two fluid cells and nowhere else; u is set to flowRate*dt on the faces of columns 0, 1 and nx-1 in rows 1..ny-2 and kept elsewhere |
| Stepping.Step | EulerianFluidSim/Simulation.cs:110-120 | a step keeps the state valid and its extents |
| Stepping.StepKeepsMask | EulerianFluidSim/Simulation.cs:110-120 | a step never changes the mask, so the closed box survives every step |
| Stepping.StepInflow | EulerianFluidSim/Simulation.cs:88-96 | after a step the inflow faces hold flowRate times the clamped time step |
| Stepping.ProjectedInflow | EulerianFluidSim/Simulation.cs:133-143 | the forcing pass sets an inflow face and the pressure solve leaves it alone |
| Stepping.AdvectedInflow | EulerianFluidSim/Simulation.cs:318-379 | neither advection pass changes an inflow face |
| Stepping.InflowFaceNotAdvected | EulerianFluidSim/Simulation.cs:328-331 | an inflow face opens onto a solid border cell, so velocity advection skips it |
| Stepping.StepPressureBorder | EulerianFluidSim/Simulation.cs:110-120 | after a step the pressure on the border of the grid is 0 |
| Stepping.StepSmokeWithin | EulerianFluidSim/Simulation.cs:110-120 | a step never takes the smoke outside the range it had before |
| Stepping.StepSmokeSolid | EulerianFluidSim/Simulation.cs:98-120 | a step keeps the smoke of solid cells and of the last column and row, so the seeded strip in column 0 persists |
| Setup.ObstacleRadius | EulerianFluidSim/Simulation.cs:55-58 | the obstacle radius 0.2 * min(nx, ny) is never negative |
| Setup.InCircleInLoops | EulerianFluidSim/Simulation.cs:63-74 | every cell strictly inside the circle lies in the index ranges the two loops of BlockCircle cover |
| Setup.ObstacleFits | EulerianFluidSim/Simulation.cs:55-58 | every cell strictly inside the obstacle the constructor asks for, centred at (nx/4, ny/2) with radius 0.2 * min(nx, ny), lies inside the grid, so BlockCircle never writes outside the mask |
| Setup.SmokeStrip | EulerianFluidSim/Simulation.cs:100-101 | the rows seeded with smoke form a range inside [0, ny] |
| Setup.SmokeStripNonEmpty | EulerianFluidSim/Simulation.cs:100-103 | from five rows on, the strip holds at least one row |
| FluidSimulation.RelaxFacesU | EulerianFluidSim/Simulation.cs:159-160 | the in-place update of the left and right faces of a cell writes the relaxed u and nothing else |
| FluidSimulation.RelaxFacesV | EulerianFluidSim/Simulation.cs:161-162 | the in-place update of the bottom and top faces of a cell writes the relaxed v and nothing else |
| FluidSimulation.RelaxCell | EulerianFluidSim/Simulation.cs:152-164 | relaxing cell (i, j) in place, after the cells before it in row j, leaves the arrays holding the row relaxed up to and including that cell, as Projection.RelaxCell prescribes |
| FluidSimulation.SweepRow | EulerianFluidSim/Simulation.cs:150-165 | the inner loop leaves the arrays holding the row relaxed cell by cell from left to right, each cell seeing its predecessors' updates |
| FluidSimulation.SweepCells | EulerianFluidSim/Simulation.cs:148-166 | the outer loop leaves the arrays holding Projection.Sweep of the state before: rows 1..ny-2 relaxed from bottom to top |
| FluidSimulation.Simulation.constructor | EulerianFluidSim/Simulation.cs:33-61 | the new simulation is valid, every field is zero except the mask and the smoke, the mask is solid exactly on the border and inside the obstacle, smoke 0.1 lies in column 0 on the strip rows, and the flow rate is 1000 |
| FluidSimulation.Simulation.Populate | EulerianFluidSim/Simulation.cs:53-60 | the closed box, the obstacle and the smoke strip, on freshly allocated arrays |
| FluidSimulation.Simulation.InitAsContainedBox | EulerianFluidSim/Simulation.cs:76-81 | every border cell becomes solid and every other cell fluid, so the mask is a closed box |
| FluidSimulation.Simulation.BlockCircle | EulerianFluidSim/Simulation.cs:63-74 | for any centre and radius whose inside cells lie in the grid, exactly the cells strictly inside the circle become solid (none when the radius is not positive); every other cell keeps its mask value, and the box stays closed |
| FluidSimulation.Simulation.SetLeftSmoke | EulerianFluidSim/Simulation.cs:98-108 | m and newm hold the amount in column 0 on the strip rows and are unchanged elsewhere |
| FluidSimulation.Simulation.SetLeftToRightFlow | EulerianFluidSim/Simulation.cs:88-96 | u holds the rate on the inflow faces and is unchanged elsewhere |
| FluidSimulation.Simulation.UpdateVelocities | EulerianFluidSim/Simulation.cs:122-134 | the arrays hold Stepping.UpdateVelocities of the state before |
| FluidSimulation.Simulation.SolveCompressibility | EulerianFluidSim/Simulation.cs:146-167 | the in-place sweep leaves the arrays holding Projection.Sweep of the state before |
| FluidSimulation.Simulation.IterativelySolveCompressibility | EulerianFluidSim/Simulation.cs:136-144 | the arrays hold Projection.SolveIncompressibility of the state before |
| FluidSimulation.Simulation.CopyArrays | EulerianFluidSim/Simulation.cs:381-388 | the target holds the source on columns 0..nx-2 and rows 0..ny-2 and keeps its last column and row |
| FluidSimulation.Simulation.SampleField | EulerianFluidSim/Simulation.cs:513-554 | the sampler over the arrays is Sampling.Sample over their contents, so it inherits its range and node properties |
| FluidSimulation.Simulation.AdvectedUAt | EulerianFluidSim/Simulation.cs:333-336 | the value read at a u face's departure point is the advected u of the model |
| FluidSimulation.Simulation.AdvectedVAt | EulerianFluidSim/Simulation.cs:341-344 | the value read at a v face's departure point is the advected v of the model |
| FluidSimulation.Simulation.AdvectFaceU | EulerianFluidSim/Simulation.cs:331-337 | one u face of newu is written with its advected value when it is advected; nothing else changes |
| FluidSimulation.Simulation.AdvectFaceV | EulerianFluidSim/Simulation.cs:339-345 | one v face of newv is written with its advected value when it is advected; nothing else changes |
| FluidSimulation.Simulation.AdvectRow | EulerianFluidSim/Simulation.cs:326-346 | the inner loop advances newu and newv by one row of faces |
| FluidSimulation.Simulation.AdvectFaces | EulerianFluidSim/Simulation.cs:324-347 | the loop nest leaves newu and newv holding the advected faces over the copies |
| FluidSimulation.Simulation.AdvectVelocities | EulerianFluidSim/Simulation.cs:318-353 | the arrays hold Advection.AdvectVelocities of the state before |
| FluidSimulation.Simulation.AdvectedMAt | EulerianFluidSim/Simulation.cs:368-372 | the value read at a cell's departure point is the advected smoke of the model |
| FluidSimulation.Simulation.AdvectSmokeRow | EulerianFluidSim/Simulation.cs:363-373 | the inner loop advances newm by one row of cells |
| FluidSimulation.Simulation.AdvectSmoke | EulerianFluidSim/Simulation.cs:355-379 | the arrays hold Advection.AdvectSmoke of the state before |
| FluidSimulation.Simulation.StepSimulation | EulerianFluidSim/Simulation.cs:110-120 | the simulation stays valid and its arrays hold Stepping.Step of the state before, so every Stepping lemma applies to each call |
| FluidSimulation.Simulation.Extrapolate | EulerianFluidSim/Simulation.cs:498-511 | the border rows of u and the border columns of v take the values of the adjacent inner row or column; with only two rows (columns) the far edge keeps its own value |
| ColorRendering.CellIndex | EulerianFluidSim/ColorSimRenderer.cs:54 | the flat index i + j*nx of a cell of the grid lies inside the field |
| ColorRendering.SpreadOf | EulerianFluidSim/ColorSimRenderer.cs:61-63 | the spread is positive, at least max - min, and either max - min or 0.1 |
| ColorRendering.MinMaxWithin | EulerianFluidSim/ColorSimRenderer.cs:46-64 | once min and max are found, every cell lies in [min, min + spread] |
| ColorRendering.FModTwo | EulerianFluidSim/ColorSimRenderer.cs:145 | the remainder modulo 2 with the dividend's sign lies in (-2, 2), and in [0, 2) for a non-negative dividend |
| ColorRendering.ChoosePressureColor | EulerianFluidSim/ColorSimRenderer.cs:138-184 | the colour is fully saturated (one channel 1, one channel 0); for a non-negative percent every channel lies in [0, 1]; below 60/260 it is red with no blue, from 60/260 to 180/260 green is full, from 180/260 to 300/260 blue is full |
| ColorRendering.ToByte | EulerianFluidSim/ColorSimRenderer.cs:80-82 | the byte cast of a value in [0, 255] is the largest byte not above it |
| ColorRendering.ScaledFraction | EulerianFluidSim/ColorSimRenderer.cs:72-77 | a cell value normalised by the minimum and the spread lies in [0, 1], and in [0, 255] once scaled by 255 |
| ColorRendering.ScaledChannel | EulerianFluidSim/ColorSimRenderer.cs:107-109 | a smoke level times a colour channel in [0, 1] stays between 0 and the level |
| ColorRendering.SmokeLevel | EulerianFluidSim/ColorSimRenderer.cs:72-82 | the grey level of a cell: 0 at the minimum, 255 at the minimum plus the spread |
| ColorRendering.PressureBytes | EulerianFluidSim/ColorSimRenderer.cs:119-134 | every pressure pixel has one channel 255 and one channel 0 |
| ColorRendering.Tinted | EulerianFluidSim/ColorSimRenderer.cs:107-109 | a tinted channel is never brighter than the grey smoke level, and is 0 where the colour channel is 0 |
| ColorRendering.ColoredSmokeBytes | EulerianFluidSim/ColorSimRenderer.cs:94-109 | every channel of a coloured-smoke pixel is at most the grey smoke level, and some channel is 0 |
| ColorRendering.PixelInRange | EulerianFluidSim/ColorSimRenderer.cs:70-79 | the flipped pixel index i + (ny-1-j)*nx of a cell lies inside the image |
| ColorRendering.CellOfPixel | EulerianFluidSim/ColorSimRenderer.cs:70-79 | recovering the cell from its pixel index gives the cell back |
| ColorRendering.PixelOfCell | EulerianFluidSim/ColorSimRenderer.cs:70-79 | every pixel index of the image belongs to a cell of the grid, whose pixel index it is |
| ColorRendering.PixelInjective | EulerianFluidSim/ColorSimRenderer.cs:70-79 | two different cells never share a pixel |
| ColorRendering.EveryByteDrawn | EulerianFluidSim/ColorSimRenderer.cs:27-28 | every byte of the buffer is one of the three bytes of some cell's pixel, so a full render overwrites all of it |
| ColorRendering.ColorSimRenderer.constructor | EulerianFluidSim/ColorSimRenderer.cs:7-31 | the buffer holds nx*ny*3 bytes, all 255; the flags start as pressure off, coloured smoke on, flow lines off; the minima start at the largest float and the maxima at the smallest |
| ColorRendering.ColorSimRenderer.GetMinMaxSpread | EulerianFluidSim/ColorSimRenderer.cs:46-64 | min and max bound every cell of the field and are each attained by a cell (for an empty grid they stay at the initial bounds); the spread is SpreadOf(min, max) |
| ColorRendering.ColorSimRenderer.PutPixel | EulerianFluidSim/ColorSimRenderer.cs:79-82 | writing a cell's pixel sets its three bytes and leaves every other cell's pixel as it was |
| ColorRendering.ColorSimRenderer.RenderSmokeRow | EulerianFluidSim/ColorSimRenderer.cs:74-83 | one row of cells is drawn in grey; the rows already drawn keep their pixels |
| ColorRendering.ColorSimRenderer.RenderSmoke | EulerianFluidSim/ColorSimRenderer.cs:66-84 | the smoke range is recorded and every cell's pixel is grey at its smoke level |
| ColorRendering.ColorSimRenderer.PressureCell | EulerianFluidSim/ColorSimRenderer.cs:126-134 | the bytes computed for one cell in pressure mode are PressureBytes of its value |
| ColorRendering.ColorSimRenderer.RenderPressureRow | EulerianFluidSim/ColorSimRenderer.cs:124-135 | one row of cells is drawn in pressure colours; the rows already drawn keep their pixels |
| ColorRendering.ColorSimRenderer.RenderPressure | EulerianFluidSim/ColorSimRenderer.cs:113-136 | the pressure range is recorded and every cell's pixel shows its pressure hue |
| ColorRendering.ColorSimRenderer.ColoredSmokeCell | EulerianFluidSim/ColorSimRenderer.cs:100-109 | the bytes computed for one cell in coloured-smoke mode are ColoredSmokeBytes of its values |
| ColorRendering.ColorSimRenderer.RenderColoredSmokeRow | EulerianFluidSim/ColorSimRenderer.cs:98-110 | one row of cells is drawn in tinted smoke; the rows already drawn keep their pixels |
| ColorRendering.ColorSimRenderer.RenderColoredSmoke | EulerianFluidSim/ColorSimRenderer.cs:86-111 | both ranges are recorded and every cell's pixel is its smoke level tinted by its pressure hue |
| ColorRendering.ColorSimRenderer.Render | EulerianFluidSim/ColorSimRenderer.cs:33-44 | pressure mode wins over coloured smoke, which wins over grey smoke; the chosen mode's image is drawn and the range of a field that is not drawn is left alone |

## Left out

- The bitmap rendering inside `Simulation` (Simulation.cs:169-316) is not part of this model: it is System.Drawing UI code that draws the three modes through `Bitmap.SetPixel` and `Graphics.DrawLine`. It is a variant of `ColorSimRenderer`, not a copy: its hue is reversed (`LerpColor(1 - percent)`, lines 229 and 245), its coloured smoke blends black towards the hue by `1 - (1 - percent)^2` (line 233), its grey is clamped to 0..255 (line 214), and it adds flow lines (lines 285-313).
- `RenderFlowLines` (ColorSimRenderer.cs:186-208) is not modelled. It hands line segments to a drawing delegate, which is outside code, and uses a square root in floating point. `ColorRendering.ColorSimRenderer.Render` therefore ignores `ShowFlowLines`.
- `SwapArrays` (Simulation.cs:390-395) has no caller and is not modelled.
- `InterpolateU`, `InterpolateV` and `InterpolateM` (Simulation.cs:398-496) have no caller, since the advection passes use `sampleField`. They are not modelled.
- The default branch of `sampleField`, which throws on an unknown field selector, cannot be reached: the model's `Field` has exactly the three selectors.
- Floating point is not modelled:
  - Fields are reals, so rounding, infinities and NaN are absent.
  - The renderer requires every field value to lie within the float range (`Finite`).
  - The cast to `byte` is modelled only on values the proof shows to lie in [0, 255].
- The renderer's connection to a `Simulation` instance and its `DrawLine` delegate are not modelled. The renderer reads the simulation's fields as flat arrays through properties that the `Simulation.cs` of this model does not declare (there the fields are private two-dimensional arrays). The render methods therefore take the pressure and smoke fields as flat sequences, with cell (i, j) at `i + j * numCellsX`.
- FluidSimulation.Simulation.constructor: requires the grid spacing to be 1.0, the value every caller passes. The solver, the sampler and the time step model the spacing as that constant. The constructor also requires at least two columns and one row. With one column the source's first step writes `u[1, y]` outside its array, so the model rules such grids out from the start.
- FluidSimulation.Simulation.StepSimulation: requires a positive time step. The application always passes the elapsed frame time. With a step of 0 the pressure update divides by zero, which yields infinity in floats and has no real counterpart. The same precondition is on `SolveCompressibility`, `IterativelySolveCompressibility` and the value-level passes.
- FluidSimulation.Simulation.Extrapolate: requires at least two rows, because with one row the source reads `u[i, 1]` outside its array. `StepSimulation` never calls it, as in the source.
- Setup.SmokeStripNonEmpty: proved from five rows on. With three rows the strip `(int)(3*0.4) .. (int)(3*0.6)` is empty, and the model keeps that behaviour, so a three-row grid starts without smoke.
- The density and over-relaxation arguments of the `Simulation` constructor are ignored, as in the source. The model fixes density 1.0, over-relaxation 1.9 and 10 iterations as constants.
- Several places differ from what a reader of the algorithm might expect. The model follows the code:
  - The inflow writes u in columns 0, 1 and nx-1, not only at the left edge.
  - `sampleField` clamps positions to the cell count rather than the cell count times the spacing. These agree at spacing 1.
  - `CopyArrays` leaves the last column and row of the target as they were.
