# Surface plotter core, package registry and worker sum — a Dafny model

This project models three small, independent pieces of logic in the
repository and proves properties of them.

1. **Surface mesh builder and gesture-to-camera policy** (`src/App.jsx`).
   - `generateGraph` samples the user's formula `y = f(x, z)` on a 100 × 100
     lattice over [-5, 5]². It emits a vertex buffer, a colour buffer (hue of
     the height, converted by the graphics library's HSL routine) and a
     triangle index buffer, and swaps the new mesh into the scene.
   - The pass is all-or-nothing: the first grid point whose evaluation throws
     aborts it. The error text becomes `"Invalid equation: " + message`.
   - As in the code, the previous mesh is removed *before* evaluation starts,
     so a failed rebuild leaves the scene with no graph at all.
   - The decision part of `runHandDetection` turns the palm movement since the
     previous tick and the thumb–index pinch into controller calls. Rotations
     have a dead zone (|delta| > 1). Zoom has a neutral band (pinch in
     [40, 100] does nothing). The remembered palm is replaced on every tick
     that reaches this code.
   - `resetCamera` returns the camera to its start-up pose.
2. **Package registry** (`main.py`). `install`, `remove` and `list` act on the
   registry with its JSON file I/O stripped. Python dicts keep insertion
   order, so the registry is an ordered list of entries without duplicate
   names. `ToMap` gives its dictionary view.
3. **Worker summation** (`backend/worker.js`). `performWork` is a loop that
   sums 0 … 99 999 999. `onmessage` answers only the exact string
   `"Start work"`, with `"Work result: "` followed by the total.

Modules: `Wrappers` (Option/Result), `SurfaceGrid` (coordinates, hue,
sampling, vertex and colour buffers), `MeshIndices` (index buffer),
`GraphScene` (the `generateGraph` state transition), `Camera` (controller
calls, reset), `Gesture` (tick decision), `Packages`, `Worker`.

A failed rebuild leaves the scene with no graph: the previous mesh is removed
before the `try` (src/App.jsx:114-116); see `GraphScene.FailureLeavesNoGraph`.

Two more details of the code are kept:
- `graphRef` is updated only on success. After a failure it still names the
  removed mesh, and the next rebuild removes that mesh again, which does
  nothing.
- The remembered palm starts at (0, 0), so the first tick that sees a hand
  measures the movement from the image origin. `Gesture.FirstSightingMeasuredFromOrigin`
  shows the effect.

## Model

| member | source | states |
|---|---|---|
| SurfaceGrid.Coord | src/App.jsx:129-130 | lattice line 0 maps to -size and line res-1 to +size; every line of the lattice lies in [-size, size] |
| SurfaceGrid.CoordStrictlyIncreasing | src/App.jsx:129-130 | x (and z) grows strictly with the loop index |
| SurfaceGrid.CoordInverse | src/App.jsx:129-130 | the loop index is recovered from the coordinate: (x + size)(res-1)/(2 size) = i |
| SurfaceGrid.Hue | src/App.jsx:135 | height -size has hue 0 and height +size has hue 1 |
| SurfaceGrid.HueInUnitRange | src/App.jsx:135 | the hue lies in [0, 1] exactly when the height lies in [-size, size]; nothing is clamped |
| SurfaceGrid.HueStrictlyIncreasing | src/App.jsx:135 | a higher vertex gets a strictly larger hue |
| SurfaceGrid.HueInverse | src/App.jsx:135 | the height is recovered from the hue, so the remap loses nothing |
| SurfaceGrid.Heights | src/App.jsx:127-131 | the pass succeeds iff every point evaluates; on success one height per point, equal to the formula's value there; on failure the message of the first failing point in loop order |
| SurfaceGrid.Vertices | src/App.jsx:127-133 | 3 entries per sample; vertex k is (x of line k / res, its height, z of line k % res) |
| SurfaceGrid.Colors | src/App.jsx:134-137 | 3 entries per sample; colour k is the HSL conversion of the hue of height k at saturation 0.7, lightness 0.5 |
| SurfaceGrid.RowMajor | src/App.jsx:127-128 | the nested loops number point (i, j) as i·res + j, and that number gives back i and j |
| SurfaceGrid.HeightsOkIffAllPoints | src/App.jsx:118-131 | the full pass over res² points succeeds iff the formula evaluates at every lattice point (i, j) |
| SurfaceGrid.HeightsErrSomePoint | src/App.jsx:131 | a failed pass reports the message of some lattice point whose evaluation threw |
| SurfaceGrid.VertexAt | src/App.jsx:127-133 | vertex number i·res + j has x from line i, z from line j and the height of point (i, j) |
| SurfaceGrid.StoredVertex | src/App.jsx:129-137 | vertex k of a completed pass stores exactly f(x, z) as its height, and its colour is the conversion of that height's hue |
| MeshIndices.CellTriangles | src/App.jsx:144-149 | each cell contributes exactly 6 indices |
| MeshIndices.CellTrianglesWellFormed | src/App.jsx:144-149 | for an inner cell both triangles have three distinct corners, all below res² |
| MeshIndices.RowCells | src/App.jsx:143-150 | m cells of a row contribute 6·m indices |
| MeshIndices.RowsLength | src/App.jsx:142-151 | n full rows contribute 6·(res-1)·n indices |
| MeshIndices.RowsBounds | src/App.jsx:142-151 | every index emitted by the first n ≤ res-1 rows references an existing vertex |
| MeshIndices.IndexBuffer | src/App.jsx:141-151 | the index buffer has 6·(res-1)² entries, each in [0, res²) |
| MeshIndices.BuildIndices | src/App.jsx:141-151 | the nested loops produce exactly the reference index buffer, of length 6·(res-1)², every index in [0, res²) |
| MeshIndices.CellInRow | src/App.jsx:143-150 | cell j of a row occupies entries [6j, 6j+6) of that row |
| MeshIndices.RowsPrefix | src/App.jsx:142-151 | the first k rows are a prefix of the first n rows |
| MeshIndices.CellInBuffer | src/App.jsx:142-151 | cell (i, j) occupies entries [6(i(res-1)+j), +6) and holds (a,b,c),(b,d,c) |
| GraphScene.BuildBuffers | src/App.jsx:118-161 | building succeeds iff the formula evaluates at every lattice point; a failure carries the message of a failing point; on success 3·res² positions, 3·res² colours and 6·(res-1)² indices |
| GraphScene.StoredHeightIsFormulaValue | src/App.jsx:127-137 | every vertex of a built mesh stores the formula's exact value at its lattice point, coloured by that height's hue |
| GraphScene.RemoveObject | src/App.jsx:115 | removal only drops objects; a scene without the object is unchanged; a scene of at most one object no longer holds it afterwards |
| GraphScene.GenerateGraph | src/App.jsx:111-184 | no scene: nothing changes; failure: nothing added, remembered mesh kept, error "Invalid equation: " + message; success: one fresh mesh with the built buffers added and remembered, error cleared |
| GraphScene.GenerateGraphKeepsValid | src/App.jsx:114-179 | the scene always holds at most one graph mesh, the remembered one; the previous graph never survives a run; a graph is shown iff the whole lattice evaluated |
| GraphScene.ClearedIsEmpty | src/App.jsx:114-116 | removing the remembered mesh empties the graph part of the scene |
| GraphScene.InitialValid | src/App.jsx:26 | the initial state, with no graph remembered, satisfies the scene invariant |
| GraphScene.FailureLeavesNoGraph | src/App.jsx:114-183 | after a failed rebuild the scene holds no graph mesh at all |
| GraphScene.RebuildReplaces | src/App.jsx:111-180 | rebuilding twice from the same inputs replaces the first mesh by a different mesh object with identical buffers |
| GraphScene.SourceLatticeSizes | src/App.jsx:121-161 | the source lattice is well formed, and a mesh built on it has 30000 position entries, 30000 colour entries and 58806 indices |
| Camera.ResetCamera | src/App.jsx:292-298 | with camera and controller present the pose becomes (5,5,5) looking at the origin with zoom 1; otherwise unchanged |
| Camera.ResetIdempotent | src/App.jsx:292-298 | resetting twice equals resetting once, and the reset pose does not depend on the previous pose |
| Gesture.PinchThresholds | src/App.jsx:253-268 | comparing the square-rooted pinch with 40 and 100 is the same as comparing its square with 1600 and 10000 |
| Gesture.Steer | src/App.jsx:248-270 | rotateLeft(dx·0.002) iff \|dx\| > 1, rotateUp(dy·0.002) iff \|dy\| > 1; dollyIn(1.02) iff pinch² < 1600, dollyOut(1.02) iff pinch² > 10000, never both; each of these made at most once, so the number of calls is exactly the number of conditions met plus one; update() last and only once |
| Gesture.Tick | src/App.jsx:235-275 | a tick reaching the steering code stores the current palm and makes the steering calls; any other tick keeps the palm and makes no call; guards or a failed detection leave all state alone; the hand flag follows the detection |
| Gesture.RunRemembersLatestPalm | src/App.jsx:242-251 | after any run of ticks the remembered palm is the palm of the latest engaged tick, or the starting palm if there was none |
| Gesture.RunCallsRespectThresholds | src/App.jsx:258-268 | over any run, every rotation angle exceeds 0.002 in magnitude and every zoom step uses factor 1.02 |
| Gesture.PalmMovesRightExample | src/App.jsx:248-268 | a palm moving from (100,100) to (105,100) with pinch 70 gives exactly rotateLeft(0.01) and update() |
| Gesture.FirstSightingMeasuredFromOrigin | src/App.jsx:29 | the first hand seen at (320,240) rotates by 0.64 left and 0.48 up, because deltas start from (0,0) |
| Packages.ToMap | main.py:48-50 | the dictionary view has exactly the registry's names as keys |
| Packages.ToMapLookup | main.py:48-50 | in a registry without duplicate names, every entry's name maps to that entry's info |
| Packages.Delete | main.py:37 | deleting removes exactly that name, keeps only existing entries, and leaves a registry without the name unchanged |
| Packages.DeleteAt | main.py:37 | deleting the entry at position k leaves the entries before and after it in their original order |
| Packages.Install | main.py:18-27 | a present name: registry unchanged (url not overwritten) and "already installed" printed; an absent name: exactly that key added with {"url": url}, appended after the existing entries; well-formedness kept |
| Packages.Remove | main.py:29-38 | an absent name: registry unchanged and "not installed" printed; a present name: exactly that key removed, the remaining entries keeping their insertion order; well-formedness kept |
| Packages.List | main.py:40-46 | the notice alone for an empty registry, otherwise one "name: url" line per entry in insertion order |
| Packages.DeleteMap | main.py:37 | the dictionary view after deletion is the old view without that key |
| Packages.DeleteWellFormed | main.py:37 | deletion keeps names unique |
| Packages.InstallIdempotent | main.py:20-27 | installing the same name twice gives the registry of installing once, whatever the second url |
| Packages.OtherEntriesUnchanged | main.py:26-37 | install and remove never change whether another name is present or what it maps to |
| Packages.InstallThenRemove | main.py:26-37 | installing an absent name and then removing it restores the original registry exactly |
| Packages.ListNoticeIffEmpty | main.py:41-46 | "No packages installed." is printed iff the registry is empty |
| Packages.ListShowsEveryPackage | main.py:45-46 | every installed package has its "name: url" line in the listing |
| Worker.SumBelowClosedForm | backend/worker.js:10-16 | 0 + 1 + … + (n-1) = n(n-1)/2 |
| Worker.SumBelowMonotone | backend/worker.js:12-14 | the running sum never decreases as the loop advances |
| Worker.SumLoop | backend/worker.js:11-15 | the counting loop from 0 to n returns the sum of all i < n, equal to n(n-1)/2 |
| Worker.PerformWork | backend/worker.js:10-16 | the result is 4999999950000000 = N(N-1)/2 for N = 100000000; every partial sum is below 2^53, so the double arithmetic is exact |
| Worker.DecimalString | backend/worker.js:6 | the printed total is a non-empty string of decimal digits without a leading zero |
| Worker.DecimalRoundTrip | backend/worker.js:6 | reading back the printed number gives the number |
| Worker.OnMessage | backend/worker.js:1-8 | a reply is produced iff the message is exactly the string "Start work"; it is "Work result: " followed by the plain decimal digits of 4999999950000000, with no leading zero |

## Left out

- Formula parsing and evaluation (mathjs `compile`/`evaluate`): a foreign library. The compiled formula is a parameter, a total function that returns a real or the thrown error's message. Compilation is a `Result` of such a function.
- Non-numeric formula results: mathjs may return complex numbers, matrices or NaN. The model's evaluator returns a real or an error.
- Floating point: reals stand for doubles. `THREE.Color.setHSL` is a parameter `HslToRgb`. `computeVertexNormals` and the Float32 buffer conversion are not modelled.
- Three.js scene plumbing: renderer, render loop, lights, helpers, resize handling, disposal (src/App.jsx:31-109). Only the scene's graph meshes are modelled, with object identity as an id counter.
- OrbitControls internals: damping, rotation and dolly maths. The model records the calls made on the controller. It assumes they exist and return normally; whether the installed library version exposes `rotateLeft`/`dollyIn` publicly is not part of this model.
- Gesture capture: handpose model loading, `estimateHands` inference, `getUserMedia`, stopping stream tracks, and the 50 ms timer. A tick's detection result and readiness flags are inputs. Overlapping asynchronous ticks are not modelled.
- Gesture.PinchThresholds: the pinch distance is compared through its square; the `Math.sqrt` computation itself is not modelled.
- React state, effects and JSX UI (src/App.jsx:11-25, 27-28, 288-291, 299-396); the initial `graphRef` (line 26), the initial palm (line 29) and `resetCamera` (lines 292-298) are modelled. The appearance (colour, wireframe) is carried into the mesh but has no further effect here.
- main.py I/O: the JSON file read/write, `os.makedirs`, argparse dispatch and printing. Printed lines are returned as an output sequence. A JSON file with duplicate keys or entries without "url" is not modelled; the registry is assumed well formed.
- backend/main.js and the worker's `postMessage`/`console.log` transport. The reply is returned as an optional string.
- Worker.DecimalString: models JavaScript's number-to-string only for integers below 10^21, which covers the one value printed.
- GraphScene.RebuildReplaces: formulas are taken to be deterministic functions of (x, z); mathjs's random functions, which make two evaluations of one expression differ, are not modelled, so two real rebuilds of such a formula may produce different buffers.
- Camera.ResetCamera: rotation still being damped when reset is pressed is not modelled; the controller's `reset()` restores the saved pose and then calls `update()`, which with damping on (src/App.jsx:56) keeps applying rotation pending from earlier gesture calls, so the camera may turn on after the snap to (5, 5, 5).
