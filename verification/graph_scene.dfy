/** The `generateGraph` step of src/App.jsx: rebuild the surface mesh from the
    current formula and swap it into the scene. Only the scene's graph meshes
    are modelled (lights and helpers never change), and object identity is
    modelled by a mesh `id` handed out from a counter. */
module GraphScene {
  import opened Wrappers
  import opened SurfaceGrid
  import MeshIndices

  /** The three buffers of the mesh geometry. */
  datatype Buffers = Buffers(positions: seq<real>, colors: seq<real>, indices: seq<int>)

  /** Material settings chosen in the UI: base colour and wireframe flag. */
  datatype Appearance = Appearance(color: string, wireframe: bool)

  datatype Mesh = Mesh(id: nat, buffers: Buffers, appearance: Appearance)

  /** The graph meshes currently in the scene, the mesh remembered as "the
      graph" (`graphRef`), the error text shown under the formula field, and
      the next fresh mesh identity. */
  datatype GraphState = GraphState(scene: seq<Mesh>, graphRef: Option<Mesh>, error: string, nextId: nat)

  const ErrorPrefix: string := "Invalid equation: "

  /** The sampling lattice: `res` samples per axis over [-size, size]. */
  datatype Lattice = Lattice(res: nat, size: real) {
    predicate WellFormed() { res >= 2 && size > 0.0 }
  }

  /** The lattice the source uses: 100 samples per axis over [-5, 5]. */
  const SourceLattice: Lattice := Lattice(Resolution, Size)

  /** The state before the first rebuild. */
  const Initial: GraphState := GraphState([], None, "", 0)

  /** At most one graph mesh is in the scene, and it is the remembered one;
      every identity handed out so far is below `nextId`. */
  ghost predicate Valid(s: GraphState) {
    && |s.scene| <= 1
    && (|s.scene| == 1 ==> s.graphRef == Some(s.scene[0]))
    && (forall m :: m in s.scene ==> m.id < s.nextId)
    && (s.graphRef.Some? ==> s.graphRef.value.id < s.nextId)
  }

  /** Every lattice point of the formula evaluates without throwing. */
  ghost predicate EvaluatesEverywhere(f: Formula, res: nat, size: real)
    requires res >= 2
  {
    forall i, j :: 0 <= i < res && 0 <= j < res ==> Sample(f, res, size, i, j).Ok?
  }

  /** Samples the formula on the lattice and derives all three buffers; fails
      with the message of the first point whose evaluation throws. */
  function BuildBuffers(f: Formula, res: nat, size: real, hsl: HslToRgb): (r: Result<Buffers>)
    requires res >= 2 && size > 0.0
    ensures r.Ok? <==> EvaluatesEverywhere(f, res, size)
    ensures r.Err? ==> exists i, j :: 0 <= i < res && 0 <= j < res && Sample(f, res, size, i, j) == Err(r.message)
    ensures r.Ok? ==> |r.value.positions| == 3 * (res * res) && |r.value.colors| == 3 * (res * res)
    ensures r.Ok? ==> |r.value.indices| == 6 * (res - 1) * (res - 1)
  {
    HeightsOkIffAllPoints(f, res, size);
    var heights := Heights(f, res, size, res * res);
    if heights.Err? then
      HeightsErrSomePoint(f, res, size);
      Err(heights.message)
    else
      var hs := heights.value;
      Ok(Buffers(Vertices(res, size, hs), Colors(size, hs, hsl), MeshIndices.IndexBuffer(res)))
  }

  /** Every vertex of a built mesh stores exactly the formula's value at its
      lattice point as its height, with no clamping, and is coloured by the hue
      of that height. */
  lemma StoredHeightIsFormulaValue(f: Formula, res: nat, size: real, hsl: HslToRgb, b: Buffers, k: nat)
    requires res >= 2 && size > 0.0 && k < res * res
    requires BuildBuffers(f, res, size, hsl) == Ok(b)
    ensures 3 * k + 2 < |b.positions| && 3 * k + 2 < |b.colors|
    ensures var x, z := b.positions[3 * k], b.positions[3 * k + 2];
            && x == Coord(Row(k, res), res, size)
            && z == Coord(Col(k, res), res, size)
            && f(x, z) == Ok(b.positions[3 * k + 1])
    ensures var rgb := hsl(Hue(b.positions[3 * k + 1], size), Saturation, Lightness);
            b.colors[3 * k] == rgb.r && b.colors[3 * k + 1] == rgb.g && b.colors[3 * k + 2] == rgb.b
  {
    BuiltFromHeights(f, res, size, hsl);
    var hs := Heights(f, res, size, res * res).value;
    assert b.positions == Vertices(res, size, hs) && b.colors == Colors(size, hs, hsl);
    StoredVertex(f, res, size, hsl, res * res, hs, k);
  }

  /** A successful build holds the vertex and colour buffers of the sampled
      heights and the lattice's index buffer. */
  lemma BuiltFromHeights(f: Formula, res: nat, size: real, hsl: HslToRgb)
    requires res >= 2 && size > 0.0 && BuildBuffers(f, res, size, hsl).Ok?
    ensures Heights(f, res, size, res * res).Ok?
    ensures var hs := Heights(f, res, size, res * res).value;
            BuildBuffers(f, res, size, hsl)
            == Ok(Buffers(Vertices(res, size, hs), Colors(size, hs, hsl), MeshIndices.IndexBuffer(res)))
  {
  }

  /** `scene.remove(m)`: drops the first child with m's identity, if any. */
  function RemoveObject(scene: seq<Mesh>, m: Mesh): (r: seq<Mesh>)
    ensures forall x :: x in r ==> x in scene
    ensures (forall x :: x in scene ==> x.id != m.id) ==> r == scene
    ensures |scene| <= 1 ==> forall x :: x in r ==> x.id != m.id
  {
    if |scene| == 0 then []
    else if scene[0].id == m.id then scene[1..]
    else [scene[0]] + RemoveObject(scene[1..], m)
  }

  /** The scene after the old graph has been taken out, before the `try`. */
  function Cleared(s: GraphState): seq<Mesh> {
    if s.graphRef.Some? then RemoveObject(s.scene, s.graphRef.value) else s.scene
  }

  /** What the `try` block produces: the compiled formula's buffers on the
      lattice, or the message of what threw (compilation or evaluation). */
  function Build(compiled: Result<Formula>, lat: Lattice, hsl: HslToRgb): Result<Buffers>
    requires lat.WellFormed()
  {
    match compiled
    case Err(e) => Err(e)
    case Ok(f) => BuildBuffers(f, lat.res, lat.size, hsl)
  }

  /** One run of `generateGraph`. Without a scene nothing happens. Otherwise the
      remembered mesh is removed first; on success a fresh mesh is added,
      remembered, and the error cleared; on failure nothing is added, the
      remembered mesh stays remembered, and the error text is set. */
  function GenerateGraph(s: GraphState, sceneReady: bool, compiled: Result<Formula>,
                         lat: Lattice, look: Appearance, hsl: HslToRgb): (r: GraphState)
    requires lat.WellFormed()
    ensures !sceneReady ==> r == s
    ensures sceneReady && Build(compiled, lat, hsl).Err? ==> r.scene == Cleared(s) && r.graphRef == s.graphRef
    ensures sceneReady && Build(compiled, lat, hsl).Err? ==>
              r.error == ErrorPrefix + Build(compiled, lat, hsl).message
    ensures sceneReady && Build(compiled, lat, hsl).Ok? ==>
              r.graphRef.Some? && r.scene == Cleared(s) + [r.graphRef.value]
    ensures sceneReady && Build(compiled, lat, hsl).Ok? ==>
              r.graphRef.Some? && r.graphRef.value.id == s.nextId && r.graphRef.value.appearance == look
    ensures sceneReady && Build(compiled, lat, hsl).Ok? ==>
              r.graphRef.Some? && r.graphRef.value.buffers == Build(compiled, lat, hsl).value
    ensures sceneReady && Build(compiled, lat, hsl).Ok? ==> r.error == ""
  {
    if !sceneReady then s
    else
      var cleared := Cleared(s);
      match Build(compiled, lat, hsl)
      case Err(e) => s.(scene := cleared, error := ErrorPrefix + e)
      case Ok(b) =>
        var mesh := Mesh(s.nextId, b, look);
        GraphState(cleared + [mesh], Some(mesh), "", s.nextId + 1)
  }

  /** Every run keeps the scene invariant: at most one graph mesh, and it is
      the remembered one. The previous graph is never left in the scene, and a
      graph is shown afterwards exactly when the whole lattice evaluated. */
  lemma GenerateGraphKeepsValid(s: GraphState, sceneReady: bool, compiled: Result<Formula>,
                                lat: Lattice, look: Appearance, hsl: HslToRgb)
    requires Valid(s) && lat.WellFormed()
    ensures var r := GenerateGraph(s, sceneReady, compiled, lat, look, hsl);
            && Valid(r)
            && (sceneReady && s.graphRef.Some? ==> forall m :: m in r.scene ==> m.id != s.graphRef.value.id)
            && (sceneReady ==> (|r.scene| == 1 <==> compiled.Ok? && EvaluatesEverywhere(compiled.value, lat.res, lat.size)))
  {
    ClearedIsEmpty(s);
    if sceneReady && compiled.Ok? {
      assert BuildBuffers(compiled.value, lat.res, lat.size, hsl).Ok?
             <==> EvaluatesEverywhere(compiled.value, lat.res, lat.size);
    }
  }

  /** In a valid state, removing the remembered mesh empties the scene. */
  lemma ClearedIsEmpty(s: GraphState)
    requires Valid(s)
    ensures Cleared(s) == []
  {
    if |s.scene| == 1 {
      assert s.scene[0].id == s.graphRef.value.id;
    }
  }

  lemma InitialValid()
    ensures Valid(Initial)
  {
  }

  /** A failed rebuild leaves NO graph in the scene: the previous mesh was
      removed before evaluation started and is not put back. */
  lemma FailureLeavesNoGraph(s: GraphState, compiled: Result<Formula>, lat: Lattice,
                                   look: Appearance, hsl: HslToRgb)
    requires Valid(s) && lat.WellFormed() && Build(compiled, lat, hsl).Err?
    ensures GenerateGraph(s, true, compiled, lat, look, hsl).scene == []
  {
    ClearedIsEmpty(s);
  }

  /** Rebuilding twice from the same inputs replaces the first mesh by a new
      mesh object holding identical buffers. */
  lemma RebuildReplaces(s: GraphState, compiled: Result<Formula>, lat: Lattice,
                                   look: Appearance, hsl: HslToRgb)
    requires Valid(s) && lat.WellFormed() && Build(compiled, lat, hsl).Ok?
    ensures var s1 := GenerateGraph(s, true, compiled, lat, look, hsl);
            var s2 := GenerateGraph(s1, true, compiled, lat, look, hsl);
            && |s1.scene| == 1 && |s2.scene| == 1
            && s2.scene[0].id != s1.scene[0].id
            && s2.scene[0].buffers == s1.scene[0].buffers
            && s2.error == s1.error == ""
  {
    var s1 := GenerateGraph(s, true, compiled, lat, look, hsl);
    GenerateGraphKeepsValid(s, true, compiled, lat, look, hsl);
    GenerateGraphKeepsValid(s1, true, compiled, lat, look, hsl);
  }

  /** On the source's 100 x 100 lattice a built mesh has 100^2 vertices of 3
      coordinates and 3 colour channels each, and 6 * 99^2 triangle indices. */
  lemma SourceLatticeSizes(f: Formula, hsl: HslToRgb)
    ensures SourceLattice.WellFormed()
    ensures var b := BuildBuffers(f, SourceLattice.res, SourceLattice.size, hsl);
            b.Ok? ==> |b.value.positions| == 30000 && |b.value.colors| == 30000 && |b.value.indices| == 58806
  {
  }
}
