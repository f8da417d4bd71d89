/** Sampling of a formula over the square lattice of the surface plot, and the
    vertex and colour buffers derived from the samples (src/App.jsx,
    `generateGraph`). Real arithmetic stands for JavaScript doubles. */
module SurfaceGrid {
  import opened Wrappers
  import opened Arith

  /** Samples per axis of the lattice. */
  const Resolution: nat := 100
  /** Half the side of the plotted square: both axes span [-Size, Size]. */
  const Size: real := 5.0
  /** Fixed saturation and lightness handed to the HSL conversion. */
  const Saturation: real := 0.7
  const Lightness: real := 0.5

  /** A compiled formula: defined at every point, but evaluation may throw. */
  type Formula = (real, real) -> Result<real>

  datatype Rgb = Rgb(r: real, g: real, b: real)

  /** The HSL-to-RGB conversion of the graphics library, left abstract. */
  type HslToRgb = (real, real, real) -> Rgb

  /** Coordinate of lattice line `i`: `(i / (res - 1)) * size * 2 - size`. */
  function Coord(i: nat, res: nat, size: real): (x: real)
    requires res >= 2
    ensures i == 0 ==> x == -size
    ensures i == res - 1 ==> x == size
    ensures size >= 0.0 && i < res ==> -size <= x <= size
  {
    (i as real / (res - 1) as real) * size * 2.0 - size
  }

  /** Lattice coordinates grow strictly with the line number. */
  lemma CoordStrictlyIncreasing(i: nat, i': nat, res: nat, size: real)
    requires res >= 2 && size > 0.0 && i < i'
    ensures Coord(i, res, size) < Coord(i', res, size)
  {
    var n := (res - 1) as real;
    assert i as real / n < i' as real / n;
    MulStrict(i as real / n, i' as real / n, size * 2.0);
  }

  lemma MulStrict(a: real, b: real, c: real)
    requires a < b && c > 0.0
    ensures a * c < b * c
  {
  }

  /** The line number can be recovered from the coordinate. */
  lemma CoordInverse(i: nat, res: nat, size: real)
    requires res >= 2 && size > 0.0
    ensures (Coord(i, res, size) + size) * (res - 1) as real / (2.0 * size) == i as real
  {
  }

  /** Hue of a vertex of height `y`: a linear remap of [-size, size] onto [0, 1],
      with no clamping outside that range. */
  function Hue(y: real, size: real): (h: real)
    requires size > 0.0
    ensures y == -size ==> h == 0.0
    ensures y == size ==> h == 1.0
  {
    (y + size) / (size * 2.0)
  }

  /** Exactly the heights in [-size, size] get a hue in [0, 1]. */
  lemma HueInUnitRange(y: real, size: real)
    requires size > 0.0
    ensures -size <= y <= size <==> 0.0 <= Hue(y, size) <= 1.0
  {
    var h := Hue(y, size);
    assert h * (size * 2.0) == y + size;
    if 0.0 <= h <= 1.0 {
      MulMonotoneReal(0.0, h, size * 2.0);
      MulMonotoneReal(h, 1.0, size * 2.0);
    }
  }

  lemma MulMonotoneReal(a: real, b: real, c: real)
    requires a <= b && c > 0.0
    ensures a * c <= b * c
  {
  }

  /** Higher vertices get strictly larger hues. */
  lemma HueStrictlyIncreasing(y: real, y': real, size: real)
    requires size > 0.0 && y < y'
    ensures Hue(y, size) < Hue(y', size)
  {
    DivStrict(y + size, y' + size, size * 2.0);
  }

  lemma DivStrict(a: real, b: real, c: real)
    requires a < b && c > 0.0
    ensures a / c < b / c
  {
  }

  /** The height can be recovered from the hue: the remap loses nothing. */
  lemma HueInverse(y: real, size: real)
    requires size > 0.0
    ensures Hue(y, size) * 2.0 * size - size == y
  {
  }

  /** The formula evaluated at lattice point (i, j): x from `i`, z from `j`. */
  function Sample(f: Formula, res: nat, size: real, i: nat, j: nat): Result<real>
    requires res >= 2
  {
    f(Coord(i, res, size), Coord(j, res, size))
  }

  /** Row-major numbering: point `k` lies on x-line `Row(k, res)` and z-line
      `Col(k, res)`. */
  function Row(k: nat, res: nat): nat
    requires res >= 1
  {
    k / res
  }

  function Col(k: nat, res: nat): nat
    requires res >= 1
  {
    k % res
  }

  /** The formula evaluated at lattice point number `k`. */
  function SampleAt(f: Formula, res: nat, size: real, k: nat): Result<real>
    requires res >= 2
  {
    Sample(f, res, size, Row(k, res), Col(k, res))
  }

  /** Evaluates the first `n` lattice points in the order of the nested loops.
      The first point whose evaluation throws aborts the pass with its message. */
  function Heights(f: Formula, res: nat, size: real, n: nat): (r: Result<seq<real>>)
    requires res >= 2
    ensures r.Ok? <==> forall k :: 0 <= k < n ==> SampleAt(f, res, size, k).Ok?
    ensures r.Ok? ==> |r.value| == n
    ensures r.Ok? ==> forall k :: 0 <= k < n ==> SampleAt(f, res, size, k) == Ok(r.value[k])
    ensures r.Err? ==> exists k :: 0 <= k < n && SampleAt(f, res, size, k) == Err(r.message)
                                   && forall k' :: 0 <= k' < k ==> SampleAt(f, res, size, k').Ok?
  {
    if n == 0 then Ok([])
    else
      match Heights(f, res, size, n - 1)
      case Err(e) => Err(e)
      case Ok(hs) =>
        match SampleAt(f, res, size, n - 1)
        case Err(e) => Err(e)
        case Ok(y) => Ok(hs + [y])
  }

  /** The vertex buffer: three entries (x, y, z) per sample, in sample order. */
  function Vertices(res: nat, size: real, hs: seq<real>): (v: seq<real>)
    requires res >= 2
    ensures |v| == 3 * |hs|
    ensures forall k :: 0 <= k < |hs| ==>
              && v[3 * k] == Coord(Row(k, res), res, size)
              && v[3 * k + 1] == hs[k]
              && v[3 * k + 2] == Coord(Col(k, res), res, size)
  {
    if |hs| == 0 then []
    else
      var k := |hs| - 1;
      Vertices(res, size, hs[..k]) + [Coord(Row(k, res), res, size), hs[k], Coord(Col(k, res), res, size)]
  }

  /** The colour buffer: three entries (r, g, b) per sample, the conversion of
      the sample's hue at fixed saturation and lightness. */
  function Colors(size: real, hs: seq<real>, hsl: HslToRgb): (c: seq<real>)
    requires size > 0.0
    ensures |c| == 3 * |hs|
    ensures forall k :: 0 <= k < |hs| ==>
              var rgb := hsl(Hue(hs[k], size), Saturation, Lightness);
              c[3 * k] == rgb.r && c[3 * k + 1] == rgb.g && c[3 * k + 2] == rgb.b
  {
    if |hs| == 0 then []
    else
      var k := |hs| - 1;
      var rgb := hsl(Hue(hs[k], size), Saturation, Lightness);
      Colors(size, hs[..k], hsl) + [rgb.r, rgb.g, rgb.b]
  }

  /** Row-major numbering is a bijection between [0, res*res) and pairs of
      line numbers below `res`. */
  lemma {:induction false} RowMajor(i: nat, j: nat, res: nat)
    requires j < res
    ensures (i * res + j) / res == i && (i * res + j) % res == j
  {
    var k := i * res + j;
    var q, r := k / res, k % res;
    assert k == q * res + r;
    assert (q - i) * res == j - r;
    if q > i {
      MulAtLeast(q - i, res);
      assert false;
    } else if q < i {
      MulAtLeast(i - q, res);
      assert false;
    }
  }

  lemma MulAtLeast(a: int, b: int)
    requires a >= 1 && b >= 0
    ensures a * b >= b
  {
  }

  /** A point numbered below res*res lies on the lattice. */
  lemma RowMajorBounds(k: nat, res: nat)
    requires res >= 1 && k < res * res
    ensures k / res < res && k % res < res
  {
    var q := k / res;
    assert k == q * res + k % res;
    if q >= res {
      MulMonotone(res, q, res);
      assert false;
    }
  }

  /** The whole pass succeeds iff the formula evaluates at every lattice point. */
  lemma HeightsOkIffAllPoints(f: Formula, res: nat, size: real)
    requires res >= 2
    ensures Heights(f, res, size, res * res).Ok?
            <==> forall i, j :: 0 <= i < res && 0 <= j < res ==> Sample(f, res, size, i, j).Ok?
  {
    if Heights(f, res, size, res * res).Ok? {
      HeightsOkAllPoints(f, res, size);
    } else {
      HeightsErrSomePoint(f, res, size);
    }
  }

  /** A failed pass reports the message of a lattice point that failed. */
  lemma HeightsErrSomePoint(f: Formula, res: nat, size: real)
    requires res >= 2 && Heights(f, res, size, res * res).Err?
    ensures exists i, j :: 0 <= i < res && 0 <= j < res
                           && Sample(f, res, size, i, j) == Err(Heights(f, res, size, res * res).message)
  {
    var n := res * res;
    var r := Heights(f, res, size, n);
    var k :| 0 <= k < n && SampleAt(f, res, size, k) == Err(r.message);
    PointOfNumberFails(f, res, size, k, r.message);
  }

  lemma PointOfNumberFails(f: Formula, res: nat, size: real, k: nat, msg: string)
    requires res >= 2 && k < res * res && SampleAt(f, res, size, k) == Err(msg)
    ensures exists i, j :: 0 <= i < res && 0 <= j < res && Sample(f, res, size, i, j) == Err(msg)
  {
    RowMajorBounds(k, res);
    var i, j := Row(k, res), Col(k, res);
    assert Sample(f, res, size, i, j) == Err(msg);
  }

  lemma HeightsOkAllPoints(f: Formula, res: nat, size: real)
    requires res >= 2 && Heights(f, res, size, res * res).Ok?
    ensures forall i, j :: 0 <= i < res && 0 <= j < res ==> Sample(f, res, size, i, j).Ok?
  {
    forall i, j | 0 <= i < res && 0 <= j < res
      ensures Sample(f, res, size, i, j).Ok?
    {
      PointNumber(i, j, res);
      assert SampleAt(f, res, size, i * res + j).Ok?;
    }
  }

  /** Lattice point (i, j) has row-major number i * res + j below res * res. */
  lemma PointNumber(i: nat, j: nat, res: nat)
    requires i < res && j < res
    ensures i * res + j < res * res
    ensures (i * res + j) / res == i && (i * res + j) % res == j
  {
    RowMajor(i, j, res);
    MulMonotone(i + 1, res, res);
  }

  /** Vertex number k = i * res + j has x from line i and z from line j. */
  lemma VertexAt(res: nat, size: real, hs: seq<real>, i: nat, j: nat, k: nat)
    requires res >= 2 && j < res && k == i * res + j && k < |hs|
    ensures Vertices(res, size, hs)[3 * k] == Coord(i, res, size)
    ensures Vertices(res, size, hs)[3 * k + 1] == hs[k]
    ensures Vertices(res, size, hs)[3 * k + 2] == Coord(j, res, size)
  {
    assert Row(k, res) == i && Col(k, res) == j by {
      RowMajor(i, j, res);
    }
    var v := Vertices(res, size, hs);
    assert v[3 * k] == Coord(Row(k, res), res, size);
    assert v[3 * k + 2] == Coord(Col(k, res), res, size);
  }

  /** Vertex number k of a completed pass over the first n lattice points sits
      at (x, f(x, z), z) for its lattice point and is coloured by the hue of
      that height. */
  lemma StoredVertex(f: Formula, res: nat, size: real, hsl: HslToRgb, n: nat, hs: seq<real>, k: nat)
    requires res >= 2 && size > 0.0 && Heights(f, res, size, n) == Ok(hs) && k < |hs|
    ensures var v := Vertices(res, size, hs);
            var x, z := v[3 * k], v[3 * k + 2];
            && x == Coord(Row(k, res), res, size)
            && z == Coord(Col(k, res), res, size)
            && f(x, z) == Ok(v[3 * k + 1])
    ensures var v, c := Vertices(res, size, hs), Colors(size, hs, hsl);
            var rgb := hsl(Hue(v[3 * k + 1], size), Saturation, Lightness);
            c[3 * k] == rgb.r && c[3 * k + 1] == rgb.g && c[3 * k + 2] == rgb.b
  {
    var v := Vertices(res, size, hs);
    assert v[3 * k] == Coord(Row(k, res), res, size) && v[3 * k + 1] == hs[k]
           && v[3 * k + 2] == Coord(Col(k, res), res, size) by {
      VertexOfSample(res, size, hs, k);
    }
    SampleStored(f, res, size, n, hs, k);
  }

  /** Vertex k holds sample k's lattice coordinates and height. */
  lemma VertexOfSample(res: nat, size: real, hs: seq<real>, k: nat)
    requires res >= 2 && k < |hs|
    ensures var v := Vertices(res, size, hs);
            v[3 * k] == Coord(Row(k, res), res, size) && v[3 * k + 1] == hs[k]
            && v[3 * k + 2] == Coord(Col(k, res), res, size)
  {
  }

  /** The height stored for point k is the formula's value at that point. */
  lemma SampleStored(f: Formula, res: nat, size: real, n: nat, hs: seq<real>, k: nat)
    requires res >= 2 && Heights(f, res, size, n) == Ok(hs) && k < |hs|
    ensures f(Coord(Row(k, res), res, size), Coord(Col(k, res), res, size)) == Ok(hs[k])
  {
    assert SampleAt(f, res, size, k) == Ok(hs[k]);
  }
}
