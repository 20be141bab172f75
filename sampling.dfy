/**
 * sampleField (Simulation.cs): bilinear interpolation of one field of the
 * staggered grid at a continuous position, after clamping the position into
 * [h, numCells] on each axis. Each field has its own half-cell offset:
 * u is stored half a cell up, v half a cell right, the smoke m at cell centres.
 */
module Sampling {
  import opened FluidState

  /** The field selector of sampleField; S_Field selects the smoke m. */
  datatype Field = UField | VField | SField

  /** The 2 x 2 interpolation stencil: the corner indices and the fractions along each axis. */
  datatype Stencil = Stencil(x0: int, x1: int, y0: int, y1: int, tx: real, ty: real)

  function Min(a: real, b: real): real { if a <= b then a else b }
  function Max(a: real, b: real): real { if a >= b then a else b }

  /** The sub-cell offset (dx, dy) at which a field's values are stored. */
  function Offset(field: Field): (d: (real, real))
    ensures 0.0 <= d.0 <= GridSpacing / 2.0 && 0.0 <= d.1 <= GridSpacing / 2.0
  {
    var h2 := GridSpacing / 2.0;
    match field
    case UField => (0.0, h2)
    case VField => (h2, 0.0)
    case SField => (h2, h2)
  }

  /**
   * One axis of the sampler: clamp pos into [h, n] (n the cell count, not
   * n * h), subtract the field offset d, and find the lower index, the upper
   * index (clamped to the last cell) and the fraction between them.
   * The indices are always inside the grid and the fraction lies in [0, 1].
   */
  function Axis(pos: real, d: real, n: int): (r: (int, int, real))
    requires n >= 1 && 0.0 <= d <= GridSpacing / 2.0
    ensures 0 <= r.0 <= n - 1 && 0 <= r.1 <= n - 1
    ensures r.1 == r.0 + 1 || r.1 == r.0 == n - 1
    ensures 0.0 <= r.2 <= 1.0
  {
    var h := GridSpacing;
    var h1 := 1.0 / h;
    var c := Max(Min(pos, n as real), h);
    var i0 := if ((c - d) * h1).Floor <= n - 1 then ((c - d) * h1).Floor else n - 1;
    var t := ((c - d) - i0 as real * h) * h1;
    var i1 := if i0 + 1 <= n - 1 then i0 + 1 else n - 1;
    (i0, i1, t)
  }

  /** The stencil sampleField uses for a field at position (x, y); its indices lie inside the grid. */
  function StencilAt(nx: int, ny: int, x: real, y: real, field: Field): (st: Stencil)
    requires nx >= 1 && ny >= 1
    ensures 0 <= st.x0 < nx && 0 <= st.x1 < nx && 0 <= st.y0 < ny && 0 <= st.y1 < ny
    ensures 0.0 <= st.tx <= 1.0 && 0.0 <= st.ty <= 1.0
  {
    var off := Offset(field);
    var ax := Axis(x, off.0, nx);
    var ay := Axis(y, off.1, ny);
    Stencil(ax.0, ax.1, ay.0, ay.1, ax.2, ay.2)
  }

  function Min4(a: real, b: real, c: real, d: real): real { Min(Min(a, b), Min(c, d)) }
  function Max4(a: real, b: real, c: real, d: real): real { Max(Max(a, b), Max(c, d)) }

  /** The bilinear combination sx*sy*f00 + tx*sy*f10 + tx*ty*f11 + sx*ty*f01 of the four stencil values. */
  function Blend(f00: real, f10: real, f11: real, f01: real, tx: real, ty: real): real {
    var sx := 1.0 - tx;
    var sy := 1.0 - ty;
    sx * sy * f00 + tx * sy * f10 + tx * ty * f11 + sx * ty * f01
  }

  /**
   * For fractions in [0, 1] the bilinear weights are convex, so the blend lies
   * between the smallest and the largest corner value; the weights sum to one,
   * so a constant is reproduced; at fraction (0, 0) the blend is the corner f00.
   */
  lemma BlendProperties(f00: real, f10: real, f11: real, f01: real, tx: real, ty: real)
    ensures 0.0 <= tx <= 1.0 && 0.0 <= ty <= 1.0 ==>
      Min4(f00, f10, f11, f01) <= Blend(f00, f10, f11, f01, tx, ty) <= Max4(f00, f10, f11, f01)
    ensures f00 == f10 == f11 == f01 ==> Blend(f00, f10, f11, f01, tx, ty) == f00
    ensures tx == 0.0 && ty == 0.0 ==> Blend(f00, f10, f11, f01, tx, ty) == f00
  {
    var r := Blend(f00, f10, f11, f01, tx, ty);
    // blend along x in each row, then along y
    var b0 := (1.0 - tx) * f00 + tx * f10;
    var b1 := (1.0 - tx) * f01 + tx * f11;
    assert r == (1.0 - ty) * b0 + ty * b1;
    if 0.0 <= tx <= 1.0 && 0.0 <= ty <= 1.0 {
      var lo, hi := Min4(f00, f10, f11, f01), Max4(f00, f10, f11, f01);
      Between(f00, f10, tx, lo, hi);
      Between(f01, f11, tx, lo, hi);
      Between(b0, b1, ty, lo, hi);
    }
    if f00 == f10 == f11 == f01 {
      assert b0 == f00 && b1 == f00;
    }
  }

  /** A convex combination of two values in [lo, hi] stays in [lo, hi]. */
  lemma Between(a: real, b: real, t: real, lo: real, hi: real)
    requires 0.0 <= t <= 1.0 && lo <= a <= hi && lo <= b <= hi
    ensures lo <= (1.0 - t) * a + t * b <= hi
  {
    AboveLow(a, b, t, lo);
    BelowHigh(a, b, t, hi);
  }

  lemma AboveLow(a: real, b: real, t: real, lo: real)
    requires 0.0 <= t <= 1.0 && lo <= a && lo <= b
    ensures lo <= (1.0 - t) * a + t * b
  {
    MulMono(1.0 - t, lo, a);
    MulMono(t, lo, b);
    AddLe((1.0 - t) * lo, t * lo, (1.0 - t) * a, t * b);
    assert (1.0 - t) * lo + t * lo == lo;
  }

  lemma BelowHigh(a: real, b: real, t: real, hi: real)
    requires 0.0 <= t <= 1.0 && a <= hi && b <= hi
    ensures (1.0 - t) * a + t * b <= hi
  {
    MulMono(1.0 - t, a, hi);
    MulMono(t, b, hi);
    AddLe((1.0 - t) * a, t * b, (1.0 - t) * hi, t * hi);
    assert (1.0 - t) * hi + t * hi == hi;
  }

  lemma MulMono(c: real, a: real, b: real)
    requires c >= 0.0 && a <= b
    ensures c * a <= c * b
  {
    assert c * b - c * a == c * (b - a);
  }

  lemma AddLe(a: real, b: real, c: real, d: real)
    requires a <= c && b <= d
    ensures a + b <= c + d
  {
  }

  /** sampleField over a grid g of extents nx x ny. */
  function Sample(g: Grid, nx: int, ny: int, x: real, y: real, field: Field): real
    requires nx >= 1 && ny >= 1 && IsGrid(g, nx, ny)
  {
    var st := StencilAt(nx, ny, x, y, field);
    Blend(g[st.x0][st.y0], g[st.x1][st.y0], g[st.x1][st.y1], g[st.x0][st.y1], st.tx, st.ty)
  }

  /**
   * The sampler never leaves the range of the field it samples: if every
   * entry of g lies in [lo, hi], so does every sample, wherever it is taken.
   */
  lemma SampleWithin(g: Grid, nx: int, ny: int, x: real, y: real, field: Field, lo: real, hi: real)
    requires nx >= 1 && ny >= 1 && IsGrid(g, nx, ny)
    requires forall i, j :: 0 <= i < nx && 0 <= j < ny ==> lo <= g[i][j] <= hi
    ensures lo <= Sample(g, nx, ny, x, y, field) <= hi
  {
    var st := StencilAt(nx, ny, x, y, field);
    var a, b, c, d := g[st.x0][st.y0], g[st.x1][st.y0], g[st.x1][st.y1], g[st.x0][st.y1];
    BlendProperties(a, b, c, d, st.tx, st.ty);
    assert lo <= Min4(a, b, c, d) && Max4(a, b, c, d) <= hi;
  }

  /** One axis of the sampler, evaluated at a node i shifted by the offset d, lands on i with fraction 0. */
  lemma AxisAtNode(i: int, d: real, n: int)
    requires 0 <= i < n && 0.0 <= d <= GridSpacing / 2.0 && GridSpacing <= i as real + d
    ensures Axis(i as real + d, d, n).0 == i && Axis(i as real + d, d, n).2 == 0.0
  {
    var c := Max(Min(i as real + d, n as real), GridSpacing);
    assert c == i as real + d;
    assert (c - d) * (1.0 / GridSpacing) == i as real;
    assert ((c - d) * (1.0 / GridSpacing)).Floor == i;
  }

  /**
   * Round trip on grid nodes: sampling a field exactly at its own node
   * (i, j) shifted by the field's offset returns the stored value, as long as
   * the node lies inside the clamp box [h, nx] x [h, ny].
   */
  lemma SampleAtNode(g: Grid, nx: int, ny: int, i: int, j: int, field: Field)
    requires nx >= 1 && ny >= 1 && IsGrid(g, nx, ny)
    requires 0 <= i < nx && 0 <= j < ny
    requires GridSpacing <= i as real + Offset(field).0 && GridSpacing <= j as real + Offset(field).1
    ensures Sample(g, nx, ny, i as real + Offset(field).0, j as real + Offset(field).1, field) == g[i][j]
  {
    var off := Offset(field);
    AxisAtNode(i, off.0, nx);
    AxisAtNode(j, off.1, ny);
    var st := StencilAt(nx, ny, i as real + off.0, j as real + off.1, field);
    assert st.x0 == i && st.y0 == j && st.tx == 0.0 && st.ty == 0.0;
    BlendProperties(g[st.x0][st.y0], g[st.x1][st.y0], g[st.x1][st.y1], g[st.x0][st.y1], st.tx, st.ty);
  }
}
