/**
 * The colour renderer: it turns the smoke or pressure field of an
 * X-by-Y simulation into a buffer of 3 * X * Y bytes (one red, green and
 * blue byte per cell), with the rows flipped so that row 0 of the grid is
 * the last row of the image.
 *
 * A field is given flat, cell (i, j) at position i + j * X.  Floating
 * point is modelled by real numbers: every value is finite and lies
 * within the range of a single-precision float, and no rounding occurs.
 */
module ColorRendering {

  /** An unsigned 8-bit value. */
  newtype byte = x: int | 0 <= x < 256

  /** The largest finite single-precision value; its negation is the least. */
  const FloatMax: real := 340282346638528859811704183484516925440.0

  /** The least spread a field is normalised over. */
  const MinSpread: real := 0.1

  /** Every value of the field is a finite single-precision value. */
  predicate Finite(f: seq<real>)
  {
    forall k :: 0 <= k < |f| ==> -FloatMax <= f[k] <= FloatMax
  }

  /** The value of cell (i, j) of an nx-by-ny field stored row after row. */
  function Cell(f: seq<real>, nx: nat, ny: nat, i: int, j: int): real
    requires |f| >= nx * ny && 0 <= i < nx && 0 <= j < ny
  {
    CellIndex(nx, ny, i, j);
    f[i + j * nx]
  }

  /** Cell (i, j) is stored inside the field. */
  lemma CellIndex(nx: nat, ny: nat, i: int, j: int)
    requires 0 <= i < nx && 0 <= j < ny
    ensures 0 <= i + j * nx < nx * ny
  {
    RowOffsets(nx, ny, j);
  }

  /**
   * lo and hi are the least and the greatest value of the nx-by-ny field
   * f: bounds that are both attained when the grid has a cell.
   */
  predicate IsMinMax(f: seq<real>, nx: nat, ny: nat, lo: real, hi: real)
    requires |f| >= nx * ny
  {
    (forall i, j :: 0 <= i < nx && 0 <= j < ny ==> lo <= Cell(f, nx, ny, i, j) <= hi) &&
    (nx > 0 && ny > 0 ==>
      (exists i, j :: 0 <= i < nx && 0 <= j < ny && Cell(f, nx, ny, i, j) == lo) &&
      (exists i, j :: 0 <= i < nx && 0 <= j < ny && Cell(f, nx, ny, i, j) == hi))
  }

  /** Every value of the field lies between lo and lo + spread, a positive spread. */
  predicate Within(f: seq<real>, nx: nat, ny: nat, lo: real, spread: real)
    requires |f| >= nx * ny
  {
    spread > 0.0 &&
    forall i, j :: 0 <= i < nx && 0 <= j < ny ==> lo <= Cell(f, nx, ny, i, j) && Cell(f, nx, ny, i, j) - lo <= spread
  }

  /** The bounds of a field and the spread they give enclose every value. */
  lemma MinMaxWithin(f: seq<real>, nx: nat, ny: nat, lo: real, hi: real)
    requires |f| >= nx * ny && IsMinMax(f, nx, ny, lo, hi)
    ensures Within(f, nx, ny, lo, SpreadOf(lo, hi))
  {
  }

  /** The spread a field with bounds lo and hi is normalised over. */
  function SpreadOf(lo: real, hi: real): (spread: real)
    ensures spread > 0.0
    ensures spread >= hi - lo
    ensures spread == hi - lo || spread == MinSpread
  {
    if hi - lo < MinSpread then MinSpread else hi - lo
  }

  function Abs(x: real): real
  {
    if x < 0.0 then -x else x
  }

  /** x rounded toward zero, as a float-to-integer conversion does. */
  function Trunc(x: real): (n: int)
    ensures Abs(x - n as real) < 1.0
    ensures Abs(n as real) <= Abs(x)
    ensures 0.0 <= x ==> 0 <= n
    ensures x <= 0.0 ==> n <= 0
  {
    if x < 0.0 then -((-x).Floor) else x.Floor
  }

  /**
   * The floating-point remainder a % 2: it takes the sign of a and is
   * smaller than 2 in magnitude.
   */
  function FModTwo(a: real): (r: real)
    ensures 0.0 <= a ==> 0.0 <= r < 2.0
    ensures a <= 0.0 ==> -2.0 < r <= 0.0
  {
    a - 2.0 * Trunc(a / 2.0) as real
  }

  /** A colour with channels given as fractions of full intensity. */
  datatype Rgb = Rgb(red: real, green: real, blue: real)

  predicate InUnit(x: real)
  {
    0.0 <= x <= 1.0
  }

  /**
   * The colour of hue percent * 260 degrees at full saturation and half
   * lightness (the hue-saturation-lightness conversion with s = 1 and
   * l = 0.5).  A fraction from 0 to 1 thus runs from red through yellow,
   * green and cyan to blue.
   */
  function ChoosePressureColor(percent: real): (c: Rgb)
    ensures c.red == 1.0 || c.green == 1.0 || c.blue == 1.0
    ensures c.red == 0.0 || c.green == 0.0 || c.blue == 0.0
    ensures 0.0 <= percent ==> InUnit(c.red) && InUnit(c.green) && InUnit(c.blue)
    ensures percent < 60.0 / 260.0 ==> c.red == 1.0 && c.blue == 0.0
    ensures 60.0 / 260.0 <= percent < 180.0 / 260.0 ==> c.green == 1.0
    ensures 180.0 / 260.0 <= percent < 300.0 / 260.0 ==> c.blue == 1.0
  {
    var h := percent * 260.0;
    var s := 1.0;
    var l := 0.5;
    var d := s * (1.0 - Abs(2.0 * l - 1.0));
    var x := d * (1.0 - Abs(FModTwo(h / 60.0) - 1.0));
    var m := l - d / 2.0;
    assert d == 1.0 && m == 0.0;
    if h < 60.0 then Rgb(d + m, x + m, m)
    else if h < 120.0 then Rgb(x + m, d + m, m)
    else if h < 180.0 then Rgb(m, d + m, x + m)
    else if h < 240.0 then Rgb(m, x + m, d + m)
    else if h < 300.0 then Rgb(x + m, m, d + m)
    else Rgb(d + m, m, x + m)
  }

  /**
   * The byte a value from 0 to 255 converts to: the conversion drops the
   * fraction.
   */
  function ToByte(x: real): (b: byte)
    requires 0.0 <= x <= 255.0
    ensures b as real <= x < b as real + 1.0
  {
    x.Floor as byte
  }

  /** The value val measured from lo, in units of 1 / inv. */
  function Normalized(val: real, lo: real, inv: real): real
  {
    (val - lo) * inv
  }

  /**
   * A value between lo and lo + spread, measured from lo in units of spread
   * and scaled by scale, lies between 0 and scale.
   */
  lemma ScaledFraction(val: real, lo: real, spread: real, scale: real)
    requires spread > 0.0 && lo <= val && val - lo <= spread && scale >= 0.0
    ensures 0.0 <= Normalized(val, lo, (1.0 / spread) * scale) <= scale
    ensures 0.0 <= Normalized(val, lo, 1.0 / spread) <= 1.0
  {
    var inv := 1.0 / spread;
    assert inv * spread == 1.0;
    assert 0.0 < inv;
    assert (val - lo) * inv <= spread * inv;
    assert (val - lo) * (inv * scale) == ((val - lo) * inv) * scale;
  }

  /**
   * Scaling a level from 0 to 255 by a fraction gives a level from 0 to 255
   * that is no greater than the first.
   */
  lemma ScaledChannel(level: real, channel: real)
    requires 0.0 <= level <= 255.0 && InUnit(channel)
    ensures 0.0 <= level * channel <= level
  {
    var rest := 1.0 - channel;
    assert 0.0 <= level * rest;
    assert level * channel + level * rest == level;
  }

  /** Truncation keeps the order of the values it converts. */
  lemma ToByteMonotonic(x: real, y: real)
    requires 0.0 <= x <= y <= 255.0
    ensures ToByte(x) <= ToByte(y)
  {
  }

  /** The byte of every channel of a grayscale cell showing smoke val. */
  function SmokeLevel(val: real, lo: real, spread: real): (b: byte)
    requires spread > 0.0 && lo <= val && val - lo <= spread
    ensures val == lo ==> b == 0
    ensures val - lo == spread ==> b == 255
  {
    ScaledFraction(val, lo, spread, 255.0);
    var percent := Normalized(val, lo, (1.0 / spread) * 255.0);
    assert val - lo == spread ==> percent == 255.0 by {
      assert spread * (1.0 / spread) == 1.0;
    }
    ToByte(percent)
  }

  /** The colour of a cell with pressure pv, given as three bytes. */
  function PressureBytes(pv: real, plo: real, pspread: real): (b: (byte, byte, byte))
    requires pspread > 0.0 && plo <= pv && pv - plo <= pspread
    ensures b.0 == 255 || b.1 == 255 || b.2 == 255
    ensures b.0 == 0 || b.1 == 0 || b.2 == 0
  {
    ScaledFraction(pv, plo, pspread, 1.0);
    var c := ChoosePressureColor(Normalized(pv, plo, 1.0 / pspread));
    (ToByte(c.red * 255.0), ToByte(c.green * 255.0), ToByte(c.blue * 255.0))
  }

  /**
   * The byte of one channel of a smoke level from 0 to 255 shown in a
   * colour whose channel is the fraction channel: never brighter than the
   * grayscale level, and black where the channel is off.
   */
  function Tinted(level: real, channel: real): (b: byte)
    requires 0.0 <= level <= 255.0 && InUnit(channel)
    ensures b <= ToByte(level)
    ensures channel == 0.0 ==> b == 0
  {
    ScaledChannel(level, channel);
    ToByteMonotonic(level * channel, level);
    ToByte(level * channel)
  }

  /**
   * The colour of a cell with pressure pv and smoke mv, given as three
   * bytes: the pressure colour darkened by the smoke level.
   */
  function ColoredSmokeBytes(pv: real, plo: real, pspread: real, mv: real, mlo: real, mspread: real): (b: (byte, byte, byte))
    requires pspread > 0.0 && plo <= pv && pv - plo <= pspread
    requires mspread > 0.0 && mlo <= mv && mv - mlo <= mspread
    ensures b.0 <= SmokeLevel(mv, mlo, mspread) && b.1 <= SmokeLevel(mv, mlo, mspread) && b.2 <= SmokeLevel(mv, mlo, mspread)
    ensures b.0 == 0 || b.1 == 0 || b.2 == 0
  {
    ScaledFraction(pv, plo, pspread, 1.0);
    var c := ChoosePressureColor(Normalized(pv, plo, 1.0 / pspread));
    ScaledFraction(mv, mlo, mspread, 255.0);
    var percent := Normalized(mv, mlo, (1.0 / mspread) * 255.0);
    (Tinted(percent, c.red), Tinted(percent, c.green), Tinted(percent, c.blue))
  }

  /**
   * The pixel cell (i, j) of an nx-by-ny grid is drawn at: rows are
   * flipped, so row 0 is the last row of the image.
   */
  function Pixel(nx: nat, ny: nat, i: int, j: int): int
  {
    i + (ny - 1 - j) * nx
  }

  /** The cell drawn at pixel k; the inverse of Pixel. */
  function CellOf(nx: nat, ny: nat, k: int): (int, int)
    requires nx > 0
  {
    (k % nx, ny - 1 - k / nx)
  }

  lemma PixelInRange(nx: nat, ny: nat, i: int, j: int)
    requires 0 <= i < nx && 0 <= j < ny
    ensures 0 <= Pixel(nx, ny, i, j) < nx * ny
  {
    var r := ny - 1 - j;
    assert 0 <= r <= ny - 1;
    assert r * nx <= (ny - 1) * nx;
    assert (ny - 1) * nx + nx == nx * ny;
  }

  /** Every cell is drawn at one pixel, and the cell drawn there is that cell. */
  lemma CellOfPixel(nx: nat, ny: nat, i: int, j: int)
    requires 0 <= i < nx && 0 <= j < ny
    ensures CellOf(nx, ny, Pixel(nx, ny, i, j)) == (i, j)
  {
    var r := ny - 1 - j;
    var k := i + r * nx;
    assert k / nx == r && k % nx == i by {
      DivModUnique(k, nx, r, i);
    }
  }

  /** Every pixel of the image shows some cell of the grid. */
  lemma PixelOfCell(nx: nat, ny: nat, k: int)
    requires nx > 0 && 0 <= k < nx * ny
    ensures var (i, j) := CellOf(nx, ny, k); 0 <= i < nx && 0 <= j < ny && Pixel(nx, ny, i, j) == k
  {
    var q, r := k / nx, k % nx;
    assert k == q * nx + r;
    if q >= ny {
      MulAtLeast(q - ny + 1, nx);
    }
    assert 0 <= q;
  }

  /**
   * Every byte of a buffer of three bytes per cell is one of the three
   * bytes of the pixel of some cell.
   */
  lemma EveryByteDrawn(nx: nat, ny: nat, q: int)
    requires nx > 0 && 0 <= q < nx * ny * 3
    ensures var (i, j) := CellOf(nx, ny, q / 3);
      0 <= i < nx && 0 <= j < ny && q == 3 * Pixel(nx, ny, i, j) + q % 3
  {
    PixelOfCell(nx, ny, q / 3);
  }

  /** Two different cells are drawn at two different pixels. */
  lemma PixelInjective(nx: nat, ny: nat, i: int, j: int, i': int, j': int)
    requires 0 <= i < nx && 0 <= j < ny && 0 <= i' < nx && 0 <= j' < ny
    requires (i, j) != (i', j')
    ensures Pixel(nx, ny, i, j) != Pixel(nx, ny, i', j')
  {
    CellOfPixel(nx, ny, i, j);
    CellOfPixel(nx, ny, i', j');
  }

  lemma {:induction false} MulAtLeast(a: int, n: int)
    requires a >= 1 && n >= 0
    ensures a * n >= n
  {
    if a > 1 {
      MulAtLeast(a - 1, n);
      assert a * n == (a - 1) * n + n;
    }
  }

  /** Division with remainder has exactly one answer. */
  lemma DivModUnique(k: int, n: int, q: int, r: int)
    requires n > 0 && 0 <= r < n && k == q * n + r
    ensures k / n == q && k % n == r
  {
    var q', r' := k / n, k % n;
    assert k == q' * n + r';
    if q > q' {
      MulAtLeast(q - q', n);
    } else if q < q' {
      MulAtLeast(q' - q, n);
    }
  }

  /** The pixel of cell (i, j) as the renderer computes it from its row offsets. */
  lemma PixelOffsets(nx: nat, ny: nat, i: int, j: int)
    ensures i + (ny - 1) * nx - j * nx == Pixel(nx, ny, i, j)
  {
  }

  /** The rows before row j + 1 of the grid end where row j does. */
  lemma RowOffsets(nx: nat, ny: nat, j: int)
    requires 0 <= j < ny
    ensures 0 <= j * nx && j * nx + nx == (j + 1) * nx <= nx * ny
  {
    MulAtLeast(ny - j, nx);
    assert (ny - j) * nx == nx * ny - j * nx;
  }

  /** Cell (a, b) comes before cell (i, j) in row-by-row order. */
  predicate Before(a: int, b: int, i: int, j: int)
  {
    b < j || (b == j && a < i)
  }

  class ColorSimRenderer {
    const numCellsX: nat
    const numCellsY: nat
    const bits: array<byte>
    var showPressure: bool
    var showColoredSmoke: bool
    var showFlowLines: bool
    var minPressure: real
    var maxPressure: real
    var minSmoke: real
    var maxSmoke: real

    /** The buffer holds three bytes for every cell. */
    predicate Valid()
    {
      bits.Length == numCellsX * numCellsY * 3
    }

    /** The three bytes of the pixel cell (i, j) is drawn at. */
    function PixelBytes(i: int, j: int): (byte, byte, byte)
      requires Valid() && 0 <= i < numCellsX && 0 <= j < numCellsY
      reads bits
    {
      PixelInRange(numCellsX, numCellsY, i, j);
      var k := Pixel(numCellsX, numCellsY, i, j);
      (bits[3 * k], bits[3 * k + 1], bits[3 * k + 2])
    }

    constructor (nx: nat, ny: nat)
      ensures numCellsX == nx && numCellsY == ny && Valid() && fresh(bits)
      ensures forall k :: 0 <= k < bits.Length ==> bits[k] == 255
      ensures !showPressure && showColoredSmoke && !showFlowLines
      ensures minPressure == FloatMax && maxPressure == -FloatMax
      ensures minSmoke == FloatMax && maxSmoke == -FloatMax
    {
      numCellsX, numCellsY := nx, ny;
      showPressure, showColoredSmoke, showFlowLines := false, true, false;
      minPressure, maxPressure := FloatMax, -FloatMax;
      minSmoke, maxSmoke := FloatMax, -FloatMax;
      var len := nx * ny * 3;
      var buffer := new byte[len];
      var i := 0;
      while i < len
        invariant 0 <= i <= len
        invariant forall k :: 0 <= k < i ==> buffer[k] == 255
      {
        buffer[i] := 255;
        i := i + 1;
      }
      bits := buffer;
    }

    /**
     * The least and the greatest value of the field f over the grid, and
     * the spread it is normalised over.  An empty grid leaves the
     * starting bounds, whose difference is negative, so its spread is the
     * least one.
     */
    method GetMinMaxSpread(f: seq<real>) returns (min: real, max: real, spread: real)
      requires |f| >= numCellsX * numCellsY && Finite(f)
      ensures IsMinMax(f, numCellsX, numCellsY, min, max)
      ensures numCellsX == 0 || numCellsY == 0 ==> min == FloatMax && max == -FloatMax
      ensures spread == SpreadOf(min, max)
    {
      min := FloatMax;
      max := -FloatMax;
      ghost var seen := false;
      ghost var li, lj, hi, hj := 0, 0, 0, 0;
      var j := 0;
      while j < numCellsY
        invariant 0 <= j <= numCellsY
        invariant forall a, b :: 0 <= a < numCellsX && 0 <= b < j ==> min <= Cell(f, numCellsX, numCellsY, a, b) <= max
        invariant seen <==> j > 0 && numCellsX > 0
        invariant seen ==> 0 <= li < numCellsX && 0 <= lj < j && Cell(f, numCellsX, numCellsY, li, lj) == min
        invariant seen ==> 0 <= hi < numCellsX && 0 <= hj < j && Cell(f, numCellsX, numCellsY, hi, hj) == max
        invariant !seen ==> min == FloatMax && max == -FloatMax
      {
        var i := 0;
        while i < numCellsX
          invariant 0 <= i <= numCellsX
          invariant forall a, b :: 0 <= a < numCellsX && 0 <= b < numCellsY && Before(a, b, i, j) ==> min <= Cell(f, numCellsX, numCellsY, a, b) <= max
          invariant seen <==> (j > 0 && numCellsX > 0) || i > 0
          invariant seen ==> 0 <= li < numCellsX && 0 <= lj < numCellsY && Before(li, lj, i, j) && Cell(f, numCellsX, numCellsY, li, lj) == min
          invariant seen ==> 0 <= hi < numCellsX && 0 <= hj < numCellsY && Before(hi, hj, i, j) && Cell(f, numCellsX, numCellsY, hi, hj) == max
          invariant !seen ==> min == FloatMax && max == -FloatMax
        {
          CellIndex(numCellsX, numCellsY, i, j);
          var val := f[i + j * numCellsX];
          assert val == Cell(f, numCellsX, numCellsY, i, j);
          if min > val || !seen {
            li, lj := i, j;
          }
          if min > val {
            min := val;
          }
          if max < val || !seen {
            hi, hj := i, j;
          }
          if max < val {
            max := val;
          }
          seen := true;
          i := i + 1;
        }
        j := j + 1;
      }
      spread := max - min;
      if spread < MinSpread {
        spread := MinSpread;
      }
    }

    /** The grayscale image of the smoke field m: each cell's level is its smoke, normalised. */
    ghost predicate ShowsSmoke(m: seq<real>, lo: real, hi: real)
      requires Valid() && |m| >= numCellsX * numCellsY && IsMinMax(m, numCellsX, numCellsY, lo, hi)
      reads bits
    {
      MinMaxWithin(m, numCellsX, numCellsY, lo, hi);
      forall i, j :: 0 <= i < numCellsX && 0 <= j < numCellsY ==>
        var g := SmokeLevel(Cell(m, numCellsX, numCellsY, i, j), lo, SpreadOf(lo, hi));
        PixelBytes(i, j) == (g, g, g)
    }

    /** The image of the pressure field p: each cell's hue is its pressure, normalised. */
    ghost predicate ShowsPressure(p: seq<real>, lo: real, hi: real)
      requires Valid() && |p| >= numCellsX * numCellsY && IsMinMax(p, numCellsX, numCellsY, lo, hi)
      reads bits
    {
      MinMaxWithin(p, numCellsX, numCellsY, lo, hi);
      forall i, j :: 0 <= i < numCellsX && 0 <= j < numCellsY ==>
        PixelBytes(i, j) == PressureBytes(Cell(p, numCellsX, numCellsY, i, j), lo, SpreadOf(lo, hi))
    }

    /** The image of pressure p coloured over smoke m: each cell's hue is its pressure and its level its smoke. */
    ghost predicate ShowsColoredSmoke(p: seq<real>, plo: real, phi: real, m: seq<real>, mlo: real, mhi: real)
      requires Valid() && |p| >= numCellsX * numCellsY && IsMinMax(p, numCellsX, numCellsY, plo, phi)
      requires |m| >= numCellsX * numCellsY && IsMinMax(m, numCellsX, numCellsY, mlo, mhi)
      reads bits
    {
      MinMaxWithin(p, numCellsX, numCellsY, plo, phi);
      MinMaxWithin(m, numCellsX, numCellsY, mlo, mhi);
      forall i, j :: 0 <= i < numCellsX && 0 <= j < numCellsY ==>
        PixelBytes(i, j) == ColoredSmokeBytes(
          Cell(p, numCellsX, numCellsY, i, j), plo, SpreadOf(plo, phi),
          Cell(m, numCellsX, numCellsY, i, j), mlo, SpreadOf(mlo, mhi))
    }

    /**
     * Writes the three bytes of the pixel of cell (i, j), at the byte
     * index the renderer computes from its row offsets, and leaves every
     * other cell's pixel as it was.
     */
    method PutPixel(i: int, j: int, b: (byte, byte, byte))
      requires Valid() && 0 <= i < numCellsX && 0 <= j < numCellsY
      modifies bits
      ensures PixelBytes(i, j) == b
      ensures forall a, c :: 0 <= a < numCellsX && 0 <= c < numCellsY && (a, c) != (i, j) ==> PixelBytes(a, c) == old(PixelBytes(a, c))
    {
      var jmax := (numCellsY - 1) * numCellsX;
      var j0 := j * numCellsX;
      PixelOffsets(numCellsX, numCellsY, i, j);
      PixelInRange(numCellsX, numCellsY, i, j);
      var index := (i + jmax - j0) * 3;
      bits[index] := b.0;
      bits[index + 1] := b.1;
      bits[index + 2] := b.2;
      forall a, c | 0 <= a < numCellsX && 0 <= c < numCellsY && (a, c) != (i, j)
        ensures PixelBytes(a, c) == old(PixelBytes(a, c))
      {
        PixelInjective(numCellsX, numCellsY, i, j, a, c);
        PixelInRange(numCellsX, numCellsY, a, c);
      }
    }

    /** The cells before cell (i, j) show the smoke of m in gray, normalised from lo over spread. */
    ghost predicate SmokeUpTo(m: seq<real>, lo: real, spread: real, i: int, j: int)
      requires Valid() && |m| >= numCellsX * numCellsY && Within(m, numCellsX, numCellsY, lo, spread)
      reads bits
    {
      forall a, b :: 0 <= a < numCellsX && 0 <= b < numCellsY && Before(a, b, i, j) ==>
        var g := SmokeLevel(Cell(m, numCellsX, numCellsY, a, b), lo, spread);
        PixelBytes(a, b) == (g, g, g)
    }

    /** Draws row j of the smoke field m in gray. */
    method RenderSmokeRow(m: seq<real>, j: int, lo: real, spread: real)
      requires Valid() && |m| >= numCellsX * numCellsY && Within(m, numCellsX, numCellsY, lo, spread)
      requires 0 <= j < numCellsY && SmokeUpTo(m, lo, spread, 0, j)
      modifies bits
      ensures SmokeUpTo(m, lo, spread, 0, j + 1)
    {
      var invspread := (1.0 / spread) * 255.0;
      var i := 0;
      while i < numCellsX
        invariant 0 <= i <= numCellsX
        invariant SmokeUpTo(m, lo, spread, i, j)
      {
        CellIndex(numCellsX, numCellsY, i, j);
        var j0 := j * numCellsX;
        var val := m[i + j0];
        assert val == Cell(m, numCellsX, numCellsY, i, j);
        var percent := Normalized(val, lo, invspread);
        ScaledFraction(val, lo, spread, 255.0);
        var g := ToByte(percent);
        assert g == SmokeLevel(val, lo, spread);
        PutPixel(i, j, (g, g, g));
        i := i + 1;
      }
    }

    /** Draws the smoke field m in gray: the least smoke black, the most white. */
    method RenderSmoke(m: seq<real>)
      requires Valid() && |m| >= numCellsX * numCellsY && Finite(m)
      modifies this`minSmoke, this`maxSmoke, bits
      ensures IsMinMax(m, numCellsX, numCellsY, minSmoke, maxSmoke)
      ensures ShowsSmoke(m, minSmoke, maxSmoke)
    {
      var lo, hi, spread := GetMinMaxSpread(m);
      minSmoke, maxSmoke := lo, hi;
      MinMaxWithin(m, numCellsX, numCellsY, lo, hi);
      var j := 0;
      while j < numCellsY
        invariant 0 <= j <= numCellsY
        invariant minSmoke == lo && maxSmoke == hi
        invariant SmokeUpTo(m, lo, spread, 0, j)
      {
        RenderSmokeRow(m, j, lo, spread);
        j := j + 1;
      }
    }

    /** The bytes of a cell with pressure val, from the inverse of the spread. */
    static method PressureCell(val: real, lo: real, invspread: real, ghost spread: real) returns (b: (byte, byte, byte))
      requires spread > 0.0 && lo <= val && val - lo <= spread && invspread == 1.0 / spread
      ensures b == PressureBytes(val, lo, spread)
    {
      var percent := Normalized(val, lo, invspread);
      ScaledFraction(val, lo, spread, 1.0);
      var c := ChoosePressureColor(percent);
      b := (ToByte(c.red * 255.0), ToByte(c.green * 255.0), ToByte(c.blue * 255.0));
    }

    /**
     * The bytes of a cell with pressure pv and smoke mv, from the inverses
     * of their spreads.
     */
    static method ColoredSmokeCell(pv: real, plo: real, invspread: real, ghost pspread: real,
                                   mv: real, mlo: real, invsmokespread: real, ghost mspread: real)
      returns (b: (byte, byte, byte))
      requires pspread > 0.0 && plo <= pv && pv - plo <= pspread && invspread == 1.0 / pspread
      requires mspread > 0.0 && mlo <= mv && mv - mlo <= mspread && invsmokespread == (1.0 / mspread) * 255.0
      ensures b == ColoredSmokeBytes(pv, plo, pspread, mv, mlo, mspread)
    {
      var percent := Normalized(pv, plo, invspread);
      ScaledFraction(pv, plo, pspread, 1.0);
      var c := ChoosePressureColor(percent);
      percent := Normalized(mv, mlo, invsmokespread);
      ScaledFraction(mv, mlo, mspread, 255.0);
      b := (Tinted(percent, c.red), Tinted(percent, c.green), Tinted(percent, c.blue));
    }

    /** The cells before cell (i, j) show the pressure of p as a hue, normalised from lo over spread. */
    ghost predicate PressureUpTo(p: seq<real>, lo: real, spread: real, i: int, j: int)
      requires Valid() && |p| >= numCellsX * numCellsY && Within(p, numCellsX, numCellsY, lo, spread)
      reads bits
    {
      forall a, b :: 0 <= a < numCellsX && 0 <= b < numCellsY && Before(a, b, i, j) ==>
        PixelBytes(a, b) == PressureBytes(Cell(p, numCellsX, numCellsY, a, b), lo, spread)
    }

    /** Draws row j of the pressure field p in colour. */
    method RenderPressureRow(p: seq<real>, j: int, lo: real, spread: real)
      requires Valid() && |p| >= numCellsX * numCellsY && Within(p, numCellsX, numCellsY, lo, spread)
      requires 0 <= j < numCellsY && PressureUpTo(p, lo, spread, 0, j)
      modifies bits
      ensures PressureUpTo(p, lo, spread, 0, j + 1)
    {
      var invspread := 1.0 / spread;
      var i := 0;
      while i < numCellsX
        invariant 0 <= i <= numCellsX
        invariant PressureUpTo(p, lo, spread, i, j)
      {
        CellIndex(numCellsX, numCellsY, i, j);
        var j0 := j * numCellsX;
        var val := p[i + j0];
        assert val == Cell(p, numCellsX, numCellsY, i, j);
        var b := PressureCell(val, lo, invspread, spread);
        PutPixel(i, j, b);
        i := i + 1;
      }
    }

    /** Draws the pressure field p in colour: the least pressure red, the greatest blue. */
    method RenderPressure(p: seq<real>)
      requires Valid() && |p| >= numCellsX * numCellsY && Finite(p)
      modifies this`minPressure, this`maxPressure, bits
      ensures IsMinMax(p, numCellsX, numCellsY, minPressure, maxPressure)
      ensures ShowsPressure(p, minPressure, maxPressure)
    {
      var lo, hi, spread := GetMinMaxSpread(p);
      minPressure, maxPressure := lo, hi;
      MinMaxWithin(p, numCellsX, numCellsY, lo, hi);
      var j := 0;
      while j < numCellsY
        invariant 0 <= j <= numCellsY
        invariant minPressure == lo && maxPressure == hi
        invariant PressureUpTo(p, lo, spread, 0, j)
      {
        RenderPressureRow(p, j, lo, spread);
        j := j + 1;
      }
    }

    /**
     * The cells before cell (i, j) show the pressure of p as a hue and the
     * smoke of m as its level.
     */
    ghost predicate ColoredSmokeUpTo(p: seq<real>, plo: real, pspread: real, m: seq<real>, mlo: real, mspread: real, i: int, j: int)
      requires Valid() && |p| >= numCellsX * numCellsY && Within(p, numCellsX, numCellsY, plo, pspread)
      requires |m| >= numCellsX * numCellsY && Within(m, numCellsX, numCellsY, mlo, mspread)
      reads bits
    {
      forall a, b :: 0 <= a < numCellsX && 0 <= b < numCellsY && Before(a, b, i, j) ==>
        PixelBytes(a, b) == ColoredSmokeBytes(Cell(p, numCellsX, numCellsY, a, b), plo, pspread, Cell(m, numCellsX, numCellsY, a, b), mlo, mspread)
    }

    /** Draws row j of the smoke field m coloured by the pressure field p. */
    method RenderColoredSmokeRow(p: seq<real>, plo: real, pspread: real, m: seq<real>, mlo: real, mspread: real, j: int)
      requires Valid() && |p| >= numCellsX * numCellsY && Within(p, numCellsX, numCellsY, plo, pspread)
      requires |m| >= numCellsX * numCellsY && Within(m, numCellsX, numCellsY, mlo, mspread)
      requires 0 <= j < numCellsY && ColoredSmokeUpTo(p, plo, pspread, m, mlo, mspread, 0, j)
      modifies bits
      ensures ColoredSmokeUpTo(p, plo, pspread, m, mlo, mspread, 0, j + 1)
    {
      var invspread := 1.0 / pspread;
      var invsmokespread := (1.0 / mspread) * 255.0;
      var i := 0;
      while i < numCellsX
        invariant 0 <= i <= numCellsX
        invariant ColoredSmokeUpTo(p, plo, pspread, m, mlo, mspread, i, j)
      {
        CellIndex(numCellsX, numCellsY, i, j);
        var j0 := j * numCellsX;
        var pv, mv := p[i + j0], m[i + j0];
        assert pv == Cell(p, numCellsX, numCellsY, i, j) && mv == Cell(m, numCellsX, numCellsY, i, j);
        var b := ColoredSmokeCell(pv, plo, invspread, pspread, mv, mlo, invsmokespread, mspread);
        PutPixel(i, j, b);
        i := i + 1;
      }
    }

    /** Draws the smoke field m with each cell's colour chosen by its pressure in p. */
    method RenderColoredSmoke(p: seq<real>, m: seq<real>)
      requires Valid() && |p| >= numCellsX * numCellsY && Finite(p)
      requires |m| >= numCellsX * numCellsY && Finite(m)
      modifies this`minPressure, this`maxPressure, this`minSmoke, this`maxSmoke, bits
      ensures IsMinMax(p, numCellsX, numCellsY, minPressure, maxPressure)
      ensures IsMinMax(m, numCellsX, numCellsY, minSmoke, maxSmoke)
      ensures ShowsColoredSmoke(p, minPressure, maxPressure, m, minSmoke, maxSmoke)
    {
      var plo, phi, pspread := GetMinMaxSpread(p);
      minPressure, maxPressure := plo, phi;
      var mlo, mhi, mspread := GetMinMaxSpread(m);
      minSmoke, maxSmoke := mlo, mhi;
      MinMaxWithin(p, numCellsX, numCellsY, plo, phi);
      MinMaxWithin(m, numCellsX, numCellsY, mlo, mhi);
      var j := 0;
      while j < numCellsY
        invariant 0 <= j <= numCellsY
        invariant minPressure == plo && maxPressure == phi && minSmoke == mlo && maxSmoke == mhi
        invariant ColoredSmokeUpTo(p, plo, pspread, m, mlo, mspread, 0, j)
      {
        RenderColoredSmokeRow(p, plo, pspread, m, mlo, mspread, j);
        j := j + 1;
      }
    }

    /**
     * Draws the frame the flags select: pressure if it is shown, else
     * smoke coloured by pressure if that is shown, else gray smoke.  The
     * flow lines drawn on top when they are shown are not part of this
     * model.
     */
    method Render(p: seq<real>, m: seq<real>)
      requires Valid() && |p| >= numCellsX * numCellsY && Finite(p)
      requires |m| >= numCellsX * numCellsY && Finite(m)
      modifies this`minPressure, this`maxPressure, this`minSmoke, this`maxSmoke, bits
      ensures showPressure ==>
        IsMinMax(p, numCellsX, numCellsY, minPressure, maxPressure) &&
        ShowsPressure(p, minPressure, maxPressure) &&
        minSmoke == old(minSmoke) && maxSmoke == old(maxSmoke)
      ensures !showPressure && showColoredSmoke ==>
        IsMinMax(p, numCellsX, numCellsY, minPressure, maxPressure) &&
        IsMinMax(m, numCellsX, numCellsY, minSmoke, maxSmoke) &&
        ShowsColoredSmoke(p, minPressure, maxPressure, m, minSmoke, maxSmoke)
      ensures !showPressure && !showColoredSmoke ==>
        IsMinMax(m, numCellsX, numCellsY, minSmoke, maxSmoke) &&
        ShowsSmoke(m, minSmoke, maxSmoke) &&
        minPressure == old(minPressure) && maxPressure == old(maxPressure)
    {
      if showPressure {
        RenderPressure(p);
      } else if showColoredSmoke {
        RenderColoredSmoke(p, m);
      } else {
        RenderSmoke(m);
      }
    }
  }
}
