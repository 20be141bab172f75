/**
 * The initial scene the Simulation constructor builds: the circular obstacle
 * BlockCircle carves into the mask and the strip of rows SetLeftSmoke seeds
 * with smoke in column 0.
 */
module Setup {
  import opened FluidState
  import Sampling

  /**
   * Cell (i, j) lies strictly inside the circle of the given radius around
   * (x, y). The source compares the square root of the squared distance with
   * the radius; a distance is never negative, so for a radius <= 0 no cell is
   * inside, and for a positive radius that is the same as comparing the
   * squared distance with the squared radius.
   */
  predicate InCircle(i: int, j: int, x: int, y: int, radius: real) {
    radius > 0.0 && ((i - x) * (i - x) + (j - y) * (j - y)) as real < radius * radius
  }

  /**
   * Every cell BlockCircle writes lies inside the grid: it indexes the mask
   * only at the cells strictly inside the circle.
   */
  ghost predicate CircleInGrid(nx: nat, ny: nat, x: int, y: int, radius: real) {
    forall i, j :: InCircle(i, j, x, y, radius) ==> 0 <= i < nx && 0 <= j < ny
  }

  /** The radius of the obstacle the constructor carves: 0.2 times the smaller extent. */
  function ObstacleRadius(nx: nat, ny: nat): (r: real)
    ensures r >= 0.0
  {
    var size := if nx > ny then ny else nx;
    size as real * 0.2
  }

  /** Every cell inside a circle lies in the index ranges the loops of BlockCircle cover. */
  lemma InCircleInLoops(i: int, j: int, x: int, y: int, radius: real)
    requires InCircle(i, j, x, y, radius)
    ensures x - radius.Floor <= i && (i as real) < x as real + radius
    ensures y - radius.Floor <= j && (j as real) < y as real + radius
  {
    SquareBelow(i - x, (j - y) * (j - y), radius);
    SquareBelow(j - y, (i - x) * (i - x), radius);
  }

  /** If a^2 + rest < r^2 with rest >= 0 and r >= 0, then -r < a < r and so a > -floor(r) - 1. */
  lemma SquareBelow(a: int, rest: int, radius: real)
    requires radius >= 0.0 && rest >= 0 && (a * a + rest) as real < radius * radius
    ensures radius > 0.0 && -radius < a as real < radius && -radius.Floor <= a
  {
    var ar := if a >= 0 then a as real else -a as real;
    assert ar * ar == (a * a) as real;
    if ar >= radius {
      Sampling.MulMono(ar, radius, ar);
      Sampling.MulMono(radius, radius, ar);
      assert false;
    }
  }

  /**
   * The obstacle the constructor asks for, centred at (nx/4, ny/2) with radius
   * 0.2 * min(nx, ny), lies inside the grid.
   */
  lemma ObstacleFits(nx: nat, ny: nat)
    requires nx >= 2 && ny >= 1
    ensures CircleInGrid(nx, ny, nx / 4, ny / 2, ObstacleRadius(nx, ny))
  {
    var r := ObstacleRadius(nx, ny);
    assert r <= nx as real * 0.2 && r <= ny as real * 0.2;
    assert nx as real < 4.0 * (nx / 4) as real + 4.0;
    assert ny as real < 2.0 * (ny / 2) as real + 2.0;
    assert r.Floor as real <= r;
    forall i, j | InCircle(i, j, nx / 4, ny / 2, r)
      ensures 0 <= i < nx && 0 <= j < ny
    {
      InCircleInLoops(i, j, nx / 4, ny / 2, r);
    }
  }

  /** The rows SetLeftSmoke seeds: from (int)(0.4 * ny) up to, not including, (int)(0.6 * ny). */
  function SmokeStrip(ny: nat): (r: (int, int))
    ensures 0 <= r.0 <= r.1 <= ny
  {
    ((ny as real * 0.4).Floor, (ny as real * 0.6).Floor)
  }

  /** The strip is never empty once the grid has five rows (for three rows it is). */
  lemma SmokeStripNonEmpty(ny: nat)
    requires ny >= 5
    ensures SmokeStrip(ny).0 < SmokeStrip(ny).1
  {
  }
}
