/** The points a line is drawn with: the nearest to the ideal line, ties rounded
    back. */
module Lines {
  import opened Bytes

  datatype Point = Point(x: int, y: int)

  function Abs(a: int): nat {
    if a < 0 then -a else a
  }

  /** The steps from one end to the other along the longer side. */
  function Steps(a: Point, b: Point): nat {
    Max(Abs(b.x - a.x), Abs(b.y - a.y))
  }

  /** `n` steps from `a` towards `b`; away from `b` when they are equal. */
  function Toward(a: int, b: int, n: int): int {
    if a < b then a + n else a - n
  }

  /** The loop's step along one axis. */
  function Sign(a: int, b: int): int {
    if a < b then 1 else -1
  }

  /** n * minor / major, rounded to the nearest integer, halves down. */
  function Round(n: nat, minor: nat, major: nat): int
    requires major > 0
  {
    (2 * (n * minor) + major - 1) / (2 * major)
  }

  /** Point number `k` of the line. */
  function PointAt(a: Point, b: Point, k: nat): Point {
    var dx, dy := Abs(b.x - a.x), Abs(b.y - a.y);
    if dx == 0 && dy == 0 then a
    else if dx >= dy then Point(Toward(a.x, b.x, k), Toward(a.y, b.y, Round(k, dy, dx)))
    else Point(Toward(a.x, b.x, Round(k, dx, dy)), Toward(a.y, b.y, k))
  }

  function Points(a: Point, b: Point): (path: seq<Point>)
    ensures |path| == Steps(a, b) + 1
    ensures forall k :: 0 <= k < |path| ==> path[k] == PointAt(a, b, k)
  {
    seq(Steps(a, b) + 1, k requires 0 <= k => PointAt(a, b, k))
  }

  lemma NextPoint(a: Point, b: Point, k: nat)
    requires k <= Steps(a, b)
    ensures Points(a, b)[..k + 1] == Points(a, b)[..k] + [PointAt(a, b, k)]
  {
  }

  lemma {:induction false} Between(d: nat, q: int, r: int)
    requires q < r
    ensures q * d + d <= r * d
    decreases r - q
  {
    assert (q + 1) * d == q * d + d;
    if q + 1 < r {
      Between(d, q + 1, r);
    }
  }

  lemma QuotientIs(n: int, d: nat, q: int)
    requires d > 0 && q * d <= n < q * d + d
    ensures n / d == q
  {
    var r := n / d;
    assert r * d <= n < r * d + d;
    if r < q {
      Between(d, r, q);
    } else if q < r {
      Between(d, q, r);
    }
  }

  /** The error bound singles out one integer. */
  lemma RoundIs(n: nat, minor: nat, major: nat, q: int)
    requires major > 0 && 0 - major <= 2 * (q * major - n * minor) < major
    ensures Round(n, minor, major) == q
  {
    assert q * (2 * major) == 2 * (q * major);
    QuotientIs(2 * (n * minor) + major - 1, 2 * major, q);
  }

  /** Round is within half a unit of the ideal value. */
  lemma RoundError(n: nat, minor: nat, major: nat)
    requires major > 0
    ensures 0 - major <= 2 * (Round(n, minor, major) * major - n * minor) < major
  {
    var q, t := Round(n, minor, major), 2 * (n * minor) + major - 1;
    assert q * (2 * major) <= t < q * (2 * major) + 2 * major;
    assert q * (2 * major) == 2 * (q * major);
  }

  lemma RoundEnds(minor: nat, major: nat)
    requires major > 0
    ensures Round(0, minor, major) == 0 && Round(major, minor, major) == minor
  {
    RoundIs(0, minor, major, 0);
    assert minor * major == major * minor;
    RoundIs(major, minor, major, minor);
  }

  /** The minor side advances by at most one at a time, and never back. */
  lemma RoundSlope(n: nat, minor: nat, major: nat)
    requires major > 0 && minor <= major
    ensures 0 <= Round(n + 1, minor, major) - Round(n, minor, major) <= 1
  {
    RoundError(n, minor, major);
    var q := Round(n, minor, major);
    assert (n + 1) * minor == n * minor + minor;
    assert (q + 1) * major == q * major + major;
    if 2 * (q * major - n * minor - minor) >= 0 - major {
      RoundIs(n + 1, minor, major, q);
    } else {
      RoundIs(n + 1, minor, major, q + 1);
    }
  }

  /** The line starts and ends on its endpoints. */
  lemma LineEnds(a: Point, b: Point)
    ensures Points(a, b)[0] == a && Points(a, b)[Steps(a, b)] == b
  {
    var dx, dy := Abs(b.x - a.x), Abs(b.y - a.y);
    if dx > 0 || dy > 0 {
      RoundEnds(Min(dx, dy), Max(dx, dy));
    }
  }

  /** After i steps in x and j steps in y the error is at most half a pixel along
      the shorter side: |j dx - i dy| <= max(dx, dy) / 2. */
  lemma LineError(a: Point, b: Point, k: nat)
    requires k <= Steps(a, b)
    ensures var p, dx, dy := PointAt(a, b, k), Abs(b.x - a.x), Abs(b.y - a.y);
      var i, j := Abs(p.x - a.x), Abs(p.y - a.y);
      2 * Abs(j * dx - i * dy) <= Max(dx, dy)
  {
    var dx, dy := Abs(b.x - a.x), Abs(b.y - a.y);
    if dx > 0 || dy > 0 {
      RoundError(k, Min(dx, dy), Max(dx, dy));
      RoundNat(k, Min(dx, dy), Max(dx, dy));
      if dx >= dy {
        LineErrorAt(Round(k, dy, dx), k, dx, dy);
      } else {
        LineErrorAt(k, Round(k, dx, dy), dx, dy);
      }
    }
  }

  lemma LineErrorAt(j: nat, i: nat, dx: nat, dy: nat)
    requires dx >= dy ==> 0 - dx <= 2 * (j * dx - i * dy) < dx
    requires dx < dy ==> 0 - dy <= 2 * (i * dy - j * dx) < dy
    ensures 2 * Abs(j * dx - i * dy) <= Max(dx, dy)
  {
  }

  lemma RoundNat(n: nat, minor: nat, major: nat)
    requires major > 0
    ensures Round(n, minor, major) >= 0
  {
    assert n * minor >= 0;
  }

  /** Consecutive points are neighbours, and no point is drawn twice. */
  lemma LineConnected(a: Point, b: Point, k: nat)
    requires k < Steps(a, b)
    ensures var p, q := PointAt(a, b, k), PointAt(a, b, k + 1);
      Max(Abs(q.x - p.x), Abs(q.y - p.y)) == 1
  {
    var dx, dy := Abs(b.x - a.x), Abs(b.y - a.y);
    RoundSlope(k, Min(dx, dy), Max(dx, dy));
  }

  lemma LineNeverRepeats(a: Point, b: Point, k: nat, m: nat)
    requires k < m <= Steps(a, b)
    ensures PointAt(a, b, k) != PointAt(a, b, m)
  {
  }

  // --- the running error ----------------------------------------------------

  /** The error term after i steps in x and j in y. */
  function Error(dx: nat, dy: nat, i: int, j: int): int {
    j * dx - i * dy
  }

  lemma ErrorSteps(dx: nat, dy: nat, i: int, j: int)
    ensures Error(dx, dy, i + 1, j) == Error(dx, dy, i, j) - dy
    ensures Error(dx, dy, i, j + 1) == Error(dx, dy, i, j) + dx
    ensures Error(dx, dy, i + 1, j + 1) == Error(dx, dy, i, j) + dx - dy
  {
  }

  /** Where the loop is after `k` rounds. */
  ghost predicate Tracks(dx: nat, dy: nat, k: int, i: int, j: int) {
    && (dx >= dy ==> i == k && 0 - dx <= 2 * Error(dx, dy, i, j) && 2 * Error(dx, dy, i, j) <= dx)
    && (dx > dy ==> 2 * Error(dx, dy, i, j) < dx)
    && (dx == dy ==> Error(dx, dy, i, j) == 0 && j == k)
    && (dx < dy ==> j == k && 0 - dy < 2 * Error(dx, dy, i, j) <= dy)
  }

  /** What one round of the loop decides. */
  function StepsX(dx: nat, dy: nat, err: int): int {
    if err * 2 > 0 - dy then 1 else 0
  }

  function StepsY(dx: nat, dy: nat, err: int): int {
    if err * 2 < dx then 1 else 0
  }

  lemma TracksNext(dx: nat, dy: nat, k: int, i: int, j: int)
    requires Tracks(dx, dy, k, i, j) && (dx > 0 || dy > 0)
    ensures var err := dx - dy + Error(dx, dy, i, j);
      Tracks(dx, dy, k + 1, i + StepsX(dx, dy, err), j + StepsY(dx, dy, err))
  {
    ErrorSteps(dx, dy, i, j);
    hide Error;
  }

  /** The loop stands on point number `k`. */
  lemma TracksPoint(a: Point, b: Point, k: nat, i: int, j: int)
    requires Tracks(Abs(b.x - a.x), Abs(b.y - a.y), k, i, j) && Steps(a, b) > 0
    ensures PointAt(a, b, k) == Point(Toward(a.x, b.x, i), Toward(a.y, b.y, j))
  {
    var dx, dy := Abs(b.x - a.x), Abs(b.y - a.y);
    if dx >= dy {
      RoundIs(k, dy, dx, j);
    } else {
      RoundIs(k, dx, dy, i);
    }
  }

  lemma TracksStart(dx: nat, dy: nat)
    ensures Tracks(dx, dy, 0, 0, 0) && Error(dx, dy, 0, 0) == 0
  {
  }

  lemma TracksSmall(dx: nat, dy: nat, k: int, i: int, j: int)
    requires Tracks(dx, dy, k, i, j)
    ensures 2 * Abs(Error(dx, dy, i, j)) <= Max(dx, dy)
  {
    hide Error;
  }

  /** The end point is reached at the last step and not before. */
  lemma EndsOnce(a: Point, b: Point, k: nat)
    requires k <= Steps(a, b)
    ensures PointAt(a, b, k) == b <==> k == Steps(a, b)
  {
    LineEnds(a, b);
    if k < Steps(a, b) {
      LineNeverRepeats(a, b, k, Steps(a, b));
    }
  }

  /** The loop's variables after `k` rounds, i of them stepping in x and j in y. */
  ghost predicate At(a: Point, b: Point, k: int, i: int, j: int, err: int, p: Point) {
    var dx, dy := Abs(b.x - a.x), Abs(b.y - a.y);
    && k >= 0 && Tracks(dx, dy, k, i, j) && err == dx - dy + Error(dx, dy, i, j)
    && p == Point(Toward(a.x, b.x, i), Toward(a.y, b.y, j)) && p == PointAt(a, b, k)
  }

  lemma AtStart(a: Point, b: Point)
    ensures At(a, b, 0, 0, 0, Abs(b.x - a.x) - Abs(b.y - a.y), a)
  {
    TracksStart(Abs(b.x - a.x), Abs(b.y - a.y));
    LineEnds(a, b);
  }

  /** Doubling the error term fits an int as long as three times the line's length does. */
  lemma AtSmall(a: Point, b: Point, k: int, i: int, j: int, err: int, p: Point)
    requires At(a, b, k, i, j, err, p) && Steps(a, b) <= 0x2AAA_AAAA
    ensures -0x8000_0000 <= err * 2 < 0x8000_0000
  {
    TracksSmall(Abs(b.x - a.x), Abs(b.y - a.y), k, i, j);
  }

  /** One round of the loop. */
  lemma AtNext(a: Point, b: Point, k: int, i: int, j: int, err: int, p: Point)
    requires At(a, b, k, i, j, err, p) && k < Steps(a, b)
    ensures var dx, dy := Abs(b.x - a.x), Abs(b.y - a.y);
      var mx, my := StepsX(dx, dy, err) == 1, StepsY(dx, dy, err) == 1;
      At(a, b, k + 1, if mx then i + 1 else i, if my then j + 1 else j,
         err - (if mx then dy else 0) + (if my then dx else 0),
         Point(if mx then p.x + Sign(a.x, b.x) else p.x, if my then p.y + Sign(a.y, b.y) else p.y))
  {
    var dx, dy := Abs(b.x - a.x), Abs(b.y - a.y);
    hide Error, Tracks, PointAt;
    TracksNext(dx, dy, k, i, j);
    ErrorSteps(dx, dy, i, j);
    TracksPoint(a, b, k + 1, i + StepsX(dx, dy, err), j + StepsY(dx, dy, err));
  }

  lemma AtPoint(a: Point, b: Point, k: int, i: int, j: int, err: int, p: Point)
    requires At(a, b, k, i, j, err, p)
    ensures k >= 0 && p == PointAt(a, b, k)
  {
  }
}
