/** The physics of the rope: the point record, the constants of app.js, and the
    two per-frame passes (Verlet integration and one distance-constraint sweep)
    as functions over the sequence of points, with the properties they keep. */
module RopePhysics {

  /** Constants of app.js (lines 4-10). */
  const NumPoints: nat := 20
  const CanvasWidth: real := 800.0
  const CanvasHeight: real := 800.0
  const PointDistance: real := CanvasWidth / NumPoints as real
  const Gravity: real := 0.5
  const Friction: real := 0.98

  /** One point mass. `isFixed` is absent (undefined, hence falsy) on every
      point but the two ends, which is modelled as `false`. */
  datatype Point = Point(x: real, y: real, oldX: real, oldY: real, isFixed: bool)

  /* ---------------------------------------------------------------------- */
  /* Square root: a host function, characterised by what the model needs.   */
  /* ---------------------------------------------------------------------- */

  /** `sqrt` behaves as the non-negative square root on non-negative reals. */
  ghost predicate IsSqrt(sqrt: real -> real)
  {
    forall a :: 0.0 <= a ==> 0.0 <= sqrt(a) && sqrt(a) * sqrt(a) == a
  }

  lemma SquareMonotone(a: real, b: real)
    requires 0.0 <= a < b
    ensures a * a < b * b
  {
    calc {
      a * a;
    <=
      a * b;
    <
      b * b;
    }
  }

  /** The root of a square is the non-negative base. */
  lemma SqrtOfSquare(sqrt: real -> real, c: real)
    requires IsSqrt(sqrt)
    requires 0.0 <= c
    ensures sqrt(c * c) == c
  {
    var r := sqrt(c * c);
    assert 0.0 <= r && r * r == c * c;
    if r < c {
      SquareMonotone(r, c);
    } else if c < r {
      SquareMonotone(c, r);
    }
  }

  /** The square root is strictly monotone, so comparing roots is comparing squares. */
  lemma SqrtMonotone(sqrt: real -> real, a: real, b: real)
    requires IsSqrt(sqrt)
    requires 0.0 <= a && 0.0 <= b
    ensures sqrt(a) < sqrt(b) <==> a < b
  {
    var ra, rb := sqrt(a), sqrt(b);
    assert 0.0 <= ra && ra * ra == a;
    assert 0.0 <= rb && rb * rb == b;
    if ra < rb {
      SquareMonotone(ra, rb);
    } else if rb < ra {
      SquareMonotone(rb, ra);
    }
  }

  /* ---------------------------------------------------------------------- */
  /* Geometry                                                                */
  /* ---------------------------------------------------------------------- */

  function SquaredLength(dx: real, dy: real): (d2: real)
    ensures 0.0 <= d2
  {
    dx * dx + dy * dy
  }

  /** Euclidean distance between two points, computed as app.js does: with a
      true square root it is the non-negative number whose square is the
      squared displacement. */
  function Separation(p1: Point, p2: Point, sqrt: real -> real): (distance: real)
    ensures IsSqrt(sqrt) ==>
              0.0 <= distance && distance * distance == SquaredLength(p2.x - p1.x, p2.y - p1.y)
  {
    sqrt(SquaredLength(p2.x - p1.x, p2.y - p1.y))
  }

  /** Squared distance from a point to the pointer position. */
  function SquaredDistanceTo(p: Point, mouseX: real, mouseY: real): real
  {
    SquaredLength(mouseX - p.x, mouseY - p.y)
  }

  /* ---------------------------------------------------------------------- */
  /* The rope's shape and its pin flags                                      */
  /* ---------------------------------------------------------------------- */

  /** The flags of a rope as app.js keeps them: NumPoints + 1 points, the first
      one always fixed, the last one fixed exactly when `bothEndsFixed`, and no
      interior point fixed. */
  ghost predicate PinnedEnds(s: seq<Point>, bothEndsFixed: bool)
  {
    && |s| == NumPoints + 1
    && s[0].isFixed
    && s[NumPoints].isFixed == bothEndsFixed
    && forall i :: 0 < i < NumPoints ==> !s[i].isFixed
  }

  /** Two ropes that differ at most in the positions x, y of their points. */
  ghost predicate SameButPositions(s: seq<Point>, r: seq<Point>)
  {
    && |r| == |s|
    && forall j :: 0 <= j < |s| ==>
         r[j].isFixed == s[j].isFixed && r[j].oldX == s[j].oldX && r[j].oldY == s[j].oldY
  }

  /** The rope as laid out at start-up: evenly spaced along a horizontal line
      at half the canvas height, at rest, with both ends fixed. */
  function InitialPoints(): (r: seq<Point>)
    ensures PinnedEnds(r, true)
    ensures forall i :: 0 <= i < |r| ==> r[i].oldX == r[i].x && r[i].oldY == r[i].y
    ensures forall i :: 0 <= i < |r| - 1 ==>
              r[i + 1].x - r[i].x == PointDistance && r[i + 1].y == r[i].y
  {
    seq(NumPoints + 1, i requires 0 <= i <= NumPoints =>
      Point(i as real * PointDistance, CanvasHeight / 2.0,
            i as real * PointDistance, CanvasHeight / 2.0,
            i == 0 || i == NumPoints))
  }

  /* ---------------------------------------------------------------------- */
  /* Verlet integration (updatePoints)                                       */
  /* ---------------------------------------------------------------------- */

  /** One damped Verlet step of a single point under gravity: the old
      position becomes the current one, and the new implied velocity is the
      previous one damped by Friction, plus Gravity downwards. */
  function Integrated(p: Point): (q: Point)
    ensures q.oldX == p.x && q.oldY == p.y && q.isFixed == p.isFixed
    ensures q.x - q.oldX == (p.x - p.oldX) * Friction
    ensures q.y - q.oldY == (p.y - p.oldY) * Friction + Gravity
  {
    var vx := (p.x - p.oldX) * Friction;
    var vy := (p.y - p.oldY) * Friction;
    p.(oldX := p.x, oldY := p.y, x := p.x + vx, y := p.y + vy + Gravity)
  }

  /** The integration pass: every interior point takes one Verlet step; the two
      ends are left alone whatever their flags, and no flag is read or written. */
  function Updated(s: seq<Point>): (r: seq<Point>)
    ensures |r| == |s|
    ensures forall i :: 0 <= i < |s| && (i == 0 || i == |s| - 1) ==> r[i] == s[i]
    ensures forall i :: 0 < i < |s| - 1 ==>
              && r[i].oldX == s[i].x && r[i].oldY == s[i].y
              && r[i].x == s[i].x + (s[i].x - s[i].oldX) * Friction
              && r[i].y == s[i].y + (s[i].y - s[i].oldY) * Friction + Gravity
    ensures forall i :: 0 <= i < |s| ==> r[i].isFixed == s[i].isFixed
  {
    seq(|s|, i requires 0 <= i < |s| => if 0 < i < |s| - 1 then Integrated(s[i]) else s[i])
  }

  /** Integration keeps the flags, hence the pin layout of the rope. */
  lemma UpdatedKeepsPins(s: seq<Point>, bothEndsFixed: bool)
    requires PinnedEnds(s, bothEndsFixed)
    ensures PinnedEnds(Updated(s), bothEndsFixed)
  {
  }

  /* ---------------------------------------------------------------------- */
  /* Distance constraints (constrainPoints)                                  */
  /* ---------------------------------------------------------------------- */

  /** The fraction of the displacement by which each end of a pair is moved:
      half the relative error of its length. */
  function Percent(p1: Point, p2: Point, sqrt: real -> real): (percent: real)
    requires Separation(p1, p2, sqrt) != 0.0
    ensures 2.0 * percent * Separation(p1, p2, sqrt) == PointDistance - Separation(p1, p2, sqrt)
    ensures percent == 0.0 <==> Separation(p1, p2, sqrt) == PointDistance
  {
    var distance := Separation(p1, p2, sqrt);
    (PointDistance - distance) / distance / 2.0
  }

  /** A point moved by (dx, dy), unless it is fixed; only x and y change. */
  function Nudged(p: Point, dx: real, dy: real): (q: Point)
    ensures p.isFixed ==> q == p
    ensures !p.isFixed ==> q == Point(p.x + dx, p.y + dy, p.oldX, p.oldY, false)
  {
    if p.isFixed then p else p.(x := p.x + dx, y := p.y + dy)
  }

  /** The correction of pair (i, i + 1): the free ends move apart or together
      along their displacement by `Percent` of it each; a fixed end stays. A
      pair whose points coincide is left as it is (app.js divides by zero
      there). */
  function RelaxPair(s: seq<Point>, i: nat, sqrt: real -> real): (r: seq<Point>)
    requires i + 1 < |s|
    ensures SameButPositions(s, r)
    ensures forall j :: 0 <= j < |s| && j != i && j != i + 1 ==> r[j] == s[j]
    ensures forall j :: 0 <= j < |s| && s[j].isFixed ==> r[j] == s[j]
  {
    var p1, p2 := s[i], s[i + 1];
    if Separation(p1, p2, sqrt) == 0.0 then s
    else
      var percent := Percent(p1, p2, sqrt);
      var offsetX := (p2.x - p1.x) * percent;
      var offsetY := (p2.y - p1.y) * percent;
      s[i := Nudged(p1, -offsetX, -offsetY)][i + 1 := Nudged(p2, offsetX, offsetY)]
  }

  /** The sweep after its first `k` pairs: a left fold of RelaxPair over
      0 .. k - 1, so pair k sees the positions pair k - 1 has already corrected. */
  function Relaxed(s: seq<Point>, k: nat, sqrt: real -> real): (r: seq<Point>)
    requires k < |s|
    ensures SameButPositions(s, r)
    ensures forall j :: k < j < |s| ==> r[j] == s[j]
    ensures forall j :: 0 <= j < |s| && s[j].isFixed ==> r[j] == s[j]
    decreases k
  {
    if k == 0 then s else RelaxPair(Relaxed(s, k - 1, sqrt), k - 1, sqrt)
  }

  /** The whole constraint pass: every adjacent pair once, in ascending order. */
  function Constrained(s: seq<Point>, sqrt: real -> real): (r: seq<Point>)
    ensures SameButPositions(s, r)
    ensures forall j :: 0 <= j < |s| && s[j].isFixed ==> r[j] == s[j]
  {
    if |s| <= 1 then s else Relaxed(s, |s| - 1, sqrt)
  }

  /** The constraint pass keeps the flags, hence the pin layout of the rope. */
  lemma ConstrainedKeepsPins(s: seq<Point>, sqrt: real -> real, bothEndsFixed: bool)
    requires PinnedEnds(s, bothEndsFixed)
    ensures PinnedEnds(Constrained(s, sqrt), bothEndsFixed)
  {
  }

  /** When both ends of a pair are free, the correction moves them by opposite
      offsets: the midpoint stays, and the displacement is scaled by
      1 + 2 * Percent. */
  lemma FreePairCorrection(s: seq<Point>, i: nat, sqrt: real -> real)
    requires i + 1 < |s|
    requires !s[i].isFixed && !s[i + 1].isFixed
    requires Separation(s[i], s[i + 1], sqrt) != 0.0
    ensures var r := RelaxPair(s, i, sqrt);
            var f := 1.0 + 2.0 * Percent(s[i], s[i + 1], sqrt);
            && r[i].x + r[i + 1].x == s[i].x + s[i + 1].x
            && r[i].y + r[i + 1].y == s[i].y + s[i + 1].y
            && r[i + 1].x - r[i].x == (s[i + 1].x - s[i].x) * f
            && r[i + 1].y - r[i].y == (s[i + 1].y - s[i].y) * f
  {
  }

  /** Scaling a displacement by a non-negative factor scales its length. */
  lemma ScaledSeparation(p1: Point, p2: Point, q1: Point, q2: Point, f: real, sqrt: real -> real)
    requires IsSqrt(sqrt)
    requires 0.0 <= f
    requires q2.x - q1.x == (p2.x - p1.x) * f && q2.y - q1.y == (p2.y - p1.y) * f
    ensures Separation(q1, q2, sqrt) == Separation(p1, p2, sqrt) * f
  {
    var dx, dy := p2.x - p1.x, p2.y - p1.y;
    var d2 := SquaredLength(dx, dy);
    var len := sqrt(d2);
    assert 0.0 <= d2;
    assert 0.0 <= len && len * len == d2;
    var c := len * f;
    calc {
      SquaredLength(q2.x - q1.x, q2.y - q1.y);
      (dx * f) * (dx * f) + (dy * f) * (dy * f);
      d2 * (f * f);
      (len * len) * (f * f);
      c * c;
    }
    assert 0.0 <= c;
    SqrtOfSquare(sqrt, c);
    assert sqrt(c * c) == c;
  }

  /** A pair of free points is exactly at rest length after its correction. */
  lemma FreePairReachesRestLength(s: seq<Point>, i: nat, sqrt: real -> real)
    requires IsSqrt(sqrt)
    requires i + 1 < |s|
    requires !s[i].isFixed && !s[i + 1].isFixed
    requires Separation(s[i], s[i + 1], sqrt) != 0.0
    ensures var r := RelaxPair(s, i, sqrt);
            Separation(r[i], r[i + 1], sqrt) == PointDistance
  {
    var r := RelaxPair(s, i, sqrt);
    var len := Separation(s[i], s[i + 1], sqrt);
    var p := Percent(s[i], s[i + 1], sqrt);
    var f := 1.0 + 2.0 * p;
    assert 0.0 < len;
    assert 2.0 * p == (PointDistance - len) / len;
    assert f == PointDistance / len;
    assert len * f == PointDistance;
    FreePairCorrection(s, i, sqrt);
    ScaledSeparation(s[i], s[i + 1], r[i], r[i + 1], f, sqrt);
  }

  /** When exactly one end of a pair is fixed, the correction moves the other
      end only, so the pair closes half of its gap to the rest length. */
  lemma HalfFixedPairHalvesGap(s: seq<Point>, i: nat, sqrt: real -> real)
    requires IsSqrt(sqrt)
    requires i + 1 < |s|
    requires s[i].isFixed != s[i + 1].isFixed
    requires Separation(s[i], s[i + 1], sqrt) != 0.0
    ensures var r := RelaxPair(s, i, sqrt);
            var len := Separation(s[i], s[i + 1], sqrt);
            Separation(r[i], r[i + 1], sqrt) - PointDistance == (len - PointDistance) / 2.0
  {
    var r := RelaxPair(s, i, sqrt);
    var len := Separation(s[i], s[i + 1], sqrt);
    var p := Percent(s[i], s[i + 1], sqrt);
    var f := 1.0 + p;
    assert 0.0 < len;
    assert p == (PointDistance - len) / len / 2.0;
    assert f == (len + PointDistance) / (2.0 * len);
    assert len * f == (len + PointDistance) / 2.0;
    assert r[i + 1].x - r[i].x == (s[i + 1].x - s[i].x) * f;
    assert r[i + 1].y - r[i].y == (s[i + 1].y - s[i].y) * f;
    ScaledSeparation(s[i], s[i + 1], r[i], r[i + 1], f, sqrt);
  }

  /** A pair already exactly PointDistance apart needs no correction. */
  lemma RestPairUnchanged(s: seq<Point>, i: nat, sqrt: real -> real)
    requires i + 1 < |s|
    requires Separation(s[i], s[i + 1], sqrt) == PointDistance
    ensures RelaxPair(s, i, sqrt) == s
  {
    assert Percent(s[i], s[i + 1], sqrt) == 0.0;
    var r := RelaxPair(s, i, sqrt);
    assert r[i] == s[i] && r[i + 1] == s[i + 1];
    assert forall j :: 0 <= j < |s| ==> r[j] == s[j];
  }

  /** A pair lying level, PointDistance apart horizontally, is at rest length. */
  lemma LevelPairAtRestLength(p1: Point, p2: Point, sqrt: real -> real)
    requires IsSqrt(sqrt)
    requires p2.x - p1.x == PointDistance && p2.y == p1.y
    ensures Separation(p1, p2, sqrt) == PointDistance
  {
    assert SquaredLength(p2.x - p1.x, p2.y - p1.y) == PointDistance * PointDistance;
    SqrtOfSquare(sqrt, PointDistance);
  }

  /** The rope at rest is already at rest length everywhere, so a constraint
      sweep leaves it exactly as it is. */
  lemma {:induction false} InitialPrefixStable(sqrt: real -> real, k: nat)
    requires IsSqrt(sqrt)
    requires k <= NumPoints
    ensures Relaxed(InitialPoints(), k, sqrt) == InitialPoints()
  {
    if k > 0 {
      InitialPrefixStable(sqrt, k - 1);
      LevelPairAtRestLength(InitialPoints()[k - 1], InitialPoints()[k], sqrt);
      RestPairUnchanged(InitialPoints(), k - 1, sqrt);
    }
  }

  lemma InitialRopeIsStable(sqrt: real -> real)
    requires IsSqrt(sqrt)
    ensures Constrained(InitialPoints(), sqrt) == InitialPoints()
  {
    InitialPrefixStable(sqrt, NumPoints);
  }

  /** Pin invariance over a frame: on a rope whose interior points are all free,
      integration followed by the constraint sweep leaves every fixed point
      exactly where it was. */
  lemma FrameKeepsFixedPoints(s: seq<Point>, sqrt: real -> real)
    requires forall j :: 0 < j < |s| - 1 ==> !s[j].isFixed
    ensures var r := Constrained(Updated(s), sqrt);
            |r| == |s| && forall j :: 0 <= j < |s| && s[j].isFixed ==> r[j] == s[j]
  {
  }

  /* ---------------------------------------------------------------------- */
  /* Selection (getClosestPointIndex)                                        */
  /* ---------------------------------------------------------------------- */

  /** `k` is the first index of a point nearest to the pointer. */
  ghost predicate IsFirstClosest(s: seq<Point>, mouseX: real, mouseY: real, k: int)
  {
    && 0 <= k < |s|
    && (forall j :: 0 <= j < |s| ==>
          SquaredDistanceTo(s[k], mouseX, mouseY) <= SquaredDistanceTo(s[j], mouseX, mouseY))
    && (forall j :: 0 <= j < k ==>
          SquaredDistanceTo(s[k], mouseX, mouseY) < SquaredDistanceTo(s[j], mouseX, mouseY))
  }

  /* ---------------------------------------------------------------------- */
  /* The pin toggle (toggleRopeFix)                                          */
  /* ---------------------------------------------------------------------- */

  /** The rope with the flag of its last point (index NumPoints) set to `fixed`. */
  function WithEndFixed(s: seq<Point>, fixed: bool): (r: seq<Point>)
    requires |s| == NumPoints + 1
    ensures |r| == |s| && r[NumPoints].isFixed == fixed
    ensures r[NumPoints].(isFixed := s[NumPoints].isFixed) == s[NumPoints]
    ensures forall j :: 0 <= j < NumPoints ==> r[j] == s[j]
  {
    s[NumPoints := s[NumPoints].(isFixed := fixed)]
  }

  /** Toggling the end flag keeps the pin layout consistent with the new
      module flag, moves no point, and toggling again restores the rope. */
  lemma ToggleTwiceRestores(s: seq<Point>, bothEndsFixed: bool)
    requires PinnedEnds(s, bothEndsFixed)
    ensures var t := WithEndFixed(s, !bothEndsFixed);
            && PinnedEnds(t, !bothEndsFixed)
            && (forall j :: 0 <= j < |s| ==> t[j].x == s[j].x && t[j].y == s[j].y)
            && WithEndFixed(t, bothEndsFixed) == s
  {
  }
}
