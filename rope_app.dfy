/** The mutable state of app.js: the array of rope points, the pin toggle flag
    and the pointer selection, with the in-place loops that change them. The
    square root is the host's, handed to the rope when it is built. */
module RopeApp {
  import opened RopePhysics

  /** getClosestPointIndex: a linear scan for the first point nearest to the
      pointer, comparing Euclidean distances as app.js does; -1 for no points. */
  method ClosestPointIndex(ropePoints: array<Point>, mouseX: real, mouseY: real, sqrt: real -> real)
    returns (closestIndex: int)
    requires IsSqrt(sqrt)
    ensures closestIndex == -1 <==> ropePoints.Length == 0
    ensures closestIndex != -1 ==> IsFirstClosest(ropePoints[..], mouseX, mouseY, closestIndex)
  {
    // closestDist starts as Infinity: while closestIndex == -1 it is not read.
    var closestDist := 0.0;
    closestIndex := -1;
    var index := 0;
    while index < ropePoints.Length
      invariant 0 <= index <= ropePoints.Length
      invariant closestIndex == -1 <==> index == 0
      invariant closestIndex != -1 ==>
                  && IsFirstClosest(ropePoints[..index], mouseX, mouseY, closestIndex)
                  && closestDist == sqrt(SquaredDistanceTo(ropePoints[closestIndex], mouseX, mouseY))
    {
      var p := ropePoints[index];
      var dx := mouseX - p.x;
      var dy := mouseY - p.y;
      var distance := sqrt(dx * dx + dy * dy);
      assert SquaredDistanceTo(p, mouseX, mouseY) == dx * dx + dy * dy;
      assert distance == sqrt(SquaredDistanceTo(p, mouseX, mouseY));
      if closestIndex != -1 {
        SqrtMonotone(sqrt, SquaredDistanceTo(p, mouseX, mouseY),
                     SquaredDistanceTo(ropePoints[closestIndex], mouseX, mouseY));
      }
      if closestIndex == -1 || distance < closestDist {
        closestDist := distance;
        closestIndex := index;
      }
      index := index + 1;
    }
    assert ropePoints[..index] == ropePoints[..];
  }

  class Rope {
    /** ropePoints: fixed in number for the lifetime of the rope. */
    const points: array<Point>
    /** Math.sqrt, as the host provides it. */
    const sqrt: real -> real
    var bothEndsFixed: bool
    var isMouseDown: bool
    var selectedPointIndex: int

    ghost predicate Valid()
      reads this, points
    {
      && IsSqrt(sqrt)
      && PinnedEnds(points[..], bothEndsFixed)
      && -1 <= selectedPointIndex < points.Length
    }

    /** The start-up code: the points laid out in a loop, then the two ends
        fixed; no drag in progress. */
    constructor (sqrt: real -> real)
      requires IsSqrt(sqrt)
      ensures Valid() && fresh(points)
      ensures points[..] == InitialPoints()
      ensures bothEndsFixed && !isMouseDown && selectedPointIndex == -1
    {
      var a := new Point[NumPoints + 1];
      var i := 0;
      while i <= NumPoints
        invariant 0 <= i <= NumPoints + 1
        invariant forall j :: 0 <= j < i ==>
                    a[j] == InitialPoints()[j].(isFixed := false)
      {
        a[i] := Point(i as real * PointDistance, CanvasHeight / 2.0,
                      i as real * PointDistance, CanvasHeight / 2.0, false);
        i := i + 1;
      }
      a[0] := a[0].(isFixed := true);
      a[NumPoints] := a[NumPoints].(isFixed := true);
      assert a[..] == InitialPoints();
      points := a;
      this.sqrt := sqrt;
      bothEndsFixed := true;
      isMouseDown := false;
      selectedPointIndex := -1;
    }

    /** updatePoints: Verlet integration of the interior points, in place. */
    method UpdatePoints()
      requires Valid()
      modifies points
      ensures Valid()
      ensures points[..] == Updated(old(points[..]))
    {
      ghost var before := points[..];
      var i := 1;
      while i < points.Length - 1
        invariant 1 <= i <= points.Length - 1
        invariant forall j :: 0 <= j < points.Length ==>
                    points[j] == if 0 < j < i then Integrated(before[j]) else before[j]
      {
        var p := points[i];
        var vx := (p.x - p.oldX) * Friction;
        var vy := (p.y - p.oldY) * Friction;
        points[i] := p.(oldX := p.x, oldY := p.y, x := p.x + vx, y := p.y + vy + Gravity);
        i := i + 1;
      }
      assert points[..] == Updated(before);
      UpdatedKeepsPins(before, bothEndsFixed);
    }

    /** constrainPoints: one left-to-right relaxation sweep over adjacent
        pairs, skipping fixed points, and skipping a pair whose points
        coincide. */
    method ConstrainPoints()
      requires Valid()
      modifies points
      ensures Valid()
      ensures points[..] == Constrained(old(points[..]), sqrt)
    {
      ghost var before := points[..];
      var i := 0;
      while i < points.Length - 1
        invariant 0 <= i <= points.Length - 1
        invariant points[..] == Relaxed(before, i, sqrt)
      {
        CorrectPair(i);
        i := i + 1;
      }
      ConstrainedKeepsPins(before, sqrt, bothEndsFixed);
    }

    /** The body of the sweep for pair (i, i + 1), in place. */
    method CorrectPair(i: nat)
      requires i + 1 < points.Length
      modifies points
      ensures points[..] == RelaxPair(old(points[..]), i, sqrt)
    {
      ghost var s := points[..];
      var p1 := points[i];
      var p2 := points[i + 1];
      var dx := p2.x - p1.x;
      var dy := p2.y - p1.y;
      var distance := sqrt(dx * dx + dy * dy);
      assert SquaredLength(p2.x - p1.x, p2.y - p1.y) == dx * dx + dy * dy;
      assert distance == Separation(p1, p2, sqrt);
      if distance != 0.0 {
        var difference := PointDistance - distance;
        var percent := difference / distance / 2.0;
        var offsetX := dx * percent;
        var offsetY := dy * percent;
        assert percent == Percent(p1, p2, sqrt);
        if !p1.isFixed {
          points[i] := p1.(x := p1.x - offsetX, y := p1.y - offsetY);
        }
        if !p2.isFixed {
          points[i + 1] := p2.(x := p2.x + offsetX, y := p2.y + offsetY);
        }
        ghost var r := RelaxPair(s, i, sqrt);
        assert s[i] == p1 && s[i + 1] == p2;
        assert r[i] == points[i] && r[i + 1] == points[i + 1];
        assert forall j :: 0 <= j < points.Length ==> r[j] == points[j];
      } else {
        assert RelaxPair(s, i, sqrt) == s;
      }
    }

    /** The physics of one animation frame: integrate, then relax. */
    method Animate()
      requires Valid()
      modifies points
      ensures Valid()
      ensures points[..] == Constrained(Updated(old(points[..])), sqrt)
    {
      UpdatePoints();
      ConstrainPoints();
    }

    /** The mousedown handler: select the first nearest point and start a drag. */
    method MouseDown(canvasX: real, canvasY: real)
      requires Valid()
      modifies this
      ensures Valid() && unchanged(points) && bothEndsFixed == old(bothEndsFixed)
      ensures isMouseDown
      ensures IsFirstClosest(points[..], canvasX, canvasY, selectedPointIndex)
    {
      selectedPointIndex := ClosestPointIndex(points, canvasX, canvasY, sqrt);
      isMouseDown := true;
    }

    /** The mousemove handler: while dragging, overwrite the selected point's
        position (not its old position, nor its flag, fixed or not). */
    method MouseMove(canvasX: real, canvasY: real)
      requires Valid()
      modifies points
      ensures Valid()
      ensures points[..] ==
                if isMouseDown && selectedPointIndex != -1
                then old(points[..])[selectedPointIndex :=
                       old(points[selectedPointIndex]).(x := canvasX, y := canvasY)]
                else old(points[..])
    {
      if !isMouseDown {
        return;
      }
      if selectedPointIndex != -1 {
        points[selectedPointIndex] := points[selectedPointIndex].(x := canvasX, y := canvasY);
      }
    }

    /** The mouseup and mouseleave handlers: end the drag, drop the selection. */
    method MouseRelease()
      requires Valid()
      modifies this
      ensures Valid() && unchanged(points) && bothEndsFixed == old(bothEndsFixed)
      ensures !isMouseDown && selectedPointIndex == -1
    {
      isMouseDown := false;
      selectedPointIndex := -1;
    }

    /** toggleRopeFix: flip the module flag and copy it onto the last point. */
    method ToggleRopeFix()
      requires Valid()
      modifies this, points
      ensures Valid()
      ensures bothEndsFixed == !old(bothEndsFixed)
      ensures points[..] == WithEndFixed(old(points[..]), bothEndsFixed)
      ensures isMouseDown == old(isMouseDown) && selectedPointIndex == old(selectedPointIndex)
    {
      ToggleTwiceRestores(points[..], bothEndsFixed);
      bothEndsFixed := !bothEndsFixed;
      points[NumPoints] := points[NumPoints].(isFixed := bothEndsFixed);
    }
  }
}
