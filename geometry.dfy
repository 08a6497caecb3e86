/** Points of the humidity/temperature comfort diagram, the boundary lines joining
    two of them (a*x + b*y + c = 0), and the piecewise-linear boundaries
    ("polylines") that a comfort profile keeps for its hot and cold borders. */
module Geometry {

  /** A point of the comfort diagram: relative humidity on x, temperature (Celsius) on y. */
  datatype ComfortPoint = ComfortPoint(xHumid: real, yTemp: real)

  /** The line a*x + b*y + c = 0. */
  datatype ComfortLine = ComfortLine(a: real, b: real, c: real)

  predicate OnLine(l: ComfortLine, p: ComfortPoint) {
    l.a * p.xHumid + l.b * p.yTemp + l.c == 0.0
  }

  predicate Degenerate(l: ComfortLine) {
    l.a == 0.0 && l.b == 0.0
  }

  /** The line joining A(x1,y1) and B(x2,y2): a = y2-y1, b = x1-x2, c = x2*y1 - x1*y2.
      It passes through both points, and it is degenerate exactly when A and B coincide. */
  function LineThrough(p: ComfortPoint, q: ComfortPoint): (l: ComfortLine)
    ensures OnLine(l, p) && OnLine(l, q)
    ensures Degenerate(l) <==> p == q
    ensures l.b == 0.0 <==> p.xHumid == q.xHumid
  {
    ComfortLine(q.yTemp - p.yTemp, p.xHumid - q.xHumid, q.xHumid * p.yTemp - p.xHumid * q.yTemp)
  }

  /** The temperature of a non-vertical line at humidity x. */
  function LineY(l: ComfortLine, x: real): (y: real)
    requires l.b != 0.0
    ensures OnLine(l, ComfortPoint(x, y))
  {
    -(l.a * x + l.c) / l.b
  }

  /** A non-vertical line meets each humidity at exactly one temperature. */
  lemma LineYUnique(l: ComfortLine, p: ComfortPoint)
    requires l.b != 0.0
    ensures OnLine(l, p) <==> LineY(l, p.xHumid) == p.yTemp
  {
    var y := LineY(l, p.xHumid);
    assert l.a * p.xHumid + l.b * y + l.c == 0.0;
    assert l.a * p.xHumid + l.b * p.yTemp + l.c - 0.0 == l.b * (p.yTemp - y);
  }

  /** The line through two points of distinct humidity gives back their temperatures. */
  lemma LineYAtEndpoints(p: ComfortPoint, q: ComfortPoint)
    requires p.xHumid != q.xHumid
    ensures LineY(LineThrough(p, q), p.xHumid) == p.yTemp
    ensures LineY(LineThrough(p, q), q.xHumid) == q.yTemp
  {
    LineYUnique(LineThrough(p, q), p);
    LineYUnique(LineThrough(p, q), q);
  }

  /** Between its endpoints, the line through p and q is the weighted mean of
      their temperatures, with weights (q.x - h) and (h - p.x). */
  lemma LineYInterpolates(p: ComfortPoint, q: ComfortPoint, h: real)
    requires p.xHumid < q.xHumid
    ensures LineY(LineThrough(p, q), h) * (q.xHumid - p.xHumid)
         == (q.xHumid - h) * p.yTemp + (h - p.xHumid) * q.yTemp
  {
    var l := LineThrough(p, q);
    var y := LineY(l, h);
    assert l.a * h + l.b * y + l.c == 0.0;
    assert l.b == -(q.xHumid - p.xHumid);
  }

  /** Control points stored in strictly increasing humidity order. */
  predicate Increasing(pts: seq<ComfortPoint>) {
    forall i, j :: 0 <= i < j < |pts| ==> pts[i].xHumid < pts[j].xHumid
  }

  /** The lines joining each control point to the next one. */
  function Polyline(pts: seq<ComfortPoint>): (ls: seq<ComfortLine>)
    requires |pts| >= 1
    ensures |ls| == |pts| - 1
  {
    seq(|pts| - 1, i requires 0 <= i < |pts| - 1 => LineThrough(pts[i], pts[i + 1]))
  }

  /** Line i of a polyline joins control points i and i+1; with increasing
      humidities it is never vertical, so it has a temperature at every humidity. */
  lemma PolylineJoins(pts: seq<ComfortPoint>, i: int)
    requires 0 <= i < |pts| - 1
    ensures OnLine(Polyline(pts)[i], pts[i]) && OnLine(Polyline(pts)[i], pts[i + 1])
    ensures Increasing(pts) ==> Polyline(pts)[i].b != 0.0
  {
  }

  /** The lines of a polyline after control point k was modified: the lines with
      index k-1 and k (those ending or starting at point k, where they exist) are
      recomputed from pts; every other line is kept as it was. */
  function Refreshed(lines: seq<ComfortLine>, pts: seq<ComfortPoint>, k: int): (r: seq<ComfortLine>)
    requires |lines| + 1 == |pts|
    ensures |r| == |lines|
    ensures forall i :: 0 <= i < |r| && i != k - 1 && i != k ==> r[i] == lines[i]
    ensures forall i :: 0 <= i < |r| && (i == k - 1 || i == k) ==> OnLine(r[i], pts[i]) && OnLine(r[i], pts[i + 1])
  {
    seq(|lines|, i requires 0 <= i < |lines| =>
      if i == k - 1 || i == k then LineThrough(pts[i], pts[i + 1]) else lines[i])
  }

  /** Moving one control point and refreshing only the lines incident to it gives
      the same lines as recomputing the whole polyline. */
  lemma {:induction false} RefreshAfterMove(s: seq<ComfortPoint>, k: int, p: ComfortPoint)
    requires 0 <= k < |s|
    ensures Refreshed(Polyline(s), s[k := p], k) == Polyline(s[k := p])
  {
    var s' := s[k := p];
    var r, full := Refreshed(Polyline(s), s', k), Polyline(s');
    forall i | 0 <= i < |full|
      ensures r[i] == full[i]
    {
      if i != k - 1 && i != k {
        assert s'[i] == s[i] && s'[i + 1] == s[i + 1];
      }
    }
  }

  /** A line of a polyline depends only on its own two control points. */
  lemma PolylineLocal(s: seq<ComfortPoint>, s': seq<ComfortPoint>)
    requires |s| == |s'| >= 1
    ensures forall i :: 0 <= i < |s| - 1 && s[i] == s'[i] && s[i + 1] == s'[i + 1] ==> Polyline(s)[i] == Polyline(s')[i]
  {
  }

  /** Refreshing a polyline whose points did not move changes nothing. */
  lemma RefreshUnmoved(s: seq<ComfortPoint>, k: int)
    requires 0 <= k < |s|
    ensures Refreshed(Polyline(s), s, k) == Polyline(s)
  {
    assert s[k := s[k]] == s;
    RefreshAfterMove(s, k, s[k]);
  }

  /** The segment used at humidity h: the first segment i whose right end reaches h,
      or the last segment if none does.  Below the first control point this is the
      first segment and above the last one the last segment, so the end segments
      are extrapolated. */
  function SegmentFor(pts: seq<ComfortPoint>, h: real): (i: nat)
    requires |pts| >= 2
    ensures i < |pts| - 1
    ensures forall j :: 1 <= j <= i ==> pts[j].xHumid < h
    ensures i == |pts| - 2 || h <= pts[i + 1].xHumid
  {
    SegmentFrom(pts, h, 0)
  }

  function SegmentFrom(pts: seq<ComfortPoint>, h: real, i: nat): (r: nat)
    requires i < |pts| - 1
    requires forall j :: 1 <= j <= i ==> pts[j].xHumid < h
    ensures i <= r < |pts| - 1
    ensures forall j :: 1 <= j <= r ==> pts[j].xHumid < h
    ensures r == |pts| - 2 || h <= pts[r + 1].xHumid
    decreases |pts| - i
  {
    if i == |pts| - 2 || h <= pts[i + 1].xHumid then i else SegmentFrom(pts, h, i + 1)
  }

  /** With increasing humidities, the segment chosen for h brackets h, unless h lies
      outside the control-point range. */
  lemma SegmentBrackets(pts: seq<ComfortPoint>, h: real)
    requires |pts| >= 2 && Increasing(pts)
    ensures var i := SegmentFor(pts, h);
      (pts[i].xHumid <= h || i == 0) && (h <= pts[i + 1].xHumid || i == |pts| - 2)
  {
    var i := SegmentFor(pts, h);
    if i > 0 {
      assert pts[i].xHumid < h;
    }
  }

  /** The temperature of a boundary polyline at humidity h, on the segment chosen for h. */
  function BoundaryTemperature(pts: seq<ComfortPoint>, h: real): real
    requires |pts| >= 2 && Increasing(pts)
  {
    var i := SegmentFor(pts, h);
    LineY(LineThrough(pts[i], pts[i + 1]), h)
  }

  /** The boundary passes through every control point. */
  lemma {:induction false} BoundaryInterpolates(pts: seq<ComfortPoint>, k: int)
    requires |pts| >= 2 && Increasing(pts) && 0 <= k < |pts|
    ensures BoundaryTemperature(pts, pts[k].xHumid) == pts[k].yTemp
  {
    var h := pts[k].xHumid;
    var i := SegmentFor(pts, h);
    if k < i {
      assert false;
    } else if k > i + 1 {
      assert false;
    }
    LineYAtEndpoints(pts[i], pts[i + 1]);
  }

  function Abs(x: real): real {
    if x < 0.0 then -x else x
  }

  /** The index of the control point closest in humidity to h; on a tie the lowest index. */
  function ClosestIndex(pts: seq<ComfortPoint>, h: real): (k: nat)
    requires |pts| >= 1
    ensures k < |pts|
    ensures forall j :: 0 <= j < |pts| ==> Abs(pts[k].xHumid - h) <= Abs(pts[j].xHumid - h)
    ensures forall j :: 0 <= j < k ==> Abs(pts[k].xHumid - h) < Abs(pts[j].xHumid - h)
  {
    ClosestAmong(pts, h, |pts|)
  }

  /** The closest control point among the first n. */
  function ClosestAmong(pts: seq<ComfortPoint>, h: real, n: nat): (k: nat)
    requires 1 <= n <= |pts|
    ensures k < n
    ensures forall j :: 0 <= j < n ==> Abs(pts[k].xHumid - h) <= Abs(pts[j].xHumid - h)
    ensures forall j :: 0 <= j < k ==> Abs(pts[k].xHumid - h) < Abs(pts[j].xHumid - h)
  {
    if n == 1 then 0
    else
      var best := ClosestAmong(pts, h, n - 1);
      if Abs(pts[n - 1].xHumid - h) < Abs(pts[best].xHumid - h) then n - 1 else best
  }
}
