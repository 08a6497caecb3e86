/** The comfort profile: a hot and a cold boundary, each COMFORT_CTRL_POINTS control
    points in fixed arrays with the lines joining consecutive points; the dry and humid
    humidity borders; the latest sensor measurement.  Then the Comfort facade that
    owns a profile and the latest temperature and humidity. */
module Profiles {
  import opened Geometry

  /** COMFORT_CTRL_POINTS */
  const CtrlPoints: nat := 5

  /** The parameter type of refreshComfortLine. */
  newtype uint8 = x: int | 0 <= x < 256

  /** The control points of both boundaries, as values. */
  datatype Envelope = Envelope(hot: seq<ComfortPoint>, cold: seq<ComfortPoint>)

  /** Both boundaries have COMFORT_CTRL_POINTS points in increasing humidity order. */
  predicate WellFormed(e: Envelope) {
    |e.hot| == CtrlPoints && |e.cold| == CtrlPoints && Increasing(e.hot) && Increasing(e.cold)
  }

  /** Hot and cold control points are paired by index at the same humidity. */
  predicate Aligned(e: Envelope) {
    |e.hot| == |e.cold| && forall i :: 0 <= i < |e.hot| ==> e.hot[i].xHumid == e.cold[i].xHumid
  }

  /** Every hot control point lies above the cold control point of the same index. */
  predicate NotInverted(e: Envelope) {
    |e.hot| == |e.cold| && forall i :: 0 <= i < |e.hot| ==> e.hot[i].yTemp > e.cold[i].yTemp
  }

  /** Humidity h lies within the control-point range of the hot boundary. */
  predicate InRange(e: Envelope, h: real)
    requires |e.hot| >= 1
  {
    e.hot[0].xHumid <= h <= e.hot[|e.hot| - 1].xHumid
  }

  /** The mean of the hot-boundary and the cold-boundary temperature at humidity h. */
  function AverageTemperature(e: Envelope, h: real): real
    requires WellFormed(e)
  {
    (BoundaryTemperature(e.hot, h) + BoundaryTemperature(e.cold, h)) / 2.0
  }

  /** Two sequences of points with the same humidities choose the same segment. */
  lemma SegmentSameHumidities(p: seq<ComfortPoint>, q: seq<ComfortPoint>, h: real)
    requires |p| == |q| >= 2
    requires forall i :: 0 <= i < |p| ==> p[i].xHumid == q[i].xHumid
    ensures SegmentFor(p, h) == SegmentFor(q, h)
  {
    var i, j := SegmentFor(p, h), SegmentFor(q, h);
    if i < j {
      assert q[i + 1].xHumid < h;
    }
  }

  /** Within the control-point range of an aligned envelope whose hot points lie above
      its cold points, the hot boundary lies above the cold boundary everywhere, not
      only at the control points: the envelope is never inverted. */
  lemma {:induction false} HotAboveCold(e: Envelope, h: real)
    requires WellFormed(e) && Aligned(e) && NotInverted(e) && InRange(e, h)
    ensures BoundaryTemperature(e.cold, h) < BoundaryTemperature(e.hot, h)
  {
    SegmentSameHumidities(e.hot, e.cold, h);
    SegmentBrackets(e.hot, h);
    var i := SegmentFor(e.hot, h);
    BoundaryAsMean(e.hot, h, i);
    BoundaryAsMean(e.cold, h, i);
    assert e.cold[i].xHumid == e.hot[i].xHumid && e.cold[i + 1].xHumid == e.hot[i + 1].xHumid;
    WeightedMeansOrdered(BoundaryTemperature(e.hot, h), BoundaryTemperature(e.cold, h),
      e.hot[i].xHumid, e.hot[i + 1].xHumid, h,
      e.hot[i].yTemp, e.hot[i + 1].yTemp, e.cold[i].yTemp, e.cold[i + 1].yTemp);
  }

  /** A boundary's temperature as the weighted mean of the ends of its chosen segment. */
  lemma BoundaryAsMean(pts: seq<ComfortPoint>, h: real, i: nat)
    requires |pts| >= 2 && Increasing(pts) && i == SegmentFor(pts, h)
    ensures BoundaryTemperature(pts, h) * (pts[i + 1].xHumid - pts[i].xHumid)
         == (pts[i + 1].xHumid - h) * pts[i].yTemp + (h - pts[i].xHumid) * pts[i + 1].yTemp
  {
    LineYInterpolates(pts[i], pts[i + 1], h);
  }

  /** Two weighted means with the same non-negative weights (x2 - h) and (h - x1):
      if both terms of the first exceed those of the second, so does the mean. */
  lemma WeightedMeansOrdered(yh: real, yc: real, x1: real, x2: real, h: real,
                             h1: real, h2: real, c1: real, c2: real)
    requires x1 < x2 && x1 <= h <= x2
    requires yh * (x2 - x1) == (x2 - h) * h1 + (h - x1) * h2
    requires yc * (x2 - x1) == (x2 - h) * c1 + (h - x1) * c2
    requires h1 > c1 && h2 > c2
    ensures yc < yh
  {
    var w1, w2, d1, d2 := x2 - h, h - x1, h1 - c1, h2 - c2;
    assert (yh - yc) * (x2 - x1) == w1 * d1 + w2 * d2;
    assert w1 * d1 >= 0.0 && w2 * d2 >= 0.0;
    assert w1 * d1 > 0.0 || w2 * d2 > 0.0;
    assert (yh - yc) * (x2 - x1) > 0.0;
  }

  /** The average temperature lies strictly between the two boundaries. */
  lemma AverageBetweenBoundaries(e: Envelope, h: real)
    requires WellFormed(e) && Aligned(e) && NotInverted(e) && InRange(e, h)
    ensures BoundaryTemperature(e.cold, h) < AverageTemperature(e, h) < BoundaryTemperature(e.hot, h)
  {
    HotAboveCold(e, h);
  }

  /** At the humidity of a control point shared by both boundaries, the average is the
      midpoint of that point's hot and cold temperatures. */
  lemma AverageAtControlPoint(e: Envelope, k: int)
    requires WellFormed(e) && 0 <= k < CtrlPoints && e.hot[k].xHumid == e.cold[k].xHumid
    ensures AverageTemperature(e, e.hot[k].xHumid) == (e.hot[k].yTemp + e.cold[k].yTemp) / 2.0
  {
    BoundaryInterpolates(e.hot, k);
    BoundaryInterpolates(e.cold, k);
  }

  /** Control point k takes temperature temp; its humidity and every other point stay. */
  function MovePoint(s: seq<ComfortPoint>, k: int, temp: real): (r: seq<ComfortPoint>)
    requires 0 <= k < |s|
    ensures |r| == |s| && r[k] == ComfortPoint(s[k].xHumid, temp)
    ensures forall i :: 0 <= i < |s| && i != k ==> r[i] == s[i]
    ensures forall i :: 0 <= i < |s| ==> r[i].xHumid == s[i].xHumid
    ensures Increasing(s) ==> Increasing(r)
  {
    s[k := ComfortPoint(s[k].xHumid, temp)]
  }

  /** The user adaptation of the envelope: the user declares temp comfortable at the
      current humidity h.  At or above the average temperature for h the closest hot
      point (by humidity) takes temp as its temperature, below it the closest cold
      point does; a change that would put the hot point of that index at or below the
      cold one is refused and leaves the envelope as it was. */
  function Adapt(e: Envelope, h: real, temp: real): (r: Envelope)
    requires WellFormed(e)
    ensures WellFormed(r)
    ensures r.hot == e.hot || r.cold == e.cold
    ensures forall i :: 0 <= i < CtrlPoints && r.hot[i] != e.hot[i] ==>
      i == ClosestIndex(e.hot, h) && r.hot[i] == ComfortPoint(e.hot[i].xHumid, temp)
    ensures forall i :: 0 <= i < CtrlPoints && r.cold[i] != e.cold[i] ==>
      i == ClosestIndex(e.cold, h) && r.cold[i] == ComfortPoint(e.cold[i].xHumid, temp)
    ensures r.hot != e.hot ==> temp >= AverageTemperature(e, h)
    ensures r.cold != e.cold ==> temp < AverageTemperature(e, h)
    ensures var k := ClosestIndex(e.hot, h);
      temp >= AverageTemperature(e, h) && temp > e.cold[k].yTemp ==> r.hot[k].yTemp == temp
    ensures var k := ClosestIndex(e.cold, h);
      temp < AverageTemperature(e, h) && temp < e.hot[k].yTemp ==> r.cold[k].yTemp == temp
    ensures Aligned(e) ==> Aligned(r)
    ensures NotInverted(e) ==> NotInverted(r)
  {
    var avg := AverageTemperature(e, h);
    var kh, kc := ClosestIndex(e.hot, h), ClosestIndex(e.cold, h);
    if temp >= avg && temp > e.cold[kh].yTemp then
      var r := Envelope(MovePoint(e.hot, kh, temp), e.cold);
      MoveKeepsPairing(e, r, kh);
      r
    else if temp < avg && temp < e.hot[kc].yTemp then
      var r := Envelope(e.hot, MovePoint(e.cold, kc, temp));
      MoveKeepsPairing(e, r, kc);
      r
    else e
  }

  /** A proof step for Adjust, which makes Adapt's decisions one statement at a time:
      the case split it performs yields Adapt's result.  Not a separate statement of
      the adaptation. */
  lemma AdaptDecides(e: Envelope, h: real, temp: real, r: Envelope)
    requires WellFormed(e)
    requires var avg, kh, kc := AverageTemperature(e, h), ClosestIndex(e.hot, h), ClosestIndex(e.cold, h);
      r == if temp >= avg && temp > e.cold[kh].yTemp then Envelope(MovePoint(e.hot, kh, temp), e.cold)
           else if temp < avg && temp < e.hot[kc].yTemp then Envelope(e.hot, MovePoint(e.cold, kc, temp))
           else e
    ensures r == Adapt(e, h, temp)
  {
  }

  /** Moving the hot or the cold point of index k vertically, keeping the hot point
      above the cold one there, keeps the envelope aligned and not inverted. */
  lemma MoveKeepsPairing(e: Envelope, r: Envelope, k: int)
    requires |e.hot| == |e.cold| == |r.hot| == |r.cold| && 0 <= k < |e.hot|
    requires forall i :: 0 <= i < |e.hot| ==> r.hot[i].xHumid == e.hot[i].xHumid && r.cold[i].xHumid == e.cold[i].xHumid
    requires forall i :: 0 <= i < |e.hot| && i != k ==> r.hot[i] == e.hot[i] && r.cold[i] == e.cold[i]
    requires r.hot[k].yTemp > r.cold[k].yTemp
    ensures Aligned(e) ==> Aligned(r)
    ensures NotInverted(e) ==> NotInverted(r)
  {
  }

  class ComfortProfile {
    /** The control points of the too-hot boundary and the lines joining them. */
    const hotPoints: array<ComfortPoint>
    const hotLines: array<ComfortLine>
    /** The control points of the too-cold boundary and the lines joining them. */
    const coldPoints: array<ComfortPoint>
    const coldLines: array<ComfortLine>
    /** The relative humidities taken as the dry and the humid border. */
    var dryLine: real
    var humidLine: real
    /** The latest temperature and humidity from the sensors. */
    var lastSensorMeasurements: ComfortPoint

    ghost predicate Valid()
      reads this
    {
      hotPoints.Length == CtrlPoints && coldPoints.Length == CtrlPoints
      && hotLines.Length == CtrlPoints - 1 && coldLines.Length == CtrlPoints - 1
      && hotPoints != coldPoints && hotLines != coldLines
    }

    /** The control points as values. */
    ghost function Points(): Envelope
      reads this, hotPoints, coldPoints
    {
      Envelope(hotPoints[..], coldPoints[..])
    }

    /** Every stored line is the line joining its two control points. */
    ghost predicate LinesCurrent()
      reads this, hotPoints, coldPoints, hotLines, coldLines
      requires Valid()
    {
      hotLines[..] == Polyline(hotPoints[..]) && coldLines[..] == Polyline(coldPoints[..])
    }

    /** Every stored line except those incident to point k is current. */
    ghost predicate CurrentExcept(k: int)
      reads this, hotPoints, coldPoints, hotLines, coldLines
      requires Valid()
    {
      forall i :: 0 <= i < CtrlPoints - 1 && i != k - 1 && i != k ==>
        hotLines[i] == LineThrough(hotPoints[i], hotPoints[i + 1])
        && coldLines[i] == LineThrough(coldPoints[i], coldPoints[i + 1])
    }

    /** A profile with the given control points and borders; its lines are computed. */
    constructor (hot: seq<ComfortPoint>, cold: seq<ComfortPoint>, dry: real, humid: real, last: ComfortPoint)
      requires |hot| == CtrlPoints && |cold| == CtrlPoints
      ensures Valid() && LinesCurrent()
      ensures Points() == Envelope(hot, cold)
      ensures dryLine == dry && humidLine == humid && lastSensorMeasurements == last
      ensures fresh(hotPoints) && fresh(coldPoints) && fresh(hotLines) && fresh(coldLines)
    {
      hotPoints := new ComfortPoint[CtrlPoints](i requires 0 <= i < CtrlPoints => hot[i]);
      coldPoints := new ComfortPoint[CtrlPoints](i requires 0 <= i < CtrlPoints => cold[i]);
      hotLines := new ComfortLine[CtrlPoints - 1];
      coldLines := new ComfortLine[CtrlPoints - 1];
      dryLine, humidLine, lastSensorMeasurements := dry, humid, last;
      new;
      assert hotPoints[..] == hot && coldPoints[..] == cold;
      InitComfortLines();
    }

    /** initComfortLines: recomputes every line from its two control points. */
    method InitComfortLines()
      requires Valid()
      modifies hotLines, coldLines
      ensures LinesCurrent()
    {
      var i := 0;
      while i < CtrlPoints - 1
        invariant 0 <= i <= CtrlPoints - 1
        invariant forall j :: 0 <= j < i ==> hotLines[j] == LineThrough(hotPoints[j], hotPoints[j + 1])
        invariant forall j :: 0 <= j < i ==> coldLines[j] == LineThrough(coldPoints[j], coldPoints[j + 1])
      {
        hotLines[i] := LineThrough(hotPoints[i], hotPoints[i + 1]);
        coldLines[i] := LineThrough(coldPoints[i], coldPoints[i + 1]);
        i := i + 1;
      }
      assert hotLines[..] == Polyline(hotPoints[..]);
      assert coldLines[..] == Polyline(coldPoints[..]);
    }

    /** refreshComfortLine: recomputes, in both boundaries, only the lines that end
        or start at control point k (indices k-1 and k, where they exist).  An index
        past the last control point changes nothing. */
    method RefreshComfortLine(idxModifiedPoint: uint8)
      requires Valid()
      modifies hotLines, coldLines
      ensures hotLines[..] == Refreshed(old(hotLines[..]), hotPoints[..], idxModifiedPoint as int)
      ensures coldLines[..] == Refreshed(old(coldLines[..]), coldPoints[..], idxModifiedPoint as int)
      ensures old(CurrentExcept(idxModifiedPoint as int)) ==> LinesCurrent()
    {
      var k := idxModifiedPoint as int;
      if 0 < k <= CtrlPoints - 1 {
        hotLines[k - 1] := LineThrough(hotPoints[k - 1], hotPoints[k]);
        coldLines[k - 1] := LineThrough(coldPoints[k - 1], coldPoints[k]);
      }
      if k < CtrlPoints - 1 {
        hotLines[k] := LineThrough(hotPoints[k], hotPoints[k + 1]);
        coldLines[k] := LineThrough(coldPoints[k], coldPoints[k + 1]);
      }
      assert hotLines[..] == Refreshed(old(hotLines[..]), hotPoints[..], k);
      assert coldLines[..] == Refreshed(old(coldLines[..]), coldPoints[..], k);
      if old(CurrentExcept(k)) {
        assert hotLines[..] == Polyline(hotPoints[..]);
        assert coldLines[..] == Polyline(coldPoints[..]);
      }
    }

    /** getAverageProfileTemperature: the mean of the hot and the cold boundary
        temperatures at the given humidity, computed from the stored lines. */
    method GetAverageProfileTemperature(humidity: real) returns (t: real)
      requires Valid() && WellFormed(Points()) && LinesCurrent()
      ensures t == AverageTemperature(Points(), humidity)
      ensures forall k :: 0 <= k < CtrlPoints && hotPoints[k].xHumid == humidity && coldPoints[k].xHumid == humidity
                ==> t == (hotPoints[k].yTemp + coldPoints[k].yTemp) / 2.0
      ensures Aligned(Points()) && NotInverted(Points()) && InRange(Points(), humidity) ==>
                BoundaryTemperature(coldPoints[..], humidity) < t < BoundaryTemperature(hotPoints[..], humidity)
    {
      var i := SegmentFor(hotPoints[..], humidity);
      var j := SegmentFor(coldPoints[..], humidity);
      PolylineJoins(hotPoints[..], i);
      PolylineJoins(coldPoints[..], j);
      t := (LineY(hotLines[i], humidity) + LineY(coldLines[j], humidity)) / 2.0;
      forall k | 0 <= k < CtrlPoints && hotPoints[k].xHumid == humidity && coldPoints[k].xHumid == humidity
        ensures t == (hotPoints[k].yTemp + coldPoints[k].yTemp) / 2.0
      {
        AverageAtControlPoint(Points(), k);
      }
      if Aligned(Points()) && NotInverted(Points()) && InRange(Points(), humidity) {
        AverageBetweenBoundaries(Points(), humidity);
      }
    }

    /** setUserTemperature: moves the control point closest to the current humidity,
        on the hot or the cold boundary, to the user's temperature (see Adapt), then
        refreshes only the lines incident to it. */
    method SetUserTemperature(temp: real)
      requires Valid() && WellFormed(Points()) && LinesCurrent()
      modifies hotPoints, coldPoints, hotLines, coldLines
      ensures Points() == Adapt(old(Points()), lastSensorMeasurements.xHumid, temp)
      ensures LinesCurrent()
      ensures forall i :: 0 <= i < CtrlPoints - 1 && hotPoints[i] == old(hotPoints[i]) && hotPoints[i + 1] == old(hotPoints[i + 1])
                ==> hotLines[i] == old(hotLines[i])
      ensures forall i :: 0 <= i < CtrlPoints - 1 && coldPoints[i] == old(coldPoints[i]) && coldPoints[i + 1] == old(coldPoints[i + 1])
                ==> coldLines[i] == old(coldLines[i])
    {
      var h := lastSensorMeasurements.xHumid;
      var avg := GetAverageProfileTemperature(h);
      Adjust(h, temp, avg);
    }

    /** The step of setUserTemperature after the average temperature avg at the
        current humidity h is known. */
    method Adjust(h: real, temp: real, avg: real)
      requires Valid() && WellFormed(Points()) && LinesCurrent() && avg == AverageTemperature(Points(), h)
      modifies hotPoints, coldPoints, hotLines, coldLines
      ensures Points() == Adapt(old(Points()), h, temp)
      ensures LinesCurrent()
      ensures forall i :: 0 <= i < CtrlPoints - 1 && hotPoints[i] == old(hotPoints[i]) && hotPoints[i + 1] == old(hotPoints[i + 1])
                ==> hotLines[i] == old(hotLines[i])
      ensures forall i :: 0 <= i < CtrlPoints - 1 && coldPoints[i] == old(coldPoints[i]) && coldPoints[i + 1] == old(coldPoints[i + 1])
                ==> coldLines[i] == old(coldLines[i])
    {
      ghost var e := Points();
      var kh, kc := ClosestIndex(hotPoints[..], h), ClosestIndex(coldPoints[..], h);
      if temp >= avg && temp > coldPoints[kh].yTemp {
        MoveControlPoint(hotPoints, kh, temp);
        assert Points() == Envelope(MovePoint(e.hot, kh, temp), e.cold);
      } else if temp < avg && temp < hotPoints[kc].yTemp {
        MoveControlPoint(coldPoints, kc, temp);
        assert Points() == Envelope(e.hot, MovePoint(e.cold, kc, temp));
      }
      AdaptDecides(e, h, temp, Points());
      PolylineLocal(e.hot, hotPoints[..]);
      PolylineLocal(e.cold, coldPoints[..]);
    }

    /** Gives control point k of one boundary the temperature temp and refreshes the
        lines incident to it. */
    method MoveControlPoint(pts: array<ComfortPoint>, k: nat, temp: real)
      requires Valid() && LinesCurrent() && (pts == hotPoints || pts == coldPoints) && k < CtrlPoints
      modifies pts, hotLines, coldLines
      ensures pts[..] == MovePoint(old(pts[..]), k, temp)
      ensures LinesCurrent()
    {
      ghost var hot0, cold0 := hotPoints[..], coldPoints[..];
      pts[k] := ComfortPoint(pts[k].xHumid, temp);
      assert pts[..] == MovePoint(old(pts[..]), k, temp);
      RefreshAfterMove(hot0, k, hotPoints[k]);
      RefreshAfterMove(cold0, k, coldPoints[k]);
      assert hotPoints[..] == hot0[k := hotPoints[k]];
      assert coldPoints[..] == cold0[k := coldPoints[k]];
      RefreshComfortLine(k as uint8);
    }

    /** onNewTemperature: records the new temperature and nothing else. */
    method OnNewTemperature(newTemp: real)
      modifies this`lastSensorMeasurements
      ensures lastSensorMeasurements.yTemp == newTemp
      ensures lastSensorMeasurements.xHumid == old(lastSensorMeasurements.xHumid)
    {
      lastSensorMeasurements := lastSensorMeasurements.(yTemp := newTemp);
    }

    /** onNewHumidity: records the new humidity and nothing else. */
    method OnNewHumidity(newHumid: real)
      modifies this`lastSensorMeasurements
      ensures lastSensorMeasurements.xHumid == newHumid
      ensures lastSensorMeasurements.yTemp == old(lastSensorMeasurements.yTemp)
    {
      lastSensorMeasurements := lastSensorMeasurements.(xHumid := newHumid);
    }
  }

  /** The facade: owns one comfort profile and keeps the latest temperature and
      humidity read from the sensors. */
  class Comfort {
    const curComfProfile: ComfortProfile
    var temperature: real
    var humidity: real
    /** Whether a reading has been recorded since construction. */
    ghost var hasReading: bool

    constructor (hot: seq<ComfortPoint>, cold: seq<ComfortPoint>, dry: real, humid: real, last: ComfortPoint)
      requires |hot| == CtrlPoints && |cold| == CtrlPoints
      ensures fresh(curComfProfile) && curComfProfile.Valid() && curComfProfile.LinesCurrent()
      ensures curComfProfile.Points() == Envelope(hot, cold)
      ensures curComfProfile.dryLine == dry && curComfProfile.humidLine == humid
      ensures curComfProfile.lastSensorMeasurements == last
      ensures fresh(curComfProfile.hotPoints) && fresh(curComfProfile.coldPoints)
      ensures fresh(curComfProfile.hotLines) && fresh(curComfProfile.coldLines)
      ensures !hasReading
    {
      curComfProfile := new ComfortProfile(hot, cold, dry, humid, last);
      hasReading := false;
    }

    /** onNewTempAndHumidity: records the reading in the facade only; the profile's last
        measurement changes through its own OnNewTemperature and OnNewHumidity. */
    method OnNewTempAndHumidity(t: real, h: real)
      modifies this`temperature, this`humidity, this`hasReading
      ensures temperature == t && humidity == h && hasReading
    {
      temperature, humidity := t, h;
      hasReading := true;
    }

    /** getComfortProfile: the profile this facade owns. */
    method GetComfortProfile() returns (p: ComfortProfile)
      ensures p == curComfProfile
    {
      p := curComfProfile;
    }
  }
}
