/** `polygon.cpp`: validity of an outline with holes. */
module Polygons {
  import opened Wrappers
  import opened Geometry
  import opened Contours

  datatype PolygonValidity =
    | PolygonValid
    | InvalidOutline
    | OutlineWrongOrientation
    | InvalidHole
    | HoleWrongOrientation
    | HoleOutsideOutline

  predicate SpansApart(s: Span, t: Span) { !ChordsProperlyCross(s.start, s.end, t.start, t.end) }

  /** No chord of `hole` properly crosses a chord of `outline`. */
  predicate NoChordCrossing(outline: Contour, hole: Contour) {
    forall i, j :: 0 <= i < |outline.spans| && 0 <= j < |hole.spans| ==> SpansApart(outline.spans[i], hole.spans[j])
  }

  function HoleDefect(outline: Contour, hole: Contour): Option<PolygonValidity> {
    if Validate(hole) != Valid then Some(InvalidHole)
    else if OrientationOf(hole) != Orientation.Clockwise then Some(HoleWrongOrientation)
    else if !NoChordCrossing(outline, hole) || !StrictlyContains(outline, hole.spans[0].start) then
      Some(HoleOutsideOutline)
    else None
  }

  function FirstHoleDefect(outline: Contour, holes: seq<Contour>): PolygonValidity {
    if holes == [] then PolygonValid
    else match HoleDefect(outline, holes[0])
      case Some(defect) => defect
      case None => FirstHoleDefect(outline, holes[1..])
  }

  /** `validate(const Polygon&)`. */
  function ValidatePolygon(p: Polygon): PolygonValidity {
    if Validate(p.outline) != Valid then InvalidOutline
    else if OrientationOf(p.outline) != Orientation.CounterClockwise then OutlineWrongOrientation
    else FirstHoleDefect(p.outline, p.holes)
  }

  /** What the outline of a valid polygon needs of a hole. */
  predicate HoleFits(outline: Contour, hole: Contour) {
    && Validate(hole) == Valid && OrientationOf(hole) == Orientation.Clockwise
    && NoChordCrossing(outline, hole)
    && hole.spans != [] && StrictlyContains(outline, hole.spans[0].start)
  }

  lemma NoDefectIffFits(outline: Contour, hole: Contour)
    ensures HoleDefect(outline, hole).None? <==> HoleFits(outline, hole)
    ensures HoleDefect(outline, hole) != Some(PolygonValid)
  {
    hide OrientationOf, NoChordCrossing, StrictlyContains;
  }

  lemma {:induction false} HolesFitIff(outline: Contour, holes: seq<Contour>)
    ensures FirstHoleDefect(outline, holes) == PolygonValid <==>
            forall i :: 0 <= i < |holes| ==> HoleFits(outline, holes[i])
  {
    hide HoleDefect, HoleFits;
    if holes != [] {
      NoDefectIffFits(outline, holes[0]);
      HolesFitIff(outline, holes[1..]);
      HeadAndTail(outline, holes);
    }
  }

  lemma HeadAndTail(outline: Contour, holes: seq<Contour>)
    requires holes != []
    ensures (forall i :: 0 <= i < |holes| ==> HoleFits(outline, holes[i])) <==>
            HoleFits(outline, holes[0]) && forall i :: 0 <= i < |holes[1..]| ==> HoleFits(outline, holes[1..][i])
  {
    hide HoleFits;
    if HoleFits(outline, holes[0]) && forall i :: 0 <= i < |holes[1..]| ==> HoleFits(outline, holes[1..][i]) {
      forall i | 0 <= i < |holes|
        ensures HoleFits(outline, holes[i])
      {
        assert i == 0 || holes[i] == holes[1..][i - 1];
      }
    }
  }

  /** What a valid polygon is, independently of the order of the checks: the windings, and
      every hole inside the outline without crossing it. */
  lemma ValidPolygonMeans(p: Polygon)
    ensures ValidatePolygon(p) == PolygonValid <==>
            && Validate(p.outline) == Valid && OrientationOf(p.outline) == Orientation.CounterClockwise
            && forall i :: 0 <= i < |p.holes| ==> HoleFits(p.outline, p.holes[i])
  {
    hide Validate, OrientationOf, HoleFits, FirstHoleDefect;
    HolesFitIff(p.outline, p.holes);
  }

  method AvoidsCrossing(outline: Contour, hole: Contour) returns (r: bool)
    ensures r == NoChordCrossing(outline, hole)
  {
    hide ChordsProperlyCross;
    for i := 0 to |outline.spans|
      invariant forall a, b :: 0 <= a < i && 0 <= b < |hole.spans| ==> SpansApart(outline.spans[a], hole.spans[b])
    {
      for j := 0 to |hole.spans|
        invariant forall b :: 0 <= b < j ==> SpansApart(outline.spans[i], hole.spans[b])
      {
        var outer, inner := outline.spans[i], hole.spans[j];
        if ChordsProperlyCross(outer.start, outer.end, inner.start, inner.end) {
          assert !SpansApart(outer, inner);
          return false;
        }
      }
    }
    return true;
  }

  /** `validate(const Polygon&)`, with its loop over the holes. */
  method ValidateWithHoles(p: Polygon) returns (v: PolygonValidity)
    ensures v == ValidatePolygon(p)
  {
    hide Validate, OrientationOf, NoChordCrossing, StrictlyContains, HoleDefect;
    var outline := ValidateContour(p.outline);
    if outline != Valid {
      return InvalidOutline;
    }
    var orientation := ComputeOrientation(p.outline);
    if orientation != Orientation.CounterClockwise {
      return OutlineWrongOrientation;
    }
    for i := 0 to |p.holes|
      invariant FirstHoleDefect(p.outline, p.holes) == FirstHoleDefect(p.outline, p.holes[i..])
    {
      var hole := p.holes[i];
      assert p.holes[i..][0] == hole && p.holes[i..][1..] == p.holes[i + 1..];
      var defect := LookAtHole(p.outline, hole);
      if defect.Some? {
        return defect.value;
      }
    }
    return PolygonValid;
  }

  /** The body of that loop. */
  method LookAtHole(outline: Contour, hole: Contour) returns (r: Option<PolygonValidity>)
    ensures r == HoleDefect(outline, hole)
  {
    hide OrientationOf, NoChordCrossing, StrictlyContains;
    var validity := ValidateContour(hole);
    if validity != Valid {
      return Some(InvalidHole);
    }
    var orientation := ComputeOrientation(hole);
    if orientation != Orientation.Clockwise {
      return Some(HoleWrongOrientation);
    }
    var apart := AvoidsCrossing(outline, hole);
    if !apart {
      return Some(HoleOutsideOutline);
    }
    var inside := ContourStrictlyContains(outline, hole.spans[0].start);
    return if inside then None else Some(HoleOutsideOutline);
  }

  /** What is wrong with a hole, in the order in which it is looked at. */
  lemma HoleDefectMeans(outline: Contour, hole: Contour)
    ensures HoleDefect(outline, hole) == Some(InvalidHole) <==> Validate(hole) != Valid
    ensures HoleDefect(outline, hole) == Some(HoleWrongOrientation) <==>
            Validate(hole) == Valid && OrientationOf(hole) != Orientation.Clockwise
    ensures HoleDefect(outline, hole) == Some(HoleOutsideOutline) <==>
            && Validate(hole) == Valid && OrientationOf(hole) == Orientation.Clockwise
            && (NoChordCrossing(outline, hole) ==> !StrictlyContains(outline, hole.spans[0].start))
  {
    hide Validate, OrientationOf, NoChordCrossing, StrictlyContains;
  }
}
