/** Strokes of the sketch pad: the `MarkerLine` command object and the
    segments its `display` hands to the canvas. */
module Marker {

  /** A pointer position in canvas coordinates. */
  datatype Point = Point(x: int, y: int)

  /** One straight piece of a polyline, drawn at the given line width. */
  datatype Segment = Segment(from: Point, to: Point, width: int)

  /** The value a `MarkerLine` holds at one moment: its points in the order
      they were added, and the thickness captured when it was created. */
  datatype Stroke = Stroke(points: seq<Point>, thickness: int)
  {
    /** The stroke after one more drag to `p`. */
    function Extended(p: Point): (s: Stroke)
      ensures s.thickness == thickness
      ensures |s.points| == |points| + 1 && s.points[|points|] == p
      ensures s.points[..|points|] == points
    {
      Stroke(points + [p], thickness)
    }
  }

  /** What `display` draws for a point list: nothing below two points,
      otherwise one segment from each point to the next. */
  function Segments(points: seq<Point>, width: int): seq<Segment>
  {
    if |points| < 2 then []
    else [Segment(points[0], points[1], width)] + Segments(points[1..], width)
  }

  /** A polyline through n >= 2 points has n - 1 segments; segment i joins
      point i to point i + 1, so consecutive segments share an end point. */
  lemma {:induction false} SegmentsShape(points: seq<Point>, width: int)
    ensures |points| < 2 ==> Segments(points, width) == []
    ensures |points| >= 2 ==> |Segments(points, width)| == |points| - 1
    ensures forall i :: 0 <= i < |Segments(points, width)| ==>
              Segments(points, width)[i] == Segment(points[i], points[i + 1], width)
  {
    if |points| >= 2 {
      SegmentsShape(points[1..], width);
      var rest := Segments(points[1..], width);
      assert Segments(points, width) == [Segment(points[0], points[1], width)] + rest;
      forall i | 0 < i < |Segments(points, width)|
        ensures Segments(points, width)[i] == Segment(points[i], points[i + 1], width)
      {
        assert Segments(points, width)[i] == rest[i - 1];
      }
    }
  }

  /** Appending a point to a non-empty point list adds exactly one segment,
      from the old last point to the new one, after all the old segments. */
  lemma {:induction false} SegmentsSnoc(points: seq<Point>, p: Point, width: int)
    requires |points| >= 1
    ensures Segments(points + [p], width)
         == Segments(points, width) + [Segment(points[|points| - 1], p, width)]
  {
    if |points| == 1 {
      assert points + [p] == [points[0], p];
    } else {
      assert (points + [p])[1..] == points[1..] + [p];
      SegmentsSnoc(points[1..], p, width);
    }
  }

  /** A stroke command. The source keeps the points and the thickness
      private; `drag` is the only way the points change. */
  class MarkerLine {
    var points: seq<Point>
    var thickness: int

    /** The current value of this stroke. */
    function Value(): (s: Stroke)
      reads this
      ensures s.points == points && s.thickness == thickness
    {
      Stroke(points, thickness)
    }

    /** A new stroke starts with its start point and the given thickness. */
    constructor (startX: int, startY: int, thickness: int)
      ensures points == [Point(startX, startY)]
      ensures this.thickness == thickness
    {
      this.thickness := thickness;
      points := [Point(startX, startY)];
    }

    /** `drag` appends one point; earlier points and the thickness stay. */
    method Drag(x: int, y: int)
      modifies this
      ensures Value() == old(Value()).Extended(Point(x, y))
    {
      points := points + [Point(x, y)];
    }

    /** `display` replays the points as one polyline at the stroke's own
        thickness: a move to the first point, then a line to each later one. */
    method Display() returns (segments: seq<Segment>)
      ensures segments == Segments(points, thickness)
      ensures |points| < 2 ==> segments == []
    {
      if |points| < 2 {
        return [];
      }
      segments := [];
      var i := 1;
      while i < |points|
        invariant 1 <= i <= |points|
        invariant segments == Segments(points[..i], thickness)
      {
        assert points[..i + 1] == points[..i] + [points[i]];
        SegmentsSnoc(points[..i], points[i], thickness);
        segments := segments + [Segment(points[i - 1], points[i], thickness)];
        i := i + 1;
      }
      assert points[..i] == points;
    }
  }
}
