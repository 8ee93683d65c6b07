/**
 The quarter-turn applied by the engine's rotate command: every offset is
 turned by 90 degrees about the fixed centre (floor(width/2), floor(height/2))
 of the piece's bounding box. The rotated piece keeps its width and height, so
 the centre never moves and the transform is a true rotation of the plane.
 */
module Rotation {
  import opened Pieces

  /** The rotation centre; Dafny's `/` by a positive divisor is floor division, like Math.floor(w / 2). */
  function Centre(s: Shape): (c: Point)
    ensures 2 * c.x <= s.width < 2 * c.x + 2
    ensures 2 * c.y <= s.height < 2 * c.y + 2
  {
    Point(s.width / 2, s.height / 2)
  }

  /** Translate by minus the centre, map (x, y) to (-y, x), translate back. */
  function RotatePoint(p: Point, c: Point): (r: Point)
    ensures r.x - c.x == -(p.y - c.y)
    ensures r.y - c.y == p.x - c.x
  {
    Point(c.x + c.y - p.y, p.x - c.x + c.y)
  }

  /** The offset-by-offset map of the rotate command. */
  function RotatePoints(ps: seq<Point>, c: Point): (rs: seq<Point>)
    ensures |rs| == |ps|
    ensures forall i :: 0 <= i < |ps| ==> rs[i] == RotatePoint(ps[i], c)
  {
    if ps == [] then [] else [RotatePoint(ps[0], c)] + RotatePoints(ps[1..], c)
  }

  /** The rotated shape: new offsets, same width, height and colour. */
  function Rotated(s: Shape): (r: Shape)
    ensures |r.points| == |s.points|
    ensures r.width == s.width && r.height == s.height && r.color == s.color
    ensures Centre(r) == Centre(s)
    ensures forall i :: 0 <= i < |s.points| ==> r.points[i] == RotatePoint(s.points[i], Centre(s))
  {
    s.(points := RotatePoints(s.points, Centre(s)))
  }

  /** Two different offsets never land on the same rotated offset. */
  lemma RotatePointInjective(p: Point, q: Point, c: Point)
    ensures RotatePoint(p, c) == RotatePoint(q, c) <==> p == q
  {
    if RotatePoint(p, c) == RotatePoint(q, c) {
      assert p.x == RotatePoint(p, c).y + c.x - c.y;
      assert p.y == c.x + c.y - RotatePoint(p, c).x;
    }
  }

  /** Two quarter turns are the point reflection through the centre. */
  lemma HalfTurnPoint(p: Point, c: Point)
    ensures RotatePoint(RotatePoint(p, c), c) == Point(2 * c.x - p.x, 2 * c.y - p.y)
  {
  }

  /** Four quarter turns bring every offset back. */
  lemma FullTurnPoint(p: Point, c: Point)
    ensures RotatePoint(RotatePoint(RotatePoint(RotatePoint(p, c), c), c), c) == p
  {
    HalfTurnPoint(p, c);
    HalfTurnPoint(RotatePoint(RotatePoint(p, c), c), c);
  }

  /** Rotating twice reflects every offset of the shape through its centre. */
  lemma HalfTurn(s: Shape)
    ensures Rotated(Rotated(s)).width == s.width && Rotated(Rotated(s)).height == s.height
    ensures Rotated(Rotated(s)).color == s.color && |Rotated(Rotated(s)).points| == |s.points|
    ensures forall i :: 0 <= i < |s.points| ==>
      Rotated(Rotated(s)).points[i] == Point(2 * Centre(s).x - s.points[i].x, 2 * Centre(s).y - s.points[i].y)
  {
    forall i | 0 <= i < |s.points|
      ensures Rotated(Rotated(s)).points[i] == Point(2 * Centre(s).x - s.points[i].x, 2 * Centre(s).y - s.points[i].y)
    {
      HalfTurnPoint(s.points[i], Centre(s));
    }
  }

  /** Because width and height are carried over, four rotations give back the very same shape. */
  lemma FullTurn(s: Shape)
    ensures Rotated(Rotated(Rotated(Rotated(s)))) == s
  {
    var r := Rotated(Rotated(Rotated(Rotated(s))));
    forall i | 0 <= i < |s.points|
      ensures r.points[i] == s.points[i]
    {
      FullTurnPoint(s.points[i], Centre(s));
    }
    assert r.points == s.points;
  }

  /** Rotation keeps the offsets of a shape pairwise distinct, and only then. */
  lemma RotatedDistinct(s: Shape)
    ensures Distinct(Rotated(s).points) <==> Distinct(s.points)
  {
    var r := Rotated(s).points;
    forall i, j | 0 <= i < j < |s.points|
      ensures r[i] == r[j] <==> s.points[i] == s.points[j]
    {
      RotatePointInjective(s.points[i], s.points[j], Centre(s));
    }
  }
}
