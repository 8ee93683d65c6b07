/**
 The value types shared by the piece tables and the board engine: an integer
 point and a piece shape (offsets, bounding box, colour tag).
 */
module Pieces {

  /** A board coordinate or an offset within a piece; offsets may be negative after a rotation. */
  datatype Point = Point(x: int, y: int)

  /** A piece: its cell offsets, the width and height of its bounding box, and its colour tag. */
  datatype Shape = Shape(points: seq<Point>, width: int, height: int, color: string)

  /** No offset occurs twice. */
  predicate Distinct(ps: seq<Point>)
  {
    forall i, j :: 0 <= i < j < |ps| ==> ps[i] != ps[j]
  }

  /** Every offset lies in [0, width) x [0, height). */
  predicate InBox(ps: seq<Point>, width: int, height: int)
  {
    forall i :: 0 <= i < |ps| ==> 0 <= ps[i].x < width && 0 <= ps[i].y < height
  }

  /** The bounding box is touched on all four sides. */
  predicate TightBox(ps: seq<Point>, width: int, height: int)
  {
    && (exists i :: 0 <= i < |ps| && ps[i].x == 0)
    && (exists i :: 0 <= i < |ps| && ps[i].x == width - 1)
    && (exists i :: 0 <= i < |ps| && ps[i].y == 0)
    && (exists i :: 0 <= i < |ps| && ps[i].y == height - 1)
  }

  /** A four-cell piece with distinct offsets inside a tight bounding box. */
  predicate WellFormedPiece(ps: seq<Point>, width: int, height: int)
  {
    |ps| == 4 && Distinct(ps) && InBox(ps, width, height) && TightBox(ps, width, height)
  }

  predicate WellFormed(s: Shape)
  {
    WellFormedPiece(s.points, s.width, s.height)
  }

  /** A piece given as four offsets, checked side by side: distinct, in the box, touching all four sides. */
  lemma FourCells(ps: seq<Point>, width: int, height: int, a: Point, b: Point, c: Point, d: Point)
    requires ps == [a, b, c, d]
    requires a != b && a != c && a != d && b != c && b != d && c != d
    requires 0 <= a.x < width && 0 <= b.x < width && 0 <= c.x < width && 0 <= d.x < width
    requires 0 <= a.y < height && 0 <= b.y < height && 0 <= c.y < height && 0 <= d.y < height
    requires a.x == 0 || b.x == 0 || c.x == 0 || d.x == 0
    requires a.y == 0 || b.y == 0 || c.y == 0 || d.y == 0
    requires a.x == width - 1 || b.x == width - 1 || c.x == width - 1 || d.x == width - 1
    requires a.y == height - 1 || b.y == height - 1 || c.y == height - 1 || d.y == height - 1
    ensures WellFormedPiece(ps, width, height)
  {
    assert ps[0] == a && ps[1] == b && ps[2] == c && ps[3] == d;
    assert Distinct(ps);
  }
}
