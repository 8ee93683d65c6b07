/**
 The catalog of the seven classic pieces (O, I, L, J, Z, S, T), each with its
 own colour tag, as constant data, with the facts every entry satisfies.
 */
module Catalog {
  import opened Pieces
  import opened Rotation

  const O := Shape([Point(0, 0), Point(1, 0), Point(0, 1), Point(1, 1)], 2, 2, "yellow")
  const I := Shape([Point(0, 0), Point(0, 1), Point(0, 2), Point(0, 3)], 1, 4, "cyan")
  const L := Shape([Point(0, 0), Point(0, 1), Point(0, 2), Point(1, 2)], 2, 3, "orange")
  const J := Shape([Point(1, 0), Point(1, 1), Point(1, 2), Point(0, 2)], 2, 3, "blue")
  const Z := Shape([Point(0, 0), Point(1, 0), Point(1, 1), Point(2, 1)], 3, 2, "red")
  const S := Shape([Point(1, 0), Point(2, 0), Point(0, 1), Point(1, 1)], 3, 2, "green")
  const T := Shape([Point(0, 0), Point(1, 0), Point(2, 0), Point(1, 1)], 3, 2, "purple")

  const Shapes: seq<Shape> := [O, I, L, J, Z, S, T]

  /** The rotation of a four-offset piece, offset by offset. */
  lemma RotatedFour(s: Shape, a: Point, b: Point, c: Point, d: Point)
    requires s.points == [a, b, c, d]
    ensures Rotated(s).points == [RotatePoint(a, Centre(s)), RotatePoint(b, Centre(s)), RotatePoint(c, Centre(s)), RotatePoint(d, Centre(s))]
  {
    assert s.points[0] == a && s.points[1] == b && s.points[2] == c && s.points[3] == d;
  }

  /** The catalog holds exactly seven pieces. */
  lemma CatalogSize()
    ensures |Shapes| == 7
  {
  }

  /** Every piece has four distinct offsets inside a tight bounding box. */
  lemma CatalogWellFormed()
    ensures forall k :: 0 <= k < |Shapes| ==> WellFormed(Shapes[k])
  {
    forall k | 0 <= k < |Shapes|
      ensures WellFormed(Shapes[k])
    {
      if k == 0 {
        FourCells(O.points, 2, 2, Point(0, 0), Point(1, 0), Point(0, 1), Point(1, 1));
      } else if k == 1 {
        FourCells(I.points, 1, 4, Point(0, 0), Point(0, 1), Point(0, 2), Point(0, 3));
      } else if k == 2 {
        FourCells(L.points, 2, 3, Point(0, 0), Point(0, 1), Point(0, 2), Point(1, 2));
      } else if k == 3 {
        FourCells(J.points, 2, 3, Point(1, 0), Point(1, 1), Point(1, 2), Point(0, 2));
      } else if k == 4 {
        FourCells(Z.points, 3, 2, Point(0, 0), Point(1, 0), Point(1, 1), Point(2, 1));
      } else if k == 5 {
        FourCells(S.points, 3, 2, Point(1, 0), Point(2, 0), Point(0, 1), Point(1, 1));
      } else {
        FourCells(T.points, 3, 2, Point(0, 0), Point(1, 0), Point(2, 0), Point(1, 1));
      }
    }
  }

  /** The seven colour tags are pairwise different. */
  lemma CatalogColorsDistinct()
    ensures forall i, j :: 0 <= i < j < |Shapes| ==> Shapes[i].color != Shapes[j].color
  {
  }

  /** Every catalog piece comes back unchanged after four rotations. */
  lemma CatalogFullTurn()
    ensures forall k :: 0 <= k < |Shapes| ==> Rotated(Rotated(Rotated(Rotated(Shapes[k])))) == Shapes[k]
  {
    forall k | 0 <= k < |Shapes|
      ensures Rotated(Rotated(Rotated(Rotated(Shapes[k])))) == Shapes[k]
    {
      FullTurn(Shapes[k]);
    }
  }

  /** Rotation keeps every catalog piece to four distinct offsets. */
  lemma CatalogRotatedDistinct()
    ensures forall k :: 0 <= k < |Shapes| ==> |Rotated(Shapes[k]).points| == 4 && Distinct(Rotated(Shapes[k]).points)
  {
    CatalogWellFormed();
    forall k | 0 <= k < |Shapes|
      ensures Distinct(Rotated(Shapes[k]).points)
    {
      RotatedDistinct(Shapes[k]);
    }
  }

  /** A vertical bar of height 4 turns about (0, 2) into a horizontal bar on row 2. */
  lemma BarRotation(s: Shape)
    requires s.points == [Point(0, 0), Point(0, 1), Point(0, 2), Point(0, 3)] && s.width == 1 && s.height == 4
    ensures Rotated(s).points == [Point(2, 2), Point(1, 2), Point(0, 2), Point(-1, 2)]
  {
    RotatedFour(s, Point(0, 0), Point(0, 1), Point(0, 2), Point(0, 3));
  }

  /**
   The upright I piece turns about (0, 2) into a horizontal bar on row 2 that
   reaches x = -1.
   */
  lemma IRotation()
    ensures Rotated(I).points == [Point(2, 2), Point(1, 2), Point(0, 2), Point(-1, 2)]
  {
    BarRotation(I);
  }

  /** Rotated offsets can leave the bounding box, which rotation does not update. */
  lemma IRotationLeavesBox()
    ensures !InBox(Rotated(I).points, Rotated(I).width, Rotated(I).height)
  {
    IRotation();
    var r := Rotated(I);
    assert r.points[3] == Point(-1, 2);
  }
}
