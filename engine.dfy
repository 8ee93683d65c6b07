/**
 The board engine: the field, the falling piece with its anchor, and the
 score, with the commands a host delivers to it (tick, move, rotate, key
 presses). The random choice of the next piece is made by the caller and
 passed in; the timer that fires `Tick` belongs to the host.
 */
module Engine {
  import opened Pieces
  import opened Rotation
  import opened Scene

  /** An entry of the engine's own piece table, which carries no colour. */
  datatype Template = Template(points: seq<Point>, width: int, height: int)

  /** The three pieces the engine deals: square, bar and L. */
  const Templates: seq<Template> := [
    Template([Point(0, 0), Point(0, 1), Point(1, 0), Point(1, 1)], 2, 2),
    Template([Point(0, 0), Point(0, 1), Point(0, 2), Point(0, 3)], 1, 4),
    Template([Point(0, 0), Point(0, 1), Point(0, 2), Point(1, 2)], 2, 3)
  ]

  const ShapeColors: seq<string> := ["red", "green", "blue", "yellow"]

  /** Where every new piece is anchored. */
  const Spawn := Point(4, 0)

  /** Points awarded for each row cleared. */
  const LineAward := 1000

  lemma TemplatesWellFormed()
    ensures forall k :: 0 <= k < |Templates| ==>
      WellFormedPiece(Templates[k].points, Templates[k].width, Templates[k].height)
  {
    forall k | 0 <= k < |Templates|
      ensures WellFormedPiece(Templates[k].points, Templates[k].width, Templates[k].height)
    {
      if k == 0 {
        FourCells(Templates[0].points, 2, 2, Point(0, 0), Point(0, 1), Point(1, 0), Point(1, 1));
      } else if k == 1 {
        FourCells(Templates[1].points, 1, 4, Point(0, 0), Point(0, 1), Point(0, 2), Point(0, 3));
      } else {
        FourCells(Templates[2].points, 2, 3, Point(0, 0), Point(0, 1), Point(0, 2), Point(1, 2));
      }
    }
  }

  /** The entry that a draw r in [0, 1) selects among n entries: floor(r * n). */
  function Pick(r: real, n: nat): (i: nat)
    requires 0.0 <= r < 1.0 && n > 0
    ensures i < n
    ensures i as real <= r * n as real < i as real + 1.0
  {
    assert r * n as real < n as real;
    (r * n as real).Floor
  }

  /** A table entry with a colour, chosen by two independent draws in [0, 1). */
  function RandomShape(shapeDraw: real, colorDraw: real): (s: Shape)
    requires 0.0 <= shapeDraw < 1.0 && 0.0 <= colorDraw < 1.0
    ensures s.color in ShapeColors
    ensures exists k :: 0 <= k < |Templates| && s.points == Templates[k].points
                        && s.width == Templates[k].width && s.height == Templates[k].height
    ensures WellFormed(s)
  {
    TemplatesWellFormed();
    var t := Templates[Pick(shapeDraw, |Templates|)];
    Shape(t.points, t.width, t.height, ShapeColors[Pick(colorDraw, |ShapeColors|)])
  }

  /** The keys the board reacts to; every other key is ignored. */
  datatype Key = ArrowRight | ArrowLeft | ArrowDown | ArrowUp | OtherKey

  function Down(p: Point): Point
  {
    Point(p.x, p.y + 1)
  }

  /** Where a guarded move by (dx, dy) leaves the anchor: the target if the piece fits there, else where it was. */
  function Shifted(g: Grid, pos: Point, s: Shape, dx: int, dy: int): Point
    requires WellSized(g)
  {
    var target := Point(pos.x + dx, pos.y + dy);
    if ValidPosition(g, target, s) then target else pos
  }

  /** What a guarded rotation leaves: the turned shape if it fits at `pos`, else the shape as it was. */
  function Turned(g: Grid, pos: Point, s: Shape): Shape
    requires WellSized(g)
  {
    if ValidPosition(g, pos, Rotated(s)) then Rotated(s) else s
  }

  class Board {
    var scene: Grid
    var shape: Shape
    var position: Point
    var score: nat

    ghost predicate Valid()
      reads this
    {
      WellSized(scene)
    }

    /** The falling piece fits where it is. */
    ghost predicate PieceFits()
      reads this
      requires Valid()
    {
      ValidPosition(scene, position, shape)
    }

    /** A new game: an empty field, the first piece at the spawn point, no score. */
    constructor (first: Shape)
      ensures Valid()
      ensures scene == CreateEmptyScene() && shape == first && position == Spawn && score == 0
    {
      scene := CreateEmptyScene();
      shape := first;
      position := Spawn;
      score := 0;
    }

    /** What the board shows: the field with the falling piece stamped in. */
    function Display(): (d: Grid)
      reads this
      requires Valid()
      ensures WellSized(d)
    {
      Merged(scene, shape, position)
    }

    /** Moves the piece by (dx, dy) if it fits there; reports whether it moved. */
    method MovePosition(dx: int, dy: int) returns (moved: bool)
      requires Valid()
      modifies this`position
      ensures moved == ValidPosition(scene, Point(old(position).x + dx, old(position).y + dy), shape)
      ensures position == Shifted(scene, old(position), shape, dx, dy)
      ensures position == if moved then Point(old(position).x + dx, old(position).y + dy) else old(position)
      ensures old(PieceFits()) || moved ==> PieceFits()
    {
      var res := Point(position.x + dx, position.y + dy);
      if !ValidPosition(scene, res, shape) {
        return false;
      }
      position := res;
      return true;
    }

    /** Turns the piece a quarter turn about its centre if the turned piece fits; otherwise nothing changes. */
    method RotateShape()
      requires Valid()
      modifies this`shape
      ensures shape == Turned(scene, position, old(shape))
      ensures shape == if ValidPosition(scene, position, Rotated(old(shape))) then Rotated(old(shape)) else old(shape)
      ensures old(PieceFits()) ==> PieceFits()
    {
      var newShape := Rotated(shape);
      if ValidPosition(scene, position, newShape) {
        shape := newShape;
      }
    }

    /** Locks the piece into the field where it is and brings in `next` at the spawn point. */
    method PlaceShape(next: Shape)
      requires Valid()
      modifies this`scene, this`shape, this`position
      ensures Valid()
      ensures scene == Merged(old(scene), old(shape), old(position))
      ensures shape == next && position == Spawn
    {
      scene := MergeIntoStage(scene, shape, position);
      shape := next;
      position := Spawn;
    }

    /** Clears every full row and awards LineAward points for each. */
    method RemoveFullLines()
      requires Valid()
      modifies this`scene, this`score
      ensures Valid()
      ensures scene == ClearedScene(old(scene))
      ensures score == old(score) + LineAward * FullRowCount(old(scene))
      ensures FullRowCount(old(scene)) == 0 ==> scene == old(scene)
      ensures forall y :: 0 <= y < RowCount ==> !IsFull(scene[y])
    {
      var newScene, removed := RemoveFullRows(scene);
      var touched := removed > 0;
      score := score + LineAward * removed;
      if touched {
        scene := newScene;
      } else {
        ClearedSceneNoop(scene);
      }
      ClearedSceneShape(old(scene));
    }

    /**
     One step of gravity: the piece moves down a row if it fits there;
     otherwise it is locked, full rows are cleared and `next` comes in.
     */
    method Tick(next: Shape)
      requires Valid()
      modifies this`scene, this`shape, this`position, this`score
      ensures Valid()
      ensures ValidPosition(old(scene), Down(old(position)), old(shape)) ==>
        && scene == old(scene) && shape == old(shape) && score == old(score)
        && position == Down(old(position))
      ensures !ValidPosition(old(scene), Down(old(position)), old(shape)) ==>
        && scene == ClearedScene(Merged(old(scene), old(shape), old(position)))
        && score == old(score) + LineAward * FullRowCount(Merged(old(scene), old(shape), old(position)))
        && shape == next && position == Spawn
    {
      ghost var before, piece, at := scene, shape, position;
      var moved := MovePosition(0, 1);
      assert moved == ValidPosition(before, Down(at), piece);
      if !moved {
        PlaceShape(next);
        assert scene == Merged(before, piece, at);
        RemoveFullLines();
      }
    }

    /** Dispatches a key press; reports whether the key was one the board reacts to. */
    method OnKeyDown(key: Key) returns (handled: bool)
      requires Valid()
      modifies this`position, this`shape
      ensures handled == (key != OtherKey)
      ensures key == ArrowRight ==> shape == old(shape) && position == Shifted(scene, old(position), shape, 1, 0)
      ensures key == ArrowLeft ==> shape == old(shape) && position == Shifted(scene, old(position), shape, -1, 0)
      ensures key == ArrowDown ==> shape == old(shape) && position == Shifted(scene, old(position), shape, 0, 1)
      ensures key == ArrowUp ==> position == old(position) && shape == Turned(scene, position, old(shape))
      ensures key == OtherKey ==> position == old(position) && shape == old(shape)
    {
      match key {
        case ArrowRight =>
          var _ := MovePosition(1, 0);
        case ArrowLeft =>
          var _ := MovePosition(-1, 0);
        case ArrowDown =>
          var _ := MovePosition(0, 1);
        case ArrowUp =>
          RotateShape();
        case OtherKey =>
          return false;
      }
      handled := true;
    }
  }

  /**
   A vertical bar fits on an empty field exactly when its anchor column is on
   the field and its anchor row is 0 .. 16: dropped from the spawn point it
   falls 16 rows and locks on rows 16 .. 19.
   */
  lemma VerticalBarOnEmptyField(s: Shape, x: int, y: int)
    requires s.points == [Point(0, 0), Point(0, 1), Point(0, 2), Point(0, 3)]
    ensures ValidPosition(CreateEmptyScene(), Point(x, y), s) <==> 0 <= x < ColumnCount && 0 <= y <= RowCount - 4
  {
    var g := CreateEmptyScene();
    assert s.points[0] == Point(0, 0) && s.points[3] == Point(0, 3);
    if 0 <= x < ColumnCount && 0 <= y <= RowCount - 4 {
      forall i | 0 <= i < |s.points|
        ensures IsFree(g, s.points[i].x + x, s.points[i].y + y)
      {
        assert s.points[i].x == 0 && 0 <= s.points[i].y <= 3;
      }
    }
  }
}
