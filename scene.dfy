/**
 The 20 x 10 playing field: creating an empty one, copying it, the collision
 test for a piece at a position, stamping a piece into a copy, and clearing
 full rows. Grids are values; the two operations that the engine performs by
 writing cells one at a time (stamping and row removal) work on a fresh
 two-dimensional array copy and hand back its contents.
 */
module Scene {
  import opened Pieces

  /** A cell is empty (0 in the engine) or holds the colour tag of a locked piece. */
  datatype Cell = Empty | Filled(color: string)

  const RowCount := 20
  const ColumnCount := 10

  /** Row 0 is the top row; a row is indexed by column. */
  type Row = seq<Cell>
  type Grid = seq<Row>

  /** Every row of `g` has `w` cells. */
  predicate RowsOfWidth(g: Grid, w: int)
  {
    forall y :: 0 <= y < |g| ==> |g[y]| == w
  }

  predicate WellSized(g: Grid)
  {
    |g| == RowCount && RowsOfWidth(g, ColumnCount)
  }

  function EmptyRow(): (r: Row)
    ensures |r| == ColumnCount
    ensures forall x :: 0 <= x < |r| ==> r[x] == Empty
  {
    seq(ColumnCount, _ => Empty)
  }

  function EmptyRows(k: nat): (g: Grid)
    ensures |g| == k
    ensures forall y :: 0 <= y < k ==> g[y] == EmptyRow()
  {
    seq(k, _ => EmptyRow())
  }

  /** The field a game starts with: 20 rows of 10 cells, all empty. */
  function CreateEmptyScene(): (g: Grid)
    ensures WellSized(g)
    ensures forall y, x :: 0 <= y < RowCount && 0 <= x < ColumnCount ==> g[y][x] == Empty
  {
    EmptyRows(RowCount)
  }

  predicate InBounds(x: int, y: int)
  {
    0 <= x < ColumnCount && 0 <= y < RowCount
  }

  /** (x, y) is on the field and empty; every position off the field counts as blocked. */
  predicate IsFree(g: Grid, x: int, y: int)
    requires WellSized(g)
  {
    InBounds(x, y) && g[y][x] == Empty
  }

  // ---------------------------------------------------------------------------
  // Collision

  /** The offsets `ps`, translated by `pos`, all land on free cells (checked one offset after the other). */
  function AllFree(g: Grid, pos: Point, ps: seq<Point>): (ok: bool)
    requires WellSized(g)
    ensures ok <==> forall i :: 0 <= i < |ps| ==> IsFree(g, ps[i].x + pos.x, ps[i].y + pos.y)
  {
    ps == [] || (IsFree(g, ps[0].x + pos.x, ps[0].y + pos.y) && AllFree(g, pos, ps[1..]))
  }

  /** The collision test: the shape fits at `pos` iff each of its cells is on the field and empty. */
  function ValidPosition(g: Grid, pos: Point, s: Shape): (ok: bool)
    requires WellSized(g)
    ensures ok <==> forall i :: 0 <= i < |s.points| ==>
      && 0 <= s.points[i].x + pos.x < ColumnCount
      && 0 <= s.points[i].y + pos.y < RowCount
      && g[s.points[i].y + pos.y][s.points[i].x + pos.x] == Empty
  {
    AllFree(g, pos, s.points)
  }

  // ---------------------------------------------------------------------------
  // Stamping a piece

  /** Some offset of `s`, translated by `pos`, lands on (x, y). */
  predicate Covers(s: Shape, pos: Point, x: int, y: int)
  {
    exists i :: 0 <= i < |s.points| && s.points[i].x + pos.x == x && s.points[i].y + pos.y == y
  }

  /**
   The field with `s` stamped in at `pos`: every covered cell on the field takes
   the piece's colour, offsets off the field are dropped, every other cell is kept.
   */
  function Merged(g: Grid, s: Shape, pos: Point): (m: Grid)
    requires WellSized(g)
    ensures WellSized(m)
    ensures forall i :: 0 <= i < |s.points| && InBounds(s.points[i].x + pos.x, s.points[i].y + pos.y) ==>
      m[s.points[i].y + pos.y][s.points[i].x + pos.x] == Filled(s.color)
    ensures forall y, x :: 0 <= y < RowCount && 0 <= x < ColumnCount && !Covers(s, pos, x, y) ==> m[y][x] == g[y][x]
  {
    seq(RowCount, y requires 0 <= y < RowCount =>
      seq(ColumnCount, x requires 0 <= x < ColumnCount =>
        if Covers(s, pos, x, y) then Filled(s.color) else g[y][x]))
  }

  /** A cell covered by a piece that fits was empty before and holds the piece's colour after. */
  lemma MergeCovered(g: Grid, s: Shape, pos: Point, x: int, y: int)
    requires WellSized(g) && ValidPosition(g, pos, s) && Covers(s, pos, x, y)
    ensures InBounds(x, y) && g[y][x] == Empty && Merged(g, s, pos)[y][x] == Filled(s.color)
  {
    var i :| 0 <= i < |s.points| && s.points[i].x + pos.x == x && s.points[i].y + pos.y == y;
  }

  /** Stamping a piece that fits overwrites no occupied cell and fills exactly the covered ones. */
  lemma MergeFittingOccupancy(g: Grid, s: Shape, pos: Point)
    requires WellSized(g) && ValidPosition(g, pos, s)
    ensures forall y, x :: 0 <= y < RowCount && 0 <= x < ColumnCount ==>
      (g[y][x] != Empty ==> Merged(g, s, pos)[y][x] == g[y][x]) &&
      (Merged(g, s, pos)[y][x] != Empty <==> g[y][x] != Empty || Covers(s, pos, x, y))
  {
    var m := Merged(g, s, pos);
    forall y, x | 0 <= y < RowCount && 0 <= x < ColumnCount
      ensures g[y][x] != Empty ==> m[y][x] == g[y][x]
      ensures m[y][x] != Empty <==> g[y][x] != Empty || Covers(s, pos, x, y)
    {
      if Covers(s, pos, x, y) {
        MergeCovered(g, s, pos, x, y);
      }
    }
  }

  /** Stamping a piece that fits drops none of its offsets, and each lands on a cell that was empty. */
  lemma MergeFittingDropsNothing(g: Grid, s: Shape, pos: Point)
    requires WellSized(g) && ValidPosition(g, pos, s)
    ensures forall i :: 0 <= i < |s.points| ==>
      && InBounds(s.points[i].x + pos.x, s.points[i].y + pos.y)
      && g[s.points[i].y + pos.y][s.points[i].x + pos.x] == Empty
      && Merged(g, s, pos)[s.points[i].y + pos.y][s.points[i].x + pos.x] == Filled(s.color)
  {
  }

  // ---------------------------------------------------------------------------
  // Array copies

  /** The array `a` holds exactly the cells of `g`. */
  ghost predicate Holds(a: array2<Cell>, g: Grid)
    reads a
  {
    && a.Length0 == |g|
    && (forall y :: 0 <= y < |g| ==> |g[y]| == a.Length1)
    && forall y, x :: 0 <= y < a.Length0 && 0 <= x < a.Length1 ==> a[y, x] == g[y][x]
  }

  lemma HoldsUnique(a: array2<Cell>, g: Grid, h: Grid)
    requires Holds(a, g) && Holds(a, h)
    ensures g == h
  {
    forall y | 0 <= y < |g|
      ensures g[y] == h[y]
    {
      assert forall x :: 0 <= x < a.Length1 ==> g[y][x] == a[y, x] == h[y][x];
    }
  }

  /** A fresh, independent copy of the field. */
  method CopyScene(g: Grid) returns (a: array2<Cell>)
    requires WellSized(g)
    ensures fresh(a) && a.Length0 == RowCount && a.Length1 == ColumnCount
    ensures Holds(a, g)
  {
    a := new Cell[RowCount, ColumnCount]((y, x) requires 0 <= y < RowCount && 0 <= x < ColumnCount => g[y][x]);
  }

  /** The current contents of an array copy, as a grid value. */
  method Contents(a: array2<Cell>) returns (g: Grid)
    ensures Holds(a, g)
  {
    g := seq(a.Length0, y reads a requires 0 <= y < a.Length0 =>
      seq(a.Length1, x reads a requires 0 <= x < a.Length1 => a[y, x]));
  }

  /** Stamps `s` at `pos` into a copy of `stage`, cell by cell; `stage` itself is a value and stays as it is. */
  method MergeIntoStage(stage: Grid, s: Shape, pos: Point) returns (res: Grid)
    requires WellSized(stage)
    ensures res == Merged(stage, s, pos)
  {
    var a := CopyScene(stage);
    for i := 0 to |s.points|
      invariant forall y, x :: 0 <= y < RowCount && 0 <= x < ColumnCount ==>
        a[y, x] == if exists j :: 0 <= j < i && s.points[j].x + pos.x == x && s.points[j].y + pos.y == y
                   then Filled(s.color) else stage[y][x]
    {
      var x := s.points[i].x + pos.x;
      var y := s.points[i].y + pos.y;
      if x >= 0 && y >= 0 && x < ColumnCount && y < RowCount {
        a[y, x] := Filled(s.color);
      }
    }
    res := Contents(a);
    assert Holds(a, Merged(stage, s, pos));
    HoldsUnique(a, res, Merged(stage, s, pos));
  }

  // ---------------------------------------------------------------------------
  // Clearing full rows: the specification

  /** A row without an empty cell. */
  predicate IsFull(r: Row)
  {
    forall x :: 0 <= x < |r| ==> r[x] != Empty
  }

  /** The rows that are not full, in their original order. */
  function NonFullRows(g: Grid): (r: Grid)
    ensures |r| <= |g|
    ensures forall i :: 0 <= i < |r| ==> !IsFull(r[i])
    ensures RowsOfWidth(g, ColumnCount) ==> RowsOfWidth(r, ColumnCount)
  {
    if g == [] then []
    else NonFullRows(g[..|g| - 1]) + (if IsFull(g[|g| - 1]) then [] else [g[|g| - 1]])
  }

  /** The number of full rows; together with the rows kept it accounts for every row. */
  function FullRowCount(g: Grid): (k: nat)
    ensures k + |NonFullRows(g)| == |g|
  {
    if g == [] then 0
    else FullRowCount(g[..|g| - 1]) + (if IsFull(g[|g| - 1]) then 1 else 0)
  }

  /** The field after clearing: one empty row on top for each full row, then the other rows in order. */
  function ClearedScene(g: Grid): Grid
  {
    EmptyRows(FullRowCount(g)) + NonFullRows(g)
  }

  /** Row by row: the first k rows of the cleared field are empty, k being the number of full rows, and the rest are the kept rows. */
  lemma ClearedSceneRows(g: Grid, y: nat)
    requires y < |g|
    ensures |ClearedScene(g)| == |g|
    ensures ClearedScene(g)[y] == if y < FullRowCount(g) then EmptyRow() else NonFullRows(g)[y - FullRowCount(g)]
  {
  }

  lemma EmptyRowNotFull()
    ensures !IsFull(EmptyRow())
  {
    assert EmptyRow()[0] == Empty;
  }

  /** Filtering a concatenation filters each part. */
  lemma {:induction false} NonFullRowsAppend(g: Grid, h: Grid)
    ensures NonFullRows(g + h) == NonFullRows(g) + NonFullRows(h)
    ensures FullRowCount(g + h) == FullRowCount(g) + FullRowCount(h)
    decreases |h|
  {
    if h == [] {
      assert g + h == g;
    } else {
      var h' := h[..|h| - 1];
      assert (g + h)[..|g + h| - 1] == g + h';
      NonFullRowsAppend(g, h');
    }
  }

  /** With no full row, nothing is filtered out. */
  lemma {:induction false} NoFullRows(g: Grid)
    requires forall y :: 0 <= y < |g| ==> !IsFull(g[y])
    ensures NonFullRows(g) == g && FullRowCount(g) == 0
  {
    if g != [] {
      NoFullRows(g[..|g| - 1]);
      assert g[..|g| - 1] + [g[|g| - 1]] == g;
    }
  }

  /** Zero full rows means no row is full. */
  lemma {:induction false} ZeroFullRows(g: Grid)
    requires FullRowCount(g) == 0
    ensures forall y :: 0 <= y < |g| ==> !IsFull(g[y])
  {
    if g != [] {
      ZeroFullRows(g[..|g| - 1]);
      assert forall y :: 0 <= y < |g| - 1 ==> g[y] == g[..|g| - 1][y];
    }
  }

  /** Clearing keeps a well-sized field well-sized and leaves no full row behind. */
  lemma ClearedSceneShape(g: Grid)
    requires WellSized(g)
    ensures WellSized(ClearedScene(g))
    ensures forall y :: 0 <= y < RowCount ==> !IsFull(ClearedScene(g)[y])
  {
    EmptyRowNotFull();
    var c := ClearedScene(g);
    var k := FullRowCount(g);
    forall y | 0 <= y < RowCount
      ensures |c[y]| == ColumnCount && !IsFull(c[y])
    {
      if y >= k {
        assert c[y] == NonFullRows(g)[y - k];
      }
    }
  }

  /** With no full row, clearing changes nothing. */
  lemma ClearedSceneNoop(g: Grid)
    requires FullRowCount(g) == 0
    ensures ClearedScene(g) == g
  {
    ZeroFullRows(g);
    NoFullRows(g);
    assert EmptyRows(0) + g == g;
  }

  /** A fresh field has no full row, so clearing it changes nothing. */
  lemma EmptySceneNoFullRows()
    ensures FullRowCount(CreateEmptyScene()) == 0
    ensures ClearedScene(CreateEmptyScene()) == CreateEmptyScene()
  {
    EmptyRowNotFull();
    NoFullRows(CreateEmptyScene());
    ClearedSceneNoop(CreateEmptyScene());
  }

  /** Clearing twice is clearing once: the second pass finds no full row. */
  lemma ClearedSceneIdempotent(g: Grid)
    requires WellSized(g)
    ensures FullRowCount(ClearedScene(g)) == 0
    ensures ClearedScene(ClearedScene(g)) == ClearedScene(g)
  {
    ClearedSceneShape(g);
    NoFullRows(ClearedScene(g));
    ClearedSceneNoop(ClearedScene(g));
  }

  /** Removing row r: an empty row on top, the rows above r moved down by one, the rows below r in place. */
  function RemovedRow(g: Grid, r: nat): Grid
    requires r < |g|
  {
    [EmptyRow()] + g[..r] + g[r + 1..]
  }

  /** Row by row: an empty row on top, rows 0 .. r - 1 one further down, the rows below r in place. */
  lemma RemovedRowAt(g: Grid, r: nat, y: nat)
    requires r < |g| && y < |g|
    ensures |RemovedRow(g, r)| == |g|
    ensures RemovedRow(g, r)[y] == if y == 0 then EmptyRow() else if y <= r then g[y - 1] else g[y]
  {
  }

  lemma PrefixSlices<T>(s: seq<T>, r: nat)
    requires r < |s| - 1
    ensures s[..|s| - 1][..r] == s[..r]
    ensures s[..|s| - 1][r + 1..] + [s[|s| - 1]] == s[r + 1..]
  {
  }

  /** With only row r full, filtering removes exactly row r. */
  lemma {:induction false} SingleFullRowFilter(g: Grid, r: nat)
    requires r < |g| && IsFull(g[r])
    requires forall y :: 0 <= y < |g| && y != r ==> !IsFull(g[y])
    ensures FullRowCount(g) == 1
    ensures NonFullRows(g) == g[..r] + g[r + 1..]
  {
    var n := |g|;
    var init, last := g[..n - 1], g[n - 1];
    forall y | 0 <= y < |init| && y != r
      ensures !IsFull(init[y])
    {
      assert init[y] == g[y];
    }
    if r == n - 1 {
      NoFullRows(init);
      assert g[r + 1..] == [];
      assert init == g[..r];
    } else {
      assert !IsFull(last);
      assert NonFullRows(g) == NonFullRows(init) + [last];
      assert IsFull(init[r]) by {
        assert init[r] == g[r];
      }
      SingleFullRowFilter(init, r);
      PrefixSlices(g, r);
      var before, after := init[..r], init[r + 1..];
      assert NonFullRows(g) == (before + after) + [last];
      assert (before + after) + [last] == before + (after + [last]);
    }
  }

  /** A single full row is removed, the rows above it move down by one and an empty row appears on top. */
  lemma SingleFullRow(g: Grid, r: nat)
    requires r < |g| && IsFull(g[r])
    requires forall y :: 0 <= y < |g| && y != r ==> !IsFull(g[y])
    ensures FullRowCount(g) == 1
    ensures ClearedScene(g) == RemovedRow(g, r)
  {
    SingleFullRowFilter(g, r);
    assert EmptyRows(1) == [EmptyRow()];
  }

  // ---------------------------------------------------------------------------
  // Clearing full rows: the in-place algorithm

  /** Moves rows 0 .. rY - 1 of `a` down by one, over row rY, and blanks row 0. */
  method RemoveRow(a: array2<Cell>, rY: nat, ghost g: Grid)
    requires a.Length1 == ColumnCount && Holds(a, g) && rY < |g|
    modifies a
    ensures Holds(a, RemovedRow(g, rY))
  {
    var y := rY;
    while y > 0
      invariant 0 <= y <= rY
      invariant forall r, c :: 0 <= r < a.Length0 && 0 <= c < a.Length1 ==>
        a[r, c] == if y < r <= rY then g[r - 1][c] else g[r][c]
    {
      for x := 0 to ColumnCount
        invariant forall r, c :: 0 <= r < a.Length0 && 0 <= c < a.Length1 ==>
          a[r, c] == if y < r <= rY || (r == y && c < x) then g[r - 1][c] else g[r][c]
      {
        a[y, x] := a[y - 1, x];
      }
      y := y - 1;
    }
    for x := 0 to ColumnCount
      invariant forall r, c :: 0 <= r < a.Length0 && 0 <= c < a.Length1 ==>
        a[r, c] == if r == 0 && c < x then Empty else if 0 < r <= rY then g[r - 1][c] else g[r][c]
    {
      a[0, x] := Empty;
    }
    forall r | 0 <= r < |g|
      ensures |RemovedRow(g, rY)[r]| == a.Length1
      ensures forall c :: 0 <= c < a.Length1 ==> a[r, c] == RemovedRow(g, rY)[r][c]
    {
      RemovedRowAt(g, rY, r);
    }
  }

  /** One step of the scan: row y is either removed (when full) or kept. */
  lemma ClearStep(scene: Grid, y: nat, k: nat)
    requires y < |scene| && k == FullRowCount(scene[..y])
    ensures |EmptyRows(k) + NonFullRows(scene[..y])| == y
    ensures FullRowCount(scene[..y + 1]) == k + (if IsFull(scene[y]) then 1 else 0)
    ensures IsFull(scene[y]) ==>
      RemovedRow(EmptyRows(k) + NonFullRows(scene[..y]) + scene[y..], y)
        == EmptyRows(k + 1) + NonFullRows(scene[..y + 1]) + scene[y + 1..]
    ensures !IsFull(scene[y]) ==>
      EmptyRows(k) + NonFullRows(scene[..y]) + scene[y..]
        == EmptyRows(k) + NonFullRows(scene[..y + 1]) + scene[y + 1..]
  {
    var p := scene[..y + 1];
    assert p[..y] == scene[..y] && p[y] == scene[y];
    var done := EmptyRows(k) + NonFullRows(scene[..y]);
    assert scene[y..] == [scene[y]] + scene[y + 1..];
    if IsFull(scene[y]) {
      var m := done + scene[y..];
      assert m[..y] == done;
      assert m[y + 1..] == scene[y + 1..];
      assert [EmptyRow()] + EmptyRows(k) == EmptyRows(k + 1);
    }
  }

  /**
   Scans the rows top to bottom in a copy of the field; each full row is removed
   by moving the rows above it down and blanking row 0. The result is the
   cleared field, and `removed` is the number of full rows.
   */
  method RemoveFullRows(scene: Grid) returns (res: Grid, removed: nat)
    requires WellSized(scene)
    ensures res == ClearedScene(scene)
    ensures removed == FullRowCount(scene)
  {
    var a := CopyScene(scene);
    ghost var g := scene;
    removed := 0;
    assert scene[..0] == [];
    for y := 0 to RowCount
      invariant Holds(a, g)
      invariant removed == FullRowCount(scene[..y])
      invariant g == EmptyRows(removed) + NonFullRows(scene[..y]) + scene[y..]
    {
      ClearStep(scene, y, removed);
      assert g[y] == scene[y];
      if forall x :: 0 <= x < ColumnCount ==> a[y, x] != Empty {
        RemoveRow(a, y, g);
        g := RemovedRow(g, y);
        removed := removed + 1;
      }
    }
    assert scene[..RowCount] == scene && scene[RowCount..] == [];
    res := Contents(a);
    HoldsUnique(a, res, g);
  }
}
