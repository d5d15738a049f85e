/** How a piece sits on the arena: the collision test, bounds, and the merged arena. */
module Placement {
  import opened Arena
  import opened Pieces

  /**
   * The cell test of `collide`: reading a row outside the arena, or a column
   * outside the row (negative ones included), gives no value, and no value
   * counts as occupied. So a cell is blocked when it is off the arena or
   * holds a colour.
   */
  predicate Blocked(a: Board, r: int, c: int) {
    !(0 <= r < |a| && 0 <= c < |a[r]|) || a[r][c] != Empty
  }

  /** The inner test of `collide`, from column x on: some filled cell of the row lands on a blocked cell. */
  function RowHits(a: Board, row: seq<int>, r: int, px: int, x: nat): (b: bool)
    requires x <= |row|
    ensures b <==> exists j :: x <= j < |row| && row[j] != 0 && Blocked(a, r, px + j)
    decreases |row| - x
  {
    if x == |row| then false
    else (row[x] != 0 && Blocked(a, r, px + x)) || RowHits(a, row, r, px, x + 1)
  }

  /** The outer test of `collide`, from matrix row y on: some row of the piece hits. */
  function RowsHit(a: Board, p: Player, y: nat): (b: bool)
    requires y <= |p.matrix|
    ensures b <==> exists i, j :: y <= i < |p.matrix| && 0 <= j < |p.matrix[i]| &&
                     p.matrix[i][j] != 0 && Blocked(a, p.pos.y + i, p.pos.x + j)
    decreases |p.matrix| - y
  {
    if y == |p.matrix| then false
    else RowHits(a, p.matrix[y], p.pos.y + y, p.pos.x, 0) || RowsHit(a, p, y + 1)
  }

  /** Every filled cell of the piece lies on the WIDTH × HEIGHT grid. */
  predicate InBounds(p: Player) {
    forall i, j :: 0 <= i < |p.matrix| && 0 <= j < |p.matrix[i]| && p.matrix[i][j] != 0 ==>
      0 <= p.pos.y + i < HEIGHT && 0 <= p.pos.x + j < WIDTH
  }

  /**
   * `collide`: some filled cell of the piece is off the arena or on a cell
   * that is not empty. Off the arena means off the grid when the arena is a
   * board, so a piece that does not collide is in bounds.
   */
  function Collide(a: Board, p: Player): (b: bool)
    ensures b <==> exists i, j :: 0 <= i < |p.matrix| && 0 <= j < |p.matrix[i]| &&
                     p.matrix[i][j] != 0 && Blocked(a, p.pos.y + i, p.pos.x + j)
    ensures IsBoard(a) && !b ==> InBounds(p)
  {
    RowsHit(a, p, 0)
  }

  /** Cell (r, c) of the arena is under a filled cell of the piece. */
  predicate Covers(p: Player, r: int, c: int) {
    0 <= r - p.pos.y < |p.matrix| && 0 <= c - p.pos.x < |p.matrix[r - p.pos.y]| &&
    p.matrix[r - p.pos.y][c - p.pos.x] != 0
  }

  /** The arena after `merge`: the piece's colour on every covered cell, every other cell as it was. */
  function Merged(a: Board, p: Player): (r: Board)
    ensures |r| == |a| && forall i :: 0 <= i < |a| ==> |r[i]| == |a[i]|
    ensures forall i, j :: 0 <= i < |a| && 0 <= j < |a[i]| ==>
              r[i][j] == if Covers(p, i, j) then Filled(p.color) else a[i][j]
  {
    seq(|a|, i requires 0 <= i < |a| =>
      seq(|a[i]|, j requires 0 <= j < |a[i]| =>
        if Covers(p, i, j) then Filled(p.color) else a[i][j]))
  }

  /**
   * Merging a piece that does not collide only fills empty cells: every
   * cell the piece covers was empty and now holds its colour, and every
   * cell that held a colour keeps it.
   */
  lemma MergeFillsOnlyEmptyCells(a: Board, p: Player)
    requires IsBoard(a) && !Collide(a, p)
    ensures IsBoard(Merged(a, p))
    ensures forall r, c :: 0 <= r < HEIGHT && 0 <= c < WIDTH && Covers(p, r, c) ==>
              a[r][c] == Empty && Merged(a, p)[r][c] == Filled(p.color)
    ensures forall r, c :: 0 <= r < HEIGHT && 0 <= c < WIDTH && a[r][c] != Empty ==>
              Merged(a, p)[r][c] == a[r][c]
  {
  }

  /** After a merge the same piece at the same place collides, if it has a filled cell. */
  lemma MergedPieceCollides(a: Board, p: Player, i: nat, j: nat)
    requires IsBoard(a) && InBounds(p)
    requires i < |p.matrix| && j < |p.matrix[i]| && p.matrix[i][j] != 0
    ensures Collide(Merged(a, p), p)
  {
  }

  /** Every catalog piece at the spawn position lies on the grid. */
  lemma SpawnInBounds(k: PieceIndex)
    ensures InBounds(Spawn(k))
  {
  }

  /** Some cell of the row is filled. */
  predicate RowFilled(row: seq<int>) {
    exists j :: 0 <= j < |row| && row[j] != 0
  }

  /** Some cell of column c is filled. */
  predicate ColumnFilled(m: Shape, c: nat)
    requires forall i :: 0 <= i < |m| ==> c < |m[i]|
  {
    exists i :: 0 <= i < |m| && m[i][c] != 0
  }

  /**
   * The shape has a filled cell in its first row, its last row, its first
   * column and its last column: its bounding box is tight.
   */
  predicate TouchesEdges(m: Shape)
    requires WellFormed(m)
  {
    RowFilled(m[0]) && RowFilled(m[|m| - 1]) && ColumnFilled(m, 0) && ColumnFilled(m, |m[0]| - 1)
  }

  /** Every catalog shape is tight. */
  lemma CatalogTouchesEdges(k: PieceIndex)
    ensures WellFormed(CATALOG[k].shape) && TouchesEdges(CATALOG[k].shape)
  {
    CatalogWellFormed(k);
    var m := CATALOG[k].shape;
    var last := |m| - 1;
    assert m[0][1] != 0;
    assert m[last][0] != 0 || m[last][1] != 0 || m[last][2] != 0;
    assert m[0][0] != 0 || m[last][0] != 0;
    assert m[0][|m[0]| - 1] != 0 || m[last][|m[0]| - 1] != 0;
  }

  /** Rotation keeps a shape tight: each edge of the result is an edge of the input. */
  lemma RotateTouchesEdges(m: Shape)
    requires WellFormed(m) && TouchesEdges(m)
    ensures TouchesEdges(Rotate(m))
  {
    RotatedFirstRow(m);
    RotatedLastRow(m);
    RotatedFirstColumn(m);
    RotatedLastColumn(m);
  }

  /** The last column of a shape becomes the first row of the rotated shape. */
  lemma RotatedFirstRow(m: Shape)
    requires WellFormed(m) && ColumnFilled(m, |m[0]| - 1)
    ensures RowFilled(Rotate(m)[0])
  {
  }

  /** The first column of a shape becomes the last row of the rotated shape. */
  lemma RotatedLastRow(m: Shape)
    requires WellFormed(m) && ColumnFilled(m, 0)
    ensures RowFilled(Rotate(m)[|Rotate(m)| - 1])
  {
  }

  /** The first row of a shape becomes the first column of the rotated shape. */
  lemma RotatedFirstColumn(m: Shape)
    requires WellFormed(m) && RowFilled(m[0])
    ensures ColumnFilled(Rotate(m), 0)
  {
    var j :| 0 <= j < |m[0]| && m[0][j] != 0;
    assert Rotate(m)[|m[0]| - 1 - j][0] == m[0][j];
  }

  /** The last row of a shape becomes the last column of the rotated shape. */
  lemma RotatedLastColumn(m: Shape)
    requires WellFormed(m) && RowFilled(m[|m| - 1])
    ensures ColumnFilled(Rotate(m), |Rotate(m)[0]| - 1)
  {
    var j :| 0 <= j < |m[0]| && m[|m| - 1][j] != 0;
    assert Rotate(m)[|m[0]| - 1 - j][|m| - 1] == m[|m| - 1][j];
  }

  /**
   * A tight piece whose bounding box leaves the grid on any side collides,
   * whatever the arena holds: one step past a wall or below the floor is
   * always refused.
   */
  lemma OffGridCollides(a: Board, p: Player)
    requires IsBoard(a) && WellFormed(p.matrix) && TouchesEdges(p.matrix)
    requires p.pos.x < 0 || p.pos.x + |p.matrix[0]| > WIDTH ||
             p.pos.y < 0 || p.pos.y + |p.matrix| > HEIGHT
    ensures Collide(a, p)
  {
  }

  /** On an empty arena the bar spawned at (4, 0) can stand on every row down to the bottom one. */
  lemma BarFallsFreely(d: int)
    requires 0 <= d < HEIGHT
    ensures !Collide(CreateMatrix(WIDTH, HEIGHT), Shifted(Spawn(0), 0, d))
  {
  }

  /** One row below the bottom the bar collides, so from row 19 it lands. */
  lemma BarStopsAtFloor(a: Board)
    requires IsBoard(a)
    ensures Collide(a, Shifted(Spawn(0), 0, HEIGHT))
  {
  }

  /**
   * The bar landed on the bottom row of an empty arena fills columns 4 to 7
   * of that row and no other cell.
   */
  lemma BarLandsOnBottomRow(r: int, c: int)
    requires 0 <= r < HEIGHT && 0 <= c < WIDTH
    ensures Merged(CreateMatrix(WIDTH, HEIGHT), Shifted(Spawn(0), 0, HEIGHT - 1))[r][c] ==
            if r == HEIGHT - 1 && 4 <= c < 8 then Filled("blue") else Empty
  {
  }

  /** The landed bar leaves row 19 far from full, so the clearing pass changes nothing. */
  lemma BarLandingClearsNothing()
    ensures var landed := Merged(CreateMatrix(WIDTH, HEIGHT), Shifted(Spawn(0), 0, HEIGHT - 1));
            IsBoard(landed) && Cleared(landed) == landed
  {
    var landed := Merged(CreateMatrix(WIDTH, HEIGHT), Shifted(Spawn(0), 0, HEIGHT - 1));
    forall j | 0 <= j < HEIGHT
      ensures !Full(landed[j])
    {
      BarLandsOnBottomRow(j, 0);
    }
    ClearedWithoutFullRows(landed);
  }
}
