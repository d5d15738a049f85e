/** The piece catalog, rotation of a shape, and the falling piece (the player). */
module Pieces {

  /** A shape is a grid of numbers; a cell is filled when it is not 0. */
  type Shape = seq<seq<int>>

  datatype Piece = Piece(shape: Shape, color: string)

  /** Index of a catalog entry: the random pick of `createPlayer`, an integer from 0 to 6. */
  type PieceIndex = k: int | 0 <= k < 7

  /** The seven templates of the game, in catalog order. */
  const CATALOG: seq<Piece> := [
    Piece([[1, 1, 1, 1]], "blue"),
    Piece([[0, 1, 1], [1, 1, 0]], "purple"),
    Piece([[1, 1, 0], [0, 1, 1]], "green"),
    Piece([[1, 1], [1, 1]], "red"),
    Piece([[0, 1, 0], [1, 1, 1]], "darkpink"),
    Piece([[1, 1, 1], [0, 0, 1]], "brown"),
    Piece([[1, 1, 1], [1, 0, 0]], "yellow")
  ]

  const SPAWN_X := 4
  const SPAWN_Y := 0

  datatype Pos = Pos(x: int, y: int)

  /** The falling piece: the position of its top-left cell, its current matrix and its colour. */
  datatype Player = Player(pos: Pos, matrix: Shape, color: string)

  /** At least one row, and every row as long as the first. */
  predicate Rectangular(m: Shape) {
    |m| > 0 && forall i :: 0 <= i < |m| ==> |m[i]| == |m[0]|
  }

  /** A rectangular shape with at least one column, so it can be rotated again. */
  predicate WellFormed(m: Shape) {
    Rectangular(m) && |m[0]| > 0
  }

  /** Every cell is 0 or 1. */
  predicate Binary(m: Shape) {
    forall i, j :: 0 <= i < |m| && 0 <= j < |m[i]| ==> m[i][j] == 0 || m[i][j] == 1
  }

  /** The first step of `rotate`: column i of the input becomes row i of the result. */
  function Transpose(m: Shape): Shape
    requires Rectangular(m)
  {
    seq(|m[0]|, i requires 0 <= i < |m[0]| => seq(|m|, j requires 0 <= j < |m| => m[j][i]))
  }

  function Reverse<T>(s: seq<T>): seq<T> {
    seq(|s|, i requires 0 <= i < |s| => s[|s| - 1 - i])
  }

  /**
   * `rotate`: transpose, then reverse the order of the rows. An R×C matrix
   * becomes a C×R matrix whose cell (i, j) is cell (j, C-1-i) of the input.
   * The input is a value and is not changed.
   */
  function Rotate(m: Shape): (r: Shape)
    requires Rectangular(m)
    ensures |r| == |m[0]|
    ensures forall i :: 0 <= i < |r| ==> |r[i]| == |m|
    ensures forall i, j :: 0 <= i < |r| && 0 <= j < |m| ==> r[i][j] == m[j][|m[0]| - 1 - i]
    ensures WellFormed(m) ==> WellFormed(r)
    ensures Binary(m) ==> Binary(r)
  {
    Reverse(Transpose(m))
  }

  /** `b` is `a` turned half-way: same dimensions, cell (i, j) of `b` is cell (R-1-i, C-1-j) of `a`. */
  ghost predicate HalfTurn(a: Shape, b: Shape)
    requires WellFormed(a)
  {
    WellFormed(b) && |b| == |a| && |b[0]| == |a[0]| &&
    forall i, j :: 0 <= i < |a| && 0 <= j < |a[0]| ==> b[i][j] == a[|a| - 1 - i][|a[0]| - 1 - j]
  }

  /** Two rotations make a half turn. */
  lemma RotateTwice(m: Shape)
    requires WellFormed(m)
    ensures HalfTurn(m, Rotate(Rotate(m)))
  {
    var r1 := Rotate(m);
    var r2 := Rotate(r1);
    forall i, j | 0 <= i < |m| && 0 <= j < |m[0]|
      ensures r2[i][j] == m[|m| - 1 - i][|m[0]| - 1 - j]
    {
      assert r2[i][j] == r1[j][|m| - 1 - i];
    }
  }

  /** Two half turns give back the original matrix. */
  lemma HalfTurnTwice(a: Shape, b: Shape, c: Shape)
    requires WellFormed(a) && HalfTurn(a, b) && HalfTurn(b, c)
    ensures c == a
  {
    forall i | 0 <= i < |a|
      ensures c[i] == a[i]
    {
      forall j | 0 <= j < |a[0]|
        ensures c[i][j] == a[i][j]
      {
        assert c[i][j] == b[|a| - 1 - i][|a[0]| - 1 - j];
      }
    }
  }

  /** Four rotations give back the original matrix. */
  lemma RotateFourTimes(m: Shape)
    requires WellFormed(m)
    ensures Rotate(Rotate(Rotate(Rotate(m)))) == m
  {
    RotateTwice(m);
    var r2 := Rotate(Rotate(m));
    RotateTwice(r2);
    HalfTurnTwice(m, r2, Rotate(Rotate(r2)));
  }

  /** Every catalog shape is a non-empty 0/1 rectangle. */
  lemma CatalogWellFormed(k: PieceIndex)
    ensures WellFormed(CATALOG[k].shape) && Binary(CATALOG[k].shape)
  {
  }

  /** `createPlayer`: catalog entry k placed at the spawn position (4, 0). */
  function Spawn(k: PieceIndex): (p: Player)
    ensures p.pos == Pos(SPAWN_X, SPAWN_Y)
    ensures p.matrix == CATALOG[k].shape && p.color == CATALOG[k].color
    ensures WellFormed(p.matrix)
  {
    CatalogWellFormed(k);
    Player(Pos(SPAWN_X, SPAWN_Y), CATALOG[k].shape, CATALOG[k].color)
  }

  /** The player moved by (dx, dy), matrix and colour unchanged. */
  function Shifted(p: Player, dx: int, dy: int): Player {
    p.(pos := Pos(p.pos.x + dx, p.pos.y + dy))
  }
}
