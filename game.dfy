/** The game state and the operations that change it in place. */
module Tetris {
  import opened Arena
  import opened Pieces
  import opened Placement

  /** Milliseconds of accumulated frame time after which the piece falls one row. */
  const DROP_INTERVAL := 1000

  /** Whether the game-over overlay is up. */
  datatype Phase = Playing | GameOver

  /**
   * What one `playerDrop` does, from arena a0, player p0 and phase ph0 to
   * a1, p1, ph1: when the piece one row lower does not collide it moves
   * there and nothing else changes; otherwise the piece lands where it is,
   * full rows are cleared, and then either the game is over (the piece had
   * not left row 0, it stays) or the catalog entry `next` is spawned.
   */
  ghost predicate DropStep(a0: Board, p0: Player, ph0: Phase, next: PieceIndex,
                           a1: Board, p1: Player, ph1: Phase)
    requires IsBoard(a0)
  {
    if !Collide(a0, Shifted(p0, 0, 1)) then
      a1 == a0 && p1 == Shifted(p0, 0, 1) && ph1 == ph0
    else
      a1 == Cleared(Merged(a0, p0)) &&
      if p0.pos.y <= 0 then p1 == p0 && ph1 == GameOver
      else p1 == Spawn(next) && ph1 == ph0
  }

  class Game {
    var arena: Board
    var player: Player
    var dropCounter: int
    var lastTime: int
    var phase: Phase

    /** The arena keeps its dimensions and the falling piece is a rotatable shape lying on the grid. */
    ghost predicate Valid()
      reads this
    {
      IsBoard(arena) && WellFormed(player.matrix) && InBounds(player)
    }

    /** Between two frames the drop counter is at most the interval, and time stamps are not negative. */
    ghost predicate ClockValid()
      reads this
    {
      dropCounter <= DROP_INTERVAL && lastTime >= 0
    }

    /** The start of the game: an empty arena, a spawned piece, the timer at zero. */
    constructor (first: PieceIndex)
      ensures Valid() && ClockValid()
      ensures arena == CreateMatrix(WIDTH, HEIGHT) && player == Spawn(first)
      ensures dropCounter == 0 && lastTime == 0 && phase == Playing
    {
      arena := CreateMatrix(WIDTH, HEIGHT);
      player := Spawn(first);
      dropCounter := 0;
      lastTime := 0;
      phase := Playing;
      SpawnInBounds(first);
    }

    /** `merge`: writes the piece's colour into every arena cell under a filled cell of the piece. */
    method Merge()
      requires Valid()
      modifies this`arena
      ensures Valid()
      ensures arena == Merged(old(arena), player)
    {
      var m := player.matrix;
      var y := 0;
      while y < |m|
        invariant 0 <= y <= |m|
        invariant IsBoard(arena)
        invariant forall r, c :: 0 <= r < HEIGHT && 0 <= c < WIDTH ==>
                    arena[r][c] == if Covers(player, r, c) && r - player.pos.y < y
                                   then Filled(player.color) else old(arena)[r][c]
      {
        var row := m[y];
        var x := 0;
        while x < |row|
          invariant 0 <= x <= |row|
          invariant IsBoard(arena)
          invariant forall r, c :: 0 <= r < HEIGHT && 0 <= c < WIDTH ==>
                      arena[r][c] == if Covers(player, r, c) &&
                                        (r - player.pos.y < y || (r - player.pos.y == y && c - player.pos.x < x))
                                     then Filled(player.color) else old(arena)[r][c]
        {
          if row[x] != 0 {
            var r, c := y + player.pos.y, x + player.pos.x;
            arena := arena[r := arena[r][c := Filled(player.color)]];
          }
          x := x + 1;
        }
        y := y + 1;
      }
      ghost var want := Merged(old(arena), player);
      forall r | 0 <= r < HEIGHT
        ensures arena[r] == want[r]
      {
      }
    }

    /**
     * `clearRows`: scans the rows from the bottom; a full row is spliced out
     * and an empty row of the arena's width is put on top, and the scan goes
     * on one index higher.
     */
    method ClearRows()
      requires IsBoard(arena)
      modifies this`arena
      ensures arena == Cleared(old(arena))
    {
      ghost var a0 := arena;
      ghost var removed := 0;
      ghost var m := |arena|;
      ghost var tail: seq<nat> := [];
      var y := |arena| - 1;
      assert arena == PassState(a0, removed, m, tail);
      while y >= 0
        invariant -1 <= y < HEIGHT
        invariant m == if y + 1 >= removed then y + 1 - removed else 0
        invariant PassInvariant(a0, removed, m, tail)
        invariant arena == PassState(a0, removed, m, tail)
      {
        if Full(arena[y]) {
          ghost var m2, tail2 := PassStepFull(a0, removed, m, tail, y);
          var rest := arena[..y] + arena[y + 1..];
          arena := [EmptyRow(|rest[0]|)] + rest;
          removed, m, tail := removed + 1, m2, tail2;
        } else {
          ghost var m2, tail2 := PassStepNotFull(a0, removed, m, tail, y);
          m, tail := m2, tail2;
        }
        y := y - 1;
      }
      PassStateDone(a0, removed, tail);
    }

    /** `playerDrop`: one row down, or land, clear rows and spawn or end the game. */
    method DropPiece(next: PieceIndex)
      requires Valid()
      modifies this`arena, this`player, this`phase
      ensures Valid()
      ensures DropStep(old(arena), old(player), old(phase), next, arena, player, phase)
    {
      ghost var a0, p0 := arena, player;
      player := Shifted(player, 0, 1);
      if Collide(arena, player) {
        player := Shifted(player, 0, -1);
        assert player == p0;
        Merge();
        ClearRows();
        assert arena == Cleared(Merged(a0, p0));
        if player.pos.y <= 0 {
          phase := GameOver;
          return;
        }
        player := Spawn(next);
        SpawnInBounds(next);
      } else {
        assert !Collide(a0, Shifted(p0, 0, 1));
      }
    }

    /** `playerMove(dir)`: shift sideways by dir unless the shifted piece collides. */
    method MovePiece(dir: int)
      requires Valid()
      modifies this`player
      ensures Valid()
      ensures player == if Collide(arena, Shifted(old(player), dir, 0))
                        then old(player) else Shifted(old(player), dir, 0)
      ensures !Collide(arena, old(player)) ==> !Collide(arena, player)
    {
      player := Shifted(player, dir, 0);
      if Collide(arena, player) {
        player := Shifted(player, -dir, 0);
      }
    }

    /** `playerRotate`: rotate in place unless the rotated piece collides; no wall kicks. */
    method RotatePiece()
      requires Valid()
      modifies this`player
      ensures Valid()
      ensures player.pos == old(player).pos && player.color == old(player).color
      ensures player.matrix == if Collide(arena, old(player).(matrix := Rotate(old(player).matrix)))
                               then old(player).matrix else Rotate(old(player).matrix)
      ensures !Collide(arena, old(player)) ==> !Collide(arena, player)
    {
      var prevMatrix := player.matrix;
      player := player.(matrix := Rotate(player.matrix));
      if Collide(arena, player) {
        player := player.(matrix := prevMatrix);
      }
    }

    /**
     * The timer part of `update(time)`: the frame's elapsed time is added to
     * the drop counter, and once the counter is strictly above the interval
     * the piece drops and the counter restarts from zero.
     */
    method Update(time: int, next: PieceIndex)
      requires Valid() && ClockValid() && time >= 0
      modifies this
      ensures Valid() && ClockValid()
      ensures lastTime == time
      ensures var counter := old(dropCounter) + (time - old(lastTime));
              if counter > DROP_INTERVAL then
                dropCounter == 0 &&
                DropStep(old(arena), old(player), old(phase), next, arena, player, phase)
              else
                dropCounter == counter &&
                arena == old(arena) && player == old(player) && phase == old(phase)
    {
      var deltaTime := time - lastTime;
      lastTime := time;
      dropCounter := dropCounter + deltaTime;
      if dropCounter > DROP_INTERVAL {
        DropPiece(next);
        dropCounter := 0;
      }
    }

    /**
     * `resetGame`: every row is filled with empty cells, a new piece is
     * spawned, the phase is back to playing, and `update` runs once with time
     * 0, which never drops and takes lastTime off the counter.
     */
    method Reset(next: PieceIndex)
      requires Valid() && ClockValid()
      modifies this
      ensures Valid() && ClockValid()
      ensures arena == CreateMatrix(WIDTH, HEIGHT) && player == Spawn(next) && phase == Playing
      ensures lastTime == 0 && dropCounter == old(dropCounter) - old(lastTime)
    {
      var i := 0;
      while i < |arena|
        invariant 0 <= i <= |arena| == HEIGHT
        invariant IsBoard(arena)
        invariant forall r :: 0 <= r < i ==> arena[r] == EmptyRow(WIDTH)
        invariant dropCounter == old(dropCounter) && lastTime == old(lastTime)
      {
        arena := arena[i := EmptyRow(|arena[i]|)];
        i := i + 1;
      }
      player := Spawn(next);
      SpawnInBounds(next);
      phase := Playing;
      Update(0, next);
    }
  }
}
