/** The arena: a fixed grid of cells, its creation and the row-clearing pass. */
module Arena {

  const WIDTH := 10
  const HEIGHT := 20

  /** A cell is empty (the number 0 in the game) or holds the colour of a landed piece. */
  datatype Cell = Empty | Filled(color: string)

  type Row = seq<Cell>
  type Board = seq<Row>

  function EmptyRow(w: nat): (row: Row)
    ensures |row| == w && forall c :: 0 <= c < w ==> row[c] == Empty
  {
    seq(w, _ => Empty)
  }

  /** `createMatrix(w, h)`: h fresh rows, each of w empty cells. */
  function CreateMatrix(w: nat, h: nat): (m: Board)
    ensures |m| == h
    ensures forall r :: 0 <= r < h ==> m[r] == EmptyRow(w)
  {
    seq(h, _ => EmptyRow(w))
  }

  /** The shape every arena has: HEIGHT rows of WIDTH cells. */
  predicate IsBoard(a: Board) {
    |a| == HEIGHT && forall r :: 0 <= r < |a| ==> |a[r]| == WIDTH
  }

  /** The full-row test of `clearRows`: every cell of the row holds a colour. */
  predicate Full(row: Row) {
    forall c :: 0 <= c < |row| ==> row[c] != Empty
  }

  /**
   * The indices, in increasing order, of the rows among a[..m] that one
   * clearing pass keeps. The pass scans from the bottom; a full row is
   * removed, and because the rows above it shift down by one while the scan
   * index still moves up, the row directly above a removed row is kept
   * without being examined.
   */
  function Kept(a: Board, m: nat): (k: seq<nat>)
    requires m <= |a|
    ensures |k| <= m
    ensures forall i :: 0 <= i < |k| ==> k[i] < m
    decreases m
  {
    if m == 0 then []
    else if Full(a[m - 1]) then (if m == 1 then [] else Kept(a, m - 2) + [m - 2])
    else Kept(a, m - 1) + [m - 1]
  }

  /** The kept rows stay in their original order. */
  lemma {:induction false} KeptInOrder(a: Board, m: nat)
    requires m <= |a|
    ensures forall i, j :: 0 <= i < j < |Kept(a, m)| ==> Kept(a, m)[i] < Kept(a, m)[j]
    decreases m
  {
    if m >= 1 {
      if Full(a[m - 1]) {
        if m >= 2 { KeptInOrder(a, m - 2); }
      } else {
        KeptInOrder(a, m - 1);
      }
    }
  }

  /** A pass removes only full rows: every row that is not full is kept. */
  lemma {:induction false} KeptNonFullRows(a: Board, m: nat)
    requires m <= |a|
    ensures forall j :: 0 <= j < m && !Full(a[j]) ==> j in Kept(a, m)
    decreases m
  {
    if m >= 1 {
      if Full(a[m - 1]) {
        if m >= 2 { KeptNonFullRows(a, m - 2); }
      } else {
        KeptNonFullRows(a, m - 1);
      }
    }
  }

  /**
   * A full row survives a pass only when it was passed over: the row
   * directly below it is full, and it was removed (the next kept index is
   * further down).
   */
  lemma {:induction false} KeptFullRowsWereSkipped(a: Board, m: nat)
    requires m <= |a|
    ensures forall i :: 0 <= i < |Kept(a, m)| && Full(a[Kept(a, m)[i]]) ==>
              Kept(a, m)[i] + 1 < m && Full(a[Kept(a, m)[i] + 1]) &&
              (i + 1 < |Kept(a, m)| ==> Kept(a, m)[i + 1] > Kept(a, m)[i] + 1)
    decreases m
  {
    if m >= 1 && !(m == 1 && Full(a[0])) {
      var k := Kept(a, m);
      var n: nat := if Full(a[m - 1]) then m - 2 else m - 1;
      var prev := Kept(a, n);
      KeptFullRowsWereSkipped(a, n);
      assert k == prev + [n];
      forall i | 0 <= i < |k| && Full(a[k[i]])
        ensures k[i] + 1 < m && Full(a[k[i] + 1]) && (i + 1 < |k| ==> k[i + 1] > k[i] + 1)
      {
        if i < |prev| {
          assert k[i] == prev[i];
          assert prev[i] + 1 < n && Full(a[prev[i] + 1]);
          if i + 1 == |prev| {
            assert k[i + 1] == n;
          } else if i + 1 < |prev| {
            assert k[i + 1] == prev[i + 1];
          }
        } else {
          assert k[i] == n && n == m - 2;
        }
      }
    }
  }

  /**
   * The other half of the skip rule: the row just above a removed row is
   * always kept, full or not, because it slides into the removed index and
   * the scan moves past it.
   */
  lemma {:induction false} SkippedRowKept(a: Board, m: nat, j: nat)
    requires m <= |a| && j + 1 < m && (j + 1) !in Kept(a, m)
    ensures j in Kept(a, m)
    decreases m
  {
    if Full(a[m - 1]) {
      KeptSkipsAboveFull(a, m);
      if j != m - 2 {
        assert (j + 1) !in Kept(a, m - 2);
        SkippedRowKept(a, m - 2, j);
      }
    } else {
      assert Kept(a, m) == Kept(a, m - 1) + [m - 1];
      assert (j + 1) !in Kept(a, m - 1);
      SkippedRowKept(a, m - 1, j);
    }
  }

  /**
   * Which rows one pass keeps, exactly: a row is kept when it is not full,
   * or when the row just below it (index j + 1), which it slides into, was
   * removed.
   */
  lemma {:induction false} KeptExactly(a: Board, m: nat, j: nat)
    requires m <= |a| && j < m
    ensures j in Kept(a, m) <==> !Full(a[j]) || (j + 1 < m && (j + 1) !in Kept(a, m))
  {
    var k := Kept(a, m);
    KeptNonFullRows(a, m);
    if j + 1 < m && (j + 1) !in k {
      SkippedRowKept(a, m, j);
    }
    if j in k && Full(a[j]) {
      KeptInOrder(a, m);
      KeptFullRowsWereSkipped(a, m);
      var i :| 0 <= i < |k| && k[i] == j;
      forall i2 | 0 <= i2 < |k|
        ensures k[i2] != j + 1
      {
        if i2 > i + 1 {
          assert k[i + 1] < k[i2];
        }
      }
    }
  }

  /** The rows of `a` at the indices `k`, in that order. */
  function Pick(a: Board, k: seq<nat>): (r: Board)
    requires forall i :: 0 <= i < |k| ==> k[i] < |a|
    ensures |r| == |k| && forall i :: 0 <= i < |k| ==> r[i] == a[k[i]]
  {
    seq(|k|, i requires 0 <= i < |k| => a[k[i]])
  }

  /**
   * The arena after one `clearRows` pass: one empty row on top for every
   * removed row, then the kept rows in their original order.
   */
  function Cleared(a: Board): (r: Board)
    requires IsBoard(a)
    ensures IsBoard(r)
    ensures forall i :: 0 <= i < |a| - |Kept(a, |a|)| ==> r[i] == EmptyRow(WIDTH)
    ensures forall i :: 0 <= i < |Kept(a, |a|)| ==>
              r[|a| - |Kept(a, |a|)| + i] == a[Kept(a, |a|)[i]]
  {
    var k := Kept(a, |a|);
    StackIsBoard(a, k);
    CreateMatrix(WIDTH, |a| - |k|) + Pick(a, k)
  }

  /** Empty rows on top of rows taken from a board, as many as the board has, make a board. */
  lemma StackIsBoard(a: Board, k: seq<nat>)
    requires IsBoard(a) && |k| <= |a| && forall i :: 0 <= i < |k| ==> k[i] < |a|
    ensures IsBoard(CreateMatrix(WIDTH, |a| - |k|) + Pick(a, k))
  {
  }

  /**
   * The arena part-way through a clearing pass: `removed` empty rows on
   * top, the rows a0[..m] not yet reached, then the rows already passed
   * that stay, given by their indices in a0.
   */
  ghost function PassState(a0: Board, removed: nat, m: nat, tail: seq<nat>): Board
    requires m <= |a0|
    requires forall i :: 0 <= i < |tail| ==> tail[i] < |a0|
  {
    CreateMatrix(WIDTH, removed) + a0[..m] + Pick(a0, tail)
  }

  /**
   * The facts that hold at every step of a pass over a0 that has removed
   * `removed` rows and has `m` rows still to reach, the kept ones of the
   * rows already passed being a0's rows at the indices `tail`.
   */
  ghost predicate PassInvariant(a0: Board, removed: nat, m: nat, tail: seq<nat>) {
    removed + m + |tail| == |a0| &&
    (forall i :: 0 <= i < |tail| ==> m <= tail[i] < |a0|) &&
    Kept(a0, m) + tail == Kept(a0, |a0|)
  }

  /** Every arena part-way through a pass over a board is itself a board. */
  lemma PassStateIsBoard(a0: Board, removed: nat, m: nat, tail: seq<nat>)
    requires IsBoard(a0) && m <= |a0| && removed + m + |tail| == |a0|
    requires forall i :: 0 <= i < |tail| ==> tail[i] < |a0|
    ensures IsBoard(PassState(a0, removed, m, tail))
  {
  }

  /** Above the rows still to reach there are only empty rows, which are never full. */
  lemma PassStepEmpty(a0: Board, removed: nat, tail: seq<nat>, y: int)
    requires IsBoard(a0) && PassInvariant(a0, removed, 0, tail)
    requires 0 <= y < removed
    ensures !Full(PassState(a0, removed, 0, tail)[y])
  {
    assert PassState(a0, removed, 0, tail)[y] == EmptyRow(WIDTH);
    EmptyRowNotFull(WIDTH);
  }

  /** The scan index y = removed + m - 1 holds row a0[m-1]; keeping it moves it to the passed rows. */
  lemma PassStepKeep(a0: Board, removed: nat, m: nat, tail: seq<nat>)
    requires IsBoard(a0) && PassInvariant(a0, removed, m, tail)
    requires 1 <= m && !Full(PassState(a0, removed, m, tail)[removed + m - 1])
    ensures PassInvariant(a0, removed, m - 1, [m - 1] + tail)
    ensures PassState(a0, removed, m, tail) == PassState(a0, removed, m - 1, [m - 1] + tail)
  {
    PassStateKeep(a0, removed, m, tail);
    PassInvariantKeep(a0, removed, m, tail);
  }

  lemma PassInvariantKeep(a0: Board, removed: nat, m: nat, tail: seq<nat>)
    requires PassInvariant(a0, removed, m, tail)
    requires 1 <= m && !Full(a0[m - 1])
    ensures PassInvariant(a0, removed, m - 1, [m - 1] + tail)
  {
  }

  /** Removing the full row a0[m-1] passes over a0[m-2], which joins the passed rows unexamined. */
  lemma PassInvariantRemove(a0: Board, removed: nat, m: nat, tail: seq<nat>) returns (m2: nat, tail2: seq<nat>)
    requires PassInvariant(a0, removed, m, tail)
    requires 1 <= m && Full(a0[m - 1])
    ensures m2 == if m >= 2 then m - 2 else 0
    ensures tail2 == if m >= 2 then [m - 2] + tail else tail
    ensures PassInvariant(a0, removed + 1, m2, tail2)
  {
    if m >= 2 {
      m2, tail2 := m - 2, [m - 2] + tail;
      KeptSkipsAboveFull(a0, m);
      MoveLastToTail(Kept(a0, m), Kept(a0, m - 2), tail, Kept(a0, |a0|), m - 2);
      ConsWithin(m - 2, tail, m - 2, |a0|);
    } else {
      m2, tail2 := 0, tail;
      assert Kept(a0, m) == [] == Kept(a0, 0);
    }
  }

  lemma KeptSkipsAboveFull(a: Board, m: nat)
    requires 2 <= m <= |a| && Full(a[m - 1])
    ensures Kept(a, m) == Kept(a, m - 2) + [m - 2]
  {
  }

  lemma ConsWithin(j: nat, t: seq<nat>, lo: int, hi: int)
    requires lo <= j < hi && forall i :: 0 <= i < |t| ==> lo <= t[i] < hi
    ensures forall i :: 0 <= i < |[j] + t| ==> lo <= ([j] + t)[i] < hi
  {
  }

  lemma MoveLastToTail(x: seq<nat>, y: seq<nat>, t: seq<nat>, all: seq<nat>, j: nat)
    requires x == y + [j] && x + t == all
    ensures y + ([j] + t) == all
  {
  }

  lemma PassStateKeep(a0: Board, removed: nat, m: nat, tail: seq<nat>)
    requires 1 <= m <= |a0|
    requires forall i :: 0 <= i < |tail| ==> tail[i] < |a0|
    ensures PassState(a0, removed, m, tail)[removed + m - 1] == a0[m - 1]
    ensures PassState(a0, removed, m, tail) == PassState(a0, removed, m - 1, [m - 1] + tail)
  {
    assert a0[..m] == a0[..m - 1] + [a0[m - 1]];
    PickCons(a0, m - 1, tail);
  }

  lemma PickCons(a: Board, j: nat, t: seq<nat>)
    requires j < |a| && forall i :: 0 <= i < |t| ==> t[i] < |a|
    ensures Pick(a, [j] + t) == [a[j]] + Pick(a, t)
  {
  }

  /**
   * Splicing out the full row at y = removed + m - 1 and putting an empty
   * row on top: the row a0[m-2] that shifts into y is passed over
   * unexamined.
   */
  lemma PassStepRemove(a0: Board, removed: nat, m: nat, tail: seq<nat>) returns (m2: nat, tail2: seq<nat>)
    requires IsBoard(a0) && PassInvariant(a0, removed, m, tail)
    requires 1 <= m && Full(a0[m - 1])
    ensures PassState(a0, removed, m, tail)[removed + m - 1] == a0[m - 1]
    ensures m2 == if m >= 2 then m - 2 else 0
    ensures PassInvariant(a0, removed + 1, m2, tail2)
    ensures var s := PassState(a0, removed, m, tail);
            var y := removed + m - 1;
            |s[..y] + s[y + 1..]| > 0 && |(s[..y] + s[y + 1..])[0]| == WIDTH &&
            [EmptyRow(WIDTH)] + (s[..y] + s[y + 1..]) == PassState(a0, removed + 1, m2, tail2)
  {
    PassStateIsBoard(a0, removed, m, tail);
    PassStateKeep(a0, removed, m, tail);
    PassRestWidth(PassState(a0, removed, m, tail), removed + m - 1);
    m2, tail2 := PassInvariantRemove(a0, removed, m, tail);
    PassStateRemove(a0, removed, m, tail);
    if m >= 2 {
      PassStateShiftUp(a0, removed + 1, m, tail);
    } else {
      assert a0[..m - 1] == a0[..0];
    }
  }

  /** The arena without one of its rows still has rows of the board's width. */
  lemma PassRestWidth(s: Board, y: int)
    requires IsBoard(s) && 0 <= y < |s|
    ensures |s[..y] + s[y + 1..]| > 0 && |(s[..y] + s[y + 1..])[0]| == WIDTH
  {
  }

  /** Putting an empty row on top of the spliced arena adds one to the removed rows. */
  lemma PassStateRemove(a0: Board, removed: nat, m: nat, tail: seq<nat>)
    requires 1 <= m <= |a0|
    requires forall i :: 0 <= i < |tail| ==> tail[i] < |a0|
    ensures var s := PassState(a0, removed, m, tail);
            var y := removed + m - 1;
            [EmptyRow(WIDTH)] + (s[..y] + s[y + 1..]) ==
            CreateMatrix(WIDTH, removed + 1) + a0[..m - 1] + Pick(a0, tail)
  {
  }

  /** The row a0[m-2] that slid into the scan index moves to the passed rows. */
  lemma PassStateShiftUp(a0: Board, removed: nat, m: nat, tail: seq<nat>)
    requires 2 <= m <= |a0|
    requires forall i :: 0 <= i < |tail| ==> tail[i] < |a0|
    ensures CreateMatrix(WIDTH, removed) + a0[..m - 1] + Pick(a0, tail) ==
            PassState(a0, removed, m - 2, [m - 2] + tail)
  {
  }

  /**
   * One iteration of the pass at scan index y when the row there is full:
   * the arena with that row spliced out and an empty row put on top is
   * again a pass state, with one more row removed.
   */
  lemma PassStepFull(a0: Board, removed: nat, m: nat, tail: seq<nat>, y: int)
    returns (m2: nat, tail2: seq<nat>)
    requires IsBoard(a0) && PassInvariant(a0, removed, m, tail)
    requires 0 <= y < HEIGHT && m == if y + 1 >= removed then y + 1 - removed else 0
    requires Full(PassState(a0, removed, m, tail)[y])
    ensures PassInvariant(a0, removed + 1, m2, tail2)
    ensures m2 == if y >= removed + 1 then y - removed - 1 else 0
    ensures var s := PassState(a0, removed, m, tail);
            |s[..y] + s[y + 1..]| > 0 && |(s[..y] + s[y + 1..])[0]| == WIDTH &&
            [EmptyRow(WIDTH)] + (s[..y] + s[y + 1..]) == PassState(a0, removed + 1, m2, tail2)
  {
    if m == 0 {
      PassStepEmpty(a0, removed, tail, y);
      assert false;
    }
    PassStateKeep(a0, removed, m, tail);
    m2, tail2 := PassStepRemove(a0, removed, m, tail);
  }

  /**
   * One iteration of the pass at scan index y when the row there is not
   * full: the arena is unchanged and is again a pass state, with one index
   * fewer to reach.
   */
  lemma PassStepNotFull(a0: Board, removed: nat, m: nat, tail: seq<nat>, y: int)
    returns (m2: nat, tail2: seq<nat>)
    requires IsBoard(a0) && PassInvariant(a0, removed, m, tail)
    requires 0 <= y < HEIGHT && m == if y + 1 >= removed then y + 1 - removed else 0
    requires !Full(PassState(a0, removed, m, tail)[y])
    ensures PassInvariant(a0, removed, m2, tail2)
    ensures m2 == if y >= removed then y - removed else 0
    ensures PassState(a0, removed, m2, tail2) == PassState(a0, removed, m, tail)
  {
    if m == 0 {
      m2, tail2 := 0, tail;
    } else {
      PassStepKeep(a0, removed, m, tail);
      m2, tail2 := m - 1, [m - 1] + tail;
    }
  }

  /** With no rows left to reach, the pass has produced the cleared arena. */
  lemma PassStateDone(a0: Board, removed: nat, tail: seq<nat>)
    requires IsBoard(a0) && PassInvariant(a0, removed, 0, tail)
    ensures PassState(a0, removed, 0, tail) == Cleared(a0)
  {
  }

  /** Without full rows the pass keeps every row. */
  lemma {:induction false} KeptAllWhenNoneFull(a: Board, m: nat)
    requires m <= |a|
    requires forall j :: 0 <= j < m ==> !Full(a[j])
    ensures Kept(a, m) == seq(m, i => i)
    decreases m
  {
    if m > 0 {
      KeptAllWhenNoneFull(a, m - 1);
    }
  }

  /** A pass over an arena without full rows changes nothing. */
  lemma ClearedWithoutFullRows(a: Board)
    requires IsBoard(a)
    requires forall j :: 0 <= j < |a| ==> !Full(a[j])
    ensures Cleared(a) == a
  {
    KeptAllWhenNoneFull(a, |a|);
  }

  /** An empty row of positive width is never full. */
  lemma EmptyRowNotFull(w: nat)
    requires w > 0
    ensures !Full(EmptyRow(w))
  {
    assert EmptyRow(w)[0] == Empty;
  }

  /** Rows j and j+1 are both full. */
  predicate FullPair(a: Board, j: nat)
    requires j + 1 < |a|
  {
    Full(a[j]) && Full(a[j + 1])
  }

  /**
   * When no two vertically adjacent rows are both full, one pass leaves no
   * full row behind.
   */
  lemma ClearedLeavesNoFullRow(a: Board)
    requires IsBoard(a)
    requires forall j: nat :: j + 1 < |a| ==> !FullPair(a, j)
    ensures forall i :: 0 <= i < |a| ==> !Full(Cleared(a)[i])
  {
    var k := Kept(a, |a|);
    var r := Cleared(a);
    EmptyRowNotFull(WIDTH);
    KeptFullRowsWereSkipped(a, |a|);
    forall i | 0 <= i < |a|
      ensures !Full(r[i])
    {
      if i >= |a| - |k| {
        var t := i - (|a| - |k|);
        assert r[i] == a[k[t]];
        if Full(a[k[t]]) {
          assert FullPair(a, k[t]);
        }
      }
    }
  }

  /**
   * Two full rows at the bottom: the pass removes the lowest and the one
   * above it shifts into the bottom row unexamined, so the arena still ends
   * in a full row.
   */
  lemma AdjacentFullRowsNeedTwoPasses(a: Board)
    requires IsBoard(a)
    requires Full(a[HEIGHT - 1]) && Full(a[HEIGHT - 2])
    ensures Cleared(a)[HEIGHT - 1] == a[HEIGHT - 2]
    ensures Full(Cleared(a)[HEIGHT - 1])
  {
  }
}
