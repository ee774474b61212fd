/**
 * The board model: a 6 x 7 grid of small integers, row 0 on top, 0 for an
 * empty cell, the legal-column test and the gravity drop of `update_board`.
 */
module Boards {

  datatype Option<T> = None | Some(value: T)

  /** `board.shape[0]` and `board.shape[1]`. */
  const Height: int := 6
  const Width: int := 7

  /** A board value, as a sequence of rows read left to right. */
  type Board = seq<seq<int>>

  /**
   * The shape the engine works on. Cells are single decimal digits: the engine
   * only ever writes 1..4, and digit cells are what makes the source's
   * `''.join(a.astype(str))` a one-character-per-cell string.
   */
  predicate WellFormed(b: Board) {
    && |b| == Height
    && (forall r :: 0 <= r < Height ==> |b[r]| == Width)
    && (forall r, c :: 0 <= r < Height && 0 <= c < Width ==> 0 <= b[r][c] <= 9)
  }

  /** A board as handed in by the game: every cell empty or one of the two players' tokens. */
  predicate Ordinary(b: Board)
    requires WellFormed(b)
  {
    forall r, c :: 0 <= r < Height && 0 <= c < Width ==> 0 <= b[r][c] <= 2
  }

  /** No token floats above an empty cell: below a token there are only tokens. */
  predicate Settled(b: Board)
    requires WellFormed(b)
  {
    forall r, r', c :: 0 <= r < r' < Height && 0 <= c < Width && b[r][c] != 0 ==> b[r'][c] != 0
  }

  /** `np.zeros([6, 7])`. */
  function EmptyBoard(): (b: Board)
    ensures WellFormed(b) && Ordinary(b) && Settled(b)
    ensures forall r, c :: 0 <= r < Height && 0 <= c < Width ==> b[r][c] == 0
  {
    seq(Height, _ => seq(Width, _ => 0))
  }

  /** `board[:, c]`: column `c` read top to bottom. */
  function Column(b: Board, c: nat): (l: seq<int>)
    requires WellFormed(b) && c < Width
    ensures |l| == Height && forall r :: 0 <= r < Height ==> l[r] == b[r][c]
  {
    seq(Height, r requires 0 <= r < Height => b[r][c])
  }

  /** `0 in board[:, c]`, the legal-move test. */
  predicate Legal(b: Board, c: nat)
    requires WellFormed(b) && c < Width
  {
    0 in Column(b, c)
  }

  /** The legal columns from `c` on, in ascending order (the `valid_cols` list). */
  function LegalColumnsFrom(b: Board, c: nat): (cols: seq<nat>)
    requires WellFormed(b) && c <= Width
    ensures forall k :: 0 <= k < |cols| ==> c <= cols[k] < Width && Legal(b, cols[k])
    ensures forall x :: c <= x < Width && Legal(b, x) ==> x in cols
    decreases Width - c
  {
    if c == Width then []
    else if Legal(b, c) then [c] + LegalColumnsFrom(b, c + 1)
    else LegalColumnsFrom(b, c + 1)
  }

  function LegalColumns(b: Board): seq<nat>
    requires WellFormed(b)
  {
    LegalColumnsFrom(b, 0)
  }

  /** Strictly ascending, so no entry repeats. */
  predicate Ascending(s: seq<nat>) {
    forall k, k' :: 0 <= k < k' < |s| ==> s[k] < s[k']
  }

  /** The collected columns are strictly ascending, so each legal column appears once. */
  lemma {:induction false} LegalColumnsAscending(b: Board, c: nat)
    requires WellFormed(b) && c <= Width
    ensures Ascending(LegalColumnsFrom(b, c))
    decreases Width - c
  {
    var cols := LegalColumnsFrom(b, c);
    if c == Width {
      assert cols == [];
    } else {
      var rest := LegalColumnsFrom(b, c + 1);
      LegalColumnsAscending(b, c + 1);
      if Legal(b, c) {
        PrependAscending(c, rest, cols);
      } else {
        assert cols == rest;
      }
    }
  }

  /** An entry below every entry of an ascending sequence may be put in front of it. */
  lemma PrependAscending(x: nat, s: seq<nat>, t: seq<nat>)
    requires Ascending(s) && (forall k :: 0 <= k < |s| ==> x < s[k]) && t == [x] + s
    ensures Ascending(t)
  {
    forall k, k' | 0 <= k < k' < |t|
      ensures t[k] < t[k']
    {
      assert t[k'] == s[k' - 1];
      if 0 < k {
        assert t[k] == s[k - 1];
      }
    }
  }

  /**
   * The row `update_board` writes in column `c`, its loop resumed at `row`:
   * rows 1..5 are scanned downwards; a token under an empty cell selects that
   * empty cell, and failing that an empty bottom cell selects the bottom row.
   */
  function DropRowFrom(b: Board, c: nat, row: nat): (r: Option<nat>)
    requires WellFormed(b) && c < Width && 1 <= row
    ensures r.Some? ==> row - 1 <= r.value < Height && b[r.value][c] == 0
    decreases Height - row
  {
    if row >= Height then None
    else if b[row][c] > 0 && b[row - 1][c] == 0 then Some(row - 1)
    else if row == Height - 1 && b[row][c] == 0 then Some(row)
    else DropRowFrom(b, c, row + 1)
  }

  function DropRow(b: Board, c: nat): Option<nat>
    requires WellFormed(b) && c < Width
  {
    DropRowFrom(b, c, 1)
  }

  /** The scan finds a row whenever an empty cell lies at or below `row - 1`. */
  lemma {:induction false} DropRowFromFinds(b: Board, c: nat, row: nat, z: nat)
    requires WellFormed(b) && c < Width && 1 <= row < Height
    requires row - 1 <= z < Height && b[z][c] == 0
    ensures DropRowFrom(b, c, row).Some?
    decreases Height - row
  {
    if b[row][c] > 0 && b[row - 1][c] == 0 {
    } else if row == Height - 1 && b[row][c] == 0 {
    } else if z == row - 1 {
      // b[row][c] == 0 because b[row][c] > 0 would have selected row - 1
      DropRowFromFinds(b, c, row + 1, row);
    } else {
      DropRowFromFinds(b, c, row + 1, z);
    }
  }

  /** update_board never reaches its end without writing when the column has a 0. */
  lemma DropRowOfLegal(b: Board, c: nat)
    requires WellFormed(b) && c < Width && Legal(b, c)
    ensures DropRow(b, c).Some?
  {
    var z :| 0 <= z < Height && Column(b, c)[z] == 0;
    DropRowFromFinds(b, c, 1, z);
  }

  /** The lowest empty cell of a column, scanning upwards from row `r`. */
  function LowestEmptyFrom(b: Board, c: nat, r: nat): (e: int)
    requires WellFormed(b) && c < Width && r < Height
    ensures -1 <= e <= r
    ensures e >= 0 ==> b[e][c] == 0
    ensures forall r' :: e < r' <= r ==> b[r'][c] != 0
  {
    if b[r][c] == 0 then r
    else if r == 0 then -1
    else LowestEmptyFrom(b, c, r - 1)
  }

  /** The empty cell with the highest row index in column `c`, or -1. */
  function LowestEmpty(b: Board, c: nat): int
    requires WellFormed(b) && c < Width
  {
    LowestEmptyFrom(b, c, Height - 1)
  }

  /**
   * The gravity drop of `update_board(c, p)` on a column that has an empty cell:
   * the cell chosen by the row scan receives `p`, nothing else changes.
   */
  function Drop(b: Board, c: nat, p: int): (d: Board)
    requires WellFormed(b) && c < Width && Legal(b, c)
    ensures 0 <= p <= 9 ==> WellFormed(d)
    ensures |d| == Height && forall r :: 0 <= r < Height ==> |d[r]| == Width
    ensures forall r, c' :: 0 <= r < Height && 0 <= c' < Width && (c' != c || b[r][c'] != 0) ==> d[r][c'] == b[r][c']
  {
    DropRowOfLegal(b, c);
    DropIsWrite(b, c, p);
    DropFrom(b, c, p, 1)
  }

  /**
   * The loop of `update_board(c, p)` resumed at `row`, writing as it goes:
   * the first row the scan selects receives `p`, and a scan that selects no
   * row writes nothing.
   */
  function DropFrom(b: Board, c: nat, p: int, row: nat): Board
    requires WellFormed(b) && c < Width && 1 <= row
    decreases Height - row
  {
    if row >= Height then b
    else if b[row][c] > 0 && b[row - 1][c] == 0 then b[row - 1 := b[row - 1][c := p]]
    else if row == Height - 1 && b[row][c] == 0 then b[row := b[row][c := p]]
    else DropFrom(b, c, p, row + 1)
  }

  /** The writing loop writes `p` into the row the scan selects. */
  lemma {:induction false} DropFromIsWrite(b: Board, c: nat, p: int, row: nat)
    requires WellFormed(b) && c < Width && 1 <= row
    ensures DropRowFrom(b, c, row).Some? ==>
      var r := DropRowFrom(b, c, row).value; DropFrom(b, c, p, row) == b[r := b[r][c := p]]
    decreases Height - row
  {
    if row < Height && !(b[row][c] > 0 && b[row - 1][c] == 0) && !(row == Height - 1 && b[row][c] == 0) {
      DropFromIsWrite(b, c, p, row + 1);
    }
  }

  /** A drop writes `p` into the cell of the selected row and changes nothing else. */
  lemma DropIsWrite(b: Board, c: nat, p: int)
    requires WellFormed(b) && c < Width && Legal(b, c)
    ensures DropRow(b, c).Some?
    ensures var r := DropRow(b, c).value; DropFrom(b, c, p, 1) == b[r := b[r][c := p]]
  {
    DropRowOfLegal(b, c);
    DropFromIsWrite(b, c, p, 1);
  }

  /**
   * On a settled column the drop fills exactly the lowest empty cell, and a
   * non-zero token keeps the board settled.
   */
  lemma {:induction false} DropFillsLowestEmpty(b: Board, c: nat, p: int)
    requires WellFormed(b) && c < Width && Legal(b, c) && Settled(b)
    ensures var e := LowestEmpty(b, c);
      && 0 <= e < Height
      && Drop(b, c, p)[e][c] == p
      && forall r, c' :: 0 <= r < Height && 0 <= c' < Width && (r, c') != (e, c) ==> Drop(b, c, p)[r][c'] == b[r][c']
    ensures 0 < p <= 9 ==> Settled(Drop(b, c, p))
  {
    DropIsWrite(b, c, p);
    var row := DropRow(b, c).value;
    var e := LowestEmpty(b, c);
    var z :| 0 <= z < Height && Column(b, c)[z] == 0;
    assert e >= z;
    // Settled: every cell above an empty cell is empty, so the scan's first
    // "token under an empty cell" is exactly the lowest empty cell.
    assert forall r :: 0 <= r <= e ==> b[r][c] == 0;
    DropRowOnSettled(b, c, 1, e);
    assert row == e;
  }

  lemma {:induction false} DropRowOnSettled(b: Board, c: nat, row: nat, e: nat)
    requires WellFormed(b) && c < Width && 1 <= row <= e + 1 && row < Height && e < Height
    requires forall r :: 0 <= r <= e ==> b[r][c] == 0
    requires forall r :: e < r < Height ==> b[r][c] != 0
    ensures DropRowFrom(b, c, row) == Some(e)
    decreases Height - row
  {
    if row <= e && row < Height - 1 {
      DropRowOnSettled(b, c, row + 1, e);
    }
  }

  /** Number of empty cells in a row. */
  function EmptyInRow(l: seq<int>): nat {
    if |l| == 0 then 0 else (if l[0] == 0 then 1 else 0) + EmptyInRow(l[1..])
  }

  /** Writing a token into an empty cell of a row leaves one empty cell fewer. */
  lemma {:induction false} EmptyInRowUpdate(l: seq<int>, i: nat, p: int)
    requires i < |l| && l[i] == 0 && p != 0
    ensures EmptyInRow(l[i := p]) + 1 == EmptyInRow(l)
  {
    if i == 0 {
      assert l[i := p][1..] == l[1..];
    } else {
      EmptyInRowUpdate(l[1..], i - 1, p);
      assert l[i := p][1..] == l[1..][i - 1 := p];
    }
  }

  /** A row with a positive count has an empty cell. */
  lemma {:induction false} EmptyInRowHasZero(l: seq<int>)
    requires EmptyInRow(l) > 0
    ensures exists i :: 0 <= i < |l| && l[i] == 0
  {
    if l[0] != 0 {
      EmptyInRowHasZero(l[1..]);
      var i :| 0 <= i < |l[1..]| && l[1..][i] == 0;
      assert l[i + 1] == 0;
    }
  }

  /** Number of empty cells in rows `r..5`. */
  function EmptyCountFrom(b: Board, r: nat): nat
    requires WellFormed(b) && r <= Height
    decreases Height - r
  {
    if r == Height then 0 else EmptyInRow(b[r]) + EmptyCountFrom(b, r + 1)
  }

  /** Number of empty cells on the board. */
  function EmptyCount(b: Board): nat
    requires WellFormed(b)
  {
    EmptyCountFrom(b, 0)
  }

  /** A board with an empty cell has a legal column. */
  lemma {:induction false} SomeLegalColumn(b: Board, r: nat)
    requires WellFormed(b) && r <= Height && EmptyCountFrom(b, r) > 0
    ensures exists c :: 0 <= c < Width && Legal(b, c)
    decreases Height - r
  {
    if EmptyInRow(b[r]) > 0 {
      EmptyInRowHasZero(b[r]);
      var c :| 0 <= c < Width && b[r][c] == 0;
      assert Column(b, c)[r] == 0;
      assert Legal(b, c);
    } else {
      SomeLegalColumn(b, r + 1);
    }
  }

  /** Every drop of a token fills one empty cell. */
  lemma DropFillsOneCell(b: Board, c: nat, p: int)
    requires WellFormed(b) && c < Width && Legal(b, c) && 0 < p <= 9
    ensures EmptyCount(Drop(b, c, p)) == EmptyCount(b) - 1
  {
    DropIsWrite(b, c, p);
    var row := DropRow(b, c).value;
    var d := Drop(b, c, p);
    assert d[row] == b[row][c := p];
    EmptyInRowUpdate(b[row], c, p);
    EmptyCountOneRow(b, d, row, 0);
  }

  /** The board after a legal drop of a token: well formed, with one empty cell fewer. */
  lemma Child(b: Board, c: nat, p: int) returns (child: Board)
    requires WellFormed(b) && c < Width && Legal(b, c) && 0 < p <= 9
    ensures child == Drop(b, c, p) && WellFormed(child)
    ensures EmptyCount(child) + 1 == EmptyCount(b)
  {
    child := Drop(b, c, p);
    DropFillsOneCell(b, c, p);
  }

  lemma {:induction false} EmptyCountOneRow(b: Board, d: Board, row: nat, r: nat)
    requires WellFormed(b) && WellFormed(d) && row < Height && r <= Height
    requires forall r' :: 0 <= r' < Height && r' != row ==> d[r'] == b[r']
    ensures r <= row ==> EmptyCountFrom(d, r) == EmptyCountFrom(b, r) - EmptyInRow(b[row]) + EmptyInRow(d[row])
    ensures r > row ==> EmptyCountFrom(d, r) == EmptyCountFrom(b, r)
    decreases Height - r
  {
    if r < Height {
      EmptyCountOneRow(b, d, row, r + 1);
    }
  }

  /** A drop of a player's token keeps an ordinary board ordinary. */
  lemma DropKeepsOrdinary(b: Board, c: nat, p: int)
    requires WellFormed(b) && Ordinary(b) && c < Width && Legal(b, c) && 1 <= p <= 2
    ensures WellFormed(Drop(b, c, p)) && Ordinary(Drop(b, c, p))
  {
    DropIsWrite(b, c, p);
  }
}
