/**
 * The line scanner: rows, columns (`board.T`), the seven scanned diagonals of
 * a board and of its left-right mirror (`np.diagonal`, `np.fliplr`), and the
 * substring test `pattern in to_str(line)` the detector and the evaluator use.
 */
module Lines {
  import opened Boards

  /** A scanned line of cells, in reading order. */
  type Line = seq<int>

  /** Whether `p[k..]` lies on `l` from position `i + k` on. */
  predicate MatchesFrom(p: Line, l: Line, i: nat, k: nat)
    requires i + |p| <= |l| && k <= |p|
    decreases |p| - k
  {
    k == |p| || (p[k] == l[i + k] && MatchesFrom(p, l, i, k + 1))
  }

  /** Whether `p` lies on `l` at some position `i` or later. */
  predicate OccursFrom(p: Line, l: Line, i: nat)
    decreases |l| - i
  {
    i + |p| <= |l| && (MatchesFrom(p, l, i, 0) || OccursFrom(p, l, i + 1))
  }

  /**
   * `p in to_str(l)`. With single-digit cells every character of the string is
   * one cell, so the substring test is a test for a window of `l` equal to `p`.
   */
  predicate Occurs(p: Line, l: Line) {
    OccursFrom(p, l, 0)
  }

  /** A window of `l` at position `i` equals `p`. */
  predicate WindowAt(p: Line, l: Line, i: int) {
    0 <= i && i + |p| <= |l| && l[i..i + |p|] == p
  }

  lemma {:induction false} MatchesFromIsWindow(p: Line, l: Line, i: nat, k: nat)
    requires i + |p| <= |l| && k <= |p|
    ensures MatchesFrom(p, l, i, k) <==> l[i + k..i + |p|] == p[k..]
    decreases |p| - k
  {
    if k < |p| {
      MatchesFromIsWindow(p, l, i, k + 1);
      assert l[i + k..i + |p|] == [l[i + k]] + l[i + k + 1..i + |p|];
      assert p[k..] == [p[k]] + p[k + 1..];
    }
  }

  lemma {:induction false} OccursFromIsWindow(p: Line, l: Line, i: nat)
    ensures OccursFrom(p, l, i) <==> exists j :: i <= j && WindowAt(p, l, j)
    decreases |l| - i
  {
    if i + |p| <= |l| {
      MatchesFromIsWindow(p, l, i, 0);
      assert p[0..] == p;
      OccursFromIsWindow(p, l, i + 1);
      if MatchesFrom(p, l, i, 0) {
        assert WindowAt(p, l, i);
      }
      if exists j :: i <= j && WindowAt(p, l, j) {
        var j :| i <= j && WindowAt(p, l, j);
        if j > i {
          assert exists j' :: i + 1 <= j' && WindowAt(p, l, j');
        }
      }
    }
  }

  /** The recursive substring test is exactly the window characterisation. */
  lemma OccursIsWindow(p: Line, l: Line)
    ensures Occurs(p, l) <==> exists i :: WindowAt(p, l, i)
  {
    OccursFromIsWindow(p, l, 0);
  }

  /** Every value of a matched pattern is a value of the line. */
  lemma OccursValues(p: Line, l: Line)
    requires Occurs(p, l)
    ensures forall k :: 0 <= k < |p| ==> p[k] in l
  {
    OccursIsWindow(p, l);
    var i :| WindowAt(p, l, i);
    forall k | 0 <= k < |p|
      ensures p[k] in l
    {
      assert l[i..i + |p|][k] == l[i + k];
    }
  }

  function Reverse(s: Line): (r: Line)
    ensures |r| == |s|
    ensures forall i :: 0 <= i < |s| ==> r[i] == s[|s| - 1 - i]
  {
    seq(|s|, i requires 0 <= i < |s| => s[|s| - 1 - i])
  }

  lemma ReverseReverse(s: Line)
    ensures Reverse(Reverse(s)) == s
  {
  }

  /** One direction of `OccursReverse`. */
  lemma OccursReverseImplies(p: Line, l: Line)
    requires Occurs(p, l)
    ensures Occurs(Reverse(p), Reverse(l))
  {
    OccursIsWindow(p, l);
    OccursIsWindow(Reverse(p), Reverse(l));
    var i :| WindowAt(p, l, i);
    var j := |l| - |p| - i;
    assert Reverse(l)[j..j + |p|] == Reverse(p) by {
      forall k | 0 <= k < |p|
        ensures Reverse(l)[j..j + |p|][k] == Reverse(p)[k]
      {
        assert l[i..i + |p|][|p| - 1 - k] == p[|p| - 1 - k];
      }
    }
    assert WindowAt(Reverse(p), Reverse(l), j);
  }

  /** A pattern lies on a line exactly when its reversal lies on the reversed line. */
  lemma OccursReverse(p: Line, l: Line)
    ensures Occurs(Reverse(p), Reverse(l)) <==> Occurs(p, l)
  {
    if Occurs(p, l) {
      OccursReverseImplies(p, l);
    }
    if Occurs(Reverse(p), Reverse(l)) {
      OccursReverseImplies(Reverse(p), Reverse(l));
      ReverseReverse(p);
      ReverseReverse(l);
    }
  }

  /** `for row in board`. */
  function Rows(b: Board): (ls: seq<Line>)
    requires WellFormed(b)
    ensures |ls| == Height && forall r :: 0 <= r < Height ==> ls[r] == b[r]
  {
    b
  }

  /** `for row in board.T`: the columns, each read top to bottom. */
  function Columns(b: Board): (ls: seq<Line>)
    requires WellFormed(b)
    ensures |ls| == Width && forall c :: 0 <= c < Width ==> ls[c] == Column(b, c)
  {
    seq(Width, c requires 0 <= c < Width => Column(b, c))
  }

  /** The length of `np.diagonal(board, offset = k)` on a 6 x 7 board. */
  function DiagonalLength(k: int): nat
    requires -Height < k < Width
  {
    if k >= 0 then (if Width - k < Height then Width - k else Height)
    else Height + k
  }

  /** `np.diagonal(board, offset = k)`: cells `(i, i + k)`, top-left to bottom-right. */
  function Diagonal(b: Board, k: int): (l: Line)
    requires WellFormed(b) && -Height < k < Width
    ensures |l| == DiagonalLength(k)
    ensures forall i :: 0 <= i < |l| ==> l[i] == if k >= 0 then b[i][i + k] else b[i - k][i]
  {
    seq(DiagonalLength(k), i requires 0 <= i < DiagonalLength(k) =>
      if k >= 0 then b[i][i + k] else b[i - k][i])
  }

  /**
   * The diagonals one orientation scans: offset 0, then offsets `i` and `-i` for
   * `i` in `range(1, board.shape[1] - 3)`: the six diagonals of length at
   * least 4, and the diagonal at offset -3, of length 3, which the source
   * scans as well.
   */
  function Diagonals(b: Board): (ls: seq<Line>)
    requires WellFormed(b)
    ensures |ls| == |Offsets| && forall j :: 0 <= j < |Offsets| ==> ls[j] == Diagonal(b, Offsets[j])
  {
    seq(|Offsets|, j requires 0 <= j < |Offsets| => Diagonal(b, Offsets[j]))
  }

  /** The offsets in scanning order. */
  const Offsets: seq<int> := [0, 1, -1, 2, -2, 3, -3]

  /** `np.fliplr(board)`. */
  function Mirror(b: Board): (m: Board)
    requires WellFormed(b)
    ensures WellFormed(m)
    ensures forall r, c :: 0 <= r < Height && 0 <= c < Width ==> m[r][c] == b[r][Width - 1 - c]
  {
    seq(Height, r requires 0 <= r < Height => seq(Width, c requires 0 <= c < Width => b[r][Width - 1 - c]))
  }

  /** `for op in [None, np.fliplr]`: the diagonals of the board, then of its mirror. */
  function ScannedDiagonals(b: Board): (ls: seq<Line>)
    requires WellFormed(b)
    ensures |ls| == 14
  {
    Diagonals(b) + Diagonals(Mirror(b))
  }

  lemma MirrorMirror(b: Board)
    requires WellFormed(b)
    ensures Mirror(Mirror(b)) == b
  {
    assert forall r :: 0 <= r < Height ==> Mirror(Mirror(b))[r] == b[r];
  }

  /** Mirroring reverses every row. */
  lemma RowsOfMirror(b: Board)
    requires WellFormed(b)
    ensures forall r :: 0 <= r < Height ==> Rows(Mirror(b))[r] == Reverse(Rows(b)[r])
  {
  }

  /** Mirroring reverses the order of the columns and keeps each column. */
  lemma ColumnsOfMirror(b: Board)
    requires WellFormed(b)
    ensures forall c :: 0 <= c < Width ==> Columns(Mirror(b))[c] == Columns(b)[Width - 1 - c]
  {
    forall c | 0 <= c < Width
      ensures Columns(Mirror(b))[c] == Columns(b)[Width - 1 - c]
    {
      assert Column(Mirror(b), c) == Column(b, Width - 1 - c);
    }
  }

  /** Mirroring swaps the two diagonal families. */
  lemma ScannedDiagonalsOfMirror(b: Board)
    requires WellFormed(b)
    ensures ScannedDiagonals(Mirror(b)) == Diagonals(Mirror(b)) + Diagonals(b)
  {
    MirrorMirror(b);
  }

  /** Every cell of every line lies in `0..hi`. */
  predicate Bounded(ls: seq<Line>, hi: int) {
    forall j, i :: 0 <= j < |ls| && 0 <= i < |ls[j]| ==> 0 <= ls[j][i] <= hi
  }

  /** The scanned lines hold board cells only, so they share the board's bound on cells. */
  lemma LinesBounded(b: Board, hi: int)
    requires WellFormed(b)
    requires forall r, c :: 0 <= r < Height && 0 <= c < Width ==> b[r][c] <= hi
    ensures Bounded(Rows(b), hi) && Bounded(Columns(b), hi) && Bounded(ScannedDiagonals(b), hi)
  {
    DiagonalsBounded(b, hi);
    DiagonalsBounded(Mirror(b), hi);
  }

  lemma DiagonalsBounded(b: Board, hi: int)
    requires WellFormed(b)
    requires forall r, c :: 0 <= r < Height && 0 <= c < Width ==> b[r][c] <= hi
    ensures Bounded(Diagonals(b), hi)
  {
    forall j, i | 0 <= j < 7 && 0 <= i < |Diagonals(b)[j]|
      ensures 0 <= Diagonals(b)[j][i] <= hi
    {
      assert Diagonals(b)[j] == Diagonal(b, Offsets[j]);
    }
  }
}
