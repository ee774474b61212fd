/**
 * The vertical self check of `terminalEval`. Columns are read top to bottom
 * and the root probe drops its placeholder on top of a column, so the
 * placeholder always sits above the tokens of its column. The self pattern
 * as written, three own tokens followed by the placeholder, puts the
 * placeholder below them and can never match a probed board; the pattern
 * with the placeholder first, the shape of the opponent column pattern,
 * matches exactly when the probe completes a vertical four.
 */
module Vertical {
  import opened Boards
  import opened Lines
  import opened Detector

  /** The self column pattern with the placeholder on top: `'3{0}{0}{0}'` or `'4{0}{0}{0}'`. */
  function IntendedSelfPattern(me: PlayerNumber): (p: Line)
    ensures |p| == 4 && p[0] == Placeholder(me)
    ensures forall k :: 1 <= k < 4 ==> p[k] == me
  {
    var m: int := me;
    [Placeholder(me), m, m, m]
  }

  /**
   * A column window of the probed board that holds the placeholder: it is
   * the cell the drop filled, every other cell keeps a value of at most 2.
   */
  lemma PlaceholderCell(b: Board, me: PlayerNumber, c: nat, j: nat, r: nat)
    requires WellFormed(b) && Ordinary(b) && Settled(b) && c < Width && Legal(b, c)
    requires j < Width && r < Height && Drop(b, c, Placeholder(me))[r][j] == Placeholder(me)
    ensures j == c && r == LowestEmpty(b, c)
  {
    DropFillsLowestEmpty(b, c, Placeholder(me));
  }

  /**
   * As written, the vertical self check never fires on a probed board: the
   * placeholder would need three own tokens above it, where a settled
   * column is empty.
   */
  lemma SelfVerticalNeverFires(b: Board, me: PlayerNumber, c: nat)
    requires WellFormed(b) && Ordinary(b) && Settled(b) && c < Width && Legal(b, c)
    ensures !AnyLine([SelfThreePattern(me)], Columns(Drop(b, c, Placeholder(me))))
  {
    var d := Drop(b, c, Placeholder(me));
    var pat := SelfThreePattern(me);
    var ls := Columns(d);
    DropFillsLowestEmpty(b, c, Placeholder(me));
    AnyLineIff([pat], ls);
    forall j | 0 <= j < Width
      ensures !Occurs(pat, ls[j])
    {
      if Occurs(pat, ls[j]) {
        OccursIsWindow(pat, ls[j]);
        var i :| WindowAt(pat, ls[j], i);
        assert ls[j][i..i + 4][3] == d[i + 3][j];
        assert ls[j][i..i + 4][0] == d[i][j];
        PlaceholderCell(b, me, c, j, i + 3);
        assert false;
      }
    }
  }

  /** The drop lands on three of the engine's own tokens. */
  predicate CompletesVerticalFour(b: Board, me: PlayerNumber, c: nat)
    requires WellFormed(b) && c < Width
  {
    var e := LowestEmpty(b, c);
    0 <= e && e + 3 < Height && b[e + 1][c] == me && b[e + 2][c] == me && b[e + 3][c] == me
  }

  /**
   * With the placeholder first, the column check fires on a probed board
   * exactly when the drop lands on three of the engine's own tokens.
   */
  lemma IntendedVerticalFires(b: Board, me: PlayerNumber, c: nat)
    requires WellFormed(b) && Ordinary(b) && Settled(b) && c < Width && Legal(b, c)
    ensures AnyLine([IntendedSelfPattern(me)], Columns(Drop(b, c, Placeholder(me)))) <==> CompletesVerticalFour(b, me, c)
  {
    var pat := IntendedSelfPattern(me);
    var ls := Columns(Drop(b, c, Placeholder(me)));
    AnyLineIff([pat], ls);
    if AnyLine([pat], ls) {
      var j, k :| 0 <= j < |ls| && 0 <= k < 1 && Occurs([pat][k], ls[j]);
      OccursIsWindow(pat, ls[j]);
      var i :| WindowAt(pat, ls[j], i);
      IntendedMatchIsFour(b, me, c, j, i);
    }
    if CompletesVerticalFour(b, me, c) {
      FourIsIntendedMatch(b, me, c);
    }
  }

  /** A match of the intended pattern is the filled cell over three own tokens. */
  lemma IntendedMatchIsFour(b: Board, me: PlayerNumber, c: nat, j: nat, i: nat)
    requires WellFormed(b) && Ordinary(b) && Settled(b) && c < Width && Legal(b, c) && j < Width
    requires WindowAt(IntendedSelfPattern(me), Columns(Drop(b, c, Placeholder(me)))[j], i)
    ensures CompletesVerticalFour(b, me, c)
  {
    var d := Drop(b, c, Placeholder(me));
    var l := Columns(d)[j];
    var e := LowestEmpty(b, c);
    DropFillsLowestEmpty(b, c, Placeholder(me));
    assert l[i..i + 4][0] == d[i][j];
    PlaceholderCell(b, me, c, j, i);
    assert l[i..i + 4][1] == d[e + 1][c];
    assert l[i..i + 4][2] == d[e + 2][c];
    assert l[i..i + 4][3] == d[e + 3][c];
  }

  /** The filled cell over three own tokens is a match of the intended pattern. */
  lemma FourIsIntendedMatch(b: Board, me: PlayerNumber, c: nat)
    requires WellFormed(b) && Ordinary(b) && Settled(b) && c < Width && Legal(b, c)
    requires CompletesVerticalFour(b, me, c)
    ensures Occurs(IntendedSelfPattern(me), Columns(Drop(b, c, Placeholder(me)))[c])
  {
    var d := Drop(b, c, Placeholder(me));
    var pat := IntendedSelfPattern(me);
    var l := Columns(d)[c];
    var e := LowestEmpty(b, c);
    DropFillsLowestEmpty(b, c, Placeholder(me));
    assert l[e..e + 4] == pat;
    assert WindowAt(pat, l, e);
    OccursIsWindow(pat, l);
  }

  /**
   * `terminalEval` with the intended self column pattern; every other
   * section as in the source.
   */
  predicate IntendedTerminalEval(b: Board, me: PlayerNumber)
    requires WellFormed(b)
  {
    || AnyLine(RowShapePatterns(me), Rows(b))
    || AnyLine(Pattern2(me), Rows(b))
    || AnyLine(OpponentPatterns(me), Rows(b))
    || AnyLine([IntendedSelfPattern(me)], Columns(b))
    || AnyLine([VerticalOpponentPattern(me)], Columns(b))
    || AnyLine(DiagonalPatterns(me), ScannedDiagonals(b))
  }

  /**
   * The intended detector recognises the probe that completes a vertical
   * four of the engine's tokens, and it agrees with the detector as written
   * on every probed board: the self column section as written contributes
   * nothing there.
   */
  lemma IntendedDetectorSeesVerticalWin(b: Board, me: PlayerNumber, c: nat)
    requires WellFormed(b) && Ordinary(b) && Settled(b) && c < Width && Legal(b, c)
    ensures CompletesVerticalFour(b, me, c) ==> IntendedTerminalEval(Drop(b, c, Placeholder(me)), me)
    ensures TerminalEval(Drop(b, c, Placeholder(me)), me) ==> IntendedTerminalEval(Drop(b, c, Placeholder(me)), me)
  {
    IntendedVerticalFires(b, me, c);
    SelfVerticalNeverFires(b, me, c);
  }
}
