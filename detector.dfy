/**
 * The threat/terminal detector `terminalEval`: a catalogue of short patterns
 * searched as substrings of every row, column and scanned diagonal. Cells 3 and
 * 4 are the placeholders the root probe drops for player 1 and player 2.
 */
module Detector {
  import opened Boards
  import opened Lines

  /** `player_number`: the engine plays as player 1 or player 2. */
  type PlayerNumber = p: int | p == 1 || p == 2 witness 1

  /** `player2`, the other player (Player.py:194-197). */
  function Opponent(me: PlayerNumber): (o: PlayerNumber)
    ensures o != me
  {
    if me == 1 then 2 else 1
  }

  /** The token the root probe drops, `player_number + 2`. */
  function Placeholder(me: PlayerNumber): int {
    me + 2
  }

  /** `pattern5` formatted with `x`: three `x` and the placeholder 3. */
  function Pattern5(x: int): seq<Line> {
    [[x, x, x, 3], [3, x, x, x], [x, 3, x, x], [x, x, 3, x]]
  }

  /** `pattern6` formatted with `x`: three `x` and the placeholder 4. */
  function Pattern6(x: int): seq<Line> {
    [[x, x, x, 4], [4, x, x, x], [x, 4, x, x], [x, x, 4, x]]
  }

  /** `pattern2` formatted with `x`. */
  function Pattern2(x: int): seq<Line> {
    [[x, x, x, 3], [x, x, x, 4], [3, x, x, x], [x, 3, x, x],
     [x, x, 3, x], [x, x, 4, x], [x, 4, x, x], [4, x, x, x]]
  }

  const Pattern8: seq<Line> := [[3, 0, 2, 2, 0], [0, 3, 2, 2, 0], [0, 0, 2, 2, 3]]
  const Pattern9: seq<Line> := [[4, 0, 1, 1, 0], [0, 4, 1, 1, 0], [0, 0, 1, 1, 4]]

  /** The first row section: `pattern8` when the opponent is 2, else `pattern9`. */
  function RowShapePatterns(me: PlayerNumber): seq<Line> {
    if Opponent(me) == 2 then Pattern8 else Pattern9
  }

  /** `pattern5` or `pattern6` formatted with the opponent's number. */
  function OpponentPatterns(me: PlayerNumber): seq<Line> {
    var o := Opponent(me);
    if o == 2 then Pattern5(o) else Pattern6(o)
  }

  /** The self pattern of columns and diagonals: `'{0}{0}{0}3'` or `'{0}{0}{0}4'` with `player_number`. */
  function SelfThreePattern(me: PlayerNumber): Line {
    var m: int := me;
    if Opponent(me) == 2 then [m, m, m, 3] else [m, m, m, 4]
  }

  /** The opponent pattern of columns: `'3{0}{0}{0}'` or `'4{0}{0}{0}'` with the opponent's number. */
  function VerticalOpponentPattern(me: PlayerNumber): Line {
    var o: int := Opponent(me);
    if o == 2 then [3, o, o, o] else [4, o, o, o]
  }

  /** The patterns tried on each scanned diagonal, in order. */
  function DiagonalPatterns(me: PlayerNumber): seq<Line> {
    [SelfThreePattern(me)] + OpponentPatterns(me)
  }

  /** Some pattern of `ps` from index `k` on lies on `l`. */
  predicate AnyInFrom(ps: seq<Line>, l: Line, k: nat)
    decreases |ps| - k
  {
    k < |ps| && (Occurs(ps[k], l) || AnyInFrom(ps, l, k + 1))
  }

  predicate AnyIn(ps: seq<Line>, l: Line) {
    AnyInFrom(ps, l, 0)
  }

  /** Some pattern of `ps` lies on some line of `ls` from index `j` on. */
  predicate AnyLineFrom(ps: seq<Line>, ls: seq<Line>, j: nat)
    decreases |ls| - j
  {
    j < |ls| && (AnyIn(ps, ls[j]) || AnyLineFrom(ps, ls, j + 1))
  }

  predicate AnyLine(ps: seq<Line>, ls: seq<Line>) {
    AnyLineFrom(ps, ls, 0)
  }

  lemma {:induction false} AnyInFromIff(ps: seq<Line>, l: Line, k: nat)
    ensures AnyInFrom(ps, l, k) <==> exists k' :: k <= k' < |ps| && Occurs(ps[k'], l)
    decreases |ps| - k
  {
    if k < |ps| {
      AnyInFromIff(ps, l, k + 1);
    }
  }

  lemma {:induction false} AnyLineFromIff(ps: seq<Line>, ls: seq<Line>, j: nat)
    ensures AnyLineFrom(ps, ls, j) <==> exists j', k :: j <= j' < |ls| && 0 <= k < |ps| && Occurs(ps[k], ls[j'])
    decreases |ls| - j
  {
    if j < |ls| {
      AnyInFromIff(ps, ls[j], 0);
      AnyLineFromIff(ps, ls, j + 1);
    }
  }

  /** The scan over lines and patterns finds a match exactly when one exists. */
  lemma AnyLineIff(ps: seq<Line>, ls: seq<Line>)
    ensures AnyLine(ps, ls) <==> exists j, k :: 0 <= j < |ls| && 0 <= k < |ps| && Occurs(ps[k], ls[j])
  {
    AnyLineFromIff(ps, ls, 0);
  }

  /**
   * `terminalEval(board)`: true when some catalogue pattern lies on some line,
   * section by section as the source tries them (Player.py:199-287).
   */
  predicate TerminalEval(b: Board, me: PlayerNumber)
    requires WellFormed(b)
  {
    || AnyLine(RowShapePatterns(me), Rows(b))
    || AnyLine(Pattern2(me), Rows(b))
    || AnyLine(OpponentPatterns(me), Rows(b))
    || AnyLine([SelfThreePattern(me)], Columns(b))
    || AnyLine([VerticalOpponentPattern(me)], Columns(b))
    || AnyLine(DiagonalPatterns(me), ScannedDiagonals(b))
  }

  /** A catalogue whose every pattern holds a placeholder 3 or 4. */
  predicate AllHoldPlaceholder(ps: seq<Line>) {
    forall k :: 0 <= k < |ps| ==> 3 in ps[k] || 4 in ps[k]
  }

  /** Every entry of the detector's catalogue holds a placeholder. */
  lemma CatalogueHoldsPlaceholders(me: PlayerNumber)
    ensures AllHoldPlaceholder(RowShapePatterns(me)) && AllHoldPlaceholder(Pattern2(me))
    ensures AllHoldPlaceholder(OpponentPatterns(me)) && AllHoldPlaceholder([SelfThreePattern(me)])
    ensures AllHoldPlaceholder([VerticalOpponentPattern(me)]) && AllHoldPlaceholder(DiagonalPatterns(me))
  {
    RowCatalogueHolds(me);
    ColumnCatalogueHolds(me);
    DiagonalCatalogueHolds(me);
  }

  /** The row sections of the catalogue hold placeholders. */
  lemma RowCatalogueHolds(me: PlayerNumber)
    ensures AllHoldPlaceholder(RowShapePatterns(me)) && AllHoldPlaceholder(Pattern2(me))
    ensures AllHoldPlaceholder(OpponentPatterns(me))
  {
    RowShapeHolds(me);
    Pattern2Holds(me);
    OpponentRowHolds(me);
  }

  /** The pattern-5 and pattern-6 row shapes hold placeholders. */
  lemma RowShapeHolds(me: PlayerNumber)
    ensures AllHoldPlaceholder(RowShapePatterns(me))
  {
  }

  /** The `pattern2` row shapes hold placeholders. */
  lemma Pattern2Holds(x: int)
    ensures AllHoldPlaceholder(Pattern2(x))
  {
  }

  /** The opponent row shapes hold placeholders. */
  lemma OpponentRowHolds(me: PlayerNumber)
    ensures AllHoldPlaceholder(OpponentPatterns(me))
  {
  }

  /** The two column patterns hold placeholders. */
  lemma ColumnCatalogueHolds(me: PlayerNumber)
    ensures AllHoldPlaceholder([SelfThreePattern(me)]) && AllHoldPlaceholder([VerticalOpponentPattern(me)])
  {
  }

  /** The diagonal patterns hold placeholders. */
  lemma DiagonalCatalogueHolds(me: PlayerNumber)
    ensures AllHoldPlaceholder(DiagonalPatterns(me))
  {
  }

  /** Lines of cells 0..2 match no pattern that holds a placeholder. */
  lemma NoPlaceholderNoMatch(ps: seq<Line>, ls: seq<Line>)
    requires AllHoldPlaceholder(ps) && Bounded(ls, 2)
    ensures !AnyLine(ps, ls)
  {
    AnyLineIff(ps, ls);
    forall j, k | 0 <= j < |ls| && 0 <= k < |ps|
      ensures !Occurs(ps[k], ls[j])
    {
      if Occurs(ps[k], ls[j]) {
        OccursValues(ps[k], ls[j]);
        assert false;
      }
    }
  }

  /**
   * Every catalogue entry holds a placeholder, so on a board with only empty
   * cells and the two players' tokens the detector never fires: the depth-1
   * terminal checks of both searches are inert on such boards.
   */
  lemma DeadOnOrdinary(b: Board, me: PlayerNumber)
    requires WellFormed(b) && Ordinary(b)
    ensures !TerminalEval(b, me)
  {
    LinesBounded(b, 2);
    CatalogueHoldsPlaceholders(me);
    NoPlaceholderNoMatch(RowShapePatterns(me), Rows(b));
    NoPlaceholderNoMatch(Pattern2(me), Rows(b));
    NoPlaceholderNoMatch(OpponentPatterns(me), Rows(b));
    NoPlaceholderNoMatch([SelfThreePattern(me)], Columns(b));
    NoPlaceholderNoMatch([VerticalOpponentPattern(me)], Columns(b));
    NoPlaceholderNoMatch(DiagonalPatterns(me), ScannedDiagonals(b));
  }

  /**
   * `for row in lines: for i in patterns: if i in to_str(row): return True`,
   * followed by `return False`.
   */
  method ScanLines(ps: seq<Line>, ls: seq<Line>) returns (found: bool)
    ensures found <==> exists j, k :: 0 <= j < |ls| && 0 <= k < |ps| && Occurs(ps[k], ls[j])
    ensures found == AnyLine(ps, ls)
  {
    AnyLineIff(ps, ls);
    var j := 0;
    while j < |ls|
      invariant 0 <= j <= |ls|
      invariant AnyLine(ps, ls) == AnyLineFrom(ps, ls, j)
    {
      var k := 0;
      while k < |ps|
        invariant 0 <= k <= |ps|
        invariant AnyIn(ps, ls[j]) == AnyInFrom(ps, ls[j], k)
      {
        if Occurs(ps[k], ls[j]) {
          return true;
        }
        k := k + 1;
      }
      j := j + 1;
    }
    return false;
  }
}
