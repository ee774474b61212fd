/**
 * The position evaluator `evaluation_function`: every weighted pattern that
 * lies on a line adds its weight, once per line, over rows, columns and both
 * diagonal families.
 */
module Evaluator {
  import opened Boards
  import opened Lines
  import opened Detector

  /** A pattern and the amount `count` grows by when it lies on a line. */
  datatype Weighted = Weighted(pattern: Line, weight: nat)

  /** `pattern1` formatted with `x`: three `x` and one gap. */
  function EvalPattern1(x: int): seq<Line> {
    [[x, x, x, 0], [0, x, x, x], [x, 0, x, x], [x, x, 0, x]]
  }

  /** `'{0}{0}{0}{0}'`: four in a line. */
  function Four(x: int): Line {
    [x, x, x, x]
  }

  /** The evaluator's `pattern5` formatted with `x`. */
  function EvalPattern5(x: int): seq<Line> {
    [[x, x, x, 1], [1, x, x, x], [x, 1, x, x], [x, x, 1, x]]
  }

  /** The evaluator's `pattern6` formatted with `x`. */
  function EvalPattern6(x: int): seq<Line> {
    [[x, x, x, 2], [2, x, x, x], [x, 2, x, x], [x, x, 2, x]]
  }

  /** `pattern5` formatted with the opponent when it is 2, else `pattern6`. */
  function BlockedThrees(me: PlayerNumber): seq<Line> {
    var o: int := Opponent(me);
    if o == 2 then EvalPattern5(o) else EvalPattern6(o)
  }

  /** `pattern7` formatted with the opponent when it is 2, else `pattern8`. */
  function FlankedThree(me: PlayerNumber): Line {
    var o: int := Opponent(me);
    if o == 2 then [1, o, o, o, 1] else [2, o, o, o, 2]
  }

  /** `'1{0}{0}{0}'` or `'2{0}{0}{0}'` with the opponent. */
  function CappedColumn(me: PlayerNumber): Line {
    var o: int := Opponent(me);
    if o == 2 then [1, o, o, o] else [2, o, o, o]
  }

  /** Every shape the opponent-side patterns take: an opponent three with the engine's own token in it or around it. */
  lemma OpponentShapes(me: PlayerNumber)
    ensures var o: int, m: int := Opponent(me), me;
      && BlockedThrees(me) == [[o, o, o, m], [m, o, o, o], [o, m, o, o], [o, o, m, o]]
      && FlankedThree(me) == [m, o, o, o, m]
      && CappedColumn(me) == [m, o, o, o]
  {
  }

  function Weigh(ps: seq<Line>, w: nat): (ws: seq<Weighted>)
    ensures |ws| == |ps| && forall k :: 0 <= k < |ps| ==> ws[k] == Weighted(ps[k], w)
  {
    seq(|ps|, k requires 0 <= k < |ps| => Weighted(ps[k], w))
  }

  /** What each row is scored against, in the source's order (Player.py:322-349). */
  function RowWeights(me: PlayerNumber): seq<Weighted> {
    Weigh(EvalPattern1(me), 8) + [Weighted(Four(me), 300)] + Weigh(BlockedThrees(me), 100)
      + [Weighted(FlankedThree(me), 150)]
  }

  /** What each column is scored against (Player.py:352-369). */
  function ColumnWeights(me: PlayerNumber): seq<Weighted> {
    var m: int := me;
    [Weighted([0, m, m, m], 8), Weighted([0, 0, m, m], 4), Weighted(Four(m), 10),
     Weighted(CappedColumn(me), 100)]
  }

  /** What each scanned diagonal is scored against (Player.py:372-404). */
  function DiagonalWeights(me: PlayerNumber): seq<Weighted> {
    [Weighted(Four(me), 300)] + Weigh(BlockedThrees(me), 150)
  }

  /** The weight a pattern contributes to one line. */
  function Hit(w: Weighted, l: Line): nat {
    if Occurs(w.pattern, l) then w.weight else 0
  }

  /** The points one line earns against a list of weighted patterns. */
  function LineScore(ws: seq<Weighted>, l: Line): nat
    decreases |ws|
  {
    if |ws| == 0 then 0 else LineScore(ws[..|ws| - 1], l) + Hit(ws[|ws| - 1], l)
  }

  /** The points a list of lines earns. */
  function LinesScore(ws: seq<Weighted>, ls: seq<Line>): nat
    decreases |ls|
  {
    if |ls| == 0 then 0 else LinesScore(ws, ls[..|ls| - 1]) + LineScore(ws, ls[|ls| - 1])
  }

  /** `evaluation_function(board)`. */
  function Evaluate(b: Board, me: PlayerNumber): nat
    requires WellFormed(b)
  {
    LinesScore(RowWeights(me), Rows(b)) + LinesScore(ColumnWeights(me), Columns(b))
      + LinesScore(DiagonalWeights(me), ScannedDiagonals(b))
  }

  function TotalWeight(ws: seq<Weighted>): nat
    decreases |ws|
  {
    if |ws| == 0 then 0 else TotalWeight(ws[..|ws| - 1]) + ws[|ws| - 1].weight
  }

  lemma {:induction false} LineScoreBound(ws: seq<Weighted>, l: Line)
    ensures LineScore(ws, l) <= TotalWeight(ws)
    decreases |ws|
  {
    if |ws| > 0 {
      LineScoreBound(ws[..|ws| - 1], l);
    }
  }

  lemma {:induction false} LinesScoreBound(ws: seq<Weighted>, ls: seq<Line>)
    ensures LinesScore(ws, ls) <= |ls| * TotalWeight(ws)
    decreases |ls|
  {
    if |ls| > 0 {
      var n, t := |ls|, TotalWeight(ws);
      LinesScoreBound(ws, ls[..n - 1]);
      LineScoreBound(ws, ls[n - 1]);
      assert (n - 1) * t + t == n * t;
    }
  }

  lemma {:induction false} TotalWeightAppend(a: seq<Weighted>, c: seq<Weighted>)
    ensures TotalWeight(a + c) == TotalWeight(a) + TotalWeight(c)
    decreases |c|
  {
    if |c| == 0 {
      assert a + c == a;
    } else {
      assert (a + c)[..|a + c| - 1] == a + c[..|c| - 1];
      TotalWeightAppend(a, c[..|c| - 1]);
    }
  }

  lemma TotalWeightOfFour(ws: seq<Weighted>)
    requires |ws| == 4
    ensures TotalWeight(ws) == ws[0].weight + ws[1].weight + ws[2].weight + ws[3].weight
  {
    assert ws[..3][..2] == ws[..2];
    assert ws[..2][..1] == ws[..1];
    assert ws[..1][..0] == [];
    assert TotalWeight(ws[..1]) == ws[0].weight;
    assert TotalWeight(ws[..2]) == TotalWeight(ws[..1]) + ws[1].weight;
    assert TotalWeight(ws[..3]) == TotalWeight(ws[..2]) + ws[2].weight;
  }

  /** Row, column and diagonal pattern lists are worth at most 882, 122 and 900 points. */
  lemma TotalWeights(me: PlayerNumber)
    ensures TotalWeight(RowWeights(me)) == 882
    ensures TotalWeight(ColumnWeights(me)) == 122
    ensures TotalWeight(DiagonalWeights(me)) == 900
  {
    var ones := Weigh(EvalPattern1(me), 8);
    var blocked := Weigh(BlockedThrees(me), 100);
    TotalWeightOfFour(ones);
    TotalWeightOfFour(blocked);
    TotalWeightOfFour(Weigh(BlockedThrees(me), 150));
    TotalWeightOfFour(ColumnWeights(me));
    TotalWeightAppend(ones, [Weighted(Four(me), 300)]);
    TotalWeightAppend(ones + [Weighted(Four(me), 300)], blocked);
    TotalWeightAppend(ones + [Weighted(Four(me), 300)] + blocked, [Weighted(FlankedThree(me), 150)]);
    TotalWeightAppend([Weighted(Four(me), 300)], Weigh(BlockedThrees(me), 150));
    assert [Weighted(Four(me), 300)][..0] == [];
    assert [Weighted(FlankedThree(me), 150)][..0] == [];
  }

  /**
   * Each pattern counts at most once per line, so a score never exceeds
   * 6 * 882 + 7 * 122 + 14 * 900.
   */
  lemma EvaluateBound(b: Board, me: PlayerNumber)
    requires WellFormed(b)
    ensures Evaluate(b, me) <= 18746
  {
    TotalWeights(me);
    LinesScoreBound(RowWeights(me), Rows(b));
    LinesScoreBound(ColumnWeights(me), Columns(b));
    LinesScoreBound(DiagonalWeights(me), ScannedDiagonals(b));
  }

  /** Every pattern holds a player's token. */
  predicate AllHoldToken(ws: seq<Weighted>) {
    forall k :: 0 <= k < |ws| ==> 1 in ws[k].pattern || 2 in ws[k].pattern
  }

  lemma {:induction false} BlankLineScoresZero(ws: seq<Weighted>, l: Line)
    requires AllHoldToken(ws) && forall i :: 0 <= i < |l| ==> l[i] == 0
    ensures LineScore(ws, l) == 0
    decreases |ws|
  {
    if |ws| > 0 {
      BlankLineScoresZero(ws[..|ws| - 1], l);
      var w := ws[|ws| - 1];
      if Occurs(w.pattern, l) {
        OccursValues(w.pattern, l);
        assert false;
      }
    }
  }

  lemma {:induction false} BlankLinesScoreZero(ws: seq<Weighted>, ls: seq<Line>)
    requires AllHoldToken(ws) && Bounded(ls, 0)
    ensures LinesScore(ws, ls) == 0
    decreases |ls|
  {
    if |ls| > 0 {
      BlankLinesScoreZero(ws, ls[..|ls| - 1]);
      BlankLineScoresZero(ws, ls[|ls| - 1]);
    }
  }

  /** The empty board scores 0 for either player. */
  lemma EvaluateEmpty(me: PlayerNumber)
    ensures Evaluate(EmptyBoard(), me) == 0
  {
    var b := EmptyBoard();
    LinesBounded(b, 0);
    RowWeightsHoldTokens(me);
    ColumnWeightsHoldTokens(me);
    DiagonalWeightsHoldTokens(me);
    BlankLinesScoreZero(RowWeights(me), Rows(b));
    BlankLinesScoreZero(ColumnWeights(me), Columns(b));
    BlankLinesScoreZero(DiagonalWeights(me), ScannedDiagonals(b));
  }

  /** Every weighted row pattern holds a token 1 or 2. */
  lemma RowWeightsHoldTokens(me: PlayerNumber)
    ensures AllHoldToken(RowWeights(me))
  {
  }

  /** Every weighted column pattern holds a token 1 or 2. */
  lemma ColumnWeightsHoldTokens(me: PlayerNumber)
    ensures AllHoldToken(ColumnWeights(me))
  {
  }

  /** Every weighted diagonal pattern holds a token 1 or 2. */
  lemma DiagonalWeightsHoldTokens(me: PlayerNumber)
    ensures AllHoldToken(DiagonalWeights(me))
  {
  }

  lemma {:induction false} LineScoreAppend(a: seq<Weighted>, c: seq<Weighted>, l: Line)
    ensures LineScore(a + c, l) == LineScore(a, l) + LineScore(c, l)
    decreases |c|
  {
    if |c| == 0 {
      assert a + c == a;
    } else {
      assert (a + c)[..|a + c| - 1] == a + c[..|c| - 1];
      LineScoreAppend(a, c[..|c| - 1], l);
    }
  }

  /** The score of a line does not depend on the order of the patterns. */
  lemma {:induction false} LineScorePermutation(ws: seq<Weighted>, vs: seq<Weighted>, l: Line)
    requires multiset(ws) == multiset(vs)
    ensures LineScore(ws, l) == LineScore(vs, l)
    decreases |ws|
  {
    if |ws| > 0 {
      var n := |ws| - 1;
      var x := ws[n];
      assert x in multiset(ws);
      var i :| 0 <= i < |vs| && vs[i] == x;
      RemoveLast(ws, vs, i);
      LineScorePermutation(ws[..n], vs[..i] + vs[i + 1..], l);
      LineScoreWithout(vs, i, l);
    }
  }

  /** The score against `vs` is the score without entry `i` plus that entry's hit. */
  lemma LineScoreWithout(vs: seq<Weighted>, i: nat, l: Line)
    requires i < |vs|
    ensures LineScore(vs, l) == LineScore(vs[..i] + vs[i + 1..], l) + Hit(vs[i], l)
  {
    var x := vs[i];
    assert vs == (vs[..i] + [x]) + vs[i + 1..];
    LineScoreAppend(vs[..i] + [x], vs[i + 1..], l);
    LineScoreAppend(vs[..i], [x], l);
    LineScoreAppend(vs[..i], vs[i + 1..], l);
    assert LineScore([x], l) == Hit(x, l) by {
      assert [x][..0] == [];
    }
  }

  /** Taking the last entry of `ws` and an equal entry of `vs` out of two equal multisets leaves equal multisets. */
  lemma RemoveLast<T>(ws: seq<T>, vs: seq<T>, i: nat)
    requires multiset(ws) == multiset(vs) && 0 < |ws| && i < |vs| && vs[i] == ws[|ws| - 1]
    ensures multiset(vs[..i] + vs[i + 1..]) == multiset(ws[..|ws| - 1])
  {
    var n, x := |ws| - 1, vs[i];
    assert ws == ws[..n] + [x];
    assert vs == vs[..i] + [x] + vs[i + 1..];
    assert multiset(ws) == multiset(ws[..n]) + multiset{x};
    assert multiset(vs) == multiset(vs[..i]) + multiset{x} + multiset(vs[i + 1..]);
    forall y
      ensures multiset(vs[..i] + vs[i + 1..])[y] == multiset(ws[..n])[y]
    {
      assert multiset(ws)[y] == multiset(ws[..n])[y] + multiset{x}[y];
      assert multiset(vs)[y] == multiset(vs[..i])[y] + multiset{x}[y] + multiset(vs[i + 1..])[y];
    }
  }

  /** Each pattern reversed, weights kept. */
  function ReversePatterns(ws: seq<Weighted>): (rs: seq<Weighted>)
    ensures |rs| == |ws|
    ensures forall k :: 0 <= k < |ws| ==> rs[k] == Weighted(Reverse(ws[k].pattern), ws[k].weight)
  {
    seq(|ws|, k requires 0 <= k < |ws| => Weighted(Reverse(ws[k].pattern), ws[k].weight))
  }

  /** Matching the patterns on a reversed line is matching the reversed patterns on the line. */
  lemma {:induction false} LineScoreReverse(ws: seq<Weighted>, l: Line)
    ensures LineScore(ws, Reverse(l)) == LineScore(ReversePatterns(ws), l)
    decreases |ws|
  {
    if |ws| > 0 {
      var n := |ws| - 1;
      assert ReversePatterns(ws)[..n] == ReversePatterns(ws[..n]);
      LineScoreReverse(ws[..n], l);
      var p := ws[n].pattern;
      OccursReverse(Reverse(p), l);
      ReverseReverse(p);
    }
  }

  /** Reversing the patterns of a concatenation reverses each part. */
  lemma ReversePatternsAppend(a: seq<Weighted>, c: seq<Weighted>)
    ensures ReversePatterns(a + c) == ReversePatterns(a) + ReversePatterns(c)
  {
  }

  /** Four patterns that reverse into one another in pairs: 0 with 1 and 2 with 3. */
  lemma ReversePairs(ws: seq<Weighted>)
    requires |ws| == 4 && ws[0].weight == ws[1].weight && ws[2].weight == ws[3].weight
    requires Reverse(ws[0].pattern) == ws[1].pattern && Reverse(ws[1].pattern) == ws[0].pattern
    requires Reverse(ws[2].pattern) == ws[3].pattern && Reverse(ws[3].pattern) == ws[2].pattern
    ensures multiset(ReversePatterns(ws)) == multiset(ws)
  {
    var rs := ReversePatterns(ws);
    assert rs[0] == ws[1] && rs[1] == ws[0] && rs[2] == ws[3] && rs[3] == ws[2];
    assert rs == [ws[1], ws[0], ws[3], ws[2]];
    assert ws == [ws[0], ws[1], ws[2], ws[3]];
    SwapPairs(ws[0], ws[1], ws[2], ws[3]);
  }

  /** Swapping the two members of each of two pairs keeps the multiset. */
  lemma SwapPairs<T>(a: T, b: T, c: T, d: T)
    ensures multiset([b, a, d, c]) == multiset([a, b, c, d])
  {
  }

  /** Reversing every row pattern gives the same list of weighted patterns, reordered. */
  lemma RowWeightsMirrorClosed(me: PlayerNumber)
    ensures multiset(ReversePatterns(RowWeights(me))) == multiset(RowWeights(me))
  {
    var m: int, o: int := me, Opponent(me);
    OpponentShapes(me);
    var ones := Weigh(EvalPattern1(me), 8);
    var four := [Weighted(Four(me), 300)];
    var blocked := Weigh(BlockedThrees(me), 100);
    var flanked := [Weighted(FlankedThree(me), 150)];
    assert EvalPattern1(me) == ThreeShapes(m, 0);
    ThreeShapesMirrorClosed(m, 0, 8);
    assert BlockedThrees(me) == ThreeShapes(o, m);
    ThreeShapesMirrorClosed(o, m, 100);
    assert Reverse(Four(m)) == Four(m);
    assert ReversePatterns(four) == four;
    assert Reverse([m, o, o, o, m]) == [m, o, o, o, m];
    assert ReversePatterns(flanked) == flanked;
    ReversePatternsAppend(ones, four);
    ReversePatternsAppend(ones + four, blocked);
    ReversePatternsAppend(ones + four + blocked, flanked);
  }

  /** The four ways of placing one `y` among three `x`, in the order both pattern lists use. */
  function ThreeShapes(x: int, y: int): seq<Line> {
    [[x, x, x, y], [y, x, x, x], [x, y, x, x], [x, x, y, x]]
  }

  lemma ThreeShapesMirrorClosed(x: int, y: int, w: nat)
    ensures multiset(ReversePatterns(Weigh(ThreeShapes(x, y), w))) == multiset(Weigh(ThreeShapes(x, y), w))
  {
    assert Reverse([x, x, x, y]) == [y, x, x, x];
    assert Reverse([y, x, x, x]) == [x, x, x, y];
    assert Reverse([x, y, x, x]) == [x, x, y, x];
    assert Reverse([x, x, y, x]) == [x, y, x, x];
    ReversePairs(Weigh(ThreeShapes(x, y), w));
  }

  lemma {:induction false} LinesScoreAppend(ws: seq<Weighted>, a: seq<Line>, c: seq<Line>)
    ensures LinesScore(ws, a + c) == LinesScore(ws, a) + LinesScore(ws, c)
    decreases |c|
  {
    if |c| == 0 {
      assert a + c == a;
    } else {
      assert (a + c)[..|a + c| - 1] == a + c[..|c| - 1];
      LinesScoreAppend(ws, a, c[..|c| - 1]);
    }
  }

  lemma {:induction false} LinesScorePointwise(ws: seq<Weighted>, ls: seq<Line>, ms: seq<Line>)
    requires |ls| == |ms| && forall j :: 0 <= j < |ls| ==> LineScore(ws, ls[j]) == LineScore(ws, ms[j])
    ensures LinesScore(ws, ls) == LinesScore(ws, ms)
    decreases |ls|
  {
    if |ls| > 0 {
      LinesScorePointwise(ws, ls[..|ls| - 1], ms[..|ms| - 1]);
    }
  }

  /** The score of a list of lines does not depend on their order, read backwards. */
  lemma {:induction false} LinesScoreBackwards(ws: seq<Weighted>, ls: seq<Line>)
    ensures LinesScore(ws, seq(|ls|, j requires 0 <= j < |ls| => ls[|ls| - 1 - j])) == LinesScore(ws, ls)
    decreases |ls|
  {
    if |ls| > 0 {
      var n := |ls| - 1;
      var back := seq(|ls|, j requires 0 <= j < |ls| => ls[|ls| - 1 - j]);
      var rest := seq(n, j requires 0 <= j < n => ls[..n][n - 1 - j]);
      assert back == [ls[n]] + rest;
      LinesScoreBackwards(ws, ls[..n]);
      LinesScoreAppend(ws, [ls[n]], rest);
      assert LinesScore(ws, [ls[n]]) == LineScore(ws, ls[n]) by {
        assert [ls[n]][..0] == [];
      }
    }
  }

  /** Left-right mirroring leaves the score unchanged. */
  lemma EvaluateMirror(b: Board, me: PlayerNumber)
    requires WellFormed(b)
    ensures Evaluate(Mirror(b), me) == Evaluate(b, me)
  {
    RowsScoreMirror(b, me);
    ColumnsScoreMirror(b, me);
    DiagonalsScoreMirror(b, me);
  }

  /** Each row is reversed, and the row patterns are closed under reversal. */
  lemma RowsScoreMirror(b: Board, me: PlayerNumber)
    requires WellFormed(b)
    ensures LinesScore(RowWeights(me), Rows(Mirror(b))) == LinesScore(RowWeights(me), Rows(b))
  {
    var m := Mirror(b);
    RowsOfMirror(b);
    RowWeightsMirrorClosed(me);
    forall r | 0 <= r < Height
      ensures LineScore(RowWeights(me), Rows(m)[r]) == LineScore(RowWeights(me), Rows(b)[r])
    {
      LineScoreReverse(RowWeights(me), b[r]);
      LineScorePermutation(ReversePatterns(RowWeights(me)), RowWeights(me), b[r]);
    }
    LinesScorePointwise(RowWeights(me), Rows(m), Rows(b));
  }

  /** The mirror has the same columns, in reverse order. */
  lemma ColumnsScoreMirror(b: Board, me: PlayerNumber)
    requires WellFormed(b)
    ensures LinesScore(ColumnWeights(me), Columns(Mirror(b))) == LinesScore(ColumnWeights(me), Columns(b))
  {
    ColumnsOfMirror(b);
    var cs := Columns(b);
    assert Columns(Mirror(b)) == seq(|cs|, j requires 0 <= j < |cs| => cs[|cs| - 1 - j]);
    LinesScoreBackwards(ColumnWeights(me), cs);
  }

  /** The two diagonal families trade places. */
  lemma DiagonalsScoreMirror(b: Board, me: PlayerNumber)
    requires WellFormed(b)
    ensures LinesScore(DiagonalWeights(me), ScannedDiagonals(Mirror(b))) == LinesScore(DiagonalWeights(me), ScannedDiagonals(b))
  {
    var m := Mirror(b);
    ScannedDiagonalsOfMirror(b);
    LinesScoreAppend(DiagonalWeights(me), Diagonals(m), Diagonals(b));
    LinesScoreAppend(DiagonalWeights(me), Diagonals(b), Diagonals(m));
  }

  /**
   * `for row in lines: for w in weights: if w.pattern in to_str(row): count += w.weight`,
   * the loop shape of each section of `evaluation_function`.
   */
  method ScoreLines(ws: seq<Weighted>, ls: seq<Line>) returns (count: nat)
    ensures count == LinesScore(ws, ls)
  {
    count := 0;
    var j := 0;
    while j < |ls|
      invariant 0 <= j <= |ls|
      invariant count == LinesScore(ws, ls[..j])
    {
      var k := 0;
      var lineCount := count;
      while k < |ws|
        invariant 0 <= k <= |ws|
        invariant count == lineCount + LineScore(ws[..k], ls[j])
      {
        if Occurs(ws[k].pattern, ls[j]) {
          count := count + ws[k].weight;
        }
        assert ws[..k + 1][..k] == ws[..k];
        k := k + 1;
      }
      assert ws[..|ws|] == ws;
      assert ls[..j + 1][..j] == ls[..j];
      j := j + 1;
    }
    assert ls[..|ls|] == ls;
  }
}
