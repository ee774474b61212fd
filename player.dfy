/**
 * The players as objects: `AIPlayer` with its scratch board `new_board`,
 * which `update_board` changes in place and every search ply overwrites with
 * a fresh copy of its own board, and `RandomPlayer`'s choice among the legal
 * columns. Each method is proved equal to the function of the search model
 * it implements.
 */
module Player {
  import opened Extended
  import opened Boards
  import opened Lines
  import opened Detector
  import opened Evaluator
  import opened Search

  /** A 6 x 7 board array. */
  predicate Shaped(a: array2<int>) {
    a.Length0 == Height && a.Length1 == Width
  }

  /** The board value an array holds. */
  function Snapshot(a: array2<int>): (b: Board)
    requires Shaped(a)
    reads a
    ensures |b| == Height && forall r :: 0 <= r < Height ==> |b[r]| == Width
    ensures forall r, c :: 0 <= r < Height && 0 <= c < Width ==> b[r][c] == a[r, c]
  {
    seq(Height, r requires 0 <= r < Height reads a => seq(Width, c requires 0 <= c < Width reads a => a[r, c]))
  }

  /** Two boards of the same shape with the same cells are equal. */
  lemma SameCells(a: Board, b: Board)
    requires |a| == Height && forall r :: 0 <= r < Height ==> |a[r]| == Width
    requires |b| == Height && forall r :: 0 <= r < Height ==> |b[r]| == Width
    requires forall r, c :: 0 <= r < Height && 0 <= c < Width ==> a[r][c] == b[r][c]
    ensures a == b
  {
    forall r | 0 <= r < Height
      ensures a[r] == b[r]
    {
      assert forall c :: 0 <= c < Width ==> a[r][c] == b[r][c];
    }
  }

  /** Sequence concatenation is associative. */
  lemma AppendAssoc<T>(x: seq<T>, y: seq<T>, z: seq<T>)
    ensures x + (y + z) == (x + y) + z
  {
  }

  /** `copy.deepcopy(board)`: a fresh array holding the board value `b`. */
  method CopyBoard(b: Board) returns (a: array2<int>)
    requires |b| == Height && forall r :: 0 <= r < Height ==> |b[r]| == Width
    ensures fresh(a) && Shaped(a) && Snapshot(a) == b
  {
    a := new int[Height, Width]((r, c) requires 0 <= r < Height && 0 <= c < Width => b[r][c]);
    SameCells(Snapshot(a), b);
  }

  /**
   * The AI player. `newBoard` is scratch space: each search ply overwrites it
   * with a fresh copy of its own board before playing a column, so after a
   * search it holds whatever the last ply left there. The search methods
   * therefore promise their results and, through their frames, that the
   * caller's board is untouched, and state nothing about `newBoard`.
   */
  class AIPlayer {
    const playerNumber: PlayerNumber
    var newBoard: array2<int>

    /** `__init__`: the scratch board starts as `np.zeros([6, 7])`. */
    constructor (playerNumber: PlayerNumber)
      ensures this.playerNumber == playerNumber
      ensures Shaped(newBoard) && Snapshot(newBoard) == EmptyBoard()
    {
      this.playerNumber := playerNumber;
      var zeros := new int[Height, Width]((r, c) => 0);
      SameCells(Snapshot(zeros), EmptyBoard());
      newBoard := zeros;
    }

    /**
     * `update_board(move, player_num)` on the scratch board: on a column
     * with an empty cell the row scan writes `player_num` into the cell
     * `Drop` selects; on a full column the source raises an exception,
     * which here is `ok == false` with the board untouched.
     */
    method UpdateBoard(move: nat, playerNum: int) returns (ok: bool)
      requires Shaped(newBoard) && WellFormed(Snapshot(newBoard)) && move < Width
      modifies newBoard
      ensures ok == Legal(old(Snapshot(newBoard)), move)
      ensures ok ==> Snapshot(newBoard) == Drop(old(Snapshot(newBoard)), move, playerNum)
      ensures !ok ==> Snapshot(newBoard) == old(Snapshot(newBoard))
    {
      ghost var b := Snapshot(newBoard);
      if !Legal(Snapshot(newBoard), move) {
        return false;
      }
      DropRowOfLegal(b, move);
      DropIsWrite(b, move, playerNum);
      var written := false;
      var row := 1;
      while row < Height && !written
        invariant 1 <= row <= Height
        invariant !written ==> Snapshot(newBoard) == b
        invariant !written ==> DropRowFrom(b, move, row) == DropRow(b, move)
        invariant !written ==> DropFrom(b, move, playerNum, row) == Drop(b, move, playerNum)
        invariant written ==> Snapshot(newBoard) == Drop(b, move, playerNum)
        decreases Height - row, if written then 0 else 1
      {
        var updateRow := -1;
        if newBoard[row, move] > 0 && newBoard[row - 1, move] == 0 {
          updateRow := row - 1;
        } else if row == Height - 1 && newBoard[row, move] == 0 {
          updateRow := row;
        }
        if updateRow >= 0 {
          newBoard[updateRow, move] := playerNum;
          SameCells(Snapshot(newBoard), b[updateRow := b[updateRow][move := playerNum]]);
          written := true;
        } else {
          row := row + 1;
        }
      }
      ok := true;
    }

    /** `terminalEval(board)`: the six sections tried in the source's order. */
    method IsTerminal(board: array2<int>) returns (t: bool)
      requires Shaped(board) && WellFormed(Snapshot(board))
      ensures t == TerminalEval(Snapshot(board), playerNumber)
    {
      var b := Snapshot(board);
      var me := playerNumber;
      t := ScanLines(RowShapePatterns(me), Rows(b));
      if t { return; }
      t := ScanLines(Pattern2(me), Rows(b));
      if t { return; }
      t := ScanLines(OpponentPatterns(me), Rows(b));
      if t { return; }
      t := ScanLines([SelfThreePattern(me)], Columns(b));
      if t { return; }
      t := ScanLines([VerticalOpponentPattern(me)], Columns(b));
      if t { return; }
      t := ScanLines(DiagonalPatterns(me), ScannedDiagonals(b));
    }

    /** `evaluation_function(board)`: rows, then columns, then the scanned diagonals. */
    method EvaluationFunction(board: array2<int>) returns (count: nat)
      requires Shaped(board) && WellFormed(Snapshot(board))
      ensures count == Evaluate(Snapshot(board), playerNumber)
      ensures count <= 18746
    {
      var b := Snapshot(board);
      var rows := ScoreLines(RowWeights(playerNumber), Rows(b));
      var columns := ScoreLines(ColumnWeights(playerNumber), Columns(b));
      var diagonals := ScoreLines(DiagonalWeights(playerNumber), ScannedDiagonals(b));
      count := rows + columns + diagonals;
      EvaluateBound(b, playerNumber);
    }

    /**
     * `self.new_board = copy.deepcopy(board)` followed by
     * `self.update_board(c, p)` on a legal column: the scratch board becomes
     * a fresh board holding the drop.
     */
    method PlayOnCopy(board: Board, c: nat, p: int)
      requires WellFormed(board) && c < Width && Legal(board, c) && 0 <= p <= 9
      modifies this
      ensures fresh(newBoard) && Shaped(newBoard)
      ensures Snapshot(newBoard) == Drop(board, c, p) && WellFormed(Snapshot(newBoard))
    {
      newBoard := CopyBoard(board);
      var ok := UpdateBoard(c, p);
    }

    /**
     * The root probe of `max_val` and `expectimax_val` (Player.py:98-109,
     * 155-165): each legal column in turn receives the placeholder on a copy
     * of the board, and the first one the detector flags is returned.
     */
    method ProbeMoves(board: array2<int>) returns (found: Option<nat>)
      requires Shaped(board) && WellFormed(Snapshot(board))
      modifies this
      ensures found == Probe(old(Snapshot(board)), playerNumber)
    {
      var b := Snapshot(board);
      var i := 0;
      while i < Width
        invariant 0 <= i <= Width
        invariant ProbeFrom(b, playerNumber, i) == Probe(b, playerNumber)
      {
        if Legal(b, i) {
          PlayOnCopy(b, i, playerNumber + 2);
          var t := IsTerminal(newBoard);
          if t {
            return Some(i);
          }
        }
        i := i + 1;
      }
      return None;
    }

    /** `max_val(board, depth, alpha, beta)`. */
    method MaxVal(board: array2<int>, depth: nat, alpha: Ext, beta: Ext) returns (cost: Ext, move: int)
      requires Shaped(board) && WellFormed(Snapshot(board)) && depth <= AlphaBetaCutoff
      modifies this
      ensures (cost, move) == AbMax(old(Snapshot(board)), playerNumber, depth, alpha, beta)
      decreases AlphaBetaCutoff - depth, 3
    {
      var b := Snapshot(board);
      if depth == 0 {
        var found := ProbeMoves(board);
        if found.Some? {
          return NegInf, found.value;
        }
      }
      if depth == AlphaBetaCutoff {
        var e := EvaluationFunction(board);
        return FromInt(e), -1;
      }
      cost, move := MaxColumns(b, depth, alpha, beta);
    }

    /** The column loop of `max_val` (Player.py:114-131). */
    method MaxColumns(b: Board, depth: nat, alpha: Ext, beta: Ext) returns (cost: Ext, move: int)
      requires WellFormed(b) && depth < AlphaBetaCutoff
      modifies this
      ensures (cost, move) == AbMaxLoop(b, playerNumber, depth, alpha, beta, 0, NegInf, -1)
      decreases AlphaBetaCutoff - depth, 2
    {
      move := -1;
      cost := NegInf;
      var a := alpha;
      var i := 0;
      while i < Width
        invariant 0 <= i <= Width
        invariant AbMaxLoop(b, playerNumber, depth, a, beta, i, cost, move) == AbMaxLoop(b, playerNumber, depth, alpha, beta, 0, NegInf, -1)
      {
        if Legal(b, i) {
          var newCost := AbMoveValue(b, depth, a, beta, i);
          if Lt(cost, newCost) {
            move := i;
            cost := newCost;
            if newCost == PosInf {
              return;
            }
          }
          if Le(beta, cost) {
            return;
          }
          a := Max(a, cost);
        }
        i := i + 1;
      }
    }

    /** `min_val(board, depth, alpha, beta)`. */
    method MinVal(board: array2<int>, depth: nat, alpha: Ext, beta: Ext) returns (cost: Ext)
      requires Shaped(board) && WellFormed(Snapshot(board)) && depth <= AlphaBetaCutoff
      modifies this
      ensures cost == AbMin(old(Snapshot(board)), playerNumber, depth, alpha, beta)
      decreases AlphaBetaCutoff - depth, 3
    {
      var b := Snapshot(board);
      if depth == 1 {
        var t := IsTerminal(board);
        if t {
          return PosInf;
        }
      }
      if depth == AlphaBetaCutoff {
        var e := EvaluationFunction(board);
        return FromInt(e);
      }
      cost := MinColumns(b, depth, alpha, beta);
    }

    /** The column loop of `min_val` (Player.py:76-95). */
    method MinColumns(b: Board, depth: nat, alpha: Ext, beta: Ext) returns (cost: Ext)
      requires WellFormed(b) && depth < AlphaBetaCutoff
      modifies this
      ensures cost == AbMinLoop(b, playerNumber, depth, alpha, beta, 0, PosInf)
      decreases AlphaBetaCutoff - depth, 2
    {
      cost := PosInf;
      var bt := beta;
      var i := 0;
      while i < Width
        invariant 0 <= i <= Width
        invariant AbMinLoop(b, playerNumber, depth, alpha, bt, i, cost) == AbMinLoop(b, playerNumber, depth, alpha, beta, 0, PosInf)
      {
        if Legal(b, i) {
          var newCost := AbReplyValue(b, depth, alpha, bt, i);
          ghost var next := if Lt(newCost, cost) then newCost else cost;
          assert AbMinLoop(b, playerNumber, depth, alpha, bt, i, cost)
              == if Le(next, alpha) then next else AbMinLoop(b, playerNumber, depth, alpha, Min(bt, next), i + 1, next);
          if Lt(newCost, cost) {
            cost := newCost;
          }
          if Le(cost, alpha) {
            return;
          }
          bt := Min(bt, cost);
        }
        i := i + 1;
      }
    }

    /** A move of `max_val`'s loop (Player.py:119-122): the engine's token on a copy, then `min_val` one ply deeper. */
    method AbMoveValue(b: Board, depth: nat, alpha: Ext, beta: Ext, c: nat) returns (v: Ext)
      requires WellFormed(b) && depth < AlphaBetaCutoff && c < Width && Legal(b, c)
      modifies this
      ensures v == AbMin(Drop(b, c, playerNumber), playerNumber, depth + 1, alpha, beta)
      decreases AlphaBetaCutoff - depth, 1
    {
      PlayOnCopy(b, c, playerNumber);
      v := MinVal(newBoard, depth + 1, alpha, beta);
    }

    /** A reply of `min_val`'s loop (Player.py:83-89): the opponent's token on a copy, then `max_val` one ply deeper. */
    method AbReplyValue(b: Board, depth: nat, alpha: Ext, beta: Ext, c: nat) returns (v: Ext)
      requires WellFormed(b) && depth < AlphaBetaCutoff && c < Width && Legal(b, c)
      modifies this
      ensures v == AbMax(Drop(b, c, Opponent(playerNumber)), playerNumber, depth + 1, alpha, beta).0
      decreases AlphaBetaCutoff - depth, 1
    {
      PlayOnCopy(b, c, Opponent(playerNumber));
      var move;
      v, move := MaxVal(newBoard, depth + 1, alpha, beta);
    }

    /**
     * `get_alpha_beta_move(board)`: the move of the pruned search, which is
     * the move of plain minimax and either -1 or a legal column.
     */
    method GetAlphaBetaMove(board: array2<int>) returns (move: int)
      requires Shaped(board) && WellFormed(Snapshot(board))
      modifies this
      ensures move == AlphaBetaMove(old(Snapshot(board)), playerNumber)
      ensures move == MinimaxMove(old(Snapshot(board)), playerNumber)
      ensures move == -1 || (0 <= move < Width && Legal(old(Snapshot(board)), move))
    {
      ghost var b := Snapshot(board);
      var v;
      v, move := MaxVal(board, 0, NegInf, PosInf);
      AlphaBetaIsMinimax(b, playerNumber);
      AlphaBetaMoveLegal(b, playerNumber);
    }

    /** `expectimax_val(board, depth, alpha, beta)`. */
    method ExpectimaxVal(board: array2<int>, depth: nat, alpha: Ext, beta: Ext) returns (cost: Ext, move: int)
      requires Shaped(board) && WellFormed(Snapshot(board)) && depth <= ExpectimaxCutoff
      modifies this
      ensures (cost, move) == ExpMax(old(Snapshot(board)), playerNumber, depth, alpha, beta)
      decreases ExpectimaxCutoff - depth, 3
    {
      var b := Snapshot(board);
      if depth == 0 {
        var found := ProbeMoves(board);
        if found.Some? {
          return NegInf, found.value;
        }
      }
      if depth == ExpectimaxCutoff {
        var e := EvaluationFunction(board);
        return FromInt(e), -1;
      }
      cost, move := ExpectimaxColumns(b, depth, alpha, beta);
    }

    /** The column loop of `expectimax_val` (Player.py:167-185). */
    method ExpectimaxColumns(b: Board, depth: nat, alpha: Ext, beta: Ext) returns (cost: Ext, move: int)
      requires WellFormed(b) && depth < ExpectimaxCutoff
      modifies this
      ensures (cost, move) == ExpMaxLoop(b, playerNumber, depth, alpha, beta, 0, NegInf, -1)
      decreases ExpectimaxCutoff - depth, 2
    {
      move := -1;
      cost := NegInf;
      var a := alpha;
      var i := 0;
      while i < Width
        invariant 0 <= i <= Width
        invariant ExpMaxLoop(b, playerNumber, depth, a, beta, i, cost, move) == ExpMaxLoop(b, playerNumber, depth, alpha, beta, 0, NegInf, -1)
      {
        if Legal(b, i) {
          var newCost := ExpMoveValue(b, depth, a, beta, i);
          if Lt(cost, newCost) {
            move := i;
            cost := newCost;
            if newCost == PosInf {
              return;
            }
          }
          if Le(beta, cost) {
            return;
          }
          a := Max(a, cost);
        }
        i := i + 1;
      }
    }

    /**
     * `min_chance(board, depth, alpha, beta)`: every legal reply's value,
     * weighted by one seventh, added to the running `average`.
     */
    method MinChanceVal(board: array2<int>, depth: nat, alpha: Ext, beta: Ext) returns (average: Ext)
      requires Shaped(board) && WellFormed(Snapshot(board)) && depth <= ExpectimaxCutoff
      modifies this
      ensures average == MinChance(old(Snapshot(board)), playerNumber, depth, alpha, beta)
      decreases ExpectimaxCutoff - depth, 3
    {
      var b := Snapshot(board);
      if depth == 1 {
        var t := IsTerminal(board);
        if t {
          return PosInf;
        }
      }
      if depth == ExpectimaxCutoff {
        var e := EvaluationFunction(board);
        return FromInt(e);
      }
      average := ChanceColumns(b, depth, alpha, beta);
    }

    /** The column loop of `min_chance` (Player.py:137-152). */
    method ChanceColumns(b: Board, depth: nat, alpha: Ext, beta: Ext) returns (average: Ext)
      requires WellFormed(b) && depth < ExpectimaxCutoff
      modifies this
      ensures average == MinChanceLoop(b, playerNumber, depth, alpha, beta, 0, Fin(0.0))
      decreases ExpectimaxCutoff - depth, 2
    {
      average := Fin(0.0);
      var i := 0;
      while i < Width
        invariant 0 <= i <= Width && average != PosInf
        invariant MinChanceLoop(b, playerNumber, depth, alpha, beta, i, average) == MinChanceLoop(b, playerNumber, depth, alpha, beta, 0, Fin(0.0))
      {
        if Legal(b, i) {
          var newCost := ExpReplyValue(b, depth, alpha, beta, i);
          average := Add(average, Scale(ReplyWeight(), newCost));
        }
        i := i + 1;
      }
    }

    /** A move of `expectimax_val`'s loop (Player.py:172-175): the engine's token on a copy, then `min_chance`. */
    method ExpMoveValue(b: Board, depth: nat, alpha: Ext, beta: Ext, c: nat) returns (v: Ext)
      requires WellFormed(b) && depth < ExpectimaxCutoff && c < Width && Legal(b, c)
      modifies this
      ensures v == MinChance(Drop(b, c, playerNumber), playerNumber, depth + 1, alpha, beta)
      decreases ExpectimaxCutoff - depth, 1
    {
      PlayOnCopy(b, c, playerNumber);
      v := MinChanceVal(newBoard, depth + 1, alpha, beta);
    }

    /** A reply of `min_chance`'s loop (Player.py:144-151): the opponent's token on a copy, then `expectimax_val`. */
    method ExpReplyValue(b: Board, depth: nat, alpha: Ext, beta: Ext, c: nat) returns (v: Ext)
      requires WellFormed(b) && depth < ExpectimaxCutoff && c < Width && Legal(b, c)
      modifies this
      ensures v == ExpMax(Drop(b, c, Opponent(playerNumber)), playerNumber, depth + 1, alpha, beta).0
      decreases ExpectimaxCutoff - depth, 1
    {
      PlayOnCopy(b, c, Opponent(playerNumber));
      var move;
      v, move := ExpectimaxVal(newBoard, depth + 1, alpha, beta);
    }

    /**
     * `get_expectimax_move(board)`: the move of the windowless expectimax
     * reference, either -1 or a legal column.
     */
    method GetExpectimaxMove(board: array2<int>) returns (move: int)
      requires Shaped(board) && WellFormed(Snapshot(board))
      modifies this
      ensures move == ExpectimaxMove(old(Snapshot(board)), playerNumber)
      ensures move == ExpectiMove(old(Snapshot(board)), playerNumber)
      ensures move == -1 || (0 <= move < Width && Legal(old(Snapshot(board)), move))
    {
      ghost var b := Snapshot(board);
      var v;
      v, move := ExpectimaxVal(board, 0, NegInf, PosInf);
      ExpectimaxIsReference(b, playerNumber);
      ExpectimaxMoveLegal(b, playerNumber);
    }
  }

  class RandomPlayer {
    const playerNumber: PlayerNumber

    constructor (playerNumber: PlayerNumber)
      ensures this.playerNumber == playerNumber
    {
      this.playerNumber := playerNumber;
    }

    /**
     * `get_move(board)`: the legal columns collected in ascending order,
     * then one of them chosen. The random draw is the parameter `pick`; an
     * empty list, on which the source's draw raises an error, gives `None`.
     */
    method GetMove(board: array2<int>, pick: nat) returns (col: Option<nat>)
      requires Shaped(board) && WellFormed(Snapshot(board))
      ensures col.None? <==> forall c :: 0 <= c < Width ==> !Legal(Snapshot(board), c)
      ensures col.Some? ==> 0 <= col.value < Width && Legal(Snapshot(board), col.value)
      ensures col.Some? ==> col.value == LegalColumns(Snapshot(board))[pick % |LegalColumns(Snapshot(board))|]
    {
      var b := Snapshot(board);
      var validCols := ValidColumns(b);
      assert Snapshot(board) == b;
      LegalColumnsComplete(b);
      if |validCols| == 0 {
        return None;
      }
      col := Some(validCols[pick % |validCols|]);
    }

    /** The `valid_cols` loop of `get_move`: every column tested in ascending order. */
    method ValidColumns(b: Board) returns (validCols: seq<nat>)
      requires WellFormed(b)
      ensures validCols == LegalColumns(b)
    {
      validCols := [];
      var c: nat := 0;
      while c < Width
        invariant 0 <= c <= Width
        invariant validCols + LegalColumnsFrom(b, c) == LegalColumns(b)
      {
        if Legal(b, c) {
          AppendAssoc(validCols, [c], LegalColumnsFrom(b, c + 1));
          validCols := validCols + [c];
        }
        c := c + 1;
      }
      assert LegalColumnsFrom(b, c) == [];
    }
  }
}
