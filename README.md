# Connect-Four AI player, modelled in Dafny

This project models the engine of a Connect-Four player (`Player.py`). The
board is 6 rows by 7 columns; row 0 is the top, 0 is an empty cell and 1 or 2
is a player's token. The project models:

- the gravity drop `update_board` and the legal-column test;
- the threat detector `terminalEval`, which matches digit strings on rows,
  columns and diagonals;
- the pattern-counting heuristic `evaluation_function`;
- the alpha-beta search `max_val` / `min_val`, with the cutoff at ply 5 and
  the ply-0 probe, which drops a placeholder (3 for player 1, 4 for player 2)
  in each legal column and asks `terminalEval` about the result, and `get_alpha_beta_move`;
- the expectimax search `expectimax_val` / `min_chance`, with the cutoff at
  ply 4 and the same probe, and `get_expectimax_move`;
- `RandomPlayer.get_move`, which picks among the legal columns.

The project has two layers:

- **Value layer** (modules `Extended`, `Boards`, `Lines`, `Detector`,
  `Evaluator`, `Search`, `Vertical`). Boards are `seq<seq<int>>`. Search
  values are `Ext`: `-inf`, an exact real, or `inf`, with Python's
  first-argument tie rule for `max` and `min`. Every loop of the source is a
  recursive function over its loop index: the search loops resume at a
  column, the `update_board` loop at a row, and the detector's loops at a
  line and a pattern; the evaluator's sums recurse over the prefixes of its
  line and pattern lists. Each search is proved to agree with a
  reference definition that does not prune:
  - alpha-beta against plain minimax, through the fail-soft window property;
  - expectimax against a windowless expectation.
- **Object layer** (module `Player`):
  - class `AIPlayer` holds the scratch board `newBoard: array2<int>`;
  - `UpdateBoard` writes that board in place;
  - the search plies copy their board into it, as `copy.deepcopy` does;
  - each loop is a `while` loop proved equal to its function in `Search`;
  - class `RandomPlayer` keeps the `valid_cols` loop.

## Model

| member | source | states |
|---|---|---|
| Extended.Max | Player.py:123-130 | the update `if new_cost > cost: cost = new_cost`, and `alpha = max(alpha, cost)`: an upper bound of both, one of them, and the second only when strictly greater |
| Extended.Min | Player.py:87-94 | the update `if new_cost < cost: cost = new_cost`, and `beta = min(beta, cost)`: a lower bound of both, one of them, and the second only when strictly smaller |
| Extended.ScaleAdd | Player.py:151 | `1/size * (x + y)` equals `1/size * x + 1/size * y` on search values, infinities included |
| Boards.LegalColumnsFrom | Player.py:448-451 | the collected columns are exactly the legal columns from `c` on: every entry is legal and in range, and every legal column is present |
| Boards.LegalColumnsAscending | Player.py:448-451 | `valid_cols` is strictly ascending, so each legal column appears once |
| Boards.Drop | Player.py:407-419 | a legal drop keeps the board's shape and cell range and changes nothing outside the played column's empty cells |
| Boards.DropRowOfLegal | Player.py:408-416 | on a column holding an empty cell, the row scan always selects a row |
| Boards.DropFillsLowestEmpty | Player.py:407-419 | the drop writes the player into the lowest empty cell of the column and nowhere else, and a settled board stays settled |
| Boards.DropFillsOneCell | Player.py:407-419 | a drop fills exactly one empty cell |
| Boards.DropKeepsOrdinary | Player.py:407-419 | a player's drop on a board of 0, 1 and 2 leaves a board of 0, 1 and 2 |
| Lines.OccursIsWindow | Player.py:198-204 | `pattern_str in to_str(line)` holds exactly when the digits appear as a contiguous window of the line |
| Lines.OccursReverse | Player.py:247-286 | a pattern occurs in a line exactly when its reverse occurs in the reversed line |
| Lines.ScannedDiagonalsOfMirror | Player.py:247-270 | the diagonals scanned with `np.fliplr` are those of the mirrored board, so mirroring swaps the two halves of the scan |
| Detector.AnyLineIff | Player.py:200-226 | a section of `terminalEval` fires exactly when some pattern occurs in some line |
| Detector.ScanLines | Player.py:200-226 | the nested `for` loops of a section return True exactly when some pattern occurs in some line |
| Detector.CatalogueHoldsPlaceholders | Player.py:189-193 | every pattern `terminalEval` looks for holds the placeholder 3 or 4 |
| Detector.DeadOnOrdinary | Player.py:187-287 | on a board of only 0, 1 and 2 the detector never fires |
| Evaluator.ScoreLines | Player.py:321-349 | the loops over lines and patterns add up exactly the weights of the patterns that occur |
| Evaluator.TotalWeights | Player.py:312-404 | the weights one row, column or diagonal can earn add up to 882, 122 and 900 |
| Evaluator.EvaluateBound | Player.py:289-405 | the heuristic never exceeds 18746 |
| Evaluator.EvaluateEmpty | Player.py:289-405 | the empty board scores 0 for either player |
| Evaluator.LineScorePermutation | Player.py:321-349 | the score of a line does not depend on the order in which the patterns are tried |
| Evaluator.RowWeightsMirrorClosed | Player.py:312-349 | reversing every row pattern reorders the weighted row catalogue |
| Evaluator.EvaluateMirror | Player.py:289-405 | the heuristic gives a board and its mirror image the same score |
| Search.ProbeFrom | Player.py:98-109 | the probe returns the lowest legal column whose placeholder drop the detector flags, and the detector flags no legal column before it |
| Search.AbMaxSound | Player.py:97-131 | `max_val` below the root is fail-soft alpha-beta: above the window it is at most the minimax value, below it at least, inside it equal |
| Search.AbMinSound | Player.py:71-95 | the same fail-soft property for `min_val` |
| Search.AbRootLoop | Player.py:111-131 | at the root each child's pruned result beats the best so far exactly when its minimax value does, so the root loop is a first-maximum scan of the minimax values |
| Search.AlphaBetaIsMinimax | Player.py:13-40 | `get_alpha_beta_move` returns the move of plain minimax: the probe's column, else the first column of largest minimax value |
| Search.AlphaBetaMoveLegal | Player.py:13-40 | the alpha-beta move is -1 or a legal column; it is -1 exactly when the probe finds nothing and every legal move is worth `-inf` |
| Search.AlphaBetaMoveLegalWhenRoomy | Player.py:97-131 | with at least five empty cells the alpha-beta move is a legal column |
| Search.ShallowRootChild | Player.py:71-131 | on a board of 0, 1 and 2 that is too full to reach the cutoff, a reply ply is worth `-inf` or `inf`, depending on the parity of the empty cells |
| Search.AlphaBetaGivesUp | Player.py:13-40 | as written: with two or four empty cells and no probe hit, the move is -1 although a legal column exists |
| Search.GuardedAlphaBetaMove | Player.py:13-40 | corrected: a legal column whenever one exists, and the search's move whenever that is not -1 |
| Search.ExpMaxExact | Player.py:154-185 | below the root, with `beta == inf`, `expectimax_val` equals the windowless expectimax value |
| Search.MinChanceExact | Player.py:133-152 | `min_chance` equals the windowless chance value |
| Search.MinChanceLoopSum | Player.py:141-152 | the running `average` gains 1/7 of each legal reply's value |
| Search.ExpRootLoop | Player.py:167-185 | at the root the expectimax loop is a first-maximum scan of the children's chance values |
| Search.ExpectimaxIsReference | Player.py:42-68 | `get_expectimax_move` returns the reference expectimax move |
| Search.ExpectimaxMoveLegal | Player.py:42-68 | the expectimax move is -1 or a legal column; it is -1 exactly when the probe finds nothing and every legal move is worth `-inf` |
| Search.ExpectimaxMoveLegalWhenNotTwo | Player.py:42-68 | with empty cells, and other than exactly two, the expectimax move is a legal column |
| Search.ExpectimaxGivesUp | Player.py:42-68 | as written: with two empty cells and no probe hit, the move is -1 although a legal column exists |
| Search.GuardedExpectimaxMove | Player.py:42-68 | corrected: a legal column whenever one exists, and the search's move whenever that is not -1 |
| Search.ChanceValueUnderweights | Player.py:141-151 | as written: replies all worth `x` average to `(legal replies)/7 * x`, which is not `x` once a column is full |
| Search.ChanceMeanUniform | Player.py:141-151 | corrected: the expectation over the legal replies of replies all worth `x` is `x` |
| Search.ChanceMeanWhenNoColumnFull | Player.py:141-151 | with every column legal, dividing by 7 is the expectation |
| Vertical.SelfVerticalNeverFires | Player.py:228-235 | as written: the self column pattern never matches a board probed with a placeholder |
| Vertical.IntendedVerticalFires | Player.py:228-244 | corrected: with the placeholder first, the column check fires exactly when the probe lands on three of the engine's own tokens |
| Vertical.IntendedDetectorSeesVerticalWin | Player.py:187-287 | the corrected detector flags every probe that completes a vertical four, and it fires wherever the detector as written does |
| Player.AIPlayer.constructor | Player.py:7-11 | the scratch board starts as a 6 x 7 board of zeros |
| Player.AIPlayer.UpdateBoard | Player.py:407-422 | on a legal column the scratch board becomes the drop of the old board; on a full column it is unchanged and the call fails |
| Player.AIPlayer.IsTerminal | Player.py:187-287 | the method returns `terminalEval` of the board |
| Player.AIPlayer.EvaluationFunction | Player.py:289-405 | the method returns the heuristic of the board, at most 18746 |
| Player.AIPlayer.ProbeMoves | Player.py:98-109 | the probe loop returns the lowest flagged legal column |
| Player.AIPlayer.MaxVal | Player.py:97-131 | the method returns `max_val` of the board |
| Player.AIPlayer.MaxColumns | Player.py:111-131 | the column loop of `max_val` computes its loop function |
| Player.AIPlayer.MinVal | Player.py:71-95 | the method returns `min_val` of the board |
| Player.AIPlayer.MinColumns | Player.py:76-95 | the column loop of `min_val` computes its loop function |
| Player.AIPlayer.GetAlphaBetaMove | Player.py:13-40 | the move is the minimax move, and -1 or a legal column |
| Player.AIPlayer.ExpectimaxVal | Player.py:154-185 | the method returns `expectimax_val` of the board |
| Player.AIPlayer.ExpectimaxColumns | Player.py:167-185 | the column loop of `expectimax_val` computes its loop function |
| Player.AIPlayer.MinChanceVal | Player.py:133-152 | the method returns `min_chance` of the board |
| Player.AIPlayer.ChanceColumns | Player.py:141-152 | the column loop of `min_chance` accumulates the 1/7-weighted sum |
| Player.AIPlayer.GetExpectimaxMove | Player.py:42-68 | the move is the reference expectimax move, and -1 or a legal column |
| Player.RandomPlayer.constructor | Player.py:424-428 | the player keeps the number it is given |
| Player.RandomPlayer.ValidColumns | Player.py:448-451 | the `valid_cols` loop builds the ascending list of legal columns |
| Player.RandomPlayer.GetMove | Player.py:448-453 | the result is `None` exactly when no column is legal; otherwise it is a legal column, the entry of `valid_cols` that the draw `pick` selects |

## Left out

- `HumanPlayer` is not modelled: it reads from the terminal.
- The timing and the `print` in `get_alpha_beta_move` are not modelled.
- The `type` and `player_string` fields are not modelled: nothing reads them.
- `np.random.choice` is not modelled: the random draw is the parameter `pick` of `GetMove`, taken modulo the number of legal columns.
- Player.RandomPlayer.GetMove: an empty `valid_cols`, on which the source's draw raises an error, gives `None`.
- Player.AIPlayer.UpdateBoard: the exception on a full column is the result `false` with the board unchanged. The searches only play legal columns, so they never take that path.
- Floating point is not modelled: search values are exact reals, so the rounding of `1/7` and of the sums in `min_chance` is not captured.
- The `uint8` type of the scratch board is not modelled: cells are integers 0..9, and the engine only writes 1..4, so no value wraps.
- The digit-string matching of `to_str` is modelled as window matching on integer sequences. The two agree only for single-digit cells, which is why boards are restricted to 0..9.
- The expectimax proofs hold for `beta == inf`, the only window the source ever passes. `alpha` is threaded through as in the source, but it prunes nothing.
- Search.ChanceMean corrects only the chance ply. The search as written, and the methods of `Player.AIPlayer`, keep the source's 1/7 weighting.
- Vertical.IntendedTerminalEval is a corrected detector that the search does not use. The search and `Player.AIPlayer.IsTerminal` model the detector as written.
- Search.GuardedAlphaBetaMove and Search.GuardedExpectimaxMove are value-level corrections. `Player.AIPlayer.GetAlphaBetaMove` and `GetExpectimaxMove` return the move as written.

## Findings

| source | as written | input that shows it | evidently intended | confidence | as-written member | corrected member |
|---|---|---|---|---|---|---|
| Player.py:13-40, 97-131 | `max_val` starts from `cost = -inf` and changes `move` only on a strictly greater value. A ply with no legal column is worth `-inf` to the maximiser, and with two or four empty cells every line of play ends on such a ply before the cutoff. | Any board of 0, 1 and 2 with exactly two (or four) empty cells on which no placeholder drop is flagged: every root move is worth `-inf` and -1 is returned | return a legal column whenever one exists | not executed | Search.AlphaBetaGivesUp | Search.GuardedAlphaBetaMove |
| Player.py:42-68, 154-185 | The same first-strict-improvement scan in `expectimax_val`. With two empty cells each chance ply sums a single `-inf` reply. | Any board of 0, 1 and 2 with exactly two empty cells on which no placeholder drop is flagged | return a legal column whenever one exists | not executed | Search.ExpectimaxGivesUp | Search.GuardedExpectimaxMove |
| Player.py:228-235 | The self column pattern `'{0}{0}{0}3'` reads placeholder-below-tokens in a top-to-bottom column, but the probe always lands above its column's tokens | Any probed board, e.g. a column holding three of the engine's tokens under an empty cell: the winning drop is not flagged | `'3{0}{0}{0}'`, the shape of the opponent's column pattern | not executed | Vertical.SelfVerticalNeverFires | Vertical.IntendedVerticalFires |
| Player.py:141-151 | `min_chance` weights every reply by `1/size` with `size = 7`, the number of columns, not the number of legal replies | A board with one full column whose six replies are each worth `x != 0`: the average is `6/7 * x` | divide by the number of legal replies (the random player's uniform choice) | not executed | Search.ChanceValueUnderweights | Search.ChanceMeanUniform |
