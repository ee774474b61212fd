/**
 * The two searches as values: `max_val`/`min_val` (alpha-beta, cutoff at ply
 * 5) and `expectimax_val`/`min_chance` (expectimax, cutoff at ply 4), each
 * written as the source's loops over columns, next to reference definitions
 * without pruning that the loops are proved to agree with.
 */
module Search {
  import opened Extended
  import opened Boards
  import opened Lines
  import opened Detector
  import opened Evaluator

  /** Ply at which alpha-beta evaluates (always a minimising ply). */
  const AlphaBetaCutoff: nat := 5
  /** Ply at which expectimax evaluates (always a maximising ply). */
  const ExpectimaxCutoff: nat := 4

  // ---------------------------------------------------------------------------
  // The root probe

  /**
   * The immediate-win probe of ply 0 (Player.py:98-109), resumed at column `c`:
   * the lowest legal column whose placeholder drop makes the detector fire.
   */
  function ProbeFrom(b: Board, me: PlayerNumber, c: nat): (r: Option<nat>)
    requires WellFormed(b) && c <= Width
    ensures r.Some? ==> (c <= r.value < Width && Legal(b, r.value)
      && TerminalEval(Drop(b, r.value, Placeholder(me)), me))
    ensures forall c' :: c <= c' < Width && (r.Some? ==> c' < r.value) && Legal(b, c') ==>
      !TerminalEval(Drop(b, c', Placeholder(me)), me)
    decreases Width - c
  {
    if c == Width then None
    else if Legal(b, c) && TerminalEval(Drop(b, c, Placeholder(me)), me) then Some(c)
    else ProbeFrom(b, me, c + 1)
  }

  function Probe(b: Board, me: PlayerNumber): Option<nat>
    requires WellFormed(b)
  {
    ProbeFrom(b, me, 0)
  }

  // ---------------------------------------------------------------------------
  // Alpha-beta, as the source computes it

  /** `max_val(board, d, alpha, beta)`: the pair (cost, move). */
  function AbMax(b: Board, me: PlayerNumber, d: nat, alpha: Ext, beta: Ext): (Ext, int)
    requires WellFormed(b) && d <= AlphaBetaCutoff
    decreases AlphaBetaCutoff - d, 2, 0
  {
    var probe := if d == 0 then Probe(b, me) else None;
    if probe.Some? then (NegInf, probe.value)
    else if d == AlphaBetaCutoff then (FromInt(Evaluate(b, me)), -1)
    else AbMaxLoop(b, me, d, alpha, beta, 0, NegInf, -1)
  }

  /** The column loop of `max_val` (Player.py:117-131), resumed at column `c`. */
  function AbMaxLoop(b: Board, me: PlayerNumber, d: nat, alpha: Ext, beta: Ext, c: nat, cost: Ext, move: int): (Ext, int)
    requires WellFormed(b) && d < AlphaBetaCutoff && c <= Width
    decreases AlphaBetaCutoff - d, 1, Width - c
  {
    if c == Width then (cost, move)
    else if !Legal(b, c) then AbMaxLoop(b, me, d, alpha, beta, c + 1, cost, move)
    else
      var v := AbMin(Drop(b, c, me), me, d + 1, alpha, beta);
      if Lt(cost, v) && v == PosInf then (v, c)
      else
        var cost', move' := if Lt(cost, v) then v else cost, if Lt(cost, v) then c else move;
        if Le(beta, cost') then (cost', move')
        else AbMaxLoop(b, me, d, Max(alpha, cost'), beta, c + 1, cost', move')
  }

  /** `min_val(board, d, alpha, beta)`. */
  function AbMin(b: Board, me: PlayerNumber, d: nat, alpha: Ext, beta: Ext): Ext
    requires WellFormed(b) && d <= AlphaBetaCutoff
    decreases AlphaBetaCutoff - d, 2, 0
  {
    if d == 1 && TerminalEval(b, me) then PosInf
    else if d == AlphaBetaCutoff then FromInt(Evaluate(b, me))
    else AbMinLoop(b, me, d, alpha, beta, 0, PosInf)
  }

  /** The column loop of `min_val` (Player.py:81-95), resumed at column `c`. */
  function AbMinLoop(b: Board, me: PlayerNumber, d: nat, alpha: Ext, beta: Ext, c: nat, cost: Ext): Ext
    requires WellFormed(b) && d < AlphaBetaCutoff && c <= Width
    decreases AlphaBetaCutoff - d, 1, Width - c
  {
    if c == Width then cost
    else if !Legal(b, c) then AbMinLoop(b, me, d, alpha, beta, c + 1, cost)
    else
      var v := AbMax(Drop(b, c, Opponent(me)), me, d + 1, alpha, beta).0;
      var cost' := if Lt(v, cost) then v else cost;
      if Le(cost', alpha) then cost'
      else AbMinLoop(b, me, d, alpha, Min(beta, cost'), c + 1, cost')
  }

  /** `get_alpha_beta_move(board)`. */
  function AlphaBetaMove(b: Board, me: PlayerNumber): int
    requires WellFormed(b)
  {
    AbMax(b, me, 0, NegInf, PosInf).1
  }

  // ---------------------------------------------------------------------------
  // Minimax without pruning: the reference

  /** The minimax value of a maximising ply at depth `d >= 1`. */
  function MaxValue(b: Board, me: PlayerNumber, d: nat): Ext
    requires WellFormed(b) && d <= AlphaBetaCutoff
    decreases AlphaBetaCutoff - d, 2, 0
  {
    if d == AlphaBetaCutoff then FromInt(Evaluate(b, me)) else MaxOver(b, me, d, 0)
  }

  /** The largest value among the legal moves from column `c` on; `-inf` when there is none. */
  function MaxOver(b: Board, me: PlayerNumber, d: nat, c: nat): Ext
    requires WellFormed(b) && d < AlphaBetaCutoff && c <= Width
    decreases AlphaBetaCutoff - d, 1, Width - c
  {
    if c == Width then NegInf
    else if !Legal(b, c) then MaxOver(b, me, d, c + 1)
    else Max(MinValue(Drop(b, c, me), me, d + 1), MaxOver(b, me, d, c + 1))
  }

  /** The minimax value of a minimising ply at depth `d`. */
  function MinValue(b: Board, me: PlayerNumber, d: nat): Ext
    requires WellFormed(b) && d <= AlphaBetaCutoff
    decreases AlphaBetaCutoff - d, 2, 0
  {
    if d == 1 && TerminalEval(b, me) then PosInf
    else if d == AlphaBetaCutoff then FromInt(Evaluate(b, me))
    else MinOver(b, me, d, 0)
  }

  /** The smallest value among the opponent's legal replies from column `c` on; `inf` when there is none. */
  function MinOver(b: Board, me: PlayerNumber, d: nat, c: nat): Ext
    requires WellFormed(b) && d < AlphaBetaCutoff && c <= Width
    decreases AlphaBetaCutoff - d, 1, Width - c
  {
    if c == Width then PosInf
    else if !Legal(b, c) then MinOver(b, me, d, c + 1)
    else Min(MaxValue(Drop(b, c, Opponent(me)), me, d + 1), MinOver(b, me, d, c + 1))
  }

  /** The value of each root move, `-inf` for a full column. */
  function RootValues(b: Board, me: PlayerNumber): (vs: seq<Ext>)
    requires WellFormed(b)
    ensures |vs| == Width
    ensures forall c :: 0 <= c < Width ==> vs[c] == if Legal(b, c) then MinValue(Drop(b, c, me), me, 1) else NegInf
  {
    seq(Width, c requires 0 <= c < Width => if Legal(b, c) then MinValue(Drop(b, c, me), me, 1) else NegInf)
  }

  /**
   * Scan of `vs` from index `c` keeping the first strict improvement, the
   * source's `if new_cost > cost: move = i; cost = new_cost`.
   */
  function BestFrom(vs: seq<Ext>, c: nat, cost: Ext, move: int): (Ext, int)
    requires c <= |vs|
    decreases |vs| - c
  {
    if c == |vs| then (cost, move)
    else if Lt(cost, vs[c]) then BestFrom(vs, c + 1, vs[c], c)
    else BestFrom(vs, c + 1, cost, move)
  }

  /** The move plain minimax picks: the probe's column, else the first column of largest value. */
  function MinimaxMove(b: Board, me: PlayerNumber): int
    requires WellFormed(b)
  {
    match Probe(b, me)
    case Some(c) => c
    case None => BestFrom(RootValues(b, me), 0, NegInf, -1).1
  }

  // ---------------------------------------------------------------------------
  // The scan keeps the first maximum

  lemma {:induction false} BestFromInvariant(vs: seq<Ext>, c: nat, cost: Ext, move: int)
    requires c <= |vs|
    requires move == -1 ==> cost == NegInf && forall i :: 0 <= i < c ==> vs[i] == NegInf
    requires move != -1 ==> (0 <= move < c && vs[move] == cost && cost != NegInf
      && (forall i :: 0 <= i < c ==> Le(vs[i], cost)) && (forall i :: 0 <= i < move ==> Lt(vs[i], cost)))
    ensures var (v, m) := BestFrom(vs, c, cost, move);
      && (m == -1 ==> v == NegInf && forall i :: 0 <= i < |vs| ==> vs[i] == NegInf)
      && (m != -1 ==> (0 <= m < |vs| && vs[m] == v && v != NegInf
        && (forall i :: 0 <= i < |vs| ==> Le(vs[i], v)) && (forall i :: 0 <= i < m ==> Lt(vs[i], v))))
    decreases |vs| - c
  {
    if c < |vs| {
      if Lt(cost, vs[c]) {
        forall i | 0 <= i < c
          ensures Lt(vs[i], vs[c])
        {
          LeTotalOrder(vs[i], cost, vs[c]);
        }
        BestFromInvariant(vs, c + 1, vs[c], c);
      } else {
        LeTotalOrder(cost, vs[c], cost);
        BestFromInvariant(vs, c + 1, cost, move);
      }
    }
  }

  /**
   * The root scan returns -1 exactly when every value is `-inf`, and otherwise
   * the first index of the largest value.
   */
  lemma BestIsFirstMaximum(vs: seq<Ext>)
    ensures var (v, m) := BestFrom(vs, 0, NegInf, -1);
      && (m == -1 <==> forall i :: 0 <= i < |vs| ==> vs[i] == NegInf)
      && (m == -1 ==> v == NegInf)
      && (m != -1 ==> (0 <= m < |vs| && vs[m] == v && v != NegInf
        && (forall i :: 0 <= i < |vs| ==> Le(vs[i], v)) && (forall i :: 0 <= i < m ==> Lt(vs[i], v))))
  {
    BestFromInvariant(vs, 0, NegInf, -1);
  }

  /** Nothing beats `inf`: once reached, the scan keeps it. */
  lemma {:induction false} BestFromTop(vs: seq<Ext>, c: nat, move: int)
    requires c <= |vs|
    ensures BestFrom(vs, c, PosInf, move) == (PosInf, move)
    decreases |vs| - c
  {
    if c < |vs| {
      BestFromTop(vs, c + 1, move);
    }
  }

  // ---------------------------------------------------------------------------
  // Alpha-beta is sound

  /**
   * The fail-soft relation between a pruned result `v` and the true value `m`
   * for the window (alpha, beta): a result at or below alpha bounds the true
   * value from above, one at or above beta bounds it from below, and one inside
   * the window is exact.
   */
  predicate FailSoft(v: Ext, m: Ext, alpha: Ext, beta: Ext) {
    && (Le(v, alpha) ==> Le(m, v))
    && (Le(beta, v) ==> Le(v, m))
    && (Lt(alpha, v) && Lt(v, beta) ==> v == m)
  }

  /**
   * One legal column of the `max_val` loop, on values only: `cost` is the best
   * result so far inside the window (alpha0, beta), `best` the true maximum
   * over the earlier columns, `v` the child's pruned result for the window
   * (max(alpha0, cost), beta) and `mv` its true value.
   */
  lemma MaxStep(alpha0: Ext, beta: Ext, cost: Ext, best: Ext, v: Ext, mv: Ext, rest: Ext)
    requires Lt(alpha0, beta) && Lt(cost, beta) && Le(best, cost) && (Lt(alpha0, cost) ==> best == cost)
    requires FailSoft(v, mv, Max(alpha0, cost), beta)
    ensures Lt(cost, v) && v == PosInf ==> FailSoft(v, Max(best, Max(mv, rest)), alpha0, beta)
    ensures var cost' := if Lt(cost, v) then v else cost;
      && (Le(beta, cost') ==> FailSoft(cost', Max(best, Max(mv, rest)), alpha0, beta))
      && (!Le(beta, cost') ==>
            && Lt(cost', beta)
            && Max(Max(alpha0, cost), cost') == Max(alpha0, cost')
            && Le(Max(best, mv), cost')
            && (Lt(alpha0, cost') ==> Max(best, mv) == cost')
            && Max(best, Max(mv, rest)) == Max(Max(best, mv), rest))
  {
    MaxAssoc(best, mv, rest);
  }

  /** The symmetric step of the `min_val` loop. */
  lemma MinStep(alpha: Ext, beta0: Ext, cost: Ext, worst: Ext, v: Ext, mv: Ext, rest: Ext)
    requires Lt(alpha, beta0) && Lt(alpha, cost) && Le(cost, worst) && (Lt(cost, beta0) ==> worst == cost)
    requires FailSoft(v, mv, alpha, Min(beta0, cost))
    ensures var cost' := if Lt(v, cost) then v else cost;
      && (Le(cost', alpha) ==> FailSoft(cost', Min(worst, Min(mv, rest)), alpha, beta0))
      && (!Le(cost', alpha) ==>
            && Lt(alpha, cost')
            && Min(Min(beta0, cost), cost') == Min(beta0, cost')
            && Le(cost', Min(worst, mv))
            && (Lt(cost', beta0) ==> Min(worst, mv) == cost')
            && Min(worst, Min(mv, rest)) == Min(Min(worst, mv), rest))
  {
    LeTotalOrder(alpha, cost, beta0);
    MinAssoc(worst, mv, rest);
  }

  /** Inside the window (alpha, beta0) and above `alpha`, `cost` narrows the window to a non-empty one. */
  lemma MinWindow(alpha: Ext, beta0: Ext, cost: Ext)
    requires Lt(alpha, beta0) && Lt(alpha, cost)
    ensures Lt(alpha, Min(beta0, cost))
  {
  }

  lemma MinAssoc(a: Ext, b: Ext, c: Ext)
    ensures Min(Min(a, b), c) == Min(a, Min(b, c))
  {
  }

  /** `max_val` is sound: its result relates to the minimax value as fail-soft alpha-beta promises. */
  lemma {:induction false} AbMaxSound(b: Board, me: PlayerNumber, d: nat, alpha: Ext, beta: Ext)
    requires WellFormed(b) && 1 <= d <= AlphaBetaCutoff && Lt(alpha, beta)
    ensures FailSoft(AbMax(b, me, d, alpha, beta).0, MaxValue(b, me, d), alpha, beta)
    decreases AlphaBetaCutoff - d, 2, 0
  {
    if d < AlphaBetaCutoff {
      AbMaxLoopSound(b, me, d, alpha, beta, 0, alpha, NegInf, -1, NegInf);
    }
  }

  /**
   * The loop of `max_val` resumed at column `c`, where `cost` is the best
   * result so far, `alpha == max(alpha0, cost)` and `best` is the true maximum
   * over the columns before `c`.
   */
  lemma {:induction false} AbMaxLoopSound(b: Board, me: PlayerNumber, d: nat, alpha0: Ext, beta: Ext,
                                          c: nat, alpha: Ext, cost: Ext, move: int, best: Ext)
    requires WellFormed(b) && 1 <= d < AlphaBetaCutoff && c <= Width && Lt(alpha0, beta)
    requires alpha == Max(alpha0, cost) && Lt(cost, beta)
    requires Le(best, cost) && (Lt(alpha0, cost) ==> best == cost)
    ensures FailSoft(AbMaxLoop(b, me, d, alpha, beta, c, cost, move).0, Max(best, MaxOver(b, me, d, c)), alpha0, beta)
    decreases AlphaBetaCutoff - d, 1, Width - c
  {
    if c == Width {
    } else if !Legal(b, c) {
      AbMaxLoopSound(b, me, d, alpha0, beta, c + 1, alpha, cost, move, best);
    } else {
      var child := Drop(b, c, me);
      var v := AbMin(child, me, d + 1, alpha, beta);
      var mv := MinValue(child, me, d + 1);
      var rest := MaxOver(b, me, d, c + 1);
      LeTotalOrder(alpha, cost, beta);
      AbMinSound(child, me, d + 1, alpha, beta);
      MaxStep(alpha0, beta, cost, best, v, mv, rest);
      var cost' := if Lt(cost, v) then v else cost;
      var move' := if Lt(cost, v) then c else move;
      if !(Lt(cost, v) && v == PosInf) && !Le(beta, cost') {
        AbMaxLoopSound(b, me, d, alpha0, beta, c + 1, Max(alpha, cost'), cost', move', Max(best, mv));
      }
    }
  }

  /** `min_val` is sound, and exact at the cutoff and on a terminal position. */
  lemma {:induction false} AbMinSound(b: Board, me: PlayerNumber, d: nat, alpha: Ext, beta: Ext)
    requires WellFormed(b) && 1 <= d <= AlphaBetaCutoff && Lt(alpha, beta)
    ensures FailSoft(AbMin(b, me, d, alpha, beta), MinValue(b, me, d), alpha, beta)
    decreases AlphaBetaCutoff - d, 2, 0
  {
    if !(d == 1 && TerminalEval(b, me)) && d < AlphaBetaCutoff {
      AbMinLoopSound(b, me, d, alpha, beta, 0, beta, PosInf, PosInf);
    }
  }

  /**
   * The loop of `min_val` resumed at column `c`, where `cost` is the smallest
   * result so far, `beta == min(beta0, cost)` and `worst` is the true minimum
   * over the columns before `c`.
   */
  lemma {:induction false} AbMinLoopSound(b: Board, me: PlayerNumber, d: nat, alpha: Ext, beta0: Ext,
                                          c: nat, beta: Ext, cost: Ext, worst: Ext)
    requires WellFormed(b) && 1 <= d < AlphaBetaCutoff && c <= Width && Lt(alpha, beta0)
    requires beta == Min(beta0, cost) && Lt(alpha, cost)
    requires Le(cost, worst) && (Lt(cost, beta0) ==> worst == cost)
    ensures FailSoft(AbMinLoop(b, me, d, alpha, beta, c, cost), Min(worst, MinOver(b, me, d, c)), alpha, beta0)
    decreases AlphaBetaCutoff - d, 1, Width - c
  {
    if c == Width {
    } else if !Legal(b, c) {
      AbMinLoopSound(b, me, d, alpha, beta0, c + 1, beta, cost, worst);
    } else {
      MinWindow(alpha, beta0, cost);
      var v, mv := AbMinLoopStep(b, me, d, alpha, beta, c, cost);
      var rest := MinOver(b, me, d, c + 1);
      MinStep(alpha, beta0, cost, worst, v, mv, rest);
      var cost' := if Lt(v, cost) then v else cost;
      if !Le(cost', alpha) {
        AbMinLoopSound(b, me, d, alpha, beta0, c + 1, Min(beta, cost'), cost', Min(worst, mv));
      }
    }
  }

  /**
   * One legal column of the `min_val` loop: the reply's pruned result `v`
   * relates to its minimax value `mv` as fail-soft alpha-beta promises, and
   * both loops take one step.
   */
  lemma {:induction false} AbMinLoopStep(b: Board, me: PlayerNumber, d: nat, alpha: Ext, beta: Ext, c: nat, cost: Ext) returns (v: Ext, mv: Ext)
    requires WellFormed(b) && 1 <= d < AlphaBetaCutoff && c < Width && Legal(b, c) && Lt(alpha, beta)
    ensures FailSoft(v, mv, alpha, beta)
    ensures var cost' := if Lt(v, cost) then v else cost;
      AbMinLoop(b, me, d, alpha, beta, c, cost)
        == if Le(cost', alpha) then cost' else AbMinLoop(b, me, d, alpha, Min(beta, cost'), c + 1, cost')
    ensures MinOver(b, me, d, c) == Min(mv, MinOver(b, me, d, c + 1))
    decreases AlphaBetaCutoff - d, 1, Width - c, 0
  {
    var child := Drop(b, c, Opponent(me));
    v := AbMax(child, me, d + 1, alpha, beta).0;
    mv := MaxValue(child, me, d + 1);
    AbMaxSound(child, me, d + 1, alpha, beta);
  }

  // ---------------------------------------------------------------------------
  // The root of alpha-beta plays the minimax move

  /**
   * At the root the window is (cost, inf), so each child's pruned result
   * beats `cost` exactly when its minimax value does, and then equals it.
   */
  lemma {:induction false} AbRootLoop(b: Board, me: PlayerNumber, c: nat, cost: Ext, move: int)
    requires WellFormed(b) && c <= Width && cost != PosInf
    ensures AbMaxLoop(b, me, 0, cost, PosInf, c, cost, move) == BestFrom(RootValues(b, me), c, cost, move)
    decreases Width - c
  {
    var vs := RootValues(b, me);
    if c == Width {
    } else if !Legal(b, c) {
      AbRootLoop(b, me, c + 1, cost, move);
    } else {
      var child := Drop(b, c, me);
      var v := AbMin(child, me, 1, cost, PosInf);
      AbMinSound(child, me, 1, cost, PosInf);
      LeTotalOrder(vs[c], v, cost);
      if Lt(cost, v) && v == PosInf {
        BestFromTop(vs, c + 1, c);
      } else if Lt(cost, v) {
        AbRootLoop(b, me, c + 1, v, c);
      } else {
        AbRootLoop(b, me, c + 1, cost, move);
      }
    }
  }

  /** `get_alpha_beta_move` plays the move plain minimax picks, pruning changes nothing at the root. */
  lemma AlphaBetaIsMinimax(b: Board, me: PlayerNumber)
    requires WellFormed(b)
    ensures AlphaBetaMove(b, me) == MinimaxMove(b, me)
  {
    if Probe(b, me).None? {
      AbRootLoop(b, me, 0, NegInf, -1);
    }
  }

  /**
   * The move is -1 or a legal column, and it is -1 exactly when the probe
   * misses and every legal move is worth `-inf`.
   */
  lemma AlphaBetaMoveLegal(b: Board, me: PlayerNumber)
    requires WellFormed(b)
    ensures var m := AlphaBetaMove(b, me);
      && (m == -1 || (0 <= m < Width && Legal(b, m)))
      && (m == -1 <==>
            Probe(b, me).None? && forall c :: 0 <= c < Width && Legal(b, c) ==> MinValue(Drop(b, c, me), me, 1) == NegInf)
  {
    AlphaBetaIsMinimax(b, me);
    var vs := RootValues(b, me);
    BestIsFirstMaximum(vs);
    if Probe(b, me).None? && forall c :: 0 <= c < Width && Legal(b, c) ==> MinValue(Drop(b, c, me), me, 1) == NegInf {
      assert forall c :: 0 <= c < Width ==> vs[c] == NegInf;
    }
  }

  lemma {:induction false} MaxOverNotNegInf(b: Board, me: PlayerNumber, d: nat, c: nat, w: nat)
    requires WellFormed(b) && d < AlphaBetaCutoff && c <= w < Width && Legal(b, w)
    requires MinValue(Drop(b, w, me), me, d + 1) != NegInf
    ensures MaxOver(b, me, d, c) != NegInf
    decreases Width - c
  {
    if c < w {
      MaxOverNotNegInf(b, me, d, c + 1, w);
    }
  }

  lemma {:induction false} MinOverNotNegInf(b: Board, me: PlayerNumber, d: nat, c: nat)
    requires WellFormed(b) && d < AlphaBetaCutoff && c <= Width
    requires forall c' :: c <= c' < Width && Legal(b, c') ==> MaxValue(Drop(b, c', Opponent(me)), me, d + 1) != NegInf
    ensures MinOver(b, me, d, c) != NegInf
    decreases Width - c
  {
    if c < Width {
      MinOverNotNegInf(b, me, d, c + 1);
    }
  }

  /** With enough empty cells to reach the cutoff, a maximising ply has a value above `-inf`. */
  lemma {:induction false} MaxValueNotNegInf(b: Board, me: PlayerNumber, d: nat)
    requires WellFormed(b) && d <= AlphaBetaCutoff && EmptyCount(b) >= AlphaBetaCutoff - d
    ensures MaxValue(b, me, d) != NegInf
    decreases AlphaBetaCutoff - d, 2
  {
    if d < AlphaBetaCutoff {
      SomeLegalColumn(b, 0);
      var w :| 0 <= w < Width && Legal(b, w);
      MaxChildNotNegInf(b, me, d, w);
      MaxOverNotNegInf(b, me, d, 0, w);
    }
  }

  lemma {:induction false} MaxChildNotNegInf(b: Board, me: PlayerNumber, d: nat, w: nat)
    requires WellFormed(b) && d < AlphaBetaCutoff && EmptyCount(b) >= AlphaBetaCutoff - d
    requires w < Width && Legal(b, w)
    ensures MinValue(Drop(b, w, me), me, d + 1) != NegInf
    decreases AlphaBetaCutoff - d, 1
  {
    var child := Child(b, w, me);
    MinValueNotNegInf(child, me, d + 1);
  }

  /** With enough empty cells to reach the cutoff, a minimising ply has a value above `-inf`. */
  lemma {:induction false} MinValueNotNegInf(b: Board, me: PlayerNumber, d: nat)
    requires WellFormed(b) && d <= AlphaBetaCutoff && EmptyCount(b) >= AlphaBetaCutoff - d
    ensures MinValue(b, me, d) != NegInf
    decreases AlphaBetaCutoff - d, 2
  {
    if !(d == 1 && TerminalEval(b, me)) && d < AlphaBetaCutoff {
      forall c' | 0 <= c' < Width && Legal(b, c')
        ensures MaxValue(Drop(b, c', Opponent(me)), me, d + 1) != NegInf
      {
        MinChildNotNegInf(b, me, d, c');
      }
      MinOverNotNegInf(b, me, d, 0);
    }
  }

  lemma {:induction false} MinChildNotNegInf(b: Board, me: PlayerNumber, d: nat, w: nat)
    requires WellFormed(b) && d < AlphaBetaCutoff && EmptyCount(b) >= AlphaBetaCutoff - d
    requires w < Width && Legal(b, w)
    ensures MaxValue(Drop(b, w, Opponent(me)), me, d + 1) != NegInf
    decreases AlphaBetaCutoff - d, 1
  {
    var child := Child(b, w, Opponent(me));
    MaxValueNotNegInf(child, me, d + 1);
  }

  /** With at least five empty cells the alpha-beta move is a legal column. */
  lemma AlphaBetaMoveLegalWhenRoomy(b: Board, me: PlayerNumber)
    requires WellFormed(b) && EmptyCount(b) >= AlphaBetaCutoff
    ensures 0 <= AlphaBetaMove(b, me) < Width && Legal(b, AlphaBetaMove(b, me))
  {
    AlphaBetaMoveLegal(b, me);
    SomeLegalColumn(b, 0);
    var w :| 0 <= w < Width && Legal(b, w);
    DropFillsOneCell(b, w, me);
    MinValueNotNegInf(Drop(b, w, me), me, 1);
  }

  // ---------------------------------------------------------------------------
  // Near the end of the game: the search runs out of moves before the cutoff

  /** A board has a legal column exactly when it has an empty cell. */
  lemma LegalIffEmpty(b: Board)
    requires WellFormed(b)
    ensures (exists c :: 0 <= c < Width && Legal(b, c)) <==> EmptyCount(b) > 0
    ensures LegalColumns(b) != [] <==> EmptyCount(b) > 0
  {
    if EmptyCount(b) > 0 {
      SomeLegalColumn(b, 0);
      var c :| 0 <= c < Width && Legal(b, c);
      assert c in LegalColumns(b);
    }
    if exists c :: 0 <= c < Width && Legal(b, c) {
      var c :| 0 <= c < Width && Legal(b, c);
      DropFillsOneCell(b, c, 1);
    }
    if LegalColumns(b) != [] {
      DropFillsOneCell(b, LegalColumns(b)[0], 1);
    }
  }

  /** A player's drop on an ordinary board: ordinary again, one empty cell fewer. */
  lemma OrdinaryDrop(b: Board, c: nat, p: int)
    requires WellFormed(b) && Ordinary(b) && c < Width && Legal(b, c) && 1 <= p <= 2
    ensures WellFormed(Drop(b, c, p)) && Ordinary(Drop(b, c, p))
    ensures EmptyCount(Drop(b, c, p)) == EmptyCount(b) - 1
  {
    DropFillsOneCell(b, c, p);
    DropKeepsOrdinary(b, c, p);
  }

  /** The value of a ply without moves, seen from the side to move after `e` more drops. */
  function EndValue(e: nat, maximising: bool): Ext {
    if Even(e) == maximising then NegInf else PosInf
  }

  predicate Even(n: nat) {
    if n == 0 then true else !Even(n - 1)
  }

  lemma EndValueStep(e: nat, maximising: bool)
    requires e > 0
    ensures EndValue(e - 1, !maximising) == EndValue(e, maximising)
  {
  }

  /**
   * On an ordinary board too full to reach the cutoff, a maximising ply is
   * worth `-inf` when the game ends on a maximising ply (an even number of
   * empty cells) and `inf` otherwise: a ply without moves is `-inf` for the
   * maximiser and `inf` for the minimiser.
   */
  lemma {:induction false} ShallowMax(b: Board, me: PlayerNumber, d: nat)
    requires WellFormed(b) && 2 <= d && d + EmptyCount(b) < AlphaBetaCutoff
    ensures MaxValue(b, me, d) == EndValue(EmptyCount(b), true)
    decreases AlphaBetaCutoff - d, 3
  {
    ShallowMaxFrom(b, me, d, 0);
    LegalIffEmpty(b);
    assert MaxValue(b, me, d) == MaxOver(b, me, d, 0);
  }

  lemma {:induction false} ShallowMaxFrom(b: Board, me: PlayerNumber, d: nat, c: nat)
    requires WellFormed(b) && 2 <= d && d + EmptyCount(b) < AlphaBetaCutoff && c <= Width
    ensures MaxOver(b, me, d, c) == if LegalColumnsFrom(b, c) == [] then NegInf else EndValue(EmptyCount(b), true)
    decreases AlphaBetaCutoff - d, 2, Width - c
  {
    if c < Width {
      ShallowMaxFrom(b, me, d, c + 1);
      if Legal(b, c) {
        ShallowMaxChild(b, me, d, c);
      }
    }
  }

  lemma {:induction false} ShallowMaxChild(b: Board, me: PlayerNumber, d: nat, c: nat)
    requires WellFormed(b) && 2 <= d && d + EmptyCount(b) < AlphaBetaCutoff && c < Width && Legal(b, c)
    ensures MinValue(Drop(b, c, me), me, d + 1) == EndValue(EmptyCount(b), true)
    decreases AlphaBetaCutoff - d, 1
  {
    var child := Child(b, c, me);
    ShallowMin(child, me, d + 1);
    EndValueStep(EmptyCount(b), true);
    assert EndValue(EmptyCount(child), false) == EndValue(EmptyCount(b), true);
  }

  /** The minimising counterpart of `ShallowMax`. */
  lemma {:induction false} ShallowMin(b: Board, me: PlayerNumber, d: nat)
    requires WellFormed(b) && 2 <= d && d + EmptyCount(b) < AlphaBetaCutoff
    ensures MinValue(b, me, d) == EndValue(EmptyCount(b), false)
    decreases AlphaBetaCutoff - d, 3
  {
    ShallowMinFrom(b, me, d, 0);
    LegalIffEmpty(b);
    assert MinValue(b, me, d) == MinOver(b, me, d, 0);
  }

  lemma {:induction false} ShallowMinFrom(b: Board, me: PlayerNumber, d: nat, c: nat)
    requires WellFormed(b) && 1 <= d && d + EmptyCount(b) < AlphaBetaCutoff && c <= Width
    ensures MinOver(b, me, d, c) == if LegalColumnsFrom(b, c) == [] then PosInf else EndValue(EmptyCount(b), false)
    decreases AlphaBetaCutoff - d, 2, Width - c
  {
    if c < Width {
      ShallowMinFrom(b, me, d, c + 1);
      if Legal(b, c) {
        ShallowMinChild(b, me, d, c);
      }
    }
  }

  lemma {:induction false} ShallowMinChild(b: Board, me: PlayerNumber, d: nat, c: nat)
    requires WellFormed(b) && 1 <= d && d + EmptyCount(b) < AlphaBetaCutoff && c < Width && Legal(b, c)
    ensures MaxValue(Drop(b, c, Opponent(me)), me, d + 1) == EndValue(EmptyCount(b), false)
    decreases AlphaBetaCutoff - d, 1
  {
    var child := Child(b, c, Opponent(me));
    ShallowMax(child, me, d + 1);
    EndValueStep(EmptyCount(b), false);
    assert EndValue(EmptyCount(child), true) == EndValue(EmptyCount(b), false);
  }

  /** At depth 1 the board must be ordinary, so that the terminal check does not fire. */
  lemma ShallowRootChild(b: Board, me: PlayerNumber)
    requires WellFormed(b) && Ordinary(b) && 1 + EmptyCount(b) < AlphaBetaCutoff
    ensures MinValue(b, me, 1) == EndValue(EmptyCount(b), false)
  {
    DeadOnOrdinary(b, me);
    ShallowMinFrom(b, me, 1, 0);
    LegalIffEmpty(b);
    assert MinValue(b, me, 1) == MinOver(b, me, 1, 0);
  }

  /**
   * As written, `get_alpha_beta_move` gives up on an ordinary board with two
   * or four empty cells when no immediate threat is found: every move is worth
   * `-inf` (the search runs out of moves on a maximising ply), no value beats
   * the initial `-inf`, and the move -1 is returned although a legal column
   * exists.
   */
  lemma AlphaBetaGivesUp(b: Board, me: PlayerNumber)
    requires WellFormed(b) && Ordinary(b) && (EmptyCount(b) == 2 || EmptyCount(b) == 4)
    requires Probe(b, me).None?
    ensures AlphaBetaMove(b, me) == -1
    ensures exists c :: 0 <= c < Width && Legal(b, c)
  {
    SomeLegalColumn(b, 0);
    forall c | 0 <= c < Width && Legal(b, c)
      ensures MinValue(Drop(b, c, me), me, 1) == NegInf
    {
      OrdinaryDrop(b, c, me);
      ShallowRootChild(Drop(b, c, me), me);
    }
    AlphaBetaMoveLegal(b, me);
  }

  // ---------------------------------------------------------------------------
  // Expectimax, as the source computes it

  /** The weight `1/size` of each reply at a chance ply, `size` being the number of columns. */
  function ReplyWeight(): (k: real)
    ensures k > 0.0
  {
    1.0 / 7.0
  }

  lemma ReplyWeightIsShare()
    ensures ReplyWeight() == Share(Width)
  {
  }

  /**
   * `expectimax_val(board, d, alpha, beta)`: the pair (cost, move). Below the
   * root it is never `inf`, which only a terminal chance ply at depth 1 gives.
   */
  function ExpMax(b: Board, me: PlayerNumber, d: nat, alpha: Ext, beta: Ext): (r: (Ext, int))
    requires WellFormed(b) && d <= ExpectimaxCutoff
    ensures 1 <= d ==> r.0 != PosInf
    decreases ExpectimaxCutoff - d, 2, 0
  {
    var probe := if d == 0 then Probe(b, me) else None;
    if probe.Some? then (NegInf, probe.value)
    else if d == ExpectimaxCutoff then (FromInt(Evaluate(b, me)), -1)
    else ExpMaxLoop(b, me, d, alpha, beta, 0, NegInf, -1)
  }

  /** The column loop of `expectimax_val` (Player.py:170-185), resumed at column `c`. */
  function ExpMaxLoop(b: Board, me: PlayerNumber, d: nat, alpha: Ext, beta: Ext, c: nat, cost: Ext, move: int): (r: (Ext, int))
    requires WellFormed(b) && d < ExpectimaxCutoff && c <= Width
    ensures 1 <= d && cost != PosInf ==> r.0 != PosInf
    decreases ExpectimaxCutoff - d, 1, Width - c
  {
    if c == Width then (cost, move)
    else if !Legal(b, c) then ExpMaxLoop(b, me, d, alpha, beta, c + 1, cost, move)
    else
      var v := MinChance(Drop(b, c, me), me, d + 1, alpha, beta);
      if Lt(cost, v) && v == PosInf then (v, c)
      else
        var cost', move' := if Lt(cost, v) then v else cost, if Lt(cost, v) then c else move;
        if Le(beta, cost') then (cost', move')
        else ExpMaxLoop(b, me, d, Max(alpha, cost'), beta, c + 1, cost', move')
  }

  /** `min_chance(board, d, alpha, beta)`: never `inf` below depth 1. */
  function MinChance(b: Board, me: PlayerNumber, d: nat, alpha: Ext, beta: Ext): (r: Ext)
    requires WellFormed(b) && d <= ExpectimaxCutoff
    ensures 2 <= d ==> r != PosInf
    decreases ExpectimaxCutoff - d, 2, 0
  {
    if d == 1 && TerminalEval(b, me) then PosInf
    else if d == ExpectimaxCutoff then FromInt(Evaluate(b, me))
    else MinChanceLoop(b, me, d, alpha, beta, 0, Fin(0.0))
  }

  /** The column loop of `min_chance` (Player.py:141-152), resumed at column `c` with the running `average`. */
  function MinChanceLoop(b: Board, me: PlayerNumber, d: nat, alpha: Ext, beta: Ext, c: nat, average: Ext): (r: Ext)
    requires WellFormed(b) && d < ExpectimaxCutoff && c <= Width && average != PosInf
    ensures r != PosInf
    decreases ExpectimaxCutoff - d, 1, Width - c
  {
    if c == Width then average
    else if !Legal(b, c) then MinChanceLoop(b, me, d, alpha, beta, c + 1, average)
    else
      var v := ExpMax(Drop(b, c, Opponent(me)), me, d + 1, alpha, beta).0;
      MinChanceLoop(b, me, d, alpha, beta, c + 1, Add(average, Scale(ReplyWeight(), v)))
  }

  /** `get_expectimax_move(board)`. */
  function ExpectimaxMove(b: Board, me: PlayerNumber): int
    requires WellFormed(b)
  {
    ExpMax(b, me, 0, NegInf, PosInf).1
  }

  // ---------------------------------------------------------------------------
  // Expectimax without the window: the reference

  /** The value of a maximising ply of expectimax at depth `d`. */
  function ExpectiValue(b: Board, me: PlayerNumber, d: nat): (r: Ext)
    requires WellFormed(b) && d <= ExpectimaxCutoff
    ensures 1 <= d ==> r != PosInf
    decreases ExpectimaxCutoff - d, 2, 0
  {
    if d == ExpectimaxCutoff then FromInt(Evaluate(b, me)) else ExpectiOver(b, me, d, 0)
  }

  /** The largest chance value among the legal moves from column `c` on; `-inf` when there is none. */
  function ExpectiOver(b: Board, me: PlayerNumber, d: nat, c: nat): (r: Ext)
    requires WellFormed(b) && d < ExpectimaxCutoff && c <= Width
    ensures 1 <= d ==> r != PosInf
    decreases ExpectimaxCutoff - d, 1, Width - c
  {
    if c == Width then NegInf
    else if !Legal(b, c) then ExpectiOver(b, me, d, c + 1)
    else Max(ChanceValue(Drop(b, c, me), me, d + 1), ExpectiOver(b, me, d, c + 1))
  }

  /** The value of a chance ply: the sum of the legal replies' values, each weighted `1/7`. */
  function ChanceValue(b: Board, me: PlayerNumber, d: nat): (r: Ext)
    requires WellFormed(b) && d <= ExpectimaxCutoff
    ensures 2 <= d ==> r != PosInf
    decreases ExpectimaxCutoff - d, 2, 0
  {
    if d == 1 && TerminalEval(b, me) then PosInf
    else if d == ExpectimaxCutoff then FromInt(Evaluate(b, me))
    else Scale(ReplyWeight(), ChanceSum(b, me, d, 0))
  }

  /** The sum of the values of the opponent's legal replies from column `c` on. */
  function ChanceSum(b: Board, me: PlayerNumber, d: nat, c: nat): (r: Ext)
    requires WellFormed(b) && d < ExpectimaxCutoff && c <= Width
    ensures r != PosInf
    decreases ExpectimaxCutoff - d, 1, Width - c
  {
    if c == Width then Fin(0.0)
    else if !Legal(b, c) then ChanceSum(b, me, d, c + 1)
    else Add(ExpectiValue(Drop(b, c, Opponent(me)), me, d + 1), ChanceSum(b, me, d, c + 1))
  }

  /** The value of each root move for expectimax, `-inf` for a full column. */
  function ExpRootValues(b: Board, me: PlayerNumber): (vs: seq<Ext>)
    requires WellFormed(b)
    ensures |vs| == Width
    ensures forall c :: 0 <= c < Width ==> vs[c] == if Legal(b, c) then ChanceValue(Drop(b, c, me), me, 1) else NegInf
  {
    seq(Width, c requires 0 <= c < Width => if Legal(b, c) then ChanceValue(Drop(b, c, me), me, 1) else NegInf)
  }

  /** The move of the reference: the probe's column, else the first column of largest chance value. */
  function ExpectiMove(b: Board, me: PlayerNumber): int
    requires WellFormed(b)
  {
    match Probe(b, me)
    case Some(c) => c
    case None => BestFrom(ExpRootValues(b, me), 0, NegInf, -1).1
  }

  // ---------------------------------------------------------------------------
  // The source's expectimax computes the reference

  /**
   * Below the root `beta` stays `inf` and `alpha` is never consulted: the value
   * of `expectimax_val` is the reference value, whatever `alpha` is.
   */
  lemma {:induction false} ExpMaxExact(b: Board, me: PlayerNumber, d: nat, alpha: Ext)
    requires WellFormed(b) && 1 <= d <= ExpectimaxCutoff
    ensures ExpMax(b, me, d, alpha, PosInf).0 == ExpectiValue(b, me, d)
    decreases ExpectimaxCutoff - d, 2, 0
  {
    if d < ExpectimaxCutoff {
      ExpMaxLoopExact(b, me, d, alpha, 0, NegInf, -1);
    }
  }

  lemma {:induction false} ExpMaxLoopExact(b: Board, me: PlayerNumber, d: nat, alpha: Ext, c: nat, cost: Ext, move: int)
    requires WellFormed(b) && 1 <= d < ExpectimaxCutoff && c <= Width && cost != PosInf
    ensures ExpMaxLoop(b, me, d, alpha, PosInf, c, cost, move).0 == Max(cost, ExpectiOver(b, me, d, c))
    decreases ExpectimaxCutoff - d, 1, Width - c, 1
  {
    if c == Width {
    } else if !Legal(b, c) {
      ExpMaxLoopExact(b, me, d, alpha, c + 1, cost, move);
    } else {
      var v := ExpMaxLoopStep(b, me, d, alpha, c, cost, move);
      var cost' := Max(cost, v);
      MaxAssoc(cost, v, ExpectiOver(b, me, d, c + 1));
      ExpMaxLoopExact(b, me, d, Max(alpha, cost'), c + 1, cost', if Lt(cost, v) then c else move);
    }
  }

  /** One legal column of `expectimax_val` below the root: the child's value is its chance value `v`. */
  lemma ExpMaxLoopStep(b: Board, me: PlayerNumber, d: nat, alpha: Ext, c: nat, cost: Ext, move: int) returns (v: Ext)
    requires WellFormed(b) && 1 <= d < ExpectimaxCutoff && c < Width && Legal(b, c) && cost != PosInf
    ensures v == ChanceValue(Drop(b, c, me), me, d + 1) && v != PosInf
    ensures ExpMaxLoop(b, me, d, alpha, PosInf, c, cost, move)
      == ExpMaxLoop(b, me, d, Max(alpha, Max(cost, v)), PosInf, c + 1, Max(cost, v), if Lt(cost, v) then c else move)
    ensures ExpectiOver(b, me, d, c) == Max(v, ExpectiOver(b, me, d, c + 1))
    decreases ExpectimaxCutoff - d, 1, Width - c, 0
  {
    v := ChanceValue(Drop(b, c, me), me, d + 1);
    MinChanceExact(Drop(b, c, me), me, d + 1, alpha);
    assert MinChance(Drop(b, c, me), me, d + 1, alpha, PosInf) == v;
    var cost' := Max(cost, v);
    assert cost' != PosInf && !Le(PosInf, cost');
    assert ExpMaxLoop(b, me, d, alpha, PosInf, c, cost, move)
      == ExpMaxLoop(b, me, d, Max(alpha, cost'), PosInf, c + 1, cost', if Lt(cost, v) then c else move);
  }

  /** The value of `min_chance` is the reference chance value, whatever `alpha` is. */
  lemma {:induction false} MinChanceExact(b: Board, me: PlayerNumber, d: nat, alpha: Ext)
    requires WellFormed(b) && 1 <= d <= ExpectimaxCutoff
    ensures MinChance(b, me, d, alpha, PosInf) == ChanceValue(b, me, d)
    decreases ExpectimaxCutoff - d, 2, 0, 0
  {
    if !(d == 1 && TerminalEval(b, me)) && d < ExpectimaxCutoff {
      MinChanceLoopSum(b, me, d, alpha, 0, Fin(0.0));
      AddZero(Scale(ReplyWeight(), ChanceSum(b, me, d, 0)));
    }
  }

  /** The running average of `min_chance` gains `1/7` of each legal reply's value. */
  lemma {:induction false} MinChanceLoopSum(b: Board, me: PlayerNumber, d: nat, alpha: Ext, c: nat, average: Ext)
    requires WellFormed(b) && 1 <= d < ExpectimaxCutoff && c <= Width && average != PosInf
    ensures MinChanceLoop(b, me, d, alpha, PosInf, c, average) == Add(average, Scale(ReplyWeight(), ChanceSum(b, me, d, c)))
    decreases ExpectimaxCutoff - d, 1, Width - c, 1
  {
    var k := ReplyWeight();
    if c == Width {
      AddZero(average);
    } else if !Legal(b, c) {
      MinChanceLoopSum(b, me, d, alpha, c + 1, average);
    } else {
      var v := MinChanceLoopStep(b, me, d, alpha, c, average);
      var rest := ChanceSum(b, me, d, c + 1);
      MinChanceLoopSum(b, me, d, alpha, c + 1, Add(average, Scale(k, v)));
      AddAssoc(average, Scale(k, v), Scale(k, rest));
      ScaleAdd(k, v, rest);
    }
  }

  /** One legal reply of `min_chance`: the value the loop adds is the reply's reference value `v`. */
  lemma MinChanceLoopStep(b: Board, me: PlayerNumber, d: nat, alpha: Ext, c: nat, average: Ext) returns (v: Ext)
    requires WellFormed(b) && 1 <= d < ExpectimaxCutoff && c < Width && Legal(b, c) && average != PosInf
    ensures v == ExpectiValue(Drop(b, c, Opponent(me)), me, d + 1) && v != PosInf
    ensures MinChanceLoop(b, me, d, alpha, PosInf, c, average)
      == MinChanceLoop(b, me, d, alpha, PosInf, c + 1, Add(average, Scale(ReplyWeight(), v)))
    ensures ChanceSum(b, me, d, c) == Add(v, ChanceSum(b, me, d, c + 1))
    decreases ExpectimaxCutoff - d, 1, Width - c, 0
  {
    v := ExpectiValue(Drop(b, c, Opponent(me)), me, d + 1);
    ExpMaxExact(Drop(b, c, Opponent(me)), me, d + 1, alpha);
  }

  /** At the root of expectimax each child's value is its reference chance value, so the scan is `BestFrom`. */
  lemma {:induction false} ExpRootLoop(b: Board, me: PlayerNumber, alpha: Ext, c: nat, cost: Ext, move: int)
    requires WellFormed(b) && c <= Width && cost != PosInf
    ensures ExpMaxLoop(b, me, 0, alpha, PosInf, c, cost, move) == BestFrom(ExpRootValues(b, me), c, cost, move)
    decreases Width - c
  {
    var vs := ExpRootValues(b, me);
    if c == Width {
    } else if !Legal(b, c) {
      ExpRootLoop(b, me, alpha, c + 1, cost, move);
    } else {
      var v := ExpRootStep(b, me, alpha, c, cost, move);
      if Lt(cost, v) && v == PosInf {
        BestFromTop(vs, c + 1, c);
      } else if Lt(cost, v) {
        ExpRootLoop(b, me, Max(alpha, v), c + 1, v, c);
      } else {
        ExpRootLoop(b, me, Max(alpha, cost), c + 1, cost, move);
      }
    }
  }

  /** One legal column at the root of expectimax: the child's value is the reference value `v` of that column. */
  lemma ExpRootStep(b: Board, me: PlayerNumber, alpha: Ext, c: nat, cost: Ext, move: int) returns (v: Ext)
    requires WellFormed(b) && c < Width && Legal(b, c) && cost != PosInf
    ensures v == ExpRootValues(b, me)[c]
    ensures ExpMaxLoop(b, me, 0, alpha, PosInf, c, cost, move)
      == if Lt(cost, v) && v == PosInf then (v, c)
         else ExpMaxLoop(b, me, 0, Max(alpha, Max(cost, v)), PosInf, c + 1, Max(cost, v), if Lt(cost, v) then c else move)
    ensures BestFrom(ExpRootValues(b, me), c, cost, move)
      == if Lt(cost, v) then BestFrom(ExpRootValues(b, me), c + 1, v, c) else BestFrom(ExpRootValues(b, me), c + 1, cost, move)
  {
    v := ChanceValue(Drop(b, c, me), me, 1);
    MinChanceExact(Drop(b, c, me), me, 1, alpha);
  }

  /** `get_expectimax_move` plays the move of the reference expectimax. */
  lemma ExpectimaxIsReference(b: Board, me: PlayerNumber)
    requires WellFormed(b)
    ensures ExpectimaxMove(b, me) == ExpectiMove(b, me)
  {
    if Probe(b, me).None? {
      ExpRootLoop(b, me, NegInf, 0, NegInf, -1);
    }
  }

  /**
   * The expectimax move is -1 or a legal column, and it is -1 exactly when the
   * probe misses and every legal move's chance value is `-inf`.
   */
  lemma ExpectimaxMoveLegal(b: Board, me: PlayerNumber)
    requires WellFormed(b)
    ensures var m := ExpectimaxMove(b, me);
      && (m == -1 || (0 <= m < Width && Legal(b, m)))
      && (m == -1 <==>
            Probe(b, me).None? && forall c :: 0 <= c < Width && Legal(b, c) ==> ChanceValue(Drop(b, c, me), me, 1) == NegInf)
  {
    ExpectimaxIsReference(b, me);
    var vs := ExpRootValues(b, me);
    BestIsFirstMaximum(vs);
    if Probe(b, me).None? && forall c :: 0 <= c < Width && Legal(b, c) ==> ChanceValue(Drop(b, c, me), me, 1) == NegInf {
      assert forall c :: 0 <= c < Width ==> vs[c] == NegInf;
    }
  }

  // ---------------------------------------------------------------------------
  // When expectimax finds a move

  lemma {:induction false} ExpectiOverNotNegInf(b: Board, me: PlayerNumber, d: nat, c: nat, w: nat)
    requires WellFormed(b) && d < ExpectimaxCutoff && c <= w < Width && Legal(b, w)
    requires ChanceValue(Drop(b, w, me), me, d + 1) != NegInf
    ensures ExpectiOver(b, me, d, c) != NegInf
    decreases Width - c
  {
    if c < w {
      ExpectiOverNotNegInf(b, me, d, c + 1, w);
    }
  }

  lemma {:induction false} ChanceSumNotNegInf(b: Board, me: PlayerNumber, d: nat, c: nat)
    requires WellFormed(b) && d < ExpectimaxCutoff && c <= Width
    requires forall c' :: c <= c' < Width && Legal(b, c') ==> ExpectiValue(Drop(b, c', Opponent(me)), me, d + 1) != NegInf
    ensures ChanceSum(b, me, d, c) != NegInf
    decreases Width - c
  {
    if c < Width {
      ChanceSumNotNegInf(b, me, d, c + 1);
    }
  }

  /** From depth 3 on a chance ply is never `-inf`: its replies are evaluated. */
  lemma ChanceValueDeepNotNegInf(b: Board, me: PlayerNumber, d: nat)
    requires WellFormed(b) && 3 <= d <= ExpectimaxCutoff
    ensures ChanceValue(b, me, d) != NegInf
  {
    if d < ExpectimaxCutoff {
      ChanceSumNotNegInf(b, me, d, 0);
    }
  }

  /** From depth 2 on a maximising ply with a legal move is never `-inf`. */
  lemma ExpectiValueNotNegInf(b: Board, me: PlayerNumber, d: nat)
    requires WellFormed(b) && 2 <= d <= ExpectimaxCutoff && (d == ExpectimaxCutoff || EmptyCount(b) > 0)
    ensures ExpectiValue(b, me, d) != NegInf
  {
    if d < ExpectimaxCutoff {
      SomeLegalColumn(b, 0);
      var w :| 0 <= w < Width && Legal(b, w);
      ChanceValueDeepNotNegInf(Drop(b, w, me), me, d + 1);
      ExpectiOverNotNegInf(b, me, d, 0, w);
    }
  }

  /**
   * A chance ply is `-inf` only if some reply leaves a maximising ply without
   * moves before the cutoff, which needs exactly one empty cell.
   */
  lemma ChanceValueNotNegInf(b: Board, me: PlayerNumber, d: nat)
    requires WellFormed(b) && 1 <= d <= ExpectimaxCutoff && EmptyCount(b) != 1
    ensures ChanceValue(b, me, d) != NegInf
  {
    if 3 <= d {
      ChanceValueDeepNotNegInf(b, me, d);
    } else if !(d == 1 && TerminalEval(b, me)) {
      if EmptyCount(b) == 0 {
        LegalIffEmpty(b);
      } else {
        forall c' | 0 <= c' < Width && Legal(b, c')
          ensures ExpectiValue(Drop(b, c', Opponent(me)), me, d + 1) != NegInf
        {
          ChanceChildNotNegInf(b, me, d, c');
        }
      }
      ChanceSumNotNegInf(b, me, d, 0);
    }
  }

  lemma ChanceChildNotNegInf(b: Board, me: PlayerNumber, d: nat, w: nat)
    requires WellFormed(b) && 1 <= d <= 2 && EmptyCount(b) >= 2 && w < Width && Legal(b, w)
    ensures ExpectiValue(Drop(b, w, Opponent(me)), me, d + 1) != NegInf
  {
    var child := Child(b, w, Opponent(me));
    ExpectiValueNotNegInf(child, me, d + 1);
  }

  /** Unless exactly two cells are empty, the expectimax move on a board with an empty cell is a legal column. */
  lemma ExpectimaxMoveLegalWhenNotTwo(b: Board, me: PlayerNumber)
    requires WellFormed(b) && EmptyCount(b) > 0 && EmptyCount(b) != 2
    ensures 0 <= ExpectimaxMove(b, me) < Width && Legal(b, ExpectimaxMove(b, me))
  {
    ExpectimaxMoveLegal(b, me);
    SomeLegalColumn(b, 0);
    var w :| 0 <= w < Width && Legal(b, w);
    DropFillsOneCell(b, w, me);
    ChanceValueNotNegInf(Drop(b, w, me), me, 1);
  }

  lemma {:induction false} ExpectiOverNoMoves(b: Board, me: PlayerNumber, d: nat, c: nat)
    requires WellFormed(b) && d < ExpectimaxCutoff && c <= Width && EmptyCount(b) == 0
    ensures ExpectiOver(b, me, d, c) == NegInf
    decreases Width - c
  {
    LegalIffEmpty(b);
    if c < Width {
      ExpectiOverNoMoves(b, me, d, c + 1);
    }
  }

  lemma {:induction false} ChanceSumNegInf(b: Board, me: PlayerNumber, d: nat, c: nat, w: nat)
    requires WellFormed(b) && d < ExpectimaxCutoff && c <= w < Width && Legal(b, w)
    requires ExpectiValue(Drop(b, w, Opponent(me)), me, d + 1) == NegInf
    ensures ChanceSum(b, me, d, c) == NegInf
    decreases Width - c
  {
    if c < w {
      ChanceSumNegInf(b, me, d, c + 1, w);
    }
  }

  /**
   * A depth-1 chance ply with one empty cell where the detector does not
   * fire: the only reply fills the board, the maximising ply after it has no move and is
   * `-inf`, and so is the sum.
   */
  lemma ExpShallowRootChild(b: Board, me: PlayerNumber)
    requires WellFormed(b) && !TerminalEval(b, me) && EmptyCount(b) == 1
    ensures ChanceValue(b, me, 1) == NegInf
  {
    ExpShallowSum(b, me);
    assert ChanceValue(b, me, 1) == Scale(ReplyWeight(), ChanceSum(b, me, 1, 0));
  }

  /** With one empty cell, the sum over the replies of a depth-1 chance ply is `-inf`. */
  lemma ExpShallowSum(b: Board, me: PlayerNumber)
    requires WellFormed(b) && EmptyCount(b) == 1
    ensures ChanceSum(b, me, 1, 0) == NegInf
  {
    SomeLegalColumn(b, 0);
    var w :| 0 <= w < Width && Legal(b, w);
    ExpLastReply(b, me, w);
    ChanceSumNegInf(b, me, 1, 0, w);
  }

  /** The reply that fills the board leaves the maximising ply of depth 2 without moves. */
  lemma ExpLastReply(b: Board, me: PlayerNumber, w: nat)
    requires WellFormed(b) && EmptyCount(b) == 1 && w < Width && Legal(b, w)
    ensures ExpectiValue(Drop(b, w, Opponent(me)), me, 2) == NegInf
  {
    DropFillsOneCell(b, w, Opponent(me));
    ExpectiOverNoMoves(Drop(b, w, Opponent(me)), me, 2, 0);
  }

  /**
   * As written, `get_expectimax_move` gives up on an ordinary board with two
   * empty cells when no immediate threat is found: each move leaves one cell
   * for the opponent, after which the maximising ply has no move, so every
   * move is worth `-inf` and -1 is returned although a legal column exists.
   */
  lemma ExpectimaxGivesUp(b: Board, me: PlayerNumber)
    requires WellFormed(b) && Ordinary(b) && EmptyCount(b) == 2
    requires Probe(b, me).None?
    ensures ExpectimaxMove(b, me) == -1
    ensures exists c :: 0 <= c < Width && Legal(b, c)
  {
    SomeLegalColumn(b, 0);
    forall c | 0 <= c < Width && Legal(b, c)
      ensures ChanceValue(Drop(b, c, me), me, 1) == NegInf
    {
      OrdinaryDrop(b, c, me);
      DeadOnOrdinary(Drop(b, c, me), me);
      ExpShallowRootChild(Drop(b, c, me), me);
    }
    ExpectimaxMoveLegal(b, me);
  }

  // ---------------------------------------------------------------------------
  // The chance ply weighs each reply 1/7, whatever the number of legal replies

  /** The number of legal columns from `c` on. */
  function LegalCount(b: Board, c: nat): nat
    requires WellFormed(b) && c <= Width
    decreases Width - c
  {
    if c == Width then 0 else (if Legal(b, c) then 1 else 0) + LegalCount(b, c + 1)
  }

  /** `LegalCount` counts the `valid_cols` list. */
  lemma {:induction false} LegalCountIsLength(b: Board, c: nat)
    requires WellFormed(b) && c <= Width
    ensures LegalCount(b, c) == |LegalColumnsFrom(b, c)|
    decreases Width - c
  {
    if c < Width {
      LegalCountIsLength(b, c + 1);
      assert LegalColumnsFrom(b, c) == if Legal(b, c) then [c] + LegalColumnsFrom(b, c + 1) else LegalColumnsFrom(b, c + 1);
    }
  }

  lemma {:induction false} LegalCountBound(b: Board, c: nat)
    requires WellFormed(b) && c <= Width
    ensures LegalCount(b, c) <= Width - c
    ensures (exists x :: c <= x < Width && !Legal(b, x)) ==> LegalCount(b, c) < Width - c
    ensures (forall x :: c <= x < Width ==> Legal(b, x)) ==> LegalCount(b, c) == Width - c
    decreases Width - c
  {
    if c < Width {
      LegalCountBound(b, c + 1);
      if exists x :: c <= x < Width && !Legal(b, x) {
        var x :| c <= x < Width && !Legal(b, x);
        if x != c {
          assert exists x :: c + 1 <= x < Width && !Legal(b, x);
        }
      }
    }
  }

  /** The values of the opponent's legal replies from column `c` on, in column order. */
  function ReplyValues(b: Board, me: PlayerNumber, d: nat, c: nat): (vs: seq<Ext>)
    requires WellFormed(b) && d < ExpectimaxCutoff && c <= Width
    ensures |vs| == LegalCount(b, c)
    ensures forall i :: 0 <= i < |vs| ==> vs[i] != PosInf
    decreases Width - c
  {
    if c == Width then []
    else if Legal(b, c) then [ExpectiValue(Drop(b, c, Opponent(me)), me, d + 1)] + ReplyValues(b, me, d, c + 1)
    else ReplyValues(b, me, d, c + 1)
  }

  /** The chance sum is the sum of the legal replies' values. */
  lemma {:induction false} ChanceSumIsSum(b: Board, me: PlayerNumber, d: nat, c: nat)
    requires WellFormed(b) && d < ExpectimaxCutoff && c <= Width
    ensures ChanceSum(b, me, d, c) == Sum(ReplyValues(b, me, d, c))
    decreases Width - c
  {
    if c < Width {
      ChanceSumIsSum(b, me, d, c + 1);
      if Legal(b, c) {
        var vs := ReplyValues(b, me, d, c);
        assert vs[1..] == ReplyValues(b, me, d, c + 1);
      }
    }
  }

  /**
   * As written, `min_chance` divides by the number of columns, not by the
   * number of legal replies: when every legal reply is worth `x`, the chance
   * ply is worth `n/7` of `x` for `n` legal replies, which is not `x` once a
   * column is full and `x` is not 0.
   */
  lemma ChanceValueUnderweights(b: Board, me: PlayerNumber, d: nat, x: real)
    requires WellFormed(b) && 1 <= d < ExpectimaxCutoff && !(d == 1 && TerminalEval(b, me))
    requires forall i :: 0 <= i < |ReplyValues(b, me, d, 0)| ==> ReplyValues(b, me, d, 0)[i] == Fin(x)
    ensures ChanceValue(b, me, d) == Scale(ReplyWeight(), Fin(Times(|LegalColumns(b)|, x)))
    ensures (exists c :: 0 <= c < Width && !Legal(b, c)) && x != 0.0 ==> ChanceValue(b, me, d) != Fin(x)
  {
    var n := LegalCount(b, 0);
    ChanceSumIsSum(b, me, d, 0);
    SumUniform(ReplyValues(b, me, d, 0), x);
    LegalCountIsLength(b, 0);
    LegalCountBound(b, 0);
    ReplyWeightIsShare();
    assert |LegalColumns(b)| == n;
    assert ChanceValue(b, me, d) == Scale(Share(Width), Fin(Times(n, x)));
    ShareOfTimes(Width, n, x);
    if (exists c :: 0 <= c < Width && !Legal(b, c)) && x != 0.0 {
      assert n < Width;
    }
  }

  /**
   * The chance ply as the expectation over the random player's equally likely
   * legal replies: the sum divided by their number (0 when there is none).
   */
  function ChanceMean(b: Board, me: PlayerNumber, d: nat): (r: Ext)
    requires WellFormed(b) && d <= ExpectimaxCutoff
    ensures 2 <= d ==> r != PosInf
  {
    var n := LegalCount(b, 0);
    if d == 1 && TerminalEval(b, me) then PosInf
    else if d == ExpectimaxCutoff then FromInt(Evaluate(b, me))
    else if n == 0 then Fin(0.0)
    else Scale(Share(n), ChanceSum(b, me, d, 0))
  }

  /** The expectation of replies that are all worth `x` is `x`. */
  lemma ChanceMeanUniform(b: Board, me: PlayerNumber, d: nat, x: real)
    requires WellFormed(b) && 1 <= d < ExpectimaxCutoff && !(d == 1 && TerminalEval(b, me))
    requires exists c :: 0 <= c < Width && Legal(b, c)
    requires forall i :: 0 <= i < |ReplyValues(b, me, d, 0)| ==> ReplyValues(b, me, d, 0)[i] == Fin(x)
    ensures ChanceMean(b, me, d) == Fin(x)
  {
    var n := LegalCount(b, 0);
    ChanceSumIsSum(b, me, d, 0);
    SumUniform(ReplyValues(b, me, d, 0), x);
    LegalCountPositive(b, 0);
    assert ChanceMean(b, me, d) == Scale(Share(n), Fin(Times(n, x)));
    ShareOfTimes(n, n, x);
  }

  lemma {:induction false} LegalCountPositive(b: Board, c: nat)
    requires WellFormed(b) && c <= Width && exists x :: c <= x < Width && Legal(b, x)
    ensures LegalCount(b, c) > 0
    decreases Width - c
  {
    if !Legal(b, c) {
      LegalCountPositive(b, c + 1);
    }
  }

  /** With every column legal the source's weighting is the expectation. */
  lemma ChanceMeanWhenNoColumnFull(b: Board, me: PlayerNumber, d: nat)
    requires WellFormed(b) && d <= ExpectimaxCutoff
    requires forall c :: 0 <= c < Width ==> Legal(b, c)
    ensures ChanceMean(b, me, d) == ChanceValue(b, me, d)
  {
    LegalCountBound(b, 0);
    ReplyWeightIsShare();
  }

  // ---------------------------------------------------------------------------
  // Playing a legal column when the search gives up

  /**
   * The move the engine evidently means to play: the search's move `m`, or the
   * first legal column when the search returns -1 although one exists.
   */
  function Fallback(b: Board, m: int): (g: int)
    requires WellFormed(b) && (m == -1 || (0 <= m < Width && Legal(b, m)))
    ensures (exists c :: 0 <= c < Width && Legal(b, c)) <==> 0 <= g < Width && Legal(b, g)
    ensures (forall c :: 0 <= c < Width ==> !Legal(b, c)) ==> g == -1
    ensures m != -1 ==> g == m
  {
    LegalColumnsComplete(b);
    var legal := LegalColumns(b);
    if m == -1 && |legal| > 0 then legal[0] else m
  }

  lemma LegalColumnsComplete(b: Board)
    requires WellFormed(b)
    ensures (exists c :: 0 <= c < Width && Legal(b, c)) <==> LegalColumns(b) != []
  {
    if exists c :: 0 <= c < Width && Legal(b, c) {
      var c :| 0 <= c < Width && Legal(b, c);
      assert c in LegalColumns(b);
    }
  }

  /** `get_alpha_beta_move` made to play a legal column whenever one exists. */
  function GuardedAlphaBetaMove(b: Board, me: PlayerNumber): (g: int)
    requires WellFormed(b)
    ensures (exists c :: 0 <= c < Width && Legal(b, c)) <==> 0 <= g < Width && Legal(b, g)
    ensures AlphaBetaMove(b, me) != -1 ==> g == AlphaBetaMove(b, me)
  {
    AlphaBetaMoveLegal(b, me);
    Fallback(b, AlphaBetaMove(b, me))
  }

  /** `get_expectimax_move` made to play a legal column whenever one exists. */
  function GuardedExpectimaxMove(b: Board, me: PlayerNumber): (g: int)
    requires WellFormed(b)
    ensures (exists c :: 0 <= c < Width && Legal(b, c)) <==> 0 <= g < Width && Legal(b, g)
    ensures ExpectimaxMove(b, me) != -1 ==> g == ExpectimaxMove(b, me)
  {
    ExpectimaxMoveLegal(b, me);
    Fallback(b, ExpectimaxMove(b, me))
  }
}
