/** The game-tree searches of `backend/bots.py`: `minnie`'s plain minimax
    and `sasha`'s alpha-beta, both with the source's pass rule (a side with
    no move hands the turn over and the depth still goes down by one). The
    searches are written against `Rules`, the few game functions they call;
    `Bots.Othello` supplies the engine's own. The alpha-beta search is
    modelled without its transposition table and proved fail-soft with
    respect to minimax, hence equal to it with an unbounded window. */
module Search {
  import opened Common
  import opened Board
  import opened Ordering

  /** What a search asks of the game: the moves a side has, in the order
      the source lists them; the board a move leads to; the leaf evaluation
      from a side's perspective; and the sort key the alpha-beta search
      orders moves by. */
  datatype Rules = Rules(
    moves: (Board, int) -> seq<Pos>,
    next: (Board, Pos, int) -> Board,
    eval: (Board, int) -> int,
    key: (Board, int, Pos) -> (int, int))

  /** The evaluation is zero-sum: what one side gains the other loses. */
  ghost predicate ZeroSum(R: Rules) {
    forall b :: R.eval(b, -1) == -R.eval(b, 1)
  }

  // ---------------------------------------------------------------------
  // Minimax

  /** `minimax(g, turn, d)` for the side `player`: at depth 0 the board is
      evaluated; a side without moves passes when the other side can move
      (at depth `d - 1`) and the board is evaluated when neither can;
      otherwise `player` takes the largest and the opponent the smallest
      value of the positions its moves lead to. */
  function Minimax(R: Rules, player: int, b: Board, turn: int, d: nat): int
    decreases d, 1, 0
  {
    var moves := R.moves(b, turn);
    if d == 0 then R.eval(b, player)
    else if moves == [] then
      if R.moves(b, -turn) != [] then Minimax(R, player, b, -turn, d - 1)
      else R.eval(b, player)
    else if turn == player then MaxOver(R, player, b, turn, d, moves)
    else MinOver(R, player, b, turn, d, moves)
  }

  /** The minimax value of the position the move `m` leads to. */
  function Child(R: Rules, player: int, b: Board, turn: int, d: nat, m: Pos): int
    requires d >= 1
    decreases d, 0, 0
  {
    Minimax(R, player, R.next(b, m, turn), -turn, d - 1)
  }

  /** `best = max(best, minimax(sim, -turn, d - 1))` over the moves `ms`. */
  function MaxOver(R: Rules, player: int, b: Board, turn: int, d: nat, ms: seq<Pos>): int
    requires d >= 1 && ms != []
    decreases d, 0, |ms|
  {
    var v := Child(R, player, b, turn, d, ms[0]);
    if |ms| == 1 then v else Max(v, MaxOver(R, player, b, turn, d, ms[1..]))
  }

  /** `best = min(best, minimax(sim, -turn, d - 1))` over the moves `ms`. */
  function MinOver(R: Rules, player: int, b: Board, turn: int, d: nat, ms: seq<Pos>): int
    requires d >= 1 && ms != []
    decreases d, 0, |ms|
  {
    var v := Child(R, player, b, turn, d, ms[0]);
    if |ms| == 1 then v else Min(v, MinOver(R, player, b, turn, d, ms[1..]))
  }

  /** `MaxOver` is the largest child value: no move of `ms` leads to more,
      and some move leads to exactly that much. */
  lemma {:induction false} MaxOverIsMaximum(R: Rules, player: int, b: Board, turn: int, d: nat, ms: seq<Pos>)
    requires d >= 1 && ms != []
    ensures forall m :: m in ms ==> Child(R, player, b, turn, d, m) <= MaxOver(R, player, b, turn, d, ms)
    ensures exists i :: 0 <= i < |ms| && Child(R, player, b, turn, d, ms[i]) == MaxOver(R, player, b, turn, d, ms)
  {
    var r := MaxOver(R, player, b, turn, d, ms);
    if |ms| == 1 {
      assert Child(R, player, b, turn, d, ms[0]) == r;
    } else {
      var tail := ms[1..];
      MaxOverIsMaximum(R, player, b, turn, d, tail);
      forall m | m in ms ensures Child(R, player, b, turn, d, m) <= r {
        if m != ms[0] {
          assert m in tail;
        }
      }
      if Child(R, player, b, turn, d, ms[0]) != r {
        var i :| 0 <= i < |tail| && Child(R, player, b, turn, d, tail[i]) == MaxOver(R, player, b, turn, d, tail);
        assert ms[i + 1] == tail[i];
      }
    }
  }

  /** `MinOver` is the smallest child value. */
  lemma {:induction false} MinOverIsMinimum(R: Rules, player: int, b: Board, turn: int, d: nat, ms: seq<Pos>)
    requires d >= 1 && ms != []
    ensures forall m :: m in ms ==> MinOver(R, player, b, turn, d, ms) <= Child(R, player, b, turn, d, m)
    ensures exists i :: 0 <= i < |ms| && Child(R, player, b, turn, d, ms[i]) == MinOver(R, player, b, turn, d, ms)
  {
    var r := MinOver(R, player, b, turn, d, ms);
    if |ms| == 1 {
      assert Child(R, player, b, turn, d, ms[0]) == r;
    } else {
      var tail := ms[1..];
      MinOverIsMinimum(R, player, b, turn, d, tail);
      forall m | m in ms ensures r <= Child(R, player, b, turn, d, m) {
        if m != ms[0] {
          assert m in tail;
        }
      }
      if Child(R, player, b, turn, d, ms[0]) != r {
        var i :| 0 <= i < |tail| && Child(R, player, b, turn, d, tail[i]) == MinOver(R, player, b, turn, d, tail);
        assert ms[i + 1] == tail[i];
      }
    }
  }

  /** The order in which the moves are tried does not change the value:
      two lists holding the same moves have the same maximum and the same
      minimum. */
  lemma SameMovesSameValue(R: Rules, player: int, b: Board, turn: int, d: nat, ms: seq<Pos>, ns: seq<Pos>)
    requires d >= 1 && ms != []
    requires forall m :: m in ms <==> m in ns
    ensures ns != []
    ensures MaxOver(R, player, b, turn, d, ms) == MaxOver(R, player, b, turn, d, ns)
    ensures MinOver(R, player, b, turn, d, ms) == MinOver(R, player, b, turn, d, ns)
  {
    assert ms[0] in ns;
    MaxOverIsMaximum(R, player, b, turn, d, ms);
    MaxOverIsMaximum(R, player, b, turn, d, ns);
    MinOverIsMinimum(R, player, b, turn, d, ms);
    MinOverIsMinimum(R, player, b, turn, d, ns);
    var i :| 0 <= i < |ms| && Child(R, player, b, turn, d, ms[i]) == MaxOver(R, player, b, turn, d, ms);
    var j :| 0 <= j < |ns| && Child(R, player, b, turn, d, ns[j]) == MaxOver(R, player, b, turn, d, ns);
    assert ms[i] in ns && ns[j] in ms;
    var k :| 0 <= k < |ms| && Child(R, player, b, turn, d, ms[k]) == MinOver(R, player, b, turn, d, ms);
    var l :| 0 <= l < |ns| && Child(R, player, b, turn, d, ns[l]) == MinOver(R, player, b, turn, d, ns);
    assert ms[k] in ns && ns[l] in ms;
  }

  /** Minimax is zero-sum: searching for the opponent gives the negated
      value of searching for the player. */
  lemma {:induction false} MinimaxAntisymmetric(R: Rules, player: int, b: Board, turn: int, d: nat)
    requires ZeroSum(R)
    requires player == 1 || player == -1
    requires turn == 1 || turn == -1
    ensures Minimax(R, -player, b, turn, d) == -Minimax(R, player, b, turn, d)
    decreases d, 1, 0
  {
    var moves := R.moves(b, turn);
    if d == 0 || (moves == [] && R.moves(b, -turn) == []) {
      assert R.eval(b, -1) == -R.eval(b, 1);
    } else if moves == [] {
      MinimaxAntisymmetric(R, player, b, -turn, d - 1);
    } else if turn == player {
      MaxMinNegated(R, player, b, turn, d, moves);
    } else {
      MaxMinNegated(R, -player, b, turn, d, moves);
    }
  }

  /** The minimum for the opponent is the negated maximum for the player,
      over any list of moves. */
  lemma {:induction false} MaxMinNegated(R: Rules, player: int, b: Board, turn: int, d: nat, ms: seq<Pos>)
    requires ZeroSum(R)
    requires player == 1 || player == -1
    requires turn == 1 || turn == -1
    requires d >= 1 && ms != []
    ensures MinOver(R, -player, b, turn, d, ms) == -MaxOver(R, player, b, turn, d, ms)
    decreases d, 0, |ms|
  {
    MinimaxAntisymmetric(R, player, R.next(b, ms[0], turn), -turn, d - 1);
    if |ms| > 1 {
      MaxMinNegated(R, player, b, turn, d, ms[1..]);
    }
  }

  /** The three ways `minimax` ends or continues without trying a move: at
      depth 0 and when neither side can move it evaluates the board, and a
      side that cannot move passes at depth `d - 1`. */
  lemma MinimaxShape(R: Rules, player: int, b: Board, turn: int, d: nat)
    ensures d == 0 ==> Minimax(R, player, b, turn, d) == R.eval(b, player)
    ensures R.moves(b, turn) == [] && R.moves(b, -turn) == [] ==>
      Minimax(R, player, b, turn, d) == R.eval(b, player)
    ensures d != 0 && R.moves(b, turn) == [] && R.moves(b, -turn) != [] ==>
      Minimax(R, player, b, turn, d) == Minimax(R, player, b, -turn, d - 1)
  {
  }

  /** At a node where `turn` can move and depth remains, the value is the
      best child value for the side to move: the largest for `player`, the
      smallest for its opponent. */
  lemma MinimaxChoice(R: Rules, player: int, b: Board, turn: int, d: nat)
    requires d != 0 && R.moves(b, turn) != []
    ensures turn == player ==> forall m :: m in R.moves(b, turn) ==>
      Child(R, player, b, turn, d, m) <= Minimax(R, player, b, turn, d)
    ensures turn != player ==> forall m :: m in R.moves(b, turn) ==>
      Minimax(R, player, b, turn, d) <= Child(R, player, b, turn, d, m)
    ensures exists m :: m in R.moves(b, turn) && Child(R, player, b, turn, d, m) == Minimax(R, player, b, turn, d)
  {
    var moves := R.moves(b, turn);
    if turn == player {
      MaxOverIsMaximum(R, player, b, turn, d, moves);
    } else {
      MinOverIsMinimum(R, player, b, turn, d, moves);
    }
    var i :| 0 <= i < |moves| && Child(R, player, b, turn, d, moves[i]) == Minimax(R, player, b, turn, d);
    assert moves[i] in moves;
  }

  // ---------------------------------------------------------------------
  // Bounds

  /** A search bound: the source mixes the floats `-inf` and `inf` with
      integer scores. */
  datatype Bound = NegInf | Finite(n: int) | PosInf

  /** Strict order on bounds. */
  predicate Below(a: Bound, c: Bound) {
    (a.NegInf? && !c.NegInf?) || (a.Finite? && (c.PosInf? || (c.Finite? && a.n < c.n)))
  }

  /** Python's `max(a, c)`: `c` only when it is strictly greater. */
  function BMax(a: Bound, c: Bound): Bound {
    if Below(a, c) then c else a
  }

  /** Python's `min(a, c)`. */
  function BMin(a: Bound, c: Bound): Bound {
    if Below(a, c) then a else c
  }

  /** What a fail-soft search promises about its result `r` when asked
      with the window `(lo, hi)`, for a true value `v`: a result at or
      below `lo` bounds `v` from above, a result inside the window is `v`,
      and a result at or above `hi` bounds `v` from below. */
  predicate FailSoft(lo: Bound, hi: Bound, r: int, v: Bound) {
    && (!Below(lo, Finite(r)) ==> !Below(Finite(r), v))
    && (Below(lo, Finite(r)) && Below(Finite(r), hi) ==> v == Finite(r))
    && (!Below(Finite(r), hi) ==> !Below(v, Finite(r)))
  }

  // ---------------------------------------------------------------------
  // Alpha-beta

  /** `alphabeta(g, depth, alpha, beta, turn)` without the transposition
      table: the same leaves and pass rule as `minimax`, the moves tried in
      `order_moves` order, and a node stops trying moves once
      `alpha >= beta`. */
  function AlphaBeta(R: Rules, player: int, b: Board, depth: nat, alpha: Bound, beta: Bound, turn: int): int
    decreases depth, 1, 0
  {
    var moves := R.moves(b, turn);
    if depth == 0 || (moves == [] && R.moves(b, -turn) == []) then R.eval(b, player)
    else if moves == [] then AlphaBeta(R, player, b, depth - 1, alpha, beta, -turn)
    else
      var ordered := OrderMoves(R.key, b, turn, moves);
      if turn == player then MaxLoop(R, player, b, depth, beta, turn, ordered, alpha, NegInf)
      else MinLoop(R, player, b, depth, alpha, turn, ordered, beta, PosInf)
  }

  /** The maximizing loop over the moves `ms` still to try: `value =
      max(value, child)`, `alpha = max(alpha, value)`, stop when
      `alpha >= beta`. */
  function MaxLoop(R: Rules, player: int, b: Board, depth: nat, beta: Bound, turn: int,
                   ms: seq<Pos>, alpha: Bound, value: Bound): int
    requires depth >= 1 && !value.PosInf? && (ms != [] || value.Finite?)
    decreases depth, 0, |ms|
  {
    if ms == [] then value.n
    else
      var value' := BMax(value, Finite(AlphaBeta(R, player, R.next(b, ms[0], turn), depth - 1, alpha, beta, -turn)));
      var alpha' := BMax(alpha, value');
      if Below(alpha', beta) then MaxLoop(R, player, b, depth, beta, turn, ms[1..], alpha', value')
      else value'.n
  }

  /** The minimizing loop: `value = min(value, child)`,
      `beta = min(beta, value)`, stop when `alpha >= beta`. */
  function MinLoop(R: Rules, player: int, b: Board, depth: nat, alpha: Bound, turn: int,
                   ms: seq<Pos>, beta: Bound, value: Bound): int
    requires depth >= 1 && !value.NegInf? && (ms != [] || value.Finite?)
    decreases depth, 0, |ms|
  {
    if ms == [] then value.n
    else
      var value' := BMin(value, Finite(AlphaBeta(R, player, R.next(b, ms[0], turn), depth - 1, alpha, beta, -turn)));
      var beta' := BMin(beta, value');
      if Below(alpha, beta') then MinLoop(R, player, b, depth, alpha, turn, ms[1..], beta', value')
      else value'.n
  }

  /** The true value of a maximizing node once `M` is the best of the moves
      already tried and `ms` are still to come. */
  function MaxTarget(R: Rules, player: int, b: Board, turn: int, depth: nat, ms: seq<Pos>, M: Bound): Bound
    requires depth >= 1
  {
    if ms == [] then M else BMax(M, Finite(MaxOver(R, player, b, turn, depth, ms)))
  }

  /** The true value of a minimizing node, likewise. */
  function MinTarget(R: Rules, player: int, b: Board, turn: int, depth: nat, ms: seq<Pos>, M: Bound): Bound
    requires depth >= 1
  {
    if ms == [] then M else BMin(M, Finite(MinOver(R, player, b, turn, depth, ms)))
  }

  /** One round of the maximizing loop, on bounds alone. Before it, `value`
      is the best fail-soft child result so far and `M` the best true child
      value; when `value` lies above the original `a0` they agree, and when
      it does not `M` is at most `value`. The child returns `c` for the
      true value `t`. The round keeps that relation or, when it cuts off,
      returns a result that bounds `t` from below. */
  lemma MaxStep(a0: Bound, beta: Bound, value: Bound, M: Bound, c: int, t: int, value': Bound, M': Bound)
    requires value' == BMax(value, Finite(c)) && M' == BMax(M, Finite(t))
    requires !value.PosInf? && Below(BMax(a0, value), beta)
    requires !Below(a0, value) ==> !Below(value, M)
    requires Below(a0, value) ==> M == value
    requires FailSoft(BMax(a0, value), beta, c, Finite(t))
    ensures value'.Finite?
    ensures BMax(BMax(a0, value), value') == BMax(a0, value')
    ensures Below(BMax(a0, value'), beta) ==>
      (!Below(a0, value') ==> !Below(value', M')) && (Below(a0, value') ==> M' == value')
    ensures !Below(BMax(a0, value'), beta) ==> value' == Finite(c) && c <= t
  {
  }

  /** The mirror round of the minimizing loop against the original `b0`. */
  lemma MinStep(alpha: Bound, b0: Bound, value: Bound, M: Bound, c: int, t: int, value': Bound, M': Bound)
    requires value' == BMin(value, Finite(c)) && M' == BMin(M, Finite(t))
    requires !value.NegInf? && Below(alpha, BMin(b0, value))
    requires !Below(value, b0) ==> !Below(M, value)
    requires Below(value, b0) ==> M == value
    requires FailSoft(alpha, BMin(b0, value), c, Finite(t))
    ensures value'.Finite?
    ensures BMin(BMin(b0, value), value') == BMin(b0, value')
    ensures Below(alpha, BMin(b0, value')) ==>
      (!Below(value', b0) ==> !Below(M', value')) && (Below(value', b0) ==> M' == value')
    ensures !Below(alpha, BMin(b0, value')) ==> value' == Finite(c) && t <= c
  {
  }

  /** A loop that runs out of moves without a cut-off answers fail-soft. */
  lemma MaxEnd(a0: Bound, beta: Bound, value: Bound, M: Bound)
    requires value.Finite? && Below(BMax(a0, value), beta)
    requires !Below(a0, value) ==> !Below(value, M)
    requires Below(a0, value) ==> M == value
    ensures FailSoft(a0, beta, value.n, M)
  {
  }

  /** The minimizing counterpart of `MaxEnd`. */
  lemma MinEnd(alpha: Bound, b0: Bound, value: Bound, M: Bound)
    requires value.Finite? && Below(alpha, BMin(b0, value))
    requires !Below(value, b0) ==> !Below(M, value)
    requires Below(value, b0) ==> M == value
    ensures FailSoft(alpha, b0, value.n, M)
  {
  }

  /** A cut-off at or above `beta` by a child no better than the node's
      true value answers fail-soft. */
  lemma MaxBreak(a0: Bound, beta: Bound, M: Bound, c: int, x: int)
    requires Below(a0, beta) && !Below(Finite(c), beta) && c <= x
    ensures FailSoft(a0, beta, c, BMax(M, Finite(x)))
  {
  }

  /** A cut-off at or below `alpha`, likewise. */
  lemma MinBreak(alpha: Bound, b0: Bound, M: Bound, c: int, x: int)
    requires Below(alpha, b0) && !Below(alpha, Finite(c)) && x <= c
    ensures FailSoft(alpha, b0, c, BMin(M, Finite(x)))
  {
  }

  /** Taking the first child into the running maximum. */
  lemma BMaxJoin(M: Bound, t: int, x: int)
    ensures BMax(M, Finite(Max(t, x))) == BMax(BMax(M, Finite(t)), Finite(x))
  {
  }

  /** Taking the first child into the running minimum. */
  lemma BMinJoin(M: Bound, t: int, x: int)
    ensures BMin(M, Finite(Min(t, x))) == BMin(BMin(M, Finite(t)), Finite(x))
  {
  }

  /** Alpha-beta is fail-soft with respect to minimax: asked with a
      non-empty window, its result equals the minimax value when it falls
      inside the window and bounds it from the correct side otherwise. */
  lemma {:induction false} AlphaBetaSound(R: Rules, player: int, b: Board, depth: nat, alpha: Bound, beta: Bound, turn: int)
    requires Below(alpha, beta)
    ensures FailSoft(alpha, beta, AlphaBeta(R, player, b, depth, alpha, beta, turn),
                     Finite(Minimax(R, player, b, turn, depth)))
    decreases depth, 2, 0
  {
    var moves := R.moves(b, turn);
    if depth == 0 || (moves == [] && R.moves(b, -turn) == []) {
    } else if moves == [] {
      AlphaBetaPassSound(R, player, b, depth, alpha, beta, turn);
    } else if turn == player {
      AlphaBetaMaxSound(R, player, b, depth, alpha, beta, turn);
    } else {
      AlphaBetaMinSound(R, player, b, depth, alpha, beta, turn);
    }
  }

  /** `AlphaBetaSound` at a node whose side must pass. */
  lemma {:induction false} AlphaBetaPassSound(R: Rules, player: int, b: Board, depth: nat, alpha: Bound, beta: Bound, turn: int)
    requires Below(alpha, beta) && depth >= 1 && R.moves(b, turn) == [] && R.moves(b, -turn) != []
    ensures FailSoft(alpha, beta, AlphaBeta(R, player, b, depth, alpha, beta, turn),
                     Finite(Minimax(R, player, b, turn, depth)))
    decreases depth, 1, 0
  {
    AlphaBetaSound(R, player, b, depth - 1, alpha, beta, -turn);
  }

  /** `AlphaBetaSound` at a maximizing node with moves to search. */
  lemma {:induction false} AlphaBetaMaxSound(R: Rules, player: int, b: Board, depth: nat, alpha: Bound, beta: Bound, turn: int)
    requires Below(alpha, beta) && depth >= 1 && R.moves(b, turn) != [] && turn == player
    ensures FailSoft(alpha, beta, AlphaBeta(R, player, b, depth, alpha, beta, turn),
                     Finite(Minimax(R, player, b, turn, depth)))
    decreases depth, 1, 0
  {
    var moves := R.moves(b, turn);
    var ordered := OrderMoves(R.key, b, turn, moves);
    SameMovesSameValue(R, player, b, turn, depth, moves, ordered);
    MaxLoopSound(R, player, b, depth, alpha, beta, turn, ordered, alpha, NegInf, NegInf);
  }

  /** `AlphaBetaSound` at a minimizing node with moves to search. */
  lemma {:induction false} AlphaBetaMinSound(R: Rules, player: int, b: Board, depth: nat, alpha: Bound, beta: Bound, turn: int)
    requires Below(alpha, beta) && depth >= 1 && R.moves(b, turn) != [] && turn != player
    ensures FailSoft(alpha, beta, AlphaBeta(R, player, b, depth, alpha, beta, turn),
                     Finite(Minimax(R, player, b, turn, depth)))
    decreases depth, 1, 0
  {
    var moves := R.moves(b, turn);
    var ordered := OrderMoves(R.key, b, turn, moves);
    SameMovesSameValue(R, player, b, turn, depth, moves, ordered);
    MinLoopSound(R, player, b, depth, alpha, beta, turn, ordered, beta, PosInf, PosInf);
  }

  /** The maximizing loop started from `a0` answers fail-soft for the true
      value of the node, given the relation `MaxStep` keeps. */
  lemma {:induction false} MaxLoopSound(R: Rules, player: int, b: Board, depth: nat, a0: Bound, beta: Bound, turn: int,
                                        ms: seq<Pos>, alpha: Bound, value: Bound, M: Bound)
    requires depth >= 1 && !value.PosInf? && (ms != [] || value.Finite?)
    requires alpha == BMax(a0, value) && Below(alpha, beta)
    requires !Below(a0, value) ==> !Below(value, M)
    requires Below(a0, value) ==> M == value
    ensures FailSoft(a0, beta, MaxLoop(R, player, b, depth, beta, turn, ms, alpha, value),
                     MaxTarget(R, player, b, turn, depth, ms, M))
    decreases depth, 0, |ms|
  {
    if ms == [] {
      MaxEnd(a0, beta, value, M);
    } else {
      var nb := R.next(b, ms[0], turn);
      var c := AlphaBeta(R, player, nb, depth - 1, alpha, beta, -turn);
      var t := Minimax(R, player, nb, -turn, depth - 1);
      AlphaBetaSound(R, player, nb, depth - 1, alpha, beta, -turn);
      var value' := BMax(value, Finite(c));
      var M' := BMax(M, Finite(t));
      MaxStep(a0, beta, value, M, c, t, value', M');
      var x := MaxOver(R, player, b, turn, depth, ms);
      assert t == Child(R, player, b, turn, depth, ms[0]);
      if Below(BMax(alpha, value'), beta) {
        MaxLoopSound(R, player, b, depth, a0, beta, turn, ms[1..], BMax(alpha, value'), value', M');
        if |ms| > 1 {
          BMaxJoin(M, t, MaxOver(R, player, b, turn, depth, ms[1..]));
        }
      } else {
        MaxBreak(a0, beta, M, c, x);
      }
    }
  }

  /** The minimizing loop started from `b0` answers fail-soft likewise. */
  lemma {:induction false} MinLoopSound(R: Rules, player: int, b: Board, depth: nat, alpha: Bound, b0: Bound, turn: int,
                                        ms: seq<Pos>, beta: Bound, value: Bound, M: Bound)
    requires depth >= 1 && !value.NegInf? && (ms != [] || value.Finite?)
    requires beta == BMin(b0, value) && Below(alpha, beta)
    requires !Below(value, b0) ==> !Below(M, value)
    requires Below(value, b0) ==> M == value
    ensures FailSoft(alpha, b0, MinLoop(R, player, b, depth, alpha, turn, ms, beta, value),
                     MinTarget(R, player, b, turn, depth, ms, M))
    decreases depth, 0, |ms|
  {
    if ms == [] {
      MinEnd(alpha, b0, value, M);
    } else {
      var nb := R.next(b, ms[0], turn);
      var c := AlphaBeta(R, player, nb, depth - 1, alpha, beta, -turn);
      var t := Minimax(R, player, nb, -turn, depth - 1);
      AlphaBetaSound(R, player, nb, depth - 1, alpha, beta, -turn);
      var value' := BMin(value, Finite(c));
      var M' := BMin(M, Finite(t));
      MinStep(alpha, b0, value, M, c, t, value', M');
      var x := MinOver(R, player, b, turn, depth, ms);
      assert t == Child(R, player, b, turn, depth, ms[0]);
      if Below(alpha, BMin(beta, value')) {
        MinLoopSound(R, player, b, depth, alpha, b0, turn, ms[1..], BMin(beta, value'), value', M');
        if |ms| > 1 {
          BMinJoin(M, t, MinOver(R, player, b, turn, depth, ms[1..]));
        }
      } else {
        MinBreak(alpha, b0, M, c, x);
      }
    }
  }

  /** With the unbounded window `sasha` searches with, alpha-beta computes
      exactly the minimax value. */
  lemma AlphaBetaFullWindow(R: Rules, player: int, b: Board, depth: nat, turn: int)
    ensures AlphaBeta(R, player, b, depth, NegInf, PosInf, turn) == Minimax(R, player, b, turn, depth)
  {
    AlphaBetaSound(R, player, b, depth, NegInf, PosInf, turn);
  }

  // ---------------------------------------------------------------------
  // The root loops

  /** The value `minnie`'s root loop gives each move of `ms`: the minimax
      value, for `p`, of the position it leads to, one ply shallower and
      with the opponent to move. */
  function ChildValues(R: Rules, p: int, b: Board, depth: nat, ms: seq<Pos>): (r: seq<int>)
    requires depth >= 1
    ensures |r| == |ms|
    ensures forall j {:trigger r[j]} :: 0 <= j < |ms| ==> r[j] == Child(R, p, b, p, depth, ms[j])
  {
    seq(|ms|, j requires 0 <= j < |ms| => Child(R, p, b, p, depth, ms[j]))
  }

  /** The value one `sasha` deepening step gives each move of `ms`: the
      alpha-beta value of the position it leads to with the unbounded
      window. */
  function RootValues(R: Rules, p: int, b: Board, depth: nat, ms: seq<Pos>): (r: seq<int>)
    requires depth >= 1
    ensures |r| == |ms|
    ensures forall j {:trigger r[j]} :: 0 <= j < |ms| ==>
      r[j] == AlphaBeta(R, p, R.next(b, ms[j], p), depth - 1, NegInf, PosInf, -p)
  {
    seq(|ms|, j requires 0 <= j < |ms| => AlphaBeta(R, p, R.next(b, ms[j], p), depth - 1, NegInf, PosInf, -p))
  }

  /** A `sasha` deepening step scores every root move with its minimax
      value. */
  lemma RootValuesAreMinimax(R: Rules, p: int, b: Board, depth: nat, ms: seq<Pos>)
    requires depth >= 1
    ensures RootValues(R, p, b, depth, ms) == ChildValues(R, p, b, depth, ms)
  {
    forall j | 0 <= j < |ms|
      ensures RootValues(R, p, b, depth, ms)[j] == ChildValues(R, p, b, depth, ms)[j]
    {
      AlphaBetaFullWindow(R, p, R.next(b, ms[j], p), depth - 1, -p);
    }
  }

  /** Over a list `ms` holding exactly the moves of `p`, the move `x` at
      the first largest child value reaches the minimax value of the
      position, and every move listed before it reaches strictly less. */
  lemma FirstBestChild(R: Rules, p: int, b: Board, depth: nat, ms: seq<Pos>, x: Pos)
    requires depth >= 1 && ms != [] && R.moves(b, p) != []
    requires forall m :: m in ms <==> m in R.moves(b, p)
    requires x == ms[FirstMax(ChildValues(R, p, b, depth, ms))]
    ensures Child(R, p, b, p, depth, x) == Minimax(R, p, b, p, depth)
    ensures exists i ::
              && 0 <= i < |ms| && ms[i] == x
              && forall j :: 0 <= j < i ==> Child(R, p, b, p, depth, ms[j]) < Child(R, p, b, p, depth, x)
  {
    var vals := ChildValues(R, p, b, depth, ms);
    var i := FirstMax(vals);
    MinimaxChoice(R, p, b, p, depth);
    var m :| m in R.moves(b, p) && Child(R, p, b, p, depth, m) == Minimax(R, p, b, p, depth);
    var k :| 0 <= k < |ms| && ms[k] == m;
    assert vals[k] <= vals[i] && vals[i] == Child(R, p, b, p, depth, ms[i]);
    assert ms[i] in R.moves(b, p);
    forall j | 0 <= j < i
      ensures Child(R, p, b, p, depth, ms[j]) < Child(R, p, b, p, depth, ms[i])
    {
      assert vals[j] < vals[i];
    }
  }

  /** The move one deepening step keeps: the first, in the order of
      `ordered`, of largest value at that depth. */
  function Pick(R: Rules, p: int, b: Board, ordered: seq<Pos>, depth: nat): (r: Pos)
    requires ordered != []
    ensures r in ordered
  {
    if depth == 0 then ordered[0]
    else ordered[FirstMax(RootValues(R, p, b, depth, ordered))]
  }

  /** The iterative deepening loop from `depth` to `last`: each step
      replaces the kept move by `pick(depth)`. */
  function Deepen<X>(pick: nat -> X, depth: nat, last: int, best: X): X
    decreases last - depth
  {
    if depth > last then best else Deepen(pick, depth + 1, last, pick(depth))
  }

  /** Only the last deepening step decides the move. */
  lemma {:induction false} DeepenLast<X>(pick: nat -> X, depth: nat, last: nat, best: X)
    requires depth <= last
    ensures Deepen(pick, depth, last, best) == pick(last)
    decreases last - depth
  {
    if depth < last {
      DeepenLast(pick, depth + 1, last, pick(depth));
    }
  }

  /** The move a deepening step keeps reaches the minimax value at that
      depth, and every move ordered before it reaches strictly less. */
  lemma PickIsBestChild(R: Rules, p: int, b: Board, ordered: seq<Pos>, depth: nat)
    requires depth >= 1 && ordered != [] && R.moves(b, p) != []
    requires forall m :: m in ordered <==> m in R.moves(b, p)
    ensures var x := Pick(R, p, b, ordered, depth);
      && Child(R, p, b, p, depth, x) == Minimax(R, p, b, p, depth)
      && exists i ::
           && 0 <= i < |ordered| && ordered[i] == x
           && forall j :: 0 <= j < i ==> Child(R, p, b, p, depth, ordered[j]) < Child(R, p, b, p, depth, x)
  {
    RootValuesAreMinimax(R, p, b, depth, ordered);
    FirstBestChild(R, p, b, depth, ordered, Pick(R, p, b, ordered, depth));
  }
}
