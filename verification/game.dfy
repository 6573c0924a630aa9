/** The game state and the operations on it (`backend/game.py`): the
    starting position, `make_move` with its turn rule, `score` and the
    greedy `best_move`. A `Game` is an immutable value here, so the source's
    `copy` is the identity and in-place updates return a new state. */
module Game {
  import opened Common
  import opened Board

  /** One game: the board, the side to move (-1 white, 1 black, 0 once
      neither side can move) and the most recent move, if any. */
  datatype Game = Game(board: Board, current: int, lastMove: Option<Pos>)

  // ---------------------------------------------------------------------
  // The starting position

  /** What a cell of the starting board holds: white on (3,3) and (4,4),
      black on (3,4) and (4,3), every other cell empty. */
  function StartCell(x: int, y: int): int {
    if (x, y) == (3, 3) || (x, y) == (4, 4) then -1
    else if (x, y) == (3, 4) || (x, y) == (4, 3) then 1
    else 0
  }

  /** The starting board. */
  function InitialBoard(): (b: Board)
    ensures StartLayout(b)
  {
    seq(Size, x => seq(Size, y => StartCell(x, y)))
  }

  /** A board holding, cell by cell, what the starting board holds. Lemmas
      about the opening are stated for any such board, which keeps the
      solver from evaluating the literal board. */
  predicate StartLayout(b: Board) {
    forall x, y :: 0 <= x < Size && 0 <= y < Size ==> b[x][y] == StartCell(x, y)
  }

  /** `Game()`: the starting board, white to move, no move played yet. */
  function Start(): Game {
    Game(InitialBoard(), -1, None)
  }

  /** The starting board is what `__init__` builds: an empty board on which
      the two middle diagonals are filled in, white on (mid-1, mid-1) and
      (mid, mid), black on (mid-1, mid) and (mid, mid-1), with mid = 8 // 2. */
  lemma InitialBoardBuilt()
    ensures var empty: Board := seq(Size, _ => seq(Size, _ => 0));
      var mid := Size / 2;
      InitialBoard()
        == Place(Place(Place(Place(empty, (mid - 1, mid - 1), -1), (mid, mid), -1),
                       (mid - 1, mid), 1), (mid, mid - 1), 1)
  {
    var empty: Board := seq(Size, _ => seq(Size, _ => 0));
    var built := Place(Place(Place(Place(empty, (3, 3), -1), (4, 4), -1), (3, 4), 1), (4, 3), 1);
    var b := InitialBoard();
    forall x | 0 <= x < Size ensures b[x] == built[x] {
      assert forall y :: 0 <= y < Size ==> b[x][y] == built[x][y];
    }
  }

  /** On a board where exactly the positions `lo < hi` hold `v`, the count of
      `v` from position `k` on is how many of the two lie at or after `k`. */
  lemma {:induction false} CountFromTwo(b: Board, v: int, lo: int, hi: int, k: nat)
    requires forall j :: 0 <= j < Cells ==> (b[CellAt(j).0][CellAt(j).1] == v <==> j == lo || j == hi)
    requires 0 <= lo < hi < Cells && k <= Cells
    ensures CountFrom(b, v, k) == (if k <= lo then 1 else 0) + (if k <= hi then 1 else 0)
    decreases Cells - k
  {
    if k < Cells {
      CountFromTwo(b, v, lo, hi, k + 1);
      CountFromStep(b, v, k);
      var c := CellAt(k);
      assert b[c.0][c.1] == v <==> k == lo || k == hi;
    }
  }

  /** The starting layout read by row-major position. */
  lemma StartCellAt(k: int)
    requires 0 <= k < Cells
    ensures StartCell(CellAt(k).0, CellAt(k).1)
      == if k == 27 || k == 36 then -1 else if k == 28 || k == 35 then 1 else 0
  {
    var c := CellAt(k);
    assert c == (3, 3) <==> k == 27;
    assert c == (3, 4) <==> k == 28;
    assert c == (4, 3) <==> k == 35;
    assert c == (4, 4) <==> k == 36;
  }

  /** The starting board holds exactly two discs of each colour. */
  lemma InitialDiscs(v: int, lo: int, hi: int)
    requires (v, lo, hi) == (1, 28, 35) || (v, lo, hi) == (-1, 27, 36)
    ensures Count(InitialBoard(), v) == 2
  {
    StartLayoutDiscs(InitialBoard(), v, lo, hi);
  }

  /** `InitialDiscs` for any board laid out like the starting one. */
  lemma StartLayoutDiscs(b: Board, v: int, lo: int, hi: int)
    requires StartLayout(b)
    requires (v, lo, hi) == (1, 28, 35) || (v, lo, hi) == (-1, 27, 36)
    ensures Count(b, v) == 2
  {
    forall j | 0 <= j < Cells ensures b[CellAt(j).0][CellAt(j).1] == v <==> j == lo || j == hi {
      StartCellAt(j);
    }
    CountFromTwo(b, v, lo, hi, 0);
  }

  /** `Game()` holds exactly four discs, two of each colour, white is to move
      and no move has been played. */
  lemma StartState()
    ensures Count(Start().board, 1) == 2 && Count(Start().board, -1) == 2
    ensures Count(Start().board, 0) == Cells - 4
    ensures Start().current == -1 && Start().lastMove == None
  {
    InitialDiscs(1, 28, 35);
    InitialDiscs(-1, 27, 36);
    CountPartition(InitialBoard());
  }

  /** A move on the starting board that brackets a single opponent disc. */
  lemma StartMoveLegal(b: Board, o: Pos, p: int, j: int)
    requires StartLayout(b) && Inside(o) && 0 <= j < DirectionCount && (p == 1 || p == -1)
    requires StartCell(o.0, o.1) == 0
    requires StartCell(RayAt(o, Direction(j), 1).0, RayAt(o, Direction(j), 1).1) == -p
    requires StartCell(RayAt(o, Direction(j), 2).0, RayAt(o, Direction(j), 2).1) == p
    ensures IsLegal(b, o, p)
  {
    var d := Direction(j);
    assert Inside(RayAt(o, d, 1)) && Inside(RayAt(o, d, 2));
    assert Bracketed(b, o, d, p, 1);
    BracketedIsCaptured(b, o, p, j, 1, 1);
  }

  /** A cell one unit step before a white-held middle disc and two before a
      black-held one is one of white's four opening squares. */
  lemma WhiteBracketSquares(c: Pos, d: Pos)
    requires Unit(d)
    requires RayAt(c, d, 1) == (3, 4) || RayAt(c, d, 1) == (4, 3)
    requires RayAt(c, d, 2) == (3, 3) || RayAt(c, d, 2) == (4, 4)
    ensures c in [(2, 4), (3, 5), (4, 2), (5, 3)]
  {
  }

  /** On a board laid out like the starting one, a white bracket from `c`
      along `d` is a single black disc followed by a white one, so `c` is one
      of white's four opening squares. */
  lemma WhiteStartBracket(b: Board, c: Pos, d: Pos, n: int)
    requires StartLayout(b)
    requires Unit(d) && Bracketed(b, c, d, -1, n)
    ensures c in [(2, 4), (3, 5), (4, 2), (5, 3)]
  {
    var first := RayAt(c, d, 1);
    assert Holds(b, first, 1);
    assert first == (3, 4) || first == (4, 3);
    if n >= 2 {
      assert false;
    }
    assert Holds(b, RayAt(c, d, 2), -1);
    WhiteBracketSquares(c, d);
  }

  /** Every legal first move for white brackets a black disc by a single
      step in one of the four listed ways. */
  lemma WhiteStartMovesOnly(b: Board, c: Pos)
    requires StartLayout(b) && IsLegal(b, c, -1)
    ensures c in [(2, 4), (3, 5), (4, 2), (5, 3)]
  {
    var caps := Captures(b, c, -1);
    assert caps[0] in caps;
    var j, n, s := CaptureIsBracketed(b, c, -1, caps[0]);
    WhiteStartBracket(b, c, Direction(j), n);
  }

  /** White's legal first moves are exactly (2,4), (3,5), (4,2) and (5,3). */
  lemma WhiteStartMoves(b: Board, c: Pos)
    requires StartLayout(b)
    ensures IsLegal(b, c, -1) <==> c in [(2, 4), (3, 5), (4, 2), (5, 3)]
  {
    if c == (2, 4) {
      StartMoveLegal(b, c, -1, 4);
    } else if c == (3, 5) {
      StartMoveLegal(b, c, -1, 1);
    } else if c == (4, 2) {
      StartMoveLegal(b, c, -1, 6);
    } else if c == (5, 3) {
      StartMoveLegal(b, c, -1, 3);
    } else if IsLegal(b, c, -1) {
      WhiteStartMovesOnly(b, c);
    }
  }

  /** `valid_moves(-1)` on the starting board lists white's four moves in
      scan order. */
  lemma WhiteOpeningMoves()
    ensures ValidMoves(InitialBoard(), -1) == [(2, 4), (3, 5), (4, 2), (5, 3)]
  {
    WhiteOpeningMovesOn(InitialBoard());
  }

  /** `WhiteOpeningMoves` for any board laid out like the starting one. */
  lemma WhiteOpeningMovesOn(b: Board)
    requires StartLayout(b)
    ensures ValidMoves(b, -1) == [(2, 4), (3, 5), (4, 2), (5, 3)]
  {
    var moves := ValidMoves(b, -1);
    WhiteOpeningMembers(b, moves);
    WhiteOpeningOrdered();
    ScanOrderDetermined(moves, [(2, 4), (3, 5), (4, 2), (5, 3)]);
  }

  /** White's four opening moves, as listed, are in scan order. */
  lemma WhiteOpeningOrdered()
    ensures var c := [(2, 4), (3, 5), (4, 2), (5, 3)];
      forall i, j :: 0 <= i < j < |c| ==> Index(c[i]) < Index(c[j])
  {
  }

  /** Two lists of cells in strictly increasing scan order with the same
      members are the same list. */
  lemma ScanOrderDetermined(a: seq<Pos>, c: seq<Pos>)
    requires forall i, j :: 0 <= i < j < |a| ==> Index(a[i]) < Index(a[j])
    requires forall i, j :: 0 <= i < j < |c| ==> Index(c[i]) < Index(c[j])
    requires forall x :: x in a <==> x in c
    ensures a == c
  {
    SameMembersOrdered(a, c, Index);
  }

  /** The cells white's scan lists on the starting board are its four moves. */
  lemma WhiteOpeningMembers(b: Board, moves: seq<Pos>)
    requires StartLayout(b) && moves == ValidMoves(b, -1)
    ensures forall c :: c in moves <==> c in [(2, 4), (3, 5), (4, 2), (5, 3)]
  {
    ValidMovesLegal(b, -1);
    forall c ensures c in moves <==> c in [(2, 4), (3, 5), (4, 2), (5, 3)] {
      WhiteStartMoves(b, c);
    }
  }

  // ---------------------------------------------------------------------
  // Moves and the turn rule

  /** Who moves after `p` has moved, leaving board `b`: the opponent if it has
      a legal move, otherwise `p` again if it has one, otherwise nobody (0):
      the game is over. */
  function NextTurn(b: Board, p: int): (t: int)
    ensures t != 0 ==> HasMoves(b, t)
    ensures t == 0 <==> !HasMoves(b, -p) && !HasMoves(b, p)
    ensures HasMoves(b, -p) ==> t == -p
    ensures t == -p || t == p || t == 0
  {
    if HasMoves(b, -p) then
      OnlySidesMove(b, -p);
      -p
    else if HasMoves(b, p) then
      OnlySidesMove(b, p);
      p
    else 0
  }

  /** `make_move(x, y, player)`: whether the move was accepted, and the state
      afterwards. A move is accepted exactly when the cell is on the board,
      empty, and captures at least one disc; a rejected move changes nothing
      and an accepted one is recorded as the last move. */
  function MakeMove(g: Game, x: int, y: int, p: int): (r: (bool, Game))
    ensures r.0 <==> IsLegal(g.board, (x, y), p)
    ensures !r.0 ==> r.1 == g
    ensures r.0 ==> r.1.lastMove == Some((x, y))
  {
    if !Inside((x, y)) || g.board[x][y] != 0 then (false, g)
    else
      var captured := Captures(g.board, (x, y), p);
      if |captured| == 0 then (false, g)
      else
        var b := Apply(g.board, (x, y), p);
        (true, Game(b, NextTurn(b, p), Some((x, y))))
  }

  /** An accepted move sets its own cell and every captured disc to `p` and
      leaves every other cell as it was. */
  lemma MakeMoveCells(g: Game, x: int, y: int, p: int)
    requires MakeMove(g, x, y, p).0
    ensures forall i, j :: 0 <= i < Size && 0 <= j < Size ==>
      MakeMove(g, x, y, p).1.board[i][j]
        == if (i, j) == (x, y) || (i, j) in Captures(g.board, (x, y), p) then p else g.board[i][j]
  {
    ApplyCells(g.board, (x, y), p);
  }

  /** After an accepted move the turn passes to the opponent if it can move,
      stays with the mover if only the mover can, and is 0 (game over) when
      neither can. */
  lemma MakeMoveTurn(g: Game, x: int, y: int, p: int)
    requires MakeMove(g, x, y, p).0
    ensures var g' := MakeMove(g, x, y, p).1;
      && (HasMoves(g'.board, -p) ==> g'.current == -p)
      && (!HasMoves(g'.board, -p) && HasMoves(g'.board, p) ==> g'.current == p)
      && (!HasMoves(g'.board, -p) && !HasMoves(g'.board, p) ==> g'.current == 0)
  {
  }

  /** The side to move can move, unless the game is over. */
  predicate Live(g: Game) {
    g.current != 0 ==> HasMoves(g.board, g.current)
  }

  /** Every accepted move keeps the game live: the turn never passes to a side
      without a legal move. */
  lemma MakeMoveKeepsLive(g: Game, x: int, y: int, p: int)
    requires Live(g)
    ensures Live(MakeMove(g, x, y, p).1)
  {
  }

  /** The turn field is honest: the side to move can move, and the turn is 0
      (game over) only when neither side can move. */
  predicate TurnConsistent(g: Game) {
    && Live(g)
    && (g.current == 0 ==> !HasMoves(g.board, 1) && !HasMoves(g.board, -1))
  }

  /** The starting game is live: white, who moves first, has a legal move. */
  lemma StartLive()
    ensures Live(Start())
  {
    WhiteOpeningMoves();
    HasMovesIff(InitialBoard(), -1);
  }

  /** The starting game's turn field is honest. */
  lemma StartTurnConsistent()
    ensures TurnConsistent(Start())
  {
    StartLive();
  }

  /** Every call of `make_move`, accepted or rejected, keeps the turn field
      honest; with `StartTurnConsistent` this holds in every game reached by
      `make_move` from the start. */
  lemma MakeMoveKeepsTurnConsistent(g: Game, x: int, y: int, p: int)
    requires TurnConsistent(g)
    ensures TurnConsistent(MakeMove(g, x, y, p).1)
  {
    MakeMoveKeepsLive(g, x, y, p);
    if MakeMove(g, x, y, p).0 {
      assert |Captures(g.board, (x, y), p)| > 0;
      assert p == 1 || p == -1;
    }
  }

  /** Once the game is over (no side to move), the default player 0 captures
      nothing, so every further move is rejected. */
  lemma GameOverRejects(g: Game, x: int, y: int)
    requires g.current == 0
    ensures !MakeMove(g, x, y, g.current).0
  {
  }

  // ---------------------------------------------------------------------
  // Score

  /** `score()`: the number of black and of white discs. The two never add up
      to more than the 64 cells, and what they leave is the empty cells. */
  function Score(g: Game): (r: (int, int))
    ensures 0 <= r.0 && 0 <= r.1 && r.0 + r.1 <= Cells
    ensures r.0 + r.1 + Count(g.board, 0) == Cells
  {
    CountPartition(g.board);
    (Count(g.board, 1), Count(g.board, -1))
  }

  /** An accepted move by a side `p` that captures `k` discs raises the
      mover's count by `1 + k` and lowers the opponent's by `k`. */
  lemma MoveScore(g: Game, x: int, y: int, p: int)
    requires MakeMove(g, x, y, p).0
    ensures var k := |Captures(g.board, (x, y), p)|;
      var (b0, w0) := Score(g);
      var (b1, w1) := Score(MakeMove(g, x, y, p).1);
      (p == 1 ==> b1 == b0 + 1 + k && w1 == w0 - k)
      && (p == -1 ==> w1 == w0 + 1 + k && b1 == b0 - k)
  {
    ApplyCount(g.board, (x, y), p);
  }

  /** The only black disc a white move at (2,4) on the starting board can
      bracket is the one at (3,4). */
  lemma FirstMoveCapturesOnly(b: Board, c: Pos)
    requires StartLayout(b) && c in Captures(b, (2, 4), -1)
    ensures c == (3, 4)
  {
    var j, n, s := CaptureIsBracketed(b, (2, 4), -1, c);
  }

  /** White's opening move at (2,4) flips exactly the black disc at (3,4). */
  lemma FirstMoveCaptures(b: Board)
    requires StartLayout(b)
    ensures IsLegal(b, (2, 4), -1)
    ensures Captures(b, (2, 4), -1) == [(3, 4)]
  {
    StartMoveLegal(b, (2, 4), -1, 4);
    FirstMoveCapturesAll(b);
    DistinctSingle(Captures(b, (2, 4), -1), (3, 4));
  }

  /** `FirstMoveCapturesOnly` for every captured cell at once. */
  lemma FirstMoveCapturesAll(b: Board)
    requires StartLayout(b)
    ensures forall c :: c in Captures(b, (2, 4), -1) ==> c == (3, 4)
  {
    forall c | c in Captures(b, (2, 4), -1) ensures c == (3, 4) {
      FirstMoveCapturesOnly(b, c);
    }
  }

  /** The first move of the source's tests: after white's move at (2,4)
      from the start, black has one disc and white four. */
  lemma FirstMoveScore(g: Game)
    requires g == Start()
    ensures MakeMove(g, 2, 4, -1).0 && Score(MakeMove(g, 2, 4, -1).1) == (1, 4)
  {
    StartScore(g);
    FirstMoveScoreOn(g);
  }

  /** The starting game is laid out like the start and scores two all. */
  lemma StartScore(g: Game)
    requires g == Start()
    ensures StartLayout(g.board) && Score(g) == (2, 2)
  {
    StartState();
  }

  /** `FirstMoveScore` for any game whose board is laid out like the
      starting one. */
  lemma FirstMoveScoreOn(g: Game)
    requires StartLayout(g.board) && Score(g) == (2, 2)
    ensures MakeMove(g, 2, 4, -1).0 && Score(MakeMove(g, 2, 4, -1).1) == (1, 4)
  {
    FirstMoveCaptures(g.board);
    assert MakeMove(g, 2, 4, -1).0;
    OneFlipScore(g);
  }

  /** An accepted white move at (2,4) that flips a single disc turns a
      two-all score into one black disc and four white. */
  lemma OneFlipScore(g: Game)
    requires MakeMove(g, 2, 4, -1).0 && |Captures(g.board, (2, 4), -1)| == 1 && Score(g) == (2, 2)
    ensures Score(MakeMove(g, 2, 4, -1).1) == (1, 4)
  {
    MoveScore(g, 2, 4, -1);
    var after := Score(MakeMove(g, 2, 4, -1).1);
    assert after.1 == 2 + 1 + 1;
    assert after.0 == 2 - 1;
  }

  /** White's move at (2,4) from the start is accepted, recorded, and turns
      the disc at (3,4). */
  lemma FirstMoveFlips(g: Game)
    requires g == Start()
    ensures var (ok, g') := MakeMove(g, 2, 4, -1);
      && ok && g'.lastMove == Some((2, 4))
      && g'.board[2][4] == -1 && g'.board[3][4] == -1
  {
    FirstMoveFlipsOn(g);
  }

  /** `FirstMoveFlips` for any game whose board is laid out like the
      starting one. */
  lemma FirstMoveFlipsOn(g: Game)
    requires StartLayout(g.board)
    ensures var (ok, g') := MakeMove(g, 2, 4, -1);
      && ok && g'.lastMove == Some((2, 4))
      && g'.board[2][4] == -1 && g'.board[3][4] == -1
  {
    FirstMoveCaptures(g.board);
    ApplyCells(g.board, (2, 4), -1);
    assert (3, 4) in Captures(g.board, (2, 4), -1);
  }

  // ---------------------------------------------------------------------
  // The greedy choice

  /** How many discs a move at `m` by `p` would flip (none off the board). */
  function Gain(b: Board, m: Pos, p: int): nat {
    if Inside(m) then |Captures(b, m, p)| else 0
  }

  /** The number of discs each of `moves` would capture. */
  function CaptureCounts(b: Board, moves: seq<Pos>, p: int): (r: seq<int>)
    ensures |r| == |moves|
    ensures forall i :: 0 <= i < |moves| ==> r[i] == Gain(b, moves[i], p)
  {
    seq(|moves|, i requires 0 <= i < |moves| => Gain(b, moves[i], p))
  }

  /** The position in `moves` of the first move that captures the most. */
  function BestIndex(b: Board, moves: seq<Pos>, p: int): (i: nat)
    requires |moves| > 0
    ensures i < |moves|
    ensures forall j :: 0 <= j < |moves| ==> Gain(b, moves[j], p) <= Gain(b, moves[i], p)
    ensures forall j :: 0 <= j < i ==> Gain(b, moves[j], p) < Gain(b, moves[i], p)
  {
    FirstMax(CaptureCounts(b, moves, p))
  }

  /** `best_move(player)`: `None` exactly when `p` has no legal move,
      otherwise one of the legal moves. */
  function BestMove(g: Game, p: int): (r: Option<Pos>)
    ensures r == None <==> !HasMoves(g.board, p)
    ensures r.Some? ==> IsLegal(g.board, r.value, p)
  {
    var moves := ValidMoves(g.board, p);
    HasMovesIff(g.board, p);
    ValidMovesLegal(g.board, p);
    if |moves| == 0 then None
    else
      var i := BestIndex(g.board, moves, p);
      assert moves[i] in moves;
      Some(moves[i])
  }

  /** The greedy choice captures at least as many discs as any legal move,
      and every legal move before it in scan order captures strictly fewer:
      ties go to the first move found, as with Python's `max`. */
  lemma BestMoveIsFirstGreatest(g: Game, p: int)
    requires BestMove(g, p).Some?
    ensures forall m :: IsLegal(g.board, m, p) ==>
      Gain(g.board, m, p) <= Gain(g.board, BestMove(g, p).value, p)
    ensures forall m :: IsLegal(g.board, m, p) && Index(m) < Index(BestMove(g, p).value) ==>
      Gain(g.board, m, p) < Gain(g.board, BestMove(g, p).value, p)
  {
    var b := g.board;
    var moves := ValidMoves(b, p);
    FirstGreatestListed(b, p, moves, BestIndex(b, moves, p));
  }

  /** `BestMoveIsFirstGreatest` for the listed moves and the index of their
      first greatest capture. */
  lemma FirstGreatestListed(b: Board, p: int, moves: seq<Pos>, i: nat)
    requires moves == ValidMoves(b, p) && |moves| > 0 && i == BestIndex(b, moves, p)
    ensures forall m :: IsLegal(b, m, p) ==> Gain(b, m, p) <= Gain(b, moves[i], p)
    ensures forall m :: IsLegal(b, m, p) && Index(m) < Index(moves[i]) ==> Gain(b, m, p) < Gain(b, moves[i], p)
  {
    ValidMovesLegal(b, p);
    FirstGreatestOfScan(b, p, moves, i);
  }

  /** `BestMoveIsFirstGreatest` for any list holding exactly the legal
      moves in scan order, with `i` its first greatest capture. */
  lemma FirstGreatestOfScan(b: Board, p: int, moves: seq<Pos>, i: nat)
    requires forall c :: c in moves <==> IsLegal(b, c, p)
    requires forall j, k :: 0 <= j < k < |moves| ==> Index(moves[j]) < Index(moves[k])
    requires i < |moves|
    requires forall j :: 0 <= j < |moves| ==> Gain(b, moves[j], p) <= Gain(b, moves[i], p)
    requires forall j :: 0 <= j < i ==> Gain(b, moves[j], p) < Gain(b, moves[i], p)
    ensures forall m :: IsLegal(b, m, p) ==> Gain(b, m, p) <= Gain(b, moves[i], p)
    ensures forall m :: IsLegal(b, m, p) && Index(m) < Index(moves[i]) ==> Gain(b, m, p) < Gain(b, moves[i], p)
  {
    forall m | IsLegal(b, m, p)
      ensures Gain(b, m, p) <= Gain(b, moves[i], p)
      ensures Index(m) < Index(moves[i]) ==> Gain(b, m, p) < Gain(b, moves[i], p)
    {
      var j :| 0 <= j < |moves| && moves[j] == m;
      if Index(m) < Index(moves[i]) {
        assert !(i <= j);
      }
    }
  }
}
