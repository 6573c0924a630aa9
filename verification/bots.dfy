/** The bot strategies of `backend/bots.py` and their registry. Each bot
    looks at a game and a side and answers `None` when that side has no
    legal move, otherwise a move. The searching bots run the searches of
    `Search` on `Othello`, the engine's own moves, move application,
    evaluation and ordering key. */
module Bots {
  import opened Common
  import opened Board
  import opened Game
  import opened Evaluation
  import opened Ordering
  import opened Search

  // ---------------------------------------------------------------------
  // The engine as search rules

  /** The board a copy of the game holds after `sim.make_move(x, y, p)`: a
      listed move is played, anything else is rejected and changes
      nothing. */
  function Next(b: Board, m: Pos, p: int): Board {
    if m in ValidMoves(b, p) then
      ValidMovesLegal(b, p);
      Apply(b, m, p)
    else b
  }

  /** `Next` is what `make_move` does to the board of any game, whatever
      its side to move and last move. */
  lemma NextIsMakeMove(g: Game, m: Pos, p: int)
    ensures Next(g.board, m, p) == MakeMove(g, m.0, m.1, p).1.board
  {
    ValidMovesLegal(g.board, p);
  }

  /** The searches' view of the engine, with leaf evaluation `h`. */
  function Othello(h: Heuristic): Rules {
    Rules(ValidMoves, Next, (b: Board, p: int) => Evaluate(h, b, p), Key)
  }

  /** Both evaluations make the searches zero-sum. */
  lemma OthelloZeroSum(h: Heuristic)
    ensures ZeroSum(Othello(h))
  {
    forall b: Board ensures Othello(h).eval(b, -1) == -Othello(h).eval(b, 1) {
      EvaluateAntisymmetric(h, b, 1);
    }
  }

  // ---------------------------------------------------------------------
  // david and roger

  /** `david`: the greedy `best_move`. */
  function David(g: Game, p: int): (r: Option<Pos>)
    ensures r == None <==> ValidMoves(g.board, p) == []
    ensures r.Some? ==> r.value in ValidMoves(g.board, p)
  {
    HasMovesIff(g.board, p);
    ValidMovesLegal(g.board, p);
    BestMove(g, p)
  }

  /** How many moves the opponent has after `p` plays `m`. */
  function Replies(b: Board, m: Pos, p: int): nat {
    |ValidMoves(Next(b, m, p), -p)|
  }

  /** The opponent's reply count after each of `moves`. */
  function ReplyCounts(b: Board, moves: seq<Pos>, p: int): (r: seq<int>)
    ensures |r| == |moves|
    ensures forall i {:trigger r[i]} :: 0 <= i < |moves| ==> r[i] == Replies(b, moves[i], p)
  {
    seq(|moves|, i requires 0 <= i < |moves| => Replies(b, moves[i], p))
  }

  /** `roger`: the first listed move after which the opponent has the
      fewest moves. */
  function Roger(g: Game, p: int): (r: Option<Pos>)
    ensures r == None <==> ValidMoves(g.board, p) == []
    ensures r.Some? ==> r.value in ValidMoves(g.board, p)
  {
    var moves := ValidMoves(g.board, p);
    if moves == [] then None
    else Some(moves[FirstMin(ReplyCounts(g.board, moves, p))])
  }

  /** What `roger` measures for the move `m`: the number of moves the
      opponent has once `m` is played by `make_move` on a copy of the game. */
  function OpponentMoves(g: Game, m: Pos, p: int): nat {
    |ValidMoves(MakeMove(g, m.0, m.1, p).1.board, -p)|
  }

  /** The counts `roger` compares are the opponent's moves after playing each
      listed move on a copy of the game. */
  lemma ReplyCountsSimulated(g: Game, moves: seq<Pos>, p: int)
    ensures forall j :: 0 <= j < |moves| ==>
      ReplyCounts(g.board, moves, p)[j] == OpponentMoves(g, moves[j], p)
  {
    forall j | 0 <= j < |moves|
      ensures ReplyCounts(g.board, moves, p)[j] == OpponentMoves(g, moves[j], p)
    {
      NextIsMakeMove(g, moves[j], p);
    }
  }

  /** Among `moves`, `r` leaves the opponent, after `make_move` on a copy,
      no more moves than any other does, and strictly fewer than every
      move listed before it. */
  predicate LeavesFewest(g: Game, p: int, moves: seq<Pos>, r: Pos) {
    exists i :: 0 <= i < |moves| && moves[i] == r
              && (forall j :: 0 <= j < |moves| ==> OpponentMoves(g, r, p) <= OpponentMoves(g, moves[j], p))
              && (forall j :: 0 <= j < i ==> OpponentMoves(g, r, p) < OpponentMoves(g, moves[j], p))
  }

  /** `roger`'s move is the first listed move of fewest opponent replies. */
  lemma RogerFewestReplies(g: Game, p: int)
    requires Roger(g, p).Some?
    ensures LeavesFewest(g, p, ValidMoves(g.board, p), Roger(g, p).value)
  {
    RogerPick(g, p, ValidMoves(g.board, p), Roger(g, p).value);
  }

  /** `RogerFewestReplies` for the listed moves and the move at their first
      fewest reply count. */
  lemma RogerPick(g: Game, p: int, moves: seq<Pos>, r: Pos)
    requires moves == ValidMoves(g.board, p) && moves != []
    requires r == moves[FirstMin(ReplyCounts(g.board, moves, p))]
    ensures LeavesFewest(g, p, moves, r)
  {
    var counts := ReplyCounts(g.board, moves, p);
    var i := FirstMin(counts);
    ReplyCountsSimulated(g, moves, p);
    forall j | 0 <= j < |moves|
      ensures OpponentMoves(g, r, p) <= OpponentMoves(g, moves[j], p)
      ensures j < i ==> OpponentMoves(g, r, p) < OpponentMoves(g, moves[j], p)
    {
      assert counts[i] <= counts[j] && (j < i ==> counts[i] < counts[j]);
    }
  }

  // ---------------------------------------------------------------------
  // minnie

  /** `minnie(game, player, depth)`: the first listed move of largest
      positional minimax value. */
  function Minnie(g: Game, p: int, depth: nat): (r: Option<Pos>)
    requires depth >= 1
    ensures r == None <==> ValidMoves(g.board, p) == []
    ensures r.Some? ==> r.value in ValidMoves(g.board, p)
  {
    var moves := ValidMoves(g.board, p);
    if moves == [] then None
    else Some(moves[FirstMax(ChildValues(Othello(Positional), p, g.board, depth, moves))])
  }

  /** `minnie` plays a move that reaches the minimax value of the position,
      and every move listed before it reaches strictly less. */
  lemma MinnieIsMinimax(g: Game, p: int, depth: nat)
    requires depth >= 1 && Minnie(g, p, depth).Some?
    ensures var R := Othello(Positional);
      var moves := ValidMoves(g.board, p);
      var r := Minnie(g, p, depth).value;
      && Child(R, p, g.board, p, depth, r) == Minimax(R, p, g.board, p, depth)
      && exists i ::
           && 0 <= i < |moves| && moves[i] == r
           && forall j :: 0 <= j < i ==> Child(R, p, g.board, p, depth, moves[j]) < Child(R, p, g.board, p, depth, r)
  {
    var moves := ValidMoves(g.board, p);
    FirstBestChild(Othello(Positional), p, g.board, depth, moves, Minnie(g, p, depth).value);
  }

  // ---------------------------------------------------------------------
  // sasha

  /** The discs on the board (`sum(abs(cell) ...)`). */
  function Discs(b: Board): nat {
    Count(b, 1) + Count(b, -1)
  }

  /** The depth the deepening runs to: every empty cell when at most 12
      remain, `maxDepth` otherwise. */
  function SearchDepth(b: Board, maxDepth: int): (r: int)
    ensures Count(b, 0) <= 12 ==> r == Count(b, 0)
    ensures Count(b, 0) > 12 ==> r == maxDepth
  {
    CountPartition(b);
    var empties := Cells - Discs(b);
    if empties <= 12 then empties else maxDepth
  }

  /** `sasha`'s iterative deepening over the ordered root moves, depths 1
      to `last`, starting from `first`: only the last step decides. */
  function DeepenRoot(b: Board, p: int, ordered: seq<Pos>, last: int, first: Pos): (r: Pos)
    requires ordered != []
    ensures last < 1 ==> r == first
    ensures last >= 1 ==> r == Pick(Othello(Phased), p, b, ordered, last)
    ensures r == first || r in ordered
  {
    var pick := (d: nat) => Pick(Othello(Phased), p, b, ordered, d);
    if last >= 1 then DeepenLast(pick, 1, last, first); Deepen(pick, 1, last, first)
    else Deepen(pick, 1, last, first)
  }

  /** The opening book: on a four-disc board white answers (2, 4) and
      black (2, 3). */
  function BookMove(p: int): Pos {
    if p == -1 then (2, 4) else (2, 3)
  }

  /** `sasha(game, player, max_depth)`: the opening book answers on a board
      with four discs (white (2, 4), black (2, 3)); otherwise `None` without
      a move, or the result of iterative deepening over the ordered moves,
      starting from the first listed move. */
  function Sasha(g: Game, p: int, maxDepth: int): (r: Option<Pos>)
    ensures Discs(g.board) == 4 ==> r == Some(BookMove(p))
    ensures Discs(g.board) != 4 ==> (r == None <==> ValidMoves(g.board, p) == [])
    ensures Discs(g.board) != 4 && r.Some? ==> r.value in ValidMoves(g.board, p)
  {
    var b := g.board;
    if Discs(b) == 4 then Some(BookMove(p))
    else
      var moves := ValidMoves(b, p);
      if moves == [] then None
      else
        var ordered := OrderMoves(Key, b, p, moves);
        var r := DeepenRoot(b, p, ordered, SearchDepth(b, maxDepth), moves[0]);
        assert moves[0] in moves && (r in ordered ==> r in moves);
        Some(r)
  }

  /** Outside the opening book and with at least one deepening step,
      `sasha` plays the first move, in `order_moves` order, that reaches the
      minimax value of the position at the final search depth; with none it
      plays the first listed move. */
  lemma SashaIsMinimax(g: Game, p: int, maxDepth: int)
    requires Discs(g.board) != 4 && ValidMoves(g.board, p) != []
    ensures var b := g.board;
      var depth := SearchDepth(b, maxDepth);
      var ordered := OrderMoves(Key, b, p, ValidMoves(b, p));
      var R := Othello(Phased);
      var r := Sasha(g, p, maxDepth).value;
      depth >= 1 ==>
        && Child(R, p, b, p, depth, r) == Minimax(R, p, b, p, depth)
        && exists i ::
             && 0 <= i < |ordered| && ordered[i] == r
             && forall j :: 0 <= j < i ==> Child(R, p, b, p, depth, ordered[j]) < Child(R, p, b, p, depth, r)
    ensures SearchDepth(g.board, maxDepth) < 1 ==> Sasha(g, p, maxDepth).value == ValidMoves(g.board, p)[0]
  {
    var b := g.board;
    var depth := SearchDepth(b, maxDepth);
    if depth >= 1 {
      PickIsBestChild(Othello(Phased), p, b, OrderMoves(Key, b, p, ValidMoves(b, p)), depth);
    }
  }

  /** The starting position is where the opening book applies. */
  lemma StartIsBook()
    ensures Discs(Start().board) == 4
  {
    StartState();
  }

  /** From the starting position both book moves are legal. */
  lemma BookMoveLegal(p: int)
    requires p == 1 || p == -1
    ensures IsLegal(Start().board, BookMove(p), p)
  {
    if p == -1 {
      StartMoveLegal(Start().board, (2, 4), -1, 4);
    } else {
      StartMoveLegal(Start().board, (2, 3), 1, 4);
    }
  }

  /** From the starting position `sasha` answers from the book, whatever its
      depth, and the book move is legal. */
  lemma SashaBookLegal(p: int, maxDepth: int)
    requires p == 1 || p == -1
    ensures Sasha(Start(), p, maxDepth) == Some(BookMove(p))
    ensures BookMove(p) in ValidMoves(Start().board, p)
  {
    StartIsBook();
    BookMoveLegal(p);
    ValidMovesLegal(Start().board, p);
  }

  // ---------------------------------------------------------------------
  // The registry

  /** A registered strategy with its fixed arguments. */
  datatype Bot = DavidBot | RogerBot | MinnieBot(depth: nat) | SashaBot(maxDepth: int)

  /** Runs a strategy for side `p`. */
  function Play(bot: Bot, g: Game, p: int): Option<Pos>
    requires bot.MinnieBot? ==> bot.depth >= 1
  {
    match bot
    case DavidBot => David(g, p)
    case RogerBot => Roger(g, p)
    case MinnieBot(depth) => Minnie(g, p, depth)
    case SashaBot(maxDepth) => Sasha(g, p, maxDepth)
  }

  /** `BOTS`: the names the server offers and what each runs; `minnie`
      searches 3 plies and the three `sasha`s 6, 5 and 4. */
  const Registry: seq<(string, Bot)> := [
    ("David", DavidBot),
    ("Roger", RogerBot),
    ("Minnie", MinnieBot(3)),
    ("Sasha senior", SashaBot(6)),
    ("Sasha junior", SashaBot(5)),
    ("Sasha intern", SashaBot(4))
  ]

  /** The strategy registered under `name`, if any. */
  function Lookup(name: string): (r: Option<Bot>)
    ensures r.Some? <==> exists i :: 0 <= i < |Registry| && Registry[i].0 == name
    ensures r.Some? ==> exists i :: 0 <= i < |Registry| && Registry[i] == (name, r.value)
  {
    LookupFrom(name, 0)
  }

  /** Searches the registry from position `k`. */
  function LookupFrom(name: string, k: nat): (r: Option<Bot>)
    requires k <= |Registry|
    ensures r.Some? <==> exists i :: k <= i < |Registry| && Registry[i].0 == name
    ensures r.Some? ==> exists i :: k <= i < |Registry| && Registry[i] == (name, r.value)
    decreases |Registry| - k
  {
    if k == |Registry| then None
    else if Registry[k].0 == name then Some(Registry[k].1)
    else LookupFrom(name, k + 1)
  }

  /** A strategy answers `None` exactly when the side has no legal move
      and otherwise plays a legal move; for `sasha` on a four-disc board
      this is claimed only from the starting position, where the book
      applies. */
  lemma PlaySound(bot: Bot, g: Game, p: int)
    requires bot.MinnieBot? ==> bot.depth >= 1
    requires bot.SashaBot? && Discs(g.board) == 4 ==> g == Start()
    requires p == 1 || p == -1
    ensures Play(bot, g, p) == None <==> ValidMoves(g.board, p) == []
    ensures Play(bot, g, p).Some? ==> Play(bot, g, p).value in ValidMoves(g.board, p)
  {
    if bot.SashaBot? && Discs(g.board) == 4 {
      SashaBookLegal(p, bot.maxDepth);
    }
  }

  /** Every registered `minnie` searches at least one ply. */
  lemma RegistryRunnable(bot: Bot)
    requires exists i :: 0 <= i < |Registry| && Registry[i].1 == bot
    ensures bot.MinnieBot? ==> bot.depth >= 1
  {
  }

  /** Every registered strategy can be run, with the soundness above. */
  lemma RegistrySound(name: string, g: Game, p: int)
    requires Lookup(name).Some?
    requires Discs(g.board) != 4 || g == Start()
    requires p == 1 || p == -1
    ensures var bot := Lookup(name).value;
      && (bot.MinnieBot? ==> bot.depth >= 1)
      && (Play(bot, g, p) == None <==> ValidMoves(g.board, p) == [])
      && (Play(bot, g, p).Some? ==> Play(bot, g, p).value in ValidMoves(g.board, p))
  {
    var bot := Lookup(name).value;
    RegistryRunnable(bot);
    PlaySound(bot, g, p);
  }
}
