# Othello engine: rules and bots, in Dafny

This project models the deterministic core of an Othello server. The core has two layers:

- **The rules layer (`backend/game.py`).**
  - An 8x8 board of integers: 0 is empty, 1 is black and -1 is white.
  - The capture rule along the eight compass directions.
  - Legal-move enumeration in row-major order.
  - `make_move`, with its pass and game-over turn rule.
  - The disc score.
  - The greedy "most flips" move.
- **The bot layer (`backend/bots.py`):**
  - `david`, the greedy move;
  - `roger`, which leaves the opponent the fewest replies;
  - `minnie`, a fixed-depth minimax over a positional weight table;
  - `sasha`, which has a phase-weighted evaluator, a move-ordering sort, alpha-beta search with pass nodes, iterative deepening, a four-disc opening book and an endgame depth rule;
  - the `BOTS` registry.

Everything is a pure function over immutable values. A `Game` is a value, so `copy` is the identity. `make_move` returns whether the move was accepted, together with the new state.

The project has seven modules:

| module | file | contents |
|---|---|---|
| `Common` | `common.dfy` | `Option`; the "first maximum / first minimum" pick that reproduces the source's strict `>` and `<` tie-breaking |
| `Board` | `board.dfy` | board, rays, `_captures`, `valid_moves`, applying a move, disc counts |
| `Game` | `game.dfy` | the starting state, `make_move` and its turn rule, `score`, `best_move` |
| `Evaluation` | `evaluation.dfy` | `minnie`'s weight table and `sasha`'s phase-weighted evaluator |
| `Ordering` | `ordering.dfy` | `order_moves`, as a stable insertion sort by the source's key |
| `Search` | `search.dfy` | minimax and alpha-beta, written against a `Rules` record holding the moves, next-board, evaluation and sort key; the root loops |
| `Bots` | `bots.dfy` | the four strategies and the registry |

The search is instantiated with the engine's own functions through `Bots.Othello`.

Two places where the source's floats and mutation are expressed differently:

- The source's float infinities become the `Search.Bound` datatype (`NegInf | Finite(n) | PosInf`), ordered as Python orders them.
- The root loops that start from `-inf` become `Common.FirstMax` over the list of child values.

Three points of the code the model keeps exactly:

- `sasha`'s evaluator multiplies the disc difference by the phase's disc weight only (`backend/bots.py:162`).
- `order_moves` orders by flip count only within the border and interior classes. Corners all get key `(0, 0)` and bad squares `(3, 0)`, so within those two classes scan order is kept (`backend/bots.py:172-178`).
- A pass node consumes one unit of depth in both searches (`backend/bots.py:61-62`, `195`).

## Model

| member | source | states |
|---|---|---|
| Board.DirectionsInSourceOrder | backend/game.py:60-64 | The eight ray directions are exactly the source's list, in the source's order, so captures are collected in the same order |
| Board.Walk | backend/game.py:66-73 | The walk along one direction yields either nothing or the cells at steps 1..n, all holding the opponent, with step n+1 holding the mover |
| Board.DirCapturesComplete | backend/game.py:68-73 | A bracketed opponent run along a direction is exactly that direction's contribution: the walk neither stops short of it nor runs past it |
| Board.Captures | backend/game.py:56-74 | Every captured cell holds an opponent disc; no cell is listed twice; the move's own cell never is; only a side 1 or -1 can capture anything |
| Board.CaptureIsBracketed | backend/game.py:56-74 | Soundness: every captured cell lies on a run of opponent discs along one of the eight directions that ends on a disc of the mover |
| Board.BracketedIsCaptured | backend/game.py:56-74 | Completeness: every cell of such a bracketed run, in any direction, is captured |
| Board.ValidMoves | backend/game.py:46-54 | The listed moves are in strictly increasing row-major order, hence without duplicates |
| Board.ValidMovesLegal | backend/game.py:46-54 | A cell is listed if and only if it is on the board, empty, and captures at least one disc |
| Board.HasMovesIff | backend/game.py:46-54 | The list is non-empty exactly when some cell is a legal move (the `if not self.valid_moves(...)` tests) |
| Board.OnlySidesMove | backend/game.py:56-74 | A value other than 1 or -1, such as the game-over marker 0, never has a legal move |
| Board.Place | backend/game.py:85 | Writing one cell changes that cell only |
| Board.PlaceAllCells | backend/game.py:90-91 | After the flip loop the listed cells hold the mover's value and every other cell keeps its own |
| Board.ApplyCells | backend/game.py:85-91 | After a legal move, the move's cell and every captured cell hold the mover, and no other cell changes |
| Board.CountPartition | backend/game.py:100-103 | The empty, black and white counts add up to the 64 cells |
| Board.PlaceCount | backend/game.py:85 | One write moves one unit from the count of the old value to the count of the new one |
| Board.ApplyCount | backend/game.py:85-91 | A legal move that captures k discs adds 1 + k to the mover's count, takes k from the opponent's and fills one empty cell |
| Game.InitialBoard | backend/game.py:14-20 | The starting board holds white on (3,3) and (4,4), black on (3,4) and (4,3), and nothing elsewhere |
| Game.InitialBoardBuilt | backend/game.py:14-20 | The starting board is the one `__init__` builds: four writes around mid = 8 // 2 on an empty board |
| Game.StartState | backend/game.py:12-24 | The start has two discs of each colour and 60 empty cells; white is to move; no last move is recorded |
| Game.WhiteStartMoves | tests/test_game.py:12-16 | On the starting layout, white's move is legal if and only if it is (2,4), (3,5), (4,2) or (5,3) |
| Game.WhiteOpeningMoves | tests/test_game.py:12-16 | White's listed opening moves are exactly those four, in scan order |
| Game.NextTurn | backend/game.py:92-97 | The opponent moves next if it can; otherwise the mover does if it can; otherwise 0 (game over), which happens exactly when neither can. A non-zero result can always move |
| Game.MakeMove | backend/game.py:76-98 | A move is accepted if and only if it is legal. A rejected move returns the game unchanged (board, side to move and last move); an accepted one records its cell as the last move |
| Game.MakeMoveCells | backend/game.py:85-91 | An accepted move sets its cell and its captured cells to the mover and leaves all other cells alone |
| Game.MakeMoveTurn | backend/game.py:92-97 | After an accepted move the turn follows the pass rule, stated on the new board |
| Game.MakeMoveKeepsLive | backend/game.py:92-97 | If the side to move can move (or the game is over), that still holds after any `make_move`, accepted or not |
| Game.StartLive | backend/game.py:12-24 | In the starting game the side to move (white) has a legal move |
| Game.StartTurnConsistent | backend/game.py:12-24 | The starting game's turn field is honest: the side to move can move, and the turn is 0 only if neither side can |
| Game.MakeMoveKeepsTurnConsistent | backend/game.py:76-98 | Every `make_move`, accepted or rejected, keeps the turn field honest; with the start this covers every game reached by `make_move` |
| Game.GameOverRejects | backend/game.py:76-84 | Once the game is over, a move for the default side (the current player, 0) is rejected |
| Game.Score | backend/game.py:100-103 | The black and white counts are non-negative, and together with the empty cells they make up the 64 cells |
| Game.MoveScore | backend/game.py:85-103 | An accepted move with k captures raises the mover's score by 1 + k and lowers the opponent's by k |
| Game.FirstMoveCaptures | tests/test_game.py:19-24 | White's opening move at (2,4) is legal and flips exactly the disc at (3,4) |
| Game.FirstMoveFlips | tests/test_game.py:19-33 | From the start, white's move at (2,4) is accepted and recorded as the last move, and (2,4) and (3,4) become white |
| Game.FirstMoveScore | tests/test_game.py:19-26 | After white's move at (2,4) from the start, the score is one black disc and four white |
| Game.BestIndex | backend/game.py:118 | The chosen index captures at least as much as every listed move and strictly more than every earlier one (Python's `max` keeps the first maximum) |
| Game.BestMove | backend/game.py:105-118 | Returns `None` exactly when the side has no legal move; otherwise returns a legal move |
| Game.BestMoveIsFirstGreatest | backend/game.py:105-118 | The greedy move captures at least as much as any legal move, and every legal move before it in scan order captures strictly less |
| Common.FirstMax | backend/bots.py:84-90 | The index of the first maximum: its value is at least every value and strictly above every earlier one |
| Common.FirstMin | backend/bots.py:24-30 | The index of the first minimum, likewise |
| Evaluation.WeightsSymmetric | backend/bots.py:36-45 | A fact about the constant table only: `WEIGHTS` is symmetric under transposition and under mirroring either axis |
| Evaluation.PositionalAntisymmetric | backend/bots.py:47-53 | `minnie`'s evaluation from the opponent's perspective is the negation |
| Evaluation.PositionalSwap | backend/bots.py:47-53 | Turning every disc over negates `minnie`'s evaluation |
| Evaluation.CellClasses | backend/bots.py:111-146 | A corner counts as a corner and never as an edge; corners are not bad squares; a bad square is counted independently of the corner/edge split, so (0,1) is both an edge and bad |
| Evaluation.TallyBounded | backend/bots.py:122-146 | A side's corner and edge counters together never exceed its disc count; its bad counter does not either |
| Evaluation.MobilityAntisymmetric | backend/bots.py:148-150 | The mobility difference changes sign with the perspective |
| Evaluation.PhaseProgression | backend/bots.py:152-159 | A fact about the phase table only: as discs accumulate, the disc weight never falls and the mobility and bad-square weights never rise; a corner is always worth 800 |
| Evaluation.CombineSwap | backend/bots.py:161-166 | Exchanging the two sides' counters and negating mobility negates the weighted score |
| Evaluation.PhasedAntisymmetric | backend/bots.py:119-167 | `sasha`'s evaluation, for side 1 or -1, is negated by taking the opponent's perspective |
| Evaluation.EvaluateAntisymmetric | backend/bots.py:119-167 | Both evaluators are antisymmetric in the perspective of a real side |
| Ordering.SortSorted | backend/bots.py:180 | The sort keeps every element exactly as often and returns a list sorted by key |
| Ordering.SortStable | backend/bots.py:180 | Like Python's `sorted`, the sort is stable: equal keys keep their input order |
| Ordering.OrderMoves | backend/bots.py:169-180 | `order_moves` returns a permutation of its input, sorted by the key |
| Ordering.OrderMovesStable | backend/bots.py:169-180 | On a list in scan order, moves with equal keys stay in scan order |
| Ordering.ClassOfMove | backend/bots.py:170-178 | The first key part is 0 exactly for corners, 1 for non-bad border cells, 2 for non-bad interior cells and 3 for bad squares |
| Ordering.OrderedClasses | backend/bots.py:169-180 | Along the ordered list the class never decreases; within the border and interior classes the flip count never increases |
| Search.MaxOverIsMaximum | backend/bots.py:64-70 | The maximizing loop's value is at least every child's value and equal to some child's |
| Search.MinOverIsMinimum | backend/bots.py:71-77 | The minimizing loop's value is at most every child's value and equal to some child's |
| Search.SameMovesSameValue | backend/bots.py:64-77 | Trying the same moves in a different order gives the same maximum and minimum |
| Search.MinimaxShape | backend/bots.py:55-63 | Depth 0, or neither side able to move, gives the evaluation; a side that cannot move while the other can passes at depth d - 1 with no evaluation of its own |
| Search.MinimaxChoice | backend/bots.py:64-77 | Where the side to move can move, the value is the best child value for that side, and some move attains it |
| Search.MinimaxAntisymmetric | backend/bots.py:55-77 | With a zero-sum evaluation, searching for the opponent gives the negated value |
| Search.AlphaBetaSound | backend/bots.py:184-218 | Alpha-beta, with the `alpha >= beta` cut-offs and pass nodes, is fail-soft with respect to minimax. Asked with a non-empty window, it returns the minimax value when that lies inside the window, and otherwise a bound on the correct side |
| Search.AlphaBetaFullWindow | backend/bots.py:184-218 | With the window (-inf, +inf), alpha-beta equals minimax |
| Search.RootValuesAreMinimax | backend/bots.py:228-237 | Each deepening step scores every root move with its minimax value |
| Search.FirstBestChild | backend/bots.py:79-91 | The first move of largest child value reaches the minimax value of the position, and every move listed before it reaches strictly less |
| Search.Pick | backend/bots.py:230-237 | A deepening step keeps one of the ordered moves |
| Search.DeepenLast | backend/bots.py:229-237 | Only the last completed deepening step decides the move |
| Search.PickIsBestChild | backend/bots.py:228-237 | A deepening step keeps the first move, in `order_moves` order, that reaches the minimax value at its depth |
| Bots.NextIsMakeMove | backend/bots.py:25-26 | The board the searches step to is the board `make_move` produces on a copy: listed moves are played and anything else changes nothing |
| Bots.OthelloZeroSum | backend/bots.py:119-167 | Both evaluators make the searches zero-sum |
| Bots.David | backend/bots.py:12-14 | `None` exactly when there is no legal move; otherwise a listed move |
| Bots.ReplyCountsSimulated | backend/bots.py:24-27 | The count `roger` keeps for each listed move is the opponent's number of legal moves after `make_move` plays that move on a copy of the game |
| Bots.Roger | backend/bots.py:17-31 | `None` exactly when there is no legal move; otherwise a listed move |
| Bots.RogerFewestReplies | backend/bots.py:22-31 | After `make_move` on a copy, `roger`'s move leaves the opponent no more legal moves than any other listed move, and strictly fewer than every move listed before it |
| Bots.Minnie | backend/bots.py:79-91 | `None` exactly when there is no legal move; otherwise a listed move |
| Bots.MinnieIsMinimax | backend/bots.py:79-91 | `minnie`'s move reaches the positional minimax value of the position, and every earlier listed move reaches strictly less |
| Bots.SearchDepth | backend/bots.py:224-226 | With 12 or fewer empty cells the search depth is their number; otherwise it is `max_depth` |
| Bots.DeepenRoot | backend/bots.py:228-237 | With no deepening step the first listed move is kept; otherwise the last step's pick is returned |
| Bots.Sasha | backend/bots.py:94-238 | On a four-disc board the result is the book move. Otherwise it is `None` exactly when there is no legal move, and a listed move when there is one |
| Bots.SashaIsMinimax | backend/bots.py:220-238 | Outside the book, `sasha` plays the first move in `order_moves` order that reaches the phased minimax value at the final depth, with the endgame rule applied. With no deepening step it plays the first listed move |
| Bots.StartIsBook | backend/bots.py:103-104 | The standard start has four discs, so the book applies there |
| Bots.BookMoveLegal | backend/bots.py:104-107 | Both book moves, (2,4) for white and (2,3) for black, are legal from the standard start |
| Bots.SashaBookLegal | backend/bots.py:103-107 | From the standard start `sasha` answers from the book, and the answer is a listed move |
| Bots.Lookup | backend/bots.py:241-248 | A name is found exactly when the registry lists it, and it is found with the strategy registered under it |
| Bots.LookupFrom | backend/bots.py:241-248 | The same, for the registry from a given position on |
| Bots.PlaySound | backend/bots.py:12-238 | Every strategy returns `None` exactly when the side has no legal move, and otherwise a listed move (for `sasha` on four discs, from the standard start) |
| Bots.RegistryRunnable | backend/bots.py:244 | Every registered `minnie` searches at least one ply |
| Bots.RegistrySound | backend/bots.py:241-248 | Every registered name runs a strategy with the soundness of `Bots.PlaySound` |

## Left out

- `backend/server.py` is not part of this model: it is transport, timers, persistence and floating-point rating arithmetic around the engine.
- `run_sasha.py` is not part of this model: it is file I/O around `sasha`.
- `Game.copy` is the identity, since games are immutable values. That `roger` and the searches do not change the caller's game therefore holds by construction.
- `sasha`'s transposition table (`backend/bots.py:182-187`, `192`, `196`, `217`) is not modelled. It stores results computed under narrowed windows as if they were exact, so with the table the equality with minimax need not hold. The search is modelled as if every lookup missed.
- The float infinities become `Search.Bound`, and the root loops' `-inf` start becomes `Common.FirstMax`. Child values are integers, so the same move is chosen.
- The `player=None` default arguments are not modelled separately: passing the current side is how they read. `Game.GameOverRejects` covers the case where that side is the game-over marker 0.
- Board sizes other than 8 are not modelled, because `BOARD_SIZE` is a constant.
- Python integers are unbounded, like Dafny's, so there is no wrap-around to model.
- Bots.Minnie: requires `depth >= 1`. With `depth <= 0` the source calls `minimax` with a negative depth, which never reaches 0 and so searches until neither side can move. The registry only uses depth 3.
- Bots.Sasha: on a four-disc board the contract states only that the book move is returned, not that it is legal. The source fires the book on any four-disc board, so legality is claimed only from the standard start (`Bots.SashaBookLegal`).
- Bots.PlaySound: for `sasha` on a four-disc board, soundness is claimed only for the standard start, for the same reason.
- Black's opening moves and a black first move are not proved. The source's tests state white's, and the black book move's legality is covered by `Bots.BookMoveLegal`.
- The search is generic over `Search.Rules`, and `Bots.Othello` supplies the engine's functions. The alpha-beta loop calls `order_moves` through `Rules.key`, which is `Ordering.Key`.
