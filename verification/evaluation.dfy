/** The two static evaluators of `backend/bots.py`: `minnie`'s positional
    weight table and `sasha`'s phase-weighted tally of discs, mobility,
    corners, edges and corner-adjacent "bad" squares. Both score a board from
    the perspective of a given side. */
module Evaluation {
  import opened Board

  // ---------------------------------------------------------------------
  // minnie: the positional weight table

  /** `WEIGHTS`: corners are prized, the cells next to them penalised. */
  const Weights: seq<seq<int>> := [
    [100, -20, 10, 5, 5, 10, -20, 100],
    [-20, -50, -2, -2, -2, -2, -50, -20],
    [10, -2, -1, -1, -1, -1, -2, 10],
    [5, -2, -1, -1, -1, -1, -2, 5],
    [5, -2, -1, -1, -1, -1, -2, 5],
    [10, -2, -1, -1, -1, -1, -2, 10],
    [-20, -50, -2, -2, -2, -2, -50, -20],
    [100, -20, 10, 5, 5, 10, -20, 100]
  ]

  /** The weight of one cell. */
  function Weight(c: Pos): int
    requires Inside(c)
  {
    Weights[c.0][c.1]
  }

  /** `WEIGHTS[x][y] * board[x][y]` summed over the cells of row `x` from
      column `y` on. */
  function RowWeighted(b: Board, x: int, y: nat): int
    requires 0 <= x < Size && y <= Size
    decreases Size - y
  {
    if y == Size then 0 else Weight((x, y)) * b[x][y] + RowWeighted(b, x, y + 1)
  }

  /** The weighted sum over the rows from `x` on. */
  function WeightedFrom(b: Board, x: nat): int
    requires x <= Size
    decreases Size - x
  {
    if x == Size then 0 else RowWeighted(b, x, 0) + WeightedFrom(b, x + 1)
  }

  /** `minnie`'s `evaluate`: the weighted sum of the board, multiplied by the
      side whose perspective is taken. */
  function PositionalScore(b: Board, player: int): int {
    WeightedFrom(b, 0) * player
  }

  /** The board with every disc turned over. */
  function Swap(b: Board): (r: Board)
    ensures forall x, y :: 0 <= x < Size && 0 <= y < Size ==> r[x][y] == -b[x][y]
  {
    seq(Size, x requires 0 <= x < Size => seq(Size, y requires 0 <= y < Size => -b[x][y]))
  }

  /** Turning every disc over negates the weighted sum of every row suffix. */
  lemma {:induction false} RowWeightedSwap(b: Board, x: int, y: nat)
    requires 0 <= x < Size && y <= Size
    ensures RowWeighted(Swap(b), x, y) == -RowWeighted(b, x, y)
    decreases Size - y
  {
    if y < Size {
      RowWeightedSwap(b, x, y + 1);
      SwappedTerm(Weight((x, y)), b[x][y], Swap(b)[x][y],
                  RowWeighted(b, x, y + 1), RowWeighted(Swap(b), x, y + 1),
                  RowWeighted(b, x, y), RowWeighted(Swap(b), x, y));
    }
  }

  /** A sum `w * v + rest` is negated when both `v` and `rest` are. */
  lemma SwappedTerm(w: int, v: int, v': int, rest: int, rest': int, s: int, s': int)
    requires v' == -v && rest' == -rest
    requires s == w * v + rest && s' == w * v' + rest'
    ensures s' == -s
  {
    NegatedFactor(w, v);
  }

  /** Turning every disc over negates the weighted sum of every suffix of rows. */
  lemma {:induction false} WeightedFromSwap(b: Board, x: nat)
    requires x <= Size
    ensures WeightedFrom(Swap(b), x) == -WeightedFrom(b, x)
    decreases Size - x
  {
    if x < Size {
      WeightedFromSwap(b, x + 1);
      RowWeightedSwap(b, x, 0);
    }
  }

  /** Negating one factor negates a product. */
  lemma NegatedFactor(a: int, c: int)
    ensures a * -c == -(a * c) && -a * c == -(a * c)
  {
  }

  /** A negated factor negates the product, stated for a factor given by name. */
  lemma ProductOfNegated(s: int, s': int, player: int)
    requires s' == -s
    ensures s' * player == -(s * player)
  {
    NegatedFactor(player, s);
  }

  /** The positional score is antisymmetric: taking the other side's
      perspective negates it. */
  lemma PositionalAntisymmetric(b: Board, player: int)
    ensures PositionalScore(b, -player) == -PositionalScore(b, player)
  {
    NegatedFactor(WeightedFrom(b, 0), player);
  }

  /** Turning every disc over negates the positional score. */
  lemma PositionalSwap(b: Board, player: int)
    ensures PositionalScore(Swap(b), player) == -PositionalScore(b, player)
  {
    WeightedFromSwap(b, 0);
    ProductOfNegated(WeightedFrom(b, 0), WeightedFrom(Swap(b), 0), player);
  }

  /** The weight table has the symmetry of the board: it is unchanged by
      swapping rows with columns and by mirroring either axis. */
  lemma WeightsSymmetric(x: int, y: int)
    requires 0 <= x < Size && 0 <= y < Size
    ensures Weight((x, y)) == Weight((y, x))
    ensures Weight((x, y)) == Weight((Size - 1 - x, y))
    ensures Weight((x, y)) == Weight((x, Size - 1 - y))
  {
  }

  // ---------------------------------------------------------------------
  // sasha: the phase-weighted tally

  /** `corners`. */
  const Corners: set<Pos> := {(0, 0), (0, 7), (7, 0), (7, 7)}

  /** `bad_squares`: the three cells touching each corner. */
  const BadSquares: set<Pos> := {
    (0, 1), (1, 0), (1, 1),
    (0, 6), (1, 7), (1, 6),
    (6, 0), (7, 1), (6, 1),
    (6, 6), (6, 7), (7, 6)
  }

  /** `x == 0 or x == 7 or y == 0 or y == 7`. */
  predicate OnBorder(c: Pos) {
    c.0 == 0 || c.0 == 7 || c.1 == 0 || c.1 == 7
  }

  /** One side's counters in `evaluate`: its discs, and how many of them are
      on corners, on other border cells, and on bad squares. */
  datatype Tally = Tally(discs: int, corners: int, edges: int, bad: int)

  /** What one disc on `c` adds to its side's counters: a corner is never an
      edge, and a bad square is counted whatever else the cell is. */
  function CellTally(c: Pos): Tally {
    Tally(1,
          if c in Corners then 1 else 0,
          if c !in Corners && OnBorder(c) then 1 else 0,
          if c in BadSquares then 1 else 0)
  }

  /** Counter-wise sum. */
  function Plus(t: Tally, u: Tally): Tally {
    Tally(t.discs + u.discs, t.corners + u.corners, t.edges + u.edges, t.bad + u.bad)
  }

  /** Whether a cell counts for the player (`mine`) or for the opponent: the
      source's `if cell == player` and its `else` branch, taken for every
      non-empty cell. */
  predicate CountsFor(cell: int, player: int, mine: bool) {
    if mine then cell == player else cell != 0 && cell != player
  }

  /** The counters of the player (`mine`) or of the opponent over row-major
      positions `k` onward. */
  function TallyFrom(b: Board, player: int, mine: bool, k: nat): Tally
    requires k <= Cells
    decreases Cells - k
  {
    if k == Cells then Tally(0, 0, 0, 0)
    else
      var c := CellAt(k);
      var rest := TallyFrom(b, player, mine, k + 1);
      if CountsFor(b[c.0][c.1], player, mine) then Plus(CellTally(c), rest) else rest
  }

  /** The five weights of one game phase. */
  datatype PhaseWeights = PhaseWeights(disc: int, mobility: int, corner: int, edge: int, bad: int)

  /** The weights for a board holding `pieces` discs: opening (at most 20),
      middle game (at most 52) and endgame. */
  function Phase(pieces: int): PhaseWeights {
    if pieces <= 20 then PhaseWeights(10, 80, 800, 40, 60)
    else if pieces <= 52 then PhaseWeights(30, 60, 800, 60, 40)
    else PhaseWeights(100, 20, 800, 20, 0)
  }

  /** The weighted sum of the differences between the two sides' counters,
      with `mobility` the difference of their legal-move counts. */
  function Combine(w: PhaseWeights, me: Tally, them: Tally, mobility: int): int {
    w.disc * (me.discs - them.discs)
      + w.mobility * mobility
      + w.corner * (me.corners - them.corners)
      + w.edge * (me.edges - them.edges)
      - w.bad * (me.bad - them.bad)
  }

  /** Exchanging the two sides' counters and negating the mobility
      difference negates the combined score. */
  lemma CombineSwap(w: PhaseWeights, me: Tally, them: Tally, mobility: int)
    ensures Combine(w, them, me, -mobility) == -Combine(w, me, them, mobility)
  {
    NegatedFactor(w.disc, me.discs - them.discs);
    NegatedFactor(w.mobility, mobility);
    NegatedFactor(w.corner, me.corners - them.corners);
    NegatedFactor(w.edge, me.edges - them.edges);
    NegatedFactor(w.bad, me.bad - them.bad);
  }

  /** How many more legal moves `player` has than its opponent `-player`. */
  function Mobility(b: Board, player: int): int {
    |ValidMoves(b, player)| - |ValidMoves(b, -player)|
  }

  /** The mobility difference changes sign with the perspective. */
  lemma MobilityAntisymmetric(b: Board, player: int)
    ensures Mobility(b, -player) == -Mobility(b, player)
  {
    assert -(-player) == player;
  }

  /** `sasha`'s `evaluate` from `player`'s perspective; the opponent is
      `-player`. */
  function PhasedScore(b: Board, player: int): int {
    PhasedFrom(TallyFrom(b, player, true, 0), TallyFrom(b, player, false, 0), Mobility(b, player))
  }

  /** The score from the two sides' counters and the mobility difference,
      with the weights of the phase their disc total falls in. */
  function PhasedFrom(me: Tally, them: Tally, mobility: int): int {
    Combine(Phase(me.discs + them.discs), me, them, mobility)
  }

  /** Exchanging the two sides' counters and negating the mobility
      difference negates the score: the phase depends only on the disc
      total, which the exchange keeps. */
  lemma PhasedFromSwap(me: Tally, them: Tally, me': Tally, them': Tally, mobility: int, mobility': int)
    requires me' == them && them' == me && mobility' == -mobility
    ensures PhasedFrom(me', them', mobility') == -PhasedFrom(me, them, mobility)
  {
    assert them.discs + me.discs == me.discs + them.discs;
    CombineSwap(Phase(me.discs + them.discs), me, them, mobility);
  }

  /** For a real side, the opponent's counters are exactly the counters of
      the other side taken as the player, and the other way round. */
  lemma {:induction false} TallySides(b: Board, player: int, k: nat)
    requires player == 1 || player == -1
    requires k <= Cells
    ensures TallyFrom(b, -player, true, k) == TallyFrom(b, player, false, k)
    ensures TallyFrom(b, -player, false, k) == TallyFrom(b, player, true, k)
    decreases Cells - k
  {
    if k < Cells {
      TallySides(b, player, k + 1);
      var c := CellAt(k);
      assert -1 <= b[c.0][c.1] <= 1;
    }
  }

  /** `sasha`'s evaluation is antisymmetric: for a real side, scoring from the
      opponent's perspective negates it. */
  lemma PhasedAntisymmetric(b: Board, player: int)
    requires player == 1 || player == -1
    ensures PhasedScore(b, -player) == -PhasedScore(b, player)
  {
    TallySides(b, player, 0);
    MobilityAntisymmetric(b, player);
    PhasedFromSwap(TallyFrom(b, player, true, 0), TallyFrom(b, player, false, 0),
                   TallyFrom(b, -player, true, 0), TallyFrom(b, -player, false, 0),
                   Mobility(b, player), Mobility(b, -player));
  }

  /** A side's corner and edge counters never exceed its disc count, nor
      does its bad-square counter: each disc is a corner, an edge or neither,
      and independently a bad square or not. */
  lemma {:induction false} TallyBounded(b: Board, player: int, mine: bool, k: nat)
    requires k <= Cells
    ensures var t := TallyFrom(b, player, mine, k);
      0 <= t.corners && 0 <= t.edges && t.corners + t.edges <= t.discs
      && 0 <= t.bad <= t.discs && t.discs <= Cells - k
    decreases Cells - k
  {
    if k < Cells {
      TallyBounded(b, player, mine, k + 1);
      CellTallyBounded(CellAt(k));
      TallyFromStep(b, player, mine, k);
      TallyStep(TallyFrom(b, player, mine, k), CellTally(CellAt(k)), TallyFrom(b, player, mine, k + 1),
                Cells - k - 1);
    }
  }

  /** One step of the tally: position `k` either adds its disc's counters or
      nothing. */
  lemma TallyFromStep(b: Board, player: int, mine: bool, k: nat)
    requires k < Cells
    ensures || TallyFrom(b, player, mine, k) == TallyFrom(b, player, mine, k + 1)
            || TallyFrom(b, player, mine, k) == Plus(CellTally(CellAt(k)), TallyFrom(b, player, mine, k + 1))
  {
  }

  /** Adding one disc's counters (or nothing) to bounded counters keeps them
      bounded, with room for one more disc. */
  lemma TallyStep(t: Tally, cell: Tally, rest: Tally, n: int)
    requires t == rest || t == Plus(cell, rest)
    requires cell.discs == 1 && 0 <= cell.corners && 0 <= cell.edges
             && cell.corners + cell.edges <= 1 && 0 <= cell.bad <= 1
    requires 0 <= rest.corners && 0 <= rest.edges && rest.corners + rest.edges <= rest.discs
             && 0 <= rest.bad <= rest.discs && rest.discs <= n
    ensures 0 <= t.corners && 0 <= t.edges && t.corners + t.edges <= t.discs
            && 0 <= t.bad <= t.discs && t.discs <= n + 1
  {
  }

  /** One disc is at most one of corner and edge, and at most once bad. */
  lemma CellTallyBounded(c: Pos)
    ensures var t := CellTally(c);
      t.discs == 1 && 0 <= t.corners && 0 <= t.edges && t.corners + t.edges <= 1 && 0 <= t.bad <= 1
  {
  }

  /** The classification of cells: corners are not edges, and the bad
      squares include border cells (so a disc on (0,1) counts both as an edge
      and as bad) as well as the inner diagonal neighbours of the corners. */
  lemma CellClasses()
    ensures forall c :: c in Corners ==> CellTally(c).edges == 0 && CellTally(c).corners == 1
    ensures Corners !! BadSquares
    ensures CellTally((0, 1)) == Tally(1, 0, 1, 1)
    ensures CellTally((1, 1)) == Tally(1, 0, 0, 1)
  {
  }

  /** As the board fills up the disc weight never falls and the mobility and
      bad-square weights never rise; a corner is always worth 800. */
  lemma PhaseProgression(p: int, q: int)
    requires p <= q
    ensures Phase(p).disc <= Phase(q).disc
    ensures Phase(p).mobility >= Phase(q).mobility
    ensures Phase(p).bad >= Phase(q).bad
    ensures Phase(p).corner == Phase(q).corner == 800
  {
  }

  // ---------------------------------------------------------------------
  // The evaluator a search uses

  /** Which static evaluation a search applies at its leaves. */
  datatype Heuristic = Positional | Phased

  /** The leaf value of `b` from `player`'s perspective. */
  function Evaluate(h: Heuristic, b: Board, player: int): int {
    match h
    case Positional => PositionalScore(b, player)
    case Phased => PhasedScore(b, player)
  }

  /** Both evaluations change sign with the perspective of a real side. */
  lemma EvaluateAntisymmetric(h: Heuristic, b: Board, player: int)
    requires player == 1 || player == -1
    ensures Evaluate(h, b, -player) == -Evaluate(h, b, player)
  {
    match h
    case Positional => PositionalAntisymmetric(b, player);
    case Phased => PhasedAntisymmetric(b, player);
  }
}
