/** The rules layer of the engine, on the board alone: cells, rays, the
    capture rule, legal-move enumeration, applying a move, and disc counts.

    A board is an 8x8 grid of integers where 0 is empty, 1 is black and -1 is
    white; a coordinate is a (row, column) pair. */
module Board {

  /** Width and height of the board (`BOARD_SIZE`). */
  const Size: int := 8

  /** Number of cells. */
  const Cells: int := 64

  type Pos = (int, int)

  ghost predicate WellFormed(b: seq<seq<int>>) {
    && |b| == 8
    && (forall i :: 0 <= i < 8 ==> |b[i]| == 8)
    && (forall i, j :: 0 <= i < 8 && 0 <= j < 8 ==> -1 <= b[i][j] <= 1)
  }

  /** An 8x8 grid whose every cell is empty, black or white. */
  type Board = b: seq<seq<int>> | WellFormed(b)
    witness seq(8, _ => seq(8, _ => 0))

  /** `inside(x, y)`: the coordinate lies on the board. */
  predicate Inside(c: Pos) {
    0 <= c.0 < Size && 0 <= c.1 < Size
  }

  /** Cell `c` is on the board and holds `v`. */
  predicate Holds(b: Board, c: Pos, v: int) {
    Inside(c) && b[c.0][c.1] == v
  }

  // ---------------------------------------------------------------------
  // Rays

  /** Number of compass directions. */
  const DirectionCount: int := 8

  /** A unit step: each component in {-1, 0, 1}, not both zero. */
  predicate Unit(d: Pos) {
    -1 <= d.0 <= 1 && -1 <= d.1 <= 1 && d != (0, 0)
  }

  /** The `j`-th of the eight compass directions, in the order the capture
      scan visits them: the cells of the 3x3 neighbourhood read with the
      column step outermost, skipping the centre. */
  function Direction(j: int): (d: Pos)
    requires 0 <= j < DirectionCount
    ensures Unit(d)
  {
    var k := if j < 4 then j else j + 1;
    (k % 3 - 1, k / 3 - 1)
  }

  /** The eight directions are pairwise different. */
  lemma DirectionInjective(i: int, j: int)
    requires 0 <= i < DirectionCount && 0 <= j < DirectionCount
    requires Direction(i) == Direction(j)
    ensures i == j
  {}

  /** The directions are exactly the source's list, in the source's order. */
  lemma DirectionsInSourceOrder()
    ensures seq(DirectionCount, Direction)
      == [(-1, -1), (0, -1), (1, -1), (-1, 0), (1, 0), (-1, 1), (0, 1), (1, 1)]
  {
  }

  /** `k * u` for a unit component `u`, written so that it stays linear. */
  function Scale(k: int, u: int): int {
    if u == 1 then k else if u == -1 then -k else 0
  }

  /** The cell `k` steps from `o` in direction `d`. */
  function RayAt(o: Pos, d: Pos, k: int): Pos {
    (o.0 + Scale(k, d.0), o.1 + Scale(k, d.1))
  }

  /** Two points on rays from the same origin coincide only when they are the
      same step of the same direction. */
  lemma RayInjective(o: Pos, d: Pos, k: int, e: Pos, m: int)
    requires Unit(d) && Unit(e) && 1 <= k && 1 <= m
    requires RayAt(o, d, k) == RayAt(o, e, m)
    ensures d == e && k == m
  {}

  /** Steps 1..n from `o` along `d` hold the opponent `-p` and step n+1 holds
      `p` itself: a run of opponent discs bracketed by the mover. */
  ghost predicate Bracketed(b: Board, o: Pos, d: Pos, p: int, n: int) {
    && p != 0
    && 1 <= n
    && (forall j :: 1 <= j <= n ==> Holds(b, RayAt(o, d, j), -p))
    && Holds(b, RayAt(o, d, n + 1), p)
  }

  /** The source's walk along one direction: `temp` holds the opponent discs
      met on steps 1..k-1; the walk goes on while step `k` holds the opponent,
      and at the first other cell keeps `temp` only when that cell holds the
      mover's own disc and `temp` is non-empty. */
  function Walk(b: Board, o: Pos, d: Pos, p: int, k: nat, temp: seq<Pos>): (r: seq<Pos>)
    requires Inside(o) && Unit(d) && 1 <= k && |temp| == k - 1
    requires forall i :: 0 <= i < |temp| ==> temp[i] == RayAt(o, d, i + 1) && Holds(b, temp[i], -p)
    ensures r == [] || Bracketed(b, o, d, p, |r|)
    ensures forall i :: 0 <= i < |r| ==> r[i] == RayAt(o, d, i + 1)
    decreases Size - k
  {
    var c := RayAt(o, d, k);
    if Holds(b, c, -p) then Walk(b, o, d, p, k + 1, temp + [c])
    else if Holds(b, c, p) && |temp| > 0 then
      assert forall j :: 1 <= j <= |temp| ==> Holds(b, RayAt(o, d, j), -p) by {
        forall j | 1 <= j <= |temp| ensures Holds(b, RayAt(o, d, j), -p) {
          assert temp[j - 1] == RayAt(o, d, j);
        }
      }
      temp
    else []
  }

  /** What one direction contributes to the capture list. */
  function DirCaptures(b: Board, o: Pos, d: Pos, p: int): (r: seq<Pos>)
    requires Inside(o) && Unit(d)
    ensures r == [] || Bracketed(b, o, d, p, |r|)
    ensures forall i :: 0 <= i < |r| ==> r[i] == RayAt(o, d, i + 1)
  {
    Walk(b, o, d, p, 1, [])
  }

  /** A bracketed run in direction `d` is exactly what that direction
      contributes: the maximal opponent run cannot stop short of it or run
      past its closing disc. */
  lemma DirCapturesComplete(b: Board, o: Pos, d: Pos, p: int, n: int)
    requires Inside(o) && Unit(d) && Bracketed(b, o, d, p, n)
    ensures |DirCaptures(b, o, d, p)| == n
  {
    WalkComplete(b, o, d, p, n, 1, []);
  }

  /** A walk that has not yet passed the closing disc of a bracketed run
      stops exactly there and keeps the whole run. */
  lemma {:induction false} WalkComplete(b: Board, o: Pos, d: Pos, p: int, n: int, k: nat, temp: seq<Pos>)
    requires Inside(o) && Unit(d) && 1 <= k && |temp| == k - 1
    requires forall i :: 0 <= i < |temp| ==> temp[i] == RayAt(o, d, i + 1) && Holds(b, temp[i], -p)
    requires Bracketed(b, o, d, p, n) && k <= n + 1
    ensures |Walk(b, o, d, p, k, temp)| == n
    decreases n + 1 - k
  {
    var c := RayAt(o, d, k);
    if k <= n {
      assert Holds(b, c, -p);
      var next := temp + [c];
      assert forall i :: 0 <= i < |temp| ==> next[i] == temp[i];
      WalkComplete(b, o, d, p, n, k + 1, next);
    }
  }

  /** The capture list accumulated over the directions from index `i` on. */
  function CapturesFrom(b: Board, o: Pos, p: int, i: nat): (r: seq<Pos>)
    requires Inside(o) && i <= DirectionCount
    decreases DirectionCount - i
  {
    if i == DirectionCount then []
    else
      DirCaptures(b, o, Direction(i), p) + CapturesFrom(b, o, p, i + 1)
  }

  /** Unfolds one step of `CapturesFrom`. */
  lemma CapturesFromStep(b: Board, o: Pos, p: int, i: nat)
    requires Inside(o) && i < DirectionCount
    ensures Unit(Direction(i))
    ensures CapturesFrom(b, o, p, i) == DirCaptures(b, o, Direction(i), p) + CapturesFrom(b, o, p, i + 1)
  {
  }

  /** A cell in the list from direction `i` on comes from one of those directions. */
  lemma {:induction false} CapturesFromMember(b: Board, o: Pos, p: int, i: nat, c: Pos)
    requires Inside(o) && i <= DirectionCount
    requires c in CapturesFrom(b, o, p, i)
    ensures exists j :: i <= j < DirectionCount && c in DirCaptures(b, o, Direction(j), p)
    decreases DirectionCount - i
  {
    CapturesFromStep(b, o, p, i);
    if c !in DirCaptures(b, o, Direction(i), p) {
      CapturesFromMember(b, o, p, i + 1, c);
    }
  }

  /** What direction `j` contributes is in the list from every `i <= j`. */
  lemma {:induction false} CapturesFromContains(b: Board, o: Pos, p: int, i: nat, j: int, c: Pos)
    requires Inside(o) && i <= j < DirectionCount
    requires c in DirCaptures(b, o, Direction(j), p)
    ensures c in CapturesFrom(b, o, p, i)
    decreases j - i
  {
    CapturesFromStep(b, o, p, i);
    if i < j {
      CapturesFromContains(b, o, p, i + 1, j, c);
    }
  }

  /** A contributed cell is one of the run's steps, so never the origin. */
  lemma DirCapturesStep(b: Board, o: Pos, d: Pos, p: int, c: Pos) returns (s: int)
    requires Inside(o) && Unit(d) && c in DirCaptures(b, o, d, p)
    ensures 1 <= s <= |DirCaptures(b, o, d, p)| && c == RayAt(o, d, s)
    ensures Bracketed(b, o, d, p, |DirCaptures(b, o, d, p)|)
  {
    s := RunStep(o, d, DirCaptures(b, o, d, p), c);
  }

  /** A member of a run listed step by step from `o` along `d` is one of
      its steps. */
  lemma RunStep(o: Pos, d: Pos, run: seq<Pos>, c: Pos) returns (s: int)
    requires forall i :: 0 <= i < |run| ==> run[i] == RayAt(o, d, i + 1)
    requires c in run
    ensures 1 <= s <= |run| && c == RayAt(o, d, s)
  {
    var k :| 0 <= k < |run| && run[k] == c;
    s := k + 1;
  }

  /** No element occurs twice. */
  predicate Distinct<T(==)>(s: seq<T>) {
    forall x, y :: 0 <= x < y < |s| ==> s[x] != s[y]
  }

  /** The first two elements of a repetition-free sequence differ. */
  lemma FirstTwoDiffer<T>(s: seq<T>)
    requires Distinct(s) && |s| >= 2
    ensures s[0] != s[1] && s[0] in s && s[1] in s
  {
  }

  /** A repetition-free non-empty sequence whose every element is `x` is `[x]`. */
  lemma DistinctSingle<T>(s: seq<T>, x: T)
    requires Distinct(s) && |s| > 0
    requires forall c :: c in s ==> c == x
    ensures s == [x]
  {
    assert s[0] in s;
    if |s| >= 2 {
      FirstTwoDiffer(s);
      assert false;
    }
  }

  lemma DistinctAppend<T>(a: seq<T>, b: seq<T>)
    requires Distinct(a) && Distinct(b)
    requires forall c :: c in a ==> c !in b
    ensures Distinct(a + b)
  {
    forall x, y | 0 <= x < y < |a + b| ensures (a + b)[x] != (a + b)[y] {
      if x < |a| && y >= |a| {
        assert (a + b)[x] in a && (a + b)[y] in b;
      }
    }
  }

  /** One direction's contribution never names a cell twice. */
  lemma DirCapturesDistinct(b: Board, o: Pos, d: Pos, p: int)
    requires Inside(o) && Unit(d)
    ensures Distinct(DirCaptures(b, o, d, p))
  {
    var dc := DirCaptures(b, o, d, p);
    forall x, y | 0 <= x < y < |dc| ensures dc[x] != dc[y] {
      RayInjectiveSteps(o, d, x + 1, y + 1);
    }
  }

  /** The capture list from direction `i` onward never names a cell twice. */
  lemma {:induction false} CapturesFromDistinct(b: Board, o: Pos, p: int, i: nat)
    requires Inside(o) && i <= DirectionCount
    ensures Distinct(CapturesFrom(b, o, p, i))
    decreases DirectionCount - i
  {
    if i < DirectionCount {
      CapturesFromDistinct(b, o, p, i + 1);
      CapturesFromStep(b, o, p, i);
      var d := Direction(i);
      var dc := DirCaptures(b, o, d, p);
      var rest := CapturesFrom(b, o, p, i + 1);
      DirCapturesDistinct(b, o, d, p);
      forall c | c in dc ensures c !in rest {
        if c in rest {
          var s1 := DirCapturesStep(b, o, d, p, c);
          CapturesFromMember(b, o, p, i + 1, c);
          var j :| i + 1 <= j < DirectionCount && c in DirCaptures(b, o, Direction(j), p);
          var s2 := DirCapturesStep(b, o, Direction(j), p, c);
          RayInjective(o, d, s1, Direction(j), s2);
          DirectionInjective(i, j);
        }
      }
      DistinctAppend(dc, rest);
    }
  }

  /** Distinct steps along one direction reach distinct cells. */
  lemma RayInjectiveSteps(o: Pos, d: Pos, k: int, m: int)
    requires Unit(d) && 1 <= k && 1 <= m && k != m
    ensures RayAt(o, d, k) != RayAt(o, d, m)
  {}

  /** `_captures(x, y, player)`: every disc a move by `p` at `o` would flip.
      Each listed cell holds the opponent's disc, none is listed twice, the
      move's own cell never is, and only a real side (1 or -1) captures. */
  function Captures(b: Board, o: Pos, p: int): (r: seq<Pos>)
    requires Inside(o)
    ensures forall c :: c in r ==> Holds(b, c, -p) && c != o
    ensures Distinct(r)
    ensures |r| > 0 ==> p == 1 || p == -1
  {
    CapturesFromSound(b, o, p);
    CapturesFromDistinct(b, o, p, 0);
    NonEmptyCapturesFrom(b, o, p);
    CapturesFrom(b, o, p, 0)
  }

  lemma CapturesFromSound(b: Board, o: Pos, p: int)
    requires Inside(o)
    ensures forall c :: c in CapturesFrom(b, o, p, 0) ==> Holds(b, c, -p) && c != o && p != 0
  {
    forall c | c in CapturesFrom(b, o, p, 0) ensures Holds(b, c, -p) && c != o && p != 0 {
      CapturesFromMember(b, o, p, 0, c);
      var j :| 0 <= j < DirectionCount && c in DirCaptures(b, o, Direction(j), p);
      var s := DirCapturesStep(b, o, Direction(j), p, c);
    }
  }

  lemma NonEmptyCapturesFrom(b: Board, o: Pos, p: int)
    requires Inside(o)
    ensures |CapturesFrom(b, o, p, 0)| > 0 ==> p == 1 || p == -1
  {
    if |CapturesFrom(b, o, p, 0)| > 0 {
      CapturesFromSound(b, o, p);
      assert CapturesFrom(b, o, p, 0)[0] in CapturesFrom(b, o, p, 0);
    }
  }

  /** Soundness of the capture rule: every captured cell lies in a run of
      opponent discs along one of the eight directions from the move that ends
      on a disc of the mover's own colour. */
  lemma CaptureIsBracketed(b: Board, o: Pos, p: int, c: Pos) returns (j: int, n: int, s: int)
    requires Inside(o) && c in Captures(b, o, p)
    ensures 0 <= j < DirectionCount && 1 <= s <= n
    ensures Bracketed(b, o, Direction(j), p, n) && c == RayAt(o, Direction(j), s)
  {
    CapturesFromMember(b, o, p, 0, c);
    j :| 0 <= j < DirectionCount && c in DirCaptures(b, o, Direction(j), p);
    s := DirCapturesStep(b, o, Direction(j), p, c);
    n := |DirCaptures(b, o, Direction(j), p)|;
  }

  /** Completeness of the capture rule: every cell of a bracketed opponent
      run along any of the eight directions is captured. */
  lemma BracketedIsCaptured(b: Board, o: Pos, p: int, j: int, n: int, s: int)
    requires Inside(o) && 0 <= j < DirectionCount && 1 <= s <= n
    requires Bracketed(b, o, Direction(j), p, n)
    ensures RayAt(o, Direction(j), s) in Captures(b, o, p)
  {
    InDirCaptures(b, o, Direction(j), p, n, s);
    CapturesFromContains(b, o, p, 0, j, RayAt(o, Direction(j), s));
  }

  /** Every cell of a bracketed run along `d` is in that direction's contribution. */
  lemma InDirCaptures(b: Board, o: Pos, d: Pos, p: int, n: int, s: int)
    requires Inside(o) && Unit(d) && Bracketed(b, o, d, p, n) && 1 <= s <= n
    ensures RayAt(o, d, s) in DirCaptures(b, o, d, p)
  {
    DirCapturesComplete(b, o, d, p, n);
    assert DirCaptures(b, o, d, p)[s - 1] == RayAt(o, d, s);
  }

  /** `board[x][y] == 0 and _captures(x, y, player)`: the test `valid_moves`
      applies to each cell. */
  predicate IsLegal(b: Board, m: Pos, p: int) {
    Holds(b, m, 0) && |Captures(b, m, p)| > 0
  }

  // ---------------------------------------------------------------------
  // Legal-move enumeration

  /** Row-major position of a cell. */
  function Index(c: Pos): int { c.0 * 8 + c.1 }

  /** The cell at row-major position `k`. */
  function CellAt(k: int): (c: Pos)
    requires 0 <= k < Cells
    ensures Inside(c) && Index(c) == k
  {
    (k / 8, k % 8)
  }

  /** Row-major positions name cells one to one. */
  lemma CellAtIndex(c: Pos)
    requires Inside(c)
    ensures 0 <= Index(c) < Cells && CellAt(Index(c)) == c
  {
    var e := CellAt(Index(c));
    assert e.0 * 8 + e.1 == c.0 * 8 + c.1;
  }

  /** The cells at row-major positions `k` onward that pass `test`, in scan
      order. */
  function ScanFrom(test: Pos -> bool, k: nat): seq<Pos>
    requires k <= Cells
    decreases Cells - k
  {
    if k == Cells then []
    else
      var c := CellAt(k);
      if test(c) then [c] + ScanFrom(test, k + 1) else ScanFrom(test, k + 1)
  }

  /** Every scanned cell is on the board, passes the test and lies at or after `k`. */
  lemma {:induction false} ScanFromSound(test: Pos -> bool, k: nat)
    requires k <= Cells
    ensures forall c :: c in ScanFrom(test, k) ==> Inside(c) && test(c) && k <= Index(c)
    decreases Cells - k
  {
    if k < Cells {
      ScanFromSound(test, k + 1);
    }
  }

  /** The scan lists cells in strictly increasing row-major position. */
  lemma {:induction false} ScanFromOrdered(test: Pos -> bool, k: nat)
    requires k <= Cells
    ensures forall i, j :: 0 <= i < j < |ScanFrom(test, k)| ==>
      Index(ScanFrom(test, k)[i]) < Index(ScanFrom(test, k)[j])
    decreases Cells - k
  {
    if k < Cells {
      ScanFromOrdered(test, k + 1);
      ScanFromSound(test, k + 1);
      var c := CellAt(k);
      var rest := ScanFrom(test, k + 1);
      if test(c) {
        assert ScanFrom(test, k) == [c] + rest;
        PrependIncreasing(c, rest);
      } else {
        assert ScanFrom(test, k) == rest;
      }
    }
  }

  /** A cell placed before cells of greater position keeps the positions
      strictly increasing. */
  lemma PrependIncreasing(c: Pos, rest: seq<Pos>)
    requires forall i, j :: 0 <= i < j < |rest| ==> Index(rest[i]) < Index(rest[j])
    requires forall x :: x in rest ==> Index(c) < Index(x)
    ensures forall i, j :: 0 <= i < j < |[c] + rest| ==> Index(([c] + rest)[i]) < Index(([c] + rest)[j])
  {
    var r := [c] + rest;
    forall i, j | 0 <= i < j < |r| ensures Index(r[i]) < Index(r[j]) {
      assert r[j] == rest[j - 1] && rest[j - 1] in rest;
      if i > 0 {
        assert r[i] == rest[i - 1];
      }
    }
  }

  /** Every cell at or after `k` that passes the test is scanned. */
  lemma {:induction false} ScanFromComplete(test: Pos -> bool, k: nat, c: Pos)
    requires k <= Cells && Inside(c) && test(c) && k <= Index(c)
    ensures c in ScanFrom(test, k)
    decreases Cells - k
  {
    if Index(c) > k {
      ScanFromComplete(test, k + 1, c);
      ScanFromGrows(test, k, c);
    } else {
      CellAtIndex(c);
      ScanFromHead(test, k);
    }
  }

  /** A cell scanned from `k + 1` is scanned from `k`. */
  lemma ScanFromGrows(test: Pos -> bool, k: nat, c: Pos)
    requires k < Cells && c in ScanFrom(test, k + 1)
    ensures c in ScanFrom(test, k)
  {
  }

  /** The cell at `k`, when it passes, is scanned from `k`. */
  lemma ScanFromHead(test: Pos -> bool, k: nat)
    requires k < Cells && test(CellAt(k))
    ensures CellAt(k) in ScanFrom(test, k)
  {
  }

  /** The test `valid_moves` applies to each cell. */
  function LegalTest(b: Board, p: int): Pos -> bool {
    c => IsLegal(b, c, p)
  }

  /** `valid_moves(player)`: the cells passing the legality test, in
      row-major order. */
  function ValidMoves(b: Board, p: int): (r: seq<Pos>)
    ensures forall i, j :: 0 <= i < j < |r| ==> Index(r[i]) < Index(r[j])
  {
    ScanFromOrdered(LegalTest(b, p), 0);
    ScanFrom(LegalTest(b, p), 0)
  }

  /** `valid_moves` lists exactly the legal moves: every listed cell is
      legal and every legal cell is listed. */
  lemma ValidMovesLegal(b: Board, p: int)
    ensures forall c :: c in ValidMoves(b, p) <==> IsLegal(b, c, p)
  {
    var test := LegalTest(b, p);
    ScanFromSound(test, 0);
    forall c | IsLegal(b, c, p) ensures c in ScanFrom(test, 0) {
      ScanFromComplete(test, 0, c);
    }
  }

  /** The side has at least one legal move. */
  predicate HasMoves(b: Board, p: int) {
    exists x, y :: 0 <= x < Size && 0 <= y < Size && IsLegal(b, (x, y), p)
  }

  /** `if self.valid_moves(player)` tests exactly whether the side can move. */
  lemma HasMovesIff(b: Board, p: int)
    ensures HasMoves(b, p) <==> |ValidMoves(b, p)| > 0
  {
    if HasMoves(b, p) {
      var x, y :| 0 <= x < Size && 0 <= y < Size && IsLegal(b, (x, y), p);
      LegalIsListed(b, p, (x, y));
    }
    if |ValidMoves(b, p)| > 0 {
      FirstListedIsLegal(b, p);
    }
  }

  /** A legal move makes the list non-empty. */
  lemma LegalIsListed(b: Board, p: int, c: Pos)
    requires Inside(c) && IsLegal(b, c, p)
    ensures |ValidMoves(b, p)| > 0
  {
    ScanFromComplete(LegalTest(b, p), 0, c);
  }

  /** The first listed move is a legal move on the board. */
  lemma FirstListedIsLegal(b: Board, p: int)
    requires |ValidMoves(b, p)| > 0
    ensures HasMoves(b, p)
  {
    var m := ValidMoves(b, p)[0];
    ScanHeadPasses(LegalTest(b, p));
    assert IsLegal(b, (m.0, m.1), p);
  }

  /** The first scanned cell is on the board and passes the test. */
  lemma ScanHeadPasses(test: Pos -> bool)
    requires |ScanFrom(test, 0)| > 0
    ensures Inside(ScanFrom(test, 0)[0]) && test(ScanFrom(test, 0)[0])
  {
    ScanFromSound(test, 0);
    assert ScanFrom(test, 0)[0] in ScanFrom(test, 0);
  }

  /** Only a real side can move: for any other value nothing is captured. */
  lemma OnlySidesMove(b: Board, p: int)
    requires HasMoves(b, p)
    ensures p == 1 || p == -1
  {
    var x, y :| 0 <= x < Size && 0 <= y < Size && IsLegal(b, (x, y), p);
  }

  // ---------------------------------------------------------------------
  // Applying a move

  /** Writes `v` into cell `c`. */
  function Place(b: Board, c: Pos, v: int): (r: Board)
    requires Inside(c) && -1 <= v <= 1
    ensures forall x, y :: 0 <= x < 8 && 0 <= y < 8 ==>
      r[x][y] == (if (x, y) == c then v else b[x][y])
  {
    b[c.0 := b[c.0][c.1 := v]]
  }

  /** Writes `v` into each cell of `cs`, one after the other. */
  function PlaceAll(b: Board, cs: seq<Pos>, v: int): Board
    requires forall c :: c in cs ==> Inside(c)
    requires -1 <= v <= 1
    decreases |cs|
  {
    if cs == [] then b
    else
      assert cs[0] in cs && forall c :: c in cs[1..] ==> c in cs;
      PlaceAll(Place(b, cs[0], v), cs[1..], v)
  }

  /** After `PlaceAll` the listed cells hold `v` and every other cell keeps
      its value. */
  lemma {:induction false} PlaceAllCells(b: Board, cs: seq<Pos>, v: int)
    requires forall c :: c in cs ==> Inside(c)
    requires -1 <= v <= 1
    ensures forall x, y :: 0 <= x < 8 && 0 <= y < 8 ==>
      PlaceAll(b, cs, v)[x][y] == (if (x, y) in cs then v else b[x][y])
    decreases |cs|
  {
    if cs != [] {
      assert cs[0] in cs && forall c :: c in cs[1..] ==> c in cs;
      assert forall c :: c in cs <==> c == cs[0] || c in cs[1..];
      PlaceAllCells(Place(b, cs[0], v), cs[1..], v);
    }
  }

  /** `make_move`'s board update for the legal move `m` by `p`: the disc is
      placed on `m`, then every captured disc is turned to `p`. */
  function Apply(b: Board, m: Pos, p: int): Board
    requires IsLegal(b, m, p)
  {
    PlaceAllPrepended(b, m, Captures(b, m, p), p);
    PlaceAll(b, [m] + Captures(b, m, p), p)
  }

  /** After a legal move the move's cell and every captured disc hold `p`,
      and no other cell changes. */
  lemma ApplyCells(b: Board, m: Pos, p: int)
    requires IsLegal(b, m, p)
    ensures forall x, y :: 0 <= x < 8 && 0 <= y < 8 ==>
      Apply(b, m, p)[x][y] == (if (x, y) == m || (x, y) in Captures(b, m, p) then p else b[x][y])
  {
    PlaceAllPrepended(b, m, Captures(b, m, p), p);
  }

  /** `PlaceAllCells` for a list made of one cell followed by others. */
  lemma PlaceAllPrepended(b: Board, m: Pos, cs: seq<Pos>, v: int)
    requires Inside(m) && (forall c :: c in cs ==> Inside(c)) && -1 <= v <= 1
    ensures forall c :: c in [m] + cs ==> Inside(c)
    ensures forall x, y :: 0 <= x < 8 && 0 <= y < 8 ==>
      PlaceAll(b, [m] + cs, v)[x][y] == (if (x, y) == m || (x, y) in cs then v else b[x][y])
  {
    assert forall c :: c in [m] + cs <==> c == m || c in cs;
    PlaceAllCells(b, [m] + cs, v);
  }

  // ---------------------------------------------------------------------
  // Disc counts

  /** The number of cells at row-major positions `k` onward that hold `v`. */
  function CountFrom(b: Board, v: int, k: nat): nat
    requires k <= Cells
    decreases Cells - k
  {
    if k == Cells then 0
    else
      var c := CellAt(k);
      (if b[c.0][c.1] == v then 1 else 0) + CountFrom(b, v, k + 1)
  }

  /** One step of the count: position `k` adds one when it holds `v`. */
  lemma CountFromStep(b: Board, v: int, k: nat)
    requires k < Cells
    ensures CountFrom(b, v, k)
      == (if b[CellAt(k).0][CellAt(k).1] == v then 1 else 0) + CountFrom(b, v, k + 1)
  {
  }

  /** The number of cells holding `v` (`sum(cell == v for row in board for cell in row)`). */
  function Count(b: Board, v: int): nat {
    CountFrom(b, v, 0)
  }

  /** Each cell is counted under exactly one of the three values. */
  lemma {:induction false} CountFromPartition(b: Board, k: nat)
    requires k <= Cells
    ensures CountFrom(b, -1, k) + CountFrom(b, 0, k) + CountFrom(b, 1, k) == Cells - k
    decreases Cells - k
  {
    if k < Cells {
      CountFromPartition(b, k + 1);
    }
  }

  /** The empty, black and white counts always add up to the 64 cells. */
  lemma CountPartition(b: Board)
    ensures Count(b, -1) + Count(b, 0) + Count(b, 1) == Cells
  {
    CountFromPartition(b, 0);
  }

  /** How one write changes the count of `v` among positions `k` onward. */
  lemma {:induction false} PlaceCountFrom(b: Board, c: Pos, w: int, v: int, k: nat)
    requires Inside(c) && -1 <= w <= 1 && k <= Cells
    ensures CountFrom(Place(b, c, w), v, k) == CountFrom(b, v, k)
      + (if k <= Index(c) then (if w == v then 1 else 0) - (if b[c.0][c.1] == v then 1 else 0) else 0)
    decreases Cells - k
  {
    if k < Cells {
      PlaceCountFrom(b, c, w, v, k + 1);
      var e := CellAt(k);
      assert e == c <==> k == Index(c);
    }
  }

  /** Writing `w` into a cell that held `u` moves one disc from the count of
      `u` to the count of `w`. */
  lemma PlaceCount(b: Board, c: Pos, w: int, v: int)
    requires Inside(c) && -1 <= w <= 1
    ensures Count(Place(b, c, w), v) == Count(b, v)
      + (if w == v then 1 else 0) - (if b[c.0][c.1] == v then 1 else 0)
  {
    PlaceCountFrom(b, c, w, v, 0);
  }

  /** Writing `v` into `n` distinct cells that all held `u != v` adds `n` to
      the count of `v`, takes `n` from the count of `u`, and leaves the count
      of any third value `t` alone. */
  lemma {:induction false} PlaceAllCount(b: Board, cs: seq<Pos>, u: int, v: int, t: int)
    requires forall c :: c in cs ==> Inside(c) && b[c.0][c.1] == u
    requires Distinct(cs) && -1 <= v <= 1 && u != v
    ensures Count(PlaceAll(b, cs, v), t)
      == Count(b, t) + (if t == v then |cs| else if t == u then -|cs| else 0)
    decreases |cs|
  {
    if cs != [] {
      var c := cs[0];
      assert c in cs;
      var b1 := Place(b, c, v);
      var rest := cs[1..];
      assert PlaceAll(b, cs, v) == PlaceAll(b1, rest, v);
      PlaceCount(b, c, v, t);
      assert Count(b1, t) == Count(b, t) + (if t == v then 1 else if t == u then -1 else 0);
      TailStillHolds(b, cs, u, v);
      PlaceAllCount(b1, rest, u, v, t);
    }
  }

  /** After the first write, the remaining cells of a duplicate-free list
      still hold what they held. */
  lemma TailStillHolds(b: Board, cs: seq<Pos>, u: int, v: int)
    requires forall c :: c in cs ==> Inside(c) && b[c.0][c.1] == u
    requires Distinct(cs) && -1 <= v <= 1 && cs != []
    ensures forall e :: e in cs[1..] ==> Inside(e) && Place(b, cs[0], v)[e.0][e.1] == u
    ensures Distinct(cs[1..])
  {
    assert cs[0] in cs;
    forall e | e in cs[1..] ensures Inside(e) && Place(b, cs[0], v)[e.0][e.1] == u {
      var i :| 1 <= i < |cs| && cs[i] == e;
    }
  }

  /** A legal move by `p` that captures `k` discs adds `1 + k` to the mover's
      count, takes `k` from the opponent's and fills one empty cell. */
  lemma ApplyCount(b: Board, m: Pos, p: int)
    requires IsLegal(b, m, p)
    ensures Count(Apply(b, m, p), p) == Count(b, p) + 1 + |Captures(b, m, p)|
    ensures Count(Apply(b, m, p), -p) == Count(b, -p) - |Captures(b, m, p)|
    ensures Count(Apply(b, m, p), 0) == Count(b, 0) - 1
  {
    var caps := Captures(b, m, p);
    var b1 := Place(b, m, p);
    assert [m] + caps != [] && ([m] + caps)[0] == m && ([m] + caps)[1..] == caps;
    assert Apply(b, m, p) == PlaceAll(b1, caps, p);
    PlaceCount(b, m, p, p);
    PlaceCount(b, m, p, -p);
    PlaceCount(b, m, p, 0);
    forall e | e in caps ensures Inside(e) && b1[e.0][e.1] == -p {
    }
    PlaceAllCount(b1, caps, -p, p, p);
    PlaceAllCount(b1, caps, -p, p, -p);
    PlaceAllCount(b1, caps, -p, p, 0);
  }
}
