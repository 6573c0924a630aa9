/** `sasha`'s `order_moves`: the legal moves sorted by a two-part key so that
    the search looks at corners first, then border cells, then interior
    cells, and the squares next to a corner last; within the border and
    interior classes, moves that flip more discs come first. */
module Ordering {
  import opened Board
  import opened Game
  import opened Evaluation

  /** The sort key of `key(m)`: `(0, 0)` for a corner, `(3, 0)` for a bad
      square, otherwise priority 1 on the border and 2 inside, paired with
      the negated number of discs the move flips. */
  function Key(b: Board, turn: int, m: Pos): (int, int) {
    if m in Corners then (0, 0)
    else if m in BadSquares then (3, 0)
    else (if OnBorder(m) then 1 else 2, -(Gain(b, m, turn) as int))
  }

  /** Python's tuple comparison `k < l`. */
  predicate KeyLess(k: (int, int), l: (int, int)) {
    k.0 < l.0 || (k.0 == l.0 && k.1 < l.1)
  }

  /** No later element has a key smaller than an earlier one. */
  predicate Sorted<T>(key: T -> (int, int), s: seq<T>) {
    forall i, j :: 0 <= i < j < |s| ==> !KeyLess(key(s[j]), key(s[i]))
  }

  /** Elements with equal keys appear in increasing `rank`. */
  predicate StableOrder<T>(key: T -> (int, int), rank: T -> int, s: seq<T>) {
    forall i, j :: 0 <= i < j < |s| && key(s[i]) == key(s[j]) ==> rank(s[i]) < rank(s[j])
  }

  /** Puts `m` before the first element of `s` whose key is not smaller, so
      that `m` precedes every element of `s` with an equal key. */
  function Insert<T>(key: T -> (int, int), m: T, s: seq<T>): seq<T> {
    if s == [] || !KeyLess(key(s[0]), key(m)) then [m] + s
    else [s[0]] + Insert(key, m, s[1..])
  }

  /** Stable insertion sort by `key`. */
  function Sort<T>(key: T -> (int, int), s: seq<T>): seq<T> {
    if s == [] then [] else Insert(key, s[0], Sort(key, s[1..]))
  }

  /** Inserting keeps every element and adds `m`, and keeps a sorted list
      sorted. */
  lemma {:induction false} InsertSorted<T>(key: T -> (int, int), m: T, s: seq<T>)
    requires Sorted(key, s)
    ensures multiset(Insert(key, m, s)) == multiset(s) + multiset{m}
    ensures Sorted(key, Insert(key, m, s))
  {
    if s == [] || !KeyLess(key(s[0]), key(m)) {
      PrependSorted(key, m, s);
    } else {
      InsertSorted(key, m, s[1..]);
      assert s == [s[0]] + s[1..];
      PassSorted(key, m, s, Insert(key, m, s[1..]));
    }
  }

  /** Putting `m` in front of a sorted `s` whose head key is not smaller
      keeps it sorted. */
  lemma PrependSorted<T>(key: T -> (int, int), m: T, s: seq<T>)
    requires Sorted(key, s)
    requires s == [] || !KeyLess(key(s[0]), key(m))
    ensures Sorted(key, [m] + s)
  {
    var r := [m] + s;
    forall i, j | 0 <= i < j < |r|
      ensures !KeyLess(key(r[j]), key(r[i]))
    {
      if i == 0 && j > 1 {
        assert r[j] == s[j - 1];
        assert !KeyLess(key(s[j - 1]), key(s[0]));
      }
    }
  }

  /** When `m` goes past the head of a sorted `s` (whose key is strictly
      smaller) into a sorted `rest`, the whole stays sorted. */
  lemma PassSorted<T>(key: T -> (int, int), m: T, s: seq<T>, rest: seq<T>)
    requires s != [] && KeyLess(key(s[0]), key(m))
    requires Sorted(key, s) && Sorted(key, rest)
    requires multiset(rest) == multiset(s[1..]) + multiset{m}
    ensures Sorted(key, [s[0]] + rest)
  {
    var r := [s[0]] + rest;
    forall j | 0 < j < |r|
      ensures !KeyLess(key(r[j]), key(s[0]))
    {
      assert r[j] == rest[j - 1];
      assert r[j] in multiset(rest);
      if r[j] != m {
        var k :| 0 <= k < |s[1..]| && s[1..][k] == r[j];
        assert s[k + 1] == r[j];
      }
    }
  }

  /** Inserting an element whose rank is below every rank in `s` keeps
      equal-key elements in increasing rank. */
  lemma {:induction false} InsertStable<T>(key: T -> (int, int), rank: T -> int, m: T, s: seq<T>)
    requires Sorted(key, s) && StableOrder(key, rank, s)
    requires forall e :: e in s ==> rank(m) < rank(e)
    ensures StableOrder(key, rank, Insert(key, m, s))
  {
    if s == [] || !KeyLess(key(s[0]), key(m)) {
      PrependStable(key, rank, m, s);
    } else {
      forall e | e in s[1..] ensures rank(m) < rank(e) {
        assert e in s;
      }
      InsertStable(key, rank, m, s[1..]);
      InsertSorted(key, m, s[1..]);
      PassStable(key, rank, m, s, Insert(key, m, s[1..]));
    }
  }

  /** Putting `m` in front of `s` keeps equal-key elements in increasing
      rank when `m` ranks below every element of `s`. */
  lemma PrependStable<T>(key: T -> (int, int), rank: T -> int, m: T, s: seq<T>)
    requires StableOrder(key, rank, s)
    requires forall e :: e in s ==> rank(m) < rank(e)
    ensures StableOrder(key, rank, [m] + s)
  {
    var r := [m] + s;
    forall i, j | 0 <= i < j < |r| && key(r[i]) == key(r[j])
      ensures rank(r[i]) < rank(r[j])
    {
      if i == 0 {
        assert r[j] == s[j - 1] && s[j - 1] in s;
      } else {
        assert r[i] == s[i - 1] && r[j] == s[j - 1];
      }
    }
  }

  /** When `m` goes past the head of `s` (whose key is strictly smaller)
      into `rest`, stability of `rest` carries over to the whole. */
  lemma PassStable<T>(key: T -> (int, int), rank: T -> int, m: T, s: seq<T>, rest: seq<T>)
    requires s != [] && KeyLess(key(s[0]), key(m))
    requires StableOrder(key, rank, s) && StableOrder(key, rank, rest)
    requires multiset(rest) == multiset(s[1..]) + multiset{m}
    ensures StableOrder(key, rank, [s[0]] + rest)
  {
    var r := [s[0]] + rest;
    forall i, j | 0 <= i < j < |r| && key(r[i]) == key(r[j])
      ensures rank(r[i]) < rank(r[j])
    {
      assert r[j] == rest[j - 1];
      if i == 0 {
        assert r[j] in multiset(rest);
        if r[j] == m {
          assert false;
        } else {
          var k :| 0 <= k < |s[1..]| && s[1..][k] == r[j];
          assert s[k + 1] == r[j];
        }
      } else {
        assert r[i] == rest[i - 1];
      }
    }
  }

  /** Sorting keeps every element exactly as often and yields a sorted list. */
  lemma {:induction false} SortSorted<T>(key: T -> (int, int), s: seq<T>)
    ensures multiset(Sort(key, s)) == multiset(s)
    ensures Sorted(key, Sort(key, s))
  {
    if s != [] {
      SortSorted(key, s[1..]);
      InsertSorted(key, s[0], Sort(key, s[1..]));
      assert s == [s[0]] + s[1..];
    }
  }

  /** The sort is stable: when `s` is in strictly increasing `rank`,
      elements with equal keys keep that order. */
  lemma {:induction false} SortStable<T>(key: T -> (int, int), rank: T -> int, s: seq<T>)
    requires forall i, j :: 0 <= i < j < |s| ==> rank(s[i]) < rank(s[j])
    ensures StableOrder(key, rank, Sort(key, s))
  {
    if s != [] {
      var rest := s[1..];
      SortStable(key, rank, rest);
      SortSorted(key, rest);
      forall e | e in Sort(key, rest) ensures rank(s[0]) < rank(e) {
        assert e in multiset(Sort(key, rest));
        var k :| 0 <= k < |rest| && rest[k] == e;
        assert s[k + 1] == e;
      }
      InsertStable(key, rank, s[0], Sort(key, rest));
    }
  }

  /** `sorted(moves, key=key)` for a sort key that depends on the board and
      the side to move (`sasha` passes `Key`): a permutation of `moves`,
      sorted by key. */
  function OrderMoves(key: (Board, int, Pos) -> (int, int), b: Board, turn: int, moves: seq<Pos>): (r: seq<Pos>)
    ensures multiset(r) == multiset(moves) && |r| == |moves|
    ensures forall m :: m in r <==> m in moves
    ensures Sorted(m => key(b, turn, m), r)
  {
    SortSorted(m => key(b, turn, m), moves);
    var r := Sort(m => key(b, turn, m), moves);
    assert |r| == |multiset(r)| == |multiset(moves)| == |moves|;
    assert forall m :: m in r <==> m in multiset(r);
    r
  }

  /** Python's `sorted` is stable: when `moves` is in strictly increasing
      row-major order (as `valid_moves` lists them), moves with equal keys
      keep that order. */
  lemma OrderMovesStable(key: (Board, int, Pos) -> (int, int), b: Board, turn: int, moves: seq<Pos>)
    requires forall i, j :: 0 <= i < j < |moves| ==> Index(moves[i]) < Index(moves[j])
    ensures StableOrder(m => key(b, turn, m), Index, OrderMoves(key, b, turn, moves))
  {
    SortStable(m => key(b, turn, m), Index, moves);
  }

  /** The class of a move, the first part of its key: 0 for a corner,
      1 for another border cell that is not bad, 2 for an interior cell
      that is not bad, 3 for a bad square. */
  lemma ClassOfMove(b: Board, turn: int, m: Pos)
    ensures Key(b, turn, m).0 == 0 <==> m in Corners
    ensures Key(b, turn, m).0 == 1 <==> m !in Corners && m !in BadSquares && OnBorder(m)
    ensures Key(b, turn, m).0 == 2 <==> m !in Corners && m !in BadSquares && !OnBorder(m)
    ensures Key(b, turn, m).0 == 3 <==> m in BadSquares
  {
    CellClasses();
  }

  /** The order `order_moves` produces: classes never decrease along the
      list, and within the border and interior classes the number of flipped
      discs never increases. */
  lemma OrderedClasses(b: Board, turn: int, moves: seq<Pos>, i: int, j: int)
    requires 0 <= i < j < |moves|
    ensures var r := OrderMoves(Key, b, turn, moves);
      Key(b, turn, r[i]).0 <= Key(b, turn, r[j]).0
      && (Key(b, turn, r[i]).0 == Key(b, turn, r[j]).0 && 1 <= Key(b, turn, r[i]).0 <= 2 ==>
            Gain(b, r[i], turn) >= Gain(b, r[j], turn))
  {
    var r := OrderMoves(Key, b, turn, moves);
    assert !KeyLess(Key(b, turn, r[j]), Key(b, turn, r[i]));
  }
}
