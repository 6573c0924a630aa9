/** Small shared vocabulary: optional values and the "first best" pick that
    every bot uses to turn a list of scored candidates into one choice. */
module Common {

  /** The source's `Optional[...]`: `None` or a present value. */
  datatype Option<+T> = None | Some(value: T)

  /** The greater of two integers. */
  function Max(a: int, b: int): int { if a >= b then a else b }

  /** The lesser of two integers. */
  function Min(a: int, b: int): int { if a <= b then a else b }

  /** Continues a left-to-right scan of `vals` from position `k`, where
      `best` is the index kept so far. A later value replaces `best` only when
      it is strictly greater, which is how the source's loops
      (`if val > best_val`) and Python's `max` break ties: the first maximum wins. */
  function FirstMaxFrom(vals: seq<int>, k: nat, best: nat): (i: nat)
    requires best < k <= |vals|
    requires forall j :: 0 <= j < k ==> vals[j] <= vals[best]
    requires forall j :: 0 <= j < best ==> vals[j] < vals[best]
    ensures i < |vals|
    ensures forall j :: 0 <= j < |vals| ==> vals[j] <= vals[i]
    ensures forall j :: 0 <= j < i ==> vals[j] < vals[i]
    decreases |vals| - k
  {
    if k == |vals| then best
    else if vals[k] > vals[best] then FirstMaxFrom(vals, k + 1, k)
    else FirstMaxFrom(vals, k + 1, best)
  }

  /** The index of the first maximum of a non-empty sequence. */
  function FirstMax(vals: seq<int>): (i: nat)
    requires |vals| > 0
    ensures i < |vals|
    ensures forall j :: 0 <= j < |vals| ==> vals[j] <= vals[i]
    ensures forall j :: 0 <= j < i ==> vals[j] < vals[i]
  {
    FirstMaxFrom(vals, 1, 0)
  }

  /** Negates every value; the first minimum of `vals` is the first maximum of
      its negation. */
  function Negated(vals: seq<int>): (r: seq<int>)
    ensures |r| == |vals|
    ensures forall j :: 0 <= j < |vals| ==> r[j] == -vals[j]
  {
    seq(|vals|, j requires 0 <= j < |vals| => -vals[j])
  }

  /** The index of the first minimum of a non-empty sequence (the source's
      `if opp_moves < min_opponent` loop: a strictly smaller value is needed
      to replace the kept one). */
  function FirstMin(vals: seq<int>): (i: nat)
    requires |vals| > 0
    ensures i < |vals|
    ensures forall j :: 0 <= j < |vals| ==> vals[i] <= vals[j]
    ensures forall j :: 0 <= j < i ==> vals[i] < vals[j]
  {
    FirstMax(Negated(vals))
  }

  /** Two sequences listed in strictly increasing `rank` that hold the same
      elements are equal: such a listing is determined by its members. */
  lemma {:induction false} SameMembersOrdered<T>(a: seq<T>, c: seq<T>, rank: T -> int)
    requires forall i, j :: 0 <= i < j < |a| ==> rank(a[i]) < rank(a[j])
    requires forall i, j :: 0 <= i < j < |c| ==> rank(c[i]) < rank(c[j])
    requires forall x :: x in a <==> x in c
    ensures a == c
  {
    if |a| > 0 {
      assert a[0] in c;
    }
    if |c| > 0 {
      assert c[0] in a;
    }
    if |a| > 0 && |c| > 0 {
      var i :| 0 <= i < |c| && c[i] == a[0];
      var j :| 0 <= j < |a| && a[j] == c[0];
      assert i == 0;
      forall x ensures x in a[1..] <==> x in c[1..] {
        if x in a[1..] {
          var k :| 1 <= k < |a| && a[k] == x;
          assert x in a && rank(a[0]) < rank(x);
          var m :| 0 <= m < |c| && c[m] == x;
          assert m != 0;
          assert c[1..][m - 1] == x;
        }
        if x in c[1..] {
          var k :| 1 <= k < |c| && c[k] == x;
          assert x in c && rank(c[0]) < rank(x);
          var m :| 0 <= m < |a| && a[m] == x;
          assert m != 0;
          assert a[1..][m - 1] == x;
        }
      }
      SameMembersOrdered(a[1..], c[1..], rank);
      assert a == [a[0]] + a[1..];
      assert c == [c[0]] + c[1..];
    }
  }
}
