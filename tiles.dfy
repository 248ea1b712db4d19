/** Measures and shape predicates over one line of cells (a row or a column
    of the board), with the facts about single-cell updates that the proofs
    about moves and spawns are built from. A cell holds 0 when empty. */
module Tiles {

  /** The total of the cell values. */
  function Sum(s: seq<int>): int
  {
    if |s| == 0 then 0 else Sum(s[..|s| - 1]) + s[|s| - 1]
  }

  /** The number of cells holding x. */
  function Count(s: seq<int>, x: int): nat
  {
    if |s| == 0 then 0 else Count(s[..|s| - 1], x) + (if s[|s| - 1] == x then 1 else 0)
  }

  /** The sum of the indices of the occupied cells: every tile that moves
      toward index 0, and every tile that disappears into a merge, lowers it. */
  function Weight(s: seq<int>): nat
  {
    if |s| == 0 then 0
    else Weight(s[..|s| - 1]) + (if s[|s| - 1] != 0 then |s| - 1 else 0)
  }

  /** The line read from the other end. */
  function Rev(s: seq<int>): (r: seq<int>)
    ensures |r| == |s|
    ensures forall i :: 0 <= i < |s| ==> r[i] == s[|s| - 1 - i]
  {
    seq(|s|, i requires 0 <= i < |s| => s[|s| - 1 - i])
  }

  /** A tile value: a power of two that is at least 2. */
  predicate IsTile(x: int)
    decreases if x < 0 then 0 else x
  {
    x == 2 || (x > 2 && x % 2 == 0 && IsTile(x / 2))
  }

  /** Every cell is empty or holds a tile value. */
  predicate AllTiles(s: seq<int>)
  {
    forall i :: 0 <= i < |s| ==> s[i] == 0 || IsTile(s[i])
  }

  /** Among the first n cells, no occupied cell lies after an empty one. */
  predicate PackedUpTo(s: seq<int>, n: nat)
    requires n <= |s|
  {
    forall a, b :: 0 <= a < b < n && s[a] == 0 ==> s[b] == 0
  }

  /** Every occupied cell lies before every empty one (after a move toward index 0). */
  predicate PackedFront(s: seq<int>)
  {
    PackedUpTo(s, |s|)
  }

  /** Every empty cell lies before every occupied one (after a move toward the end). */
  predicate PackedBack(s: seq<int>)
  {
    forall a, b :: 0 <= a < b < |s| && s[b] == 0 ==> s[a] == 0
  }

  /** No two occupied cells hold the same value. */
  predicate DistinctTiles(s: seq<int>)
  {
    forall a, b :: 0 <= a < |s| && 0 <= b < |s| && a != b && s[a] != 0 ==> s[a] != s[b]
  }

  lemma {:induction false} SumUpdate(s: seq<int>, p: nat, x: int)
    requires p < |s|
    ensures Sum(s[p := x]) == Sum(s) - s[p] + x
    decreases |s|
  {
    var n := |s|;
    if p == n - 1 {
      assert s[p := x][..n - 1] == s[..n - 1];
    } else {
      assert s[p := x][..n - 1] == s[..n - 1][p := x];
      SumUpdate(s[..n - 1], p, x);
    }
  }

  lemma {:induction false} CountUpdate(s: seq<int>, p: nat, y: int, x: int)
    requires p < |s|
    ensures Count(s[p := y], x) == Count(s, x) - (if s[p] == x then 1 else 0) + (if y == x then 1 else 0)
    decreases |s|
  {
    var n := |s|;
    if p == n - 1 {
      assert s[p := y][..n - 1] == s[..n - 1];
    } else {
      assert s[p := y][..n - 1] == s[..n - 1][p := y];
      CountUpdate(s[..n - 1], p, y, x);
    }
  }

  lemma {:induction false} WeightUpdate(s: seq<int>, p: nat, x: int)
    requires p < |s|
    ensures Weight(s[p := x]) == Weight(s) - (if s[p] != 0 then p else 0) + (if x != 0 then p else 0)
    decreases |s|
  {
    var n := |s|;
    if p == n - 1 {
      assert s[p := x][..n - 1] == s[..n - 1];
    } else {
      assert s[p := x][..n - 1] == s[..n - 1][p := x];
      WeightUpdate(s[..n - 1], p, x);
    }
  }

  /** A value that occurs in the line is counted. */
  lemma {:induction false} CountPositive(s: seq<int>, p: nat)
    requires p < |s|
    ensures Count(s, s[p]) > 0
    decreases |s|
  {
    if p < |s| - 1 {
      assert s[..|s| - 1][p] == s[p];
      CountPositive(s[..|s| - 1], p);
    }
  }

  /** Counting on a prefix one cell longer adds that cell. */
  lemma CountPrefix(s: seq<int>, p: nat, x: int)
    requires p < |s|
    ensures Count(s[..p + 1], x) == Count(s[..p], x) + (if s[p] == x then 1 else 0)
  {
    assert s[..p + 1][..p] == s[..p];
  }

  /** Counting on a longer prefix never gives less. */
  lemma {:induction false} CountPrefixMonotone(s: seq<int>, a: nat, b: nat, x: int)
    requires a <= b <= |s|
    ensures Count(s[..a], x) <= Count(s[..b], x)
    decreases b - a
  {
    if a < b {
      CountPrefix(s, b - 1, x);
      CountPrefixMonotone(s, a, b - 1, x);
    }
  }

  lemma {:induction false} SumConcat(a: seq<int>, b: seq<int>)
    ensures Sum(a + b) == Sum(a) + Sum(b)
    decreases |b|
  {
    if |b| > 0 {
      assert (a + b)[..|a + b| - 1] == a + b[..|b| - 1];
      assert (a + b)[|a + b| - 1] == b[|b| - 1];
      SumConcat(a, b[..|b| - 1]);
    } else {
      assert a + b == a;
    }
  }

  lemma {:induction false} CountConcat(a: seq<int>, b: seq<int>, x: int)
    ensures Count(a + b, x) == Count(a, x) + Count(b, x)
    decreases |b|
  {
    if |b| > 0 {
      assert (a + b)[..|a + b| - 1] == a + b[..|b| - 1];
      assert (a + b)[|a + b| - 1] == b[|b| - 1];
      CountConcat(a, b[..|b| - 1], x);
    } else {
      assert a + b == a;
    }
  }

  /** The sum taken from the front: the first cell plus the rest. */
  lemma {:induction false} SumCons(s: seq<int>)
    requires |s| > 0
    ensures Sum(s) == s[0] + Sum(s[1..])
    decreases |s|
  {
    var n := |s|;
    if n == 1 {
      assert s[..0] == [] && s[1..] == [];
    } else {
      assert s[..n - 1][1..] == s[1..][..n - 2];
      SumCons(s[..n - 1]);
    }
  }

  lemma {:induction false} CountCons(s: seq<int>, x: int)
    requires |s| > 0
    ensures Count(s, x) == (if s[0] == x then 1 else 0) + Count(s[1..], x)
    decreases |s|
  {
    var n := |s|;
    if n == 1 {
      assert s[..0] == [] && s[1..] == [];
    } else {
      assert s[..n - 1][1..] == s[1..][..n - 2];
      CountCons(s[..n - 1], x);
    }
  }

  lemma RevRev(s: seq<int>)
    ensures Rev(Rev(s)) == s
  {
  }

  lemma RevUpdate(s: seq<int>, p: nat, x: int)
    requires p < |s|
    ensures Rev(s[p := x]) == Rev(s)[|s| - 1 - p := x]
  {
  }

  /** Rev of a line without its first cell is Rev of the line without its last one. */
  lemma RevTail(s: seq<int>)
    requires |s| > 0
    ensures Rev(s)[..|s| - 1] == Rev(s[1..])
    ensures Rev(s)[|s| - 1] == s[0]
  {
  }

  lemma {:induction false} SumRev(s: seq<int>)
    ensures Sum(Rev(s)) == Sum(s)
    decreases |s|
  {
    if |s| > 0 {
      RevTail(s);
      SumRev(s[1..]);
      SumCons(s);
    }
  }

  lemma {:induction false} CountRev(s: seq<int>, x: int)
    ensures Count(Rev(s), x) == Count(s, x)
    decreases |s|
  {
    if |s| > 0 {
      RevTail(s);
      CountRev(s[1..], x);
      CountCons(s, x);
    }
  }

  /** Packing toward the end is packing toward the front, read in reverse. */
  lemma PackedBackRev(s: seq<int>)
    ensures PackedBack(Rev(s)) <==> PackedFront(s)
  {
    var r, n := Rev(s), |s|;
    if PackedFront(s) {
      forall a, b | 0 <= a < b < n && r[b] == 0 ensures r[a] == 0 {
        assert s[n - 1 - b] == 0;
      }
    }
    if PackedBack(r) {
      forall a, b | 0 <= a < b < n && s[a] == 0 ensures s[b] == 0 {
        assert r[n - 1 - a] == 0 && r[n - 1 - b] == s[b];
      }
    }
  }

  lemma DistinctTilesRev(s: seq<int>)
    ensures DistinctTiles(Rev(s)) <==> DistinctTiles(s)
  {
    var r, n := Rev(s), |s|;
    if DistinctTiles(s) {
      forall a, b | 0 <= a < n && 0 <= b < n && a != b && r[a] != 0 ensures r[a] != r[b] {
        assert s[n - 1 - a] != s[n - 1 - b];
      }
    }
    if DistinctTiles(r) {
      forall a, b | 0 <= a < n && 0 <= b < n && a != b && s[a] != 0 ensures s[a] != s[b] {
        assert r[n - 1 - a] != r[n - 1 - b];
      }
    }
  }

  lemma AllTilesRev(s: seq<int>)
    ensures AllTiles(Rev(s)) <==> AllTiles(s)
  {
    var r, n := Rev(s), |s|;
    if AllTiles(s) {
      forall i | 0 <= i < n ensures r[i] == 0 || IsTile(r[i]) {
        assert r[i] == s[n - 1 - i];
      }
    }
    if AllTiles(r) {
      forall i | 0 <= i < n ensures s[i] == 0 || IsTile(s[i]) {
        assert s[i] == r[n - 1 - i];
      }
    }
  }

  /** Doubling a tile value gives a tile value: the only arithmetic of a merge. */
  lemma DoubleTile(x: int)
    requires IsTile(x)
    ensures IsTile(2 * x)
  {
    assert (2 * x) / 2 == x;
  }
}
