/** The slide-and-merge walk that game.py runs over one line of the board.
    "Front" is the move toward index 0 (left on a row, up on a column,
    game.py:91-111 and 135-155); "Back" is the move toward the last index
    (right on a row, down on a column, game.py:113-133 and 157-177). Each
    function mirrors one loop of the source literally, including its two
    quirks: the walk steps over a tile of a different value and keeps looking,
    and a tile that already merged can merge again. */
module Line {
  import opened Tiles

  /** Where the inner walk leaves the moving tile (the source's `new`) and
      whether the tile doubled on the way. */
  datatype Walk = Walk(target: nat, merged: bool)

  // ----- toward index 0 -----

  /** The inner walk of a front move for the tile at j: the cells k-1, k-2,
      ..., 0 are still to be examined and `target` is the cell chosen so far.
      An empty cell becomes the target and the walk goes on; an equal value
      ends it with a merge; any other value is stepped over. */
  function ScanFront(t: seq<int>, j: nat, k: nat, target: nat): (w: Walk)
    requires j < |t| && k <= j && target <= j
    ensures w.target <= j
    ensures w.merged ==> w.target < k
    decreases k
  {
    if k == 0 then Walk(target, false)
    else if t[k - 1] == 0 then ScanFront(t, j, k - 1, k - 1)
    else if t[j] == t[k - 1] then Walk(k - 1, true)
    else ScanFront(t, j, k - 1, target)
  }

  /** The write that ends a pass on cell j: when the walk's target differs
      from j, the value of cell j (doubled if the walk merged) goes to the
      target and cell j is cleared; otherwise nothing is written. */
  function Settle(t: seq<int>, j: nat, w: Walk): (u: seq<int>)
    requires j < |t| && w.target < |t|
    ensures |u| == |t|
  {
    var v := if w.merged then 2 * t[j] else t[j];
    if w.target != j then t[w.target := v][j := 0] else t
  }

  /** One pass of the middle loop of a front move, on cell j: an empty cell
      is skipped; otherwise the walk runs and its result is written. */
  function StepFront(t: seq<int>, j: nat): (u: seq<int>)
    requires j < |t|
    ensures |u| == |t|
    ensures forall p :: j < p < |t| ==> u[p] == t[p]
  {
    if t[j] == 0 then t else Settle(t, j, ScanFront(t, j, j, j))
  }

  /** Whether the pass on cell j writes anything (sets the source's `changed`). */
  predicate StepMovesFront(t: seq<int>, j: nat)
    requires j < |t|
  {
    t[j] != 0 && ScanFront(t, j, j, j).target != j
  }

  /** The line after the passes on cells 0, 1, ..., j-1. */
  function ProcessedFront(s: seq<int>, j: nat): (r: seq<int>)
    requires j <= |s|
    ensures |r| == |s|
    ensures forall p :: j <= p < |s| ==> r[p] == s[p]
  {
    if j == 0 then s else StepFront(ProcessedFront(s, j - 1), j - 1)
  }

  /** Whether any of the passes on cells 0, ..., j-1 wrote something. */
  predicate MovedFront(s: seq<int>, j: nat)
    requires j <= |s|
  {
    j > 0 && (MovedFront(s, j - 1) || StepMovesFront(ProcessedFront(s, j - 1), j - 1))
  }

  /** The whole front move of one line. */
  function SlideFront(s: seq<int>): (r: seq<int>)
    ensures |r| == |s|
  {
    ProcessedFront(s, |s|)
  }

  // ----- toward the last index -----

  /** The inner walk of a back move for the tile at j: the cells k, k+1, ...,
      |t|-1 are still to be examined. */
  function ScanBack(t: seq<int>, j: nat, k: nat, target: nat): (w: Walk)
    requires j < k <= |t| && j <= target < |t|
    ensures j <= w.target < |t|
    ensures w.merged ==> k <= w.target
    decreases |t| - k
  {
    if k == |t| then Walk(target, false)
    else if t[k] == 0 then ScanBack(t, j, k + 1, k)
    else if t[j] == t[k] then Walk(k, true)
    else ScanBack(t, j, k + 1, target)
  }

  /** One pass of the middle loop of a back move, on cell j. */
  function StepBack(t: seq<int>, j: nat): (u: seq<int>)
    requires j < |t|
    ensures |u| == |t|
    ensures forall p :: 0 <= p < j ==> u[p] == t[p]
  {
    if t[j] == 0 then t else Settle(t, j, ScanBack(t, j, j + 1, j))
  }

  predicate StepMovesBack(t: seq<int>, j: nat)
    requires j < |t|
  {
    t[j] != 0 && ScanBack(t, j, j + 1, j).target != j
  }

  /** The line after the passes on cells |s|-1, |s|-2, ..., j. */
  function ProcessedBack(s: seq<int>, j: nat): (r: seq<int>)
    requires j <= |s|
    ensures |r| == |s|
    ensures forall p :: 0 <= p < j ==> r[p] == s[p]
    decreases |s| - j
  {
    if j == |s| then s else StepBack(ProcessedBack(s, j + 1), j)
  }

  /** Whether any of the passes on cells |s|-1, ..., j wrote something. */
  predicate MovedBack(s: seq<int>, j: nat)
    requires j <= |s|
    decreases |s| - j
  {
    j < |s| && (MovedBack(s, j + 1) || StepMovesBack(ProcessedBack(s, j + 1), j))
  }

  /** The whole back move of one line. */
  function SlideBack(s: seq<int>): (r: seq<int>)
    ensures |r| == |s|
  {
    ProcessedBack(s, 0)
  }

  // ----- what the front walk finds -----

  lemma {:induction false} ScanFrontSpec(t: seq<int>, j: nat, k: nat, target: nat)
    requires j < |t| && k <= target <= j && t[j] != 0
    requires target == j || t[target] == 0
    requires forall p :: k <= p < j ==> t[p] != t[j]
    requires forall p :: k <= p < target ==> t[p] != 0
    ensures var w := ScanFront(t, j, k, target);
      && (w.merged <==> exists q :: 0 <= q < k && t[q] == t[j])
      && (w.merged ==> t[w.target] == t[j] && forall p :: w.target < p < j ==> t[p] != t[j])
      && (!w.merged ==> (w.target == j || t[w.target] == 0) && forall p :: 0 <= p < w.target ==> t[p] != 0)
    decreases k
  {
    if k > 0 {
      if t[k - 1] == 0 {
        ScanFrontSpec(t, j, k - 1, k - 1);
      } else if t[j] != t[k - 1] {
        ScanFrontSpec(t, j, k - 1, target);
      }
    }
  }

  /** The walk of the tile at j merges exactly when some earlier cell, however
      far and whatever lies between, holds the same value; it then merges with
      the nearest such cell. Otherwise it ends on the first empty cell of the
      line, or stays put when every earlier cell is occupied. */
  lemma WalkFront(t: seq<int>, j: nat)
    requires j < |t| && t[j] != 0
    ensures var w := ScanFront(t, j, j, j);
      && (w.merged <==> exists q :: 0 <= q < j && t[q] == t[j])
      && (w.merged ==> w.target < j && t[w.target] == t[j] && forall p :: w.target < p < j ==> t[p] != t[j])
      && (!w.merged ==> (w.target == j || t[w.target] == 0) && forall p :: 0 <= p < w.target ==> t[p] != 0)
  {
    ScanFrontSpec(t, j, j, j);
  }

  // ----- one pass -----

  lemma StepFrontSum(t: seq<int>, j: nat)
    requires j < |t|
    ensures Sum(StepFront(t, j)) == Sum(t)
  {
    if t[j] != 0 {
      WalkFront(t, j);
      var w := ScanFront(t, j, j, j);
      var v := if w.merged then 2 * t[j] else t[j];
      if w.target != j {
        SumUpdate(t, w.target, v);
        SumUpdate(t[w.target := v], j, 0);
      }
    }
  }

  lemma StepFrontZeros(t: seq<int>, j: nat)
    requires j < |t|
    ensures Count(StepFront(t, j), 0) >= Count(t, 0)
    ensures StepMovesFront(t, j) ==> Count(StepFront(t, j), 0) > 0
  {
    if t[j] != 0 {
      WalkFront(t, j);
      var w := ScanFront(t, j, j, j);
      var v := if w.merged then 2 * t[j] else t[j];
      if w.target != j {
        CountUpdate(t, w.target, v, 0);
        CountUpdate(t[w.target := v], j, 0, 0);
        if !w.merged {
          CountPositive(t, w.target);
        }
      }
    }
  }

  lemma StepFrontTiles(t: seq<int>, j: nat)
    requires j < |t| && AllTiles(t)
    ensures AllTiles(StepFront(t, j))
  {
    if t[j] != 0 {
      var w := ScanFront(t, j, j, j);
      if w.merged {
        DoubleTile(t[j]);
      }
    }
  }

  lemma StepFrontWeight(t: seq<int>, j: nat)
    requires j < |t|
    ensures StepMovesFront(t, j) ==> Weight(StepFront(t, j)) < Weight(t)
    ensures !StepMovesFront(t, j) ==> StepFront(t, j) == t
  {
    if t[j] != 0 {
      WalkFront(t, j);
      var w := ScanFront(t, j, j, j);
      var v := if w.merged then 2 * t[j] else t[j];
      if w.target != j {
        WeightUpdate(t, w.target, v);
        WeightUpdate(t[w.target := v], j, 0);
      }
    }
  }

  /** A pass on cell j of a line whose first j cells are packed leaves its
      first j+1 cells packed. */
  lemma StepFrontPacks(t: seq<int>, j: nat)
    requires j < |t| && PackedUpTo(t, j)
    ensures PackedUpTo(StepFront(t, j), j + 1)
  {
    if t[j] != 0 {
      WalkFront(t, j);
    }
  }

  // ----- the whole front move -----

  lemma {:induction false} ProcessedFrontSum(s: seq<int>, j: nat)
    requires j <= |s|
    ensures Sum(ProcessedFront(s, j)) == Sum(s)
  {
    if j > 0 {
      ProcessedFrontSum(s, j - 1);
      StepFrontSum(ProcessedFront(s, j - 1), j - 1);
    }
  }

  /** A front move keeps the total of the line: a merge writes the doubled
      value over its equal partner and clears the source cell. */
  lemma SlideFrontSum(s: seq<int>)
    ensures Sum(SlideFront(s)) == Sum(s)
  {
    ProcessedFrontSum(s, |s|);
  }

  lemma {:induction false} ProcessedFrontZeros(s: seq<int>, j: nat)
    requires j <= |s|
    ensures Count(ProcessedFront(s, j), 0) >= Count(s, 0)
    ensures MovedFront(s, j) ==> Count(ProcessedFront(s, j), 0) > 0
  {
    if j > 0 {
      ProcessedFrontZeros(s, j - 1);
      StepFrontZeros(ProcessedFront(s, j - 1), j - 1);
    }
  }

  /** A front move never fills a cell on balance: the number of empty cells
      does not drop, so the number of tiles does not grow. */
  lemma SlideFrontZeros(s: seq<int>)
    ensures Count(SlideFront(s), 0) >= Count(s, 0)
  {
    ProcessedFrontZeros(s, |s|);
  }

  /** A front move that writes anything leaves at least one empty cell. */
  lemma SlideFrontMovedLeavesEmpty(s: seq<int>)
    requires MovedFront(s, |s|)
    ensures Count(SlideFront(s), 0) > 0
  {
    ProcessedFrontZeros(s, |s|);
  }

  lemma {:induction false} ProcessedFrontTiles(s: seq<int>, j: nat)
    requires j <= |s| && AllTiles(s)
    ensures AllTiles(ProcessedFront(s, j))
  {
    if j > 0 {
      ProcessedFrontTiles(s, j - 1);
      StepFrontTiles(ProcessedFront(s, j - 1), j - 1);
    }
  }

  /** Every occupied cell still holds a power of two after a front move. */
  lemma SlideFrontTiles(s: seq<int>)
    requires AllTiles(s)
    ensures AllTiles(SlideFront(s))
  {
    ProcessedFrontTiles(s, |s|);
  }

  lemma {:induction false} ProcessedFrontPacked(s: seq<int>, j: nat)
    requires j <= |s|
    ensures PackedUpTo(ProcessedFront(s, j), j)
  {
    if j > 0 {
      ProcessedFrontPacked(s, j - 1);
      StepFrontPacks(ProcessedFront(s, j - 1), j - 1);
    }
  }

  /** After a front move no tile lies after an empty cell: cells nearer the
      destination are processed first. */
  lemma SlideFrontPacked(s: seq<int>)
    ensures PackedFront(SlideFront(s))
  {
    ProcessedFrontPacked(s, |s|);
  }

  lemma {:induction false} ProcessedFrontWeight(s: seq<int>, j: nat)
    requires j <= |s|
    ensures Weight(ProcessedFront(s, j)) <= Weight(s)
    ensures MovedFront(s, j) ==> Weight(ProcessedFront(s, j)) < Weight(s)
    ensures !MovedFront(s, j) ==> ProcessedFront(s, j) == s
  {
    if j > 0 {
      ProcessedFrontWeight(s, j - 1);
      StepFrontWeight(ProcessedFront(s, j - 1), j - 1);
    }
  }

  /** The source's `changed` flag is true exactly when the line changed. */
  lemma SlideFrontMovedIff(s: seq<int>)
    ensures MovedFront(s, |s|) <==> SlideFront(s) != s
  {
    ProcessedFrontWeight(s, |s|);
  }

  lemma {:induction false} NotMovedFront(s: seq<int>, j: nat)
    requires j <= |s| && !MovedFront(s, j)
    ensures ProcessedFront(s, j) == s
    ensures forall i :: 0 <= i < j ==> !StepMovesFront(s, i)
  {
    if j > 0 {
      NotMovedFront(s, j - 1);
    }
  }

  lemma {:induction false} StillFront(s: seq<int>, j: nat)
    requires j <= |s| && PackedFront(s) && DistinctTiles(s)
    ensures ProcessedFront(s, j) == s
  {
    if j > 0 {
      StillFront(s, j - 1);
      if s[j - 1] != 0 {
        WalkFront(s, j - 1);
      }
    }
  }

  /** A front move leaves a line unchanged exactly when it is already packed
      toward index 0 and no two of its tiles are equal. Because the walk steps
      over different values, equal tiles anywhere in the line merge, not
      only neighbours. */
  lemma SlideFrontFixpoint(s: seq<int>)
    ensures SlideFront(s) == s <==> PackedFront(s) && DistinctTiles(s)
  {
    if PackedFront(s) && DistinctTiles(s) {
      StillFront(s, |s|);
    }
    if SlideFront(s) == s {
      SlideFrontPacked(s);
      SlideFrontMovedIff(s);
      NotMovedFront(s, |s|);
      forall a, b | 0 <= a < |s| && 0 <= b < |s| && a != b && s[a] != 0 ensures s[a] != s[b] {
        var lo, hi := if a < b then a else b, if a < b then b else a;
        if s[hi] != 0 {
          WalkFront(s, hi);
          assert !StepMovesFront(s, hi);
          assert s[lo] != s[hi];
        }
      }
    }
  }

  // ----- repeating a move -----

  /** With pairwise different tiles no walk merges: the pass only moves the
      tile at j into an empty cell, so the tiles stay pairwise different. */
  lemma StepFrontDistinct(t: seq<int>, j: nat)
    requires j < |t| && DistinctTiles(t)
    ensures DistinctTiles(StepFront(t, j))
  {
    if t[j] != 0 {
      var w := ScanFront(t, j, j, j);
      WalkFront(t, j);
      assert !w.merged;
      if w.target != j {
        var u := StepFront(t, j);
        assert u == t[w.target := t[j]][j := 0];
        // u is t with the cells j and w.target swapped
        forall a, b | 0 <= a < |u| && 0 <= b < |u| && a != b && u[a] != 0 ensures u[a] != u[b] {
          var a' := if a == j then w.target else if a == w.target then j else a;
          var b' := if b == j then w.target else if b == w.target then j else b;
          assert u[a] == t[a'] && u[b] == t[b'];
        }
      }
    }
  }

  lemma {:induction false} ProcessedFrontDistinct(s: seq<int>, j: nat)
    requires j <= |s| && DistinctTiles(s)
    ensures DistinctTiles(ProcessedFront(s, j))
  {
    if j > 0 {
      ProcessedFrontDistinct(s, j - 1);
      StepFrontDistinct(ProcessedFront(s, j - 1), j - 1);
    }
  }

  /** A front move of a line whose tiles are pairwise different keeps them
      pairwise different: nothing merges. */
  lemma SlideFrontKeepsDistinct(s: seq<int>)
    requires DistinctTiles(s)
    ensures DistinctTiles(SlideFront(s))
  {
    ProcessedFrontDistinct(s, |s|);
  }

  /** On a line where no merge is possible, a second front move changes
      nothing and its `changed` flag is false. */
  lemma SlideFrontTwice(s: seq<int>)
    requires DistinctTiles(s)
    ensures SlideFront(SlideFront(s)) == SlideFront(s)
    ensures !MovedFront(SlideFront(s), |s|)
  {
    SlideFrontKeepsDistinct(s);
    SlideFrontPacked(s);
    SlideFrontFixpoint(SlideFront(s));
    SlideFrontMovedIff(SlideFront(s));
  }

  /** With a repeated tile a second move can change the line again: the 4s
      that the hop-over brings together merge on the next press. */
  lemma ExampleTwiceMerges()
    ensures SlideFront([2, 4, 2, 0]) == [4, 4, 0, 0]
    ensures SlideFront(SlideFront([2, 4, 2, 0])) == [8, 0, 0, 0]
  {
  }

  // ----- the line results that follow from the loop -----

  lemma ExampleFourTwos()
    ensures SlideFront([2, 2, 2, 2]) == [4, 4, 0, 0]
  {
  }

  lemma ExampleThreeTwos()
    ensures SlideFront([2, 2, 2, 0]) == [4, 2, 0, 0]
  {
  }

  lemma ExampleFourTwoTwo()
    ensures SlideFront([4, 2, 2, 0]) == [4, 4, 0, 0]
  {
  }

  lemma ExampleNothingMoves()
    ensures SlideFront([2, 4, 0, 0]) == [2, 4, 0, 0]
    ensures !MovedFront([2, 4, 0, 0], 4)
  {
  }

  /** A tile that merged once can merge again within the same move. */
  lemma ExampleMergeTwice()
    ensures SlideFront([2, 2, 4, 0]) == [8, 0, 0, 0]
  {
  }

  /** A tile hops over a different value to merge with an equal one. */
  lemma ExampleHop()
    ensures SlideFront([2, 4, 2, 0]) == [4, 4, 0, 0]
  {
  }
}
