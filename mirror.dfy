/** The back move (right on a row, down on a column) is its own loop in
    game.py, but it is the front move read from the other end. This module
    proves that correspondence pass by pass and carries every property of the
    front move over to the back move. */
module Mirror {
  import opened Tiles
  import opened Line

  function MirrorWalk(n: nat, w: Walk): Walk
    requires w.target < n
  {
    Walk(n - 1 - w.target, w.merged)
  }

  /** The back walk over the reversed line is the front walk, mirrored. */
  lemma {:induction false} ScanMirror(u: seq<int>, j: nat, k: nat, target: nat)
    requires j < k <= |u| && j <= target < |u|
    ensures ScanBack(Rev(u), j, k, target)
         == MirrorWalk(|u|, ScanFront(u, |u| - 1 - j, |u| - k, |u| - 1 - target))
    decreases |u| - k
  {
    var n, t := |u|, Rev(u);
    if k < n {
      assert t[k] == u[n - k - 1] && t[j] == u[n - 1 - j];
      if t[k] == 0 {
        ScanMirror(u, j, k + 1, k);
      } else if t[j] != t[k] {
        ScanMirror(u, j, k + 1, target);
      }
    }
  }

  /** The write that ends a pass, seen from the other end. */
  lemma SettleMirror(u: seq<int>, j: nat, w: Walk)
    requires j < |u| && w.target < |u|
    ensures Settle(Rev(u), j, MirrorWalk(|u|, w)) == Rev(Settle(u, |u| - 1 - j, w))
  {
    var j' := |u| - 1 - j;
    assert Rev(u)[j] == u[j'];
    if w.target != j' {
      var v := if w.merged then 2 * u[j'] else u[j'];
      RevUpdate(u, w.target, v);
      RevUpdate(u[w.target := v], j', 0);
    }
  }

  lemma StepMirror(u: seq<int>, j: nat)
    requires j < |u|
    ensures StepBack(Rev(u), j) == Rev(StepFront(u, |u| - 1 - j))
    ensures StepMovesBack(Rev(u), j) == StepMovesFront(u, |u| - 1 - j)
  {
    var t, j' := Rev(u), |u| - 1 - j;
    assert t[j] == u[j'];
    if t[j] != 0 {
      ScanMirror(u, j, j + 1, j);
      SettleMirror(u, j, ScanFront(u, j', j', j'));
    }
  }

  lemma {:induction false} ProcessedMirror(u: seq<int>, j: nat)
    requires j <= |u|
    ensures ProcessedBack(Rev(u), j) == Rev(ProcessedFront(u, |u| - j))
    decreases |u| - j
  {
    if j < |u| {
      var prev := ProcessedFront(u, |u| - j - 1);
      ProcessedMirror(u, j + 1);
      StepMirror(prev, j);
    }
  }

  lemma {:induction false} MovedMirror(u: seq<int>, j: nat)
    requires j <= |u|
    ensures MovedBack(Rev(u), j) == MovedFront(u, |u| - j)
    decreases |u| - j
  {
    if j < |u| {
      var prev := ProcessedFront(u, |u| - j - 1);
      MovedMirror(u, j + 1);
      ProcessedMirror(u, j + 1);
      StepMirror(prev, j);
    }
  }

  /** A back move is the front move of the reversed line, reversed, and it
      reports a change exactly when that front move does. */
  lemma SlideBackMirror(s: seq<int>)
    ensures SlideBack(s) == Rev(SlideFront(Rev(s)))
    ensures MovedBack(s, 0) == MovedFront(Rev(s), |s|)
  {
    ProcessedMirror(Rev(s), 0);
    MovedMirror(Rev(s), 0);
    RevRev(s);
  }

  /** A back move keeps the total of the line. */
  lemma SlideBackSum(s: seq<int>)
    ensures Sum(SlideBack(s)) == Sum(s)
  {
    SlideBackMirror(s);
    SumRev(SlideFront(Rev(s)));
    SlideFrontSum(Rev(s));
    SumRev(s);
  }

  /** A back move never lowers the number of empty cells. */
  lemma SlideBackZeros(s: seq<int>)
    ensures Count(SlideBack(s), 0) >= Count(s, 0)
  {
    SlideBackMirror(s);
    CountRev(SlideFront(Rev(s)), 0);
    SlideFrontZeros(Rev(s));
    CountRev(s, 0);
  }

  /** A back move that writes anything leaves at least one empty cell. */
  lemma SlideBackMovedLeavesEmpty(s: seq<int>)
    requires MovedBack(s, 0)
    ensures Count(SlideBack(s), 0) > 0
  {
    SlideBackMirror(s);
    CountRev(SlideFront(Rev(s)), 0);
    SlideFrontMovedLeavesEmpty(Rev(s));
  }

  /** Every occupied cell still holds a power of two after a back move. */
  lemma SlideBackTiles(s: seq<int>)
    requires AllTiles(s)
    ensures AllTiles(SlideBack(s))
  {
    SlideBackMirror(s);
    AllTilesRev(s);
    SlideFrontTiles(Rev(s));
    AllTilesRev(SlideFront(Rev(s)));
  }

  /** After a back move no empty cell lies after a tile. */
  lemma SlideBackPacked(s: seq<int>)
    ensures PackedBack(SlideBack(s))
  {
    SlideBackMirror(s);
    SlideFrontPacked(Rev(s));
    PackedBackRev(SlideFront(Rev(s)));
  }

  /** The source's `changed` flag of a back move is true exactly when the
      line changed. */
  lemma SlideBackMovedIff(s: seq<int>)
    ensures MovedBack(s, 0) <==> SlideBack(s) != s
  {
    SlideBackMirror(s);
    SlideFrontMovedIff(Rev(s));
    RevRev(s);
    RevRev(SlideFront(Rev(s)));
  }

  /** A back move leaves a line unchanged exactly when it is already packed
      toward the end and no two of its tiles are equal. */
  lemma SlideBackFixpoint(s: seq<int>)
    ensures SlideBack(s) == s <==> PackedBack(s) && DistinctTiles(s)
  {
    SlideBackMirror(s);
    SlideFrontFixpoint(Rev(s));
    RevRev(s);
    RevRev(SlideFront(Rev(s)));
    PackedBackRev(Rev(s));
    DistinctTilesRev(s);
  }

  /** A back move of a line whose tiles are pairwise different keeps them
      pairwise different. */
  lemma SlideBackKeepsDistinct(s: seq<int>)
    requires DistinctTiles(s)
    ensures DistinctTiles(SlideBack(s))
  {
    SlideBackMirror(s);
    DistinctTilesRev(s);
    SlideFrontKeepsDistinct(Rev(s));
    DistinctTilesRev(SlideFront(Rev(s)));
  }

  /** On a line where no merge is possible, a second back move changes
      nothing and its `changed` flag is false. */
  lemma SlideBackTwice(s: seq<int>)
    requires DistinctTiles(s)
    ensures SlideBack(SlideBack(s)) == SlideBack(s)
    ensures !MovedBack(SlideBack(s), 0)
  {
    SlideBackKeepsDistinct(s);
    SlideBackPacked(s);
    SlideBackFixpoint(SlideBack(s));
    SlideBackMovedIff(SlideBack(s));
  }

  lemma ExampleBackFourTwos()
    ensures SlideBack([2, 2, 2, 2]) == [0, 0, 4, 4]
  {
  }

  lemma ExampleBackHop()
    ensures SlideBack([0, 2, 4, 2]) == [0, 0, 4, 4]
  {
  }
}
