/** The 4x4 board of game.py as a value: the four directional moves built
    from the line walks, the row-major order in which new_block counts empty
    cells, and the spawn that places a 2 or a 4. */
module Board {
  import opened Tiles
  import opened Line
  import Mirror

  /** Board width and height (WIDTH and HEIGHT, game.py:5-6). */
  const W: nat := 4
  const H: nat := 4

  /** The four moves; replaces the key-code table of game.py:22-23. */
  datatype Direction = Up | Down | Left | Right

  type Grid = seq<seq<int>>

  predicate IsRect(g: Grid, rows: nat, cols: nat)
  {
    |g| == rows && forall r :: 0 <= r < rows ==> |g[r]| == cols
  }

  /** A grid of H rows of W cells, indexed g[row][column] as self.grid is. */
  predicate IsBoard(g: Grid)
  {
    IsRect(g, H, W)
  }

  /** Every cell of the board is empty or holds a power of two of at least 2. */
  predicate BoardTiles(g: Grid)
    requires IsBoard(g)
  {
    forall r, c :: 0 <= r < H && 0 <= c < W ==> g[r][c] == 0 || IsTile(g[r][c])
  }

  function Transpose(g: Grid, rows: nat, cols: nat): (t: Grid)
    requires IsRect(g, rows, cols)
    ensures IsRect(t, cols, rows)
    ensures forall c, r :: 0 <= c < cols && 0 <= r < rows ==> t[c][r] == g[r][c]
  {
    seq(cols, c requires 0 <= c < cols => seq(rows, r requires 0 <= r < rows => g[r][c]))
  }

  /** Column c read from the top row down. */
  function Column(g: Grid, c: nat): (col: seq<int>)
    requires IsBoard(g) && c < W
    ensures |col| == H && forall r :: 0 <= r < H ==> col[r] == g[r][c]
  {
    Transpose(g, H, W)[c]
  }

  function SlideEachFront(ls: seq<seq<int>>): (rs: seq<seq<int>>)
    ensures |rs| == |ls| && forall i :: 0 <= i < |ls| ==> rs[i] == SlideFront(ls[i])
  {
    seq(|ls|, i requires 0 <= i < |ls| => SlideFront(ls[i]))
  }

  function SlideEachBack(ls: seq<seq<int>>): (rs: seq<seq<int>>)
    ensures |rs| == |ls| && forall i :: 0 <= i < |ls| ==> rs[i] == SlideBack(ls[i])
  {
    seq(|ls|, i requires 0 <= i < |ls| => SlideBack(ls[i]))
  }

  /** `left`: every row walks toward column 0. */
  function ShiftLeft(g: Grid): (h: Grid)
    requires IsBoard(g)
    ensures IsBoard(h)
  {
    SlideEachFront(g)
  }

  /** `right`: every row walks toward the last column. */
  function ShiftRight(g: Grid): (h: Grid)
    requires IsBoard(g)
    ensures IsBoard(h)
  {
    SlideEachBack(g)
  }

  /** `up`: every column walks toward row 0. */
  function ShiftUp(g: Grid): (h: Grid)
    requires IsBoard(g)
    ensures IsBoard(h)
    ensures forall r, c :: 0 <= r < H && 0 <= c < W ==> h[r][c] == SlideFront(Column(g, c))[r]
  {
    Transpose(SlideEachFront(Transpose(g, H, W)), W, H)
  }

  /** `down`: every column walks toward the last row. */
  function ShiftDown(g: Grid): (h: Grid)
    requires IsBoard(g)
    ensures IsBoard(h)
    ensures forall r, c :: 0 <= r < H && 0 <= c < W ==> h[r][c] == SlideBack(Column(g, c))[r]
  {
    Transpose(SlideEachBack(Transpose(g, H, W)), W, H)
  }

  function Shift(d: Direction, g: Grid): (h: Grid)
    requires IsBoard(g)
    ensures IsBoard(h)
  {
    match d
    case Up => ShiftUp(g)
    case Down => ShiftDown(g)
    case Left => ShiftLeft(g)
    case Right => ShiftRight(g)
  }

  /** The cells in row-major order, the order of new_block's scan. */
  function Flatten(g: Grid): seq<int>
  {
    if |g| == 0 then [] else Flatten(g[..|g| - 1]) + g[|g| - 1]
  }

  /** The all-empty board built by the constructor (game.py:21). */
  function EmptyBoard(): (g: Grid)
    ensures IsBoard(g)
  {
    seq(H, _ => seq(W, _ => 0))
  }

  /** Position, in a line, of the empty cell preceded by exactly n empty cells. */
  function NthZero(s: seq<int>, n: nat): (p: nat)
    requires n < Count(s, 0)
    ensures p < |s| && s[p] == 0 && Count(s[..p], 0) == n
  {
    var m := |s| - 1;
    if Count(s[..m], 0) > n then
      var p := NthZero(s[..m], n);
      assert s[..m][..p] == s[..p];
      p
    else
      m
  }

  /** The value new_block writes (game.py:75-80): 4 when the random draw lies
      above the threshold 1 - 0.4 * (share of cells holding 2), else 2. */
  function SpawnValue(aboveThreshold: bool): (v: int)
    ensures IsTile(v)
  {
    if aboveThreshold then 4 else 2
  }

  /** The board with the cell at row-major position p set to v. */
  function Place(g: Grid, p: nat, v: int): (h: Grid)
    requires IsBoard(g) && p < W * H
    ensures IsBoard(h)
  {
    g[p / W := g[p / W][p % W := v]]
  }

  /** new_block when some cell is empty (game.py:75-89): the chosen value goes
      into the empty cell with `pick` empty cells before it in row-major order. */
  function Spawn(g: Grid, pick: nat, aboveThreshold: bool): (h: Grid)
    requires IsBoard(g) && pick < Count(Flatten(g), 0)
    ensures IsBoard(h)
  {
    FlattenIndex(g, H);
    Place(g, NthZero(Flatten(g), pick), SpawnValue(aboveThreshold))
  }

  // ----- row-major order -----

  lemma {:induction false} FlattenIndex(g: Grid, rows: nat)
    requires IsRect(g, rows, W)
    ensures |Flatten(g)| == W * rows
    ensures forall r, c :: 0 <= r < rows && 0 <= c < W ==> Flatten(g)[W * r + c] == g[r][c]
  {
    if rows > 0 {
      var m := rows - 1;
      FlattenIndex(g[..m], m);
      assert Flatten(g) == Flatten(g[..m]) + g[m];
      forall r, c | 0 <= r < rows && 0 <= c < W ensures Flatten(g)[W * r + c] == g[r][c] {
        if r < m {
          assert W * r + c < W * m;
        } else {
          assert W * r + c == W * m + c;
        }
      }
    }
  }

  lemma Flatten4(g: Grid)
    requires |g| == 4
    ensures Flatten(g) == g[0] + g[1] + g[2] + g[3]
  {
    assert g[..3][..2] == g[..2] && g[..2][..1] == g[..1] && g[..1][..0] == [];
    assert Flatten(g[..1]) == g[0];
    assert Flatten(g[..2]) == g[0] + g[1];
    assert Flatten(g[..3]) == g[0] + g[1] + g[2];
  }

  lemma Sum4(s: seq<int>)
    requires |s| == 4
    ensures Sum(s) == s[0] + s[1] + s[2] + s[3]
  {
    assert s[..3][..2] == s[..2] && s[..2][..1] == s[..1] && s[..1][..0] == [];
    assert Sum(s[..1]) == s[0];
    assert Sum(s[..2]) == s[0] + s[1];
    assert Sum(s[..3]) == s[0] + s[1] + s[2];
  }

  function Hit(y: int, x: int): nat
  {
    if y == x then 1 else 0
  }

  lemma Count4(s: seq<int>, x: int)
    requires |s| == 4
    ensures Count(s, x) == Hit(s[0], x) + Hit(s[1], x) + Hit(s[2], x) + Hit(s[3], x)
  {
    assert s[..3][..2] == s[..2] && s[..2][..1] == s[..1] && s[..1][..0] == [];
    assert Count(s[..1], x) == (if s[0] == x then 1 else 0);
    assert Count(s[..2], x) == Count(s[..1], x) + (if s[1] == x then 1 else 0);
    assert Count(s[..3], x) == Count(s[..2], x) + (if s[2] == x then 1 else 0);
  }

  /** The board total as the sum of its four row totals. */
  lemma BoardSum(g: Grid)
    requires |g| == 4
    ensures Sum(Flatten(g)) == Sum(g[0]) + Sum(g[1]) + Sum(g[2]) + Sum(g[3])
  {
    Flatten4(g);
    SumConcat(g[0] + g[1] + g[2], g[3]);
    SumConcat(g[0] + g[1], g[2]);
    SumConcat(g[0], g[1]);
  }

  lemma BoardCount(g: Grid, x: int)
    requires |g| == 4
    ensures Count(Flatten(g), x) == Count(g[0], x) + Count(g[1], x) + Count(g[2], x) + Count(g[3], x)
  {
    Flatten4(g);
    CountConcat(g[0] + g[1] + g[2], g[3], x);
    CountConcat(g[0] + g[1], g[2], x);
    CountConcat(g[0], g[1], x);
  }

  /** Reading the board column by column gives the same total. */
  lemma TransposeSum(g: Grid)
    requires IsRect(g, 4, 4)
    ensures Sum(Flatten(Transpose(g, 4, 4))) == Sum(Flatten(g))
  {
    var t := Transpose(g, 4, 4);
    BoardSum(g);
    BoardSum(t);
    Sum4(g[0]); Sum4(g[1]); Sum4(g[2]); Sum4(g[3]);
    Sum4(t[0]); Sum4(t[1]); Sum4(t[2]); Sum4(t[3]);
  }

  lemma TransposeCount(g: Grid, x: int)
    requires IsRect(g, 4, 4)
    ensures Count(Flatten(Transpose(g, 4, 4)), x) == Count(Flatten(g), x)
  {
    var t := Transpose(g, 4, 4);
    BoardCount(g, x);
    BoardCount(t, x);
    Count4(g[0], x); Count4(g[1], x); Count4(g[2], x); Count4(g[3], x);
    Count4(t[0], x); Count4(t[1], x); Count4(t[2], x); Count4(t[3], x);
  }

  lemma TransposeTwice(g: Grid, rows: nat, cols: nat)
    requires IsRect(g, rows, cols)
    ensures Transpose(Transpose(g, rows, cols), cols, rows) == g
  {
    var t := Transpose(Transpose(g, rows, cols), cols, rows);
    forall r | 0 <= r < rows ensures t[r] == g[r] {
    }
  }

  // ----- total, empty cells and tile values under every move -----

  /** Lines with equal totals make boards with equal totals. */
  lemma LinesSum(ls: Grid, ms: Grid)
    requires |ls| == 4 && |ms| == 4
    requires forall i :: 0 <= i < 4 ==> Sum(ms[i]) == Sum(ls[i])
    ensures Sum(Flatten(ms)) == Sum(Flatten(ls))
  {
    BoardSum(ls);
    BoardSum(ms);
  }

  /** Lines with no fewer empty cells make a board with no fewer empty cells. */
  lemma LinesZeros(ls: Grid, ms: Grid)
    requires |ls| == 4 && |ms| == 4
    requires forall i :: 0 <= i < 4 ==> Count(ms[i], 0) >= Count(ls[i], 0)
    ensures Count(Flatten(ms), 0) >= Count(Flatten(ls), 0)
  {
    BoardCount(ls, 0);
    BoardCount(ms, 0);
  }

  /** Every move keeps the total of all cell values. */
  lemma ShiftSum(d: Direction, g: Grid)
    requires IsBoard(g)
    ensures Sum(Flatten(Shift(d, g))) == Sum(Flatten(g))
  {
    var t := Transpose(g, H, W);
    match d
    case Left =>
      forall i | 0 <= i < 4 ensures Sum(SlideFront(g[i])) == Sum(g[i]) {
        SlideFrontSum(g[i]);
      }
      LinesSum(g, ShiftLeft(g));
    case Right =>
      forall i | 0 <= i < 4 ensures Sum(SlideBack(g[i])) == Sum(g[i]) {
        Mirror.SlideBackSum(g[i]);
      }
      LinesSum(g, ShiftRight(g));
    case Up =>
      var m := SlideEachFront(t);
      forall i | 0 <= i < 4 ensures Sum(SlideFront(t[i])) == Sum(t[i]) {
        SlideFrontSum(t[i]);
      }
      LinesSum(t, m);
      TransposeSum(g);
      TransposeSum(m);
    case Down =>
      var m := SlideEachBack(t);
      forall i | 0 <= i < 4 ensures Sum(SlideBack(t[i])) == Sum(t[i]) {
        Mirror.SlideBackSum(t[i]);
      }
      LinesSum(t, m);
      TransposeSum(g);
      TransposeSum(m);
  }

  /** No move lowers the number of empty cells, so the number of tiles never grows. */
  lemma ShiftZeros(d: Direction, g: Grid)
    requires IsBoard(g)
    ensures Count(Flatten(Shift(d, g)), 0) >= Count(Flatten(g), 0)
  {
    var t := Transpose(g, H, W);
    match d
    case Left =>
      forall i | 0 <= i < 4 ensures Count(SlideFront(g[i]), 0) >= Count(g[i], 0) {
        SlideFrontZeros(g[i]);
      }
      LinesZeros(g, ShiftLeft(g));
    case Right =>
      forall i | 0 <= i < 4 ensures Count(SlideBack(g[i]), 0) >= Count(g[i], 0) {
        Mirror.SlideBackZeros(g[i]);
      }
      LinesZeros(g, ShiftRight(g));
    case Up =>
      var m := SlideEachFront(t);
      forall i | 0 <= i < 4 ensures Count(SlideFront(t[i]), 0) >= Count(t[i], 0) {
        SlideFrontZeros(t[i]);
      }
      LinesZeros(t, m);
      TransposeCount(g, 0);
      TransposeCount(m, 0);
    case Down =>
      var m := SlideEachBack(t);
      forall i | 0 <= i < 4 ensures Count(SlideBack(t[i]), 0) >= Count(t[i], 0) {
        Mirror.SlideBackZeros(t[i]);
      }
      LinesZeros(t, m);
      TransposeCount(g, 0);
      TransposeCount(m, 0);
  }

  /** Every non-zero cell stays a power of two under every move. */
  lemma ShiftTiles(d: Direction, g: Grid)
    requires IsBoard(g) && BoardTiles(g)
    ensures BoardTiles(Shift(d, g))
  {
    var h := Shift(d, g);
    forall r, c | 0 <= r < H && 0 <= c < W ensures h[r][c] == 0 || IsTile(h[r][c]) {
      match d
      case Left =>
        assert AllTiles(g[r]);
        SlideFrontTiles(g[r]);
      case Right =>
        assert AllTiles(g[r]);
        Mirror.SlideBackTiles(g[r]);
      case Up =>
        assert AllTiles(Column(g, c));
        SlideFrontTiles(Column(g, c));
      case Down =>
        assert AllTiles(Column(g, c));
        Mirror.SlideBackTiles(Column(g, c));
    }
  }

  // ----- packing -----

  /** After `left` every row is packed toward column 0, after `right` toward
      the last column; after `up` every column is packed toward row 0, after
      `down` toward the last row. */
  lemma ShiftPacked(d: Direction, g: Grid)
    requires IsBoard(g)
    ensures d == Left ==> forall r :: 0 <= r < H ==> PackedFront(Shift(d, g)[r])
    ensures d == Right ==> forall r :: 0 <= r < H ==> PackedBack(Shift(d, g)[r])
    ensures d == Up ==> forall c :: 0 <= c < W ==> PackedFront(Column(Shift(d, g), c))
    ensures d == Down ==> forall c :: 0 <= c < W ==> PackedBack(Column(Shift(d, g), c))
  {
    var h := Shift(d, g);
    match d
    case Left =>
      forall r | 0 <= r < H ensures PackedFront(h[r]) {
        SlideFrontPacked(g[r]);
      }
    case Right =>
      forall r | 0 <= r < H ensures PackedBack(h[r]) {
        Mirror.SlideBackPacked(g[r]);
      }
    case Up =>
      forall c | 0 <= c < W ensures PackedFront(Column(h, c)) {
        assert Column(h, c) == SlideFront(Column(g, c));
        SlideFrontPacked(Column(g, c));
      }
    case Down =>
      forall c | 0 <= c < W ensures PackedBack(Column(h, c)) {
        assert Column(h, c) == SlideBack(Column(g, c));
        Mirror.SlideBackPacked(Column(g, c));
      }
  }

  // ----- when a move changes nothing -----

  lemma LinesDiffer(a: seq<seq<int>>, b: seq<seq<int>>)
    requires |a| == |b|
    ensures a != b <==> exists i :: 0 <= i < |a| && a[i] != b[i]
  {
    if forall i :: 0 <= i < |a| ==> a[i] == b[i] {
      assert a == b;
    }
  }

  /** Writing the moved columns back changes the board exactly when some
      column changed. */
  lemma TransposeChanged(g: Grid, m: Grid)
    requires IsBoard(g) && IsRect(m, W, H)
    ensures Transpose(m, W, H) != g <==> m != Transpose(g, H, W)
  {
    TransposeTwice(g, H, W);
    TransposeTwice(m, W, H);
  }

  /** A move changes the board exactly when some line it walks changes. */
  lemma ShiftChangedLine(d: Direction, g: Grid)
    requires IsBoard(g)
    ensures d == Left ==> (Shift(d, g) != g <==> exists r :: 0 <= r < H && SlideFront(g[r]) != g[r])
    ensures d == Right ==> (Shift(d, g) != g <==> exists r :: 0 <= r < H && SlideBack(g[r]) != g[r])
    ensures d == Up ==> (Shift(d, g) != g <==> exists c :: 0 <= c < W && SlideFront(Column(g, c)) != Column(g, c))
    ensures d == Down ==> (Shift(d, g) != g <==> exists c :: 0 <= c < W && SlideBack(Column(g, c)) != Column(g, c))
  {
    var t := Transpose(g, H, W);
    match d
    case Left =>
      LinesDiffer(SlideEachFront(g), g);
    case Right =>
      LinesDiffer(SlideEachBack(g), g);
    case Up =>
      var m := SlideEachFront(t);
      TransposeChanged(g, m);
      LinesDiffer(m, t);
      if Shift(d, g) != g {
        var c :| 0 <= c < W && m[c] != t[c];
        assert SlideFront(Column(g, c)) != Column(g, c);
      }
    case Down =>
      var m := SlideEachBack(t);
      TransposeChanged(g, m);
      LinesDiffer(m, t);
      if Shift(d, g) != g {
        var c :| 0 <= c < W && m[c] != t[c];
        assert SlideBack(Column(g, c)) != Column(g, c);
      }
  }

  lemma LineCountPositive(h: Grid, i: nat, x: int)
    requires |h| == 4 && i < 4 && Count(h[i], x) > 0
    ensures Count(Flatten(h), x) > 0
  {
    BoardCount(h, x);
  }

  /** A move that changes the board always leaves an empty cell. */
  lemma ShiftChangedLeavesEmpty(d: Direction, g: Grid)
    requires IsBoard(g) && Shift(d, g) != g
    ensures Count(Flatten(Shift(d, g)), 0) > 0
  {
    ShiftChangedLine(d, g);
    match d
    case Left =>
      var r :| 0 <= r < H && SlideFront(g[r]) != g[r];
      SlideFrontMovedIff(g[r]);
      SlideFrontMovedLeavesEmpty(g[r]);
      LineCountPositive(ShiftLeft(g), r, 0);
    case Right =>
      var r :| 0 <= r < H && SlideBack(g[r]) != g[r];
      Mirror.SlideBackMovedIff(g[r]);
      Mirror.SlideBackMovedLeavesEmpty(g[r]);
      LineCountPositive(ShiftRight(g), r, 0);
    case Up =>
      var m := SlideEachFront(Transpose(g, H, W));
      var c :| 0 <= c < W && SlideFront(Column(g, c)) != Column(g, c);
      SlideFrontMovedIff(Column(g, c));
      SlideFrontMovedLeavesEmpty(Column(g, c));
      LineCountPositive(m, c, 0);
      TransposeCount(m, 0);
    case Down =>
      var m := SlideEachBack(Transpose(g, H, W));
      var c :| 0 <= c < W && SlideBack(Column(g, c)) != Column(g, c);
      Mirror.SlideBackMovedIff(Column(g, c));
      Mirror.SlideBackMovedLeavesEmpty(Column(g, c));
      LineCountPositive(m, c, 0);
      TransposeCount(m, 0);
  }

  /** A move leaves the board unchanged exactly when every line it walks is
      already packed toward the destination and holds no two equal tiles. */
  lemma ShiftFixpoint(d: Direction, g: Grid)
    requires IsBoard(g)
    ensures d == Left ==> (Shift(d, g) == g <==> forall r :: 0 <= r < H ==> PackedFront(g[r]) && DistinctTiles(g[r]))
    ensures d == Right ==> (Shift(d, g) == g <==> forall r :: 0 <= r < H ==> PackedBack(g[r]) && DistinctTiles(g[r]))
    ensures d == Up ==> (Shift(d, g) == g <==> forall c :: 0 <= c < W ==> PackedFront(Column(g, c)) && DistinctTiles(Column(g, c)))
    ensures d == Down ==> (Shift(d, g) == g <==> forall c :: 0 <= c < W ==> PackedBack(Column(g, c)) && DistinctTiles(Column(g, c)))
  {
    ShiftChangedLine(d, g);
    match d
    case Left =>
      forall r | 0 <= r < H ensures SlideFront(g[r]) == g[r] <==> PackedFront(g[r]) && DistinctTiles(g[r]) {
        SlideFrontFixpoint(g[r]);
      }
    case Right =>
      forall r | 0 <= r < H ensures SlideBack(g[r]) == g[r] <==> PackedBack(g[r]) && DistinctTiles(g[r]) {
        Mirror.SlideBackFixpoint(g[r]);
      }
    case Up =>
      forall c | 0 <= c < W
        ensures SlideFront(Column(g, c)) == Column(g, c) <==> PackedFront(Column(g, c)) && DistinctTiles(Column(g, c))
      {
        SlideFrontFixpoint(Column(g, c));
      }
    case Down =>
      forall c | 0 <= c < W
        ensures SlideBack(Column(g, c)) == Column(g, c) <==> PackedBack(Column(g, c)) && DistinctTiles(Column(g, c))
      {
        Mirror.SlideBackFixpoint(Column(g, c));
      }
  }

  /** No merge is possible along d: every row (left, right) or column (up,
      down) has pairwise different tiles. */
  predicate NoMerge(d: Direction, g: Grid)
    requires IsBoard(g)
  {
    match d
    case Left | Right => forall r :: 0 <= r < H ==> DistinctTiles(g[r])
    case Up | Down => forall c :: 0 <= c < W ==> DistinctTiles(Column(g, c))
  }

  /** On a board where no merge is possible along d, moving along d keeps it
      so, and a second move along d changes nothing (the source's move then
      returns False). */
  lemma ShiftTwice(d: Direction, g: Grid)
    requires IsBoard(g) && NoMerge(d, g)
    ensures NoMerge(d, Shift(d, g))
    ensures Shift(d, Shift(d, g)) == Shift(d, g)
  {
    var h := Shift(d, g);
    ShiftPacked(d, g);
    ShiftFixpoint(d, h);
    match d
    case Left =>
      forall r | 0 <= r < H ensures DistinctTiles(h[r]) {
        SlideFrontKeepsDistinct(g[r]);
      }
    case Right =>
      forall r | 0 <= r < H ensures DistinctTiles(h[r]) {
        Mirror.SlideBackKeepsDistinct(g[r]);
      }
    case Up =>
      forall c | 0 <= c < W ensures DistinctTiles(Column(h, c)) {
        assert Column(h, c) == SlideFront(Column(g, c));
        SlideFrontKeepsDistinct(Column(g, c));
      }
    case Down =>
      forall c | 0 <= c < W ensures DistinctTiles(Column(h, c)) {
        assert Column(h, c) == SlideBack(Column(g, c));
        Mirror.SlideBackKeepsDistinct(Column(g, c));
      }
  }

  // ----- the spawn -----

  /** The position NthZero gives is the only empty cell with exactly n empty
      cells before it. */
  lemma NthZeroUnique(s: seq<int>, n: nat, q: nat)
    requires n < Count(s, 0)
    requires q < |s| && s[q] == 0 && Count(s[..q], 0) == n
    ensures q == NthZero(s, n)
  {
    var p := NthZero(s, n);
    if q < p {
      CountPrefix(s, q, 0);
      CountPrefixMonotone(s, q + 1, p, 0);
    } else if p < q {
      CountPrefix(s, p, 0);
      CountPrefixMonotone(s, p + 1, q, 0);
    }
  }

  lemma FlattenPlace(g: Grid, p: nat, v: int)
    requires IsBoard(g) && p < W * H
    ensures |Flatten(g)| == W * H && Flatten(Place(g, p, v)) == Flatten(g)[p := v]
  {
    var h := Place(g, p, v);
    FlattenIndex(g, H);
    FlattenIndex(h, H);
    forall i | 0 <= i < W * H ensures Flatten(h)[i] == Flatten(g)[p := v][i] {
      var r, c := i / W, i % W;
      assert i == W * r + c;
      assert Flatten(h)[W * r + c] == h[r][c] && Flatten(g)[W * r + c] == g[r][c];
      assert p == W * (p / W) + p % W;
      assert i == p <==> (r == p / W && c == p % W);
    }
  }

  /** One cell of the row-major order. */
  lemma FlattenAt(g: Grid, r: nat, c: nat)
    requires IsBoard(g) && r < H && c < W
    ensures |Flatten(g)| == W * H && Flatten(g)[W * r + c] == g[r][c]
  {
    FlattenIndex(g, H);
  }

  /** The first r rows in row-major order are a prefix of the whole order. */
  lemma {:induction false} FlattenTake(g: Grid, rows: nat, r: nat)
    requires IsRect(g, rows, W) && r <= rows
    ensures |Flatten(g)| == W * rows
    ensures Flatten(g)[..W * r] == Flatten(g[..r])
    decreases rows
  {
    FlattenIndex(g, rows);
    if r < rows {
      var m := rows - 1;
      FlattenTake(g[..m], m, r);
      assert g[..m][..r] == g[..r];
      assert Flatten(g) == Flatten(g[..m]) + g[m];
      assert Flatten(g)[..W * r] == Flatten(g[..m])[..W * r];
    } else {
      assert g[..r] == g;
    }
  }

  /** Adding one row to the rows already scanned adds its empty cells. */
  lemma CountRowsStep(g: Grid, r: nat)
    requires r < |g|
    ensures Count(Flatten(g[..r + 1]), 0) == Count(Flatten(g[..r]), 0) + Count(g[r], 0)
  {
    assert g[..r + 1][..r] == g[..r];
    CountConcat(Flatten(g[..r]), g[r], 0);
  }

  /** The empty cells before (r, c) in row-major order are those of the
      rows above it and those before it in its own row. */
  lemma CountBefore(g: Grid, r: nat, c: nat)
    requires IsBoard(g) && r < H && c < W
    ensures |Flatten(g)| == W * H
    ensures Count(Flatten(g)[..W * r + c], 0) == Count(Flatten(g[..r]), 0) + Count(g[r][..c], 0)
  {
    var s := Flatten(g);
    FlattenTake(g, H, r + 1);
    FlattenIndex(g[..r], r);
    assert g[..r + 1][..r] == g[..r];
    assert Flatten(g[..r + 1]) == Flatten(g[..r]) + g[r];
    assert W * r + c <= W * (r + 1);
    assert s[..W * r + c] == Flatten(g[..r + 1])[..W * r + c];
    assert s[..W * r + c] == Flatten(g[..r]) + g[r][..c];
    CountConcat(Flatten(g[..r]), g[r][..c], 0);
  }

  /** Writing the empty cell (r, c) that has `pick` empty cells before it in
      row-major order, counted over the rows above it and then along its
      row, is the spawn. */
  lemma PlaceIsSpawn(g: Grid, pick: nat, aboveThreshold: bool, r: nat, c: nat)
    requires IsBoard(g) && pick < Count(Flatten(g), 0) && r < H && c < W && g[r][c] == 0
    requires Count(Flatten(g[..r]), 0) + Count(g[r][..c], 0) == pick
    ensures Spawn(g, pick, aboveThreshold) == g[r := g[r][c := SpawnValue(aboveThreshold)]]
  {
    FlattenAt(g, r, c);
    CountBefore(g, r, c);
    NthZeroUnique(Flatten(g), pick, W * r + c);
    assert (W * r + c) / W == r && (W * r + c) % W == c;
  }

  /** new_block writes one cell only, the empty cell with `pick` empty cells
      before it in row-major order, and writes into it a 2 or a 4 (4 only
      when the draw is above the threshold). So one empty cell fewer, the total
      grows by the value written, and every cell still holds a tile or 0. */
  lemma SpawnSpec(g: Grid, pick: nat, aboveThreshold: bool)
    requires IsBoard(g) && pick < Count(Flatten(g), 0)
    ensures var p, h := NthZero(Flatten(g), pick), Spawn(g, pick, aboveThreshold);
      && p < W * H && g[p / W][p % W] == 0 && Count(Flatten(g)[..p], 0) == pick
      && h[p / W][p % W] == (if aboveThreshold then 4 else 2)
      && (forall r, c :: 0 <= r < H && 0 <= c < W && (r, c) != (p / W, p % W) ==> h[r][c] == g[r][c])
      && Count(Flatten(h), 0) == Count(Flatten(g), 0) - 1
      && Sum(Flatten(h)) == Sum(Flatten(g)) + (if aboveThreshold then 4 else 2)
      && (BoardTiles(g) ==> BoardTiles(h))
  {
    var p, v := NthZero(Flatten(g), pick), SpawnValue(aboveThreshold);
    FlattenIndex(g, H);
    assert p == W * (p / W) + p % W;
    FlattenPlace(g, p, v);
    CountUpdate(Flatten(g), p, v, 0);
    SumUpdate(Flatten(g), p, v);
  }

  lemma {:induction false} CountAll(s: seq<int>, x: int)
    requires forall i :: 0 <= i < |s| ==> s[i] == x
    ensures Count(s, x) == |s|
    decreases |s|
  {
    if |s| > 0 {
      CountAll(s[..|s| - 1], x);
    }
  }

  /** The constructor's board: the empty board after one spawn. It has
      exactly one tile, a 2 in the cell at row-major position `pick`. */
  lemma FreshBoard(pick: nat)
    requires pick < W * H
    ensures Count(Flatten(EmptyBoard()), 0) == W * H
    ensures var h := Spawn(EmptyBoard(), pick, false);
      && h[pick / W][pick % W] == 2
      && (forall r, c :: 0 <= r < H && 0 <= c < W && (r, c) != (pick / W, pick % W) ==> h[r][c] == 0)
      && Count(Flatten(h), 0) == W * H - 1
      && BoardTiles(h)
  {
    var e := EmptyBoard();
    FlattenIndex(e, H);
    var s := Flatten(e);
    forall i | 0 <= i < |s| ensures s[i] == 0 {
      var r, c := i / W, i % W;
      assert i == W * r + c;
      assert s[W * r + c] == e[r][c];
    }
    CountAll(s, 0);
    CountAll(s[..pick], 0);
    NthZeroUnique(s, pick, pick);
    SpawnSpec(e, pick, false);
  }

  // ----- one key press -----

  /** A key press (game.py:42-44): the move, then a spawn only when the move
      reported a change. */
  function Step(d: Direction, g: Grid, pick: nat, aboveThreshold: bool): (h: Grid)
    requires IsBoard(g)
    requires Shift(d, g) != g ==> pick < Count(Flatten(Shift(d, g)), 0)
    ensures IsBoard(h)
  {
    var moved := Shift(d, g);
    if moved != g then Spawn(moved, pick, aboveThreshold) else g
  }

  /** A key press that moves nothing leaves the board as it was; one that
      moves something adds exactly one tile, a 2 or a 4, to the moved board,
      so the total grows by that value. Tile values stay powers of two. */
  lemma StepSpec(d: Direction, g: Grid, pick: nat, aboveThreshold: bool)
    requires IsBoard(g)
    requires Shift(d, g) != g ==> pick < Count(Flatten(Shift(d, g)), 0)
    ensures Shift(d, g) == g ==> Step(d, g, pick, aboveThreshold) == g
    ensures Shift(d, g) != g ==>
      && Count(Flatten(Step(d, g, pick, aboveThreshold)), 0) == Count(Flatten(Shift(d, g)), 0) - 1
      && Sum(Flatten(Step(d, g, pick, aboveThreshold))) == Sum(Flatten(g)) + SpawnValue(aboveThreshold)
    ensures BoardTiles(g) ==> BoardTiles(Step(d, g, pick, aboveThreshold))
  {
    var moved := Shift(d, g);
    ShiftSum(d, g);
    if BoardTiles(g) {
      ShiftTiles(d, g);
    }
    if moved != g {
      SpawnSpec(moved, pick, aboveThreshold);
    }
  }

  /** Two boards of the same shape with the same cells are equal. */
  lemma BoardEq(g: Grid, h: Grid)
    requires IsBoard(g) && IsBoard(h)
    requires forall r, c :: 0 <= r < H && 0 <= c < W ==> g[r][c] == h[r][c]
    ensures g == h
  {
    forall r | 0 <= r < H ensures g[r] == h[r] {
      assert forall c :: 0 <= c < W ==> g[r][c] == h[r][c];
    }
  }
}
