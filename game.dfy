/** The `Game` object of game.py: a 4x4 grid of cells updated in place and
    the game_over flag. Each method follows the loops of the source and is
    proved against the value-level board functions of module Board. */
module GameEngine {
  import opened Tiles
  import opened Line
  import opened Board
  import Mirror

  class Game {
    /** self.grid, indexed grid[row, column]; 0 marks an empty cell. */
    var grid: array2<int>
    var gameOver: bool

    /** The grid has the dimensions of the board. */
    ghost predicate Shaped()
      reads this
    {
      grid.Length0 == H && grid.Length1 == W
    }

    /** The object invariant: the board's dimensions, and every cell empty or
        holding a power of two of at least 2. */
    ghost predicate Valid()
      reads this, grid
    {
      Shaped() && BoardTiles(Cells())
    }

    /** The grid as a board value. */
    function Cells(): (g: Grid)
      requires Shaped()
      reads this, grid
      ensures IsBoard(g)
    {
      var a := grid;
      seq(H, r requires 0 <= r < a.Length0 reads a =>
        seq(W, c requires 0 <= c < a.Length1 reads a => a[r, c]))
    }

    /** Row i as a line value, read from column 0. */
    function Row(i: nat): (s: seq<int>)
      requires Shaped() && i < H
      reads this, grid
      ensures |s| == W
    {
      Cells()[i]
    }

    /** Column i as a line value, read from row 0. */
    function Col(i: nat): (s: seq<int>)
      requires Shaped() && i < W
      reads this, grid
      ensures |s| == H
    {
      var a := grid;
      seq(H, r requires 0 <= r < a.Length0 reads a => a[r, i])
    }

    // ----- left (game.py:91-111) -----

    /** The innermost loop of `left` for the tile in cell (i, j): the walk
        toward column 0; on reaching an equal tile it doubles cell (i, j)
        and stops. */
    method WalkLeft(i: nat, j: nat) returns (target: nat, merged: bool)
      requires Shaped() && i < H && j < W && grid[i, j] != 0
      modifies grid
      ensures Walk(target, merged) == ScanFront(old(Row(i)), j, j, j)
      ensures grid[i, j] == if merged then 2 * old(grid[i, j]) else old(grid[i, j])
      ensures forall r, c :: 0 <= r < H && 0 <= c < W && (r, c) != (i, j) ==> grid[r, c] == old(grid[r, c])
    {
      ghost var t := Row(i);
      merged := false;
      target := j;
      for k := j downto 0
        invariant target <= j
        invariant ScanFront(t, j, k, target) == ScanFront(t, j, j, j)
        invariant forall r, c :: 0 <= r < H && 0 <= c < W ==> grid[r, c] == old(grid[r, c])
      {
        if grid[i, k] == 0 {
          target := k;
        } else if grid[i, j] == grid[i, k] {
          grid[i, j] := grid[i, j] * 2;
          target := k;
          merged := true;
          break;
        }
      }
    }

    /** The middle loop of `left` on row i: each tile from column 0 on walks
        and is written where its walk ends. */
    method LeftRow(i: nat) returns (changed: bool)
      requires Shaped() && i < H
      modifies grid
      ensures Row(i) == SlideFront(old(Row(i)))
      ensures changed == MovedFront(old(Row(i)), W)
      ensures forall r, c :: 0 <= r < H && r != i && 0 <= c < W ==> grid[r, c] == old(grid[r, c])
    {
      ghost var row := Row(i);
      ghost var cur := row;
      changed := false;
      for j := 0 to W
        invariant forall r, c :: 0 <= r < H && r != i && 0 <= c < W ==> grid[r, c] == old(grid[r, c])
        invariant cur == ProcessedFront(row, j)
        invariant forall c :: 0 <= c < W ==> grid[i, c] == cur[c]
        invariant changed == MovedFront(row, j)
      {
        if grid[i, j] == 0 {
          continue;
        }
        assert Row(i) == cur;
        var target, merged := WalkLeft(i, j);
        if target != j {
          grid[i, target] := grid[i, j];
          grid[i, j] := 0;
          changed := true;
        }
        assert StepFront(cur, j) == Settle(cur, j, Walk(target, merged));
        cur := StepFront(cur, j);
      }
      assert Row(i) == cur;
    }

    /** `left`: every row, tile by tile from column 0, walks toward column 0
        over empty cells, hopping over tiles of other values, and merges with
        the first equal tile it reaches. Reports whether any tile moved. */
    method Left() returns (changed: bool)
      requires Valid()
      modifies grid
      ensures Valid()
      ensures Cells() == ShiftLeft(old(Cells()))
      ensures changed <==> Cells() != old(Cells())
    {
      ghost var g0 := Cells();
      ghost var goal := ShiftLeft(g0);
      changed := false;
      for i := 0 to H
        invariant forall r, c :: 0 <= r < i && 0 <= c < W ==> grid[r, c] == goal[r][c]
        invariant forall r, c :: i <= r < H && 0 <= c < W ==> grid[r, c] == g0[r][c]
        invariant changed <==> exists r :: 0 <= r < i && goal[r] != g0[r]
      {
        assert Row(i) == g0[i];
        var rowChanged := LeftRow(i);
        assert Row(i) == goal[i];
        SlideFrontMovedIff(g0[i]);
        changed := changed || rowChanged;
      }
      BoardEq(Cells(), goal);
      ShiftChangedLine(Direction.Left, g0);
      ShiftTiles(Direction.Left, g0);
    }

    // ----- right (game.py:113-133) -----

    /** The innermost loop of `right` for the tile in cell (i, j): the walk
        toward the last column. */
    method WalkRight(i: nat, j: nat) returns (target: nat, merged: bool)
      requires Shaped() && i < H && j < W && grid[i, j] != 0
      modifies grid
      ensures Walk(target, merged) == ScanBack(old(Row(i)), j, j + 1, j)
      ensures grid[i, j] == if merged then 2 * old(grid[i, j]) else old(grid[i, j])
      ensures forall r, c :: 0 <= r < H && 0 <= c < W && (r, c) != (i, j) ==> grid[r, c] == old(grid[r, c])
    {
      ghost var t := Row(i);
      merged := false;
      target := j;
      for k := j + 1 to W
        invariant j <= target < W
        invariant ScanBack(t, j, k, target) == ScanBack(t, j, j + 1, j)
        invariant forall r, c :: 0 <= r < H && 0 <= c < W ==> grid[r, c] == old(grid[r, c])
      {
        if grid[i, k] == 0 {
          target := k;
        } else if grid[i, j] == grid[i, k] {
          grid[i, j] := grid[i, j] * 2;
          target := k;
          merged := true;
          break;
        }
      }
    }

    /** The middle loop of `right` on row i: each tile from the last column
        back walks and is written where its walk ends. */
    method RightRow(i: nat) returns (changed: bool)
      requires Shaped() && i < H
      modifies grid
      ensures Row(i) == SlideBack(old(Row(i)))
      ensures changed == MovedBack(old(Row(i)), 0)
      ensures forall r, c :: 0 <= r < H && r != i && 0 <= c < W ==> grid[r, c] == old(grid[r, c])
    {
      ghost var row := Row(i);
      ghost var cur := row;
      changed := false;
      for j := W downto 0
        invariant forall r, c :: 0 <= r < H && r != i && 0 <= c < W ==> grid[r, c] == old(grid[r, c])
        invariant cur == ProcessedBack(row, j)
        invariant forall c :: 0 <= c < W ==> grid[i, c] == cur[c]
        invariant changed == MovedBack(row, j)
      {
        if grid[i, j] == 0 {
          continue;
        }
        assert Row(i) == cur;
        var target, merged := WalkRight(i, j);
        if target != j {
          grid[i, target] := grid[i, j];
          grid[i, j] := 0;
          changed := true;
        }
        assert StepBack(cur, j) == Settle(cur, j, Walk(target, merged));
        cur := StepBack(cur, j);
      }
      assert Row(i) == cur;
    }

    /** `right`: every row, tile by tile from the last column back, walks
        toward the last column. Reports whether any tile moved. */
    method Right() returns (changed: bool)
      requires Valid()
      modifies grid
      ensures Valid()
      ensures Cells() == ShiftRight(old(Cells()))
      ensures changed <==> Cells() != old(Cells())
    {
      ghost var g0 := Cells();
      ghost var goal := ShiftRight(g0);
      changed := false;
      for i := 0 to H
        invariant forall r, c :: 0 <= r < i && 0 <= c < W ==> grid[r, c] == goal[r][c]
        invariant forall r, c :: i <= r < H && 0 <= c < W ==> grid[r, c] == g0[r][c]
        invariant changed <==> exists r :: 0 <= r < i && goal[r] != g0[r]
      {
        assert Row(i) == g0[i];
        var rowChanged := RightRow(i);
        assert Row(i) == goal[i];
        Mirror.SlideBackMovedIff(g0[i]);
        changed := changed || rowChanged;
      }
      BoardEq(Cells(), goal);
      ShiftChangedLine(Direction.Right, g0);
      ShiftTiles(Direction.Right, g0);
    }

    // ----- up (game.py:135-155) -----

    /** The innermost loop of `up` for the tile in cell (j, i): the walk
        toward row 0. */
    method WalkUp(i: nat, j: nat) returns (target: nat, merged: bool)
      requires Shaped() && i < W && j < H && grid[j, i] != 0
      modifies grid
      ensures Walk(target, merged) == ScanFront(old(Col(i)), j, j, j)
      ensures grid[j, i] == if merged then 2 * old(grid[j, i]) else old(grid[j, i])
      ensures forall r, c :: 0 <= r < H && 0 <= c < W && (r, c) != (j, i) ==> grid[r, c] == old(grid[r, c])
    {
      ghost var t := Col(i);
      merged := false;
      target := j;
      for k := j downto 0
        invariant target <= j
        invariant ScanFront(t, j, k, target) == ScanFront(t, j, j, j)
        invariant forall r, c :: 0 <= r < H && 0 <= c < W ==> grid[r, c] == old(grid[r, c])
      {
        if grid[k, i] == 0 {
          target := k;
        } else if grid[j, i] == grid[k, i] {
          grid[j, i] := grid[j, i] * 2;
          target := k;
          merged := true;
          break;
        }
      }
    }

    /** The middle loop of `up` on column i: each tile from row 0 on walks
        and is written where its walk ends. */
    method UpColumn(i: nat) returns (changed: bool)
      requires Shaped() && i < W
      modifies grid
      ensures Col(i) == SlideFront(old(Col(i)))
      ensures changed == MovedFront(old(Col(i)), H)
      ensures forall r, c :: 0 <= r < H && 0 <= c < W && c != i ==> grid[r, c] == old(grid[r, c])
    {
      ghost var col := Col(i);
      ghost var cur := col;
      changed := false;
      for j := 0 to H
        invariant forall r, c :: 0 <= r < H && 0 <= c < W && c != i ==> grid[r, c] == old(grid[r, c])
        invariant cur == ProcessedFront(col, j)
        invariant forall r :: 0 <= r < H ==> grid[r, i] == cur[r]
        invariant changed == MovedFront(col, j)
      {
        if grid[j, i] == 0 {
          continue;
        }
        assert Col(i) == cur;
        var target, merged := WalkUp(i, j);
        if target != j {
          grid[target, i] := grid[j, i];
          grid[j, i] := 0;
          changed := true;
        }
        assert StepFront(cur, j) == Settle(cur, j, Walk(target, merged));
        cur := StepFront(cur, j);
      }
      assert Col(i) == cur;
    }

    /** `up`: every column, tile by tile from row 0, walks toward row 0.
        Reports whether any tile moved. */
    method Up() returns (changed: bool)
      requires Valid()
      modifies grid
      ensures Valid()
      ensures Cells() == ShiftUp(old(Cells()))
      ensures changed <==> Cells() != old(Cells())
    {
      ghost var g0 := Cells();
      ghost var goal := ShiftUp(g0);
      changed := false;
      for i := 0 to W
        invariant forall r, c :: 0 <= r < H && 0 <= c < i ==> grid[r, c] == goal[r][c]
        invariant forall r, c :: 0 <= r < H && i <= c < W ==> grid[r, c] == g0[r][c]
        invariant changed <==> exists c :: 0 <= c < i && SlideFront(Column(g0, c)) != Column(g0, c)
      {
        assert Col(i) == Column(g0, i);
        var colChanged := UpColumn(i);
        assert forall r :: 0 <= r < H ==> grid[r, i] == Col(i)[r];
        SlideFrontMovedIff(Column(g0, i));
        changed := changed || colChanged;
      }
      BoardEq(Cells(), goal);
      ShiftChangedLine(Direction.Up, g0);
      ShiftTiles(Direction.Up, g0);
    }

    // ----- down (game.py:157-177) -----

    /** The innermost loop of `down` for the tile in cell (j, i): the walk
        toward the last row. */
    method WalkDown(i: nat, j: nat) returns (target: nat, merged: bool)
      requires Shaped() && i < W && j < H && grid[j, i] != 0
      modifies grid
      ensures Walk(target, merged) == ScanBack(old(Col(i)), j, j + 1, j)
      ensures grid[j, i] == if merged then 2 * old(grid[j, i]) else old(grid[j, i])
      ensures forall r, c :: 0 <= r < H && 0 <= c < W && (r, c) != (j, i) ==> grid[r, c] == old(grid[r, c])
    {
      ghost var t := Col(i);
      merged := false;
      target := j;
      for k := j + 1 to H
        invariant j <= target < H
        invariant ScanBack(t, j, k, target) == ScanBack(t, j, j + 1, j)
        invariant forall r, c :: 0 <= r < H && 0 <= c < W ==> grid[r, c] == old(grid[r, c])
      {
        if grid[k, i] == 0 {
          target := k;
        } else if grid[j, i] == grid[k, i] {
          grid[j, i] := grid[j, i] * 2;
          target := k;
          merged := true;
          break;
        }
      }
    }

    /** The middle loop of `down` on column i: each tile from the last row
        back walks and is written where its walk ends. */
    method DownColumn(i: nat) returns (changed: bool)
      requires Shaped() && i < W
      modifies grid
      ensures Col(i) == SlideBack(old(Col(i)))
      ensures changed == MovedBack(old(Col(i)), 0)
      ensures forall r, c :: 0 <= r < H && 0 <= c < W && c != i ==> grid[r, c] == old(grid[r, c])
    {
      ghost var col := Col(i);
      ghost var cur := col;
      changed := false;
      for j := H downto 0
        invariant forall r, c :: 0 <= r < H && 0 <= c < W && c != i ==> grid[r, c] == old(grid[r, c])
        invariant cur == ProcessedBack(col, j)
        invariant forall r :: 0 <= r < H ==> grid[r, i] == cur[r]
        invariant changed == MovedBack(col, j)
      {
        if grid[j, i] == 0 {
          continue;
        }
        assert Col(i) == cur;
        var target, merged := WalkDown(i, j);
        if target != j {
          grid[target, i] := grid[j, i];
          grid[j, i] := 0;
          changed := true;
        }
        assert StepBack(cur, j) == Settle(cur, j, Walk(target, merged));
        cur := StepBack(cur, j);
      }
      assert Col(i) == cur;
    }

    /** `down`: every column, tile by tile from the last row back, walks
        toward the last row. Reports whether any tile moved. */
    method Down() returns (changed: bool)
      requires Valid()
      modifies grid
      ensures Valid()
      ensures Cells() == ShiftDown(old(Cells()))
      ensures changed <==> Cells() != old(Cells())
    {
      ghost var g0 := Cells();
      ghost var goal := ShiftDown(g0);
      changed := false;
      for i := 0 to W
        invariant forall r, c :: 0 <= r < H && 0 <= c < i ==> grid[r, c] == goal[r][c]
        invariant forall r, c :: 0 <= r < H && i <= c < W ==> grid[r, c] == g0[r][c]
        invariant changed <==> exists c :: 0 <= c < i && SlideBack(Column(g0, c)) != Column(g0, c)
      {
        assert Col(i) == Column(g0, i);
        var colChanged := DownColumn(i);
        assert forall r :: 0 <= r < H ==> grid[r, i] == Col(i)[r];
        Mirror.SlideBackMovedIff(Column(g0, i));
        changed := changed || colChanged;
      }
      BoardEq(Cells(), goal);
      ShiftChangedLine(Direction.Down, g0);
      ShiftTiles(Direction.Down, g0);
    }

    // ----- new_block (game.py:67-89) -----

    /** The rest of `new_block` once some cell is empty: `pick` stands for
        the draw of random.randrange over the number of empty cells, and
        `aboveThreshold` for the draw of random.random() lying above
        1 - 0.4 * (share of cells holding 2). The value, 4 above the threshold
        and 2 otherwise, goes into the empty cell with `pick` empty cells
        before it in row-major order, found by counting `pick` down. */
    method PlaceBlock(pick: nat, aboveThreshold: bool)
      requires Shaped() && pick < Count(Flatten(Cells()), 0)
      modifies grid
      ensures Cells() == Spawn(old(Cells()), pick, aboveThreshold)
    {
      var n: nat := pick;
      var num := if aboveThreshold then 4 else 2;
      ghost var g0 := Cells();
      assert g0[..H] == g0;
      for i := 0 to H
        invariant forall r, c :: 0 <= r < H && 0 <= c < W ==> grid[r, c] == g0[r][c]
        invariant n + Count(Flatten(g0[..i]), 0) == pick
      {
        for j := 0 to W
          invariant forall r, c :: 0 <= r < H && 0 <= c < W ==> grid[r, c] == g0[r][c]
          invariant n + Count(Flatten(g0[..i]), 0) + Count(g0[i][..j], 0) == pick
        {
          CountPrefix(g0[i], j, 0);
          if grid[i, j] == 0 {
            if n == 0 {
              PlaceIsSpawn(g0, pick, aboveThreshold, i, j);
              grid[i, j] := num;
              BoardEq(Cells(), g0[i := g0[i][j := num]]);
              return;
            } else {
              n := n - 1;
            }
          }
        }
        assert g0[i][..W] == g0[i];
        CountRowsStep(g0, i);
      }
      assert false;
    }

    /** `new_block`: with no empty cell, randrange fails and game_over is set
        with nothing written; otherwise one 2 or 4 is placed. A draw above
        the threshold needs some cell holding 2, since with none the
        threshold is 1. */
    method NewBlock(pick: nat, aboveThreshold: bool)
      requires Valid()
      requires Count(Flatten(Cells()), 0) == 0 || pick < Count(Flatten(Cells()), 0)
      requires aboveThreshold ==> Count(Flatten(Cells()), 2) > 0
      modifies this, grid
      ensures Valid() && grid == old(grid)
      ensures old(Count(Flatten(Cells()), 0)) == 0 ==> gameOver && Cells() == old(Cells())
      ensures old(Count(Flatten(Cells()), 0)) > 0 ==>
        gameOver == old(gameOver) && Cells() == Spawn(old(Cells()), pick, aboveThreshold)
    {
      var empty := Count(Flatten(Cells()), 0);
      ghost var before := Cells();
      if empty == 0 {
        gameOver := true;
        assert Cells() == before;
        return;
      }
      PlaceBlock(pick, aboveThreshold);
      SpawnSpec(before, pick, aboveThreshold);
    }

    // ----- construction and input -----

    /** `__init__`: an empty grid, game_over false, then one new_block. The
        share of 2s on the empty grid is 0, so the threshold is 1 and the
        draw of random.random() never lies above it: the first tile is a 2. */
    constructor (pick: nat)
      requires pick < W * H
      ensures Valid() && fresh(grid)
      ensures !gameOver
      ensures Cells()[pick / W][pick % W] == 2
      ensures forall r, c :: 0 <= r < H && 0 <= c < W && (r, c) != (pick / W, pick % W) ==> Cells()[r][c] == 0
      ensures Count(Flatten(Cells()), 0) == W * H - 1
    {
      grid := new int[H, W]((_, _) => 0);
      gameOver := false;
      new;
      BoardEq(Cells(), EmptyBoard());
      FreshBoard(pick);
      NewBlock(pick, false);
    }

    /** The key table of game.py:22-23: one move per arrow key. */
    method Move(d: Direction) returns (changed: bool)
      requires Valid()
      modifies grid
      ensures Valid()
      ensures Cells() == Shift(d, old(Cells()))
      ensures changed <==> Cells() != old(Cells())
    {
      match d
      case Up => changed := Up();
      case Down => changed := Down();
      case Left => changed := Left();
      case Right => changed := Right();
    }

    /** A KEYDOWN event for an arrow key (game.py:41-44): the move, then
        new_block only when the move reports a change. The move leaves an
        empty cell whenever it reports a change, so this never sets
        game_over. */
    method KeyDown(d: Direction, pick: nat, aboveThreshold: bool) returns (moved: bool)
      requires Valid()
      requires Shift(d, Cells()) != Cells() ==> pick < Count(Flatten(Shift(d, Cells())), 0)
      requires Shift(d, Cells()) != Cells() && aboveThreshold ==> Count(Flatten(Shift(d, Cells())), 2) > 0
      modifies this, grid
      ensures Valid() && grid == old(grid)
      ensures moved <==> Shift(d, old(Cells())) != old(Cells())
      ensures Cells() == Step(d, old(Cells()), pick, aboveThreshold)
      ensures gameOver == old(gameOver)
    {
      ghost var g0 := Cells();
      moved := Move(d);
      if moved {
        ShiftChangedLeavesEmpty(d, g0);
        NewBlock(pick, aboveThreshold);
      }
    }

    /** A QUIT event (game.py:45-46). */
    method Quit()
      requires Valid()
      modifies this
      ensures Valid() && grid == old(grid) && Cells() == old(Cells())
      ensures gameOver
    {
      ghost var before := Cells();
      gameOver := true;
      assert Cells() == before;
    }
  }
}
