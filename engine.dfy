/** The animation's mutable state and the code that changes it in place:
    the grid and its snapshot (index.js:30-37), `neighbours` (index.js:40-53),
    `gameOfLife` (index.js:56-71), the effect pass of `draw`
    (index.js:94-138) and the sampling and snapshot loops of `img.onload`
    (index.js:158-189). Every `Math.random()` call reads the next value of
    the stream `random`; `drawn` counts the values read so far. */
module Animation {
  import opened Toroid
  import opened Board
  import opened Rules
  import opened Sampler

  /** The contents of a grid-sized array, column by column. */
  ghost function Contents(a: array2<int>): (g: Grid)
    reads a
    requires a.Length0 == GridWidth && a.Length1 == GridHeight
    ensures WellFormed(g)
    ensures forall i, j :: InGrid(i, j) ==> g[i][j] == a[i, j]
  {
    seq(GridWidth, i requires 0 <= i < GridWidth reads a =>
      seq(GridHeight, j requires 0 <= j < GridHeight reads a => a[i, j]))
  }

  class Engine {
    /** `grid`: the cells drawn on screen. */
    const grid: array2<int>
    /** `gridBuff`: the snapshot of the sampled logo. */
    const gridBuff: array2<int>
    /** The successive results of `Math.random()`. */
    const random: nat -> Draw
    /** How many of them have been consumed. */
    var drawn: nat

    /** Both arrays are 30 x 30 (array dimensions never change). */
    predicate Shaped() {
      grid.Length0 == GridWidth && grid.Length1 == GridHeight &&
      gridBuff.Length0 == GridWidth && gridBuff.Length1 == GridHeight
    }

    /** The arrays are distinct and every cell of either is background,
        foreground or far foreground. */
    ghost predicate Valid()
      reads grid, gridBuff
    {
      Shaped() && grid != gridBuff &&
      (forall i, j :: InGrid(i, j) ==> 0 <= grid[i, j] <= 2) &&
      (forall i, j :: InGrid(i, j) ==> 0 <= gridBuff[i, j] <= 2)
    }

    ghost function Cells(): (g: Grid)
      reads grid
      requires Shaped()
      ensures WellFormed(g)
    {
      Contents(grid)
    }

    ghost function Snapshot(): (g: Grid)
      reads gridBuff
      requires Shaped()
      ensures WellFormed(g)
    {
      Contents(gridBuff)
    }

    ghost function Now(): (s: State)
      reads this, grid
      requires Shaped()
      ensures WellFormed(s.cells)
    {
      State(Cells(), drawn)
    }

    /** The initial fill (index.js:32-37): each cell, column by column,
        draws once and is background below one half, foreground otherwise.
        The snapshot is all background until an image is sampled. */
    constructor (random: nat -> Draw)
      ensures Valid() && fresh(grid) && fresh(gridBuff)
      ensures this.random == random && drawn == GridWidth * GridHeight
      ensures forall i, j :: InGrid(i, j) ==>
        grid[i, j] == (if random(i * GridHeight + j) < 0.5 then 0 else 1)
      ensures forall i, j :: InGrid(i, j) ==> gridBuff[i, j] == 0
    {
      grid := new int[GridWidth, GridHeight]((i, j) => 0);
      gridBuff := new int[GridWidth, GridHeight]((i, j) => 0);
      this.random := random;
      drawn := 0;
      new;
      var i := 0;
      while i < GridWidth
        invariant 0 <= i <= GridWidth && drawn == i * GridHeight
        invariant forall a, b :: InGrid(a, b) ==> gridBuff[a, b] == 0
        invariant forall a, b :: 0 <= a < i && 0 <= b < GridHeight ==>
          grid[a, b] == (if random(a * GridHeight + b) < 0.5 then 0 else 1)
        invariant forall a, b :: i <= a < GridWidth && 0 <= b < GridHeight ==> grid[a, b] == 0
      {
        var j := 0;
        while j < GridHeight
          invariant 0 <= j <= GridHeight && drawn == i * GridHeight + j
          invariant forall a, b :: InGrid(a, b) ==> gridBuff[a, b] == 0
          invariant forall a, b :: 0 <= a < i && 0 <= b < GridHeight ==>
            grid[a, b] == (if random(a * GridHeight + b) < 0.5 then 0 else 1)
          invariant forall b :: 0 <= b < j ==>
            grid[i, b] == (if random(i * GridHeight + b) < 0.5 then 0 else 1)
          invariant forall a, b :: (i < a < GridWidth || (a == i && j <= b)) && 0 <= b < GridHeight ==>
            grid[a, b] == 0
        {
          var r := Random();
          grid[i, j] := if r < 0.5 then 0 else 1;
          j := j + 1;
        }
        i := i + 1;
      }
    }

    /** `Math.random()`: the next value of the stream. */
    method Random() returns (r: Draw)
      modifies this`drawn
      ensures r == random(old(drawn)) && drawn == old(drawn) + 1
    {
      r := random(drawn);
      drawn := drawn + 1;
    }

    /** `neighbours(grid, x, y, f)`: scans the 3 x 3 block around `(x, y)`,
        skipping the centre, wrapping both coordinates, and counts the
        values that satisfy `f`. */
    method Neighbours(x: int, y: int, f: int -> bool) returns (nc: nat)
      requires Valid()
      ensures nc == CountNeighbours(Cells(), x, y, f) && nc <= 8
    {
      ghost var g := Cells();
      nc := 0;
      var xx := -1;
      while xx < 2
        invariant -1 <= xx <= 2
        invariant nc == CountOver(g, x, y, f, Offsets[..Scanned(xx, -1)])
      {
        var yy := -1;
        while yy < 2
          invariant -1 <= xx <= 1 && -1 <= yy <= 2
          invariant nc == CountOver(g, x, y, f, Offsets[..Scanned(xx, yy)])
        {
          ScanStep(g, x, y, f, xx, yy);
          if xx != 0 || yy != 0 {
            var nx := Mod(x + xx, GridWidth);
            var ny := Mod(y + yy, GridHeight);
            assert grid[nx, ny] == g[nx][ny];
            nc := nc + if f(grid[nx, ny]) then 1 else 0;
          }
          yy := yy + 1;
        }
        xx := xx + 1;
      }
      assert Offsets[..Scanned(2, -1)] == Offsets;
    }

    /** `gameOfLife(grid, x, y, chance, doDie, doBirth)`. */
    method GameOfLife(x: int, y: int, chance: real, doDie: bool, doBirth: bool)
      requires Valid() && InGrid(x, y)
      modifies this`drawn, grid
      ensures Valid()
      ensures Now() == Rules.GameOfLife(old(Now()), x, y, chance, doDie, doBirth, random)
    {
      ghost var s := Now();
      var alive := grid[x, y] > 0;
      var nc := Neighbours(x, y, IsAlive);
      var r := Random();
      if r < chance {
        if alive && nc < 2 {
          if doDie {
            grid[x, y] := 0;
          }
        } else if alive && nc > 3 {
          if doDie {
            grid[x, y] := 0;
          }
        } else if !alive && nc == 3 {
          if doBirth {
            grid[x, y] := 1;
          }
        }
      }
      GridExt(Cells(), Rules.GameOfLife(s, x, y, chance, doDie, doBirth, random).cells);
    }

    /** "Fill w/ white" at cell `(i, j)`. */
    method FloodWhite(i: int, j: int)
      requires Valid() && InGrid(i, j)
      modifies this`drawn, grid
      ensures Valid()
      ensures Now() == Rules.FloodWhite(old(Now()), i, j, random)
    {
      ghost var s := Now();
      if grid[i, j] != 1 {
        var r := Random();
        if r < 0.3 {
          grid[i, j] := 1;
        }
      }
      GridExt(Cells(), Rules.FloodWhite(s, i, j, random).cells);
    }

    /** "Spawn bg in the center". */
    method SeedCentre()
      requires Valid()
      modifies grid
      ensures Valid()
      ensures Now() == Rules.SeedCentre(old(Now()))
    {
      ghost var s := Now();
      grid[GridWidth / 2, GridHeight / 2] := 0;
      GridExt(Cells(), Rules.SeedCentre(s).cells);
    }

    /** "Grow background back" at cell `(i, j)`. */
    method RegrowBackground(i: int, j: int)
      requires Valid() && InGrid(i, j)
      modifies this`drawn, grid
      ensures Valid()
      ensures Now() == Rules.RegrowBackground(old(Now()), i, j, random)
    {
      ghost var s := Now();
      var nc := Neighbours(i, j, IsBackground);
      var r := Random();
      if r < 0.15 * (nc as real) {
        grid[i, j] := 0;
      }
      GridExt(Cells(), Rules.RegrowBackground(s, i, j, random).cells);
    }

    /** "Grow the logo back" at cell `(i, j)`; the draw is made only when
        the snapshot cell is not background. */
    method RegrowLogo(i: int, j: int)
      requires Valid() && InGrid(i, j)
      modifies this`drawn, grid
      ensures Valid()
      ensures Now() == Rules.RegrowLogo(old(Now()), Snapshot(), i, j, random)
    {
      ghost var s := Now();
      var nc := Neighbours(i, j, IsAlive);
      if gridBuff[i, j] > 0 {
        var r := Random();
        if r < 0.1 * ((1 + nc) as real) {
          grid[i, j] := gridBuff[i, j];
        }
      }
      GridExt(Cells(), Rules.RegrowLogo(s, Snapshot(), i, j, random).cells);
    }

    /** One turn of the effect loop of index.js:94-138 at cell `(i, j)`. */
    method EffectAt(i: int, j: int, t: int)
      requires Valid() && InGrid(i, j)
      modifies this`drawn, grid
      ensures Valid()
      ensures Now() == CellEffect(old(Now()), Snapshot(), i, j, t, random)
    {
      if t > StartDelay && t < 20 {
        // slow life window
        GameOfLife(i, j, 0.1, true, true);
      }
      if t > 20 && t < 40 {
        // faster life window
        GameOfLife(i, j, 0.3, true, true);
      }
      if t > 40 && t < 90 {
        // filling window: both rules, then birth only
        GameOfLife(i, j, 0.3, true, true);
        GameOfLife(i, j, 0.7, false, true);
      }
      if t > 90 && t < 110 {
        FloodWhite(i, j);
      }
      if t == 111 {
        SeedCentre();
      }
      if t > 110 && t < 135 {
        RegrowBackground(i, j);
      }
      if t > 135 {
        RegrowLogo(i, j);
      }
    }

    /** The effect pass of frame `t`: every cell, column by column, in place. */
    method Step(t: int)
      requires Valid()
      modifies this`drawn, grid
      ensures Valid()
      ensures Now() == Rules.Step(old(Now()), Snapshot(), t, random)
    {
      ghost var s := Now();
      var i := 0;
      TurnOrder(0, 0);
      while i < GridWidth
        invariant 0 <= i <= GridWidth && Valid()
        invariant Now() == Pass(s, Snapshot(), t, random, Turn(i, 0))
      {
        StepColumn(i, t, s);
        i := i + 1;
      }
    }

    /** The inner loop of the effect pass: column `i`, row by row. */
    method StepColumn(i: int, t: int, ghost s: State)
      requires Valid() && 0 <= i < GridWidth && WellFormed(s.cells)
      requires Now() == Pass(s, Snapshot(), t, random, Turn(i, 0))
      modifies this`drawn, grid
      ensures Valid()
      ensures Now() == Pass(s, Snapshot(), t, random, Turn(i + 1, 0))
    {
      ghost var buff := Snapshot();
      var j := 0;
      TurnOrder(i, 0);
      while j < GridHeight
        invariant 0 <= j <= GridHeight && Valid() && Snapshot() == buff
        invariant Now() == Pass(s, buff, t, random, Turn(i, j))
      {
        TurnOrder(i, j);
        PassNext(s, buff, t, random, Turn(i, j));
        EffectAt(i, j, t);
        j := j + 1;
      }
      TurnOrder(i, GridHeight);
    }

    /** `img.onload` after the pixel data is read: every cell takes the
        class of its centre pixel, then the snapshot copies the grid. */
    method LoadImage(pixData: seq<Byte>)
      requires Valid() && IsPixelBuffer(pixData)
      modifies grid, gridBuff
      ensures Valid()
      ensures Cells() == Sample(pixData) && Snapshot() == Cells()
    {
      var i := 0;
      while i < GridWidth
        invariant 0 <= i <= GridWidth && Valid()
        invariant forall a, b :: 0 <= a < i && 0 <= b < GridHeight ==> grid[a, b] == SampleCell(pixData, a, b)
      {
        var j := 0;
        while j < GridHeight
          invariant 0 <= j <= GridHeight && Valid()
          invariant forall a, b :: 0 <= a < i && 0 <= b < GridHeight ==> grid[a, b] == SampleCell(pixData, a, b)
          invariant forall b :: 0 <= b < j ==> grid[i, b] == SampleCell(pixData, i, b)
        {
          var cx := CentreX(i);
          var cy := CentreY(j);
          var offset := PixelOffset(cx, cy);
          var pix := [pixData[offset], pixData[offset + 1], pixData[offset + 2], pixData[offset + 3]];
          // background colour?
          if pix[0] == 0xb2 && pix[1] == 0x22 && pix[2] == 0x22 {
            grid[i, j] := 0;
          } else {
            if pix[0] == 0xd8 && pix[1] == 0x90 && pix[2] == 0x90 {
              grid[i, j] := 2;
            } else {
              grid[i, j] := 1;
            }
          }
          j := j + 1;
        }
        i := i + 1;
      }
      // snapshot copy of the sampled grid
      i := 0;
      while i < GridWidth
        invariant 0 <= i <= GridWidth && Valid()
        invariant forall a, b :: InGrid(a, b) ==> grid[a, b] == SampleCell(pixData, a, b)
        invariant forall a, b :: 0 <= a < i && 0 <= b < GridHeight ==> gridBuff[a, b] == grid[a, b]
      {
        var j := 0;
        while j < GridHeight
          invariant 0 <= j <= GridHeight && Valid()
          invariant forall a, b :: InGrid(a, b) ==> grid[a, b] == SampleCell(pixData, a, b)
          invariant forall a, b :: 0 <= a < i && 0 <= b < GridHeight ==> gridBuff[a, b] == grid[a, b]
          invariant forall b :: 0 <= b < j ==> gridBuff[i, b] == grid[i, b]
        {
          gridBuff[i, j] := grid[i, j];
          j := j + 1;
        }
        i := i + 1;
      }
      GridExt(Cells(), Sample(pixData));
      GridExt(Snapshot(), Cells());
    }
  }

  /** How many of the eight offsets the scan of `neighbours` has passed when
      it reaches `(xx, yy)` (`yy == 2` stands for the end of column `xx`). */
  function Scanned(xx: int, yy: int): (k: int)
    requires (-1 <= xx <= 1 && -1 <= yy <= 2) || (xx == 2 && yy == -1)
    ensures 0 <= k <= 8
  {
    var p := 3 * (xx + 1) + (yy + 1);
    if p <= 4 then p else p - 1
  }

  /** The scan meets the offsets in the order they are listed: moving from
      `(xx, yy)` to `(xx, yy + 1)` counts the neighbour at `(xx, yy)`, except
      at the centre. */
  lemma ScanStep(g: Grid, x: int, y: int, f: int -> bool, xx: int, yy: int)
    requires WellFormed(g) && -1 <= xx <= 1 && -1 <= yy <= 1
    ensures var p := Wrapped(x, y, (xx, yy));
      CountOver(g, x, y, f, Offsets[..Scanned(xx, yy + 1)]) ==
      CountOver(g, x, y, f, Offsets[..Scanned(xx, yy)]) +
      (if (xx != 0 || yy != 0) && f(g[p.0][p.1]) then 1 else 0)
  {
    if xx != 0 || yy != 0 {
      assert Offsets[Scanned(xx, yy)] == (xx, yy);
      CountOverNext(g, x, y, f, Scanned(xx, yy));
    }
  }
}
