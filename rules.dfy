/** The per-frame effect pass of `draw` (index.js:94-138) as a function of
    the grid, the snapshot, the frame counter `t` and the stream of values
    `Math.random()` returns. A `State` pairs the grid with the number of
    random values consumed so far, so a draw that the source makes only
    conditionally (index.js:115-116, and the `&&` at index.js:134) is
    consumed only when the source reaches it. */
module Rules {
  import opened Board

  const StartDelay: int := 5

  /** A value `Math.random()` can return. */
  type Draw = r: real | 0.0 <= r < 1.0

  datatype State = State(cells: Grid, drawn: nat)

  /** The default predicate of `neighbours`, `v => v > 0`: on cell values
      (never negative) a cell is alive exactly when it is not background. */
  predicate IsAlive(v: int): (alive: bool)
    ensures 0 <= v ==> (alive <==> v != 0)
  {
    v > 0
  }

  /** The predicate `v => v == 0` of index.js:126: a background cell is
      never alive. */
  predicate IsBackground(v: int): (bg: bool)
    ensures bg ==> !IsAlive(v)
  {
    v == 0
  }

  /** The value `gameOfLife` leaves in a cell of value `v` with `nc` living
      neighbours once its random trigger has fired (index.js:60-69): Conway's
      death and birth, each switched on or off by its flag. */
  function LifeRule(v: int, nc: nat, doDie: bool, doBirth: bool): (r: int)
    ensures IsAlive(v) && (nc < 2 || nc > 3) && doDie ==> r == 0
    ensures !IsAlive(v) && nc == 3 && doBirth ==> r == 1
    ensures r != v ==>
      (IsAlive(v) && (nc < 2 || nc > 3) && doDie && r == 0) ||
      (!IsAlive(v) && nc == 3 && doBirth && r == 1)
  {
    if IsAlive(v) && nc < 2 then (if doDie then 0 else v)
    else if IsAlive(v) && nc > 3 then (if doDie then 0 else v)
    else if !IsAlive(v) && nc == 3 then (if doBirth then 1 else v)
    else v
  }

  /** `gameOfLife(grid, x, y, chance, doDie, doBirth)` (index.js:56-71): one
      draw, compared with `chance`, gates the life-rule at `(x, y)`. */
  function GameOfLife(s: State, x: int, y: int, chance: real, doDie: bool, doBirth: bool,
                      random: nat -> Draw): (r: State)
    requires WellFormed(s.cells) && InGrid(x, y)
    ensures WellFormed(r.cells) && r.drawn == s.drawn + 1
    ensures AgreeExcept(s.cells, r.cells, x, y)
    ensures random(s.drawn) >= chance ==> r.cells == s.cells
    ensures random(s.drawn) < chance ==>
      r.cells[x][y] == LifeRule(s.cells[x][y], CountNeighbours(s.cells, x, y, IsAlive), doDie, doBirth)
  {
    var nc := CountNeighbours(s.cells, x, y, IsAlive);
    if random(s.drawn) < chance then
      State(Set(s.cells, x, y, LifeRule(s.cells[x][y], nc, doDie, doBirth)), s.drawn + 1)
    else
      State(s.cells, s.drawn + 1)
  }

  /** "Fill w/ white" (index.js:115-118): a cell that is not white draws
      once and turns white below 0.3; a white cell draws nothing. */
  function FloodWhite(s: State, x: int, y: int, random: nat -> Draw): (r: State)
    requires WellFormed(s.cells) && InGrid(x, y)
    ensures WellFormed(r.cells) && AgreeExcept(s.cells, r.cells, x, y)
    ensures r.cells[x][y] == s.cells[x][y] || r.cells[x][y] == 1
    ensures s.cells[x][y] != 1 ==> (r.cells[x][y] == 1 <==> random(s.drawn) < 0.3)
    ensures r.drawn == if s.cells[x][y] != 1 then s.drawn + 1 else s.drawn
  {
    if s.cells[x][y] != 1 then
      State(if random(s.drawn) < 0.3 then Set(s.cells, x, y, 1) else s.cells, s.drawn + 1)
    else
      s
  }

  /** "Spawn bg in the center" (index.js:122): the cell
      `(floor(30/2), floor(30/2))` becomes background. */
  function SeedCentre(s: State): (r: State)
    requires WellFormed(s.cells)
    ensures WellFormed(r.cells) && r.drawn == s.drawn
    ensures r.cells[GridWidth / 2][GridHeight / 2] == 0
    ensures AgreeExcept(s.cells, r.cells, GridWidth / 2, GridHeight / 2)
  {
    State(Set(s.cells, GridWidth / 2, GridHeight / 2, 0), s.drawn)
  }

  /** "Grow background back" (index.js:126-129): one draw, compared with
      0.15 times the number of background neighbours. */
  function RegrowBackground(s: State, x: int, y: int, random: nat -> Draw): (r: State)
    requires WellFormed(s.cells) && InGrid(x, y)
    ensures WellFormed(r.cells) && AgreeExcept(s.cells, r.cells, x, y) && r.drawn == s.drawn + 1
    ensures r.cells[x][y] == s.cells[x][y] || r.cells[x][y] == 0
    ensures CountNeighbours(s.cells, x, y, IsBackground) == 0 ==> r.cells == s.cells
    ensures CountNeighbours(s.cells, x, y, IsBackground) >= 7 ==> r.cells[x][y] == 0
    ensures s.cells[x][y] != 0 ==>
      (r.cells[x][y] == 0 <==> random(s.drawn) < 0.15 * (CountNeighbours(s.cells, x, y, IsBackground) as real))
    ensures random(s.drawn) >= 0.15 * (CountNeighbours(s.cells, x, y, IsBackground) as real) ==> r.cells == s.cells
  {
    var nc := CountNeighbours(s.cells, x, y, IsBackground);
    State(if random(s.drawn) < 0.15 * (nc as real) then Set(s.cells, x, y, 0) else s.cells, s.drawn + 1)
  }

  /** "Grow the logo back" (index.js:133-135): only where the snapshot is
      not background, one draw compared with 0.1 times one more than the
      number of living neighbours restores the snapshot's value. */
  function RegrowLogo(s: State, buff: Grid, x: int, y: int, random: nat -> Draw): (r: State)
    requires WellFormed(s.cells) && WellFormed(buff) && InGrid(x, y)
    ensures WellFormed(r.cells) && AgreeExcept(s.cells, r.cells, x, y)
    ensures r.cells[x][y] == s.cells[x][y] || (buff[x][y] > 0 && r.cells[x][y] == buff[x][y])
    ensures r.drawn == if buff[x][y] > 0 then s.drawn + 1 else s.drawn
    ensures buff[x][y] > 0 && random(s.drawn) < 0.1 * ((1 + CountNeighbours(s.cells, x, y, IsAlive)) as real) ==>
      r.cells[x][y] == buff[x][y]
    ensures !(buff[x][y] > 0 && random(s.drawn) < 0.1 * ((1 + CountNeighbours(s.cells, x, y, IsAlive)) as real)) ==>
      r.cells == s.cells
  {
    var nc := CountNeighbours(s.cells, x, y, IsAlive);
    if buff[x][y] > 0 then
      State(if random(s.drawn) < 0.1 * ((1 + nc) as real) then Set(s.cells, x, y, buff[x][y]) else s.cells,
            s.drawn + 1)
    else
      s
  }

  /** The body of the cell loop of index.js:94-138 at cell `(x, y)`: the
      effects whose time window contains `t`, in the source's order, each
      seeing the writes of the ones before it. */
  function CellEffect(s: State, buff: Grid, x: int, y: int, t: int, random: nat -> Draw): (r: State)
    requires WellFormed(s.cells) && WellFormed(buff) && InGrid(x, y)
    ensures WellFormed(r.cells) && s.drawn <= r.drawn <= s.drawn + 2
  {
    var s1 := if StartDelay < t < 20 then GameOfLife(s, x, y, 0.1, true, true, random) else s;
    var s2 := if 20 < t < 40 then GameOfLife(s1, x, y, 0.3, true, true, random) else s1;
    var s3 :=
      if 40 < t < 90 then
        GameOfLife(GameOfLife(s2, x, y, 0.3, true, true, random), x, y, 0.7, false, true, random)
      else s2;
    var s4 := if 90 < t < 110 then FloodWhite(s3, x, y, random) else s3;
    var s5 := if t == 111 then SeedCentre(s4) else s4;
    var s6 := if 110 < t < 135 then RegrowBackground(s5, x, y, random) else s5;
    if t > 135 then RegrowLogo(s6, buff, x, y, random) else s6
  }

  /** The cell whose turn is `n`-th in the scan: `i` outer, `j` inner. */
  function CellAt(n: int): (p: (int, int))
    requires 0 <= n < GridWidth * GridHeight
    ensures InGrid(p.0, p.1) && p.0 * GridHeight + p.1 == n
  {
    (n / GridHeight, n % GridHeight)
  }

  /** The turn of cell `(i, j)` in the scan. */
  function Turn(i: int, j: int): int {
    i * GridHeight + j
  }

  /** Turns number the cells consecutively, column by column. */
  lemma TurnOrder(i: int, j: int)
    requires 0 <= i <= GridWidth && 0 <= j <= GridHeight
    ensures 0 <= Turn(i, j) && (i < GridWidth ==> Turn(i, j) <= GridWidth * GridHeight)
    ensures Turn(0, 0) == 0 && Turn(GridWidth, 0) == GridWidth * GridHeight
    ensures i < GridWidth && j < GridHeight ==>
      Turn(i, j) < GridWidth * GridHeight && CellAt(Turn(i, j)) == (i, j) && Turn(i, j + 1) == Turn(i, j) + 1
    ensures Turn(i, GridHeight) == Turn(i + 1, 0)
  {
    assert GridHeight == 30 && GridWidth == 30;
  }

  /** The state after the first `n` cells of the scan have been processed,
      in place: each cell sees the values its predecessors wrote. At most
      two random values are drawn per cell. */
  function Pass(s: State, buff: Grid, t: int, random: nat -> Draw, n: nat): (r: State)
    requires WellFormed(s.cells) && WellFormed(buff) && n <= GridWidth * GridHeight
    ensures WellFormed(r.cells) && s.drawn <= r.drawn <= s.drawn + 2 * n
    decreases n
  {
    if n == 0 then s
    else
      var p := CellAt(n - 1);
      CellEffect(Pass(s, buff, t, random, n - 1), buff, p.0, p.1, t, random)
  }

  /** The scan processes the cell at turn `n` after the `n` before it. */
  lemma PassNext(s: State, buff: Grid, t: int, random: nat -> Draw, n: nat)
    requires WellFormed(s.cells) && WellFormed(buff) && n < GridWidth * GridHeight
    ensures Pass(s, buff, t, random, n + 1) ==
      CellEffect(Pass(s, buff, t, random, n), buff, CellAt(n).0, CellAt(n).1, t, random)
  {
  }

  /** One frame: the whole 30 x 30 scan, drawing at most two random
      values per cell. */
  function Step(s: State, buff: Grid, t: int, random: nat -> Draw): (r: State)
    requires WellFormed(s.cells) && WellFormed(buff)
    ensures WellFormed(r.cells) && s.drawn <= r.drawn <= s.drawn + 2 * GridWidth * GridHeight
  {
    Pass(s, buff, t, random, GridWidth * GridHeight)
  }

  /* ---------------------------------------------------------------------- */
  /* What a frame may do to each cell, by time window.                      */

  /** Every cell changed from `g` to `h` now holds `v`. */
  ghost predicate OnlyChangesTo(g: Grid, h: Grid, v: int)
    requires WellFormed(g) && WellFormed(h)
  {
    forall x, y :: InGrid(x, y) ==> h[x][y] == g[x][y] || h[x][y] == v
  }

  /** Every cell changed from `g` to `h` was born (became 1) or died
      (a living cell became 0). */
  ghost predicate LifeChanges(g: Grid, h: Grid)
    requires WellFormed(g) && WellFormed(h)
  {
    forall x, y :: InGrid(x, y) ==>
      h[x][y] == g[x][y] || h[x][y] == 1 || (h[x][y] == 0 && IsAlive(g[x][y]))
  }

  /** Every cell changed from `g` to `h` took its snapshot value, and that
      value is not background. */
  ghost predicate RestoresFrom(g: Grid, h: Grid, buff: Grid)
    requires WellFormed(g) && WellFormed(h) && WellFormed(buff)
  {
    forall x, y :: InGrid(x, y) ==> h[x][y] == g[x][y] || (buff[x][y] > 0 && h[x][y] == buff[x][y])
  }

  /** Cell values stay in {0, 1, 2} through a frame when the snapshot's do. */
  lemma {:induction false} PassKeepsValues(s: State, buff: Grid, t: int, random: nat -> Draw, n: nat)
    requires ValuesOk(s.cells) && ValuesOk(buff) && n <= GridWidth * GridHeight
    ensures ValuesOk(Pass(s, buff, t, random, n).cells)
  {
    if n > 0 {
      PassKeepsValues(s, buff, t, random, n - 1);
      var p := CellAt(n - 1);
      CellEffectKeepsValues(Pass(s, buff, t, random, n - 1), buff, p.0, p.1, t, random);
    }
  }

  lemma CellEffectKeepsValues(s: State, buff: Grid, x: int, y: int, t: int, random: nat -> Draw)
    requires ValuesOk(s.cells) && ValuesOk(buff) && InGrid(x, y)
    ensures ValuesOk(CellEffect(s, buff, x, y, t, random).cells)
  {
    var s1 := if StartDelay < t < 20 then GameOfLife(s, x, y, 0.1, true, true, random) else s;
    assert ValuesOk(s1.cells);
    var s2 := if 20 < t < 40 then GameOfLife(s1, x, y, 0.3, true, true, random) else s1;
    assert ValuesOk(s2.cells);
    var s3a := if 40 < t < 90 then GameOfLife(s2, x, y, 0.3, true, true, random) else s2;
    assert ValuesOk(s3a.cells);
    var s3 := if 40 < t < 90 then GameOfLife(s3a, x, y, 0.7, false, true, random) else s2;
    assert ValuesOk(s3.cells);
    var s4 := if 90 < t < 110 then FloodWhite(s3, x, y, random) else s3;
    assert ValuesOk(s4.cells);
    var s5 := if t == 111 then SeedCentre(s4) else s4;
    assert ValuesOk(s5.cells);
    var s6 := if 110 < t < 135 then RegrowBackground(s5, x, y, random) else s5;
    assert ValuesOk(s6.cells);
  }

  /** Outside every time window (`t <= 5`, and the window edges 20, 40, 90,
      110 and 135) a frame changes nothing and draws nothing. */
  lemma {:induction false} IdleFrame(s: State, buff: Grid, t: int, random: nat -> Draw, n: nat)
    requires WellFormed(s.cells) && WellFormed(buff) && n <= GridWidth * GridHeight
    requires t <= StartDelay || t == 20 || t == 40 || t == 90 || t == 110 || t == 135
    ensures Pass(s, buff, t, random, n) == s
  {
    if n > 0 {
      IdleFrame(s, buff, t, random, n - 1);
    }
  }

  /** During the three life windows (5 < t < 90) cells only die or are born
      (a far-foreground cell may also die and be born again as foreground
      in the two life-rules of the filling window). */
  lemma {:induction false} LifeFrame(s: State, buff: Grid, t: int, random: nat -> Draw, n: nat)
    requires ValuesOk(s.cells) && WellFormed(buff) && n <= GridWidth * GridHeight
    requires StartDelay < t < 90
    ensures LifeChanges(s.cells, Pass(s, buff, t, random, n).cells)
  {
    if n > 0 {
      LifeFrame(s, buff, t, random, n - 1);
      var p := CellAt(n - 1);
      var prev := Pass(s, buff, t, random, n - 1);
      assert ValuesOk(prev.cells);
      LifeCell(prev, buff, p.0, p.1, t, random);
      LifeChangesCompose(s.cells, prev.cells, Pass(s, buff, t, random, n).cells);
    }
  }

  /** In the life windows one turn of the scan only kills or gives birth. */
  lemma LifeCell(s: State, buff: Grid, x: int, y: int, t: int, random: nat -> Draw)
    requires ValuesOk(s.cells) && WellFormed(buff) && InGrid(x, y)
    requires StartDelay < t < 90
    ensures LifeChanges(s.cells, CellEffect(s, buff, x, y, t, random).cells)
  {
    var s1 := if StartDelay < t < 20 then GameOfLife(s, x, y, 0.1, true, true, random) else s;
    var s2 := if 20 < t < 40 then GameOfLife(s1, x, y, 0.3, true, true, random) else s1;
    var s3a := if 40 < t < 90 then GameOfLife(s2, x, y, 0.3, true, true, random) else s2;
    var s3 := if 40 < t < 90 then GameOfLife(s3a, x, y, 0.7, false, true, random) else s2;
    assert CellEffect(s, buff, x, y, t, random) == s3;
    assert LifeChanges(s1.cells, s2.cells);
    LifeChangesCompose(s.cells, s1.cells, s2.cells);
    assert LifeChanges(s2.cells, s3a.cells);
    LifeChangesCompose(s.cells, s2.cells, s3a.cells);
    assert LifeChanges(s3a.cells, s3.cells);
    LifeChangesCompose(s.cells, s3a.cells, s3.cells);
  }

  /** Births and deaths compose: a cell born and then killed is back to
      background, one killed and then born is foreground. */
  lemma LifeChangesCompose(g: Grid, h: Grid, k: Grid)
    requires ValuesOk(g) && WellFormed(h) && WellFormed(k)
    requires LifeChanges(g, h) && LifeChanges(h, k)
    ensures LifeChanges(g, k)
  {
  }

  /** During "fill w/ white" (90 < t < 110) cells only turn white. */
  lemma {:induction false} FloodFrame(s: State, buff: Grid, t: int, random: nat -> Draw, n: nat)
    requires WellFormed(s.cells) && WellFormed(buff) && n <= GridWidth * GridHeight
    requires 90 < t < 110
    ensures OnlyChangesTo(s.cells, Pass(s, buff, t, random, n).cells, 1)
  {
    if n > 0 {
      FloodFrame(s, buff, t, random, n - 1);
      var p := CellAt(n - 1);
      var prev := Pass(s, buff, t, random, n - 1);
      assert Pass(s, buff, t, random, n) == FloodWhite(prev, p.0, p.1, random);
      OnlyChangesToCompose(s.cells, prev.cells, FloodWhite(prev, p.0, p.1, random).cells, 1);
    }
  }

  /** During background regrowth (110 < t < 135, the seed frame 111
      included) cells only turn to background. */
  lemma {:induction false} RegrowBackgroundFrame(s: State, buff: Grid, t: int, random: nat -> Draw, n: nat)
    requires WellFormed(s.cells) && WellFormed(buff) && n <= GridWidth * GridHeight
    requires 110 < t < 135
    ensures OnlyChangesTo(s.cells, Pass(s, buff, t, random, n).cells, 0)
  {
    if n > 0 {
      RegrowBackgroundFrame(s, buff, t, random, n - 1);
      var p := CellAt(n - 1);
      var prev := Pass(s, buff, t, random, n - 1);
      var s5 := if t == 111 then SeedCentre(prev) else prev;
      var s6 := RegrowBackground(s5, p.0, p.1, random);
      assert Pass(s, buff, t, random, n) == s6;
      OnlyChangesToCompose(s.cells, prev.cells, s5.cells, 0);
      OnlyChangesToCompose(s.cells, s5.cells, s6.cells, 0);
    }
  }

  /** Changes to one value compose. */
  lemma OnlyChangesToCompose(g: Grid, h: Grid, k: Grid, v: int)
    requires WellFormed(g) && WellFormed(h) && WellFormed(k)
    requires OnlyChangesTo(g, h, v) && OnlyChangesTo(h, k, v)
    ensures OnlyChangesTo(g, k, v)
  {
  }

  /** At frame 111 the seed is written again at every cell of the scan, so
      the centre is background once the scan has started, whatever the
      regrowth of the same frame does. */
  lemma SeedFrame(s: State, buff: Grid, random: nat -> Draw, n: nat)
    requires WellFormed(s.cells) && WellFormed(buff) && 1 <= n <= GridWidth * GridHeight
    ensures Pass(s, buff, 111, random, n).cells[GridWidth / 2][GridHeight / 2] == 0
  {
    var p := CellAt(n - 1);
    var s5 := SeedCentre(Pass(s, buff, 111, random, n - 1));
    assert s5.cells[GridWidth / 2][GridHeight / 2] == 0;
    assert Pass(s, buff, 111, random, n) == RegrowBackground(s5, p.0, p.1, random);
  }

  /** During logo regrowth (t > 135) a cell changes only to its snapshot
      value, and only where the snapshot is not background: background
      cells of the snapshot are never touched, and a cell that already
      holds its snapshot value keeps it. */
  lemma {:induction false} RegrowLogoFrame(s: State, buff: Grid, t: int, random: nat -> Draw, n: nat)
    requires WellFormed(s.cells) && WellFormed(buff) && n <= GridWidth * GridHeight
    requires t > 135
    ensures RestoresFrom(s.cells, Pass(s, buff, t, random, n).cells, buff)
  {
    if n > 0 {
      RegrowLogoFrame(s, buff, t, random, n - 1);
    }
  }

  /** A dead cell with exactly three living neighbours is born when the
      trigger is certain (`chance` 1) and birth is on, and stays dead when
      birth is off. */
  lemma CertainBirth(s: State, x: int, y: int, random: nat -> Draw)
    requires WellFormed(s.cells) && InGrid(x, y)
    requires s.cells[x][y] == 0 && CountNeighbours(s.cells, x, y, IsAlive) == 3
    ensures GameOfLife(s, x, y, 1.0, true, true, random).cells[x][y] == 1
    ensures GameOfLife(s, x, y, 1.0, true, false, random).cells[x][y] == 0
  {
  }
}
