/** The falling-block engine of tetris/tetrisGame.ts: figures copied from a
    table of seven templates, a board of cells with one collision query, and
    the controller that spawns, drops, moves, rotates and locks figures.
    Rendering, the animation frame loop and the random choice of a template
    are outside: the caller supplies the template index. */
module TetrisGame {
  import opened Grid

  /** A shape: rows of flags, a non-zero entry being an occupied square. */
  type Matrix = seq<seq<int>>

  /** A non-empty rectangular shape: every row as long as the first, which
      is not empty (the shape's width is the length of its first row). */
  predicate IsMatrix(s: Matrix) {
    |s| > 0 && |s[0]| > 0 && forall r :: 0 <= r < |s| ==> |s[r]| == |s[0]|
  }

  /** Some square of the shape is occupied. */
  predicate HasBlock(s: Matrix) {
    exists r, c :: 0 <= r < |s| && 0 <= c < |s[r]| && s[r][c] != 0
  }

  /** A quarter turn clockwise: the result has one row per column of s. */
  function Rotated(s: Matrix): (t: Matrix)
    requires IsMatrix(s)
    ensures IsMatrix(t) && |t| == |s[0]| && |t[0]| == |s|
  {
    seq(|s[0]|, i requires 0 <= i < |s[0]| =>
      seq(|s|, j requires 0 <= j < |s| => s[|s| - 1 - j][i]))
  }

  /** The entry at row y, column x moves to row x, column h - 1 - y. */
  lemma {:induction false} RotatedMoves(s: Matrix, y: int, x: int)
    requires IsMatrix(s) && 0 <= y < |s| && 0 <= x < |s[0]|
    ensures Rotated(s)[x][|s| - 1 - y] == s[y][x]
  {
  }

  /** Two quarter turns are a half turn. */
  lemma {:induction false} RotatedTwice(s: Matrix)
    requires IsMatrix(s)
    ensures |Rotated(Rotated(s))| == |s| && |Rotated(Rotated(s))[0]| == |s[0]|
    ensures forall i, j :: 0 <= i < |s| && 0 <= j < |s[0]| ==>
      Rotated(Rotated(s))[i][j] == s[|s| - 1 - i][|s[0]| - 1 - j]
  {
    var t := Rotated(s);
    var u := Rotated(t);
    forall i, j | 0 <= i < |s| && 0 <= j < |s[0]|
      ensures u[i][j] == s[|s| - 1 - i][|s[0]| - 1 - j]
    {
      assert u[i][j] == t[|t| - 1 - j][i];
    }
  }

  /** Four quarter turns give back the shape, square or not. */
  lemma {:induction false} RotatedFourTimes(s: Matrix)
    requires IsMatrix(s)
    ensures Rotated(Rotated(Rotated(Rotated(s)))) == s
  {
    var u := Rotated(Rotated(s));
    RotatedTwice(s);
    RotatedTwice(u);
    var v := Rotated(Rotated(u));
    assert |v| == |s|;
    forall i | 0 <= i < |s| ensures v[i] == s[i] {
      assert |v[i]| == |s[i]|;
      forall j | 0 <= j < |s[i]| ensures v[i][j] == s[i][j] {
        assert v[i][j] == u[|u| - 1 - i][|u[0]| - 1 - j];
      }
    }
  }

  /** A quarter turn keeps an occupied square. */
  lemma {:induction false} RotatedHasBlock(s: Matrix)
    requires IsMatrix(s) && HasBlock(s)
    ensures HasBlock(Rotated(s))
  {
    var r, c :| 0 <= r < |s| && 0 <= c < |s[r]| && s[r][c] != 0;
    RotatedMoves(s, r, c);
    assert Rotated(s)[c][|s| - 1 - r] != 0;
  }

  datatype FigureTemplate = FigureTemplate(imageX: int, imageY: int, shape: Matrix)

  /** The seven templates; the fifth is the 4x1 bar. */
  const FIGURES: seq<FigureTemplate> := [
    FigureTemplate(0, 120, [[0, 1, 0], [0, 1, 0], [1, 1, 0]]),
    FigureTemplate(0, 96, [[0, 0, 0], [1, 1, 1], [0, 1, 0]]),
    FigureTemplate(0, 72, [[0, 1, 0], [0, 1, 0], [0, 1, 1]]),
    FigureTemplate(0, 48, [[0, 0, 0], [0, 1, 1], [1, 1, 0]]),
    FigureTemplate(0, 24, [[1], [1], [1], [1]]),
    FigureTemplate(0, 0, [[1, 1], [1, 1]]),
    FigureTemplate(0, 48, [[0, 0, 0], [1, 1, 0], [0, 1, 1]])
  ]

  /** Every template is a rectangular shape with an occupied square. */
  lemma {:induction false} FiguresWellFormed()
    ensures |FIGURES| == 7
    ensures forall t :: 0 <= t < |FIGURES| ==> IsMatrix(FIGURES[t].shape) && HasBlock(FIGURES[t].shape)
  {
    assert FIGURES[0].shape[0][1] != 0;
    assert FIGURES[1].shape[1][0] != 0;
    assert FIGURES[2].shape[0][1] != 0;
    assert FIGURES[3].shape[1][1] != 0;
    assert FIGURES[4].shape[0][0] != 0;
    assert FIGURES[5].shape[0][0] != 0;
    assert FIGURES[6].shape[1][0] != 0;
  }

  /** The vertical bar turns into a horizontal one, and back after four turns. */
  lemma {:induction false} BarRotation()
    ensures IsMatrix(FIGURES[4].shape)
    ensures Rotated(FIGURES[4].shape) == [[1, 1, 1, 1]]
    ensures Rotated(Rotated(Rotated(Rotated(FIGURES[4].shape)))) == FIGURES[4].shape
  {
    var s := FIGURES[4].shape;
    assert IsMatrix(s);
    assert Rotated(s)[0] == [1, 1, 1, 1];
    RotatedFourTimes(s);
  }

  /** Board.isValid's condition: every occupied square of s, put at column
      px + c and row py + r, lies inside the grid on an empty cell. */
  predicate Fits(g: seq<seq<Cell>>, width: int, height: int, s: Matrix, px: int, py: int)
    requires IsGrid(g, width, height)
  {
    forall r, c :: 0 <= r < |s| && 0 <= c < |s[r]| && s[r][c] != 0 ==>
      0 <= px + c < width && 0 <= py + r < height && IsEmpty(g[py + r][px + c])
  }

  /** Every occupied square of s, put at (px + c, py + r), lies inside the grid. */
  predicate InBounds(s: Matrix, px: int, py: int, width: int, height: int) {
    forall r, c :: 0 <= r < |s| && 0 <= c < |s[r]| && s[r][c] != 0 ==>
      0 <= px + c < width && 0 <= py + r < height
  }

  /** Grid cell (r, c) lies under an occupied square of s placed at (px, py). */
  predicate Covers(s: Matrix, px: int, py: int, r: int, c: int) {
    0 <= r - py < |s| && 0 <= c - px < |s[r - py]| && s[r - py][c - px] != 0
  }

  /** The grid with every cell under an occupied square of s set to `cell`. */
  function Locked(g: seq<seq<Cell>>, s: Matrix, px: int, py: int, cell: Cell): seq<seq<Cell>>
    decreases |g|
  {
    if g == [] then []
    else Locked(g[..|g| - 1], s, px, py, cell) + [LockedRow(g[|g| - 1], s, px, py, |g| - 1, cell)]
  }

  /** Row r of a grid with every cell under an occupied square of s set to `cell`. */
  function LockedRow(row: seq<Cell>, s: Matrix, px: int, py: int, r: int, cell: Cell): seq<Cell>
    decreases |row|
  {
    if row == [] then []
    else
      var last := if Covers(s, px, py, r, |row| - 1) then cell else row[|row| - 1];
      LockedRow(row[..|row| - 1], s, px, py, r, cell) + [last]
  }

  /** Cell by cell: a covered cell holds `cell`, every other cell is unchanged. */
  lemma {:induction false} LockedRowCells(row: seq<Cell>, s: Matrix, px: int, py: int, r: int, cell: Cell)
    ensures |LockedRow(row, s, px, py, r, cell)| == |row|
    ensures forall c :: 0 <= c < |row| ==>
      LockedRow(row, s, px, py, r, cell)[c] == if Covers(s, px, py, r, c) then cell else row[c]
    decreases |row|
  {
    if row != [] {
      LockedRowCells(row[..|row| - 1], s, px, py, r, cell);
    }
  }

  lemma {:induction false} LockedCells(g: seq<seq<Cell>>, s: Matrix, px: int, py: int, cell: Cell)
    ensures |Locked(g, s, px, py, cell)| == |g|
    ensures forall r :: 0 <= r < |g| ==> Locked(g, s, px, py, cell)[r] == LockedRow(g[r], s, px, py, r, cell)
    decreases |g|
  {
    if g != [] {
      LockedCells(g[..|g| - 1], s, px, py, cell);
    }
  }

  /** A placement that fits lies inside the grid and on no occupied cell;
      a shape with an occupied square that fits starts above the last row. */
  lemma {:induction false} FitsInBounds(g: seq<seq<Cell>>, width: int, height: int, s: Matrix, px: int, py: int)
    requires IsGrid(g, width, height) && Fits(g, width, height, s, px, py)
    ensures InBounds(s, px, py, width, height)
    ensures HasBlock(s) ==> py < height
  {
    if HasBlock(s) {
      var r, c :| 0 <= r < |s| && 0 <= c < |s[r]| && s[r][c] != 0;
    }
  }

  /** On an empty grid, fitting is being inside. */
  lemma {:induction false} FitsEmptyGrid(width: nat, height: nat, s: Matrix, px: int, py: int)
    ensures IsGrid(EmptyRows(height, width), width, height)
    ensures Fits(EmptyRows(height, width), width, height, s, px, py) <==> InBounds(s, px, py, width, height)
  {
  }

  /** A grid that agrees cell by cell with the locked grid is the locked grid. */
  lemma LockedFromCells(g: seq<seq<Cell>>, h: seq<seq<Cell>>, s: Matrix, px: int, py: int, cell: Cell)
    requires |h| == |g| && forall r :: 0 <= r < |g| ==> |h[r]| == |g[r]|
    requires forall r, c :: 0 <= r < |g| && 0 <= c < |g[r]| ==>
      h[r][c] == if Covers(s, px, py, r, c) then cell else g[r][c]
    ensures h == Locked(g, s, px, py, cell)
  {
    LockedCells(g, s, px, py, cell);
    forall r | 0 <= r < |g|
      ensures h[r] == Locked(g, s, px, py, cell)[r]
    {
      LockedRowCells(g[r], s, px, py, r, cell);
    }
  }

  /** Locking keeps the dimensions, and a figure with a visible tag and an
      occupied square no longer fits where it was locked. */
  lemma {:induction false} LockedOccupies(g: seq<seq<Cell>>, width: int, height: int, s: Matrix, px: int, py: int, cell: Cell)
    requires IsGrid(g, width, height) && InBounds(s, px, py, width, height)
    requires HasBlock(s) && !IsEmpty(cell)
    ensures IsGrid(Locked(g, s, px, py, cell), width, height)
    ensures !Fits(Locked(g, s, px, py, cell), width, height, s, px, py)
  {
    var l := Locked(g, s, px, py, cell);
    LockedCells(g, s, px, py, cell);
    forall r | 0 <= r < |g|
      ensures |l[r]| == width
    {
      LockedRowCells(g[r], s, px, py, r, cell);
    }
    var r, c :| 0 <= r < |s| && 0 <= c < |s[r]| && s[r][c] != 0;
    LockedRowCells(g[py + r], s, px, py, py + r, cell);
    assert Covers(s, px, py, py + r, px + c);
    assert l[py + r][px + c] == cell;
  }

  /** The shape fits at column px on every row from lo + 1 to hi. */
  predicate FitsBetween(g: seq<seq<Cell>>, width: int, height: int, s: Matrix, px: int, lo: int, hi: int)
    requires IsGrid(g, width, height)
  {
    forall py :: lo < py <= hi ==> Fits(g, width, height, s, px, py)
  }

  /** How many rows a shape placed at (px, py) can fall, one row at a time,
      before the row below no longer fits: hardDrop's distance. */
  function DropDistance(g: seq<seq<Cell>>, width: int, height: int, s: Matrix, px: int, py: int): nat
    requires IsGrid(g, width, height) && HasBlock(s)
    decreases height - py
  {
    if Fits(g, width, height, s, px, py + 1) then
      FitsInBounds(g, width, height, s, px, py + 1);
      1 + DropDistance(g, width, height, s, px, py + 1)
    else 0
  }

  /** After the drop the shape cannot fall further. */
  lemma {:induction false} DropLands(g: seq<seq<Cell>>, width: int, height: int, s: Matrix, px: int, py: int)
    requires IsGrid(g, width, height) && HasBlock(s)
    ensures !Fits(g, width, height, s, px, py + DropDistance(g, width, height, s, px, py) + 1)
    decreases height - py
  {
    if Fits(g, width, height, s, px, py + 1) {
      FitsInBounds(g, width, height, s, px, py + 1);
      DropLands(g, width, height, s, px, py + 1);
    }
  }

  /** The shape fits on every row it passes through while dropping. */
  lemma {:induction false} DropPasses(g: seq<seq<Cell>>, width: int, height: int, s: Matrix, px: int, py: int)
    requires IsGrid(g, width, height) && HasBlock(s)
    ensures FitsBetween(g, width, height, s, px, py, py + DropDistance(g, width, height, s, px, py))
    decreases height - py
  {
    if Fits(g, width, height, s, px, py + 1) {
      FitsInBounds(g, width, height, s, px, py + 1);
      var d := DropDistance(g, width, height, s, px, py + 1);
      DropPasses(g, width, height, s, px, py + 1);
      assert FitsBetween(g, width, height, s, px, py + 1, py + 1 + d);
      forall y | py < y <= py + 1 + d
        ensures Fits(g, width, height, s, px, y)
      {
        if y > py + 1 {
          assert py + 1 < y <= py + 1 + d;
        }
      }
    }
  }

  /** The drop goes as far as possible: a shape that does not fit at row
      py + d + 1 and fits on every row from py + 1 to py + d falls exactly d
      rows. */
  lemma {:induction false} DropDistanceUnique(g: seq<seq<Cell>>, width: int, height: int, s: Matrix, px: int, py: int, d: nat)
    requires IsGrid(g, width, height) && HasBlock(s)
    requires FitsBetween(g, width, height, s, px, py, py + d) && !Fits(g, width, height, s, px, py + d + 1)
    ensures DropDistance(g, width, height, s, px, py) == d
    decreases d
  {
    if d > 0 {
      assert Fits(g, width, height, s, px, py + 1);
      FitsInBounds(g, width, height, s, px, py + 1);
      DropDistanceUnique(g, width, height, s, px, py + 1, d - 1);
    }
  }

  /** The grid after figure f is locked into it and full rows are cleared:
      what an update makes of a figure that cannot fall any further. */
  function Settled(g: seq<seq<Cell>>, width: nat, f: Figure): seq<seq<Cell>> {
    Cleared(Locked(g, f.shape, f.x, f.y, Cell(f.imageX, f.imageY)), width)
  }

  /** floor(boardWidth / 2 - figureWidth / 2), the column a new figure starts at. */
  function SpawnX(boardWidth: int, figureWidth: int): (x: int)
    ensures x as real <= boardWidth as real / 2.0 - figureWidth as real / 2.0 < x as real + 1.0
  {
    var d := boardWidth - figureWidth;
    assert d == 2 * (d / 2) + d % 2;
    assert boardWidth as real / 2.0 - figureWidth as real / 2.0 == (d / 2) as real + (d % 2) as real / 2.0;
    d / 2
  }

  /** A falling piece: its own copy of a template's shape, an anchor and an
      appearance tag. The controller changes a figure's anchor and shape; a
      figure is never shared, so it is modelled as a value that the
      controller replaces. */
  datatype Figure = Figure(x: int, y: int, shape: Matrix, imageX: int, imageY: int) {

    /** A rectangular shape with an occupied square, as every template has. */
    predicate Valid() {
      IsMatrix(shape) && HasBlock(shape)
    }

    /** Where randomFigure puts a new figure on a board of the given width:
        centred horizontally, on the top row. */
    predicate AtSpawn(boardWidth: int) {
      Valid() && x == SpawnX(boardWidth, |shape[0]|) && y == 0
    }

    function Width(): int
      requires Valid()
    {
      |shape[0]|
    }

    function Height(): int
      requires Valid()
    {
      |shape|
    }

    /** A fresh matrix holding the shape turned a quarter clockwise; the
        figure itself is not changed. */
    method RotateRight() returns (out: Matrix)
      requires Valid()
      ensures out == Rotated(shape)
    {
      var h := Height();
      var w := Width();
      out := seq(w, _ => seq(h, _ => 0));
      var y := 0;
      while y < h
        invariant 0 <= y <= h
        invariant |out| == w && forall i :: 0 <= i < w ==> |out[i]| == h
        invariant forall i, j :: 0 <= i < w && 0 <= j < h ==>
          out[i][j] == if h - 1 - j < y then shape[h - 1 - j][i] else 0
      {
        var x := 0;
        while x < w
          invariant 0 <= x <= w
          invariant |out| == w && forall i :: 0 <= i < w ==> |out[i]| == h
          invariant forall i, j :: 0 <= i < w && 0 <= j < h ==>
            out[i][j] == if h - 1 - j < y || (h - 1 - j == y && i < x) then shape[h - 1 - j][i] else 0
        {
          out := out[x := out[x][h - 1 - y := shape[y][x]]];
          x := x + 1;
        }
        y := y + 1;
      }
      assert forall i :: 0 <= i < w ==> out[i] == Rotated(shape)[i];
    }
  }

  /** The Figure constructor: a copy of the template at the origin. Sequences
      are values, so later changes to the copy never reach the FIGURES table. */
  function NewFigure(imageX: int, imageY: int, template: Matrix): (f: Figure)
    ensures f.shape == template && f.x == 0 && f.y == 0
    ensures f.imageX == imageX && f.imageY == imageY
  {
    Figure(0, 0, template, imageX, imageY)
  }

  /** randomFigure with the random draw given as the template index t: a new
      figure from template t, centred on the top row. */
  function SpawnFigure(boardWidth: int, t: int): (f: Figure)
    requires 0 <= t < |FIGURES|
    ensures f.AtSpawn(boardWidth)
    ensures f.shape == FIGURES[t].shape
    ensures f.imageX == FIGURES[t].imageX && f.imageY == FIGURES[t].imageY
  {
    FiguresWellFormed();
    var template := FIGURES[t];
    var f := NewFigure(template.imageX, template.imageY, template.shape);
    f.(x := SpawnX(boardWidth, f.Width()), y := 0)
  }

  /** A fixed-size grid of cells, `height` rows of `width` cells. */
  class Board {
    const width: int
    const height: int
    var grid: seq<seq<Cell>>

    ghost predicate Valid()
      reads this
    {
      0 < width && 0 < height && IsGrid(grid, width, height)
    }

    constructor (width: int, height: int)
      requires 0 < width && 0 < height
      ensures Valid() && this.width == width && this.height == height
      ensures grid == EmptyRows(height, width)
    {
      this.width := width;
      this.height := height;
      grid := EmptyRows(height, width);
    }

    /** The single collision query: does `shape` fit with its anchor at the
        figure's position moved by (ox, oy)? */
    method IsValid(fig: Figure, ox: int, oy: int, shape: Matrix) returns (ok: bool)
      requires Valid()
      ensures ok == Fits(grid, width, height, shape, fig.x + ox, fig.y + oy)
    {
      var y := 0;
      while y < |shape|
        invariant 0 <= y <= |shape|
        invariant forall r, c :: 0 <= r < y && 0 <= c < |shape[r]| && shape[r][c] != 0 ==>
          0 <= fig.x + c + ox < width && 0 <= fig.y + r + oy < height && IsEmpty(grid[fig.y + r + oy][fig.x + c + ox])
      {
        var x := 0;
        while x < |shape[y]|
          invariant 0 <= x <= |shape[y]|
          invariant forall c :: 0 <= c < x && shape[y][c] != 0 ==>
            0 <= fig.x + c + ox < width && 0 <= fig.y + y + oy < height && IsEmpty(grid[fig.y + y + oy][fig.x + c + ox])
        {
          if shape[y][x] != 0 {
            var px := fig.x + x + ox;
            var py := fig.y + y + oy;
            if px < 0 || px >= width || py < 0 || py >= height || grid[py][px].imageX != -1 {
              return false;
            }
          }
          x := x + 1;
        }
        y := y + 1;
      }
      return true;
    }

    /** The loop of hardDrop: moves a copy of the figure down one row at a
        time while it fits one row lower, and counts the rows. */
    method Descend(fig: Figure) returns (fallen: Figure, rows: nat)
      requires Valid() && HasBlock(fig.shape)
      ensures rows == DropDistance(grid, width, height, fig.shape, fig.x, fig.y)
      ensures fallen == fig.(y := fig.y + rows)
    {
      var f := fig;
      rows := 0;
      while true
        invariant f == fig.(y := fig.y + rows)
        invariant rows + DropDistance(grid, width, height, f.shape, f.x, f.y) ==
          DropDistance(grid, width, height, fig.shape, fig.x, fig.y)
        decreases DropDistance(grid, width, height, f.shape, f.x, f.y)
      {
        var ok := IsValid(f, 0, 1, f.shape);
        if !ok {
          break;
        }
        f := f.(y := f.y + 1);
        rows := rows + 1;
      }
      fallen := f;
    }

    /** Writes the figure's tag into every cell under an occupied square;
        the caller has checked that the figure lies inside the grid. */
    method Lock(fig: Figure)
      requires Valid() && InBounds(fig.shape, fig.x, fig.y, width, height)
      modifies this
      ensures Valid()
      ensures grid == Locked(old(grid), fig.shape, fig.x, fig.y, Cell(fig.imageX, fig.imageY))
    {
      var rows := grid;
      ghost var g0 := rows;
      var s, fx, fy := fig.shape, fig.x, fig.y;
      var cell := Cell(fig.imageX, fig.imageY);
      var y := 0;
      while y < |s|
        invariant 0 <= y <= |s|
        invariant IsGrid(rows, width, height)
        invariant forall r, c :: 0 <= r < height && 0 <= c < width ==>
          rows[r][c] == if Covers(s, fx, fy, r, c) && r - fy < y then cell else g0[r][c]
      {
        var x := 0;
        while x < |s[y]|
          invariant 0 <= x <= |s[y]|
          invariant IsGrid(rows, width, height)
          invariant forall r, c :: 0 <= r < height && 0 <= c < width ==>
            rows[r][c] == if Covers(s, fx, fy, r, c) && (r - fy < y || (r - fy == y && c - fx < x)) then cell else g0[r][c]
        {
          if s[y][x] != 0 {
            rows := rows[fy + y := rows[fy + y][fx + x := cell]];
          }
          x := x + 1;
        }
        y := y + 1;
      }
      LockedFromCells(g0, rows, s, fx, fy, cell);
      grid := rows;
    }

    /** Removes every complete row, scanning from the bottom and looking at
        the same index again after a removal; an empty row is added on top for
        each. Returns the number removed. */
    method ClearLines() returns (cleared: nat)
      requires Valid()
      modifies this
      ensures Valid()
      ensures cleared == CountComplete(old(grid))
      ensures grid == Cleared(old(grid), width)
    {
      var rows, w: nat := grid, width;
      ghost var g0 := rows;
      ghost var k: nat := |rows|;
      cleared := 0;
      var y := height - 1;
      while y >= 0
        invariant Scanning(g0, w, rows, cleared, k, y)
        decreases y + 1 + k
      {
        ScanStep(g0, w, rows, cleared, k, y);
        if IsComplete(rows[y]) {
          rows := [EmptyRow(w)] + (rows[..y] + rows[y + 1..]);
          cleared := cleared + 1;
          k := k - 1;
          y := y + 1;
        } else if y >= cleared {
          k := k - 1;
        }
        y := y - 1;
      }
      ScanDone(g0, w, rows, cleared, k);
      grid := rows;
    }
  }

  /** The state of the bottom-to-top scan of ClearLines over the original
      grid g0: `cleared` empty rows on top, then the rows g0[..k] not yet
      looked at, then the incomplete rows of g0 from index k on. The scan
      index y stands at the lowest row not yet looked at. */
  ghost predicate Scanning(g0: seq<seq<Cell>>, width: int, rows: seq<seq<Cell>>, cleared: nat, k: nat, y: int) {
    0 < width && IsGrid(g0, width, |g0|) && -1 <= y < |g0| && k <= |g0| &&
    rows == EmptyRows(cleared, width) + g0[..k] + KeptFrom(g0, k) &&
    cleared == CountFrom(g0, k) &&
    (k > 0 ==> y + 1 == cleared + k) && (k == 0 ==> y + 1 <= cleared)
  }

  /** One iteration of the scan: a complete row is removed and an empty row
      added on top, with y looking at the same index again; otherwise y moves
      up. */
  lemma {:induction false} ScanStep(g0: seq<seq<Cell>>, width: int, rows: seq<seq<Cell>>, cleared: nat, k: nat, y: int)
    requires Scanning(g0, width, rows, cleared, k, y) && 0 <= y
    ensures y < |rows|
    ensures IsComplete(rows[y]) ==>
      0 < k && Scanning(g0, width, [EmptyRow(width)] + (rows[..y] + rows[y + 1..]), cleared + 1, k - 1, y)
    ensures !IsComplete(rows[y]) ==>
      (y >= cleared ==> 0 < k) && Scanning(g0, width, rows, cleared, if y >= cleared then k - 1 else k, y - 1)
  {
    ScanRow(g0, width, cleared, k, y);
    if IsComplete(rows[y]) {
      assert 0 < k && y == cleared + k - 1 && rows[y] == g0[k - 1];
      RemoveStep(g0, width, cleared, k);
      assert CountFrom(g0, k - 1) == cleared + 1;
      var next := [EmptyRow(width)] + (rows[..y] + rows[y + 1..]);
      assert next == EmptyRows(cleared + 1, width) + g0[..k - 1] + KeptFrom(g0, k - 1);
    } else if y >= cleared {
      KeepStep(g0, width, cleared, k);
    }
  }

  /** At the end of the scan the rows are the line-cleared grid. */
  lemma {:induction false} ScanDone(g0: seq<seq<Cell>>, width: int, rows: seq<seq<Cell>>, cleared: nat, k: nat)
    requires Scanning(g0, width, rows, cleared, k, -1)
    ensures rows == Cleared(g0, width) && cleared == CountComplete(g0)
    ensures IsGrid(rows, width, |g0|)
  {
    assert k == 0;
    assert rows == EmptyRows(cleared, width) + KeptFrom(g0, 0) by {
      assert g0[..0] == [];
    }
    FromStart(g0);
    ClearedShape(g0, width, |g0|);
  }

  lemma {:induction false} FromStart(g: seq<seq<Cell>>)
    ensures KeptFrom(g, 0) == Kept(g) && CountFrom(g, 0) == CountComplete(g)
  {
    KeptFromSuffix(g, 0);
    assert g[0..] == g;
  }

  /** The rows of g from index k on that are not complete: the part of the
      grid the bottom-to-top scan has already passed. */
  function KeptFrom(g: seq<seq<Cell>>, k: nat): seq<seq<Cell>>
    decreases |g| - k
  {
    if k >= |g| then [] else (if IsComplete(g[k]) then [] else [g[k]]) + KeptFrom(g, k + 1)
  }

  /** The number of complete rows of g from index k on. */
  function CountFrom(g: seq<seq<Cell>>, k: nat): nat
    decreases |g| - k
  {
    if k >= |g| then 0 else (if IsComplete(g[k]) then 1 else 0) + CountFrom(g, k + 1)
  }

  lemma {:induction false} KeptFromSuffix(g: seq<seq<Cell>>, k: nat)
    requires k <= |g|
    ensures KeptFrom(g, k) == Kept(g[k..]) && CountFrom(g, k) == CountComplete(g[k..])
    decreases |g| - k
  {
    if k < |g| {
      KeptFromSuffix(g, k + 1);
      assert g[k..][0] == g[k];
      assert g[k..][1..] == g[k + 1..];
    } else {
      assert g[k..] == [];
    }
  }

  /** The grid during the bottom-to-top scan keeps its dimensions. */
  lemma {:induction false} ScanShape(g0: seq<seq<Cell>>, width: int, cleared: nat, k: nat)
    requires 0 < width && k <= |g0| && IsGrid(g0, width, |g0|)
    requires cleared == CountFrom(g0, k)
    ensures IsGrid(EmptyRows(cleared, width) + g0[..k] + KeptFrom(g0, k), width, |g0|)
  {
    KeptFromSuffix(g0, k);
    KeptSize(g0[k..]);
    KeptRows(g0[k..], width);
    var e, a, b := EmptyRows(cleared, width), g0[..k], KeptFrom(g0, k);
    var g := e + a + b;
    forall r | 0 <= r < |g| ensures |g[r]| == width {
      if r < |e| {
        assert g[r] == e[r];
      } else if r < |e| + |a| {
        assert g[r] == g0[r - |e|];
      } else {
        assert g[r] == b[r - |e| - |a|];
      }
    }
  }

  /** The row the scan looks at: one of the empty rows added on top, which
      is never complete, or the row g0[k - 1] of the original grid. */
  lemma {:induction false} ScanRow(g0: seq<seq<Cell>>, width: int, cleared: nat, k: nat, y: int)
    requires 0 < width && k <= |g0| && IsGrid(g0, width, |g0|)
    requires cleared == CountFrom(g0, k)
    requires 0 <= y < |g0| && (k > 0 ==> y + 1 == cleared + k) && (k == 0 ==> y + 1 <= cleared)
    ensures var g := EmptyRows(cleared, width) + g0[..k] + KeptFrom(g0, k);
      IsGrid(g, width, |g0|) && (cleared <= y ==> 0 < k && g[y] == g0[k - 1]) &&
      (IsComplete(g[y]) ==> cleared <= y)
  {
    ScanShape(g0, width, cleared, k);
    var g := EmptyRows(cleared, width) + g0[..k] + KeptFrom(g0, k);
    if y < cleared {
      assert g[y] == EmptyRow(width);
      assert IsEmpty(g[y][0]);
    } else {
      ScanAt(g0, width, cleared, k);
    }
  }

  /** Where the scan stands at row cleared + k - 1: that row is g0[k - 1],
      the rows above it are the empty rows and g0[..k - 1], and the rows below
      it are already filtered. */
  lemma {:induction false} ScanAt(g0: seq<seq<Cell>>, width: nat, cleared: nat, k: nat)
    requires 0 < k <= |g0|
    ensures var g := EmptyRows(cleared, width) + g0[..k] + KeptFrom(g0, k);
      var y := cleared + k - 1;
      y < |g| && g[y] == g0[k - 1] &&
      g[..y] == EmptyRows(cleared, width) + g0[..k - 1] &&
      g[y + 1..] == KeptFrom(g0, k)
  {
    var e, a, b := EmptyRows(cleared, width), g0[..k], KeptFrom(g0, k);
    var g := e + a + b;
    var y := cleared + k - 1;
    assert g[y] == a[k - 1];
    assert g[..y] == e + a[..k - 1];
    assert a[..k - 1] == g0[..k - 1];
    assert g[y + 1..] == b;
  }

  /** Removing the complete row g0[k - 1] the scan stands at, and adding an
      empty row on top, moves the scan one row of g0 up. */
  lemma {:induction false} RemoveStep(g0: seq<seq<Cell>>, width: nat, cleared: nat, k: nat)
    requires 0 < k <= |g0| && IsComplete(g0[k - 1])
    ensures var g := EmptyRows(cleared, width) + g0[..k] + KeptFrom(g0, k);
      var y := cleared + k - 1;
      [EmptyRow(width)] + (g[..y] + g[y + 1..]) == EmptyRows(cleared + 1, width) + g0[..k - 1] + KeptFrom(g0, k - 1)
  {
    ScanAt(g0, width, cleared, k);
    EmptyRowsSucc(cleared, width);
    var e, a, b := EmptyRows(cleared, width), g0[..k - 1], KeptFrom(g0, k);
    assert KeptFrom(g0, k - 1) == b;
    Regroup([EmptyRow(width)], e, a, b);
  }

  /** Passing over the incomplete row g0[k - 1] leaves the grid as it is. */
  lemma {:induction false} KeepStep(g0: seq<seq<Cell>>, width: nat, cleared: nat, k: nat)
    requires 0 < k <= |g0| && !IsComplete(g0[k - 1])
    ensures EmptyRows(cleared, width) + g0[..k] + KeptFrom(g0, k) ==
      EmptyRows(cleared, width) + g0[..k - 1] + KeptFrom(g0, k - 1)
  {
    var e, a, b := EmptyRows(cleared, width), g0[..k - 1], KeptFrom(g0, k);
    assert KeptFrom(g0, k - 1) == [g0[k - 1]] + b;
    assert g0[..k] == a + [g0[k - 1]];
    Regroup(e, a, [g0[k - 1]], b);
  }

  lemma {:induction false} Regroup<T>(w: seq<T>, x: seq<T>, y: seq<T>, z: seq<T>)
    ensures w + (x + y + z) == (w + x) + y + z
    ensures w + (x + y) + z == w + x + (y + z)
  {
  }

  lemma {:induction false} EmptyRowsSucc(n: nat, width: nat)
    ensures [EmptyRow(width)] + EmptyRows(n, width) == EmptyRows(n + 1, width)
  {
  }

  /** Locking keeps the dimensions of a grid. */
  lemma {:induction false} LockedDims(g: seq<seq<Cell>>, width: int, height: int, s: Matrix, px: int, py: int, cell: Cell)
    requires IsGrid(g, width, height)
    ensures IsGrid(Locked(g, s, px, py, cell), width, height)
  {
    LockedCells(g, s, px, py, cell);
    forall r | 0 <= r < |g|
      ensures |Locked(g, s, px, py, cell)[r]| == width
    {
      LockedRowCells(g[r], s, px, py, r, cell);
    }
  }

  /** Milliseconds between two automatic fall steps. */
  const FALL_DELAY: int := 400
  /** Points per row of a hard drop. */
  const HARD_DROP_POINTS := 10

  /** What the controller's fields hold, as one value: the board's cells and
      size, the falling and the previewed figure, score, game-over flag and
      the time of the last fall step. The operations below are the
      controller's methods as functions of this value. */
  datatype Game = Game(grid: seq<seq<Cell>>, width: int, height: int, current: Figure, next: Figure,
                       score: int, gameOver: bool, lastUpdate: int)

  /** A board of positive size whose grid has that size. */
  predicate Shaped(s: Game) {
    0 < s.width && 0 < s.height && IsGrid(s.grid, s.width, s.height)
  }

  /** Figure f fits on the board of s with its anchor moved by (dx, dy). */
  predicate Admits(s: Game, f: Figure, dx: int, dy: int)
    requires Shaped(s)
  {
    Fits(s.grid, s.width, s.height, f.shape, f.x + dx, f.y + dy)
  }

  /** The controller invariant: a proper board, a non-negative score, two
      figures with proper shapes and, unless the game is over, a falling
      figure that fits where it is. */
  predicate Consistent(s: Game) {
    Shaped(s) && 0 <= s.score && s.current.Valid() && s.next.Valid() &&
    (!s.gameOver ==> Admits(s, s.current, 0, 0))
  }

  /** The state the constructor builds: an empty board, the first spawn
      drawn from template `first` with `upcoming` previewed, and the game over
      at once when the first figure does not fit. */
  function Initial(width: int, height: int, first: int, upcoming: int): Game
    requires 0 < width && 0 < height
    requires 0 <= first < |FIGURES| && 0 <= upcoming < |FIGURES|
  {
    var g := EmptyRows(height, width);
    var f := SpawnFigure(width, first);
    FitsEmptyGrid(width, height, f.shape, f.x, f.y);
    Game(g, width, height, f, SpawnFigure(width, upcoming), 0, !Fits(g, width, height, f.shape, f.x, f.y), 0)
  }

  /** spawn: the previewed figure falls next, a new one from template
      `upcoming` is previewed, and the game ends if the new falling figure
      does not fit. */
  function Spawned(s: Game, upcoming: int): Game
    requires Shaped(s) && 0 <= upcoming < |FIGURES|
  {
    s.(current := s.next, next := SpawnFigure(s.width, upcoming),
       gameOver := s.gameOver || !Admits(s, s.next, 0, 0))
  }

  /** The falling figure is locked, full rows are cleared, and the next
      figure is spawned. */
  function Landed(s: Game, upcoming: int): Game
    requires Shaped(s) && 0 <= upcoming < |FIGURES|
  {
    LockedDims(s.grid, s.width, s.height, s.current.shape, s.current.x, s.current.y,
      Cell(s.current.imageX, s.current.imageY));
    ClearedShape(Locked(s.grid, s.current.shape, s.current.x, s.current.y, Cell(s.current.imageX, s.current.imageY)),
      s.width, s.height);
    Spawned(s.(grid := Settled(s.grid, s.width, s.current)), upcoming)
  }

  /** The figure falls one row, or lands when it cannot. */
  function Fallen(s: Game, upcoming: int): Game
    requires Shaped(s) && 0 <= upcoming < |FIGURES|
  {
    if Admits(s, s.current, 0, 1) then s.(current := s.current.(y := s.current.y + 1))
    else Landed(s, upcoming)
  }

  /** update: nothing before FALL_DELAY milliseconds have passed since the
      last fall step; then the time is recorded and the figure falls. */
  function Updated(s: Game, time: int, upcoming: int): Game
    requires Shaped(s) && 0 <= upcoming < |FIGURES|
  {
    if time - s.lastUpdate < FALL_DELAY then s
    else Fallen(s.(lastUpdate := time), upcoming)
  }

  /** One frame of the loop: an update unless the game is over. */
  function Ticked(s: Game, time: int, upcoming: int): Game
    requires Shaped(s) && 0 <= upcoming < |FIGURES|
  {
    if s.gameOver then s else Updated(s, time, upcoming)
  }

  /** move: shift dx columns if the figure fits there. */
  function Moved(s: Game, dx: int): Game
    requires Shaped(s)
  {
    if Admits(s, s.current, dx, 0) then s.(current := s.current.(x := s.current.x + dx)) else s
  }

  /** rotate: a quarter turn clockwise about the anchor if the turned shape
      fits there. */
  function Turned(s: Game): Game
    requires Shaped(s) && IsMatrix(s.current.shape)
  {
    var r := Rotated(s.current.shape);
    if Fits(s.grid, s.width, s.height, r, s.current.x, s.current.y) then s.(current := s.current.(shape := r)) else s
  }

  /** softDrop: one row down if the figure fits there. */
  function SoftDropped(s: Game): Game
    requires Shaped(s)
  {
    if Admits(s, s.current, 0, 1) then s.(current := s.current.(y := s.current.y + 1)) else s
  }

  /** hardDrop: down as far as the figure fits, HARD_DROP_POINTS per row. */
  function HardDropped(s: Game): Game
    requires Shaped(s) && HasBlock(s.current.shape)
  {
    var d := DropDistance(s.grid, s.width, s.height, s.current.shape, s.current.x, s.current.y);
    s.(current := s.current.(y := s.current.y + d), score := s.score + HARD_DROP_POINTS * d)
  }

  /** reset: an empty board of the same size, score zero, the game running,
      and a spawn. */
  function Restarted(s: Game, upcoming: int): Game
    requires Shaped(s) && 0 <= upcoming < |FIGURES|
  {
    Spawned(s.(grid := EmptyRows(s.height, s.width), score := 0, gameOver := false), upcoming)
  }

  /** The constructor's state satisfies the invariant, and every cell of its
      board is empty. */
  lemma {:induction false} InitialConsistent(width: int, height: int, first: int, upcoming: int)
    requires 0 < width && 0 < height
    requires 0 <= first < |FIGURES| && 0 <= upcoming < |FIGURES|
    ensures var s := Initial(width, height, first, upcoming);
      Consistent(s) && s.score == 0 &&
      forall r, c :: 0 <= r < height && 0 <= c < width ==> IsEmpty(s.grid[r][c])
  {
    var f := SpawnFigure(width, first);
    FitsEmptyGrid(width, height, f.shape, f.x, f.y);
  }

  /** A spawn keeps the board and the score, promotes the previewed figure,
      previews a new one at the spawn position, and ends the game exactly
      when the promoted figure does not fit (a game already over stays
      over); the state is consistent whenever the previewed figure had a
      proper shape. */
  lemma {:induction false} SpawnConsistent(s: Game, upcoming: int)
    requires Shaped(s) && 0 <= s.score && s.next.Valid() && 0 <= upcoming < |FIGURES|
    ensures var t := Spawned(s, upcoming);
      Consistent(t) && t.grid == s.grid && t.score == s.score && t.next.AtSpawn(s.width)
    ensures var t := Spawned(s, upcoming);
      t.current == s.next &&
      (t.gameOver <==> s.gameOver || !Fits(s.grid, s.width, s.height, s.next.shape, s.next.x, s.next.y))
    ensures var t := Spawned(s, upcoming);
      !s.gameOver ==> (t.gameOver <==> !Fits(s.grid, s.width, s.height, s.next.shape, s.next.x, s.next.y))
  {
  }

  /** A landing keeps the board's size and the score and leaves a
      consistent state. */
  lemma {:induction false} LandedConsistent(s: Game, upcoming: int)
    requires Consistent(s) && 0 <= upcoming < |FIGURES|
    ensures var t := Landed(s, upcoming);
      Consistent(t) && t.width == s.width && t.height == s.height && t.score == s.score
  {
    var cell := Cell(s.current.imageX, s.current.imageY);
    LockedDims(s.grid, s.width, s.height, s.current.shape, s.current.x, s.current.y, cell);
    ClearedShape(Locked(s.grid, s.current.shape, s.current.x, s.current.y, cell), s.width, s.height);
    SpawnConsistent(s.(grid := Settled(s.grid, s.width, s.current)), upcoming);
  }

  /** After a landing no row of the board is complete. */
  lemma {:induction false} LandedClean(s: Game, upcoming: int)
    requires Shaped(s) && 0 <= upcoming < |FIGURES|
    ensures var t := Landed(s, upcoming);
      |t.grid| == s.height && forall r :: 0 <= r < |t.grid| ==> !IsComplete(t.grid[r])
  {
    var cell := Cell(s.current.imageX, s.current.imageY);
    LockedDims(s.grid, s.width, s.height, s.current.shape, s.current.x, s.current.y, cell);
    ClearedShape(Locked(s.grid, s.current.shape, s.current.x, s.current.y, cell), s.width, s.height);
  }

  /** An update of a running game keeps the score and the invariant; before
      the fall delay has passed it changes nothing, and afterwards it records
      the time. */
  lemma {:induction false} UpdateConsistent(s: Game, time: int, upcoming: int)
    requires Consistent(s) && !s.gameOver && 0 <= upcoming < |FIGURES|
    ensures var t := Updated(s, time, upcoming);
      Consistent(t) && t.score == s.score && t.width == s.width && t.height == s.height &&
      (time - s.lastUpdate < FALL_DELAY ==> t == s) &&
      (time - s.lastUpdate >= FALL_DELAY ==> t.lastUpdate == time)
  {
    if time - s.lastUpdate >= FALL_DELAY && !Admits(s, s.current, 0, 1) {
      LandedConsistent(s.(lastUpdate := time), upcoming);
    }
  }

  /** When the figure can fall, an update after the delay is a soft drop
      that records the time; when it cannot, it is a landing. */
  lemma {:induction false} UpdateIsDropOrLanding(s: Game, time: int, upcoming: int)
    requires Shaped(s) && 0 <= upcoming < |FIGURES| && time - s.lastUpdate >= FALL_DELAY
    ensures Admits(s, s.current, 0, 1) ==> Updated(s, time, upcoming) == SoftDropped(s).(lastUpdate := time)
    ensures !Admits(s, s.current, 0, 1) ==> Updated(s, time, upcoming) == Landed(s, upcoming).(lastUpdate := time)
  {
    var u := s.(lastUpdate := time);
    assert Admits(u, u.current, 0, 1) == Admits(s, s.current, 0, 1);
    if !Admits(s, s.current, 0, 1) {
      assert u.(grid := Settled(u.grid, u.width, u.current)) ==
        s.(grid := Settled(s.grid, s.width, s.current)).(lastUpdate := time);
    }
  }

  /** A frame keeps the invariant and the score, and changes nothing once
      the game is over. */
  lemma {:induction false} TickConsistent(s: Game, time: int, upcoming: int)
    requires Consistent(s) && 0 <= upcoming < |FIGURES|
    ensures Consistent(Ticked(s, time, upcoming)) && Ticked(s, time, upcoming).score == s.score
    ensures s.gameOver ==> Ticked(s, time, upcoming) == s
  {
    if !s.gameOver {
      UpdateConsistent(s, time, upcoming);
    }
  }

  /** A move changes only the falling figure's column, by dx or not at all,
      and keeps the invariant. */
  lemma {:induction false} MoveConsistent(s: Game, dx: int)
    requires Consistent(s)
    ensures var t := Moved(s, dx);
      Consistent(t) && t == s.(current := t.current) && t.current == s.current.(x := t.current.x) &&
      (t.current.x == s.current.x || t.current.x == s.current.x + dx)
  {
  }

  /** A move that happened is undone by the opposite move. */
  lemma {:induction false} MoveBack(s: Game, dx: int)
    requires Consistent(s) && !s.gameOver && Admits(s, s.current, dx, 0)
    ensures Moved(Moved(s, dx), -dx) == s
  {
    var t := Moved(s, dx);
    assert t.current.x + -dx == s.current.x;
    assert Admits(t, t.current, -dx, 0);
    assert t.current.(x := t.current.x + -dx) == s.current;
  }

  /** A turn changes only the falling figure's shape, to its quarter turn or
      not at all, and keeps the invariant. */
  lemma {:induction false} TurnConsistent(s: Game)
    requires Consistent(s)
    ensures var t := Turned(s);
      Consistent(t) && t == s.(current := t.current) && t.current == s.current.(shape := t.current.shape) &&
      (t.current.shape == s.current.shape || t.current.shape == Rotated(s.current.shape))
  {
    RotatedHasBlock(s.current.shape);
  }

  /** Four turns that each fit give back the state they started from. */
  lemma {:induction false} TurnFourTimes(s: Game)
    requires Consistent(s) && !s.gameOver
    requires var f := s.current; var r1 := Rotated(f.shape); var r2 := Rotated(r1); var r3 := Rotated(r2);
      Fits(s.grid, s.width, s.height, r1, f.x, f.y) && Fits(s.grid, s.width, s.height, r2, f.x, f.y) &&
      Fits(s.grid, s.width, s.height, r3, f.x, f.y)
    ensures Turned(Turned(Turned(Turned(s)))) == s
  {
    var f := s.current;
    var r1 := Rotated(f.shape);
    var r2 := Rotated(r1);
    var r3 := Rotated(r2);
    RotatedFourTimes(f.shape);
    var t1 := Turned(s);
    assert t1 == s.(current := f.(shape := r1));
    var t2 := Turned(t1);
    assert t2 == s.(current := f.(shape := r2));
    var t3 := Turned(t2);
    assert t3 == s.(current := f.(shape := r3));
    assert Rotated(r3) == f.shape;
    assert Turned(t3) == s.(current := f.(shape := f.shape));
  }

  /** A soft drop changes only the falling figure's row, by one or not at
      all, and keeps the invariant. */
  lemma {:induction false} SoftDropConsistent(s: Game)
    requires Consistent(s)
    ensures var t := SoftDropped(s);
      Consistent(t) && t == s.(current := t.current) && t.current == s.current.(y := t.current.y) &&
      (t.current.y == s.current.y || t.current.y == s.current.y + 1)
  {
  }

  /** A hard drop keeps the invariant, moves the figure down only, and adds
      HARD_DROP_POINTS for each row it fell, through all of which it fits. */
  lemma {:induction false} HardDropConsistent(s: Game)
    requires Consistent(s)
    ensures var t := HardDropped(s);
      Consistent(t) && t.grid == s.grid && t.next == s.next && t.gameOver == s.gameOver &&
      t.current == s.current.(y := t.current.y) && s.current.y <= t.current.y &&
      t.score == s.score + HARD_DROP_POINTS * (t.current.y - s.current.y) &&
      FitsBetween(s.grid, s.width, s.height, s.current.shape, s.current.x, s.current.y, t.current.y)
  {
    var f := s.current;
    var d := DropDistance(s.grid, s.width, s.height, f.shape, f.x, f.y);
    DropPasses(s.grid, s.width, s.height, f.shape, f.x, f.y);
    if d > 0 {
      assert Fits(s.grid, s.width, s.height, f.shape, f.x, f.y + d);
    }
  }

  /** After a hard drop the figure cannot fall any further: a soft drop or a
      second hard drop changes nothing. */
  lemma {:induction false} HardDropLands(s: Game)
    requires Consistent(s)
    ensures SoftDropped(HardDropped(s)) == HardDropped(s)
    ensures HardDropped(HardDropped(s)) == HardDropped(s)
  {
    var f := s.current;
    var t := HardDropped(s);
    DropLands(s.grid, s.width, s.height, f.shape, f.x, f.y);
    assert !Admits(t, t.current, 0, 1);
    assert DropDistance(t.grid, t.width, t.height, t.current.shape, t.current.x, t.current.y) == 0;
    assert t.current.(y := t.current.y + 0) == t.current;
  }

  /** A reset keeps the board's size, empties every cell, zeroes the score,
      and leaves a consistent state. */
  lemma {:induction false} RestartConsistent(s: Game, upcoming: int)
    requires Consistent(s) && 0 <= upcoming < |FIGURES|
    ensures var t := Restarted(s, upcoming);
      Consistent(t) && t.width == s.width && t.height == s.height && t.score == 0 &&
      t.current == s.next && t.lastUpdate == s.lastUpdate &&
      forall r, c :: 0 <= r < t.height && 0 <= c < t.width ==> IsEmpty(t.grid[r][c])
  {
    SpawnConsistent(s.(grid := EmptyRows(s.height, s.width), score := 0, gameOver := false), upcoming);
  }

  /** The controller: board, the falling figure, the previewed next figure,
      score, game-over flag and fall timer. */
  class Tetris {
    var board: Board
    var current: Figure
    var next: Figure
    var lastUpdate: int
    const fallDelay: int := FALL_DELAY
    var score: int
    var gameOver: bool

    /** The fields, with the board's. */
    ghost function Model(): Game
      reads this, board
    {
      Game(board.grid, board.width, board.height, current, next, score, gameOver, lastUpdate)
    }

    ghost predicate Valid()
      reads this, board
    {
      Consistent(Model())
    }

    /** `first` and `upcoming` are the template indices the two random draws
        of the first spawn produce; `next` is still unset then, so the
        falling figure is drawn as well. */
    constructor (width: int, height: int, first: int, upcoming: int)
      requires 0 < width && 0 < height
      requires 0 <= first < |FIGURES| && 0 <= upcoming < |FIGURES|
      ensures Valid() && fresh(board)
      ensures Model() == Initial(width, height, first, upcoming)
    {
      InitialConsistent(width, height, first, upcoming);
      var b := new Board(width, height);
      var f := SpawnFigure(width, first);
      var ok := b.IsValid(f, 0, 0, f.shape);
      board := b;
      current := f;
      next := SpawnFigure(width, upcoming);
      lastUpdate := 0;
      score := 0;
      gameOver := !ok;
    }

    /** spawn: the previewed figure becomes the falling one, a new figure is
        previewed, and the game is over when the falling one does not fit. */
    method Spawn(upcoming: int)
      requires board.Valid() && 0 <= upcoming < |FIGURES|
      modifies this
      ensures board == old(board) && Model() == Spawned(old(Model()), upcoming)
    {
      ghost var s := Model();
      current := next;
      next := SpawnFigure(board.width, upcoming);
      var ok := board.IsValid(current, 0, 0, current.shape);
      assert ok == Admits(s, s.next, 0, 0);
      if !ok {
        gameOver := true;
      }
      assert Model() == Spawned(s, upcoming);
    }

    /** update: nothing until FALL_DELAY milliseconds have passed since the
        last fall step; then the timer is reset and the figure falls. */
    method Update(time: int, upcoming: int)
      requires Valid() && !gameOver && 0 <= upcoming < |FIGURES|
      modifies this, board
      ensures board == old(board) && Model() == Updated(old(Model()), time, upcoming) && Valid()
    {
      UpdateConsistent(Model(), time, upcoming);
      if time - lastUpdate < fallDelay {
        return;
      }
      FitsInBounds(board.grid, board.width, board.height, current.shape, current.x, current.y);
      lastUpdate := time;
      Fall(upcoming);
    }

    /** What an update does once the delay has passed: the figure falls one
        row when it fits there, and lands otherwise. */
    method Fall(upcoming: int)
      requires board.Valid() && InBounds(current.shape, current.x, current.y, board.width, board.height)
      requires 0 <= upcoming < |FIGURES|
      modifies this, board
      ensures board == old(board) && Model() == Fallen(old(Model()), upcoming)
    {
      var ok := board.IsValid(current, 0, 1, current.shape);
      if ok {
        current := current.(y := current.y + 1);
      } else {
        Land(upcoming);
      }
    }

    /** The second branch of an update: the falling figure, which cannot
        fall any further, is locked into the board, full rows are cleared and
        the next figure is spawned. */
    method Land(upcoming: int)
      requires board.Valid() && InBounds(current.shape, current.x, current.y, board.width, board.height)
      requires 0 <= upcoming < |FIGURES|
      modifies this, board
      ensures board == old(board) && Model() == Landed(old(Model()), upcoming)
    {
      board.Lock(current);
      var _ := board.ClearLines();
      Spawn(upcoming);
    }

    /** One iteration of the game loop, without the drawing: an update while
        the game is not over. */
    method Tick(time: int, upcoming: int)
      requires Valid() && 0 <= upcoming < |FIGURES|
      modifies this, board
      ensures board == old(board) && Model() == Ticked(old(Model()), time, upcoming) && Valid()
    {
      if !gameOver {
        Update(time, upcoming);
      }
    }

    /** move: shift the figure dx columns when it fits there. */
    method Move(dx: int)
      requires Valid()
      modifies this
      ensures board == old(board) && Model() == Moved(old(Model()), dx) && Valid()
    {
      MoveConsistent(Model(), dx);
      var ok := board.IsValid(current, dx, 0, current.shape);
      if ok {
        current := current.(x := current.x + dx);
      }
    }

    /** rotate: the clockwise quarter turn, when the turned shape fits. */
    method Rotate()
      requires Valid()
      modifies this
      ensures board == old(board) && Model() == Turned(old(Model())) && Valid()
    {
      TurnConsistent(Model());
      var r := current.RotateRight();
      var ok := board.IsValid(current, 0, 0, r);
      if ok {
        current := current.(shape := r);
      }
    }

    /** softDrop: one row down when the figure fits there. */
    method SoftDrop()
      requires Valid()
      modifies this
      ensures board == old(board) && Model() == SoftDropped(old(Model())) && Valid()
    {
      SoftDropConsistent(Model());
      var ok := board.IsValid(current, 0, 1, current.shape);
      if ok {
        current := current.(y := current.y + 1);
      }
    }

    /** The number of rows the loop of hardDrop moves the figure down is
        found by Board.Descend; each of those rows scores HARD_DROP_POINTS. */
    method HardDrop()
      requires Valid()
      modifies this
      ensures board == old(board) && Model() == HardDropped(old(Model())) && Valid()
    {
      HardDropConsistent(Model());
      var fallen, rows := board.Descend(current);
      current, score := fallen, score + HARD_DROP_POINTS * rows;
    }

    /** reset: a new empty board of the same size, score zero, the game
        running, and a spawn. */
    method Reset(upcoming: int)
      requires Valid() && 0 <= upcoming < |FIGURES|
      modifies this
      ensures fresh(board) && Model() == Restarted(old(Model()), upcoming) && Valid()
    {
      RestartConsistent(Model(), upcoming);
      board := new Board(board.width, board.height);
      score := 0;
      gameOver := false;
      Spawn(upcoming);
    }
  }
}
