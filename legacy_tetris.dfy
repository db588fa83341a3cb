/** The legacy canvas engine of tetris/Tetris.ts. A piece owns an n-by-n
    template indexed column first (entry [i, j] is the square at x offset i,
    y offset j) and a position (x, y) that is truncated toward zero wherever
    a square is placed; three scans test the cells below, left and right of
    every square, and the two rotations turn the template in place layer by
    layer and turn it back when the result collides. The script's globals
    (the map, the score, the game-over and start flags, the current and the
    next piece) form a session that falls, lands, clears rows and answers
    keys. Drawing, timers and the random choice of a shape are outside: the
    caller supplies the shape index. */
module LegacyTetris {
  import opened Grid
  import opened JsNumber

  /** A template: entry t[i][j] is the square at x offset i and y offset j,
      a non-zero entry being occupied. */
  type Template = seq<seq<int>>

  predicate IsSquare(t: Template) {
    forall i :: 0 <= i < |t| ==> |t[i]| == |t|
  }

  /** The quarter turn of changeRotationRight: the square at offset (a, b)
      afterwards is the one at (b, n - 1 - a) before. */
  function TurnedRight(t: Template): (r: Template)
    requires IsSquare(t)
    ensures IsSquare(r) && |r| == |t|
  {
    seq(|t|, a requires 0 <= a < |t| => seq(|t|, b requires 0 <= b < |t| => t[b][|t| - 1 - a]))
  }

  /** The quarter turn of changeRotationLeft: the square at offset (a, b)
      afterwards is the one at (n - 1 - b, a) before. */
  function TurnedLeft(t: Template): (r: Template)
    requires IsSquare(t)
    ensures IsSquare(r) && |r| == |t|
  {
    seq(|t|, a requires 0 <= a < |t| => seq(|t|, b requires 0 <= b < |t| => t[|t| - 1 - b][a]))
  }

  /** Turning left undoes turning right, and turning right undoes turning left. */
  lemma {:induction false} TurnsCancel(t: Template)
    requires IsSquare(t)
    ensures TurnedLeft(TurnedRight(t)) == t
    ensures TurnedRight(TurnedLeft(t)) == t
  {
    var n := |t|;
    var l, r := TurnedLeft(TurnedRight(t)), TurnedRight(TurnedLeft(t));
    forall a | 0 <= a < n ensures l[a] == t[a] && r[a] == t[a] {
      assert forall b :: 0 <= b < n ==> l[a][b] == t[a][b] && r[a][b] == t[a][b];
    }
  }

  /** Four right turns give the template back. */
  lemma {:induction false} FourRightTurns(t: Template)
    requires IsSquare(t)
    ensures TurnedRight(TurnedRight(TurnedRight(TurnedRight(t)))) == t
  {
    var n := |t|;
    var h := TurnedRight(TurnedRight(t));
    var f := TurnedRight(TurnedRight(h));
    forall a | 0 <= a < n ensures h[a] == seq(n, b requires 0 <= b < n => t[n - 1 - a][n - 1 - b]) {
    }
    forall a | 0 <= a < n ensures f[a] == t[a] {
      assert forall b :: 0 <= b < n ==> f[a][b] == h[n - 1 - a][n - 1 - b];
    }
  }

  /** The contents of a template array, entry [i, j] at t[i][j]. */
  ghost function Contents(t: array2<int>): (m: Template)
    reads t
    ensures |m| == t.Length0 && forall i :: 0 <= i < |m| ==> |m[i]| == t.Length1
  {
    seq(t.Length0, i requires 0 <= i < t.Length0 reads t =>
      seq(t.Length1, j requires 0 <= j < t.Length1 reads t => t[i, j]))
  }

  /** An array holding m entry by entry has contents m. */
  lemma {:induction false} ContentsAre(t: array2<int>, m: Template)
    requires |m| == t.Length0 && forall i :: 0 <= i < |m| ==> |m[i]| == t.Length1
    requires forall i, j :: 0 <= i < t.Length0 && 0 <= j < t.Length1 ==> t[i, j] == m[i][j]
    ensures Contents(t) == m
  {
    var c := Contents(t);
    forall i | 0 <= i < |m| ensures c[i] == m[i] {
    }
  }

  /** The ring of entry (r, c) of an n-by-n template: its distance to the
      nearest edge. The rotation loops turn ring `layer` in their outer loop. */
  function Ring(n: int, r: int, c: int): int {
    var h := if r < n - 1 - r then r else n - 1 - r;
    var v := if c < n - 1 - c then c else n - 1 - c;
    if h < v then h else v
  }

  /** The step i of the inner rotation loop at which entry (r, c) of ring L
      is written: top edge, right edge, bottom edge, left edge. */
  function Step(n: int, L: int, r: int, c: int): int {
    if r == L && L <= c < n - 1 - L then c
    else if c == n - 1 - L && L <= r < n - 1 - L then r
    else if r == n - 1 - L && L < c <= n - 1 - L then n - 1 - c
    else if c == L && L < r <= n - 1 - L then n - 1 - r
    else n
  }

  /** Entry (r, c) has been written once the loops stand at ring L, step i. */
  predicate Written(n: int, L: int, i: int, r: int, c: int) {
    Ring(n, r, c) < L || (Ring(n, r, c) == L && Step(n, L, r, c) < i)
  }

  /** One pass of the inner loop of changeRotationRight or changeRotationLeft
      adds to the written set exactly the four entries of its orbit, none of
      them written before. */
  lemma {:induction false} RingStep(n: int, L: int, i: int, r: int, c: int)
    requires 0 <= L <= i < n - 1 - L && 0 <= r < n && 0 <= c < n
    ensures Written(n, L, i + 1, r, c) <==>
      Written(n, L, i, r, c) || Orbit(n, L, i, r, c)
    ensures Orbit(n, L, i, r, c) ==> !Written(n, L, i, r, c)
  {
  }

  /** Entry (r, c) is one of the four written at ring L, step i. */
  predicate Orbit(n: int, L: int, i: int, r: int, c: int) {
    (r == L && c == i) || (r == i && c == n - 1 - L) ||
    (r == n - 1 - L && c == n - 1 - i) || (r == n - 1 - i && c == L)
  }

  /** After the last step of ring L every entry of the ring is written, but
      for the centre of an odd template, which a quarter turn keeps. */
  lemma {:induction false} RingDone(n: int, L: int, r: int, c: int)
    requires 0 <= L && 2 * L < n && 0 <= r < n && 0 <= c < n
    ensures Written(n, L, n - 1 - L, r, c) <==> Ring(n, r, c) < L + 1 && !(r == c == n - 1 - r)
    ensures !Written(n, L, L, r, c) <==> L <= Ring(n, r, c)
  {
  }

  /** Every entry lies in a ring the outer loop reaches. */
  lemma {:induction false} RingBound(n: int, r: int, c: int)
    requires 0 <= r < n && 0 <= c < n
    ensures 0 <= Ring(n, r, c) && 2 * Ring(n, r, c) < n
  {
  }

  /** The body of the inner loop of changeRotationRight at ring `first`,
      step i: top takes right, right takes bottom, bottom takes left and left
      takes the saved top. */
  method SwapRight(t: array2<int>, first: int, i: int)
    requires t.Length0 == t.Length1 && 0 <= first <= i < t.Length0 - 1 - first
    modifies t
    ensures forall r, c {:trigger t[r, c]} :: 0 <= r < t.Length0 && 0 <= c < t.Length0 ==>
      t[r, c] == if Orbit(t.Length0, first, i, r, c) then old(t[c, t.Length0 - 1 - r]) else old(t[r, c])
  {
    var last := t.Length0 - 1 - first;
    var offset := i - first;
    var top := t[first, i];
    t[first, i] := t[i, last];
    t[i, last] := t[last, last - offset];
    t[last, last - offset] := t[last - offset, first];
    t[last - offset, first] := top;
  }

  /** The body of the inner loop of changeRotationLeft: top takes left, left
      takes bottom, bottom takes right and right takes the saved top. */
  method SwapLeft(t: array2<int>, first: int, i: int)
    requires t.Length0 == t.Length1 && 0 <= first <= i < t.Length0 - 1 - first
    modifies t
    ensures forall r, c {:trigger t[r, c]} :: 0 <= r < t.Length0 && 0 <= c < t.Length0 ==>
      t[r, c] == if Orbit(t.Length0, first, i, r, c) then old(t[t.Length0 - 1 - c, r]) else old(t[r, c])
  {
    var last := t.Length0 - 1 - first;
    var offset := i - first;
    var top := t[first, i];
    t[first, i] := t[last - offset, first];
    t[last - offset, first] := t[last, last - offset];
    t[last, last - offset] := t[i, last];
    t[i, last] := top;
  }

  /** The state of an in-place quarter turn of the original template m
      after the rings below `layer`: those rings hold their entries of the
      turned template, the others their original entries. */
  ghost predicate TurnedBelow(t: array2<int>, m: Template, layer: int, right: bool)
    reads t
    requires t.Length0 == t.Length1 == |m| && IsSquare(m)
  {
    var n := t.Length0;
    forall r, c {:trigger t[r, c]} :: 0 <= r < n && 0 <= c < n ==>
      t[r, c] == if Ring(n, r, c) < layer then (if right then m[c][n - 1 - r] else m[n - 1 - c][r]) else m[r][c]
  }

  /** The inner loop of changeRotationRight: turns ring `first`. */
  method TurnRingRight(t: array2<int>, first: int, ghost m: Template)
    requires t.Length0 == t.Length1 == |m| && IsSquare(m) && 0 <= first && 2 * first < t.Length0
    requires TurnedBelow(t, m, first, true)
    modifies t
    ensures TurnedBelow(t, m, first + 1, true)
  {
    var n := t.Length0;
    var last := n - 1 - first;
    var i := first;
    while i < last
      invariant first <= i <= last
      invariant forall r, c {:trigger t[r, c]} :: 0 <= r < n && 0 <= c < n ==>
        t[r, c] == if Written(n, first, i, r, c) then m[c][n - 1 - r] else m[r][c]
    {
      SwapRight(t, first, i);
      forall r, c {:trigger t[r, c]} | 0 <= r < n && 0 <= c < n
        ensures t[r, c] == if Written(n, first, i + 1, r, c) then m[c][n - 1 - r] else m[r][c]
      {
        RingStep(n, first, i, r, c);
        if Orbit(n, first, i, r, c) {
          RingStep(n, first, i, c, n - 1 - r);
        }
      }
      i := i + 1;
    }
    forall r, c {:trigger t[r, c]} | 0 <= r < n && 0 <= c < n
      ensures t[r, c] == if Ring(n, r, c) < first + 1 then m[c][n - 1 - r] else m[r][c]
    {
      RingDone(n, first, r, c);
    }
  }

  /** The inner loop of changeRotationLeft: turns ring `first` the other way. */
  method TurnRingLeft(t: array2<int>, first: int, ghost m: Template)
    requires t.Length0 == t.Length1 == |m| && IsSquare(m) && 0 <= first && 2 * first < t.Length0
    requires TurnedBelow(t, m, first, false)
    modifies t
    ensures TurnedBelow(t, m, first + 1, false)
  {
    var n := t.Length0;
    var last := n - 1 - first;
    var i := first;
    while i < last
      invariant first <= i <= last
      invariant forall r, c {:trigger t[r, c]} :: 0 <= r < n && 0 <= c < n ==>
        t[r, c] == if Written(n, first, i, r, c) then m[n - 1 - c][r] else m[r][c]
    {
      SwapLeft(t, first, i);
      forall r, c {:trigger t[r, c]} | 0 <= r < n && 0 <= c < n
        ensures t[r, c] == if Written(n, first, i + 1, r, c) then m[n - 1 - c][r] else m[r][c]
      {
        RingStep(n, first, i, r, c);
        if Orbit(n, first, i, r, c) {
          RingStep(n, first, i, n - 1 - c, r);
        }
      }
      i := i + 1;
    }
    forall r, c {:trigger t[r, c]} | 0 <= r < n && 0 <= c < n
      ensures t[r, c] == if Ring(n, r, c) < first + 1 then m[n - 1 - c][r] else m[r][c]
    {
      RingDone(n, first, r, c);
    }
  }

  /** The nested loops of changeRotationRight: every ring turned by four-way
      swaps, from the outside in. */
  method TurnRightInPlace(t: array2<int>)
    requires t.Length0 == t.Length1
    modifies t
    ensures Contents(t) == TurnedRight(old(Contents(t)))
  {
    ghost var m := Contents(t);
    var n := t.Length0;
    var layer := 0;
    while layer * 2 < n
      invariant 0 <= layer && layer * 2 <= n + 1
      invariant TurnedBelow(t, m, layer, true)
    {
      TurnRingRight(t, layer, m);
      layer := layer + 1;
    }
    forall r, c {:trigger t[r, c]} | 0 <= r < n && 0 <= c < n ensures t[r, c] == m[c][n - 1 - r] {
      RingBound(n, r, c);
    }
    ContentsAre(t, TurnedRight(m));
  }

  /** The nested loops of changeRotationLeft, the same rings with the swap
      run the other way round. */
  method TurnLeftInPlace(t: array2<int>)
    requires t.Length0 == t.Length1
    modifies t
    ensures Contents(t) == TurnedLeft(old(Contents(t)))
  {
    ghost var m := Contents(t);
    var n := t.Length0;
    var layer := 0;
    while layer * 2 < n
      invariant 0 <= layer && layer * 2 <= n + 1
      invariant TurnedBelow(t, m, layer, false)
    {
      TurnRingLeft(t, layer, m);
      layer := layer + 1;
    }
    forall r, c {:trigger t[r, c]} | 0 <= r < n && 0 <= c < n ensures t[r, c] == m[n - 1 - c][r] {
      RingBound(n, r, c);
    }
    ContentsAre(t, TurnedLeft(m));
  }

  /** An entry of the shapes table: the sprite tag and the template. */
  datatype Shape = Shape(imageX: int, imageY: int, template: Template)

  /** The table `shapes` of tetris/Tetris.ts, in its order. */
  const SHAPES: seq<Shape> := [
    Shape(0, 120, [[0, 1, 0], [0, 1, 0], [1, 1, 0]]),
    Shape(0, 96, [[0, 0, 0], [1, 1, 1], [0, 1, 0]]),
    Shape(0, 72, [[0, 1, 0], [0, 1, 0], [0, 1, 1]]),
    Shape(0, 48, [[0, 0, 0], [0, 1, 1], [1, 1, 0]]),
    Shape(0, 24, [[0, 0, 1, 0], [0, 0, 1, 0], [0, 0, 1, 0], [0, 0, 1, 0]]),
    Shape(0, 0, [[1, 1], [1, 1]]),
    Shape(0, 48, [[0, 0, 0], [1, 1, 0], [0, 1, 1]])
  ]

  /** A piece as a value: its sprite tag, template and untruncated position. */
  datatype Block = Block(imageX: int, imageY: int, template: Template, x: real, y: real)

  /** The template of b has an occupied entry at offset (i, j). */
  predicate Solid(b: Block, i: int, j: int) {
    0 <= i < |b.template| && 0 <= j < |b.template[i]| && b.template[i][j] != 0
  }

  /** The map column and row of offset (i, j): the position truncated toward
      zero, plus the offset. */
  function RealX(b: Block, i: int): int {
    Trunc(b.x) + i
  }

  function RealY(b: Block, j: int): int {
    Trunc(b.y) + j
  }

  /** Cell (r, c) exists on the map and is empty. */
  predicate Free(g: seq<seq<Cell>>, r: int, c: int) {
    0 <= r < |g| && 0 <= c < |g[r]| && IsEmpty(g[r][c])
  }

  /** Every occupied square of b lies on a map of the given size, and b has
      not risen above the top row. The game keeps its pieces so; on such a
      piece every cell the scans read exists. */
  ghost predicate Inside(b: Block, squareCountX: int, squareCountY: int) {
    IsSquare(b.template) && 0.0 <= b.y &&
    forall i, j {:trigger Solid(b, i, j)} :: Solid(b, i, j) ==>
      0 <= RealX(b, i) < squareCountX && 0 <= RealY(b, j) < squareCountY
  }

  /** checkBottom: the cell below every occupied square exists and is empty. */
  ghost predicate CanFall(g: seq<seq<Cell>>, b: Block) {
    forall i, j {:trigger Solid(b, i, j)} :: Solid(b, i, j) ==> Free(g, RealY(b, j) + 1, RealX(b, i))
  }

  /** checkLeft: the cell left of every occupied square exists and is empty. */
  ghost predicate CanGoLeft(g: seq<seq<Cell>>, b: Block) {
    forall i, j {:trigger Solid(b, i, j)} :: Solid(b, i, j) ==> Free(g, RealY(b, j), RealX(b, i) - 1)
  }

  /** checkRight: the cell right of every occupied square exists and is empty. */
  ghost predicate CanGoRight(g: seq<seq<Cell>>, b: Block) {
    forall i, j {:trigger Solid(b, i, j)} :: Solid(b, i, j) ==> Free(g, RealY(b, j), RealX(b, i) + 1)
  }

  /** The collision test of the rotations: every occupied square lies on an
      existing, empty cell. */
  ghost predicate Fits(g: seq<seq<Cell>>, b: Block) {
    forall i, j {:trigger Solid(b, i, j)} :: Solid(b, i, j) ==> Free(g, RealY(b, j), RealX(b, i))
  }

  /** moveLeft and moveRight: one column over, when the scan allows it. */
  ghost function ShiftedLeft(g: seq<seq<Cell>>, b: Block): Block {
    if CanGoLeft(g, b) then b.(x := b.x - 1.0) else b
  }

  ghost function ShiftedRight(g: seq<seq<Cell>>, b: Block): Block {
    if CanGoRight(g, b) then b.(x := b.x + 1.0) else b
  }

  /** moveBottom and one step of hardDrop: one row down, when checkBottom allows it. */
  ghost function Lowered(g: seq<seq<Cell>>, b: Block): Block {
    if CanFall(g, b) then b.(y := b.y + 1.0) else b
  }

  /** moveLeftAndDown and moveRightAndDown: one column over and one row down
      when both scans allow it. */
  ghost function SlidLeft(g: seq<seq<Cell>>, b: Block): Block {
    if CanGoLeft(g, b) && CanFall(g, b) then b.(x := b.x - 1.0, y := b.y + 1.0) else b
  }

  ghost function SlidRight(g: seq<seq<Cell>>, b: Block): Block {
    if CanGoRight(g, b) && CanFall(g, b) then b.(x := b.x + 1.0, y := b.y + 1.0) else b
  }

  /** changeRotationRight and changeRotationLeft: the turned template when it
      fits, the piece as it was otherwise. */
  ghost function RotatedRight(g: seq<seq<Cell>>, b: Block): Block
    requires IsSquare(b.template)
  {
    var turned := b.(template := TurnedRight(b.template));
    if Fits(g, turned) then turned else b
  }

  ghost function RotatedLeft(g: seq<seq<Cell>>, b: Block): Block
    requires IsSquare(b.template)
  {
    var turned := b.(template := TurnedLeft(b.template));
    if Fits(g, turned) then turned else b
  }

  /** A piece: the class Tetris of the legacy engine. The sprite tag never
      changes; the template is rotated in place and may be replaced by a copy;
      the position moves. The points a move earns are returned to the caller,
      which adds them to the score. */
  class Piece {
    const imageX: int
    const imageY: int
    var template: array2<int>
    var x: real
    var y: real

    ghost function Model(): Block
      reads this, template
    {
      Block(imageX, imageY, Contents(template), x, y)
    }

    /** The template is square and the piece lies on the map. */
    ghost predicate OnMap(squareCountX: int, squareCountY: int)
      reads this, template
    {
      template.Length0 == template.Length1 && Inside(Model(), squareCountX, squareCountY)
    }

    /** A piece of template t with its anchor at the middle column of the top row. */
    constructor (imageX: int, imageY: int, t: Template, squareCountX: int)
      requires IsSquare(t)
      ensures fresh(template) && template.Length0 == template.Length1 == |t|
      ensures Model() == Block(imageX, imageY, t, squareCountX as real / 2.0, 0.0)
    {
      var n := |t|;
      var a := new int[n, n]((i, j) requires 0 <= i < n && 0 <= j < n => t[i][j]);
      ContentsAre(a, t);
      this.imageX := imageX;
      this.imageY := imageY;
      template := a;
      x := squareCountX as real / 2.0;
      y := 0.0;
    }

    /** checkBottom: scans the template column by column and fails at the
        first occupied square on the last row or above an occupied cell. */
    method CheckBottom(gameMap: seq<seq<Cell>>, squareCountX: int, squareCountY: int) returns (ok: bool)
      requires IsGrid(gameMap, squareCountX, squareCountY) && OnMap(squareCountX, squareCountY)
      ensures ok == CanFall(gameMap, Model())
    {
      ghost var b := Model();
      var n := template.Length0;
      var px, py := Trunc(x), Trunc(y);
      var i := 0;
      while i < n
        invariant 0 <= i <= n
        invariant forall i', j' {:trigger Solid(b, i', j')} :: i' < i && Solid(b, i', j') ==>
          Free(gameMap, RealY(b, j') + 1, RealX(b, i'))
      {
        var j := 0;
        while j < n
          invariant 0 <= j <= n
          invariant forall i', j' {:trigger Solid(b, i', j')} :: (i' < i || (i' == i && j' < j)) && Solid(b, i', j') ==>
            Free(gameMap, RealY(b, j') + 1, RealX(b, i'))
        {
          if template[i, j] != 0 {
            assert Solid(b, i, j);
            var realX, realY := i + px, j + py;
            if realY + 1 >= squareCountY {
              return false;
            }
            if gameMap[realY + 1][realX].imageX != -1 {
              return false;
            }
          }
          j := j + 1;
        }
        i := i + 1;
      }
      return true;
    }

    /** checkLeft: fails at the first occupied square on the first column or
        right of an occupied cell. */
    method CheckLeft(gameMap: seq<seq<Cell>>, squareCountX: int, squareCountY: int) returns (ok: bool)
      requires IsGrid(gameMap, squareCountX, squareCountY) && OnMap(squareCountX, squareCountY)
      ensures ok == CanGoLeft(gameMap, Model())
    {
      ghost var b := Model();
      var n := template.Length0;
      var px, py := Trunc(x), Trunc(y);
      var i := 0;
      while i < n
        invariant 0 <= i <= n
        invariant forall i', j' {:trigger Solid(b, i', j')} :: i' < i && Solid(b, i', j') ==>
          Free(gameMap, RealY(b, j'), RealX(b, i') - 1)
      {
        var j := 0;
        while j < n
          invariant 0 <= j <= n
          invariant forall i', j' {:trigger Solid(b, i', j')} :: (i' < i || (i' == i && j' < j)) && Solid(b, i', j') ==>
            Free(gameMap, RealY(b, j'), RealX(b, i') - 1)
        {
          if template[i, j] != 0 {
            assert Solid(b, i, j);
            var realX, realY := i + px, j + py;
            if realX - 1 < 0 {
              return false;
            }
            if gameMap[realY][realX - 1].imageX != -1 {
              return false;
            }
          }
          j := j + 1;
        }
        i := i + 1;
      }
      return true;
    }

    /** checkRight: fails at the first occupied square on the last column or
        left of an occupied cell. */
    method CheckRight(gameMap: seq<seq<Cell>>, squareCountX: int, squareCountY: int) returns (ok: bool)
      requires IsGrid(gameMap, squareCountX, squareCountY) && OnMap(squareCountX, squareCountY)
      ensures ok == CanGoRight(gameMap, Model())
    {
      ghost var b := Model();
      var n := template.Length0;
      var px, py := Trunc(x), Trunc(y);
      var i := 0;
      while i < n
        invariant 0 <= i <= n
        invariant forall i', j' {:trigger Solid(b, i', j')} :: i' < i && Solid(b, i', j') ==>
          Free(gameMap, RealY(b, j'), RealX(b, i') + 1)
      {
        var j := 0;
        while j < n
          invariant 0 <= j <= n
          invariant forall i', j' {:trigger Solid(b, i', j')} :: (i' < i || (i' == i && j' < j)) && Solid(b, i', j') ==>
            Free(gameMap, RealY(b, j'), RealX(b, i') + 1)
        {
          if template[i, j] != 0 {
            assert Solid(b, i, j);
            var realX, realY := i + px, j + py;
            if realX + 1 >= squareCountX {
              return false;
            }
            if gameMap[realY][realX + 1].imageX != -1 {
              return false;
            }
          }
          j := j + 1;
        }
        i := i + 1;
      }
      return true;
    }

    /** The collision scan of both rotations: is some occupied square off the
        map or on an occupied cell? No piece is above the top row, so the scan
        does not test for a negative row. */
    method Collides(gameMap: seq<seq<Cell>>, squareCountX: int, squareCountY: int) returns (hit: bool)
      requires IsGrid(gameMap, squareCountX, squareCountY)
      requires template.Length0 == template.Length1 && 0.0 <= y
      ensures hit == !Fits(gameMap, Model())
    {
      ghost var b := Model();
      var n := template.Length0;
      var px, py := Trunc(x), Trunc(y);
      var i := 0;
      while i < n
        invariant 0 <= i <= n
        invariant forall i', j' {:trigger Solid(b, i', j')} :: i' < i && Solid(b, i', j') ==>
          Free(gameMap, RealY(b, j'), RealX(b, i'))
      {
        var j := 0;
        while j < n
          invariant 0 <= j <= n
          invariant forall i', j' {:trigger Solid(b, i', j')} :: (i' < i || (i' == i && j' < j)) && Solid(b, i', j') ==>
            Free(gameMap, RealY(b, j'), RealX(b, i'))
        {
          if template[i, j] != 0 {
            assert Solid(b, i, j);
            var realX, realY := i + px, j + py;
            if realX < 0 || realX >= squareCountX || realY >= squareCountY || gameMap[realY][realX].imageX != -1 {
              return true;
            }
          }
          j := j + 1;
        }
        i := i + 1;
      }
      return false;
    }

    method MoveRight(gameMap: seq<seq<Cell>>, squareCountX: int, squareCountY: int)
      requires IsGrid(gameMap, squareCountX, squareCountY) && OnMap(squareCountX, squareCountY)
      modifies this
      ensures template == old(template)
      ensures Model() == ShiftedRight(gameMap, old(Model()))
      ensures OnMap(squareCountX, squareCountY)
    {
      ShiftKeepsInside(gameMap, Model(), squareCountX, squareCountY);
      var ok := CheckRight(gameMap, squareCountX, squareCountY);
      if ok {
        x := x + 1.0;
      }
    }

    method MoveLeft(gameMap: seq<seq<Cell>>, squareCountX: int, squareCountY: int)
      requires IsGrid(gameMap, squareCountX, squareCountY) && OnMap(squareCountX, squareCountY)
      modifies this
      ensures template == old(template)
      ensures Model() == ShiftedLeft(gameMap, old(Model()))
      ensures OnMap(squareCountX, squareCountY)
    {
      ShiftKeepsInside(gameMap, Model(), squareCountX, squareCountY);
      var ok := CheckLeft(gameMap, squareCountX, squareCountY);
      if ok {
        x := x - 1.0;
      }
    }

    /** moveBottom: one row down for one point. */
    method MoveBottom(gameMap: seq<seq<Cell>>, squareCountX: int, squareCountY: int) returns (points: int)
      requires IsGrid(gameMap, squareCountX, squareCountY) && OnMap(squareCountX, squareCountY)
      modifies this
      ensures template == old(template)
      ensures Model() == Lowered(gameMap, old(Model()))
      ensures points == if CanFall(gameMap, old(Model())) then 1 else 0
      ensures OnMap(squareCountX, squareCountY)
    {
      FallKeepsInside(gameMap, Model(), squareCountX, squareCountY);
      var ok := CheckBottom(gameMap, squareCountX, squareCountY);
      points := 0;
      if ok {
        y := y + 1.0;
        points := 1;
      }
    }

    /** moveLeftAndDown: one column left and one row down for one point. */
    method MoveLeftAndDown(gameMap: seq<seq<Cell>>, squareCountX: int, squareCountY: int) returns (points: int)
      requires IsGrid(gameMap, squareCountX, squareCountY) && OnMap(squareCountX, squareCountY)
      modifies this
      ensures template == old(template)
      ensures Model() == SlidLeft(gameMap, old(Model()))
      ensures points == if CanGoLeft(gameMap, old(Model())) && CanFall(gameMap, old(Model())) then 1 else 0
      ensures OnMap(squareCountX, squareCountY)
    {
      SlideKeepsInside(gameMap, Model(), squareCountX, squareCountY);
      points := 0;
      var left := CheckLeft(gameMap, squareCountX, squareCountY);
      if left {
        var down := CheckBottom(gameMap, squareCountX, squareCountY);
        if down {
          x := x - 1.0;
          y := y + 1.0;
          points := 1;
        }
      }
    }

    /** moveRightAndDown: one column right and one row down for one point. */
    method MoveRightAndDown(gameMap: seq<seq<Cell>>, squareCountX: int, squareCountY: int) returns (points: int)
      requires IsGrid(gameMap, squareCountX, squareCountY) && OnMap(squareCountX, squareCountY)
      modifies this
      ensures template == old(template)
      ensures Model() == SlidRight(gameMap, old(Model()))
      ensures points == if CanGoRight(gameMap, old(Model())) && CanFall(gameMap, old(Model())) then 1 else 0
      ensures OnMap(squareCountX, squareCountY)
    {
      SlideKeepsInside(gameMap, Model(), squareCountX, squareCountY);
      points := 0;
      var right := CheckRight(gameMap, squareCountX, squareCountY);
      if right {
        var down := CheckBottom(gameMap, squareCountX, squareCountY);
        if down {
          x := x + 1.0;
          y := y + 1.0;
          points := 1;
        }
      }
    }

    /** One tick of the interval hardDrop starts: one row down for twenty
        points, when checkBottom allows it. */
    method HardDropStep(gameMap: seq<seq<Cell>>, squareCountX: int, squareCountY: int) returns (points: int)
      requires IsGrid(gameMap, squareCountX, squareCountY) && OnMap(squareCountX, squareCountY)
      modifies this
      ensures template == old(template)
      ensures Model() == Lowered(gameMap, old(Model()))
      ensures points == if CanFall(gameMap, old(Model())) then 20 else 0
      ensures OnMap(squareCountX, squareCountY)
    {
      FallKeepsInside(gameMap, Model(), squareCountX, squareCountY);
      var ok := CheckBottom(gameMap, squareCountX, squareCountY);
      points := 0;
      if !ok {
        return;
      }
      y := y + 1.0;
      points := 20;
    }

    /** changeRotationRight: copies the template, turns it in place, and puts
        the copy back when the turned piece collides. */
    method ChangeRotationRight(gameMap: seq<seq<Cell>>, squareCountX: int, squareCountY: int) returns (ok: bool)
      requires IsGrid(gameMap, squareCountX, squareCountY) && OnMap(squareCountX, squareCountY)
      modifies this, template
      ensures template == old(template) || fresh(template)
      ensures ok == Fits(gameMap, old(Model()).(template := TurnedRight(old(Model()).template)))
      ensures Model() == RotatedRight(gameMap, old(Model()))
      ensures OnMap(squareCountX, squareCountY)
    {
      RotationKeepsInside(gameMap, Model(), squareCountX, squareCountY);
      var tempTemplate := CopyOf(template);
      TurnRightInPlace(template);
      var hit := Collides(gameMap, squareCountX, squareCountY);
      if hit {
        template := tempTemplate;
        return false;
      }
      return true;
    }

    /** changeRotationLeft: the same with the template turned the other way. */
    method ChangeRotationLeft(gameMap: seq<seq<Cell>>, squareCountX: int, squareCountY: int) returns (ok: bool)
      requires IsGrid(gameMap, squareCountX, squareCountY) && OnMap(squareCountX, squareCountY)
      modifies this, template
      ensures template == old(template) || fresh(template)
      ensures ok == Fits(gameMap, old(Model()).(template := TurnedLeft(old(Model()).template)))
      ensures Model() == RotatedLeft(gameMap, old(Model()))
      ensures OnMap(squareCountX, squareCountY)
    {
      RotationKeepsInside(gameMap, Model(), squareCountX, squareCountY);
      var tempTemplate := CopyOf(template);
      TurnLeftInPlace(template);
      var hit := Collides(gameMap, squareCountX, squareCountY);
      if hit {
        template := tempTemplate;
        return false;
      }
      return true;
    }
  }

  /** The copy loop at the head of both rotations: a fresh array with the
      same entries. */
  method CopyOf(t: array2<int>) returns (c: array2<int>)
    ensures fresh(c) && Contents(c) == Contents(t)
  {
    c := new int[t.Length0, t.Length1];
    for i := 0 to t.Length0
      invariant forall i', j' :: 0 <= i' < i && 0 <= j' < t.Length1 ==> c[i', j'] == t[i', j']
    {
      for j := 0 to t.Length1
        invariant forall i', j' :: 0 <= i' < i && 0 <= j' < t.Length1 ==> c[i', j'] == t[i', j']
        invariant forall j' :: 0 <= j' < j ==> c[i, j'] == t[i, j']
      {
        c[i, j] := t[i, j];
      }
    }
    ContentsAre(c, Contents(t));
  }

  /** The squares of a piece that fits lie on the map. */
  lemma {:induction false} FitsInside(g: seq<seq<Cell>>, b: Block, squareCountX: int, squareCountY: int)
    requires IsGrid(g, squareCountX, squareCountY) && IsSquare(b.template) && 0.0 <= b.y
    requires Fits(g, b)
    ensures Inside(b, squareCountX, squareCountY)
  {
    forall i, j | Solid(b, i, j)
      ensures 0 <= RealX(b, i) < squareCountX && 0 <= RealY(b, j) < squareCountY
    {
      assert Free(g, RealY(b, j), RealX(b, i));
    }
  }

  /** A sideways move keeps a piece on the map: truncation moves every
      square by at most one column, toward a cell the scan found on the map. */
  lemma {:induction false} ShiftKeepsInside(g: seq<seq<Cell>>, b: Block, squareCountX: int, squareCountY: int)
    requires IsGrid(g, squareCountX, squareCountY) && Inside(b, squareCountX, squareCountY)
    ensures Inside(ShiftedLeft(g, b), squareCountX, squareCountY)
    ensures Inside(ShiftedRight(g, b), squareCountX, squareCountY)
  {
    TruncStep(b.x);
    if CanGoLeft(g, b) {
      var l := ShiftedLeft(g, b);
      forall i, j | Solid(l, i, j)
        ensures 0 <= RealX(l, i) < squareCountX && 0 <= RealY(l, j) < squareCountY
      {
        assert Solid(b, i, j);
        assert Free(g, RealY(b, j), RealX(b, i) - 1);
      }
    }
    if CanGoRight(g, b) {
      var r := ShiftedRight(g, b);
      forall i, j | Solid(r, i, j)
        ensures 0 <= RealX(r, i) < squareCountX && 0 <= RealY(r, j) < squareCountY
      {
        assert Solid(b, i, j);
        assert Free(g, RealY(b, j), RealX(b, i) + 1);
      }
    }
  }

  /** Falling keeps a piece on the map: the row below every square exists. */
  lemma {:induction false} FallKeepsInside(g: seq<seq<Cell>>, b: Block, squareCountX: int, squareCountY: int)
    requires IsGrid(g, squareCountX, squareCountY) && Inside(b, squareCountX, squareCountY)
    ensures Inside(Lowered(g, b), squareCountX, squareCountY)
  {
    if CanFall(g, b) {
      var d := Lowered(g, b);
      TruncStep(b.y);
      forall i, j | Solid(d, i, j)
        ensures 0 <= RealX(d, i) < squareCountX && 0 <= RealY(d, j) < squareCountY
      {
        assert Solid(b, i, j);
        assert Free(g, RealY(b, j) + 1, RealX(b, i));
      }
    }
  }

  /** A diagonal move keeps a piece on the map. */
  lemma {:induction false} SlideKeepsInside(g: seq<seq<Cell>>, b: Block, squareCountX: int, squareCountY: int)
    requires IsGrid(g, squareCountX, squareCountY) && Inside(b, squareCountX, squareCountY)
    ensures Inside(SlidLeft(g, b), squareCountX, squareCountY)
    ensures Inside(SlidRight(g, b), squareCountX, squareCountY)
  {
    TruncStep(b.x);
    TruncStep(b.y);
    if CanGoLeft(g, b) && CanFall(g, b) {
      var l := SlidLeft(g, b);
      forall i, j | Solid(l, i, j)
        ensures 0 <= RealX(l, i) < squareCountX && 0 <= RealY(l, j) < squareCountY
      {
        assert Solid(b, i, j);
        assert Free(g, RealY(b, j), RealX(b, i) - 1);
        assert Free(g, RealY(b, j) + 1, RealX(b, i));
      }
    }
    if CanGoRight(g, b) && CanFall(g, b) {
      var r := SlidRight(g, b);
      forall i, j | Solid(r, i, j)
        ensures 0 <= RealX(r, i) < squareCountX && 0 <= RealY(r, j) < squareCountY
      {
        assert Solid(b, i, j);
        assert Free(g, RealY(b, j), RealX(b, i) + 1);
        assert Free(g, RealY(b, j) + 1, RealX(b, i));
      }
    }
  }

  /** A rotation keeps a piece on the map: it commits only a template that fits. */
  lemma {:induction false} RotationKeepsInside(g: seq<seq<Cell>>, b: Block, squareCountX: int, squareCountY: int)
    requires IsGrid(g, squareCountX, squareCountY) && Inside(b, squareCountX, squareCountY)
    ensures Inside(RotatedRight(g, b), squareCountX, squareCountY)
    ensures Inside(RotatedLeft(g, b), squareCountX, squareCountY)
  {
    var r := b.(template := TurnedRight(b.template));
    var l := b.(template := TurnedLeft(b.template));
    if Fits(g, r) {
      FitsInside(g, r, squareCountX, squareCountY);
    }
    if Fits(g, l) {
      FitsInside(g, l, squareCountX, squareCountY);
    }
  }

  /** A fall of one row puts every square on a free cell: the cells below
      are the ones checkBottom found free. */
  lemma {:induction false} FallFits(g: seq<seq<Cell>>, b: Block)
    requires 0.0 <= b.y && CanFall(g, b)
    ensures Lowered(g, b) == b.(y := b.y + 1.0) && Fits(g, Lowered(g, b))
  {
    var d := Lowered(g, b);
    TruncStep(b.y);
    forall i, j | Solid(d, i, j) ensures Free(g, RealY(d, j), RealX(d, i)) {
      assert Solid(b, i, j);
    }
  }

  /** A sideways move puts every square on a cell the scan found free, as
      long as the truncated column really moves: from x in (0, 1) a step left
      leaves Math.trunc(x) at zero, and from x in (-1, 0) so does a step right. */
  lemma {:induction false} ShiftFits(g: seq<seq<Cell>>, b: Block)
    ensures CanGoLeft(g, b) && (b.x <= 0.0 || 1.0 <= b.x) ==>
      ShiftedLeft(g, b) == b.(x := b.x - 1.0) && Fits(g, ShiftedLeft(g, b))
    ensures CanGoRight(g, b) && (b.x <= -1.0 || 0.0 <= b.x) ==>
      ShiftedRight(g, b) == b.(x := b.x + 1.0) && Fits(g, ShiftedRight(g, b))
  {
    TruncStep(b.x);
    if CanGoLeft(g, b) && (b.x <= 0.0 || 1.0 <= b.x) {
      var l := ShiftedLeft(g, b);
      forall i, j | Solid(l, i, j) ensures Free(g, RealY(l, j), RealX(l, i)) {
        assert Solid(b, i, j);
      }
    }
    if CanGoRight(g, b) && (b.x <= -1.0 || 0.0 <= b.x) {
      var r := ShiftedRight(g, b);
      forall i, j | Solid(r, i, j) ensures Free(g, RealY(r, j), RealX(r, i)) {
        assert Solid(b, i, j);
      }
    }
  }

  /** A turn that goes ahead is undone by the opposite turn, provided the
      piece fitted before it: the way back leads onto the cells it left. */
  lemma {:induction false} RotationUndone(g: seq<seq<Cell>>, b: Block)
    requires IsSquare(b.template) && Fits(g, b)
    ensures RotatedRight(g, b) != b ==> RotatedLeft(g, RotatedRight(g, b)) == b
    ensures RotatedLeft(g, b) != b ==> RotatedRight(g, RotatedLeft(g, b)) == b
  {
    TurnsCancel(b.template);
    var r := b.(template := TurnedRight(b.template));
    var l := b.(template := TurnedLeft(b.template));
    assert r.(template := TurnedLeft(r.template)) == b;
    assert l.(template := TurnedRight(l.template)) == b;
  }

  /** Four right turns that all fit bring the piece back. */
  lemma {:induction false} FourRotations(g: seq<seq<Cell>>, b: Block)
    requires IsSquare(b.template)
    requires Fits(g, b.(template := TurnedRight(b.template)))
    requires Fits(g, b.(template := TurnedRight(TurnedRight(b.template))))
    requires Fits(g, b.(template := TurnedRight(TurnedRight(TurnedRight(b.template)))))
    requires Fits(g, b)
    ensures RotatedRight(g, RotatedRight(g, RotatedRight(g, RotatedRight(g, b)))) == b
  {
    FourRightTurns(b.template);
    var t1 := TurnedRight(b.template);
    var t2 := TurnedRight(t1);
    var t3 := TurnedRight(t2);
    assert RotatedRight(g, b) == b.(template := t1);
    assert RotatedRight(g, b.(template := t1)) == b.(template := t2);
    assert RotatedRight(g, b.(template := t2)) == b.(template := t3);
    assert b.(template := t3).(template := TurnedRight(t3)) == b;
  }

  /** moveLeftAndDown tests the cell left of each square and the cell below
      it, never the cell diagonally below. With a 2-by-2 block whose lower
      left square has a free cell to its left and below it but an occupied
      cell diagonally below, the move goes ahead onto that occupied cell. */
  lemma {:induction false} SlideCanOverlap()
    ensures var g := DiagonalTrap();
      var b := Block(0, 0, [[1, 1], [1, 1]], 3.0, 0.0);
      Fits(g, b) && CanGoLeft(g, b) && CanFall(g, b) &&
      SlidLeft(g, b) == b.(x := 2.0, y := 1.0) && !Fits(g, SlidLeft(g, b))
  {
    var g := DiagonalTrap();
    var b := Block(0, 0, [[1, 1], [1, 1]], 3.0, 0.0);
    TruncOfInt(3);
    TruncOfInt(0);
    TruncOfInt(2);
    TruncOfInt(1);
    assert Trunc(2.0) == 2 && Trunc(1.0) == 1;
    var s := SlidLeft(g, b);
    assert Solid(s, 0, 1);
    assert !Free(g, RealY(s, 1), RealX(s, 0));
  }

  /** A 7-by-4 map whose only occupied cell is row 2, column 2. */
  function DiagonalTrap(): (g: seq<seq<Cell>>)
    ensures IsGrid(g, 7, 4)
  {
    EmptyRows(2, 7) + [EmptyRow(7)[2 := Cell(0, 0)]] + EmptyRows(1, 7)
  }

  /** The diagonal move as evidently intended: it also requires the squares
      to fit where they land. */
  ghost function SlidLeftChecked(g: seq<seq<Cell>>, b: Block): Block {
    var moved := b.(x := b.x - 1.0, y := b.y + 1.0);
    if CanGoLeft(g, b) && CanFall(g, b) && Fits(g, moved) then moved else b
  }

  ghost function SlidRightChecked(g: seq<seq<Cell>>, b: Block): Block {
    var moved := b.(x := b.x + 1.0, y := b.y + 1.0);
    if CanGoRight(g, b) && CanFall(g, b) && Fits(g, moved) then moved else b
  }

  /** The checked diagonal moves keep a piece that fits fitting, and agree
      with the moves as written whenever the landing cells are free. */
  lemma {:induction false} CheckedSlideFits(g: seq<seq<Cell>>, b: Block)
    requires Fits(g, b)
    ensures Fits(g, SlidLeftChecked(g, b)) && Fits(g, SlidRightChecked(g, b))
    ensures Fits(g, SlidLeft(g, b)) ==> SlidLeftChecked(g, b) == SlidLeft(g, b)
    ensures Fits(g, SlidRight(g, b)) ==> SlidRightChecked(g, b) == SlidRight(g, b)
  {
  }
}
