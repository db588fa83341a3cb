/** The script-level state of the legacy engine in tetris/Tetris.ts: the
    map, the current and the next piece, the score and the two screen flags,
    with the line clear, the timed update, the reset and the keyboard
    handler that drive them. Randomness enters as the shape indices a call
    is given. */
module LegacyGame {
  import opened Grid
  import opened JsNumber
  import opened LegacyTetris

  /** The globals of the script as a value. */
  datatype State = State(gameStart: bool, gameMap: seq<seq<Cell>>, gameOver: bool,
                         current: Block, next: Block, score: int)

  /** What every handler keeps: a map of the canvas's size, wide enough for a
      four-wide template at the middle column and three rows high, a score
      that is not negative, and both pieces on the map. */
  ghost predicate Consistent(s: State, squareCountX: int, squareCountY: int) {
    7 <= squareCountX && 3 <= squareCountY && IsGrid(s.gameMap, squareCountX, squareCountY) &&
    0 <= s.score && Inside(s.current, squareCountX, squareCountY) &&
    Inside(s.next, squareCountX, squareCountY)
  }

  /** Every template of the shapes table is square, two to four wide, and
      has its occupied squares in its first three columns. */
  lemma {:induction false} ShapesWellFormed(k: nat)
    requires k < |SHAPES|
    ensures IsSquare(SHAPES[k].template) && 2 <= |SHAPES[k].template| <= 4
    ensures forall i, j ::
      0 <= i < |SHAPES[k].template| && 0 <= j < |SHAPES[k].template[i]| && SHAPES[k].template[i][j] != 0 ==> j <= 2
  {
    var t := SHAPES[k].template;
    if k == 4 {
      assert forall i :: 0 <= i < 4 ==> t[i] == [0, 0, 1, 0];
    }
  }

  /** getRandomShape, with the random index supplied: a piece of shape k at
      the middle column of the top row. */
  function Spawn(k: nat, squareCountX: int): Block
    requires k < |SHAPES|
  {
    Block(SHAPES[k].imageX, SHAPES[k].imageY, SHAPES[k].template, squareCountX as real / 2.0, 0.0)
  }

  /** A fresh piece lies on any map at least seven wide and three high. */
  lemma {:induction false} SpawnInside(k: nat, squareCountX: int, squareCountY: int)
    requires k < |SHAPES| && 7 <= squareCountX && 3 <= squareCountY
    ensures Inside(Spawn(k, squareCountX), squareCountX, squareCountY)
  {
    var b := Spawn(k, squareCountX);
    ShapesWellFormed(k);
    TruncOfInt(0);
    forall i, j | Solid(b, i, j)
      ensures 0 <= RealX(b, i) < squareCountX && 0 <= RealY(b, j) < squareCountY
    {
    }
  }

  /** The state the script starts in: the start screen up and resetVars done. */
  function Initial(squareCountX: nat, squareCountY: nat, k1: nat, k2: nat): State
    requires k1 < |SHAPES| && k2 < |SHAPES|
  {
    State(true, EmptyRows(squareCountY, squareCountX), false, Spawn(k1, squareCountX), Spawn(k2, squareCountX), 0)
  }

  /** resetVars: an empty map, a zero score, no game over and two fresh
      pieces; the start flag is left alone. */
  function Reset(s: State, squareCountX: nat, squareCountY: nat, k1: nat, k2: nat): State
    requires k1 < |SHAPES| && k2 < |SHAPES|
  {
    s.(gameMap := EmptyRows(squareCountY, squareCountX), score := 0, gameOver := false,
       current := Spawn(k1, squareCountX), next := Spawn(k2, squareCountX))
  }

  /** The map cell (r, c) lies under an occupied square of b. */
  predicate Covers(b: Block, r: int, c: int) {
    Solid(b, c - Trunc(b.x), r - Trunc(b.y))
  }

  /** The lock loop of update: every cell under an occupied square of b
      takes b's sprite tag. */
  function Stamped(g: seq<seq<Cell>>, b: Block): seq<seq<Cell>> {
    seq(|g|, r requires 0 <= r < |g| => seq(|g[r]|, c requires 0 <= c < |g[r]| =>
      if Covers(b, r, c) then Cell(b.imageX, b.imageY) else g[r][c]))
  }

  /** Locking keeps the map's size, marks every square of the piece with its
      sprite tag and leaves every other cell as it was. */
  lemma {:induction false} StampedCells(g: seq<seq<Cell>>, b: Block, squareCountX: int, squareCountY: int)
    requires IsGrid(g, squareCountX, squareCountY) && Inside(b, squareCountX, squareCountY)
    ensures IsGrid(Stamped(g, b), squareCountX, squareCountY)
    ensures forall i, j {:trigger Solid(b, i, j)} :: Solid(b, i, j) ==>
      Stamped(g, b)[RealY(b, j)][RealX(b, i)] == Cell(b.imageX, b.imageY)
    ensures forall r, c :: 0 <= r < |g| && 0 <= c < |g[r]| && !Covers(b, r, c) ==> Stamped(g, b)[r][c] == g[r][c]
  {
    var m := Stamped(g, b);
    forall i, j | Solid(b, i, j) ensures m[RealY(b, j)][RealX(b, i)] == Cell(b.imageX, b.imageY) {
      assert Covers(b, RealY(b, j), RealX(b, i));
    }
  }

  /** The landing branch of update: lock the piece, clear complete rows for
      1000 points each, promote the next piece, draw a new one, and end the
      game if the promoted piece cannot fall; a landing earns 100 points. */
  ghost function Landed(s: State, squareCountX: nat, k: nat): State
    requires k < |SHAPES|
  {
    var stamped := Stamped(s.gameMap, s.current);
    var g := Cleared(stamped, squareCountX);
    s.(gameMap := g, score := s.score + 1000 * CountComplete(stamped) + 100,
       current := s.next, next := Spawn(k, squareCountX), gameOver := !CanFall(g, s.next))
  }

  /** update: nothing once the game is over; otherwise the piece falls a row
      if it can, and lands if it cannot. */
  ghost function Updated(s: State, squareCountX: nat, k: nat): State
    requires k < |SHAPES|
  {
    if s.gameOver then s
    else if CanFall(s.gameMap, s.current) then s.(current := s.current.(y := s.current.y + 1.0))
    else Landed(s, squareCountX, k)
  }

  /** The key branches of the keyboard handler, for a game that is not over. */
  ghost function Steered(s: State, key: string): State
    requires IsSquare(s.current.template)
  {
    var g, b := s.gameMap, s.current;
    if key == "ArrowLeft" then s.(current := ShiftedLeft(g, b))
    else if key == "e" || key == "E" then s.(current := RotatedRight(g, b))
    else if key == "q" || key == "Q" then s.(current := RotatedLeft(g, b))
    else if key == "ArrowRight" then s.(current := ShiftedRight(g, b))
    else if key == "ArrowDown" then s.(current := Lowered(g, b), score := s.score + if CanFall(g, b) then 1 else 0)
    else if key == " " then s.(current := Lowered(g, b), score := s.score + if CanFall(g, b) then 20 else 0)
    else s
  }

  /** The keyboard handler: Enter on the start screen resets and leaves it,
      Enter after a game over resets, and a game that is not over is steered
      (also behind the start screen). */
  ghost function Pressed(s: State, key: string, squareCountX: nat, squareCountY: nat, k1: nat, k2: nat): State
    requires Consistent(s, squareCountX, squareCountY) && k1 < |SHAPES| && k2 < |SHAPES|
  {
    var started := if s.gameStart && key == "Enter" then Reset(s, squareCountX, squareCountY, k1, k2).(gameStart := false) else s;
    var restarted := if started.gameOver && key == "Enter" then Reset(started, squareCountX, squareCountY, k1, k2) else started;
    ShapesWellFormed(k1);
    if restarted.gameOver then restarted else Steered(restarted, key)
  }

  /** The script's starting state, and any reset, satisfies the invariant:
      an empty map of the canvas's size, a zero score and the game not over. */
  lemma {:induction false} ResetConsistent(s: State, squareCountX: nat, squareCountY: nat, k1: nat, k2: nat)
    requires k1 < |SHAPES| && k2 < |SHAPES| && 7 <= squareCountX && 3 <= squareCountY
    ensures Consistent(Initial(squareCountX, squareCountY, k1, k2), squareCountX, squareCountY)
    ensures var r := Reset(s, squareCountX, squareCountY, k1, k2);
      Consistent(r, squareCountX, squareCountY) && !r.gameOver && r.score == 0 &&
      r.gameStart == s.gameStart &&
      forall i, j :: 0 <= i < squareCountY && 0 <= j < squareCountX ==> IsEmpty(r.gameMap[i][j])
  {
    SpawnInside(k1, squareCountX, squareCountY);
    SpawnInside(k2, squareCountX, squareCountY);
  }

  /** update keeps the invariant and never touches the start flag. */
  lemma {:induction false} UpdateConsistent(s: State, squareCountX: nat, squareCountY: nat, k: nat)
    requires Consistent(s, squareCountX, squareCountY) && k < |SHAPES|
    ensures Consistent(Updated(s, squareCountX, k), squareCountX, squareCountY)
    ensures Updated(s, squareCountX, k).gameStart == s.gameStart
  {
    if !s.gameOver {
      if CanFall(s.gameMap, s.current) {
        FallKeepsInside(s.gameMap, s.current, squareCountX, squareCountY);
      } else {
        StampedCells(s.gameMap, s.current, squareCountX, squareCountY);
        ClearedShape(Stamped(s.gameMap, s.current), squareCountX, squareCountY);
        SpawnInside(k, squareCountX, squareCountY);
      }
    }
  }

  /** A landing leaves no complete row on the map, pays 100 points plus 1000
      for every row the locked piece completed, promotes the next piece, and
      ends the game exactly when the promoted piece cannot fall. */
  lemma {:induction false} LandingClears(s: State, squareCountX: nat, squareCountY: nat, k: nat)
    requires Consistent(s, squareCountX, squareCountY) && k < |SHAPES|
    requires !s.gameOver && !CanFall(s.gameMap, s.current)
    ensures var u := Updated(s, squareCountX, k);
      |u.gameMap| == squareCountY && (forall r :: 0 <= r < squareCountY ==> !IsComplete(u.gameMap[r])) &&
      u.score == s.score + 100 + 1000 * CountComplete(Stamped(s.gameMap, s.current)) &&
      u.current == s.next && (u.gameOver <==> !CanFall(u.gameMap, s.next))
  {
    StampedCells(s.gameMap, s.current, squareCountX, squareCountY);
    ClearedShape(Stamped(s.gameMap, s.current), squareCountX, squareCountY);
  }

  /** A game that is over ignores the timer and every key but Enter. */
  lemma {:induction false} GameOverFreezes(s: State, key: string, squareCountX: nat, squareCountY: nat, k1: nat, k2: nat)
    requires Consistent(s, squareCountX, squareCountY) && k1 < |SHAPES| && k2 < |SHAPES|
    requires s.gameOver
    ensures Updated(s, squareCountX, k1) == s
    ensures key != "Enter" ==> Pressed(s, key, squareCountX, squareCountY, k1, k2) == s
  {
  }

  /** Enter starts a new game from the start screen or after a game over:
      the state is reset and the start screen gone. In a running game Enter
      does nothing. */
  lemma {:induction false} EnterRestarts(s: State, squareCountX: nat, squareCountY: nat, k1: nat, k2: nat)
    requires Consistent(s, squareCountX, squareCountY) && k1 < |SHAPES| && k2 < |SHAPES|
    ensures (s.gameStart || s.gameOver) ==>
      Pressed(s, "Enter", squareCountX, squareCountY, k1, k2) == Reset(s, squareCountX, squareCountY, k1, k2).(gameStart := false)
    ensures !(s.gameStart || s.gameOver) ==> Pressed(s, "Enter", squareCountX, squareCountY, k1, k2) == s
  {
    var e := "Enter";
    assert e != "ArrowLeft" && e != "e" && e != "E" && e != "q" && e != "Q";
    assert e != "ArrowRight" && e != "ArrowDown" && e != " ";
    if s.gameOver && !s.gameStart {
      ShapesWellFormed(k1);
      var r := Reset(s, squareCountX, squareCountY, k1, k2);
      assert r.gameStart == false;
      assert r == r.(gameStart := false);
    }
  }

  /** The keyboard handler keeps the invariant. */
  lemma {:induction false} PressedConsistent(s: State, key: string, squareCountX: nat, squareCountY: nat, k1: nat, k2: nat)
    requires Consistent(s, squareCountX, squareCountY) && k1 < |SHAPES| && k2 < |SHAPES|
    ensures Consistent(Pressed(s, key, squareCountX, squareCountY, k1, k2), squareCountX, squareCountY)
  {
    var started := if s.gameStart && key == "Enter" then Reset(s, squareCountX, squareCountY, k1, k2).(gameStart := false) else s;
    var restarted := if started.gameOver && key == "Enter" then Reset(started, squareCountX, squareCountY, k1, k2) else started;
    ResetConsistent(s, squareCountX, squareCountY, k1, k2);
    ResetConsistent(started, squareCountX, squareCountY, k1, k2);
    assert Consistent(restarted, squareCountX, squareCountY);
    if !restarted.gameOver {
      SteeredConsistent(restarted, key, squareCountX, squareCountY);
    }
  }

  /** Steering keeps the invariant and never lowers the score. */
  lemma {:induction false} SteeredConsistent(s: State, key: string, squareCountX: nat, squareCountY: nat)
    requires Consistent(s, squareCountX, squareCountY)
    ensures Consistent(Steered(s, key), squareCountX, squareCountY)
    ensures Steered(s, key).score >= s.score && Steered(s, key).gameMap == s.gameMap
  {
    var g, b := s.gameMap, s.current;
    if key == "ArrowLeft" || key == "ArrowRight" {
      ShiftKeepsInside(g, b, squareCountX, squareCountY);
    } else if key == "e" || key == "E" || key == "q" || key == "Q" {
      RotationKeepsInside(g, b, squareCountX, squareCountY);
    } else {
      FallKeepsInside(g, b, squareCountX, squareCountY);
    }
  }

  /** The score never drops, except that Enter may reset it: the timer adds
      points only when a piece lands, and every other key only when the piece
      goes down. */
  lemma {:induction false} ScoreNeverDrops(s: State, key: string, squareCountX: nat, squareCountY: nat, k1: nat, k2: nat)
    requires Consistent(s, squareCountX, squareCountY) && k1 < |SHAPES| && k2 < |SHAPES|
    ensures Updated(s, squareCountX, k1).score >= s.score
    ensures Updated(s, squareCountX, k1).score > s.score <==> !s.gameOver && !CanFall(s.gameMap, s.current)
    ensures key != "Enter" ==> Pressed(s, key, squareCountX, squareCountY, k1, k2).score >= s.score
  {
    if !s.gameOver {
      SteeredConsistent(s, key, squareCountX, squareCountY);
    }
  }

  /** The row-building loop of resetVars and deleteCompleteRows. */
  method EmptyLine(squareCountX: nat) returns (temp: seq<Cell>)
    ensures temp == EmptyRow(squareCountX)
  {
    temp := [];
    for j := 0 to squareCountX
      invariant |temp| == j && forall i :: 0 <= i < j ==> temp[i] == EMPTY
    {
      temp := temp + [EMPTY];
    }
  }

  /** The map-building loop of resetVars. */
  method EmptyMap(squareCountX: nat, squareCountY: nat) returns (initialTwoDArr: seq<seq<Cell>>)
    ensures initialTwoDArr == EmptyRows(squareCountY, squareCountX)
  {
    initialTwoDArr := [];
    for i := 0 to squareCountY
      invariant |initialTwoDArr| == i && forall r :: 0 <= r < i ==> initialTwoDArr[r] == EmptyRow(squareCountX)
    {
      var temp := EmptyLine(squareCountX);
      initialTwoDArr := initialTwoDArr + [temp];
    }
  }

  /** The completeness scan of deleteCompleteRows: a row is complete when no
      cell has the empty tag. */
  method IsCompleteRow(t: seq<Cell>) returns (isComplete: bool)
    ensures isComplete == IsComplete(t)
  {
    isComplete := true;
    for j := 0 to |t|
      invariant isComplete <==> forall i :: 0 <= i < j ==> !IsEmpty(t[i])
    {
      if t[j].imageX == -1 {
        isComplete := false;
      }
    }
  }

  /** getRandomShape, with the random index supplied: a new piece of shape k. */
  method RandomShape(k: nat, squareCountX: int) returns (p: Piece)
    requires k < |SHAPES|
    ensures fresh(p) && fresh(p.template) && p.template.Length0 == p.template.Length1
    ensures p.Model() == Spawn(k, squareCountX)
  {
    ShapesWellFormed(k);
    p := new Piece(SHAPES[k].imageX, SHAPES[k].imageY, SHAPES[k].template, squareCountX);
  }

  /** A map of the right size that agrees with the stamp cell by cell is the stamp. */
  lemma {:induction false} StampedIs(g: seq<seq<Cell>>, b: Block, m: seq<seq<Cell>>, squareCountX: int, squareCountY: int)
    requires IsGrid(g, squareCountX, squareCountY) && IsGrid(m, squareCountX, squareCountY)
    requires forall r, c :: 0 <= r < squareCountY && 0 <= c < squareCountX ==>
      m[r][c] == if Covers(b, r, c) then Cell(b.imageX, b.imageY) else g[r][c]
    ensures m == Stamped(g, b)
  {
    var s := Stamped(g, b);
    forall r | 0 <= r < squareCountY ensures m[r] == s[r] {
    }
  }

  /** One row of the top-to-bottom scan of deleteCompleteRows: the rows
      cleared so far are as many as were looked at, and looking at one more
      row adds an empty row on top if it is complete and keeps it below
      otherwise. */
  lemma {:induction false} ScanStep(g: seq<seq<Cell>>, i: nat, width: nat)
    requires i < |g|
    ensures |Cleared(g[..i], width)| == i
    ensures Cleared(g[..i + 1], width) ==
      if IsComplete(g[i]) then [EmptyRow(width)] + Cleared(g[..i], width) else Cleared(g[..i], width) + [g[i]]
    ensures CountComplete(g[..i + 1]) == CountComplete(g[..i]) + if IsComplete(g[i]) then 1 else 0
  {
    var a := g[..i];
    KeptSize(a);
    assert g[..i + 1] == a + [g[i]];
    KeptSnoc(a, g[i]);
    ClearedSnoc(a, g[i], width);
  }

  /** The rows cleared so far followed by the rest, split at row i. */
  lemma {:induction false} SplitAfter<T>(c: seq<T>, g: seq<T>, i: nat)
    requires i < |g|
    ensures var m := c + g[i..];
      |m| == |c| + |g| - i && m[|c|] == g[i] && m[..|c|] == c && m[|c| + 1..] == g[i + 1..] &&
      m == c + [g[i]] + g[i + 1..]
  {
    assert g[i..] == [g[i]] + g[i + 1..];
  }

  /** The globals of the script and its handlers. The map is a sequence of
      rows the handlers reassign; the two pieces are objects. */
  class Session {
    const squareCountX: nat
    const squareCountY: nat
    var gameStart: bool
    var gameMap: seq<seq<Cell>>
    var gameOver: bool
    var currentShape: Piece
    var nextShape: Piece
    var score: int

    ghost function Model(): State
      reads this, currentShape, currentShape.template, nextShape, nextShape.template
    {
      State(gameStart, gameMap, gameOver, currentShape.Model(), nextShape.Model(), score)
    }

    /** The two pieces and their templates are distinct objects, the
        templates are square, and the state is consistent. */
    ghost predicate Valid()
      reads this, currentShape, currentShape.template, nextShape, nextShape.template
    {
      currentShape != nextShape && currentShape.template != nextShape.template &&
      currentShape.template.Length0 == currentShape.template.Length1 &&
      nextShape.template.Length0 == nextShape.template.Length1 &&
      Consistent(Model(), squareCountX, squareCountY)
    }

    /** Loading the script: the start flag set, then resetVars. */
    constructor (squareCountX: nat, squareCountY: nat, k1: nat, k2: nat)
      requires 7 <= squareCountX && 3 <= squareCountY && k1 < |SHAPES| && k2 < |SHAPES|
      ensures Valid() && Model() == Initial(squareCountX, squareCountY, k1, k2)
    {
      this.squareCountX := squareCountX;
      this.squareCountY := squareCountY;
      gameStart := true;
      var initialTwoDArr := EmptyMap(squareCountX, squareCountY);
      score := 0;
      gameOver := false;
      var c := RandomShape(k1, squareCountX);
      var n := RandomShape(k2, squareCountX);
      currentShape := c;
      nextShape := n;
      gameMap := initialTwoDArr;
      new;
      ResetConsistent(Model(), squareCountX, squareCountY, k1, k2);
    }

    /** deleteCompleteRows: rows are scanned from the top; each complete row
        earns 1000 points, the rows above it move down one and an empty row
        enters on top. */
    method DeleteCompleteRows()
      requires IsGrid(gameMap, squareCountX, squareCountY) && 0 < squareCountX
      modifies this
      ensures gameMap == Cleared(old(gameMap), squareCountX)
      ensures score == old(score) + 1000 * CountComplete(old(gameMap))
      ensures gameStart == old(gameStart) && gameOver == old(gameOver)
      ensures currentShape == old(currentShape) && nextShape == old(nextShape)
    {
      ghost var g := gameMap;
      var i := 0;
      while i < |gameMap|
        invariant 0 <= i <= |g| && gameMap == Cleared(g[..i], squareCountX) + g[i..]
        invariant |gameMap| == |g|
        invariant score == old(score) + 1000 * CountComplete(g[..i])
        invariant gameStart == old(gameStart) && gameOver == old(gameOver)
        invariant currentShape == old(currentShape) && nextShape == old(nextShape)
      {
        ScanStep(g, i, squareCountX);
        SplitAfter(Cleared(g[..i], squareCountX), g, i);
        var t := gameMap[i];
        var isComplete := IsCompleteRow(t);
        if isComplete {
          score := score + 1000;
          ShiftDown(i);
        }
        i := i + 1;
      }
      assert g[..i] == g;
    }

    /** The shift of deleteCompleteRows for a complete row i: rows 0 to i - 1
        move down one, over row i, and an empty row enters at the top. */
    method ShiftDown(i: nat)
      requires i < |gameMap|
      modifies this
      ensures gameMap == [EmptyRow(squareCountX)] + old(gameMap)[..i] + old(gameMap)[i + 1..]
      ensures score == old(score) && gameStart == old(gameStart) && gameOver == old(gameOver)
      ensures currentShape == old(currentShape) && nextShape == old(nextShape)
    {
      ghost var m := gameMap;
      var k := i;
      while k > 0
        invariant 0 <= k <= i && |gameMap| == |m|
        invariant forall j :: 0 <= j <= k || i < j < |m| ==> gameMap[j] == m[j]
        invariant forall j :: k < j <= i ==> gameMap[j] == m[j - 1]
        invariant score == old(score) && gameStart == old(gameStart) && gameOver == old(gameOver)
        invariant currentShape == old(currentShape) && nextShape == old(nextShape)
      {
        gameMap := gameMap[k := gameMap[k - 1]];
        k := k - 1;
      }
      var temp := EmptyLine(squareCountX);
      gameMap := gameMap[0 := temp];
      assert gameMap == [EmptyRow(squareCountX)] + m[..i] + m[i + 1..];
    }

    /** The lock loop of update: every occupied square of the current piece
        writes the piece's sprite tag into the map cell under it. */
    method LockCurrent()
      requires IsGrid(gameMap, squareCountX, squareCountY) && currentShape.OnMap(squareCountX, squareCountY)
      modifies this
      ensures gameMap == Stamped(old(gameMap), currentShape.Model())
      ensures score == old(score) && gameStart == old(gameStart) && gameOver == old(gameOver)
      ensures currentShape == old(currentShape) && nextShape == old(nextShape)
    {
      ghost var g := gameMap;
      ghost var b := currentShape.Model();
      var t := currentShape.template;
      var n := t.Length0;
      var tag := Cell(currentShape.imageX, currentShape.imageY);
      var px, py := Trunc(currentShape.x), Trunc(currentShape.y);
      for k := 0 to n
        invariant IsGrid(gameMap, squareCountX, squareCountY)
        invariant forall r, c :: 0 <= r < squareCountY && 0 <= c < squareCountX ==>
          gameMap[r][c] == if Covers(b, r, c) && c - px < k then tag else g[r][c]
        invariant score == old(score) && gameStart == old(gameStart) && gameOver == old(gameOver)
        invariant currentShape == old(currentShape) && nextShape == old(nextShape)
      {
        for l := 0 to n
          invariant IsGrid(gameMap, squareCountX, squareCountY)
          invariant forall r, c :: 0 <= r < squareCountY && 0 <= c < squareCountX ==>
            gameMap[r][c] == if Covers(b, r, c) && (c - px < k || (c - px == k && r - py < l)) then tag else g[r][c]
          invariant score == old(score) && gameStart == old(gameStart) && gameOver == old(gameOver)
          invariant currentShape == old(currentShape) && nextShape == old(nextShape)
        {
          if t[k, l] != 0 {
            assert Solid(b, k, l);
            gameMap := gameMap[py + l := gameMap[py + l][px + k := tag]];
          }
        }
      }
      StampedIs(g, b, gameMap, squareCountX, squareCountY);
    }

    /** update, with the index of the shape a landing draws supplied. */
    method Update(k: nat)
      requires Valid() && k < |SHAPES|
      modifies this, currentShape
      ensures Valid() && Model() == Updated(old(Model()), squareCountX, k)
    {
      if gameOver {
        return;
      }
      UpdateConsistent(Model(), squareCountX, squareCountY, k);
      var falls := currentShape.CheckBottom(gameMap, squareCountX, squareCountY);
      if falls {
        currentShape.y := currentShape.y + 1.0;
      } else {
        Land(k);
      }
    }

    /** The landing branch of update: lock, clear, promote the next piece,
        draw a new one, test for the end of the game, and pay 100 points. */
    method Land(k: nat)
      requires Valid() && k < |SHAPES| && !gameOver && !CanFall(gameMap, currentShape.Model())
      modifies this
      ensures Valid() && Model() == Landed(old(Model()), squareCountX, k)
    {
      ghost var s := Model();
      ghost var u := Landed(s, squareCountX, k);
      UpdateConsistent(s, squareCountX, squareCountY, k);
      LockAndClear();
      Promote(k);
      assert Model() == u;
    }

    /** The lock loop followed by deleteCompleteRows. */
    method LockAndClear()
      requires IsGrid(gameMap, squareCountX, squareCountY) && 0 < squareCountX
      requires currentShape.OnMap(squareCountX, squareCountY)
      modifies this
      ensures gameMap == Cleared(Stamped(old(gameMap), currentShape.Model()), squareCountX)
      ensures IsGrid(gameMap, squareCountX, squareCountY)
      ensures score == old(score) + 1000 * CountComplete(Stamped(old(gameMap), currentShape.Model()))
      ensures gameStart == old(gameStart) && gameOver == old(gameOver)
      ensures currentShape == old(currentShape) && nextShape == old(nextShape)
    {
      StampedCells(gameMap, currentShape.Model(), squareCountX, squareCountY);
      ClearedShape(Stamped(gameMap, currentShape.Model()), squareCountX, squareCountY);
      LockCurrent();
      DeleteCompleteRows();
    }

    /** The end of a landing: the next piece becomes current, a new one is
        drawn, the game ends if the promoted piece cannot fall, and the
        landing pays 100 points. */
    method Promote(k: nat)
      requires k < |SHAPES| && !gameOver
      requires IsGrid(gameMap, squareCountX, squareCountY) && nextShape.OnMap(squareCountX, squareCountY)
      modifies this
      ensures currentShape == old(nextShape) && fresh(nextShape) && fresh(nextShape.template)
      ensures nextShape.template.Length0 == nextShape.template.Length1 && nextShape.Model() == Spawn(k, squareCountX)
      ensures gameOver == !CanFall(gameMap, currentShape.Model())
      ensures score == old(score) + 100 && gameMap == old(gameMap) && gameStart == old(gameStart)
    {
      currentShape := nextShape;
      nextShape := RandomShape(k, squareCountX);
      var down := currentShape.CheckBottom(gameMap, squareCountX, squareCountY);
      if !down {
        gameOver := true;
      }
      score := score + 100;
    }

    /** resetVars, with the indices of the two shapes it draws supplied. */
    method ResetVars(k1: nat, k2: nat)
      requires Valid() && k1 < |SHAPES| && k2 < |SHAPES|
      modifies this
      ensures fresh(currentShape) && fresh(currentShape.template)
      ensures Valid() && Model() == Reset(old(Model()), squareCountX, squareCountY, k1, k2)
    {
      ghost var s := Model();
      ResetConsistent(s, squareCountX, squareCountY, k1, k2);
      var initialTwoDArr := EmptyMap(squareCountX, squareCountY);
      score := 0;
      gameOver := false;
      currentShape := RandomShape(k1, squareCountX);
      nextShape := RandomShape(k2, squareCountX);
      gameMap := initialTwoDArr;
    }

    /** The key branches of the keyboard handler: each moves or turns the
        current piece, and a move down adds its points to the score. */
    method Steer(key: string)
      requires Valid()
      modifies this, currentShape, currentShape.template
      ensures Valid() && Model() == Steered(old(Model()), key)
    {
      ghost var s := Model();
      SteeredConsistent(s, key, squareCountX, squareCountY);
      if key == "ArrowLeft" {
        currentShape.MoveLeft(gameMap, squareCountX, squareCountY);
      } else if key == "e" || key == "E" {
        var _ := currentShape.ChangeRotationRight(gameMap, squareCountX, squareCountY);
      } else if key == "q" || key == "Q" {
        var _ := currentShape.ChangeRotationLeft(gameMap, squareCountX, squareCountY);
      } else if key == "ArrowRight" {
        currentShape.MoveRight(gameMap, squareCountX, squareCountY);
      } else if key == "ArrowDown" {
        var points := currentShape.MoveBottom(gameMap, squareCountX, squareCountY);
        score := score + points;
      } else if key == " " {
        var points := currentShape.HardDropStep(gameMap, squareCountX, squareCountY);
        score := score + points;
      }
      assert Model() == Steered(s, key);
    }

    /** The first keydown handler, with the indices of the shapes a reset
        draws supplied. */
    method KeyDown(key: string, k1: nat, k2: nat)
      requires Valid() && k1 < |SHAPES| && k2 < |SHAPES|
      modifies this, currentShape, currentShape.template
      ensures Valid() && Model() == Pressed(old(Model()), key, squareCountX, squareCountY, k1, k2)
    {
      if gameStart && key == "Enter" {
        ResetVars(k1, k2);
        gameStart := false;
      }
      if gameOver && key == "Enter" {
        ResetVars(k1, k2);
      }
      if !gameOver {
        Steer(key);
      }
    }
  }
}
