/** Cells, rectangular grids and the specification of a line clear, shared
    by both falling-block engines. A cell is empty exactly when its
    appearance tag has imageX == -1; a row is complete when none of its
    cells is empty. */
module Grid {

  datatype Cell = Cell(imageX: int, imageY: int)

  /** The cell both engines write into a fresh or cleared row. */
  const EMPTY: Cell := Cell(-1, -1)

  predicate IsEmpty(c: Cell) {
    c.imageX == -1
  }

  predicate IsComplete(row: seq<Cell>) {
    forall j :: 0 <= j < |row| ==> !IsEmpty(row[j])
  }

  /** `height` rows of `width` cells each. */
  predicate IsGrid(g: seq<seq<Cell>>, width: int, height: int) {
    |g| == height && forall r :: 0 <= r < |g| ==> |g[r]| == width
  }

  function EmptyRow(width: nat): seq<Cell> {
    seq(width, _ => EMPTY)
  }

  function EmptyRows(n: nat, width: nat): seq<seq<Cell>> {
    seq(n, _ => EmptyRow(width))
  }

  /** The rows that are not complete, in their original order. */
  function Kept(g: seq<seq<Cell>>): seq<seq<Cell>> {
    if g == [] then []
    else (if IsComplete(g[0]) then [] else [g[0]]) + Kept(g[1..])
  }

  /** The number of complete rows. */
  function CountComplete(g: seq<seq<Cell>>): nat {
    if g == [] then 0
    else (if IsComplete(g[0]) then 1 else 0) + CountComplete(g[1..])
  }

  /** The grid after a line clear: one empty row on top for every complete
      row removed, then the remaining rows in their original order. */
  function Cleared(g: seq<seq<Cell>>, width: nat): seq<seq<Cell>> {
    EmptyRows(CountComplete(g), width) + Kept(g)
  }

  lemma {:induction false} KeptConcat(a: seq<seq<Cell>>, b: seq<seq<Cell>>)
    ensures Kept(a + b) == Kept(a) + Kept(b)
    ensures CountComplete(a + b) == CountComplete(a) + CountComplete(b)
  {
    if a == [] {
      assert a + b == b;
    } else {
      var t := a[1..];
      assert (a + b)[0] == a[0];
      assert (a + b)[1..] == t + b;
      KeptConcat(t, b);
      var h := if IsComplete(a[0]) then [] else [a[0]];
      assert Kept(a + b) == h + Kept(t + b);
      assert h + (Kept(t) + Kept(b)) == (h + Kept(t)) + Kept(b);
    }
  }

  /** Appending one row at the bottom: the form the top-to-bottom scan needs. */
  lemma {:induction false} KeptSnoc(a: seq<seq<Cell>>, row: seq<Cell>)
    ensures Kept(a + [row]) == Kept(a) + (if IsComplete(row) then [] else [row])
    ensures CountComplete(a + [row]) == CountComplete(a) + (if IsComplete(row) then 1 else 0)
  {
    KeptConcat(a, [row]);
    assert [row][1..] == [];
  }

  /** A top-to-bottom line clear that has looked at the rows of a and now
      meets row: a complete row becomes one more empty row on top, any other
      row is kept below the rest. */
  lemma {:induction false} ClearedSnoc(a: seq<seq<Cell>>, row: seq<Cell>, width: nat)
    ensures Cleared(a + [row], width) ==
      if IsComplete(row) then [EmptyRow(width)] + Cleared(a, width) else Cleared(a, width) + [row]
  {
    KeptSnoc(a, row);
    var n := CountComplete(a);
    assert EmptyRows(n + 1, width) == [EmptyRow(width)] + EmptyRows(n, width);
  }

  /** Every row is either kept or counted, so a line clear keeps the height. */
  lemma {:induction false} KeptSize(g: seq<seq<Cell>>)
    ensures |Kept(g)| + CountComplete(g) == |g|
  {
    if g != [] {
      KeptSize(g[1..]);
    }
  }

  /** No kept row is complete, and every kept row has the width of the grid. */
  lemma {:induction false} KeptRows(g: seq<seq<Cell>>, width: int)
    requires IsGrid(g, width, |g|)
    ensures forall r :: 0 <= r < |Kept(g)| ==> !IsComplete(Kept(g)[r]) && |Kept(g)[r]| == width
  {
    if g != [] {
      KeptRows(g[1..], width);
    }
  }

  /** Filtering rows none of which is complete keeps them all and counts zero. */
  lemma {:induction false} NoCompleteRows(g: seq<seq<Cell>>)
    requires forall r :: 0 <= r < |g| ==> !IsComplete(g[r])
    ensures CountComplete(g) == 0 && Kept(g) == g
  {
    if g != [] {
      NoCompleteRows(g[1..]);
    }
  }

  /** With no complete row a line clear changes nothing and counts zero. */
  lemma {:induction false} NoCompleteRowsUnchanged(g: seq<seq<Cell>>, width: nat)
    requires forall r :: 0 <= r < |g| ==> !IsComplete(g[r])
    ensures CountComplete(g) == 0 && Cleared(g, width) == g
  {
    NoCompleteRows(g);
    assert EmptyRows(0, width) == [];
  }

  /** With exactly one complete row, at index k, that row is removed, the rows
      above it move down by one and an empty row appears on top. */
  lemma {:induction false} ClearSingleRow(g: seq<seq<Cell>>, width: nat, k: nat)
    requires k < |g| && IsComplete(g[k])
    requires forall r :: 0 <= r < |g| && r != k ==> !IsComplete(g[r])
    ensures CountComplete(g) == 1
    ensures Cleared(g, width) == [EmptyRow(width)] + g[..k] + g[k + 1..]
  {
    KeptWithoutRow(g, k);
    assert EmptyRows(1, width) == [EmptyRow(width)];
  }

  lemma {:induction false} KeptWithoutRow(g: seq<seq<Cell>>, k: nat)
    requires k < |g| && IsComplete(g[k])
    requires forall r :: 0 <= r < |g| && r != k ==> !IsComplete(g[r])
    ensures Kept(g) == g[..k] + g[k + 1..] && CountComplete(g) == 1
  {
    var above, below := g[..k], g[k + 1..];
    SplitAt(g, k);
    forall r | 0 <= r < |above| ensures !IsComplete(above[r]) {
      assert above[r] == g[r];
    }
    forall r | 0 <= r < |below| ensures !IsComplete(below[r]) {
      assert below[r] == g[k + 1 + r];
    }
    RowRemoved(above, g[k], below);
  }

  lemma {:induction false} SplitAt<T>(s: seq<T>, k: nat)
    requires k < |s|
    ensures s == s[..k] + ([s[k]] + s[k + 1..])
  {
    assert s[k..] == [s[k]] + s[k + 1..];
    assert s == s[..k] + s[k..];
  }

  /** One complete row between rows none of which is complete. */
  lemma {:induction false} RowRemoved(above: seq<seq<Cell>>, row: seq<Cell>, below: seq<seq<Cell>>)
    requires forall r :: 0 <= r < |above| ==> !IsComplete(above[r])
    requires forall r :: 0 <= r < |below| ==> !IsComplete(below[r])
    requires IsComplete(row)
    ensures Kept(above + ([row] + below)) == above + below
    ensures CountComplete(above + ([row] + below)) == 1
  {
    var t := [row] + below;
    assert Kept(t) == below && CountComplete(t) == 1 by {
      NoCompleteRows(below);
      SingleCompleteRow(row);
      KeptConcat([row], below);
      assert [] + below == below;
    }
    assert Kept(above) == above && CountComplete(above) == 0 by {
      NoCompleteRows(above);
    }
    KeptConcat(above, t);
  }

  lemma {:induction false} SingleCompleteRow(row: seq<Cell>)
    requires IsComplete(row)
    ensures Kept([row]) == [] && CountComplete([row]) == 1
  {
    assert [row][1..] == [];
  }

  /** A line clear keeps the dimensions of a grid whose width is positive, and
      leaves no complete row behind. */
  lemma {:induction false} ClearedShape(g: seq<seq<Cell>>, width: nat, height: int)
    requires width > 0 && IsGrid(g, width, height)
    ensures IsGrid(Cleared(g, width), width, height)
    ensures forall r :: 0 <= r < height ==> !IsComplete(Cleared(g, width)[r])
  {
    ClearedRows(g, width);
  }

  lemma {:induction false} ClearedRows(g: seq<seq<Cell>>, width: nat)
    requires width > 0 && IsGrid(g, width, |g|)
    ensures |Cleared(g, width)| == |g|
    ensures forall r :: 0 <= r < |g| ==> |Cleared(g, width)[r]| == width && !IsComplete(Cleared(g, width)[r])
  {
    KeptSize(g);
    KeptRows(g, width);
    var c := Cleared(g, width);
    var n := CountComplete(g);
    forall r | 0 <= r < |g|
      ensures |c[r]| == width && !IsComplete(c[r])
    {
      if r < n {
        assert c[r] == EmptyRow(width);
        assert IsEmpty(c[r][0]);
      } else {
        assert c[r] == Kept(g)[r - n];
      }
    }
  }

  /** Clearing twice is clearing once. */
  lemma {:induction false} ClearedIdempotent(g: seq<seq<Cell>>, width: nat)
    requires width > 0 && IsGrid(g, width, |g|)
    ensures Cleared(Cleared(g, width), width) == Cleared(g, width)
  {
    ClearedShape(g, width, |g|);
    NoCompleteRowsUnchanged(Cleared(g, width), width);
  }
}
