/** Shape geometry shared by the placement check, the board painter and scoring:
    the true cells of a shape in the row-major order of the source's nested loops,
    their translation to the board, and the cell count. */
module Shapes {
  import opened GameTypes

  /** A cell of a shape in local coordinates: `row` indexes the shape, `col` the row. */
  datatype Offset = Offset(row: nat, col: nat)

  predicate IsCell(shape: Shape, o: Offset) {
    o.row < |shape| && o.col < |shape[o.row]| && shape[o.row][o.col]
  }

  /** Row-major order: the order `for y … for x …` visits cells. */
  predicate Before(a: Offset, b: Offset) {
    a.row < b.row || (a.row == b.row && a.col < b.col)
  }

  predicate RowMajor(cs: seq<Offset>) {
    forall i, j :: 0 <= i < j < |cs| ==> Before(cs[i], cs[j])
  }

  /** The true cells of row `row` from column `col` on. */
  function RowCells(shape: Shape, row: nat, col: nat): (cs: seq<Offset>)
    requires row < |shape|
    ensures forall o :: o in cs <==> IsCell(shape, o) && o.row == row && o.col >= col
    ensures RowMajor(cs)
    decreases |shape[row]| - col
  {
    if col >= |shape[row]| then []
    else if shape[row][col] then [Offset(row, col)] + RowCells(shape, row, col + 1)
    else RowCells(shape, row, col + 1)
  }

  /** The true cells of rows `row` onwards. */
  function CellsFrom(shape: Shape, row: nat): (cs: seq<Offset>)
    ensures forall o :: o in cs <==> IsCell(shape, o) && o.row >= row
    ensures RowMajor(cs)
    decreases |shape| - row
  {
    if row >= |shape| then [] else RowCells(shape, row, 0) + CellsFrom(shape, row + 1)
  }

  /** Every true cell of the shape, each once, in row-major order. */
  function Cells(shape: Shape): (cs: seq<Offset>)
    ensures forall o :: o in cs <==> IsCell(shape, o)
    ensures RowMajor(cs)
  {
    CellsFrom(shape, 0)
  }

  /** The board point a shape cell lands on when the shape's origin is put at `pos`. */
  function Translate(pos: Point, o: Offset): Point {
    Point(pos.x + o.col, pos.y + o.row)
  }

  /** The shape anchored at `pos` covers board point `p`. */
  predicate Covers(shape: Shape, pos: Point, p: Point) {
    p.x - pos.x >= 0 && p.y - pos.y >= 0 && IsCell(shape, Offset(p.y - pos.y, p.x - pos.x))
  }

  /** Some cell of `cs` translated by `pos` is `p`. */
  predicate Hits(cs: seq<Offset>, pos: Point, p: Point) {
    exists i :: 0 <= i < |cs| && Translate(pos, cs[i]) == p
  }

  /** The enumerated cells hit exactly the points the shape covers. */
  lemma CellsHitCovered(shape: Shape, pos: Point, p: Point)
    ensures Hits(Cells(shape), pos, p) <==> Covers(shape, pos, p)
  {
    var cs := Cells(shape);
    if Covers(shape, pos, p) {
      var o := Offset(p.y - pos.y, p.x - pos.x);
      assert o in cs;
      var i :| 0 <= i < |cs| && cs[i] == o;
      assert Translate(pos, cs[i]) == p;
    }
    if Hits(cs, pos, p) {
      var i :| 0 <= i < |cs| && Translate(pos, cs[i]) == p;
      assert cs[i] in cs;
      assert cs[i] == Offset(p.y - pos.y, p.x - pos.x);
    }
  }

  /** Every covered point of the anchored shape is on the board. */
  ghost predicate InsideBoard(shape: Shape, pos: Point) {
    forall o :: IsCell(shape, o) ==> InBounds(Translate(pos, o))
  }

  // ---------------------------------------------------------------------------
  // Counting cells, as the nested `reduce` of the score computation does.

  /** Number of true entries of a row, folded from the left like `row.reduce`. */
  function CountTrue(row: seq<bool>): nat {
    if |row| == 0 then 0
    else CountTrue(row[..|row| - 1]) + (if row[|row| - 1] then 1 else 0)
  }

  /** Number of true cells of a shape, folded from the left over its rows. */
  function CellCount(shape: Shape): nat {
    if |shape| == 0 then 0
    else CellCount(shape[..|shape| - 1]) + CountTrue(shape[|shape| - 1])
  }

  lemma {:induction false} CountTrueAppend(a: seq<bool>, b: seq<bool>)
    ensures CountTrue(a + b) == CountTrue(a) + CountTrue(b)
    decreases |b|
  {
    if |b| > 0 {
      var b' := b[..|b| - 1];
      assert (a + b)[..|a + b| - 1] == a + b';
      CountTrueAppend(a, b');
    } else {
      assert a + b == a;
    }
  }

  lemma {:induction false} CellCountAppend(a: Shape, b: Shape)
    ensures CellCount(a + b) == CellCount(a) + CellCount(b)
    decreases |b|
  {
    if |b| > 0 {
      var b' := b[..|b| - 1];
      assert (a + b)[..|a + b| - 1] == a + b';
      CellCountAppend(a, b');
    } else {
      assert a + b == a;
    }
  }

  lemma {:induction false} RowCellsCount(shape: Shape, row: nat, col: nat)
    requires row < |shape| && col <= |shape[row]|
    ensures |RowCells(shape, row, col)| == CountTrue(shape[row][col..])
    decreases |shape[row]| - col
  {
    var r := shape[row];
    if col < |r| {
      RowCellsCount(shape, row, col + 1);
      assert r[col..] == [r[col]] + r[col + 1..];
      CountTrueAppend([r[col]], r[col + 1..]);
      assert CountTrue([r[col]]) == (if r[col] then 1 else 0) by {
        assert [r[col]][..0] == [];
      }
    } else {
      assert r[col..] == [];
    }
  }

  lemma {:induction false} CellsFromCount(shape: Shape, row: nat)
    requires row <= |shape|
    ensures |CellsFrom(shape, row)| == CellCount(shape[row..])
    decreases |shape| - row
  {
    if row < |shape| {
      CellsFromCount(shape, row + 1);
      RowCellsCount(shape, row, 0);
      assert shape[row][0..] == shape[row];
      assert shape[row..] == [shape[row]] + shape[row + 1..];
      CellCountAppend([shape[row]], shape[row + 1..]);
      assert CellCount([shape[row]]) == CountTrue(shape[row]) by {
        assert [shape[row]][..0] == [];
      }
    } else {
      assert shape[row..] == [];
    }
  }

  /** The counted area of a shape is the number of cells the placement loops visit. */
  lemma CellCountIsCells(shape: Shape)
    ensures CellCount(shape) == |Cells(shape)|
  {
    CellsFromCount(shape, 0);
    assert shape[0..] == shape;
  }
}
