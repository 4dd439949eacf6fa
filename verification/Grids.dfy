/** The `Matrix` struct of the source and the value it stands for. */
module Grids {

  function Cell(row: nat, col: nat, width: nat): nat {
    row * width + col
  }

  function RowOf(i: nat, width: nat): (row: nat)
    requires width > 0
  {
    i / width
  }

  function ColOf(i: nat, width: nat): (col: nat)
    requires width > 0
    ensures col < width
  {
    i % width
  }

  lemma CellInside(row: nat, col: nat, width: nat, height: nat)
    requires row < height && col < width
    ensures Cell(row, col, width) < width * height
  {
    assert (row + 1) * width <= height * width;
  }

  lemma NextRow(row: nat, later: nat, width: nat)
    ensures row < later ==> (row + 1) * width <= later * width
  {
    if row < later {
      assert later * width == (row + 1) * width + (later - row - 1) * width;
    }
  }

  lemma CellIs(row: nat, col: nat, width: nat)
    ensures row * width + col == Cell(row, col, width)
  {
  }

  lemma CellStep(row: nat, col: nat, width: nat)
    ensures Cell(row, col + 1, width) == Cell(row, col, width) + 1
    ensures Cell(row, width, width) == Cell(row + 1, 0, width)
    ensures Cell(row, 0, width) == row * width
  {
  }

  /** Distinct positions of a grid have distinct indices. */
  lemma SameCell(q: nat, r: nat, row: nat, col: nat, width: nat)
    requires r < width && col < width
    requires Cell(q, r, width) == Cell(row, col, width)
    ensures q == row && r == col
  {
    NextRow(q, row, width);
    NextRow(row, q, width);
  }

  lemma CellParts(row: nat, col: nat, width: nat)
    requires col < width
    ensures RowOf(Cell(row, col, width), width) == row
    ensures ColOf(Cell(row, col, width), width) == col
  {
    var i := Cell(row, col, width);
    SameCell(i / width, i % width, row, col, width);
  }

  lemma PartsCell(i: nat, width: nat, height: nat)
    requires i < width * height
    ensures width > 0
    ensures RowOf(i, width) < height
    ensures Cell(RowOf(i, width), ColOf(i, width), width) == i
  {
    assert width > 0;
    var q := i / width;
    assert i == q * width + i % width;
    if q >= height { assert q * width >= height * width; }
  }

  /** The rows, and the columns, of the positions of a grid in row-major order. */
  ghost function Rows(width: nat, height: nat): (rows: seq<nat>)
    ensures |rows| == width * height
    ensures forall i: nat :: i < |rows| ==> width > 0 && rows[i] == RowOf(i, width) && rows[i] < height
  {
    seq(width * height, i requires 0 <= i < width * height => RowWithin(i, width, height))
  }

  ghost function Cols(width: nat, height: nat): (cols: seq<nat>)
    ensures |cols| == width * height
    ensures forall i: nat :: i < |cols| ==> width > 0 && cols[i] == ColOf(i, width) && cols[i] < width
  {
    seq(width * height, i requires 0 <= i < width * height => ColWithin(i, width, height))
  }

  function RowWithin(i: nat, width: nat, height: nat): (row: nat)
    requires i < width * height
    ensures width > 0 && row == RowOf(i, width) && row < height
  {
    PartsCell(i, width, height);
    RowOf(i, width)
  }

  function ColWithin(i: nat, width: nat, height: nat): (col: nat)
    requires i < width * height
    ensures width > 0 && col == ColOf(i, width) && col < width
  {
    PartsCell(i, width, height);
    ColOf(i, width)
  }

  /** A rectangle of elements in row-major order. */
  datatype Grid<T> = Grid(cells: seq<T>, width: nat, height: nat) {
    ghost predicate Valid() {
      |cells| == width * height
    }

    function At(row: nat, col: nat): T
      requires Valid() && row < height && col < width
    {
      CellInside(row, col, width, height);
      cells[Cell(row, col, width)]
    }
  }

  /** Two grids of the same shape that agree at every row and column are the same grid. */
  lemma SameGrid<T>(g: Grid<T>, h: Grid<T>)
    requires g.Valid() && h.Valid() && g.width == h.width && g.height == h.height
    requires forall row: nat, col: nat | row < g.height && col < g.width :: g.At(row, col) == h.At(row, col)
    ensures g == h
  {
    forall i | 0 <= i < |g.cells| ensures g.cells[i] == h.cells[i] {
      PartsCell(i, g.width, g.height);
      assert g.At(RowOf(i, g.width), ColOf(i, g.width)) == h.At(RowOf(i, g.width), ColOf(i, g.width));
    }
  }

  /** A rectangle whose only nonzero element is a one at (row, col). */
  ghost function Unit(width: nat, height: nat, row: nat, col: nat): (g: Grid<int>)
    requires row < height && col < width
    ensures g.Valid() && g.width == width && g.height == height
  {
    Grid(seq(width * height, i => if i == Cell(row, col, width) then 1 else 0), width, height)
  }

  lemma UnitAt(width: nat, height: nat, row: nat, col: nat, r: nat, c: nat)
    requires row < height && col < width && r < height && c < width
    ensures Unit(width, height, row, col).At(r, c) == if r == row && c == col then 1 else 0
  {
    CellInside(r, c, width, height);
    if Cell(r, c, width) == Cell(row, col, width) {
      SameCell(r, c, row, col, width);
    }
  }

  /** A rectangle with the same value everywhere. */
  ghost function Constant(width: nat, height: nat, x: int): (g: Grid<int>)
    ensures g.Valid() && g.width == width && g.height == height
  {
    Grid(seq(width * height, _ => x), width, height)
  }

  lemma ConstantCells(width: nat, height: nat, x: int)
    ensures forall i :: 0 <= i < |Constant(width, height, x).cells| ==> Constant(width, height, x).cells[i] == x
  {
  }

  lemma ConstantAt(width: nat, height: nat, x: int, row: nat, col: nat)
    requires row < height && col < width
    ensures Constant(width, height, x).At(row, col) == x
  {
    hide Constant;
    CellInside(row, col, width, height);
    ConstantCells(width, height, x);
  }

  /** The struct passed by value: two dimensions and a pointer to elements shared with the caller. */
  datatype Matrix<T> = Matrix(data: array<T>, width: nat, height: nat) {
    ghost predicate Valid() {
      data.Length == width * height
    }

    ghost function View(): (g: Grid<T>)
      requires Valid()
      reads data
      ensures g.Valid()
    {
      Grid(data[..], width, height)
    }
  }

  /** A matrix passed by pointer, whose `data` the callee may replace. */
  class MatrixVar<T> {
    var value: Matrix<T>

    constructor (m: Matrix<T>)
      ensures value == m
    {
      value := m;
    }
  }
}
