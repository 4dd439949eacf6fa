/** The three transposes. */
module Transposes {
  import opened Scalars
  import opened Grids
  import opened BlockWalk

  function TransposeCell<T>(g: Grid<T>, i: nat): T
    requires g.Valid() && i < g.width * g.height
  {
    PartsCell(i, g.height, g.width);
    g.At(ColOf(i, g.height), RowOf(i, g.height))
  }

  function Transpose<T>(g: Grid<T>): (t: Grid<T>)
    requires g.Valid()
    ensures t.Valid() && t.width == g.height && t.height == g.width
  {
    var n := g.width * g.height;
    Grid(seq(n, i requires 0 <= i < n => TransposeCell(g, i)), g.height, g.width)
  }

  lemma TransposeAt<T>(g: Grid<T>, row: nat, col: nat)
    requires g.Valid() && row < g.height && col < g.width
    ensures Transpose(g).At(col, row) == g.At(row, col)
  {
    CellInside(col, row, g.height, g.width);
    CellParts(col, row, g.height);
  }

  lemma TransposeTwice<T>(g: Grid<T>)
    requires g.Valid()
    ensures Transpose(Transpose(g)) == g
  {
    var t := Transpose(g);
    forall row: nat, col: nat | row < g.height && col < g.width
      ensures Transpose(t).At(row, col) == g.At(row, col)
    {
      TransposeAt(g, row, col);
      TransposeAt(t, col, row);
    }
    SameGrid(Transpose(t), g);
  }

  /** Where each element of the transpose comes from. */
  ghost function TransposeSources(width: nat, height: nat): (from: seq<nat>) {
    seq(width * height, i requires 0 <= i < width * height =>
      PartsCell(i, height, width);
      Cell(ColOf(i, height), RowOf(i, height), width))
  }

  lemma TransposeRearranges<T>(g: Grid<T>)
    requires g.Valid()
    ensures Rearranges(g.cells, Transpose(g).cells, TransposeSources(g.width, g.height))
  {
    var w, h := g.width, g.height;
    var from := TransposeSources(w, h);
    forall i | 0 <= i < w * h
      ensures from[i] < w * h && Transpose(g).cells[i] == g.cells[from[i]] {
      PartsCell(i, h, w);
      CellInside(ColOf(i, h), RowOf(i, h), w, h);
    }
    forall i, j | 0 <= i < j < w * h ensures from[i] != from[j] {
      PartsCell(i, h, w);
      PartsCell(j, h, w);
      if from[i] == from[j] {
        SameCell(ColOf(i, h), RowOf(i, h), ColOf(j, h), RowOf(j, h), w);
      }
    }
  }

  /** The same in plain numbers: element (x, y) of a buffer as wide as `g` is high. */
  lemma TransposeCells<T>(g: Grid<T>, y: nat, x: nat)
    requires g.Valid() && y < g.height && x < g.width
    ensures x * g.height + y < |Transpose(g).cells| && y * g.width + x < |g.cells|
    ensures Transpose(g).cells[x * g.height + y] == g.cells[y * g.width + x]
  {
    hide Transpose;
    TransposeAt(g, y, x);
    CellInside(x, y, g.height, g.width);
    CellInside(y, x, g.width, g.height);
  }

  /** Storing one element of the transpose fills exactly the index whose row and column it has. */
  lemma TransposeIndex<T>(g: Grid<T>, y: nat, x: nat)
    requires g.Valid() && y < g.height && x < g.width
    ensures x * g.height + y < g.width * g.height && y * g.width + x < g.width * g.height
    ensures Transpose(g).cells[x * g.height + y] == g.cells[y * g.width + x]
    ensures forall i: nat | i < g.width * g.height && RowOf(i, g.height) == x && ColOf(i, g.height) == y ::
              i == x * g.height + y
  {
    CellInside(x, y, g.height, g.width);
    CellInside(y, x, g.width, g.height);
    TransposeAt(g, y, x);
    forall i: nat | i < g.width * g.height && RowOf(i, g.height) == x && ColOf(i, g.height) == y
      ensures i == x * g.height + y {
      PartsCell(i, g.height, g.width);
    }
  }

  method Transposed<T(0)>(a: Matrix<T>) returns (ret: Matrix<T>)
    requires a.Valid()
    ensures ret.Valid() && fresh(ret.data)
    ensures ret.View() == Transpose(a.View())
  {
    var data := new T[a.width * a.height];
    ret := Matrix(data, a.height, a.width);
    ghost var g := a.View();
    ghost var want := Transpose(g).cells;
    ghost var h := a.height;
    for y := 0 to a.height
      invariant forall i :: 0 <= i < data.Length && ColOf(i, h) < y ==> data[i] == want[i]
    {
      for x := 0 to a.width
        invariant forall i :: 0 <= i < data.Length && ColOf(i, h) < y ==> data[i] == want[i]
        invariant forall i :: 0 <= i < data.Length && ColOf(i, h) == y && RowOf(i, h) < x ==> data[i] == want[i]
      {
        TransposeIndex(g, y, x);
        var val := a.data[y * a.width + x];
        data[x * a.height + y] := val;
      }
      forall i | 0 <= i < data.Length ensures RowOf(i, h) < a.width {
        PartsCell(i, h, a.width);
      }
    }
    forall i | 0 <= i < data.Length ensures data[i] == want[i] {
      PartsCell(i, h, a.width);
    }
    assert data[..] == want;
  }

  ghost function TransposePlan<T>(g: Grid<T>): (p: Plan<T>)
    requires g.Valid() && g.width % 8 == 0 && g.height % 8 == 0
    ensures Fits(p, g.width, g.height) && |p.want| == |g.cells| && p.want == Transpose(g).cells
  {
    Plan(Transpose(g).cells, Cols(g.height, g.width), Rows(g.height, g.width))
  }

  lemma TransposeStep<T>(data: seq<T>, g: Grid<T>, flipped: bool, blockY: nat, blockX: nat, r: nat, c: nat)
    requires g.Valid() && g.width % 8 == 0 && g.height % 8 == 0
    requires r < 8 && c < 8 && blockY * 8 + r < g.height && blockX * 8 + c < g.width
    requires Placed(data, TransposePlan(g), flipped, blockY, blockX, if flipped then c else r, if flipped then r else c)
    ensures var y, x := blockY * 8 + r, blockX * 8 + c;
            var j := Cell(x, y, g.height);
            && j < |data| && Cell(y, x, g.width) < |g.cells|
            && Placed(data[j := g.cells[Cell(y, x, g.width)]], TransposePlan(g), flipped, blockY, blockX,
                      if flipped then c else r, (if flipped then r else c) + 1)
  {
    hide Before;
    var y, x := blockY * 8 + r, blockX * 8 + c;
    TransposeIndex(g, y, x);
    PlacedStep(data, TransposePlan(g), flipped, blockY, blockX, r, c, x * g.height + y);
  }

  method Transposed8x8<T(0)>(a: Matrix<T>) returns (ret: Matrix<T>)
    requires a.Valid() && a.height % 8 == 0 && a.width % 8 == 0
    ensures ret.Valid() && fresh(ret.data)
    ensures ret.View() == Transpose(a.View())
  {
    hide Placed, TransposePlan, Fits, Transpose;
    var data := new T[a.width * a.height];
    ret := Matrix(data, a.height, a.width);
    ghost var g := a.View();
    ghost var p := TransposePlan(g);
    var blockW, blockH := a.width / 8, a.height / 8;
    PlacedCarry(data[..], p, false, 0, 0, 0, a.width, a.height);
    for blockY := 0 to blockH
      invariant Placed(data[..], p, false, blockY, 0, 0, 0)
    {
      for blockX := 0 to blockW
        invariant Placed(data[..], p, false, blockY, blockX, 0, 0)
      {
        for row := 0 to 8
          invariant Placed(data[..], p, false, blockY, blockX, row, 0)
        {
          for col := 0 to 8
            invariant Placed(data[..], p, false, blockY, blockX, row, col)
          {
            var aX, aY := blockX * 8 + col, blockY * 8 + row;
            TransposeStep(data[..], g, false, blockY, blockX, row, col);
            var val := a.data[aY * a.width + aX];
            var retX, retY := aY, aX;
            ghost var before := data[..];
            data[retY * ret.width + retX] := val;
            assert data[..] == before[retY * ret.width + retX := val];
          }
          PlacedCarry(data[..], p, false, blockY, blockX, row, a.width, a.height);
        }
        PlacedCarry(data[..], p, false, blockY, blockX, 8, a.width, a.height);
      }
      PlacedCarry(data[..], p, false, blockY, blockW, 0, a.width, a.height);
    }
    PlacedCarry(data[..], p, false, blockH, 0, 0, a.width, a.height);
  }

  method Transposed8x8Flipped<T(0)>(a: Matrix<T>) returns (ret: Matrix<T>)
    requires a.Valid() && a.height % 8 == 0 && a.width % 8 == 0
    ensures ret.Valid() && fresh(ret.data)
    ensures ret.View() == Transpose(a.View())
  {
    hide Placed, TransposePlan, Fits, Transpose;
    var data := new T[a.width * a.height];
    ret := Matrix(data, a.height, a.width);
    ghost var g := a.View();
    ghost var p := TransposePlan(g);
    var blockW, blockH := a.width / 8, a.height / 8;
    PlacedCarry(data[..], p, true, 0, 0, 0, a.width, a.height);
    for blockY := 0 to blockH
      invariant Placed(data[..], p, true, blockY, 0, 0, 0)
    {
      for blockX := 0 to blockW
        invariant Placed(data[..], p, true, blockY, blockX, 0, 0)
      {
        for col := 0 to 8
          invariant Placed(data[..], p, true, blockY, blockX, col, 0)
        {
          for row := 0 to 8
            invariant Placed(data[..], p, true, blockY, blockX, col, row)
          {
            var aX, aY := blockX * 8 + col, blockY * 8 + row;
            TransposeStep(data[..], g, true, blockY, blockX, row, col);
            var val := a.data[aY * a.width + aX];
            var retX, retY := aY, aX;
            ghost var before := data[..];
            data[retY * ret.width + retX] := val;
            assert data[..] == before[retY * ret.width + retX := val];
          }
          PlacedCarry(data[..], p, true, blockY, blockX, col, a.width, a.height);
        }
        PlacedCarry(data[..], p, true, blockY, blockX, 8, a.width, a.height);
      }
      PlacedCarry(data[..], p, true, blockY, blockW, 0, a.width, a.height);
    }
    PlacedCarry(data[..], p, true, blockH, 0, 0, a.width, a.height);
  }
}
