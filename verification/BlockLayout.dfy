/** The remap from row-major to 8x8-block-major order, and the map back. */
module BlockLayout {
  import opened Scalars
  import opened Grids
  import opened Overlays
  import opened SwappedDims

  /** Index, in block-major order with `blockW` blocks to a row of blocks, of element (y, x). */
  function BlockIndex(y: nat, x: nat, blockW: nat): nat {
    64 * Cell(y / 8, x / 8, blockW) + 8 * (y % 8) + x % 8
  }

  /** Row and column of the element that block-major index `i` holds. */
  function BlockY(i: nat, blockW: nat): nat
    requires blockW > 0
  {
    8 * RowOf(i / 64, blockW) + i % 64 / 8
  }

  function BlockX(i: nat, blockW: nat): nat
    requires blockW > 0
  {
    8 * ColOf(i / 64, blockW) + i % 8
  }

  lemma SplitEight(q: nat, r: nat)
    requires r < 8
    ensures (8 * q + r) / 8 == q && (8 * q + r) % 8 == r
  {
  }

  lemma Digits(block: nat, row: nat, col: nat)
    requires row < 8 && col < 8
    ensures var i := 64 * block + 8 * row + col;
            i / 64 == block && i % 64 / 8 == row && i % 8 == col
  {
  }

  /** Every index of the fresh array belongs to exactly one element: BlockY and BlockX take it back. */
  lemma BlockIndexOnto(i: nat, width: nat, height: nat)
    requires width % 8 == 0 && height % 8 == 0 && i < width * height
    ensures width > 0
    ensures BlockY(i, width / 8) < height && BlockX(i, width / 8) < width
    ensures BlockIndex(BlockY(i, width / 8), BlockX(i, width / 8), width / 8) == i
  {
    hide RowOf, ColOf, Cell;
    BlockBelow(i, width, height);
    PartsCell(i / 64, width / 8, height / 8);
    SplitEight(RowOf(i / 64, width / 8), i % 64 / 8);
    SplitEight(ColOf(i / 64, width / 8), i % 8);
    assert i == 64 * (i / 64) + 8 * (i % 64 / 8) + i % 8;
  }

  lemma BlockBelow(i: nat, width: nat, height: nat)
    requires width % 8 == 0 && height % 8 == 0 && i < width * height
    ensures i / 64 < width / 8 * (height / 8)
    ensures width > 0
  {
    BlockCount(width, height);
  }

  lemma BlockIndexInto(y: nat, x: nat, width: nat, height: nat)
    requires width % 8 == 0 && height % 8 == 0 && y < height && x < width
    ensures BlockIndex(y, x, width / 8) < width * height
    ensures BlockY(BlockIndex(y, x, width / 8), width / 8) == y
    ensures BlockX(BlockIndex(y, x, width / 8), width / 8) == x
  {
    hide RowOf, ColOf, Cell;
    BlockCount(width, height);
    CellInside(y / 8, x / 8, width / 8, height / 8);
    CellParts(y / 8, x / 8, width / 8);
    Digits(Cell(y / 8, x / 8, width / 8), y % 8, x % 8);
  }

  lemma BlockCount(width: nat, height: nat)
    requires width % 8 == 0 && height % 8 == 0
    ensures 64 * (width / 8 * (height / 8)) == width * height
  {
    var w, h := width / 8, height / 8;
    assert width == 8 * w && height == 8 * h;
    assert (8 * w) * (8 * h) == 64 * (w * h);
  }

  function RemapCell<T>(g: Grid<T>, i: nat): T
    requires g.Valid() && g.width % 8 == 0 && g.height % 8 == 0 && i < g.width * g.height
  {
    BlockIndexOnto(i, g.width, g.height);
    g.At(BlockY(i, g.width / 8), BlockX(i, g.width / 8))
  }

  /** The elements of `g` in block-major order. */
  function Remap<T>(g: Grid<T>): (cells: seq<T>)
    requires g.Valid() && g.width % 8 == 0 && g.height % 8 == 0
    ensures |cells| == |g.cells|
  {
    seq(g.width * g.height, i requires 0 <= i < g.width * g.height => RemapCell(g, i))
  }

  lemma RemapAt<T>(g: Grid<T>, y: nat, x: nat)
    requires g.Valid() && g.width % 8 == 0 && g.height % 8 == 0 && y < g.height && x < g.width
    ensures BlockIndex(y, x, g.width / 8) < |Remap(g)|
    ensures Remap(g)[BlockIndex(y, x, g.width / 8)] == g.At(y, x)
  {
    BlockIndexInto(y, x, g.width, g.height);
  }

  /** The order: blocks of 64 elements, rows of eight inside them, and blocks as well as cells row by row. */
  lemma RemapLayout<T>(g: Grid<T>, y: nat, x: nat)
    requires g.Valid() && g.width % 8 == 0 && g.height % 8 == 0 && y < g.height && x < g.width
    ensures Cell(y, x, g.width) < |g.cells|
    ensures var i := 64 * Cell(y / 8, x / 8, g.width / 8) + 8 * (y % 8) + x % 8;
            i < |Remap(g)| && Remap(g)[i] == g.cells[Cell(y, x, g.width)]
  {
    hide Remap, Cell;
    RemapAt(g, y, x);
    CellInside(y, x, g.width, g.height);
  }

  function UnmapCell<T>(cells: seq<T>, n: nat, i: nat): T
    requires n % 8 == 0 && |cells| == n * n && i < n * n
  {
    PartsCell(i, n, n);
    BlockIndexInto(RowOf(i, n), ColOf(i, n), n, n);
    cells[BlockIndex(RowOf(i, n), ColOf(i, n), n / 8)]
  }

  /** Block-major elements of an n by n square, back in row-major order. */
  function Unmap<T>(cells: seq<T>, n: nat): (g: Grid<T>)
    requires n % 8 == 0 && |cells| == n * n
    ensures g.Valid() && g.width == n && g.height == n
  {
    Grid(seq(n * n, i requires 0 <= i < n * n => UnmapCell(cells, n, i)), n, n)
  }

  lemma UnmapAt<T>(cells: seq<T>, n: nat, y: nat, x: nat)
    requires n % 8 == 0 && |cells| == n * n && y < n && x < n
    ensures BlockIndex(y, x, n / 8) < |cells|
    ensures Unmap(cells, n).At(y, x) == cells[BlockIndex(y, x, n / 8)]
  {
    CellInside(y, x, n, n);
    CellParts(y, x, n);
    BlockIndexInto(y, x, n, n);
  }

  lemma UnmapRemap<T>(g: Grid<T>)
    requires g.Valid() && g.width == g.height && g.width % 8 == 0
    ensures Unmap(Remap(g), g.width) == g
  {
    var back := Unmap(Remap(g), g.width);
    forall y: nat, x: nat | y < g.height && x < g.width ensures back.At(y, x) == g.At(y, x) {
      UnmapAt(Remap(g), g.width, y, x);
      RemapAt(g, y, x);
    }
    SameGrid(back, g);
  }

  lemma RemapUnmap<T>(cells: seq<T>, n: nat)
    requires n % 8 == 0 && |cells| == n * n
    ensures Remap(Unmap(cells, n)) == cells
  {
    forall i: nat | i < n * n ensures Remap(Unmap(cells, n))[i] == cells[i] {
      BlockIndexOnto(i, n, n);
      UnmapAt(cells, n, BlockY(i, n / 8), BlockX(i, n / 8));
    }
  }

  /** Where each element of the remapped array comes from. */
  ghost function RemapSources(width: nat, height: nat): (from: seq<nat>)
    requires width % 8 == 0 && height % 8 == 0
  {
    seq(width * height, i requires 0 <= i < width * height =>
      BlockIndexOnto(i, width, height);
      Cell(BlockY(i, width / 8), BlockX(i, width / 8), width))
  }

  lemma RemapRearranges<T>(g: Grid<T>)
    requires g.Valid() && g.width % 8 == 0 && g.height % 8 == 0
    ensures Rearranges(g.cells, Remap(g), RemapSources(g.width, g.height))
  {
    var w, h := g.width, g.height;
    var from := RemapSources(w, h);
    forall i | 0 <= i < w * h ensures from[i] < w * h && Remap(g)[i] == g.cells[from[i]] {
      BlockIndexOnto(i, w, h);
      CellInside(BlockY(i, w / 8), BlockX(i, w / 8), w, h);
    }
    forall i, j | 0 <= i < j < w * h ensures from[i] != from[j] {
      BlockIndexOnto(i, w, h);
      BlockIndexOnto(j, w, h);
      if from[i] == from[j] {
        SameCell(BlockY(i, w / 8), BlockX(i, w / 8), BlockY(j, w / 8), BlockX(j, w / 8), w);
      }
    }
  }

  /** The remap writes its array front to back: the loop counters spell the index in mixed radix. */
  lemma RemapStep<T>(g: Grid<T>, blockY: nat, blockX: nat, row: nat, col: nat)
    requires g.Valid() && g.width % 8 == 0 && g.height % 8 == 0
    requires blockY < g.height / 8 && blockX < g.width / 8 && row < 8 && col < 8
    ensures var i := 64 * Cell(blockY, blockX, g.width / 8) + 8 * row + col;
            var from := Cell(8 * blockY + row, 8 * blockX + col, g.width);
            && i < |g.cells| && from < |g.cells| && Remap(g)[i] == g.cells[from]
  {
    hide Remap, Cell;
    SplitEight(blockY, row);
    SplitEight(blockX, col);
    RemapAt(g, 8 * blockY + row, 8 * blockX + col);
    CellInside(8 * blockY + row, 8 * blockX + col, g.width, g.height);
  }

  method BlockRemap<T(0)>(a: Matrix<T>) returns (ret: Matrix<T>)
    requires a.Valid() && a.height % 8 == 0 && a.width % 8 == 0
    ensures ret.Valid() && fresh(ret.data)
    ensures ret.width == a.height && ret.height == a.width
    ensures ret.data[..] == Remap(a.View())
  {
    hide Remap, Cell;
    var data := new T[a.width * a.height];
    ret := Matrix(data, a.height, a.width);
    ghost var g := a.View();
    ghost var want := Remap(g);
    BlockCount(a.width, a.height);
    var blockW, blockH := a.width / 8, a.height / 8;
    CellStep(0, 0, blockW);
    for blockY := 0 to blockH
      invariant forall i :: 0 <= i < 64 * Cell(blockY, 0, blockW) && i < data.Length ==> data[i] == want[i]
    {
      for blockX := 0 to blockW
        invariant forall i :: 0 <= i < 64 * Cell(blockY, blockX, blockW) && i < data.Length ==> data[i] == want[i]
      {
        var retBlock := blockY * blockW + blockX;
        var blockData := retBlock * 64;
        for row := 0 to 8
          invariant forall i :: 0 <= i < 64 * Cell(blockY, blockX, blockW) + 8 * row && i < data.Length
                                ==> data[i] == want[i]
        {
          var aY := blockY * 8 + row;
          var aRow := aY * a.width;
          for col := 0 to 8
            invariant forall i :: 0 <= i < 64 * Cell(blockY, blockX, blockW) + 8 * row + col && i < data.Length
                                  ==> data[i] == want[i]
          {
            RemapStep(g, blockY, blockX, row, col);
            CellIs(blockY, blockX, blockW);
            CellIs(8 * blockY + row, 8 * blockX + col, a.width);
            var aX := blockX * 8 + col;
            data[blockData + row * 8 + col] := a.data[aRow + aX];
          }
        }
        CellStep(blockY, blockX, blockW);
      }
      CellStep(blockY, blockW, blockW);
    }
    CellStep(blockH, 0, blockW);
    assert data[..] == want;
  }

  /** Where the inverse map stores, walking its array front to back. It indexes rows by the height. */
  ghost function UnmapStores(width: nat, height: nat): (dests: seq<nat>)
    requires width % 8 == 0 && height % 8 == 0 && InsideShape(height, width)
    ensures |dests| == width * height
    ensures forall k :: 0 <= k < |dests| ==> dests[k] < width * height
  {
    seq(width * height, k requires 0 <= k < width * height => UnmapStore(k, width, height))
  }

  ghost function UnmapStore(k: nat, width: nat, height: nat): (dest: nat)
    requires width % 8 == 0 && height % 8 == 0 && InsideShape(height, width) && k < width * height
    ensures dest < width * height
  {
    BlockIndexOnto(k, width, height);
    StoreInside(height, width, BlockY(k, width / 8), BlockX(k, width / 8));
    Cell(BlockY(k, width / 8), BlockX(k, width / 8), height)
  }

  /** The result of the inverse map, which held `first` before, after the first `count` stores. */
  ghost function UnmappedTo<T>(cells: seq<T>, width: nat, height: nat, first: seq<T>, count: nat): (after: seq<T>)
    requires width % 8 == 0 && height % 8 == 0 && InsideShape(height, width)
    requires |cells| == |first| == width * height && count <= width * height
    ensures |after| == |first| && (count == 0 ==> after == first)
  {
    Overlay(first, UnmapStores(width, height), cells, count)
  }

  /** What the inverse map leaves: on wide shapes the stores overlap and leave cells out. */
  ghost function Unmapped<T>(cells: seq<T>, width: nat, height: nat, first: seq<T>): (after: seq<T>)
    requires width % 8 == 0 && height % 8 == 0 && InsideShape(height, width)
    requires |cells| == |first| == width * height
    ensures |after| == |first|
  {
    UnmappedTo(cells, width, height, first, width * height)
  }

  lemma UnmapStoreAt(width: nat, height: nat, y: nat, x: nat)
    requires width % 8 == 0 && height % 8 == 0 && InsideShape(height, width) && y < height && x < width
    ensures BlockIndex(y, x, width / 8) < width * height
    ensures UnmapStores(width, height)[BlockIndex(y, x, width / 8)] == Cell(y, x, height) < width * height
  {
    hide BlockIndex, BlockY, BlockX, Cell;
    BlockIndexInto(y, x, width, height);
  }

  /** Element (y, x) is stored from its place in block-major order to row y and column x of a buffer that is as
      wide as the array is high. */
  lemma UnmapLayout(width: nat, height: nat, y: nat, x: nat)
    requires width % 8 == 0 && height % 8 == 0 && InsideShape(height, width) && y < height && x < width
    ensures var k := 64 * Cell(y / 8, x / 8, width / 8) + 8 * (y % 8) + x % 8;
            k < width * height && UnmapStores(width, height)[k] == Cell(y, x, height)
  {
    hide UnmapStores, Cell, InsideShape;
    UnmapStoreAt(width, height, y, x);
  }

  lemma UnmapStoresDiffer(n: nat, k: nat, j: nat)
    requires n % 8 == 0 && k < j < n * n
    ensures UnmapStores(n, n)[j] != UnmapStores(n, n)[k]
  {
    hide BlockIndex, BlockY, BlockX, Cell;
    BlockIndexOnto(k, n, n);
    BlockIndexOnto(j, n, n);
    if UnmapStores(n, n)[j] == UnmapStores(n, n)[k] {
      SameCell(BlockY(j, n / 8), BlockX(j, n / 8), BlockY(k, n / 8), BlockX(k, n / 8), n);
    }
  }

  /** On squares every cell is stored to once, and the inverse map takes the elements back. */
  lemma SquareUnmapped<T>(cells: seq<T>, n: nat, first: seq<T>)
    requires n % 8 == 0 && |cells| == |first| == n * n
    ensures Unmapped(cells, n, n, first) == Unmap(cells, n).cells
  {
    hide BlockIndex, UnmapStores, Cell, RowOf, ColOf;
    var dests := UnmapStores(n, n);
    forall i: nat | i < n * n ensures Unmapped(cells, n, n, first)[i] == Unmap(cells, n).cells[i] {
      PartsCell(i, n, n);
      UnmapStoreAt(n, n, RowOf(i, n), ColOf(i, n));
      var k := BlockIndex(RowOf(i, n), ColOf(i, n), n / 8);
      forall j | k < j < n * n ensures dests[j] != dests[k] {
        UnmapStoresDiffer(n, k, j);
      }
      OverlayLast(first, dests, cells, n * n, k);
    }
  }

  /** The number of stores before that of element (row, col) of block (blockY, blockX). */
  ghost function Position(blockY: nat, blockX: nat, row: nat, col: nat, blockW: nat): (k: nat) {
    64 * Cell(blockY, blockX, blockW) + 8 * row + col
  }

  lemma PositionCarry(blockY: nat, blockX: nat, row: nat, blockW: nat)
    ensures Position(0, 0, 0, 0, blockW) == 0
    ensures Position(blockY, blockX, row, 8, blockW) == Position(blockY, blockX, row + 1, 0, blockW)
    ensures Position(blockY, blockX, 8, 0, blockW) == Position(blockY, blockX + 1, 0, 0, blockW)
    ensures Position(blockY, blockW, 0, 0, blockW) == Position(blockY + 1, 0, 0, 0, blockW)
    ensures Position(blockY, 0, 0, 0, blockW) == 64 * (blockW * blockY)
  {
    hide Cell;
    CellStep(blockY, blockX, blockW);
    CellStep(0, 0, blockW);
  }

  /** One store of the inverse map, in terms of its loop counters. */
  lemma UnmapStep<T>(cells: seq<T>, width: nat, height: nat, first: seq<T>, blockY: nat, blockX: nat,
                     row: nat, col: nat)
    requires width % 8 == 0 && height % 8 == 0 && InsideShape(height, width)
    requires |cells| == |first| == width * height
    requires blockY < height / 8 && blockX < width / 8 && row < 8 && col < 8
    ensures var k, j := Position(blockY, blockX, row, col, width / 8), Cell(8 * blockY + row, 8 * blockX + col, height);
            && k < width * height && j < width * height
            && Position(blockY, blockX, row, col + 1, width / 8) == k + 1
            && UnmappedTo(cells, width, height, first, k + 1) ==
               UnmappedTo(cells, width, height, first, k)[j := cells[k]]
  {
    hide UnmapStores, Cell;
    SplitEight(blockY, row);
    SplitEight(blockX, col);
    UnmapStoreAt(width, height, 8 * blockY + row, 8 * blockX + col);
  }

  /** The indices that the loops compute. */
  lemma UnmapIndices(blockY: nat, blockX: nat, row: nat, col: nat, blockW: nat, height: nat)
    ensures 64 * (blockY * blockW + blockX) + row * 8 + col == Position(blockY, blockX, row, col, blockW)
    ensures (blockY * 8 + row) * height + (blockX * 8 + col) == Cell(8 * blockY + row, 8 * blockX + col, height)
  {
    hide Cell;
    CellIs(blockY, blockX, blockW);
    CellIs(8 * blockY + row, 8 * blockX + col, height);
  }

  /** One block of the inverse map. */
  method UnmapBlock<T>(a: Matrix<T>, data: array<T>, ghost unset: seq<T>, blockY: nat, blockX: nat)
    requires a.Valid() && a.height % 8 == 0 && a.width % 8 == 0 && InsideShape(a.height, a.width)
    requires data != a.data && data.Length == |unset| == a.width * a.height
    requires blockY < a.height / 8 && blockX < a.width / 8
    requires Position(blockY, blockX, 0, 0, a.width / 8) <= data.Length
    requires data[..] == UnmappedTo(a.data[..], a.width, a.height, unset, Position(blockY, blockX, 0, 0, a.width / 8))
    modifies data
    ensures Position(blockY, blockX, 8, 0, a.width / 8) <= data.Length
    ensures data[..] == UnmappedTo(a.data[..], a.width, a.height, unset, Position(blockY, blockX, 8, 0, a.width / 8))
  {
    hide UnmappedTo, Position, Cell, InsideShape, UnmapStores;
    var blockW, height := a.width / 8, a.height;
    ghost var cells := a.data[..];
    for row := 0 to 8
      invariant Position(blockY, blockX, row, 0, blockW) <= data.Length
      invariant data[..] == UnmappedTo(cells, a.width, height, unset, Position(blockY, blockX, row, 0, blockW))
    {
      for col := 0 to 8
        invariant Position(blockY, blockX, row, col, blockW) <= data.Length
        invariant data[..] == UnmappedTo(cells, a.width, height, unset, Position(blockY, blockX, row, col, blockW))
      {
        var aBlock := 64 * (blockY * blockW + blockX);
        var retX, retY := blockX * 8 + col, blockY * 8 + row;
        UnmapStep(cells, a.width, height, unset, blockY, blockX, row, col);
        UnmapIndices(blockY, blockX, row, col, blockW, height);
        ghost var before := data[..];
        data[retY * height + retX] := a.data[aBlock + row * 8 + col];
        assert data[..] == before[retY * height + retX := cells[aBlock + row * 8 + col]];
      }
      PositionCarry(blockY, blockX, row, blockW);
    }
  }

  /** The inverse map, on shapes that it does not leave its buffers on. */
  method BlockUnmap<T(0)>(a: Matrix<T>) returns (ret: Matrix<T>, ghost unset: seq<T>)
    requires a.Valid() && a.height % 8 == 0 && a.width % 8 == 0
    requires InsideShape(a.height, a.width)
    ensures ret.Valid() && fresh(ret.data) && |unset| == ret.data.Length
    ensures ret.width == a.height && ret.height == a.width
    ensures ret.data[..] == Unmapped(a.data[..], a.width, a.height, unset)
    ensures a.width == a.height ==> ret.View() == Unmap(a.data[..], a.width)
  {
    hide UnmappedTo, Position, Cell, Unmap, InsideShape, UnmapStores;
    var data := new T[a.width * a.height];
    ret := Matrix(data, a.height, a.width);
    unset := data[..];
    BlockCount(a.width, a.height);
    var blockW, blockH := a.width / 8, a.height / 8;
    PositionCarry(0, 0, 0, blockW);
    for blockY := 0 to blockH
      invariant Position(blockY, 0, 0, 0, blockW) <= data.Length
      invariant data[..] == UnmappedTo(a.data[..], a.width, a.height, unset, Position(blockY, 0, 0, 0, blockW))
    {
      for blockX := 0 to blockW
        invariant Position(blockY, blockX, 0, 0, blockW) <= data.Length
        invariant data[..] == UnmappedTo(a.data[..], a.width, a.height, unset, Position(blockY, blockX, 0, 0, blockW))
      {
        UnmapBlock(a, data, unset, blockY, blockX);
        PositionCarry(blockY, blockX, 8, blockW);
      }
      PositionCarry(blockY, blockW, 0, blockW);
    }
    PositionCarry(blockH, 0, 0, blockW);
    if a.width == a.height {
      SquareUnmapped(a.data[..], a.width, unset);
    }
  }
}
