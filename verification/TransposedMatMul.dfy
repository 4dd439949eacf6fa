/** The multiplication by rows of the transposed operand. Its `cc` has the dimensions of c exchanged, so a
    wide product is stored over itself; the final transpose is of whatever that leaves. */
module TransposedMatMul {
  import opened Scalars
  import opened Grids
  import opened MatMul
  import opened Overlays
  import opened SwappedDims
  import opened Transposes
  import opened SharedOperands

  /** Where the stores go: column by column, each at row * m + col. */
  ghost function ColumnStores(m: nat, n: nat): (dests: seq<nat>)
    requires InsideShape(m, n)
    ensures |dests| == m * n
    ensures forall k :: 0 <= k < |dests| ==> dests[k] < m * n
  {
    seq(m * n, k requires 0 <= k < m * n => ColumnStore(k, m, n))
  }

  ghost function ColumnStore(k: nat, m: nat, n: nat): (dest: nat)
    requires InsideShape(m, n) && k < m * n
    ensures dest < m * n
  {
    PartsCell(k, m, n);
    StoreInside(m, n, ColOf(k, m), RowOf(k, m));
    Cell(ColOf(k, m), RowOf(k, m), m)
  }

  lemma StoreAt(m: nat, n: nat, row: nat, col: nat)
    requires InsideShape(m, n) && row < m && col < n
    ensures Cell(col, row, m) < m * n
    ensures ColumnStores(m, n)[Cell(col, row, m)] == Cell(row, col, m) < m * n
  {
    hide Cell, RowOf, ColOf;
    CellInside(col, row, m, n);
    CellParts(col, row, m);
  }

  lemma Exchanged(m: nat, n: nat)
    ensures m * n == n * m
  {
  }

  /** The operands of a call and what c held before; `withA` when c shares its elements with a. */
  ghost predicate Called<T>(a: Grid<T>, b: Grid<T>, first: seq<T>, withA: bool) {
    && a.Valid() && b.Valid() && a.width == b.height && |first| == a.height * b.width
    && InsideShape(a.height, b.width) && (withA ==> a.cells == first)
  }

  /** The contents of cc after the first `count` stores: each sees what the earlier ones did to a shared a. */
  ghost function Stored<T>(ops: Ops<T>, a: Grid<T>, b: Grid<T>, first: seq<T>, withA: bool, count: nat)
    : (cells: seq<T>)
    requires Called(a, b, first, withA) && count <= |first|
    ensures |cells| == |first|
  {
    if count == 0 then first
    else
      var before := Stored(ops, a, b, first, withA, count - 1);
      var k := count - 1;
      PartsCell(k, a.height, b.width);
      before[ColumnStores(a.height, b.width)[k] :=
        Entry(ops, Seen(a, before, withA), b, ColOf(k, a.height), RowOf(k, a.height))]
  }

  /** What TransposeMatMul leaves in c: the transpose of the contents of cc. */
  ghost function Left<T>(ops: Ops<T>, a: Grid<T>, b: Grid<T>, first: seq<T>, withA: bool): (cells: seq<T>)
    requires Called(a, b, first, withA)
    ensures |cells| == |first|
  {
    Exchanged(a.height, b.width);
    Transpose(Grid(Stored(ops, a, b, first, withA, |first|), a.height, b.width)).cells
  }

  /** The same cell by cell: row y and column x of c is row x and column y of cc, which is as wide as c is high. */
  lemma LeftCell<T>(ops: Ops<T>, a: Grid<T>, b: Grid<T>, first: seq<T>, withA: bool, y: nat, x: nat)
    requires Called(a, b, first, withA) && y < a.height && x < b.width
    ensures Cell(y, x, b.width) < |first| && Cell(x, y, a.height) < |first|
    ensures Left(ops, a, b, first, withA)[Cell(y, x, b.width)] ==
            Stored(ops, a, b, first, withA, |first|)[Cell(x, y, a.height)]
  {
    hide Left, Stored, Transpose, Cell, InsideShape;
    var cc := Grid(Stored(ops, a, b, first, withA, |first|), a.height, b.width);
    LeftIsTransposed(ops, a, b, first, withA);
    TransposeAt(cc, x, y);
    CellInside(y, x, b.width, a.height);
    CellInside(x, y, a.height, b.width);
  }

  lemma LeftIsTransposed<T>(ops: Ops<T>, a: Grid<T>, b: Grid<T>, first: seq<T>, withA: bool)
    requires Called(a, b, first, withA)
    ensures |first| == a.height * b.width == b.width * a.height
    ensures Left(ops, a, b, first, withA) ==
            Transpose(Grid(Stored(ops, a, b, first, withA, |first|), a.height, b.width)).cells
  {
    hide Stored, Transpose, InsideShape;
    Exchanged(a.height, b.width);
  }

  method TransposeMatMul<T(0)>(ops: Ops<T>, a: Matrix<T>, b: Matrix<T>, c: MatrixVar<T>)
    requires a.Valid() && b.Valid() && c.value.Valid()
    requires a.width == b.height && a.height == c.value.height && b.width == c.value.width
    requires a.height % 8 == 0 && a.width % 8 == 0 && b.width % 8 == 0
    requires InsideShape(a.height, b.width)
    modifies c, c.value.data
    ensures c.value.Valid() && fresh(c.value.data)
    ensures c.value.width == old(c.value.width) && c.value.height == old(c.value.height)
    ensures Called(old(a.View()), old(b.View()), old(c.value.data[..]), old(c.value.data) == a.data)
    ensures c.value.data[..] ==
            Left(ops, old(a.View()), old(b.View()), old(c.value.data[..]), old(c.value.data) == a.data)
  {
    hide Stored, Transpose;
    var bb := Transposed8x8Flipped(b);
    var cc := Matrix(c.value.data, c.value.height, c.value.width);
    Exchanged(c.value.height, c.value.width);
    MultiplyRows(ops, a, bb, b.View(), cc);
    var ccc := Transposed8x8Flipped(cc);
    c.value := Matrix(ccc.data, c.value.width, c.value.height);
  }

  /** The loops of TransposeMatMul, over a and the transposed b. */
  method MultiplyRows<T>(ops: Ops<T>, a: Matrix<T>, bb: Matrix<T>, ghost b: Grid<T>, cc: Matrix<T>)
    requires a.Valid() && b.Valid() && a.width == b.height
    requires bb.Valid() && bb.View() == Transpose(b)
    requires cc.Valid() && cc.width == a.height && cc.height == b.width
    requires InsideShape(a.height, b.width) && cc.data != bb.data
    modifies cc.data
    ensures Called(old(a.View()), b, old(cc.data[..]), cc.data == a.data)
    ensures cc.data[..] == Stored(ops, old(a.View()), b, old(cc.data[..]), cc.data == a.data, cc.data.Length)
  {
    hide Entry, Transpose, Cell, Stored;
    ghost var g, first, withA := a.View(), cc.data[..], cc.data == a.data;
    var m := a.height;
    Exchanged(m, b.width);
    CellStep(0, 0, m);
    StoredStart(ops, g, b, first, withA);
    for col := 0 to bb.height
      invariant Cell(col, 0, m) <= cc.data.Length
      invariant bb.data[..] == old(bb.data[..]) && (!withA ==> a.data[..] == old(a.data[..]))
      invariant cc.data[..] == Stored(ops, g, b, first, withA, Cell(col, 0, m))
    {
      for row := 0 to a.height
        invariant Cell(col, row, m) <= cc.data.Length
        invariant bb.data[..] == old(bb.data[..]) && (!withA ==> a.data[..] == old(a.data[..]))
        invariant cc.data[..] == Stored(ops, g, b, first, withA, Cell(col, row, m))
      {
        StoredStep(ops, g, b, first, withA, row, col);
        assert a.View() == Seen(g, cc.data[..], withA);
        var sum := RowByRow(ops, a, bb, b, row, col);
        CellStep(col, row, m);
        CellIs(row, col, m);
        ghost var before := cc.data[..];
        cc.data[row * cc.width + col] := sum;
        assert cc.data[..] == before[Cell(row, col, m) := sum];
      }
      CellStep(col, a.height, m);
    }
    CellStep(bb.height, 0, m);
  }

  lemma StoredStart<T>(ops: Ops<T>, a: Grid<T>, b: Grid<T>, first: seq<T>, withA: bool)
    requires Called(a, b, first, withA)
    ensures Stored(ops, a, b, first, withA, 0) == first
  {
  }

  lemma StoredStep<T>(ops: Ops<T>, a: Grid<T>, b: Grid<T>, first: seq<T>, withA: bool, row: nat, col: nat)
    requires Called(a, b, first, withA) && row < a.height && col < b.width
    ensures var k := Cell(col, row, a.height);
            && k < |first| && Cell(row, col, a.height) < |first|
            && var before := Stored(ops, a, b, first, withA, k);
               Stored(ops, a, b, first, withA, k + 1) ==
               before[Cell(row, col, a.height) := Entry(ops, Seen(a, before, withA), b, row, col)]
  {
    hide Entry, Cell, RowOf, ColOf, ColumnStores;
    StoreAt(a.height, b.width, row, col);
    CellParts(col, row, a.height);
  }

  /** When a is not shared, the stores are of the entries of the product, column by column. */
  lemma {:induction false} StoredIs<T>(ops: Ops<T>, a: Grid<T>, b: Grid<T>, first: seq<T>, count: nat)
    requires Called(a, b, first, false) && count <= |first|
    ensures |Transpose(Product(ops, a, b)).cells| == |ColumnStores(a.height, b.width)| == |first|
    ensures Stored(ops, a, b, first, false, count) ==
            Overlay(first, ColumnStores(a.height, b.width), Transpose(Product(ops, a, b)).cells, count)
  {
    hide Entry, Cell, RowOf, ColOf, ColumnStores, Product, Transpose;
    Exchanged(a.height, b.width);
    if count > 0 {
      StoredIs(ops, a, b, first, count - 1);
      var k, m := count - 1, a.height;
      PartsCell(k, m, b.width);
      ValueAt(Product(ops, a, b), ColOf(k, m), RowOf(k, m));
      ProductAt(ops, a, b, ColOf(k, m), RowOf(k, m));
    }
  }

  lemma ValueAt<T>(product: Grid<T>, row: nat, col: nat)
    requires product.Valid() && row < product.height && col < product.width
    ensures Cell(col, row, product.height) < |Transpose(product).cells|
    ensures Transpose(product).cells[Cell(col, row, product.height)] == product.At(row, col)
  {
    TransposeAt(product, row, col);
    CellInside(col, row, product.height, product.width);
  }

  /** The inner loop of TransposeMatMul: two rows, one of a and one of the transposed b. */
  method RowByRow<T>(ops: Ops<T>, a: Matrix<T>, bb: Matrix<T>, ghost b: Grid<T>, row: nat, col: nat) returns (sum: T)
    requires a.Valid() && b.Valid() && a.width == b.height
    requires bb.Valid() && bb.View() == Transpose(b)
    requires row < a.height && col < b.width
    ensures sum == Entry(ops, a.View(), b, row, col)
  {
    hide Transpose;
    ghost var terms := Terms(ops, a.View(), b, row, col);
    sum := ops.zero;
    for k := 0 to a.width
      invariant sum == Fold(ops, ops.zero, terms[..k])
    {
      CellInside(row, k, a.width, a.height);
      CellInside(col, k, bb.width, bb.height);
      assert a.View().At(row, k) == a.data[row * a.width + k];
      assert bb.View().At(col, k) == bb.data[col * bb.width + k];
      TransposeAt(b, k, col);
      assert terms[..k + 1][..k] == terms[..k];
      sum := ops.add(sum, ops.mul(a.data[row * a.width + k], bb.data[col * bb.width + k]));
    }
    assert terms[..a.width] == terms;
  }

  /** What a wide product leaves in cc, in plain numbers: cell row * m + col holds entry (row, col) of the
      product when there is no store one row up and m columns later, which lands on it too. */
  lemma StoredCell<T>(ops: Ops<T>, a: Grid<T>, b: Grid<T>, first: seq<T>, row: nat, col: nat)
    requires Called(a, b, first, false) && row < a.height && col < b.width
    requires row == 0 || col + a.height >= b.width
    ensures row * a.height + col < |first|
    ensures Stored(ops, a, b, first, false, |first|)[row * a.height + col] == Product(ops, a, b).At(row, col)
  {
    hide Stored, Transpose, ColumnStores, RowOf, ColOf, Product, Cell;
    var m, n := a.height, b.width;
    StoredIs(ops, a, b, first, |first|);
    StoreAt(m, n, row, col);
    ValueAt(Product(ops, a, b), row, col);
    CellIs(row, col, m);
    var k := Cell(col, row, m);
    forall j | k < j < m * n ensures ColumnStores(m, n)[j] != ColumnStores(m, n)[k] {
      LaterStore(m, n, row, col, j);
    }
    OverlayLast(first, ColumnStores(m, n), Transpose(Product(ops, a, b)).cells, |first|, k);
  }

  lemma LaterStore(m: nat, n: nat, row: nat, col: nat, j: nat)
    requires InsideShape(m, n) && row < m && col < n && (row == 0 || col + m >= n)
    requires Cell(col, row, m) < j < m * n
    ensures ColumnStores(m, n)[j] != Cell(row, col, m)
  {
    hide Cell, RowOf, ColOf;
    PartsCell(j, m, n);
    var r, c := ColOf(j, m), RowOf(j, m);
    CellGap(c, r, col, row, m);
    CellGap(r, c, row, col, m);
    CellGap(row, col, r, c, m);
  }

  /** A cell of an earlier row is at least a whole row before the same column of a later one. */
  lemma CellGap(row: nat, col: nat, later: nat, there: nat, width: nat)
    ensures row < later ==> Cell(row, col, width) + width + there <= Cell(later, there, width) + col
    ensures row == later ==> Cell(row, col, width) + there == Cell(later, there, width) + col
  {
    NextRow(row, later, width);
  }

  /** On squares every cell of cc is stored to once, so it holds the product. */
  lemma SquareStored<T>(ops: Ops<T>, a: Grid<T>, b: Grid<T>, first: seq<T>)
    requires Called(a, b, first, false) && a.height == b.width
    ensures Stored(ops, a, b, first, false, |first|) == Product(ops, a, b).cells
  {
    hide Stored, Transpose, ColumnStores, Cell, RowOf, ColOf, Product;
    var n, product := a.height, Product(ops, a, b);
    StoredIs(ops, a, b, first, |first|);
    var dests, vals := ColumnStores(n, n), Transpose(product).cells;
    forall i: nat | i < n * n ensures Stored(ops, a, b, first, false, |first|)[i] == product.cells[i] {
      PartsCell(i, n, n);
      var row, col := RowOf(i, n), ColOf(i, n);
      StoreAt(n, n, row, col);
      ValueAt(product, row, col);
      var k := Cell(col, row, n);
      forall j | k < j < n * n ensures dests[j] != dests[k] {
        StoresDiffer(n, k, j);
      }
      OverlayLast(first, dests, vals, n * n, k);
    }
  }

  lemma StoresDiffer(n: nat, k: nat, j: nat)
    requires k < j < n * n
    ensures ColumnStores(n, n)[j] != ColumnStores(n, n)[k]
  {
    hide Cell, RowOf, ColOf;
    PartsCell(k, n, n);
    PartsCell(j, n, n);
    if ColumnStores(n, n)[j] == ColumnStores(n, n)[k] {
      SameCell(ColOf(j, n), RowOf(j, n), ColOf(k, n), RowOf(k, n), n);
    }
  }

  /** On squares c is left with the transpose of the product. */
  lemma SquareLeft<T>(ops: Ops<T>, a: Grid<T>, b: Grid<T>, first: seq<T>)
    requires Called(a, b, first, false) && a.height == b.width
    ensures Left(ops, a, b, first, false) == Transpose(Product(ops, a, b)).cells
  {
    hide Stored, Transpose, Product;
    SquareStored(ops, a, b, first);
    assert Grid(Stored(ops, a, b, first, false, |first|), a.height, b.width) == Product(ops, a, b);
  }

  /** On a wide product some cell of c keeps what it held, whatever the product is. */
  lemma WideLeft<T>(ops: Ops<T>, a: Grid<T>, b: Grid<T>, first: seq<T>) returns (row: nat, col: nat, i: nat)
    requires Called(a, b, first, false) && 0 < a.height < b.width
    requires a.height % 8 == 0 && b.width % 8 == 0
    ensures row < a.height && col < b.width && i < |first|
    ensures |first| == b.width * a.height
    ensures Grid(Left(ops, a, b, first, false), b.width, a.height).At(row, col) == first[i]
  {
    hide Transpose, Cell, RowOf, ColOf, Stored, Product;
    var m, n := a.height, b.width;
    StoredIs(ops, a, b, first, |first|);
    StoresFillIff(m, n);
    InsideShapeIff(m, n);
    i :| 0 <= i < m * n && !SwappedDims.Stored(i, m, n);
    forall k | 0 <= k < m * n ensures ColumnStores(m, n)[k] != i {
      PartsCell(k, m, n);
      assert ColumnStores(m, n)[k] == Cell(ColOf(k, m), RowOf(k, m), m);
    }
    OverlayKeeps(first, ColumnStores(m, n), Transpose(Product(ops, a, b)).cells, m * n, i);
    Exchanged(m, n);
    PartsCell(i, m, n);
    row, col := ColOf(i, m), RowOf(i, m);
    TransposeAt(Grid(Stored(ops, a, b, first, false, |first|), m, n), col, row);
  }

  /** The comment c = a*b, for operands of a shape and whatever c held before. */
  ghost predicate MeetsComment(m: nat, p: nat, n: nat, withA: bool) {
    forall a: Grid<int>, b: Grid<int>, first: seq<int> ::
      Called(a, b, first, withA) && a.height == m && a.width == p && b.width == n ==>
        Left(Integers(), a, b, first, withA) == Product(Integers(), a, b).cells
  }

  /** TransposeMatMul leaves the product in c for all operands of a shape exactly when there is nothing to
      compute: c is empty, or it is square and the inner dimension is zero. It makes no difference whether c
      shares its elements with a, which takes arrays of the same length. */
  lemma TransposeMatMulMeetsComment(m: nat, p: nat, n: nat, withA: bool)
    requires m % 8 == 0 && p % 8 == 0 && n % 8 == 0
    requires withA ==> p * m == n * m
    ensures InsideShape(m, n) && MeetsComment(m, p, n, withA) <==> m == 0 || n == 0 || (m == n && p == 0)
  {
    hide Left, Product;
    if m == 0 || n == 0 {
      NoCells(m, p, n, withA);
    } else if withA {
      Cancel(m, p, n);
      if m <= n {
        SharedCounterexample(m, n);
      }
    } else if m == n && p == 0 {
      forall a: Grid<int>, b: Grid<int>, first: seq<int>
        | Called(a, b, first, withA) && a.height == m && a.width == p && b.width == n
        ensures Left(Integers(), a, b, first, withA) == Product(Integers(), a, b).cells {
        NothingSummed(a, b, first);
      }
    } else if m == n {
      SquareCounterexample(p, n);
    } else if m < n {
      WideCounterexample(m, p, n);
    }
  }

  lemma NoCells(m: nat, p: nat, n: nat, withA: bool)
    requires m == 0 || n == 0
    ensures MeetsComment(m, p, n, withA)
  {
    hide Left, Product;
    assert m * n == 0 && n * m == 0;
  }

  lemma NothingSummed(a: Grid<int>, b: Grid<int>, first: seq<int>)
    requires Called(a, b, first, false) && a.width == 0 && a.height == b.width
    ensures Left(Integers(), a, b, first, false) == Product(Integers(), a, b).cells
  {
    hide Left, Product, Transpose;
    var product := Product(Integers(), a, b);
    SquareLeft(Integers(), a, b, first);
    forall row: nat, col: nat | row < product.height && col < product.width
      ensures Transpose(product).At(row, col) == product.At(row, col) {
      ProductAt(Integers(), a, b, row, col);
      ProductAt(Integers(), a, b, col, row);
      TransposeAt(product, col, row);
    }
    SameGrid(Transpose(product), product);
  }

  lemma SquareCounterexample(p: nat, n: nat)
    requires p > 0 && n > 1
    ensures !MeetsComment(n, p, n, false)
  {
    hide Left, Product, Transpose, Unit;
    var a, b := Unit(p, n, 0, 0), Unit(n, p, 0, 1);
    var product := Product(Integers(), a, b);
    forall k: nat | k < p ensures
      && Terms(Integers(), a, b, 0, 1)[k] == (if k == 0 then 1 else 0)
      && Terms(Integers(), a, b, 1, 0)[k] == 0 {
      UnitAt(p, n, 0, 0, 0, k);
      UnitAt(p, n, 0, 0, 1, k);
      UnitAt(n, p, 0, 1, k, 1);
      UnitAt(n, p, 0, 1, k, 0);
    }
    FoldSingle(Terms(Integers(), a, b, 0, 1), 0);
    FoldZeros(Terms(Integers(), a, b, 1, 0));
    ProductAt(Integers(), a, b, 0, 1);
    ProductAt(Integers(), a, b, 1, 0);
    TransposeAt(product, 0, 1);
    SquareLeft(Integers(), a, b, product.cells);
    assert Transpose(product).At(1, 0) != product.At(1, 0);
    assert Called(a, b, product.cells, false) && Left(Integers(), a, b, product.cells, false) != product.cells;
  }

  lemma WideCounterexample(m: nat, p: nat, n: nat)
    requires m % 8 == 0 && n % 8 == 0 && 0 < m < n
    ensures !MeetsComment(m, p, n, false)
  {
    hide Left, Product, Constant;
    var a, b, ones := Constant(p, m, 0), Constant(n, p, 0), Constant(n, m, 1);
    var product := Product(Integers(), a, b);
    Exchanged(m, n);
    var row, col, i := WideLeft(Integers(), a, b, ones.cells);
    ConstantCells(n, m, 1);
    ZeroProduct(m, p, n, row, col);
    assert Grid(Left(Integers(), a, b, ones.cells, false), n, m).At(row, col) != product.At(row, col);
    assert Called(a, b, ones.cells, false) && Left(Integers(), a, b, ones.cells, false) != product.cells;
  }

  lemma ZeroProduct(m: nat, p: nat, n: nat, row: nat, col: nat)
    requires row < m && col < n
    ensures Product(Integers(), Constant(p, m, 0), Constant(n, p, 0)).At(row, col) == 0
  {
    hide Product, Constant;
    var a, b := Constant(p, m, 0), Constant(n, p, 0);
    forall k: nat | k < p ensures Terms(Integers(), a, b, row, col)[k] == 0 {
      ConstantAt(p, m, 0, row, k);
      ConstantAt(n, p, 0, k, col);
    }
    FoldZeros(Terms(Integers(), a, b, row, col));
    ProductAt(Integers(), a, b, row, col);
  }

  /** A shared operand whose single one the first store clears: everything after it is zero. */
  lemma SharedCounterexample(m: nat, n: nat)
    requires 1 < m <= n
    ensures !MeetsComment(m, n, n, true)
  {
    hide Left, Product, Unit, Stored;
    var a, b := Unit(n, m, 0, 0), Unit(n, n, 0, 1);
    forall k: nat | k < n
      ensures Terms(Integers(), a, b, 0, 0)[k] == 0 && Terms(Integers(), a, b, 0, 1)[k] == if k == 0 then 1 else 0 {
      UnitAt(n, m, 0, 0, 0, k);
      UnitAt(n, n, 0, 1, k, 0);
      UnitAt(n, n, 0, 1, k, 1);
    }
    FoldZeros(Terms(Integers(), a, b, 0, 0));
    FoldSingle(Terms(Integers(), a, b, 0, 1), 0);
    ProductAt(Integers(), a, b, 0, 1);
    Exchanged(m, n);
    StoredStart(Integers(), a, b, a.cells, true);
    StoredStep(Integers(), a, b, a.cells, true, 0, 0);
    UnitCleared(n, m);
    ZerosStayStored(a, b, a.cells, |a.cells|);
    ZeroTransposed(Grid(Stored(Integers(), a, b, a.cells, true, |a.cells|), m, n));
    assert AllZero(Left(Integers(), a, b, a.cells, true)) by {
      LeftIs(a, b, a.cells);
    }
    ZeroAt(Product(Integers(), a, b), 0, 1);
    assert Called(a, b, a.cells, true);
  }

  lemma LeftIs(a: Grid<int>, b: Grid<int>, first: seq<int>)
    requires Called(a, b, first, true)
    ensures first == a.cells && a.height * b.width == b.width * a.height
    ensures Left(Integers(), a, b, first, true) ==
            Transpose(Grid(Stored(Integers(), a, b, first, true, |first|), a.height, b.width)).cells
  {
    hide Stored, Transpose;
    Exchanged(a.height, b.width);
  }

  lemma ZeroTransposed(g: Grid<int>)
    requires g.Valid() && AllZero(g.cells)
    ensures AllZero(Transpose(g).cells)
  {
    forall i: nat | i < |Transpose(g).cells| ensures Transpose(g).cells[i] == 0 {
      PartsCell(i, g.height, g.width);
      ZeroAt(g, ColOf(i, g.height), RowOf(i, g.height));
    }
  }

  lemma {:induction false} ZerosStayStored(a: Grid<int>, b: Grid<int>, first: seq<int>, count: nat)
    requires Called(a, b, first, true) && 0 < count <= |first|
    requires AllZero(Stored(Integers(), a, b, first, true, 1))
    ensures AllZero(Stored(Integers(), a, b, first, true, count))
  {
    hide Entry, ColumnStores;
    if count > 1 {
      ZerosStayStored(a, b, first, count - 1);
      var before := Stored(Integers(), a, b, first, true, count - 1);
      var k := count - 1;
      PartsCell(k, a.height, b.width);
      ZeroEntryAt(Seen(a, before, true), b, ColOf(k, a.height), RowOf(k, a.height));
    }
  }

  lemma ZeroEntryAt(a: Grid<int>, b: Grid<int>, row: nat, col: nat)
    requires a.Valid() && b.Valid() && a.width == b.height && row < a.height && col < b.width && AllZero(a.cells)
    ensures Entry(Integers(), a, b, row, col) == 0
  {
    CellInside(row, col, b.width, a.height);
    CellParts(row, col, b.width);
    ZeroEntry(a, b, Cell(row, col, b.width));
  }
}
