/** What the simple kernels compute when c shares its elements with an operand, which they do not forbid. */
module SharedOperands {
  import opened Scalars
  import opened Grids
  import opened MatMul

  /** The comment c = a*b, for every call on operands of a shape with this sharing. */
  ghost predicate MeetsComment(m: nat, p: nat, n: nat, withA: bool, withB: bool, columnwise: bool) {
    forall a: Grid<int>, b: Grid<int>, c: seq<int> ::
      Call(a, b, c, withA, withB) && a.height == m && a.width == p && b.width == n ==>
        InPlace(Integers(), a, b, c, withA, withB, columnwise, |c|) == Product(Integers(), a, b).cells
  }

  /** The shapes on which each store is made after the last look at what it overwrites. */
  predicate SharedShape(m: nat, n: nat, withA: bool, withB: bool) {
    m == 0 || n == 0 || ((withA ==> n == 1) && (withB ==> m == 1))
  }

  /** Arrays that are shared have the same length. */
  predicate CanShare(m: nat, p: nat, n: nat, withA: bool, withB: bool) {
    (withA ==> p * m == n * m) && (withB ==> n * p == n * m)
  }

  lemma Cancel(m: nat, p: nat, n: nat)
    requires p * m == n * m && m > 0
    ensures p == n
  {
    if p < n {
      NextRow(p, n, m);
    } else if n < p {
      NextRow(n, p, m);
    }
  }

  lemma SameSides(m: nat, p: nat, n: nat, withA: bool, withB: bool)
    requires CanShare(m, p, n, withA, withB) && m > 0 && n > 0
    ensures (withA ==> p == n) && (withB ==> p == m)
  {
    if withA {
      Cancel(m, p, n);
    }
    if withB {
      Cancel(n, p, m);
    }
  }

  /** Both kernels leave the product for every call exactly on these shapes. */
  lemma SharedShapeIff(m: nat, p: nat, n: nat, withA: bool, withB: bool, columnwise: bool)
    requires CanShare(m, p, n, withA, withB)
    ensures MeetsComment(m, p, n, withA, withB, columnwise) <==> SharedShape(m, n, withA, withB)
  {
    hide InPlace, Product;
    if SharedShape(m, n, withA, withB) {
      forall a: Grid<int>, b: Grid<int>, c: seq<int>
        | Call(a, b, c, withA, withB) && a.height == m && a.width == p && b.width == n
        ensures InPlace(Integers(), a, b, c, withA, withB, columnwise, |c|) == Product(Integers(), a, b).cells {
        if m == 0 || n == 0 {
          assert n * m == 0;
        } else if !withA && !withB {
          InPlaceIsProduct(Integers(), a, b, c, columnwise);
        } else {
          SameSides(m, p, n, withA, withB);
          InOrderIsProduct(Integers(), a, b, c, withA, withB, columnwise);
        }
      }
    } else {
      SameSides(m, p, n, withA, withB);
      if withA && withB {
        BothShared(n, columnwise);
      } else if withA {
        LeftShared(m, n, columnwise);
      } else {
        RightShared(m, n, columnwise);
      }
    }
  }

  /** A single row or column is stored front to back in either order, */
  lemma FrontToBack(width: nat, height: nat, columnwise: bool, k: nat)
    requires k < width * height && (width == 1 || height == 1)
    ensures StoreOrder(width, height, columnwise)[k] == k
  {
    if columnwise && height > 1 {
      SameCell(RowOf(k, height), ColOf(k, height), 0, k, height);
    }
  }

  /** and each entry looks only at the cell that it overwrites. */
  lemma OwnCell<T>(ops: Ops<T>, a: Grid<T>, b: Grid<T>, cells: seq<T>, withA: bool, withB: bool, i: nat)
    requires a.Valid() && b.Valid() && a.width == 1 == b.height && i < b.width * a.height
    requires (withA ==> b.width == 1 && |cells| == |a.cells| && cells[i] == a.cells[i])
    requires (withB ==> a.height == 1 && |cells| == |b.cells| && cells[i] == b.cells[i])
    ensures EntryAt(ops, Seen(a, cells, withA), Seen(b, cells, withB), i) == EntryAt(ops, a, b, i)
  {
    hide Fold, Cell, RowOf, ColOf;
    PartsCell(i, b.width, a.height);
    var row, col := RowOf(i, b.width), ColOf(i, b.width);
    var left, right := Seen(a, cells, withA), Seen(b, cells, withB);
    assert left.At(row, 0) == a.At(row, 0) by {
      assert withA ==> Cell(row, 0, a.width) == i;
    }
    assert right.At(0, col) == b.At(0, col) by {
      assert withB ==> Cell(0, col, b.width) == i;
    }
    forall k: nat | k < 1 ensures left.At(row, k) == a.At(row, k) && right.At(k, col) == b.At(k, col) {}
    assert Terms(ops, left, right, row, col) == Terms(ops, a, b, row, col);
  }

  lemma {:induction false} InOrder<T>(ops: Ops<T>, a: Grid<T>, b: Grid<T>, c: seq<T>, withA: bool, withB: bool,
                                      columnwise: bool, count: nat)
    requires Call(a, b, c, withA, withB) && count <= |c| && a.width == 1
    requires (withA ==> b.width == 1) && (withB ==> a.height == 1) && (withA || withB)
    ensures var cells := InPlace(ops, a, b, c, withA, withB, columnwise, count);
            && (forall i: nat :: i < count ==> cells[i] == EntryAt(ops, a, b, i))
            && (forall i: nat :: count <= i < |c| ==> cells[i] == c[i])
  {
    hide EntryAt, StoreOrder;
    if count > 0 {
      InOrder(ops, a, b, c, withA, withB, columnwise, count - 1);
      FrontToBack(b.width, a.height, columnwise, count - 1);
      var before := InPlace(ops, a, b, c, withA, withB, columnwise, count - 1);
      OwnCell(ops, a, b, before, withA, withB, count - 1);
    }
  }

  lemma InOrderIsProduct<T>(ops: Ops<T>, a: Grid<T>, b: Grid<T>, c: seq<T>, withA: bool, withB: bool, columnwise: bool)
    requires Call(a, b, c, withA, withB) && a.width == 1
    requires (withA ==> b.width == 1) && (withB ==> a.height == 1) && (withA || withB)
    ensures InPlace(ops, a, b, c, withA, withB, columnwise, |c|) == Product(ops, a, b).cells
  {
    hide InPlace, EntryAt;
    InOrder(ops, a, b, c, withA, withB, columnwise, |c|);
  }

  ghost predicate AllZero(cells: seq<int>) {
    forall i :: 0 <= i < |cells| ==> cells[i] == 0
  }

  lemma ZeroAt(g: Grid<int>, row: nat, col: nat)
    requires g.Valid() && row < g.height && col < g.width
    ensures AllZero(g.cells) ==> g.At(row, col) == 0
  {
    CellInside(row, col, g.width, g.height);
  }

  /** An operand of zeros gives zeros. */
  lemma ZeroEntry(a: Grid<int>, b: Grid<int>, i: nat)
    requires a.Valid() && b.Valid() && a.width == b.height && i < b.width * a.height
    requires AllZero(a.cells) || AllZero(b.cells)
    ensures EntryAt(Integers(), a, b, i) == 0
  {
    PartsCell(i, b.width, a.height);
    var row, col := RowOf(i, b.width), ColOf(i, b.width);
    forall k: nat | k < a.width ensures Terms(Integers(), a, b, row, col)[k] == 0 {
      ZeroAt(a, row, k);
      ZeroAt(b, k, col);
    }
    FoldZeros(Terms(Integers(), a, b, row, col));
  }

  /** Once the shared operand is all zeros it stays so. */
  lemma {:induction false} ZerosStay(a: Grid<int>, b: Grid<int>, c: seq<int>, withA: bool, withB: bool,
                                     columnwise: bool, count: nat)
    requires Call(a, b, c, withA, withB) && (withA || withB) && 0 < count <= |c|
    requires AllZero(InPlace(Integers(), a, b, c, withA, withB, columnwise, 1))
    ensures AllZero(InPlace(Integers(), a, b, c, withA, withB, columnwise, count))
  {
    hide EntryAt, StoreOrder;
    if count > 1 {
      ZerosStay(a, b, c, withA, withB, columnwise, count - 1);
      var before := InPlace(Integers(), a, b, c, withA, withB, columnwise, count - 1);
      var i := StoreOrder(b.width, a.height, columnwise)[count - 1];
      ZeroEntry(Seen(a, before, withA), Seen(b, before, withB), i);
    }
  }

  /** The first store of either kernel is of cell (0, 0). */
  lemma FirstStore(a: Grid<int>, b: Grid<int>, c: seq<int>, withA: bool, withB: bool, columnwise: bool)
    requires Call(a, b, c, withA, withB) && a.height > 0 && b.width > 0
    ensures |c| > 0
    ensures InPlace(Integers(), a, b, c, withA, withB, columnwise, 1) ==
            c[0 := Entry(Integers(), a, b, 0, 0)]
  {
    hide Entry;
    InPlaceStart(Integers(), a, b, c, withA, withB, columnwise);
    InPlaceStep(Integers(), a, b, c, withA, withB, columnwise, 0, 0);
  }

  /** The left operand has a single one, in its first cell, and the first store clears it. */
  lemma LeftShared(m: nat, n: nat, columnwise: bool)
    requires m > 0 && n > 1
    ensures !MeetsComment(m, n, n, true, false, columnwise)
  {
    hide InPlace, Product, Unit;
    var a, b := Unit(n, m, 0, 0), Unit(n, n, 0, 1);
    forall k: nat | k < n
      ensures Terms(Integers(), a, b, 0, 0)[k] == 0 && Terms(Integers(), a, b, 0, 1)[k] == if k == 0 then 1 else 0 {
      UnitAt(n, m, 0, 0, 0, k);
      UnitAt(n, n, 0, 1, k, 0);
      UnitAt(n, n, 0, 1, k, 1);
    }
    FoldZeros(Terms(Integers(), a, b, 0, 0));
    FoldSingle(Terms(Integers(), a, b, 0, 1), 0);
    ProductAt(Integers(), a, b, 0, 1);
    FirstStore(a, b, a.cells, true, false, columnwise);
    UnitCleared(n, m);
    ZerosStay(a, b, a.cells, true, false, columnwise, |a.cells|);
    ZeroAt(Product(Integers(), a, b), 0, 1);
    assert Call(a, b, a.cells, true, false);
  }

  lemma UnitCleared(width: nat, height: nat)
    requires width > 0 && height > 0
    ensures |Unit(width, height, 0, 0).cells| > 0 && AllZero(Unit(width, height, 0, 0).cells[0 := 0])
  {
    CellInside(0, 0, width, height);
  }

  /** The right operand has a single one, in its first cell, and the first store clears it. */
  lemma RightShared(m: nat, n: nat, columnwise: bool)
    requires m > 1 && n > 0
    ensures !MeetsComment(m, m, n, false, true, columnwise)
  {
    hide InPlace, Product, Unit;
    var a, b := Unit(m, m, 1, 0), Unit(n, m, 0, 0);
    forall k: nat | k < m
      ensures Terms(Integers(), a, b, 0, 0)[k] == 0 && Terms(Integers(), a, b, 1, 0)[k] == if k == 0 then 1 else 0 {
      UnitAt(m, m, 1, 0, 0, k);
      UnitAt(m, m, 1, 0, 1, k);
      UnitAt(n, m, 0, 0, k, 0);
    }
    FoldZeros(Terms(Integers(), a, b, 0, 0));
    FoldSingle(Terms(Integers(), a, b, 1, 0), 0);
    ProductAt(Integers(), a, b, 1, 0);
    FirstStore(a, b, b.cells, false, true, columnwise);
    UnitCleared(n, m);
    ZerosStay(a, b, b.cells, false, true, columnwise, |b.cells|);
    ZeroAt(Product(Integers(), a, b), 1, 0);
    assert Call(a, b, b.cells, false, true);
  }

  /** The sum of n terms that are all one but perhaps the first. */
  lemma {:induction false} FoldFirst(xs: seq<int>)
    requires |xs| > 0 && forall i :: 0 < i < |xs| ==> xs[i] == 1
    ensures Fold(Integers(), 0, xs) == xs[0] + |xs| - 1
  {
    if |xs| > 1 {
      FoldFirst(xs[..|xs| - 1]);
    } else {
      assert Fold(Integers(), 0, xs[..0]) == 0;
    }
  }

  /** A square of ones, multiplied by itself in place: the second store sees the first. */
  lemma BothShared(n: nat, columnwise: bool)
    requires n > 1
    ensures !MeetsComment(n, n, n, true, true, columnwise)
  {
    hide InPlace, Product, Constant, Entry;
    var g := Constant(n, n, 1);
    var row, col := if columnwise then 1 else 0, if columnwise then 0 else 1;
    OnesEntry(n, 0, 0);
    OnesEntry(n, row, col);
    FirstStore(g, g, g.cells, true, true, columnwise);
    SecondStore(n, columnwise);
    SecondStays(n, columnwise, |g.cells|);
    ProductAt(Integers(), g, g, row, col);
    CellInside(row, col, n, n);
    assert Product(Integers(), g, g).cells[Cell(row, col, n)] == n;
    assert Call(g, g, g.cells, true, true);
  }

  lemma OnesEntry(n: nat, row: nat, col: nat)
    requires row < n && col < n
    ensures Entry(Integers(), Constant(n, n, 1), Constant(n, n, 1), row, col) == n
  {
    hide Constant;
    var g := Constant(n, n, 1);
    var terms := Terms(Integers(), g, g, row, col);
    forall k: nat | k < n ensures terms[k] == 1 {
      ConstantAt(n, n, 1, row, k);
      ConstantAt(n, n, 1, k, col);
    }
    FoldFirst(terms);
  }

  /** The square after its first cell has become n. */
  lemma RaisedAt(n: nat, row: nat, col: nat)
    requires row < n && col < n
    ensures |Constant(n, n, 1).cells| > 0
    ensures Grid(Constant(n, n, 1).cells[0 := n], n, n).At(row, col) == if row == 0 && col == 0 then n else 1
  {
    CellInside(row, col, n, n);
    if Cell(row, col, n) == 0 {
      SameCell(row, col, 0, 0, n);
    }
  }

  lemma SecondStore(n: nat, columnwise: bool)
    requires n > 1
    requires |Constant(n, n, 1).cells| > 0
    requires var g := Constant(n, n, 1);
             InPlace(Integers(), g, g, g.cells, true, true, columnwise, 1) == g.cells[0 := n]
    ensures var g := Constant(n, n, 1);
            var i := if columnwise then n else 1;
            && |g.cells| == n * n >= 2 && i < n * n
            && InPlace(Integers(), g, g, g.cells, true, true, columnwise, 2)[i] == 2 * n - 1
  {
    hide InPlace, Constant, Entry;
    var g := Constant(n, n, 1);
    var now := Grid(g.cells[0 := n], n, n);
    var row, col := if columnwise then 1 else 0, if columnwise then 0 else 1;
    CellInside(row, col, n, n);
    SecondCells(n);
    InPlaceStep(Integers(), g, g, g.cells, true, true, columnwise, row, col);
    RaisedEntry(n, row, col);
  }

  lemma SecondCells(n: nat)
    requires n > 1
    ensures Cell(0, 1, n) == 1 && Cell(1, 0, n) == n
    ensures n * n >= 2 && n < n * n
  {
  }

  lemma RaisedEntry(n: nat, row: nat, col: nat)
    requires n > 1 && (row, col) in {(0, 1), (1, 0)}
    requires |Constant(n, n, 1).cells| > 0
    ensures var now := Grid(Constant(n, n, 1).cells[0 := n], n, n);
            Entry(Integers(), now, now, row, col) == 2 * n - 1
  {
    hide Constant;
    var now := Grid(Constant(n, n, 1).cells[0 := n], n, n);
    var terms := Terms(Integers(), now, now, row, col);
    forall k: nat | k < n ensures terms[k] == if k == 0 then n else 1 {
      RaisedAt(n, row, k);
      RaisedAt(n, k, col);
    }
    FoldFirst(terms);
  }

  /** Nothing is stored twice. */
  lemma OrderDistinct(width: nat, height: nat, columnwise: bool, j: nat, k: nat)
    requires j < k < width * height
    ensures StoreOrder(width, height, columnwise)[j] != StoreOrder(width, height, columnwise)[k]
  {
    hide Cell, RowOf, ColOf;
    if columnwise {
      Swapped(width, height);
      PartsCell(j, height, width);
      PartsCell(k, height, width);
      if ColumnCell(j, width, height) == ColumnCell(k, width, height) {
        SameCell(ColOf(j, height), RowOf(j, height), ColOf(k, height), RowOf(k, height), width);
      }
    }
  }

  lemma {:induction false} SecondStays(n: nat, columnwise: bool, count: nat)
    requires n > 1 && 2 <= count <= |Constant(n, n, 1).cells|
    ensures var g := Constant(n, n, 1);
            var i := if columnwise then n else 1;
            && i < |g.cells|
            && InPlace(Integers(), g, g, g.cells, true, true, columnwise, count)[i] ==
               InPlace(Integers(), g, g, g.cells, true, true, columnwise, 2)[i]
  {
    hide Constant, EntryAt, StoreOrder;
    SecondCells(n);
    if count > 2 {
      SecondStays(n, columnwise, count - 1);
      SecondInOrder(n, columnwise);
      OrderDistinct(n, n, columnwise, 1, count - 1);
    }
  }

  lemma SecondInOrder(n: nat, columnwise: bool)
    requires n > 1
    ensures n * n >= 2 && StoreOrder(n, n, columnwise)[1] == if columnwise then n else 1
  {
    hide RowOf, ColOf, Cell;
    SecondCells(n);
    if columnwise {
      ColumnOrderAt(n, n, 1, 0);
    }
  }
}
