/** The row-wise and column-wise multiplications, against one definition of the product. */
module MatMul {
  import opened Scalars
  import opened Grids

  /** The products summed into one cell of `a * b`, in order of `k`. */
  function Terms<T>(ops: Ops<T>, a: Grid<T>, b: Grid<T>, row: nat, col: nat): (terms: seq<T>)
    requires a.Valid() && b.Valid() && a.width == b.height
    requires row < a.height && col < b.width
    ensures |terms| == a.width
  {
    seq(a.width, k requires 0 <= k < a.width => ops.mul(a.At(row, k), b.At(k, col)))
  }

  function Entry<T>(ops: Ops<T>, a: Grid<T>, b: Grid<T>, row: nat, col: nat): T
    requires a.Valid() && b.Valid() && a.width == b.height
    requires row < a.height && col < b.width
  {
    Fold(ops, ops.zero, Terms(ops, a, b, row, col))
  }

  function EntryAt<T>(ops: Ops<T>, a: Grid<T>, b: Grid<T>, i: nat): T
    requires a.Valid() && b.Valid() && a.width == b.height
    requires i < b.width * a.height
  {
    PartsCell(i, b.width, a.height);
    Entry(ops, a, b, RowOf(i, b.width), ColOf(i, b.width))
  }

  /** The matrix product. */
  function Product<T>(ops: Ops<T>, a: Grid<T>, b: Grid<T>): (c: Grid<T>)
    requires a.Valid() && b.Valid() && a.width == b.height
    ensures c.Valid() && c.width == b.width && c.height == a.height
  {
    var n := b.width * a.height;
    Grid(seq(n, i requires 0 <= i < n => EntryAt(ops, a, b, i)), b.width, a.height)
  }

  lemma ProductAt<T>(ops: Ops<T>, a: Grid<T>, b: Grid<T>, row: nat, col: nat)
    requires a.Valid() && b.Valid() && a.width == b.height
    requires row < a.height && col < b.width
    ensures Product(ops, a, b).At(row, col) == Entry(ops, a, b, row, col)
  {
    CellInside(row, col, b.width, a.height);
    CellParts(row, col, b.width);
  }

  /** The product of one element of row `row` of a with one of column `col` of b. */
  ghost predicate ProductTerm<T>(ops: Ops<T>, a: Grid<T>, b: Grid<T>, row: nat, col: nat, k: nat, term: T) {
    && Cell(row, k, a.width) < |a.cells| && Cell(k, col, b.width) < |b.cells|
    && term == ops.mul(a.cells[Cell(row, k, a.width)], b.cells[Cell(k, col, b.width)])
  }

  /** Every cell of the product: take up a zero and add, in order of k, the products of the
      elements of row `row` of a and column `col` of b. */
  lemma ProductSums<T>(ops: Ops<T>, a: Grid<T>, b: Grid<T>, row: nat, col: nat, terms: seq<T>, sums: seq<T>)
    requires a.Valid() && b.Valid() && a.width == b.height && row < a.height && col < b.width
    requires |terms| == a.width
    requires forall k: nat :: k < a.width ==> ProductTerm(ops, a, b, row, col, k, terms[k])
    requires Accumulates(ops, ops.zero, terms, sums)
    ensures Cell(row, col, b.width) < |Product(ops, a, b).cells|
    ensures Product(ops, a, b).cells[Cell(row, col, b.width)] == sums[a.width]
  {
    hide Product, Fold, Cell;
    CellInside(row, col, b.width, a.height);
    ProductAt(ops, a, b, row, col);
    forall k: nat | k < a.width ensures terms[k] == Terms(ops, a, b, row, col)[k] {
      CellInside(row, k, a.width, a.height);
      CellInside(k, col, b.width, b.height);
      assert ProductTerm(ops, a, b, row, col, k, terms[k]);
      assert a.At(row, k) == a.cells[Cell(row, k, a.width)] && b.At(k, col) == b.cells[Cell(k, col, b.width)];
    }
    assert terms == Terms(ops, a, b, row, col);
    FoldAccumulates(ops, ops.zero, terms, sums);
  }

  /** One cell: the inner loop shared by both kernels. */
  method DotProduct<T>(ops: Ops<T>, a: Matrix<T>, b: Matrix<T>, row: nat, col: nat) returns (sum: T)
    requires a.Valid() && b.Valid() && a.width == b.height
    requires row < a.height && col < b.width
    ensures sum == Entry(ops, a.View(), b.View(), row, col)
  {
    ghost var terms := Terms(ops, a.View(), b.View(), row, col);
    sum := ops.zero;
    for k := 0 to a.width
      invariant sum == Fold(ops, ops.zero, terms[..k])
    {
      CellInside(row, k, a.width, a.height);
      CellInside(k, col, b.width, b.height);
      assert a.View().At(row, k) == a.data[row * a.width + k];
      assert b.View().At(k, col) == b.data[k * b.width + col];
      assert terms[..k + 1][..k] == terms[..k];
      sum := ops.add(sum, ops.mul(a.data[row * a.width + k], b.data[k * b.width + col]));
    }
    assert terms[..a.width] == terms;
  }

  /** The cells of a result in the order in which a kernel stores them: by rows or by columns. */
  ghost function StoreOrder(width: nat, height: nat, columnwise: bool): (order: seq<nat>)
    ensures |order| == width * height
    ensures forall k :: 0 <= k < |order| ==> order[k] < width * height
  {
    seq(width * height, k requires 0 <= k < width * height =>
      if columnwise then ColumnCell(k, width, height) else k)
  }

  ghost function ColumnCell(k: nat, width: nat, height: nat): (i: nat)
    requires k < width * height
    ensures i < width * height
  {
    Swapped(width, height);
    PartsCell(k, height, width);
    CellInside(ColOf(k, height), RowOf(k, height), width, height);
    Cell(ColOf(k, height), RowOf(k, height), width)
  }

  lemma Swapped(w: nat, h: nat)
    ensures w * h == h * w
  {
  }

  lemma ColumnOrderAt(width: nat, height: nat, row: nat, col: nat)
    requires row < height && col < width
    ensures Cell(col, row, height) < width * height
    ensures StoreOrder(width, height, true)[Cell(col, row, height)] == Cell(row, col, width)
  {
    hide Cell, RowOf, ColOf;
    Swapped(width, height);
    CellInside(col, row, height, width);
    CellParts(col, row, height);
  }

  /** The operands and the result of a call, and which operands the result shares its elements with. */
  ghost predicate Call<T>(a: Grid<T>, b: Grid<T>, c: seq<T>, withA: bool, withB: bool) {
    && a.Valid() && b.Valid() && a.width == b.height && |c| == b.width * a.height
    && (withA ==> a.cells == c) && (withB ==> b.cells == c)
  }

  ghost function Seen<T>(g: Grid<T>, cells: seq<T>, shared: bool): (now: Grid<T>)
    requires g.Valid() && (shared ==> |cells| == |g.cells|)
    ensures now.Valid() && now.width == g.width && now.height == g.height
  {
    if shared then g.(cells := cells) else g
  }

  /** The result after the first `count` stores: each sees what the earlier ones did to a shared operand. */
  ghost function InPlace<T>(ops: Ops<T>, a: Grid<T>, b: Grid<T>, c: seq<T>, withA: bool, withB: bool,
                            columnwise: bool, count: nat): (cells: seq<T>)
    requires Call(a, b, c, withA, withB) && count <= |c|
    ensures |cells| == |c|
  {
    if count == 0 then c
    else
      var before := InPlace(ops, a, b, c, withA, withB, columnwise, count - 1);
      var i := StoreOrder(b.width, a.height, columnwise)[count - 1];
      before[i := EntryAt(ops, Seen(a, before, withA), Seen(b, before, withB), i)]
  }

  /** Without sharing each store is of the product's entry. */
  lemma {:induction false} NotShared<T>(ops: Ops<T>, a: Grid<T>, b: Grid<T>, c: seq<T>, columnwise: bool,
                                        count: nat, k: nat)
    requires Call(a, b, c, false, false) && k < count <= |c|
    ensures var i := StoreOrder(b.width, a.height, columnwise)[k];
            InPlace(ops, a, b, c, false, false, columnwise, count)[i] == EntryAt(ops, a, b, i)
  {
    hide StoreOrder, EntryAt;
    if k < count - 1 {
      NotShared(ops, a, b, c, columnwise, count - 1, k);
    }
  }

  lemma OrderCovers(width: nat, height: nat, columnwise: bool, i: nat) returns (k: nat)
    requires i < width * height
    ensures k < width * height && StoreOrder(width, height, columnwise)[k] == i
  {
    if columnwise {
      hide Cell, RowOf, ColOf;
      PartsCell(i, width, height);
      k := Cell(ColOf(i, width), RowOf(i, width), height);
      ColumnOrderAt(width, height, RowOf(i, width), ColOf(i, width));
    } else {
      k := i;
    }
  }

  lemma InPlaceIsProduct<T>(ops: Ops<T>, a: Grid<T>, b: Grid<T>, c: seq<T>, columnwise: bool)
    requires Call(a, b, c, false, false)
    ensures InPlace(ops, a, b, c, false, false, columnwise, |c|) == Product(ops, a, b).cells
  {
    hide InPlace, StoreOrder, EntryAt;
    forall i: nat | i < |c|
      ensures InPlace(ops, a, b, c, false, false, columnwise, |c|)[i] == Product(ops, a, b).cells[i] {
      var k := OrderCovers(b.width, a.height, columnwise, i);
      NotShared(ops, a, b, c, columnwise, |c|, k);
    }
  }

  /** One store of either kernel. */
  lemma InPlaceStep<T>(ops: Ops<T>, a: Grid<T>, b: Grid<T>, c: seq<T>, withA: bool, withB: bool, columnwise: bool,
                       row: nat, col: nat)
    requires Call(a, b, c, withA, withB) && row < a.height && col < b.width
    ensures var k := if columnwise then Cell(col, row, a.height) else Cell(row, col, b.width);
            && k < |c| && Cell(row, col, b.width) < |c|
            && var before := InPlace(ops, a, b, c, withA, withB, columnwise, k);
               InPlace(ops, a, b, c, withA, withB, columnwise, k + 1) ==
               before[Cell(row, col, b.width) := Entry(ops, Seen(a, before, withA), Seen(b, before, withB), row, col)]
  {
    hide Entry, Cell, RowOf, ColOf;
    CellInside(row, col, b.width, a.height);
    CellParts(row, col, b.width);
    if columnwise {
      ColumnOrderAt(b.width, a.height, row, col);
    }
  }

  /** One turn of either kernel's inner loops: the sum and its store. */
  method StoreEntry<T>(ops: Ops<T>, a: Matrix<T>, b: Matrix<T>, c: Matrix<T>, ghost g: Grid<T>, ghost h: Grid<T>,
                       ghost first: seq<T>, ghost columnwise: bool, row: nat, col: nat)
    requires a.Valid() && b.Valid() && c.Valid() && row < a.height && col < b.width
    requires a.width == b.height && a.height == c.height && b.width == c.width
    requires Call(g, h, first, c.data == a.data, c.data == b.data)
    requires g.width == a.width && g.height == a.height && h.width == b.width && h.height == b.height
    requires (c.data != a.data ==> a.View() == g) && (c.data != b.data ==> b.View() == h)
    requires var k := if columnwise then Cell(col, row, a.height) else Cell(row, col, b.width);
             k <= |first| && c.data[..] == InPlace(ops, g, h, first, c.data == a.data, c.data == b.data, columnwise, k)
    modifies c.data
    ensures var k := if columnwise then Cell(col, row, a.height) else Cell(row, col, b.width);
            && k < |first|
            && c.data[..] == InPlace(ops, g, h, first, c.data == a.data, c.data == b.data, columnwise, k + 1)
    ensures (c.data != a.data ==> a.View() == g) && (c.data != b.data ==> b.View() == h)
  {
    hide InPlace, Entry, Cell;
    ghost var withA, withB := c.data == a.data, c.data == b.data;
    InPlaceStep(ops, g, h, first, withA, withB, columnwise, row, col);
    assert a.View() == Seen(g, c.data[..], withA) && b.View() == Seen(h, c.data[..], withB);
    var sum := DotProduct(ops, a, b, row, col);
    CellIs(row, col, c.width);
    ghost var before := c.data[..];
    c.data[row * c.width + col] := sum;
    assert c.data[..] == before[Cell(row, col, c.width) := sum];
  }

  method SimpleMatMul<T>(ops: Ops<T>, a: Matrix<T>, b: Matrix<T>, c: Matrix<T>)
    requires a.Valid() && b.Valid() && c.Valid()
    requires a.width == b.height && a.height == c.height && b.width == c.width
    modifies c.data
    ensures Call(old(a.View()), old(b.View()), old(c.data[..]), c.data == a.data, c.data == b.data)
    ensures c.data[..] == InPlace(ops, old(a.View()), old(b.View()), old(c.data[..]), c.data == a.data,
                                  c.data == b.data, false, c.data.Length)
    ensures c.data != a.data && c.data != b.data ==> c.View() == Product(ops, old(a.View()), old(b.View()))
  {
    hide InPlace, Product, Entry, Cell;
    ghost var g, h, first := a.View(), b.View(), c.data[..];
    ghost var withA, withB := c.data == a.data, c.data == b.data;
    InPlaceStart(ops, g, h, first, withA, withB, false);
    for row := 0 to a.height
      invariant Cell(row, 0, c.width) <= c.data.Length
      invariant c.data[..] == InPlace(ops, g, h, first, withA, withB, false, Cell(row, 0, c.width))
      invariant (!withA ==> a.View() == g) && (!withB ==> b.View() == h)
    {
      for col := 0 to b.width
        invariant Cell(row, col, c.width) <= c.data.Length
        invariant c.data[..] == InPlace(ops, g, h, first, withA, withB, false, Cell(row, col, c.width))
        invariant (!withA ==> a.View() == g) && (!withB ==> b.View() == h)
      {
        CellStep(row, col, c.width);
        StoreEntry(ops, a, b, c, g, h, first, false, row, col);
      }
      CellStep(row, c.width, c.width);
    }
    CellStep(a.height, 0, c.width);
    if !withA && !withB {
      InPlaceIsProduct(ops, g, h, first, false);
    }
  }

  lemma InPlaceStart<T>(ops: Ops<T>, a: Grid<T>, b: Grid<T>, c: seq<T>, withA: bool, withB: bool, columnwise: bool)
    requires Call(a, b, c, withA, withB)
    ensures InPlace(ops, a, b, c, withA, withB, columnwise, 0) == c
    ensures Cell(0, 0, b.width) == 0 == Cell(0, 0, a.height)
    ensures b.width * a.height == a.height * b.width == |c|
  {
  }

  /** With the two outer loops exchanged, only the order of the stores is different. */
  method SimpleMatMulColumnwise<T>(ops: Ops<T>, a: Matrix<T>, b: Matrix<T>, c: Matrix<T>)
    requires a.Valid() && b.Valid() && c.Valid()
    requires a.width == b.height && a.height == c.height && b.width == c.width
    modifies c.data
    ensures Call(old(a.View()), old(b.View()), old(c.data[..]), c.data == a.data, c.data == b.data)
    ensures c.data[..] == InPlace(ops, old(a.View()), old(b.View()), old(c.data[..]), c.data == a.data,
                                  c.data == b.data, true, c.data.Length)
    ensures c.data != a.data && c.data != b.data ==> c.View() == Product(ops, old(a.View()), old(b.View()))
  {
    hide InPlace, Product, Entry, Cell;
    ghost var g, h, first := a.View(), b.View(), c.data[..];
    ghost var withA, withB := c.data == a.data, c.data == b.data;
    InPlaceStart(ops, g, h, first, withA, withB, true);
    for col := 0 to b.width
      invariant Cell(col, 0, c.height) <= c.data.Length
      invariant c.data[..] == InPlace(ops, g, h, first, withA, withB, true, Cell(col, 0, c.height))
      invariant (!withA ==> a.View() == g) && (!withB ==> b.View() == h)
    {
      for row := 0 to a.height
        invariant Cell(col, row, c.height) <= c.data.Length
        invariant c.data[..] == InPlace(ops, g, h, first, withA, withB, true, Cell(col, row, c.height))
        invariant (!withA ==> a.View() == g) && (!withB ==> b.View() == h)
      {
        CellStep(col, row, c.height);
        StoreEntry(ops, a, b, c, g, h, first, true, row, col);
      }
      CellStep(col, c.height, c.height);
    }
    CellStep(b.width, 0, c.height);
    if !withA && !withB {
      InPlaceIsProduct(ops, g, h, first, true);
    }
  }
}
