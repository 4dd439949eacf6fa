/** The blocked multiplication: both operands remapped, 8x8 blocks multiplied, the result unmapped.
    Shapes are counted in blocks: a is m by p, b is p by n, and c is m by n blocks. */
module BlockMatMul {
  import opened Scalars
  import opened Grids
  import opened Overlays
  import opened SwappedDims
  import opened MatMul
  import opened BlockLayout

  /** The eight products that one pair of blocks contributes to position (row, col). */
  function OctetTerms<T>(ops: Ops<T>, aa: seq<T>, bb: seq<T>, aBlock: nat, bBlock: nat, row: nat, col: nat)
    : (terms: seq<T>)
    requires 64 * aBlock + 64 <= |aa| && 64 * bBlock + 64 <= |bb| && row < 8 && col < 8
    ensures |terms| == 8
  {
    seq(8, j requires 0 <= j < 8 => ops.mul(aa[64 * aBlock + 8 * row + j], bb[64 * bBlock + 8 * j + col]))
  }

  /** The block indices the three outer loops read, with `m` blocks to a row in both operands. */
  ghost predicate ReadsInside(m: nat, p: nat, n: nat) {
    && (forall blockRow: nat, k: nat | blockRow < n && 0 < m && k < p :: Cell(blockRow, k, m) < m * p)
    && (forall k: nat, blockCol: nat | 0 < n && k < p && blockCol < m :: Cell(k, blockCol, m) < p * n)
  }

  /** The shapes on which the kernel stays inside its buffers. */
  predicate BoundedShape(m: nat, p: nat, n: nat) {
    m == 0 || n == 0 || (p == 0 && n <= m) || (m == n && m <= p)
  }

  /** The shapes on which it also computes the product. */
  predicate RightShape(m: nat, p: nat, n: nat) {
    m == 0 || n == 0 || (m == n && (p == 0 || p == m || m == 1))
  }

  lemma ReadInside(m: nat, p: nat, n: nat, blockRow: nat, blockCol: nat, k: nat)
    requires BoundedShape(m, p, n) && blockRow < n && blockCol < m && k < p
    ensures Cell(blockRow, k, m) < m * p && Cell(k, blockCol, m) < p * n
  {
    CellInside(k, blockCol, m, p);
    StoreInside(m, p, blockRow, k);
  }

  lemma TooFewBlocks(m: nat, p: nat)
    requires 0 < p < m
    ensures Cell(m - 1, p - 1, m) >= m * p
  {
    Multiply(m, m - 1);
    NextRow(p, m, m);
    CellIs(m - 1, p - 1, m);
    assert (m - 1) * m == m * m - m;
  }

  lemma WideRead(m: nat, p: nat, n: nat)
    requires 0 < p && n < m
    ensures Cell(p - 1, m - 1, m) >= p * n
  {
    CellIs(p - 1, m - 1, m);
    assert (p - 1) * m + m == p * m;
    assert p * m == p * n + p * (m - n);
    assert p * (m - n) >= 1;
  }

  /** The block indices are inside the operands, and the unmap's stores inside its result, exactly then. */
  lemma BoundedShapeIff(m: nat, p: nat, n: nat)
    ensures BoundedShape(m, p, n) <==> ReadsInside(m, p, n) && InsideShape(8 * n, 8 * m)
  {
    hide Cell;
    if BoundedShape(m, p, n) {
      forall blockRow: nat, k: nat | blockRow < n && 0 < m && k < p ensures Cell(blockRow, k, m) < m * p {
        ReadInside(m, p, n, blockRow, 0, k);
      }
      forall k: nat, blockCol: nat | 0 < n && k < p && blockCol < m ensures Cell(k, blockCol, m) < p * n {
        ReadInside(m, p, n, 0, blockCol, k);
      }
    } else if n < m && 0 < p {
      WideRead(m, p, n);
      assert !(Cell(p - 1, m - 1, m) < p * n);
    } else if m == n {
      TooFewBlocks(m, p);
      assert !(Cell(m - 1, p - 1, m) < m * p);
    }
  }

  /** Element `i` of the block-major result after `count` pairs of blocks. */
  function Partial<T>(ops: Ops<T>, aa: seq<T>, bb: seq<T>, m: nat, p: nat, n: nat, i: nat, count: nat): T
    requires BoundedShape(m, p, n) && |aa| == 64 * (m * p) && |bb| == 64 * (p * n)
    requires i < 64 * (m * n) && count <= p
  {
    PartsCell(i / 64, m, n);
    PartialAt(ops, aa, bb, m, p, n, RowOf(i / 64, m), ColOf(i / 64, m), i % 64 / 8, i % 8, count)
  }

  function PairTerms<T>(ops: Ops<T>, aa: seq<T>, bb: seq<T>, m: nat, p: nat, n: nat, blockRow: nat, blockCol: nat,
                        row: nat, col: nat, k: nat): (terms: seq<T>)
    requires BoundedShape(m, p, n) && |aa| == 64 * (m * p) && |bb| == 64 * (p * n)
    requires blockRow < n && blockCol < m && row < 8 && col < 8 && k < p
    ensures |terms| == 8
  {
    ReadInside(m, p, n, blockRow, blockCol, k);
    OctetTerms(ops, aa, bb, Cell(blockRow, k, m), Cell(k, blockCol, m), row, col)
  }

  function PairSums<T>(ops: Ops<T>, aa: seq<T>, bb: seq<T>, m: nat, p: nat, n: nat, blockRow: nat, blockCol: nat,
                       row: nat, col: nat, count: nat): (sums: seq<T>)
    requires BoundedShape(m, p, n) && |aa| == 64 * (m * p) && |bb| == 64 * (p * n)
    requires blockRow < n && blockCol < m && row < 8 && col < 8 && count <= p
  {
    seq(count, k requires 0 <= k < count =>
      Fold(ops, ops.zero, PairTerms(ops, aa, bb, m, p, n, blockRow, blockCol, row, col, k)))
  }

  function PartialAt<T>(ops: Ops<T>, aa: seq<T>, bb: seq<T>, m: nat, p: nat, n: nat, blockRow: nat, blockCol: nat,
                        row: nat, col: nat, count: nat): T
    requires BoundedShape(m, p, n) && |aa| == 64 * (m * p) && |bb| == 64 * (p * n)
    requires blockRow < n && blockCol < m && row < 8 && col < 8 && count <= p
  {
    Fold(ops, ops.zero, PairSums(ops, aa, bb, m, p, n, blockRow, blockCol, row, col, count))
  }

  lemma PartialNext<T>(ops: Ops<T>, aa: seq<T>, bb: seq<T>, m: nat, p: nat, n: nat, blockRow: nat, blockCol: nat,
                       row: nat, col: nat, k: nat)
    requires BoundedShape(m, p, n) && |aa| == 64 * (m * p) && |bb| == 64 * (p * n)
    requires blockRow < n && blockCol < m && row < 8 && col < 8 && k < p
    ensures PartialAt(ops, aa, bb, m, p, n, blockRow, blockCol, row, col, k + 1) ==
            ops.add(PartialAt(ops, aa, bb, m, p, n, blockRow, blockCol, row, col, k),
                    Fold(ops, ops.zero, PairTerms(ops, aa, bb, m, p, n, blockRow, blockCol, row, col, k)))
  {
    assert PairSums(ops, aa, bb, m, p, n, blockRow, blockCol, row, col, k + 1)[..k] ==
           PairSums(ops, aa, bb, m, p, n, blockRow, blockCol, row, col, k);
  }

  /** The block-major result of the kernel, in terms of its block-major operands. */
  function BlockProduct<T>(ops: Ops<T>, aa: seq<T>, bb: seq<T>, m: nat, p: nat, n: nat): (cc: seq<T>)
    requires BoundedShape(m, p, n) && |aa| == 64 * (m * p) && |bb| == 64 * (p * n)
    ensures |cc| == 64 * (m * n)
  {
    seq(64 * (m * n), i requires 0 <= i < 64 * (m * n) => Partial(ops, aa, bb, m, p, n, i, p))
  }

  ghost predicate BlockShaped<T>(a: Grid<T>, b: Grid<T>, m: nat, p: nat, n: nat) {
    && a.Valid() && b.Valid()
    && a.height == 8 * m && a.width == 8 * p && b.height == 8 * p && b.width == 8 * n
  }

  lemma RemapSize<T>(g: Grid<T>, h: nat, w: nat)
    requires g.Valid() && g.height == 8 * h && g.width == 8 * w
    ensures |Remap(g)| == 64 * (h * w)
  {
    BlockCount(g.width, g.height);
  }

  /** What BlockRemapMatMul leaves in c, row by row, when the unmap's fresh array held `unset`. */
  ghost function BlockResult<T>(ops: Ops<T>, a: Grid<T>, b: Grid<T>, m: nat, p: nat, n: nat, unset: seq<T>)
    : (cells: seq<T>)
    requires BlockShaped(a, b, m, p, n) && BoundedShape(m, p, n) && |unset| == 64 * (m * n)
    ensures |cells| == |unset|
  {
    RemapSize(a, m, p);
    RemapSize(b, p, n);
    BlockCount(8 * m, 8 * n);
    Unmapped(BlockProduct(ops, Remap(a), Remap(b), m, p, n), 8 * m, 8 * n, unset)
  }

  lemma LeftTerm<T>(a: Grid<T>, m: nat, p: nat, y: nat, k: nat, j: nat)
    requires a.Valid() && a.height == 8 * m && a.width == 8 * p
    requires y < 8 * m && k < p && j < 8 && (p == m || m == 1)
    ensures 64 * Cell(y / 8, k, m) + 8 * (y % 8) + j < |Remap(a)|
    ensures Remap(a)[64 * Cell(y / 8, k, m) + 8 * (y % 8) + j] == a.At(y, 8 * k + j)
  {
    hide Remap, Cell;
    RemapAt(a, y, 8 * k + j);
    SplitEight(k, j);
    SameRowStart(y / 8, k, m, p);
  }

  lemma SameRowStart(row: nat, k: nat, m: nat, p: nat)
    requires p == m || (m == 1 && row == 0)
    ensures Cell(row, k, m) == Cell(row, k, p)
  {
  }

  lemma RightTerm<T>(b: Grid<T>, p: nat, n: nat, x: nat, k: nat, j: nat)
    requires b.Valid() && b.height == 8 * p && b.width == 8 * n
    requires x < 8 * n && k < p && j < 8
    ensures 64 * Cell(k, x / 8, n) + 8 * j + x % 8 < |Remap(b)|
    ensures Remap(b)[64 * Cell(k, x / 8, n) + 8 * j + x % 8] == b.At(8 * k + j, x)
  {
    hide Remap, Cell;
    RemapAt(b, 8 * k + j, x);
    SplitEight(k, j);
  }

  /** On the right shapes, the pairs of blocks are consecutive eights of the simple kernel's terms. */
  lemma PairTermsAreTerms<T>(ops: Ops<T>, a: Grid<T>, b: Grid<T>, m: nat, p: nat, n: nat, y: nat, x: nat, k: nat)
    requires BlockShaped(a, b, m, p, n) && RightShape(m, p, n) && m == n
    requires y < 8 * m && x < 8 * n && k < p
    requires |Remap(a)| == 64 * (m * p) && |Remap(b)| == 64 * (p * n)
    ensures PairTerms(ops, Remap(a), Remap(b), m, p, n, y / 8, x / 8, y % 8, x % 8, k) ==
            Terms(ops, a, b, y, x)[8 * k..8 * k + 8]
  {
    hide Remap, PairTerms, Terms;
    forall j: nat | j < 8
      ensures PairTerms(ops, Remap(a), Remap(b), m, p, n, y / 8, x / 8, y % 8, x % 8, k)[j] ==
              Terms(ops, a, b, y, x)[8 * k..8 * k + 8][j] {
      PairTermIsTerm(ops, a, b, m, p, n, y, x, k, j);
    }
  }

  lemma PairTermIsTerm<T>(ops: Ops<T>, a: Grid<T>, b: Grid<T>, m: nat, p: nat, n: nat, y: nat, x: nat, k: nat, j: nat)
    requires BlockShaped(a, b, m, p, n) && RightShape(m, p, n) && m == n
    requires y < 8 * m && x < 8 * n && k < p && j < 8
    requires |Remap(a)| == 64 * (m * p) && |Remap(b)| == 64 * (p * n)
    ensures PairTerms(ops, Remap(a), Remap(b), m, p, n, y / 8, x / 8, y % 8, x % 8, k)[j] ==
            Terms(ops, a, b, y, x)[8 * k + j]
  {
    hide Remap, Cell;
    ReadInside(m, p, n, y / 8, x / 8, k);
    LeftTerm(a, m, p, y, k, j);
    RightTerm(b, p, n, x, k, j);
  }

  lemma BlockEntry<T(!new)>(ops: Ops<T>, a: Grid<T>, b: Grid<T>, m: nat, p: nat, n: nat, y: nat, x: nat)
    requires Associative(ops) && RightZero(ops)
    requires BlockShaped(a, b, m, p, n) && RightShape(m, p, n) && m == n
    requires |Remap(a)| == 64 * (m * p) && |Remap(b)| == 64 * (p * n)
    requires y < 8 * m && x < 8 * n
    ensures PartialAt(ops, Remap(a), Remap(b), m, p, n, y / 8, x / 8, y % 8, x % 8, p) == Entry(ops, a, b, y, x)
  {
    hide PairTerms, Terms, Remap, Fold, Cell;
    var sums := PairSums(ops, Remap(a), Remap(b), m, p, n, y / 8, x / 8, y % 8, x % 8, p);
    forall k | 0 <= k < p ensures sums[k] == OctetSums(ops, Terms(ops, a, b, y, x), p)[k] {
      PairTermsAreTerms(ops, a, b, m, p, n, y, x, k);
    }
    assert sums == OctetSums(ops, Terms(ops, a, b, y, x), p);
    Regroup(ops, Terms(ops, a, b, y, x), p);
  }

  lemma BlockProductAt<T>(ops: Ops<T>, aa: seq<T>, bb: seq<T>, m: nat, p: nat, n: nat, y: nat, x: nat)
    requires BoundedShape(m, p, n) && |aa| == 64 * (m * p) && |bb| == 64 * (p * n)
    requires y < 8 * n && x < 8 * m
    ensures BlockIndex(y, x, m) < 64 * (m * n)
    ensures BlockProduct(ops, aa, bb, m, p, n)[BlockIndex(y, x, m)] ==
            PartialAt(ops, aa, bb, m, p, n, y / 8, x / 8, y % 8, x % 8, p)
  {
    hide PartialAt, Cell, RowOf, ColOf;
    CellInside(y / 8, x / 8, m, n);
    CellParts(y / 8, x / 8, m);
    Digits(Cell(y / 8, x / 8, m), y % 8, x % 8);
  }

  lemma BlockResultAt<T>(ops: Ops<T>, a: Grid<T>, b: Grid<T>, m: nat, p: nat, n: nat, unset: seq<T>, y: nat, x: nat)
    requires BlockShaped(a, b, m, p, n) && BoundedShape(m, p, n) && m == n && |unset| == 64 * (m * n)
    requires y < 8 * m && x < 8 * n
    ensures |Remap(a)| == 64 * (m * p) && |Remap(b)| == 64 * (p * n)
    ensures Cell(y, x, 8 * n) < |BlockResult(ops, a, b, m, p, n, unset)|
    ensures BlockResult(ops, a, b, m, p, n, unset)[Cell(y, x, 8 * n)] ==
            PartialAt(ops, Remap(a), Remap(b), m, p, n, y / 8, x / 8, y % 8, x % 8, p)
  {
    hide Remap, Unmap, Unmapped, BlockProduct, PartialAt, Cell;
    RemapSize(a, m, p);
    RemapSize(b, p, n);
    BlockCount(8 * m, 8 * n);
    CellInside(y, x, 8 * n, 8 * m);
    SquareUnmapped(BlockProduct(ops, Remap(a), Remap(b), m, p, n), 8 * m, unset);
    UnmapAt(BlockProduct(ops, Remap(a), Remap(b), m, p, n), 8 * m, y, x);
    BlockProductAt(ops, Remap(a), Remap(b), m, p, n, y, x);
  }

  /** Every cell that the kernel leaves, in plain numbers, on every square shape: for each k, the eight products of
      block k of row y / 8 in a with the block of row k in b, both with m blocks to a row, are added up from zero,
      and these sums are added up from zero. The operands are read as they are remapped. */
  lemma BlockCell<T(!new)>(ops: Ops<T>, a: Grid<T>, b: Grid<T>, m: nat, p: nat, n: nat, unset: seq<T>, y: nat, x: nat,
                             pairs: seq<T>, totals: seq<T>)
    requires BlockShaped(a, b, m, p, n) && BoundedShape(m, p, n) && m == n && |unset| == 64 * (m * n)
    requires y < 8 * m && x < 8 * n && |pairs| == p
    requires PairsAdd(ops, Remap(a), Remap(b), m, y, x, pairs)
    requires Accumulates(ops, ops.zero, pairs, totals)
    ensures Cell(y, x, 8 * n) < |BlockResult(ops, a, b, m, p, n, unset)|
    ensures BlockResult(ops, a, b, m, p, n, unset)[Cell(y, x, 8 * n)] == totals[p]
  {
    hide Remap, BlockResult, Fold, PairTerms, Cell, PairAdds;
    BlockResultAt(ops, a, b, m, p, n, unset, y, x);
    forall k: nat | k < p
      ensures PairSums(ops, Remap(a), Remap(b), m, p, n, y / 8, x / 8, y % 8, x % 8, p)[k] == pairs[k] {
      PairSumIs(ops, Remap(a), Remap(b), m, p, n, y, x, k, pairs[k]);
    }
    assert PairSums(ops, Remap(a), Remap(b), m, p, n, y / 8, x / 8, y % 8, x % 8, p) == pairs;
    FoldAccumulates(ops, ops.zero, pairs, totals);
  }

  ghost predicate PairsAdd<T(!new)>(ops: Ops<T>, aa: seq<T>, bb: seq<T>, m: nat, y: nat, x: nat, pairs: seq<T>) {
    forall k: nat :: k < |pairs| ==> PairAdds(ops, aa, bb, m, y, x, k, pairs[k])
  }

  /** The sum of the eight products of one pair of blocks. */
  ghost predicate PairAdds<T(!new)>(ops: Ops<T>, aa: seq<T>, bb: seq<T>, m: nat, y: nat, x: nat, k: nat, sum: T) {
    exists octet, sums ::
      OctetAt(ops, aa, bb, m, y, x, k, octet) && Accumulates(ops, ops.zero, octet, sums) && sum == sums[|octet|]
  }

  ghost predicate OctetAt<T>(ops: Ops<T>, aa: seq<T>, bb: seq<T>, m: nat, y: nat, x: nat, k: nat, octet: seq<T>) {
    && |octet| == 8
    && forall j: nat :: j < 8 ==>
         && 64 * (y / 8 * m + k) + 8 * (y % 8) + j < |aa| && 64 * (k * m + x / 8) + 8 * j + x % 8 < |bb|
         && octet[j] == ops.mul(aa[64 * (y / 8 * m + k) + 8 * (y % 8) + j], bb[64 * (k * m + x / 8) + 8 * j + x % 8])
  }

  lemma PairSumIs<T(!new)>(ops: Ops<T>, aa: seq<T>, bb: seq<T>, m: nat, p: nat, n: nat, y: nat, x: nat, k: nat, sum: T)
    requires BoundedShape(m, p, n) && m == n && |aa| == 64 * (m * p) && |bb| == 64 * (p * n)
    requires y < 8 * m && x < 8 * n && k < p && PairAdds(ops, aa, bb, m, y, x, k, sum)
    ensures Fold(ops, ops.zero, PairTerms(ops, aa, bb, m, p, n, y / 8, x / 8, y % 8, x % 8, k)) == sum
  {
    hide Fold, PairTerms, OctetAt;
    var octet, sums :|
      OctetAt(ops, aa, bb, m, y, x, k, octet) && Accumulates(ops, ops.zero, octet, sums) && sum == sums[|octet|];
    OctetIs(ops, aa, bb, m, p, n, y, x, k, octet);
    FoldAccumulates(ops, ops.zero, octet, sums);
  }

  lemma OctetIs<T>(ops: Ops<T>, aa: seq<T>, bb: seq<T>, m: nat, p: nat, n: nat, y: nat, x: nat, k: nat, octet: seq<T>)
    requires BoundedShape(m, p, n) && m == n && |aa| == 64 * (m * p) && |bb| == 64 * (p * n)
    requires y < 8 * m && x < 8 * n && k < p && OctetAt(ops, aa, bb, m, y, x, k, octet)
    ensures octet == PairTerms(ops, aa, bb, m, p, n, y / 8, x / 8, y % 8, x % 8, k)
  {
    hide Cell;
    ReadInside(m, p, n, y / 8, x / 8, k);
    CellIs(y / 8, k, m);
    CellIs(k, x / 8, m);
  }

  /** The main theorem: on the right shapes the blocked kernel leaves the simple kernel's product, whatever the
      fresh array held, given only an associative addition with a right zero. */
  lemma BlockResultIsProduct<T(!new)>(ops: Ops<T>, a: Grid<T>, b: Grid<T>, m: nat, p: nat, n: nat, unset: seq<T>)
    requires Associative(ops) && RightZero(ops)
    requires BlockShaped(a, b, m, p, n) && RightShape(m, p, n) && |unset| == 64 * (m * n)
    ensures BlockResult(ops, a, b, m, p, n, unset) == Product(ops, a, b).cells
  {
    hide BlockResult, Product, PartialAt, Remap, Entry;
    var got, want := BlockResult(ops, a, b, m, p, n, unset), Product(ops, a, b);
    BlockCount(b.width, a.height);
    if m > 0 && n > 0 {
      var g := Grid(got, 8 * n, 8 * m);
      forall y: nat, x: nat | y < 8 * m && x < 8 * n ensures g.At(y, x) == want.At(y, x) {
        BlockResultAt(ops, a, b, m, p, n, unset, y, x);
        BlockEntry(ops, a, b, m, p, n, y, x);
        ProductAt(ops, a, b, y, x);
      }
      SameGrid(g, want);
    } else {
      NoCells(m, n);
    }
  }

  lemma NoCells(m: nat, n: nat)
    requires m == 0 || n == 0
    ensures m * n == 0 && 8 * m * (8 * n) == 0 && 8 * n * (8 * m) == 0
  {
  }

  /** On a square shape that is not right, block (1, 0) of the result multiplies block (0, m) of a: two
      operands with a single one each show it. */
  lemma WrongShape(m: nat, p: nat, n: nat, unset: seq<int>)
    requires BoundedShape(m, p, n) && !RightShape(m, p, n) && m == n && |unset| == 64 * (m * n)
    ensures var a, b := Unit(8 * p, 8 * m, 0, 8 * m), Unit(8 * n, 8 * p, 0, 0);
            && BlockShaped(a, b, m, p, n)
            && BlockResult(Integers(), a, b, m, p, n, unset) != Product(Integers(), a, b).cells
  {
    hide Remap, PartialAt, BlockResult;
    var a, b := Unit(8 * p, 8 * m, 0, 8 * m), Unit(8 * n, 8 * p, 0, 0);
    BlockResultAt(Integers(), a, b, m, p, n, unset, 8, 0);
    StrayOne(m, p, n, a, b);
    RowOfZeros(m, p, n, a, b);
  }

  /** With nothing to sum and more columns than rows in cc, the unmap leaves a cell of its array unset. */
  lemma UnsetCell<T>(ops: Ops<T>, a: Grid<T>, b: Grid<T>, m: nat, n: nat, unset: seq<T>) returns (i: nat)
    requires BlockShaped(a, b, m, 0, n) && 0 < n < m && |unset| == 64 * (m * n)
    ensures i < |unset| && BlockResult(ops, a, b, m, 0, n, unset)[i] == unset[i]
  {
    hide Remap, BlockProduct, Cell, BlockY, BlockX;
    RemapSize(a, m, 0);
    RemapSize(b, 0, n);
    BlockCount(8 * m, 8 * n);
    InsideShapeIff(8 * n, 8 * m);
    StoresFillIff(8 * n, 8 * m);
    i :| 0 <= i < 8 * n * (8 * m) && !Stored(i, 8 * n, 8 * m);
    var stores := UnmapStores(8 * m, 8 * n);
    forall k | 0 <= k < |stores| ensures stores[k] != i {
      BlockIndexOnto(k, 8 * m, 8 * n);
      assert stores[k] == Cell(BlockY(k, m), BlockX(k, m), 8 * n);
    }
    OverlayKeeps(unset, stores, BlockProduct(ops, Remap(a), Remap(b), m, 0, n), 8 * m * (8 * n), i);
  }

  /** So the product of nothing, all zeros, is not what it leaves. */
  lemma UnsetShape(m: nat, n: nat)
    requires 0 < n < m
    ensures !MeetsComment(m, 0, n)
  {
    hide BlockResult, Product, Constant;
    var a, b, ones := Constant(0, 8 * m, 0), Constant(8 * n, 0, 0), Constant(8 * n, 8 * m, 1);
    var product := Product(Integers(), a, b);
    BlockCount(8 * n, 8 * m);
    ConstantCells(8 * n, 8 * m, 1);
    BlockCount(8 * m, 8 * n);
    var i := UnsetCell(Integers(), a, b, m, n, ones.cells);
    EmptySums(a, b, i);
    assert BlockShaped(a, b, m, 0, n) && BlockResult(Integers(), a, b, m, 0, n, ones.cells) != product.cells;
  }

  lemma EmptySums(a: Grid<int>, b: Grid<int>, i: nat)
    requires a.Valid() && b.Valid() && a.width == 0 == b.height && i < |Product(Integers(), a, b).cells|
    ensures Product(Integers(), a, b).cells[i] == 0
  {
  }

  lemma RowOfZeros(m: nat, p: nat, n: nat, a: Grid<int>, b: Grid<int>)
    requires 1 < m == n < p
    requires a == Unit(8 * p, 8 * m, 0, 8 * m) && b == Unit(8 * n, 8 * p, 0, 0)
    ensures Cell(8, 0, 8 * n) < |Product(Integers(), a, b).cells|
    ensures Product(Integers(), a, b).cells[Cell(8, 0, 8 * n)] == 0
  {
    hide Unit;
    CellInside(8, 0, 8 * n, 8 * m);
    forall k: nat | k < 8 * p ensures Terms(Integers(), a, b, 8, 0)[k] == 0 {
      UnitAt(8 * p, 8 * m, 0, 8 * m, 8, k);
    }
    FoldZeros(Terms(Integers(), a, b, 8, 0));
    ProductAt(Integers(), a, b, 8, 0);
  }

  lemma StrayTerm(m: nat, p: nat, n: nat, a: Grid<int>, b: Grid<int>, k: nat, j: nat)
    requires 1 < m == n < p && k < p && j < 8
    requires a == Unit(8 * p, 8 * m, 0, 8 * m) && b == Unit(8 * n, 8 * p, 0, 0)
    requires |Remap(a)| == 64 * (m * p) && |Remap(b)| == 64 * (p * n)
    ensures PairTerms(Integers(), Remap(a), Remap(b), m, p, n, 1, 0, 0, 0, k)[j] == if k == 0 && j == 0 then 1 else 0
  {
    hide Remap, Cell, Unit;
    ReadInside(m, p, n, 1, 0, k);
    RightTerm(b, p, n, 0, k, j);
    UnitAt(8 * n, 8 * p, 0, 0, 8 * k + j, 0);
    LeftStray(m, p, a);
  }

  lemma StrayOne(m: nat, p: nat, n: nat, a: Grid<int>, b: Grid<int>)
    requires 1 < m == n < p
    requires a == Unit(8 * p, 8 * m, 0, 8 * m) && b == Unit(8 * n, 8 * p, 0, 0)
    requires |Remap(a)| == 64 * (m * p) && |Remap(b)| == 64 * (p * n)
    ensures PartialAt(Integers(), Remap(a), Remap(b), m, p, n, 1, 0, 0, 0, p) == 1
  {
    hide Remap, PairTerms;
    var sums := PairSums(Integers(), Remap(a), Remap(b), m, p, n, 1, 0, 0, 0, p);
    forall k: nat | k < p ensures sums[k] == if k == 0 then 1 else 0 {
      var terms := PairTerms(Integers(), Remap(a), Remap(b), m, p, n, 1, 0, 0, 0, k);
      forall j: nat | j < 8 ensures terms[j] == if k == 0 && j == 0 then 1 else 0 {
        StrayTerm(m, p, n, a, b, k, j);
      }
      FoldSingle(terms, 0);
    }
    FoldSingle(sums, 0);
  }

  lemma LeftStray(m: nat, p: nat, a: Grid<int>)
    requires 1 < m < p && a == Unit(8 * p, 8 * m, 0, 8 * m)
    ensures 64 * Cell(1, 0, m) < |Remap(a)| && Remap(a)[64 * Cell(1, 0, m)] == 1
  {
    RemapAt(a, 0, 8 * m);
    UnitAt(8 * p, 8 * m, 0, 8 * m, 0, 8 * m);
  }

  /** The comment c = a*b, for operands of a shape and whatever the fresh array held. */
  ghost predicate MeetsComment(m: nat, p: nat, n: nat)
    requires BoundedShape(m, p, n)
  {
    forall a: Grid<int>, b: Grid<int>, unset: seq<int> :: BlockShaped(a, b, m, p, n) && |unset| == 64 * (m * n) ==>
      BlockResult(Integers(), a, b, m, p, n, unset) == Product(Integers(), a, b).cells
  }

  /** Exactly when BlockRemapMatMul stays inside its buffers and meets its comment for every pair of operands. */
  lemma RightShapeIff(m: nat, p: nat, n: nat)
    ensures RightShape(m, p, n) <==> BoundedShape(m, p, n) && MeetsComment(m, p, n)
  {
    hide BlockResult, Product, Unit;
    if RightShape(m, p, n) {
      forall a: Grid<int>, b: Grid<int>, unset: seq<int> | BlockShaped(a, b, m, p, n) && |unset| == 64 * (m * n)
        ensures BlockResult(Integers(), a, b, m, p, n, unset) == Product(Integers(), a, b).cells {
        BlockResultIsProduct(Integers(), a, b, m, p, n, unset);
      }
    } else if BoundedShape(m, p, n) && m == n {
      WrongShape(m, p, n, seq(64 * (m * n), _ => 0));
    } else if BoundedShape(m, p, n) {
      UnsetShape(m, n);
    }
  }

  /** One position of the 8x8 product: the unrolled sum of the kernel. */
  method OctetSum<T>(ops: Ops<T>, aa: array<T>, aBlock: nat, bb: array<T>, bBlock: nat, row: nat, col: nat)
    returns (sum: T)
    requires 64 * aBlock + 64 <= aa.Length && 64 * bBlock + 64 <= bb.Length && row < 8 && col < 8
    ensures sum == Fold(ops, ops.zero, OctetTerms(ops, aa[..], bb[..], aBlock, bBlock, row, col))
  {
    ghost var terms := OctetTerms(ops, aa[..], bb[..], aBlock, bBlock, row, col);
    sum := ops.zero;
    for j := 0 to 8
      invariant sum == Fold(ops, ops.zero, terms[..j])
    {
      assert terms[..j + 1][..j] == terms[..j];
      sum := ops.add(sum, ops.mul(aa[64 * aBlock + row * 8 + j], bb[64 * bBlock + j * 8 + col]));
    }
    assert terms[..8] == terms;
  }

  /** The product of two blocks at offset `at` of the 64. */
  function BlockTerm<T>(ops: Ops<T>, aa: seq<T>, bb: seq<T>, aBlock: nat, bBlock: nat, at: nat): T
    requires 64 * aBlock + 64 <= |aa| && 64 * bBlock + 64 <= |bb| && at < 64
  {
    Fold(ops, ops.zero, OctetTerms(ops, aa, bb, aBlock, bBlock, at / 8, at % 8))
  }

  /** `cc_block += aa_block * bb_block`, and nothing else changes. */
  method MultiplyBlock<T>(ops: Ops<T>, aa: array<T>, aBlock: nat, bb: array<T>, bBlock: nat, cc: array<T>, cBlock: nat)
    requires 64 * aBlock + 64 <= aa.Length && 64 * bBlock + 64 <= bb.Length && 64 * cBlock + 64 <= cc.Length
    requires cc != aa && cc != bb
    modifies cc
    ensures forall i :: 0 <= i < cc.Length && i / 64 != cBlock ==> cc[i] == old(cc[i])
    ensures forall i :: 0 <= i < cc.Length && i / 64 == cBlock ==>
              cc[i] == ops.add(old(cc[i]), BlockTerm(ops, old(aa[..]), old(bb[..]), aBlock, bBlock, i % 64))
  {
    hide BlockTerm;
    ghost var left, right := aa[..], bb[..];
    ghost var terms := seq(64, at requires 0 <= at < 64 => BlockTerm(ops, left, right, aBlock, bBlock, at));
    for row := 0 to 8
      invariant aa[..] == left && bb[..] == right
      invariant forall i :: 0 <= i < cc.Length && !(0 <= i - 64 * cBlock < 8 * row) ==> cc[i] == old(cc[i])
      invariant forall i :: 0 <= i < cc.Length && 0 <= i - 64 * cBlock < 8 * row ==>
                  cc[i] == ops.add(old(cc[i]), terms[i - 64 * cBlock])
    {
      for col := 0 to 8
        invariant aa[..] == left && bb[..] == right
        invariant forall i :: 0 <= i < cc.Length && !(0 <= i - 64 * cBlock < 8 * row + col) ==> cc[i] == old(cc[i])
        invariant forall i :: 0 <= i < cc.Length && 0 <= i - 64 * cBlock < 8 * row + col ==>
                    cc[i] == ops.add(old(cc[i]), terms[i - 64 * cBlock])
      {
        var sum := OctetSum(ops, aa, aBlock, bb, bBlock, row, col);
        BlockTermAt(ops, left, right, aBlock, bBlock, row, col);
        assert terms[8 * row + col] == sum;
        cc[64 * cBlock + row * 8 + col] := ops.add(cc[64 * cBlock + row * 8 + col], sum);
      }
    }
    forall i | 0 <= i < cc.Length && i / 64 == cBlock ensures i - 64 * cBlock == i % 64 {}
  }

  lemma BlockTermAt<T>(ops: Ops<T>, aa: seq<T>, bb: seq<T>, aBlock: nat, bBlock: nat, row: nat, col: nat)
    requires 64 * aBlock + 64 <= |aa| && 64 * bBlock + 64 <= |bb| && row < 8 && col < 8
    ensures BlockTerm(ops, aa, bb, aBlock, bBlock, 8 * row + col) ==
            Fold(ops, ops.zero, OctetTerms(ops, aa, bb, aBlock, bBlock, row, col))
  {
    hide Fold, OctetTerms;
    SplitEight(row, col);
  }

  lemma PartialInBlock<T>(ops: Ops<T>, aa: seq<T>, bb: seq<T>, m: nat, p: nat, n: nat, blockRow: nat, blockCol: nat,
                          i: nat, count: nat)
    requires BoundedShape(m, p, n) && |aa| == 64 * (m * p) && |bb| == 64 * (p * n)
    requires blockRow < n && blockCol < m && count <= p && i < 64 * (m * n) && i / 64 == Cell(blockRow, blockCol, m)
    ensures Partial(ops, aa, bb, m, p, n, i, count) ==
            PartialAt(ops, aa, bb, m, p, n, blockRow, blockCol, i % 64 / 8, i % 8, count)
  {
    hide Cell, RowOf, ColOf, PartialAt;
    CellParts(blockRow, blockCol, m);
  }

  lemma BlockTermIs<T>(ops: Ops<T>, aa: seq<T>, bb: seq<T>, m: nat, p: nat, n: nat, blockRow: nat, blockCol: nat,
                       at: nat, k: nat)
    requires BoundedShape(m, p, n) && |aa| == 64 * (m * p) && |bb| == 64 * (p * n)
    requires blockRow < n && blockCol < m && k < p && at < 64
    ensures Cell(blockRow, k, m) < m * p && Cell(k, blockCol, m) < p * n
    ensures BlockTerm(ops, aa, bb, Cell(blockRow, k, m), Cell(k, blockCol, m), at) ==
            Fold(ops, ops.zero, PairTerms(ops, aa, bb, m, p, n, blockRow, blockCol, at / 8, at % 8, k))
  {
    hide Cell, Fold, OctetTerms;
    ReadInside(m, p, n, blockRow, blockCol, k);
  }

  lemma InnerColumn(i: nat)
    ensures i % 64 % 8 == i % 8
  {
  }

  /** One more pair of blocks, for every element of the block they contribute to. */
  lemma PartialNextAt<T>(ops: Ops<T>, aa: seq<T>, bb: seq<T>, m: nat, p: nat, n: nat, blockRow: nat, blockCol: nat,
                         i: nat, k: nat)
    requires BoundedShape(m, p, n) && |aa| == 64 * (m * p) && |bb| == 64 * (p * n)
    requires blockRow < n && blockCol < m && k < p && i < 64 * (m * n) && i / 64 == Cell(blockRow, blockCol, m)
    ensures Cell(blockRow, k, m) < m * p && Cell(k, blockCol, m) < p * n
    ensures Partial(ops, aa, bb, m, p, n, i, k + 1) ==
            ops.add(Partial(ops, aa, bb, m, p, n, i, k),
                    BlockTerm(ops, aa, bb, Cell(blockRow, k, m), Cell(k, blockCol, m), i % 64))
  {
    hide Cell, PartialAt, Partial, BlockTerm, PairTerms, Fold;
    ReadInside(m, p, n, blockRow, blockCol, k);
    PartialInBlock(ops, aa, bb, m, p, n, blockRow, blockCol, i, k);
    PartialInBlock(ops, aa, bb, m, p, n, blockRow, blockCol, i, k + 1);
    BlockTermIs(ops, aa, bb, m, p, n, blockRow, blockCol, i % 64, k);
    InnerColumn(i);
    PartialNext(ops, aa, bb, m, p, n, blockRow, blockCol, i % 64 / 8, i % 8, k);
  }

  /** Block (blockRow, blockCol) of the result: the loop over `k` from a zeroed block. */
  method ProduceBlock<T>(ops: Ops<T>, aa: array<T>, bb: array<T>, cc: array<T>, m: nat, p: nat, ghost n: nat,
                         blockRow: nat, blockCol: nat)
    requires BoundedShape(m, p, n) && blockRow < n && blockCol < m
    requires aa.Length == 64 * (m * p) && bb.Length == 64 * (p * n) && cc.Length == 64 * (m * n)
    requires cc != aa && cc != bb
    requires forall i :: 0 <= i < cc.Length && i / 64 == Cell(blockRow, blockCol, m) ==> cc[i] == ops.zero
    modifies cc
    ensures forall i :: 0 <= i < cc.Length && i / 64 != Cell(blockRow, blockCol, m) ==> cc[i] == old(cc[i])
    ensures forall i :: 0 <= i < cc.Length && i / 64 == Cell(blockRow, blockCol, m) ==>
              cc[i] == Partial(ops, old(aa[..]), old(bb[..]), m, p, n, i, p)
  {
    hide Cell, Partial, BlockTerm;
    ghost var left, right := aa[..], bb[..];
    ghost var block := Cell(blockRow, blockCol, m);
    CellInside(blockRow, blockCol, m, n);
    forall i: nat | i < cc.Length ensures Partial(ops, left, right, m, p, n, i, 0) == ops.zero {
      PartialZero(ops, left, right, m, p, n, i);
    }
    for k := 0 to p
      invariant aa[..] == left && bb[..] == right
      invariant forall i :: 0 <= i < cc.Length && i / 64 != block ==> cc[i] == old(cc[i])
      invariant forall i :: 0 <= i < cc.Length && i / 64 == block ==> cc[i] == Partial(ops, left, right, m, p, n, i, k)
    {
      ReadInside(m, p, n, blockRow, blockCol, k);
      forall i: nat | i < cc.Length && i / 64 == block
        ensures Partial(ops, left, right, m, p, n, i, k + 1) ==
                ops.add(Partial(ops, left, right, m, p, n, i, k),
                        BlockTerm(ops, left, right, Cell(blockRow, k, m), Cell(k, blockCol, m), i % 64)) {
        PartialNextAt(ops, left, right, m, p, n, blockRow, blockCol, i, k);
      }
      CellIs(blockRow, k, m);
      CellIs(k, blockCol, m);
      CellIs(blockRow, blockCol, m);
      MultiplyBlock(ops, aa, blockRow * m + k, bb, k * m + blockCol, cc, blockRow * m + blockCol);
    }
  }

  lemma PartialZero<T>(ops: Ops<T>, aa: seq<T>, bb: seq<T>, m: nat, p: nat, n: nat, i: nat)
    requires BoundedShape(m, p, n) && |aa| == 64 * (m * p) && |bb| == 64 * (p * n)
    requires i < 64 * (m * n)
    ensures Partial(ops, aa, bb, m, p, n, i, 0) == ops.zero
  {
    hide RowOf, ColOf;
    PartsCell(i / 64, m, n);
  }

  /** The three outer loops: `cc` is zeroed, then produced block by block. */
  method ProduceBlocks<T>(ops: Ops<T>, aa: array<T>, bb: array<T>, cc: array<T>, m: nat, p: nat, n: nat)
    requires BoundedShape(m, p, n)
    requires aa.Length == 64 * (m * p) && bb.Length == 64 * (p * n) && cc.Length == 64 * (m * n)
    requires cc != aa && cc != bb
    modifies cc
    ensures cc[..] == BlockProduct(ops, old(aa[..]), old(bb[..]), m, p, n)
  {
    hide Partial;
    for i := 0 to cc.Length
      invariant aa[..] == old(aa[..]) && bb[..] == old(bb[..])
      invariant forall j :: 0 <= j < i ==> cc[j] == ops.zero
    {
      cc[i] := ops.zero;
    }
    for blockRow := 0 to n
      invariant aa[..] == old(aa[..]) && bb[..] == old(bb[..])
      invariant Cell(blockRow, 0, m) <= n * m
      invariant forall i :: 0 <= i < cc.Length && i / 64 < Cell(blockRow, 0, m) ==>
                  cc[i] == Partial(ops, aa[..], bb[..], m, p, n, i, p)
      invariant forall i :: 0 <= i < cc.Length && Cell(blockRow, 0, m) <= i / 64 ==> cc[i] == ops.zero
    {
      NextRow(blockRow, n, m);
      for blockCol := 0 to m
        invariant aa[..] == old(aa[..]) && bb[..] == old(bb[..])
        invariant forall i :: 0 <= i < cc.Length && i / 64 < Cell(blockRow, blockCol, m) ==>
                    cc[i] == Partial(ops, aa[..], bb[..], m, p, n, i, p)
        invariant forall i :: 0 <= i < cc.Length && Cell(blockRow, blockCol, m) <= i / 64 ==> cc[i] == ops.zero
      {
        ProduceBlock(ops, aa, bb, cc, m, p, n, blockRow, blockCol);
      }
    }
    assert cc[..] == BlockProduct(ops, aa[..], bb[..], m, p, n);
  }

  /** The kernel: c may share its elements with a or b, which are copied before c is cleared. */
  method BlockRemapMatMul<T(0)>(ops: Ops<T>, a: Matrix<T>, b: Matrix<T>, c: MatrixVar<T>) returns (ghost unset: seq<T>)
    requires a.Valid() && b.Valid() && c.value.Valid()
    requires a.width == b.height && a.height == c.value.height && b.width == c.value.width
    requires a.height % 8 == 0 && a.width % 8 == 0 && b.height % 8 == 0 && b.width % 8 == 0
    requires BoundedShape(a.height / 8, a.width / 8, b.width / 8)
    modifies c, c.value.data
    ensures c.value.Valid() && fresh(c.value.data)
    ensures c.value.width == old(c.value.width) && c.value.height == old(c.value.height)
    ensures |unset| == 64 * (a.height / 8 * (b.width / 8))
    ensures c.value.data[..] ==
            BlockResult(ops, old(a.View()), old(b.View()), a.height / 8, a.width / 8, b.width / 8, unset)
  {
    hide BlockProduct, Remap, Unmap, Unmapped;
    ghost var g, h := a.View(), b.View();
    var m, p, n := a.height / 8, a.width / 8, b.width / 8;
    RemapSize(g, m, p);
    RemapSize(h, p, n);
    BlockCount(b.width, a.height);
    BlockCount(a.height, b.width);
    var aa := BlockRemap(a);
    var bb := BlockRemap(b);
    var cc := Matrix(c.value.data, c.value.height, c.value.width);
    ProduceBlocks(ops, aa.data, bb.data, cc.data, m, p, n);
    var ccc, before := BlockUnmap(cc);
    c.value := Matrix(ccc.data, c.value.width, c.value.height);
    unset := before;
  }
}
