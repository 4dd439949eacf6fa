/** The checksum, and the kernels that leave it unchanged. */
module Checksums {
  import opened Scalars
  import opened Grids
  import opened MatMul
  import opened Transposes
  import opened TransposedMatMul
  import opened BlockLayout

  method Checksum<T>(ops: Ops<T>, m: Matrix<T>) returns (sum: T)
    requires m.Valid()
    ensures sum == Fold(ops, ops.zero, m.View().cells)
  {
    ghost var cells := m.data[..];
    sum := ops.zero;
    for i := 0 to m.width * m.height
      invariant sum == Fold(ops, ops.zero, cells[..i])
    {
      assert cells[..i + 1][..i] == cells[..i];
      sum := ops.add(sum, m.data[i]);
    }
    assert cells[..m.width * m.height] == cells;
  }

  /** Transposing and remapping rearrange the elements, so an exact commutative sum does not change. */
  lemma ChecksumConserved<T(!new)>(ops: Ops<T>, g: Grid<T>)
    requires Associative(ops) && Commutative(ops)
    requires g.Valid()
    ensures Fold(ops, ops.zero, Transpose(g).cells) == Fold(ops, ops.zero, g.cells)
    ensures g.width % 8 == 0 && g.height % 8 == 0 ==>
              Fold(ops, ops.zero, Remap(g)) == Fold(ops, ops.zero, g.cells)
  {
    TransposeRearranges(g);
    FoldRearranged(ops, ops.zero, g.cells, Transpose(g).cells, TransposeSources(g.width, g.height));
    if g.width % 8 == 0 && g.height % 8 == 0 {
      RemapRearranges(g);
      FoldRearranged(ops, ops.zero, g.cells, Remap(g), RemapSources(g.width, g.height));
    }
  }

  lemma UnmapChecksum<T(!new)>(ops: Ops<T>, cells: seq<T>, n: nat)
    requires Associative(ops) && Commutative(ops)
    requires n % 8 == 0 && |cells| == n * n
    ensures Fold(ops, ops.zero, Unmap(cells, n).cells) == Fold(ops, ops.zero, cells)
  {
    ChecksumConserved(ops, Unmap(cells, n));
    RemapUnmap(cells, n);
  }

  /** The checksum printed after TransposeMatMul equals the one printed after SimpleMatMul, although
      one matrix is the transpose of the other. */
  method ChecksumsAgree<T(0, !new)>(ops: Ops<T>, a: Matrix<T>, b: Matrix<T>, c: MatrixVar<T>, d: Matrix<T>)
    returns (transposed: T, simple: T)
    requires Associative(ops) && Commutative(ops)
    requires a.Valid() && b.Valid() && c.value.Valid() && d.Valid()
    requires a.width == a.height == b.width == b.height == c.value.width == c.value.height == d.width == d.height
    requires a.width % 8 == 0
    requires c.value.data != a.data && c.value.data != b.data && d.data != a.data && d.data != b.data
    modifies c, c.value.data, d.data
    ensures transposed == simple
  {
    ghost var product := Product(ops, a.View(), b.View());
    SquareLeft(ops, a.View(), b.View(), c.value.data[..]);
    TransposeMatMul(ops, a, b, c);
    transposed := Checksum(ops, c.value);
    SimpleMatMul(ops, a, b, d);
    simple := Checksum(ops, d);
    ChecksumConserved(ops, product);
  }
}
