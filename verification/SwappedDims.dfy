/** What follows from the struct initialisers `{data, height, width}`: the kernels that index the
    new struct by its own width use the height of the old one. */
module SwappedDims {
  import opened Grids

  /** The shapes on which indexing rows by the height instead of the width does no harm. */
  predicate FillingShape(m: nat, n: nat) {
    m == n || m == 0 || n == 0
  }

  /** The shapes on which it at least stays inside the buffer. */
  predicate InsideShape(m: nat, n: nat) {
    m <= n || m == 0 || n == 0
  }

  lemma StoreInside(m: nat, n: nat, row: nat, col: nat)
    requires InsideShape(m, n) && row < m && col < n
    ensures Cell(row, col, m) < m * n
  {
    Multiply(m, n - m);
    NextRow(row, m, m);
    CellStep(row, 0, m);
  }

  lemma Multiply(m: nat, d: nat)
    ensures m * (m + d) == m * m + m * d
    ensures 0 < m ==> d <= m * d
  {
  }

  lemma InsideShapeIff(m: nat, n: nat)
    requires m % 8 == 0 && n % 8 == 0
    ensures InsideShape(m, n) <==> forall row: nat, col: nat | row < m && col < n :: Cell(row, col, m) < m * n
  {
    if InsideShape(m, n) {
      forall row: nat, col: nat | row < m && col < n ensures Cell(row, col, m) < m * n {
        StoreInside(m, n, row, col);
      }
    } else {
      LastStore(m, n);
      assert !(Cell(m - 1, n - 1, m) < m * n);
    }
  }

  /** Stores at row * m + col, for every row below m and column below n, stay inside an m by n buffer
      and fill all of it. TransposeMatMul stores so into c, and BlockUnmap into its result. */
  ghost predicate StoresFill(m: nat, n: nat) {
    && (forall row: nat, col: nat | row < m && col < n :: Cell(row, col, m) < m * n)
    && (forall i: nat | i < m * n :: Stored(i, m, n))
  }

  ghost predicate Stored(i: nat, m: nat, n: nat) {
    exists row: nat, col: nat :: row < m && col < n && Cell(row, col, m) == i
  }

  lemma StoresFillIff(m: nat, n: nat)
    requires m % 8 == 0 && n % 8 == 0
    ensures StoresFill(m, n) <==> FillingShape(m, n)
  {
    if m == n && m > 0 {
      forall row: nat, col: nat | row < m && col < n ensures Cell(row, col, m) < m * n {
        CellInside(row, col, m, n);
      }
      forall i: nat | i < m * n ensures Stored(i, m, n) {
        PartsCell(i, m, n);
        assert RowOf(i, m) < m && ColOf(i, m) < n;
      }
    } else if 0 < m && 0 < n {
      LastStore(m, n);
      if n > m {
        assert !Stored(m * n - 1, m, n);
      } else {
        assert !(Cell(m - 1, n - 1, m) < m * n);
      }
    }
  }

  /** The largest index stored is short of the last cell when n > m and beyond it when n < m. */
  lemma LastStore(m: nat, n: nat)
    requires m >= 8 && n > 0
    ensures forall row: nat, col: nat | row < m && col < n :: Cell(row, col, m) <= Cell(m - 1, n - 1, m)
    ensures n > m ==> Cell(m - 1, n - 1, m) < m * n - 1
    ensures n < m ==> Cell(m - 1, n - 1, m) >= m * n
  {
    forall row: nat, col: nat | row < m && col < n ensures Cell(row, col, m) <= Cell(m - 1, n - 1, m) {
      NextRow(row, m, m);
      assert (m - 1) * m == m * m - m;
    }
    Distribute(m, n);
    assert (m - 1) * m == m * m - m;
  }

  lemma Distribute(m: nat, n: nat)
    requires m >= 8
    ensures n >= m ==> m * n >= m * m + 8 * (n - m)
    ensures n <= m ==> m * n <= m * m - 8 * (m - n)
  {
    if n >= m {
      var d := n - m;
      assert m * n == m * m + m * d;
      assert m * d >= 8 * d;
    } else {
      var d := m - n;
      assert m * n == m * m - m * d;
      assert m * d >= 8 * d;
    }
  }
}
