/** The row-major grid inference of `getEditorLayout`
    (src/services/layoutService.ts): `numColumns = ceil(sqrt(n))` and index `i`
    placed at `row = i / numColumns + 1`, `column = i % numColumns + 1`. */
module Grid {
  import opened Types

  /** One entry of the `groups` array `getEditorLayout` returns. */
  datatype GridSlot = GridSlot(viewColumn: int, position: GridPosition, size: Size)

  /** `Math.ceil(Math.sqrt(n))`: the least `c` with `c * c >= n`. */
  function CeilSqrt(n: nat): (c: nat)
    ensures c * c >= n
    ensures c > 0 ==> (c - 1) * (c - 1) < n
  {
    CeilSqrtFrom(n, 0)
  }

  function CeilSqrtFrom(n: nat, c: nat): (r: nat)
    requires c == 0 || (c - 1) * (c - 1) < n
    ensures r * r >= n
    ensures r > 0 ==> (r - 1) * (r - 1) < n
    decreases n - c
  {
    if c * c >= n then c
    else
      assert c <= c * c;
      CeilSqrtFrom(n, c + 1)
  }

  /** `Math.ceil(n / numColumns)` for `numColumns > 0`. */
  function RowCount(n: nat, columns: nat): nat
    requires columns > 0
  {
    (n + columns - 1) / columns
  }

  /** The position of the `i`-th group in a grid `columns` wide. */
  function PositionAt(i: nat, columns: nat): GridPosition
    requires columns > 0
  {
    GridPosition(i / columns + 1, i % columns + 1)
  }

  /** `p` comes strictly before `q` in row-major order. */
  predicate RowMajorBefore(p: GridPosition, q: GridPosition)
  {
    p.row < q.row || (p.row == q.row && p.column < q.column)
  }

  /** `p` is a cell of the grid inferred for `n` groups. */
  predicate InGrid(p: GridPosition, n: nat)
  {
    var c := CeilSqrt(n);
    c > 0 && 1 <= p.row <= RowCount(n, c) && 1 <= p.column <= c
  }

  lemma MulMono(a: int, b: int, c: nat)
    requires a <= b
    ensures a * c <= b * c
  {
  }

  /** `a * c <= m` bounds `a` by `m / c`. */
  lemma {:induction false} BelowQuotient(a: int, m: nat, c: nat)
    requires c > 0 && a * c <= m
    ensures a <= m / c
  {
    assert (m / c + 1) * c == c * (m / c) + c;
    if a > m / c {
      MulMono(m / c + 1, a, c);
    }
  }

  /** Indices in increasing order get positions in strictly increasing
      row-major order. */
  lemma {:induction false} PositionsRowMajor(j: nat, i: nat, columns: nat)
    requires columns > 0 && j < i
    ensures RowMajorBefore(PositionAt(j, columns), PositionAt(i, columns))
  {
    var c := columns;
    assert (i / c + 1) * c == c * (i / c) + c;
    if j / c > i / c {
      MulMono(i / c + 1, j / c, c);
    }
  }

  /** Every index below `n` lands inside the inferred grid, and the position
      gives back its index: `(row - 1) * columns + (column - 1) == i`. */
  lemma {:induction false} PositionInGrid(i: nat, n: nat)
    requires i < n
    ensures CeilSqrt(n) > 0
    ensures InGrid(PositionAt(i, CeilSqrt(n)), n)
    ensures var p := PositionAt(i, CeilSqrt(n));
            (p.row - 1) * CeilSqrt(n) + (p.column - 1) == i
  {
    var c := CeilSqrt(n);
    assert c > 0;
    var q := i / c;
    assert q * c + i % c == i;
    assert (q + 1) * c == q * c + c;
    BelowQuotient(q + 1, n + c - 1, c);
  }

  /** The inferred grid has no more rows than columns, and enough cells for
      every group. */
  lemma {:induction false} GridIsSquarish(n: nat)
    requires n > 0
    ensures CeilSqrt(n) > 0
    ensures RowCount(n, CeilSqrt(n)) <= CeilSqrt(n)
    ensures RowCount(n, CeilSqrt(n)) * CeilSqrt(n) >= n
  {
    var c := CeilSqrt(n);
    var q := RowCount(n, c);
    assert n + c - 1 == q * c + (n + c - 1) % c;
    assert (c + 1) * c == c * c + c;
    if q > c {
      MulMono(c + 1, q, c);
    }
  }
}
