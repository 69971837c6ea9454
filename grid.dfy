/**
 * Row-major addressing of an n-by-n mesh. Every 2D variant of the solver
 * stores its nodes in one flat buffer and addresses row i, column j as
 * i*n + j; the lemmas here are the index arithmetic the stencil loops rely on.
 */
module Grid {

  /** Mesh spacing 1/(mesh_pts-1): the global `step` the 2D initialisers set. */
  function StepLen(n: int): real
    requires n >= 2
  {
    1.0 / (n - 1) as real
  }

  /** Column or row c >= 0 sits at a non-negative coordinate step*c. */
  lemma StepNonneg(n: int, c: int)
    requires n >= 2 && c >= 0
    ensures StepLen(n) * c as real >= 0.0
  {
    var d := (n - 1) as real;
    assert StepLen(n) * d == 1.0;
    assert StepLen(n) > 0.0;
  }

  /** Global index of row i, column j in a mesh n nodes wide. */
  function Idx(n: int, i: int, j: int): int
  {
    n * i + j
  }

  /** An in-grid position has an index inside the n*n buffer. */
  lemma IdxBounds(n: int, i: int, j: int)
    requires 0 <= i < n && 0 <= j < n
    ensures 0 <= Idx(n, i, j) < n * n
  {
    assert n * i <= n * (n - 1) by { MulLeftMono(n, i, n - 1); }
  }

  lemma MulLeftMono(a: int, b: int, c: int)
    requires 0 <= a && b <= c
    ensures a * b <= a * c
  {
    assert a * c - a * b == a * (c - b);
  }

  /** Two in-grid column positions with the same index are the same position. */
  lemma IdxInjective(n: int, i: int, j: int, p: int, q: int)
    requires 0 <= j < n && 0 <= q < n
    requires Idx(n, i, j) == Idx(n, p, q)
    ensures i == p && j == q
  {
    if i > p {
      assert n * (i - p) == q - j;
      MulLeftMono(n, 1, i - p);
    } else if i < p {
      assert n * (p - i) == j - q;
      MulLeftMono(n, 1, p - i);
    }
  }

  /** Distinct in-grid positions have distinct indices. */
  lemma IdxInjectiveAll(n: int)
    ensures forall i, j, p, q :: 0 <= j < n && 0 <= q < n && Idx(n, i, j) == Idx(n, p, q) ==> i == p && j == q
  {
    forall i, j, p, q | 0 <= j < n && 0 <= q < n && Idx(n, i, j) == Idx(n, p, q)
      ensures i == p && j == q
    {
      IdxInjective(n, i, j, p, q);
    }
  }

  /** The row and column of an index of the buffer. */
  lemma Decompose(n: int, k: int)
    requires 0 < n && 0 <= k < n * n
    ensures 0 <= k / n < n && 0 <= k % n < n
    ensures Idx(n, k / n, k % n) == k
  {
    if k / n >= n {
      MulLeftMono(n, n, k / n);
    }
  }

  /** Every index of the n*n buffer has its row and column inside the grid. */
  lemma CellsInGrid(n: int)
    requires n > 0
    ensures forall k :: 0 <= k < n * n ==> 0 <= k / n < n && 0 <= k % n < n
  {
    forall k | 0 <= k < n * n
      ensures 0 <= k / n < n && 0 <= k % n < n
    {
      Decompose(n, k);
    }
  }

  /** The row and column of Idx(n, i, j) are i and j. */
  lemma RowCol(n: int, i: int, j: int)
    requires 0 <= j < n
    ensures Idx(n, i, j) / n == i && Idx(n, i, j) % n == j
  {
    var k := Idx(n, i, j);
    assert k == n * (k / n) + k % n;
    IdxInjective(n, k / n, k % n, i, j);
  }

  /** Every index of row i, n*i + c with 0 <= c < n, has row i and column c. */
  lemma RowOf(n: int, i: int)
    requires n > 0
    ensures forall k :: n * i <= k < n * i + n ==> k / n == i && k % n == k - n * i
  {
    forall k | n * i <= k < n * i + n
      ensures k / n == i && k % n == k - n * i
    {
      RowCol(n, i, k - n * i);
    }
  }

  /** An index lies in row r exactly when it is one of n*r .. n*r + n-1. */
  lemma RowExactly(n: int, r: int)
    requires n > 0
    ensures forall k :: k / n == r <==> n * r <= k < n * r + n
    ensures forall k :: k / n == r ==> k % n == k - n * r
  {
    RowOf(n, r);
    forall k | k / n == r
      ensures n * r <= k < n * r + n
    {
      assert k == n * (k / n) + k % n;
    }
  }

  /** Rows 1 to n-2 are the buffer indices n .. n*n - n - 1. */
  lemma MiddleRowsAddressed(n: int)
    requires n >= 2
    ensures forall k :: 0 <= k < n * n ==> (n <= k < n * n - n <==> 1 <= k / n < n - 1)
  {
    forall k | 0 <= k < n * n
      ensures n <= k < n * n - n <==> 1 <= k / n < n - 1
    {
      var r := k / n;
      RowExactly(n, r);
      assert n * r <= k < n * r + n;
      assert n * (n - 1) == n * n - n;
      if r <= 0 {
        MulLeftMono(n, r, 0);
      } else if r >= n - 1 {
        MulLeftMono(n, n - 1, r);
      } else {
        MulLeftMono(n, 1, r);
        MulLeftMono(n, r + 1, n - 1);
      }
    }
  }

  /** The cells of rows 0 and n-1, addressed by buffer index. */
  lemma BorderRowsAddressed(n: int, len: int)
    requires n >= 2 && len == n * n
    ensures forall k :: 0 <= k < n ==> k / n == 0 && k % n == k
    ensures forall k :: len - n <= k < len ==> k / n == n - 1 && k % n == k - (len - n)
  {
    RowOf(n, 0);
    RowOf(n, n - 1);
  }

  /** Orthogonal adjacency of (i, j) and (p, q). */
  predicate Adjacent(i: int, j: int, p: int, q: int)
  {
    (p == i && (q == j - 1 || q == j + 1)) || (q == j && (p == i - 1 || p == i + 1))
  }

  /** Stepping one row or one column away moves the index by n or by 1. */
  lemma Shifts(n: int, i: int, j: int)
    ensures Idx(n, i - 1, j) == Idx(n, i, j) - n && Idx(n, i + 1, j) == Idx(n, i, j) + n
    ensures Idx(n, i, j - 1) == Idx(n, i, j) - 1 && Idx(n, i, j + 1) == Idx(n, i, j) + 1
  {
    assert n * (i - 1) == n * i - n && n * (i + 1) == n * i + n;
  }

  /** Number of orthogonal neighbours of (i, j) that lie inside the n-by-n grid. */
  function NeighborCount(n: int, i: int, j: int): int
  {
    (if i > 0 then 1 else 0) + (if i < n - 1 then 1 else 0)
    + (if j > 0 then 1 else 0) + (if j < n - 1 then 1 else 0)
  }

  /**
   * Indices of the in-grid orthogonal neighbours of (i, j), in the order
   * up, down, left, right; an absent side contributes nothing.
   */
  function Orthogonal(n: int, i: int, j: int): (r: seq<int>)
    requires 0 <= i < n && 0 <= j < n
    ensures |r| == NeighborCount(n, i, j)
  {
    (if i > 0 then [Idx(n, i - 1, j)] else [])
    + (if i < n - 1 then [Idx(n, i + 1, j)] else [])
    + (if j > 0 then [Idx(n, i, j - 1)] else [])
    + (if j < n - 1 then [Idx(n, i, j + 1)] else [])
  }

  /**
   * Orthogonal(n, i, j) lists exactly the in-grid positions adjacent to (i, j),
   * each inside the buffer, and never (i, j) itself.
   */
  lemma OrthogonalExactly(n: int, i: int, j: int)
    requires 0 <= i < n && 0 <= j < n
    ensures forall x :: x in Orthogonal(n, i, j) ==> 0 <= x < n * n && x != Idx(n, i, j)
    ensures forall p, q :: 0 <= p < n && 0 <= q < n ==>
              (Idx(n, p, q) in Orthogonal(n, i, j) <==> Adjacent(i, j, p, q))
  {
    var r := Orthogonal(n, i, j);
    forall x | x in r
      ensures 0 <= x < n * n && x != Idx(n, i, j)
    {
      if i > 0 && x == Idx(n, i - 1, j) {
        IdxBounds(n, i - 1, j);
      } else if i < n - 1 && x == Idx(n, i + 1, j) {
        IdxBounds(n, i + 1, j);
      } else if j > 0 && x == Idx(n, i, j - 1) {
        IdxBounds(n, i, j - 1);
      } else {
        IdxBounds(n, i, j + 1);
      }
    }
    forall p, q | 0 <= p < n && 0 <= q < n
      ensures Idx(n, p, q) in r <==> Adjacent(i, j, p, q)
    {
      if Idx(n, p, q) in r {
        if i > 0 && Idx(n, p, q) == Idx(n, i - 1, j) {
          IdxInjective(n, p, q, i - 1, j);
        } else if i < n - 1 && Idx(n, p, q) == Idx(n, i + 1, j) {
          IdxInjective(n, p, q, i + 1, j);
        } else if j > 0 && Idx(n, p, q) == Idx(n, i, j - 1) {
          IdxInjective(n, p, q, i, j - 1);
        } else {
          IdxInjective(n, p, q, i, j + 1);
        }
      }
    }
  }
}
