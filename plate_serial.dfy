/**
 * One time step of the plate driver twoD/serial.cpp, over the kernels of
 * heatGen/twoD/common.cpp: four accumulate blocks (interior cells, rows 0
 * and n-1, columns 0 and n-1) followed by a finalize loop. The neighbour
 * indices are modelled exactly as the driver writes them, including the
 * column blocks' (n+1)*i and (n-1)*i and a finalize loop that visits only
 * the first n indices.
 */
module PlateSerial {
  import opened HeatNode
  import opened Grid
  import opened HotSpotPlate

  /**
   * The indices whose temperatures the accumulate blocks offer to cell
   * (i, j), in call order; corners get none.
   */
  function Sources(n: int, i: int, j: int): seq<int>
  {
    if 1 <= i < n - 1 && 1 <= j < n - 1 then
      [(i - 1) * n + j, (i + 1) * n + j, i * n + j - 1, i * n + j + 1]
    else if i == 0 && 1 <= j < n - 1 then
      [n + j, n + j + 1, n + j - 1]
    else if i == n - 1 && 1 <= j < n - 1 then
      [(n - 2) * n + j, (n - 2) * n + j + 1, (n - 2) * n + j - 1]
    else if 1 <= i < n - 1 && j == 0 then
      [n * i + 1, (n + 1) * i, (n - 1) * i]
    else if 1 <= i < n - 1 && j == n - 1 then
      [n * i + (n - 1) - 1, (n + 1) * i + (n - 1), (n - 1) * i + (n - 1)]
    else
      []
  }

  /** Sources addressed by buffer index. */
  function SourcesAt(n: int, k: int): seq<int>
  {
    if n > 0 then Sources(n, k / n, k % n) else []
  }

  /** Every index an accumulate block reads lies inside the n*n buffer. */
  lemma SourcesInBuffer(n: int, i: int, j: int)
    requires 0 <= i < n && 0 <= j < n
    ensures forall m :: 0 <= m < |Sources(n, i, j)| ==> 0 <= Sources(n, i, j)[m] < n * n
  {
    if 1 <= i < n - 1 && 1 <= j < n - 1 {
      InteriorSources(n, i, j);
      IdxBounds(n, i - 1, j);
      IdxBounds(n, i + 1, j);
      IdxBounds(n, i, j - 1);
      IdxBounds(n, i, j + 1);
    } else if i == 0 && 1 <= j < n - 1 {
      IdxBounds(n, 1, j + 1);
    } else if i == n - 1 && 1 <= j < n - 1 {
      BottomRowSources(n, j);
      IdxBounds(n, n - 2, j - 1);
      IdxBounds(n, n - 2, j + 1);
    } else if 1 <= i < n - 1 && j == 0 {
      LeftColumnSources(n, i);
      IdxBounds(n, i, 1);
      IdxBounds(n, i, i);
      IdxBounds(n, i - 1, n - i);
    } else if 1 <= i < n - 1 && j == n - 1 {
      RightColumnSources(n, i);
      IdxBounds(n, i, n - 2);
      IdxBounds(n, i + 1, i - 1);
      IdxBounds(n, i, n - 1 - i);
    }
  }

  /** An interior cell reads its up, down, left and right neighbours. */
  lemma InteriorSources(n: int, i: int, j: int)
    requires 1 <= i < n - 1 && 1 <= j < n - 1
    ensures Sources(n, i, j) == [Idx(n, i - 1, j), Idx(n, i + 1, j), Idx(n, i, j - 1), Idx(n, i, j + 1)]
  {
  }

  /**
   * An interior cell receives exactly one call per in-grid orthogonal
   * neighbour: four calls, and a cell is among its sources iff it is adjacent.
   */
  lemma InteriorSourcesAreNeighbours(n: int, i: int, j: int)
    requires 1 <= i < n - 1 && 1 <= j < n - 1
    ensures |Sources(n, i, j)| == NeighborCount(n, i, j) == 4
    ensures forall p, q :: 0 <= p < n && 0 <= q < n ==>
              (Idx(n, p, q) in Sources(n, i, j) <==> Adjacent(i, j, p, q))
  {
    InteriorSources(n, i, j);
    OrthogonalExactly(n, i, j);
    assert Orthogonal(n, i, j) == Sources(n, i, j);
  }

  /** A row-0 cell reads the cell below it and that cell's two row neighbours. */
  lemma TopRowSources(n: int, j: int)
    requires 1 <= j < n - 1
    ensures Sources(n, 0, j) == [Idx(n, 1, j), Idx(n, 1, j + 1), Idx(n, 1, j - 1)]
  {
  }

  /** A row-(n-1) cell reads the cell above it and that cell's two row neighbours. */
  lemma BottomRowSources(n: int, j: int)
    requires 1 <= j < n - 1
    ensures Sources(n, n - 1, j) == [Idx(n, n - 2, j), Idx(n, n - 2, j + 1), Idx(n, n - 2, j - 1)]
  {
  }

  /**
   * A column-0 cell (i, 0) reads (i, 1), then (n+1)*i, which is cell (i, i),
   * and (n-1)*i, which is cell (i-1, n-i): not the cells above and below it.
   */
  lemma LeftColumnSources(n: int, i: int)
    requires 1 <= i < n - 1
    ensures Sources(n, i, 0) == [Idx(n, i, 1), Idx(n, i, i), Idx(n, i - 1, n - i)]
  {
  }

  /**
   * A column-(n-1) cell (i, n-1) reads (i, n-2), then (n+1)*i + n-1, which
   * is cell (i+1, i-1), and (n-1)*i + n-1, which is cell (i, n-1-i).
   */
  lemma RightColumnSources(n: int, i: int)
    requires 1 <= i < n - 1
    ensures Sources(n, i, n - 1) == [Idx(n, i, n - 2), Idx(n, i + 1, i - 1), Idx(n, i, n - 1 - i)]
  {
  }

  /** The indices interior cell (i, j) touches, as the driver spells them. */
  lemma InteriorIndices(n: int, i: int, j: int)
    requires 1 <= i < n - 1 && 1 <= j < n - 1
    ensures (i - 1) * n + j == i * n + j - n && (i + 1) * n + j == i * n + j + n
    ensures i * n == n * i && n <= i * n && i * n + 2 * n <= n * n
  {
    MulLeftMono(n, i + 2, n);
    MulLeftMono(n, 1, i);
  }

  /** The temperatures of the up, down, left and right neighbours of index k, added in that order. */
  function CrossSum(T0: seq<real>, n: int, k: int): real
  {
    TempAt(T0, k - n) + TempAt(T0, k + n) + TempAt(T0, k - 1) + TempAt(T0, k + 1)
  }

  /** Lines 60-63: the four apply_tsum calls on interior cell (i, j), at index n*i + j. */
  method InteriorCell(a: array<Node>, n: int, i: int, j: int, x: int, ghost T0: seq<real>)
    requires a.Length == n * n && 1 <= i < n - 1 && 1 <= j < n - 1 && x == n * i + j
    requires |T0| == a.Length && forall k {:trigger a[k]} :: 0 <= k < a.Length ==> a[k].T == T0[k]
    modifies a
    ensures 0 <= x < a.Length && x / n == i && x % n == j
    ensures forall k :: 0 <= k < a.Length && k / n == i && k % n == j ==> k == x
    ensures forall k {:trigger a[k]} :: 0 <= k < a.Length ==> a[k].T == T0[k]
    ensures a[x] == Accumulated(old(a[x]), CrossSum(T0, n, x))
    ensures forall k :: 0 <= k < a.Length && k != x ==> a[k] == old(a[k])
  {
    InteriorIndices(n, i, j);
    RowCol(n, i, j);
    RowExactly(n, i);
    a[x] := ApplyTsum(a[x], a[(i - 1) * n + j]);
    a[x] := ApplyTsum(a[x], a[(i + 1) * n + j]);
    a[x] := ApplyTsum(a[x], a[i * n + j - 1]);
    a[x] := ApplyTsum(a[x], a[i * n + j + 1]);
  }

  /** The indices the row-0 and row-(n-1) calls at column j touch, as the driver spells them. */
  lemma BorderIndices(n: int, j: int)
    requires 1 <= j < n - 1
    ensures (n - 1) * n == n * n - n && (n - 2) * n == n * n - 2 * n && 2 * n <= n * n - n
  {
    MulLeftMono(n, 3, n);
  }

  /** The temperatures of index x and of its left and right neighbours, added as x, x+1, x-1. */
  function RowSum(T0: seq<real>, x: int): real
  {
    TempAt(T0, x) + TempAt(T0, x + 1) + TempAt(T0, x - 1)
  }

  /** Lines 71-73: the three apply_tsum calls on cell (0, j). */
  method TopCell(a: array<Node>, n: int, j: int, ghost T0: seq<real>)
    requires a.Length == n * n && 1 <= j < n - 1
    requires |T0| == a.Length && forall k {:trigger a[k]} :: 0 <= k < a.Length ==> a[k].T == T0[k]
    modifies a
    ensures 2 * n <= a.Length
    ensures forall k {:trigger a[k]} :: 0 <= k < a.Length ==> a[k].T == T0[k]
    ensures a[j] == Accumulated(old(a[j]), RowSum(T0, j + n))
    ensures forall k :: 0 <= k < a.Length && k != j ==> a[k] == old(a[k])
  {
    BorderIndices(n, j);
    a[j] := ApplyTsum(a[j], a[n + j]);
    a[j] := ApplyTsum(a[j], a[n + j + 1]);
    a[j] := ApplyTsum(a[j], a[n + j - 1]);
  }

  /** Lines 75-77: the three apply_tsum calls on cell (n-1, j). */
  method BottomCell(a: array<Node>, n: int, j: int, ghost T0: seq<real>)
    requires a.Length == n * n && 1 <= j < n - 1
    requires |T0| == a.Length && forall k {:trigger a[k]} :: 0 <= k < a.Length ==> a[k].T == T0[k]
    modifies a
    ensures forall k {:trigger a[k]} :: 0 <= k < a.Length ==> a[k].T == T0[k]
    ensures a[a.Length - n + j] == Accumulated(old(a[a.Length - n + j]), RowSum(T0, a.Length - n + j - n))
    ensures forall k :: 0 <= k < a.Length && k != a.Length - n + j ==> a[k] == old(a[k])
  {
    BorderIndices(n, j);
    var x := (n - 1) * n + j;
    a[x] := ApplyTsum(a[x], a[(n - 2) * n + j]);
    a[x] := ApplyTsum(a[x], a[(n - 2) * n + j + 1]);
    a[x] := ApplyTsum(a[x], a[(n - 2) * n + j - 1]);
  }

  /** Lines 70-77: one pass of the row-0 and row-(n-1) loop, on cells (0, j) and (n-1, j). */
  method TopBottomColumn(a: array<Node>, n: int, j: int, ghost T0: seq<real>)
    requires a.Length == n * n && 1 <= j < n - 1
    requires |T0| == a.Length && forall k {:trigger a[k]} :: 0 <= k < a.Length ==> a[k].T == T0[k]
    modifies a
    ensures 2 * n <= a.Length
    ensures forall k {:trigger a[k]} :: 0 <= k < a.Length ==> a[k].T == T0[k]
    ensures a[j] == Accumulated(old(a[j]), RowSum(T0, j + n))
    ensures a[a.Length - n + j] == Accumulated(old(a[a.Length - n + j]), RowSum(T0, a.Length - n + j - n))
    ensures forall k :: 0 <= k < a.Length && k != j && k != a.Length - n + j ==> a[k] == old(a[k])
  {
    BorderIndices(n, j);
    TopCell(a, n, j, T0);
    BottomCell(a, n, j, T0);
  }

  /** The indices the column-0 and column-(n-1) calls at row i touch, as the driver spells them. */
  lemma SideIndices(n: int, i: int)
    requires 1 <= i < n - 1
    ensures (n + 1) * i == n * i + i && (n - 1) * i == n * i - i
    ensures n <= n * i && n * i + 2 * n <= n * n
  {
    MulLeftMono(n, 1, i);
    MulLeftMono(n, i + 2, n);
  }

  /** Lines 83-89: the six apply_tsum calls on cells (i, 0) and (i, n-1). */
  method SideCell(a: array<Node>, n: int, i: int, ghost T0: seq<real>)
    requires a.Length == n * n && 1 <= i < n - 1 && n * i + n <= a.Length
    requires |T0| == a.Length && forall k {:trigger a[k]} :: 0 <= k < a.Length ==> a[k].T == T0[k]
    modifies a
    ensures forall k {:trigger a[k]} :: 0 <= k < a.Length ==> a[k].T == T0[k]
    ensures a[n * i] == Accumulated(old(a[n * i]), SumOver(T0, Sources(n, i, 0)))
    ensures a[n * i + (n - 1)] == Accumulated(old(a[n * i + (n - 1)]), SumOver(T0, Sources(n, i, n - 1)))
    ensures forall k :: 0 <= k < a.Length && k != n * i && k != n * i + (n - 1) ==> a[k] == old(a[k])
  {
    SideIndices(n, i);
    SumOver3(T0, n * i + 1, (n + 1) * i, (n - 1) * i);
    SumOver3(T0, n * i + (n - 1) - 1, (n + 1) * i + (n - 1), (n - 1) * i + (n - 1));
    // j = 0
    a[n * i] := ApplyTsum(a[n * i], a[n * i + 1]);
    a[n * i] := ApplyTsum(a[n * i], a[(n + 1) * i]);
    a[n * i] := ApplyTsum(a[n * i], a[(n - 1) * i]);
    // j = n-1
    a[n * i + (n - 1)] := ApplyTsum(a[n * i + (n - 1)], a[n * i + (n - 1) - 1]);
    a[n * i + (n - 1)] := ApplyTsum(a[n * i + (n - 1)], a[(n + 1) * i + (n - 1)]);
    a[n * i + (n - 1)] := ApplyTsum(a[n * i + (n - 1)], a[(n - 1) * i + (n - 1)]);
  }

  /** Index k is an interior cell: rows and columns 1 to n-2. */
  predicate InteriorAt(n: int, k: int)
  {
    n <= k < n * n - n && 1 <= k % n < n - 1
  }

  /** Index k is column 0 or column n-1 of a middle row. */
  predicate SideAt(n: int, k: int)
  {
    n <= k < n * n - n && (k % n == 0 || k % n == n - 1)
  }

  /** Index k is a non-corner cell of row 0 or row n-1. */
  predicate TopBottomAt(n: int, k: int)
  {
    (0 <= k < n || n * n - n <= k < n * n) && 1 <= k % n < n - 1
  }

  /**
   * What an accumulate block leaves at index k, given the node o it found
   * there: the block's calls on k when k belongs to it, nothing otherwise.
   */
  function Offered(o: Node, n: int, k: int, T0: seq<real>, inBlock: bool): Node
  {
    if inBlock then Accumulated(o, SumOver(T0, SourcesAt(n, k))) else o
  }

  /** Lines 58-64: the interior calls of row i, column by column, with the cells named by row and column. */
  method InteriorColumns(a: array<Node>, n: int, i: int, ghost T0: seq<real>)
    requires a.Length == n * n && 1 <= i < n - 1
    requires |T0| == a.Length && forall k {:trigger a[k]} :: 0 <= k < a.Length ==> a[k].T == T0[k]
    modifies a
    ensures forall k {:trigger a[k]} :: 0 <= k < a.Length ==> a[k].T == T0[k]
    ensures forall k :: 0 <= k < a.Length ==>
              a[k] == if k / n == i && 1 <= k % n < n - 1 then Accumulated(old(a[k]), CrossSum(T0, n, k)) else old(a[k])
  {
    var j := 1;
    while j < n - 1
      invariant 1 <= j <= n - 1
      invariant forall k {:trigger a[k]} :: 0 <= k < a.Length ==> a[k].T == T0[k]
      invariant forall k :: 0 <= k < a.Length ==>
                  a[k] == if k / n == i && 1 <= k % n < j then Accumulated(old(a[k]), CrossSum(T0, n, k)) else old(a[k])
    {
      InteriorCell(a, n, i, j, n * i + j, T0);
      j := j + 1;
    }
  }

  /** Lines 58-64: the interior calls of row i, cells n*i + 1 to n*i + n-2. */
  method InteriorRow(a: array<Node>, n: int, i: int, ghost T0: seq<real>)
    requires a.Length == n * n && 1 <= i < n - 1
    requires |T0| == a.Length && forall k {:trigger a[k]} :: 0 <= k < a.Length ==> a[k].T == T0[k]
    modifies a
    ensures forall k {:trigger a[k]} :: 0 <= k < a.Length ==> a[k].T == T0[k]
    ensures forall k :: n * i < k < n * i + n - 1 && k < a.Length ==>
              a[k] == Accumulated(old(a[k]), CrossSum(T0, n, k))
    ensures forall k :: 0 <= k < a.Length && !(n * i < k < n * i + n - 1) ==> a[k] == old(a[k])
  {
    InteriorColumns(a, n, i, T0);
    RowExactly(n, i);
  }

  /** Within row i, the interior cells are columns 1 to n-2, and each reads its cross. */
  lemma InteriorRowAddressed(n: int, i: int, T0: seq<real>)
    requires 1 <= i < n - 1
    ensures forall k :: n * i <= k < n * i + n ==>
              (InteriorAt(n, k) <==> n * i < k < n * i + n - 1)
    ensures forall k :: n * i < k < n * i + n - 1 ==> SumOver(T0, SourcesAt(n, k)) == CrossSum(T0, n, k)
  {
    SideIndices(n, i);
    RowOf(n, i);
    forall k | n * i < k < n * i + n - 1
      ensures SumOver(T0, SourcesAt(n, k)) == CrossSum(T0, n, k)
    {
      var j := k - n * i;
      InteriorIndices(n, i, j);
      assert SourcesAt(n, k) == Sources(n, i, j) == [k - n, k + n, k - 1, k + 1];
      SumOver4(T0, k - n, k + n, k - 1, k + 1);
    }
  }

  /** Lines 56-65: the interior block, row by row. */
  method AccumulateInterior(a: array<Node>, n: int, ghost T0: seq<real>)
    requires a.Length == n * n
    requires |T0| == a.Length && forall k {:trigger a[k]} :: 0 <= k < a.Length ==> a[k].T == T0[k]
    modifies a
    ensures forall k {:trigger a[k]} :: 0 <= k < a.Length ==> a[k].T == T0[k]
    ensures forall k :: 0 <= k < a.Length ==> a[k] == Offered(old(a[k]), n, k, T0, InteriorAt(n, k))
  {
    var i := 1;
    while i < n - 1
      invariant 1 <= i && (n >= 2 ==> i <= n - 1)
      invariant forall k {:trigger a[k]} :: 0 <= k < a.Length ==> a[k].T == T0[k]
      invariant forall k :: 0 <= k < n * i && k < a.Length ==> a[k] == Offered(old(a[k]), n, k, T0, InteriorAt(n, k))
      invariant forall k :: 0 <= k < a.Length && n * i <= k ==> a[k] == old(a[k])
    {
      InteriorRow(a, n, i, T0);
      InteriorRowAddressed(n, i, T0);
      assert n * (i + 1) == n * i + n;
      i := i + 1;
    }
    if n >= 2 {
      assert n * i == n * n - n;
    }
  }

  /**
   * In rows 0 and n-1 the block's cells are columns 1 to n-2; a row-0 cell
   * reads the row-1 cell below it and that cell's row neighbours, a
   * row-(n-1) cell the row-(n-2) cell above it and its row neighbours.
   */
  lemma TopBottomAddressed(n: int, T0: seq<real>)
    requires n >= 2
    ensures forall k :: 0 <= k < n * n ==>
              (TopBottomAt(n, k) <==> 1 <= k < n - 1 || n * n - n < k < n * n - 1)
    ensures forall k :: 1 <= k < n - 1 ==> SumOver(T0, SourcesAt(n, k)) == RowSum(T0, k + n)
    ensures forall k :: n * n - n < k < n * n - 1 ==> SumOver(T0, SourcesAt(n, k)) == RowSum(T0, k - n)
  {
    BorderRowsAddressed(n, n * n);
    forall k | 1 <= k < n - 1
      ensures SumOver(T0, SourcesAt(n, k)) == RowSum(T0, k + n)
    {
      assert SourcesAt(n, k) == [k + n, k + n + 1, k + n - 1];
      SumOver3(T0, k + n, k + n + 1, k + n - 1);
    }
    forall k | n * n - n < k < n * n - 1
      ensures SumOver(T0, SourcesAt(n, k)) == RowSum(T0, k - n)
    {
      var j := k - (n * n - n);
      BorderIndices(n, j);
      assert SourcesAt(n, k) == Sources(n, n - 1, j) == [k - n, k - n + 1, k - n - 1];
      SumOver3(T0, k - n, k - n + 1, k - n - 1);
    }
  }

  /** Lines 68-78 in closed form: the loop over columns 1 to n-2 of rows 0 and n-1. */
  method TopBottomColumns(a: array<Node>, n: int, ghost T0: seq<real>)
    requires n >= 1 && a.Length == n * n
    requires |T0| == a.Length && forall k {:trigger a[k]} :: 0 <= k < a.Length ==> a[k].T == T0[k]
    modifies a
    ensures forall k {:trigger a[k]} :: 0 <= k < a.Length ==> a[k].T == T0[k]
    ensures forall k :: 1 <= k < n - 1 && k < a.Length ==> a[k] == Accumulated(old(a[k]), RowSum(T0, k + n))
    ensures forall k :: a.Length - n < k < a.Length - 1 && 0 <= k ==> a[k] == Accumulated(old(a[k]), RowSum(T0, k - n))
    ensures forall k :: 0 <= k < a.Length && !(1 <= k < n - 1) && !(a.Length - n < k < a.Length - 1) ==> a[k] == old(a[k])
  {
    ghost var last := a.Length - n;
    if n >= 2 {
      assert last == n * (n - 1) >= n by { MulLeftMono(n, 1, n - 1); }
    }
    var j := 1;
    while j < n - 1
      invariant 1 <= j && (n >= 2 ==> j <= n - 1 && n <= last)
      invariant forall k {:trigger a[k]} :: 0 <= k < a.Length ==> a[k].T == T0[k]
      invariant forall k :: 1 <= k < j && k < a.Length ==> a[k] == Accumulated(old(a[k]), RowSum(T0, k + n))
      invariant forall k :: last < k < last + j && 0 <= k < a.Length ==>
                  a[k] == Accumulated(old(a[k]), RowSum(T0, k - n))
      invariant forall k :: 0 <= k < a.Length && !(1 <= k < j) && !(last < k < last + j) ==>
                  a[k] == old(a[k])
    {
      TopBottomColumn(a, n, j, T0);
      j := j + 1;
    }
  }

  /** Lines 68-78: the row-0 and row-(n-1) block, column by column. */
  method AccumulateTopBottom(a: array<Node>, n: int, ghost T0: seq<real>)
    requires n >= 1 && a.Length == n * n
    requires |T0| == a.Length && forall k {:trigger a[k]} :: 0 <= k < a.Length ==> a[k].T == T0[k]
    modifies a
    ensures forall k {:trigger a[k]} :: 0 <= k < a.Length ==> a[k].T == T0[k]
    ensures forall k :: 0 <= k < a.Length ==> a[k] == Offered(old(a[k]), n, k, T0, TopBottomAt(n, k))
  {
    TopBottomColumns(a, n, T0);
    if n >= 2 {
      TopBottomAddressed(n, T0);
    }
  }

  /** Within row i, the column block's cells are columns 0 and n-1, and each reads its listed sources. */
  lemma SideRowAddressed(n: int, i: int)
    requires 1 <= i < n - 1
    ensures n <= n * i && n * i + n <= n * n - n
    ensures (n * i) / n == i && (n * i + (n - 1)) / n == i
    ensures forall k :: 0 <= k < n * n && k / n == i ==> (SideAt(n, k) <==> k == n * i || k == n * i + (n - 1))
    ensures SourcesAt(n, n * i) == Sources(n, i, 0) && SourcesAt(n, n * i + (n - 1)) == Sources(n, i, n - 1)
  {
    SideIndices(n, i);
    RowExactly(n, i);
  }

  /** Lines 80-90: the column-0 and column-(n-1) block, row by row. */
  method AccumulateSides(a: array<Node>, n: int, ghost T0: seq<real>)
    requires n >= 1 && a.Length == n * n
    requires |T0| == a.Length && forall k {:trigger a[k]} :: 0 <= k < a.Length ==> a[k].T == T0[k]
    modifies a
    ensures forall k {:trigger a[k]} :: 0 <= k < a.Length ==> a[k].T == T0[k]
    ensures forall k :: 0 <= k < a.Length ==> a[k] == Offered(old(a[k]), n, k, T0, SideAt(n, k))
  {
    var i := 1;
    while i < n - 1
      invariant 1 <= i && (n >= 2 ==> i <= n - 1)
      invariant forall k {:trigger a[k]} :: 0 <= k < a.Length ==> a[k].T == T0[k]
      invariant forall k :: 0 <= k < a.Length ==>
                  a[k] == if 1 <= k / n < i then Offered(old(a[k]), n, k, T0, SideAt(n, k)) else old(a[k])
    {
      SideRowAddressed(n, i);
      SideCell(a, n, i, T0);
      i := i + 1;
    }
    if n >= 2 {
      MiddleRowsAddressed(n);
    }
  }

  /**
   * The three blocks are disjoint, and an index that belongs to none of them
   * (one of the four corners) has no sources.
   */
  lemma BlocksPartition(n: int, k: int)
    requires n >= 1 && 0 <= k < n * n
    ensures !(InteriorAt(n, k) && TopBottomAt(n, k))
    ensures !(InteriorAt(n, k) && SideAt(n, k))
    ensures !(TopBottomAt(n, k) && SideAt(n, k))
    ensures !InteriorAt(n, k) && !TopBottomAt(n, k) && !SideAt(n, k) ==> SourcesAt(n, k) == []
  {
    if n >= 2 {
      BorderRowsAddressed(n, n * n);
    }
  }

  /** Lines 95-96: tupdate(tnodes[i], 1) for i from 0 to n-1, and no further. */
  method Finalize(a: array<Node>, n: int, step: real, kc: real)
    requires 0 <= n <= a.Length && kc != 0.0
    modifies a
    ensures forall k :: 0 <= k < n ==> a[k] == TUpdate(old(a[k]), 1.0, step, kc)
    ensures forall k :: n <= k < a.Length ==> a[k] == old(a[k])
  {
    for i := 0 to n
      invariant forall k :: 0 <= k < i ==> a[k] == TUpdate(old(a[k]), 1.0, step, kc)
      invariant forall k :: i <= k < a.Length ==> a[k] == old(a[k])
    {
      a[i] := TUpdate(a[i], 1.0, step, kc);
    }
  }

  /** The node at k once the four accumulate blocks of a step that began from s have run. */
  function Gathered(s: seq<Node>, n: int, k: int): Node
    requires 0 <= k < |s|
  {
    Accumulated(s[k], SumOver(Temps(s), SourcesAt(n, k)))
  }

  /** The node at k after a whole step from s: the finalize loop reaches only indices below n. */
  function StepAt(s: seq<Node>, n: int, k: int, step: real, kc: real): Node
    requires 0 <= k < |s| && kc != 0.0
  {
    if k < n then TUpdate(Gathered(s, n, k), 1.0, step, kc) else Gathered(s, n, k)
  }

  /**
   * The buffer after one step from s: a step moves only T and T_sum, so
   * x, y, qdot and the fixed and edge flags stay, and a fixed node is kept whole.
   */
  function StepAll(s: seq<Node>, n: int, step: real, kc: real): (r: seq<Node>)
    requires kc != 0.0
    ensures |r| == |s| && forall k :: 0 <= k < |s| ==> r[k] == StepAt(s, n, k, step, kc)
    ensures forall k :: 0 <= k < |s| ==> r[k] == s[k].(T := r[k].T, T_sum := r[k].T_sum)
    ensures forall k :: 0 <= k < |s| && s[k].fixed ==> r[k] == s[k]
  {
    seq(|s|, k requires 0 <= k < |s| => StepAt(s, n, k, step, kc))
  }

  /** The buffer after t steps from s. */
  function Steps(s: seq<Node>, n: int, t: nat, step: real, kc: real): (r: seq<Node>)
    requires kc != 0.0
    ensures |r| == |s|
  {
    if t == 0 then s else StepAll(Steps(s, n, t - 1, step, kc), n, step, kc)
  }

  /**
   * Lines 56-96, the body of the time-step loop: the interior, row-0/row-(n-1)
   * and column-0/column-(n-1) blocks, all reading the temperatures the step
   * began with, then the finalize loop.
   */
  method Step(a: array<Node>, n: int, step: real, kc: real)
    requires n >= 1 && a.Length == n * n && kc != 0.0
    modifies a
    ensures forall k :: 0 <= k < a.Length ==> a[k] == StepAt(old(a[..]), n, k, step, kc)
  {
    ghost var s := a[..];
    ghost var T0 := Temps(s);
    AccumulateInterior(a, n, T0);
    ghost var s1 := a[..];
    AccumulateTopBottom(a, n, T0);
    ghost var s2 := a[..];
    AccumulateSides(a, n, T0);
    forall k | 0 <= k < a.Length
      ensures a[k] == Gathered(s, n, k)
    {
      BlocksPartition(n, k);
      assert s1[k] == Offered(s[k], n, k, T0, InteriorAt(n, k));
      assert s2[k] == Offered(s1[k], n, k, T0, TopBottomAt(n, k));
    }
    MulLeftMono(n, 1, n);
    Finalize(a, n, step, kc);
  }

  /** Lines 50-106 without the output: nsteps time steps. */
  method Simulate(a: array<Node>, n: int, nsteps: nat, step: real, kc: real)
    requires n >= 1 && a.Length == n * n && kc != 0.0
    modifies a
    ensures a[..] == Steps(old(a[..]), n, nsteps, step, kc)
  {
    for t := 0 to nsteps
      invariant a[..] == Steps(old(a[..]), n, t, step, kc)
    {
      ghost var before := a[..];
      Step(a, n, step, kc);
      assert a[..] == StepAll(before, n, step, kc);
    }
  }

  /** The temperatures an interior cell's step adds to its T_sum: up, down, left and right. */
  lemma InteriorGathered(s: seq<Node>, n: int, i: int, j: int)
    requires |s| == n * n && 1 <= i < n - 1 && 1 <= j < n - 1
    ensures 0 <= Idx(n, i - 1, j) < |s| && 0 <= Idx(n, i + 1, j) < |s|
    ensures 0 <= Idx(n, i, j - 1) < |s| && 0 <= Idx(n, i, j + 1) < |s|
    ensures n <= Idx(n, i, j) < |s|
    ensures SumOver(Temps(s), SourcesAt(n, Idx(n, i, j)))
            == s[Idx(n, i - 1, j)].T + s[Idx(n, i + 1, j)].T + s[Idx(n, i, j - 1)].T + s[Idx(n, i, j + 1)].T
  {
    IdxBounds(n, i, j);
    IdxBounds(n, i - 1, j);
    IdxBounds(n, i + 1, j);
    IdxBounds(n, i, j - 1);
    IdxBounds(n, i, j + 1);
    MulLeftMono(n, 1, i);
    RowCol(n, i, j);
    InteriorSources(n, i, j);
    SumOver4(Temps(s), Idx(n, i - 1, j), Idx(n, i + 1, j), Idx(n, i, j - 1), Idx(n, i, j + 1));
  }

  /**
   * One step on an interior cell adds the pre-step temperatures of its four
   * orthogonal neighbours to T_sum and, since the finalize loop never reaches
   * it, leaves its temperature and every other field as they were; a fixed
   * interior cell is untouched.
   */
  lemma InteriorStep(s: seq<Node>, n: int, i: int, j: int, step: real, kc: real)
    requires |s| == n * n && 1 <= i < n - 1 && 1 <= j < n - 1 && kc != 0.0
    ensures 0 <= Idx(n, i - 1, j) < |s| && 0 <= Idx(n, i + 1, j) < |s|
    ensures 0 <= Idx(n, i, j - 1) < |s| && 0 <= Idx(n, i, j + 1) < |s|
    ensures 0 <= Idx(n, i, j) < |s|
    ensures StepAt(s, n, Idx(n, i, j), step, kc)
            == Accumulated(s[Idx(n, i, j)], s[Idx(n, i - 1, j)].T + s[Idx(n, i + 1, j)].T
                                            + s[Idx(n, i, j - 1)].T + s[Idx(n, i, j + 1)].T)
  {
    InteriorGathered(s, n, i, j);
  }

  /** Every node of row 0 is fixed. */
  predicate RowZeroFixed(s: seq<Node>, n: int)
  {
    forall k :: 0 <= k < n && k < |s| ==> s[k].fixed
  }

  /** With row 0 fixed, the finalize loop changes nothing: a step is its accumulate blocks alone. */
  lemma FrozenStep(s: seq<Node>, n: int, step: real, kc: real)
    requires RowZeroFixed(s, n) && kc != 0.0
    ensures forall k :: 0 <= k < |s| ==> StepAll(s, n, step, kc)[k] == Gathered(s, n, k)
  {
  }

  /** x added to itself t times, the way t steps grow a T_sum. */
  function Repeated(x: real, t: nat): real
  {
    if t == 0 then 0.0 else Repeated(x, t - 1) + x
  }

  /**
   * With row 0 fixed, t steps change no temperature and no flag: a fixed
   * node is untouched and a free node's T_sum grows by t times the sum of
   * its sources' (unchanging) temperatures.
   */
  lemma {:induction false} FrozenRowZero(s: seq<Node>, n: int, t: nat, step: real, kc: real)
    requires RowZeroFixed(s, n) && kc != 0.0
    ensures forall k :: 0 <= k < |s| ==>
              Steps(s, n, t, step, kc)[k] == Accumulated(s[k], Repeated(SumOver(Temps(s), SourcesAt(n, k)), t))
  {
    if t == 0 {
      assert Steps(s, n, t, step, kc) == s;
    } else {
      FrozenRowZero(s, n, t - 1, step, kc);
      var p := Steps(s, n, t - 1, step, kc);
      assert Temps(p) == Temps(s);
      assert RowZeroFixed(p, n);
      FrozenStep(p, n, step, kc);
    }
  }

  /** With row 0 fixed, t steps keep every temperature. */
  lemma FrozenKeepsTemps(s: seq<Node>, n: int, t: nat, step: real, kc: real)
    requires RowZeroFixed(s, n) && kc != 0.0
    ensures Temps(Steps(s, n, t, step, kc)) == Temps(s)
  {
    FrozenRowZero(s, n, t, step, kc);
    var r := Steps(s, n, t, step, kc);
    forall k | 0 <= k < |s|
      ensures r[k].T == s[k].T
    {
      assert r[k] == Accumulated(s[k], Repeated(SumOver(Temps(s), SourcesAt(n, k)), t));
    }
    assert Temps(r) == Temps(s);
  }

  /** Row 0 of the plate init_bar builds is all fixed. */
  lemma PlateRowZeroFixed(o: seq<Node>, s: seq<Node>, n: int, barSize: real, ltem: real, rtem: real)
    requires n >= 2 && |o| == n * n && |s| == n * n
    requires forall k :: 0 <= k < |s| ==> s[k] == PlateAt(o[k], n, k, barSize, ltem, rtem)
    ensures RowZeroFixed(s, n)
  {
    forall k | 0 <= k < n
      ensures s[k].fixed
    {
      assert Idx(n, 0, k) == k;
      PlateCell(o[k], n, 0, k, barSize, ltem, rtem);
    }
  }

  /**
   * The plate init_bar builds, stepped any number of times, keeps every
   * temperature: row 0 is all fixed, so the finalize loop updates nothing.
   */
  lemma InitializedPlateKeepsTemperatures(o: seq<Node>, s: seq<Node>, n: int, barSize: real, ltem: real, rtem: real,
                                          t: nat, step: real, kc: real)
    requires n >= 2 && |o| == n * n && |s| == n * n && kc != 0.0
    requires forall k :: 0 <= k < |s| ==> s[k] == PlateAt(o[k], n, k, barSize, ltem, rtem)
    ensures Temps(Steps(s, n, t, step, kc)) == Temps(s)
  {
    PlateRowZeroFixed(o, s, n, barSize, ltem, rtem);
    FrozenKeepsTemps(s, n, t, step, kc);
  }
}
