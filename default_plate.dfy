/**
 * The alternative plate initialiser heatGen/twoD/init_bar_def.cpp. Rows 0
 * and n-1 are the fixed boundary at ltem and rtem; every other row is free
 * at T_default, its columns 0 and n-1 flagged as edges but not fixed. The
 * file is a fragment that takes mesh_pts and T_default from the translation
 * unit that includes it; both are parameters here (n and tDefault).
 */
module DefaultPlate {
  import opened HeatNode
  import opened Grid

  /** A middle-row node as the inner loop leaves it: free at T_default, not an edge. */
  function FreeNode(o: Node, n: int, i: int, j: int, tDefault: real): Node
    requires n >= 2
  {
    var step := StepLen(n);
    o.(T := tDefault, T_sum := 0.0, x := step * j as real, y := step * i as real, fixed := false, edge := false)
  }

  /** The node at (i, j) once init_bar is done, given the node o the buffer held there. */
  function DefaultNode(o: Node, n: int, i: int, j: int, barSize: real, ltem: real, rtem: real, tDefault: real): Node
    requires n >= 2
  {
    var step := StepLen(n);
    if i == 0 then
      o.(T := ltem, T_sum := 0.0, x := step * j as real, y := 0.0, fixed := true, edge := true)
    else if i == n - 1 then
      o.(T := rtem, T_sum := 0.0, x := step * j as real, y := barSize, fixed := true, edge := true)
    else
      FreeNode(o, n, i, j, tDefault).(edge := j == 0 || j == n - 1)
  }

  /** The node at buffer index k once init_bar is done: cell (k / n, k % n). */
  function DefaultAt(o: Node, n: int, k: int, barSize: real, ltem: real, rtem: real, tDefault: real): Node
    requires n >= 2
  {
    DefaultNode(o, n, k / n, k % n, barSize, ltem, rtem, tDefault)
  }

  /**
   * The plate this init_bar lays out, cell by cell: the fixed nodes are
   * exactly rows 0 and n-1, at ltem and rtem; every other node is free at
   * T_default; the edges are the four sides; T_sum is 0 and x is step*j
   * everywhere; qdot and corner keep what the buffer held.
   */
  lemma DefaultCell(o: Node, n: int, i: int, j: int, barSize: real, ltem: real, rtem: real, tDefault: real)
    requires n >= 2 && 0 <= i < n && 0 <= j < n
    ensures var r := DefaultNode(o, n, i, j, barSize, ltem, rtem, tDefault);
      && (r.fixed <==> (i == 0 || i == n - 1))
      && (r.edge <==> (i == 0 || i == n - 1 || j == 0 || j == n - 1))
      && r.T == (if i == 0 then ltem else if i == n - 1 then rtem else tDefault)
      && r.T_sum == 0.0
      && r.x == StepLen(n) * j as real
      && r.y == (if i == 0 then 0.0 else if i == n - 1 then barSize else StepLen(n) * i as real)
      && r.qdot == o.qdot && r.corner == o.corner
  {
  }

  /**
   * init_bar of heatGen/twoD/init_bar_def.cpp. The C code divides by
   * mesh_pts - 1, so a one-node-wide mesh has no finite spacing; hence n >= 2.
   */
  method InitBarDefault(a: array<Node>, n: int, barSize: real, ltem: real, rtem: real, tDefault: real)
    requires n >= 2 && a.Length == n * n
    modifies a
    ensures forall k :: 0 <= k < a.Length ==>
              a[k] == DefaultNode(old(a[k]), n, k / n, k % n, barSize, ltem, rtem, tDefault)
  {
    DefaultBorderRows(a, n, barSize, ltem, rtem, tDefault);
    DefaultMiddleRows(a, n, barSize, ltem, rtem, tDefault);
    BorderRowsAddressed(n, a.Length);
  }

  /** Lines 6-18: the body of the first loop at column j, one node of row 0 and one of row n-1. */
  method SetDefaultBorderPair(a: array<Node>, n: int, j: int, barSize: real, ltem: real, rtem: real, tDefault: real)
    requires n >= 2 && a.Length == n * n && 0 <= j < n
    modifies a
    ensures a[j] == DefaultNode(old(a[j]), n, 0, j, barSize, ltem, rtem, tDefault)
    ensures a[a.Length - n + j] == DefaultNode(old(a[a.Length - n + j]), n, n - 1, j, barSize, ltem, rtem, tDefault)
    ensures forall k :: 0 <= k < a.Length && k != j && k != a.Length - n + j ==> a[k] == old(a[k])
  {
    var step := 1.0 / (n - 1) as real;
    var last := (n - 1) * n;
    assert n <= last == a.Length - n by { MulLeftMono(n, 1, n - 1); }
    a[j] := a[j].(T := ltem, T_sum := 0.0, x := step * j as real, y := 0.0, fixed := true, edge := true);
    a[last + j] := a[last + j].(T := rtem, T_sum := 0.0, x := step * j as real, y := barSize,
                                fixed := true, edge := true);
  }

  /** Lines 5-19: the first loop, rows 0 and n-1 column by column. */
  method DefaultBorderRows(a: array<Node>, n: int, barSize: real, ltem: real, rtem: real, tDefault: real)
    requires n >= 2 && a.Length == n * n
    modifies a
    ensures forall k :: 0 <= k < n ==> a[k] == DefaultNode(old(a[k]), n, 0, k, barSize, ltem, rtem, tDefault)
    ensures forall k :: a.Length - n <= k < a.Length ==>
              a[k] == DefaultNode(old(a[k]), n, n - 1, k - (a.Length - n), barSize, ltem, rtem, tDefault)
    ensures forall k :: n <= k < a.Length - n ==> a[k] == old(a[k])
  {
    var last := a.Length - n;
    assert n <= last by { MulLeftMono(n, 2, n); }
    for j := 0 to n
      invariant forall k :: 0 <= k < j ==> a[k] == DefaultNode(old(a[k]), n, 0, k, barSize, ltem, rtem, tDefault)
      invariant forall k :: last <= k < last + j ==>
                  a[k] == DefaultNode(old(a[k]), n, n - 1, k - last, barSize, ltem, rtem, tDefault)
      invariant forall k :: j <= k < last || last + j <= k < a.Length ==> a[k] == old(a[k])
    {
      SetDefaultBorderPair(a, n, j, barSize, ltem, rtem, tDefault);
    }
  }

  /** Lines 23-28: the body of the inner loop, node (i, j) at index n*i + j. */
  method SetFree(a: array<Node>, n: int, i: int, j: int, tDefault: real)
    requires n >= 2 && 0 <= n * i + j < a.Length
    modifies a
    ensures a[n * i + j] == FreeNode(old(a[n * i + j]), n, i, j, tDefault)
    ensures forall k :: 0 <= k < a.Length && k != n * i + j ==> a[k] == old(a[k])
  {
    var step := 1.0 / (n - 1) as real;
    a[n * i + j] := a[n * i + j].(T := tDefault, T_sum := 0.0, x := step * j as real, y := step * i as real,
                                  fixed := false, edge := false);
  }

  /** Lines 22-31: one pass of the second loop, row i; then columns 0 and n-1 become edges. */
  method DefaultMiddleRow(a: array<Node>, n: int, i: int, barSize: real, ltem: real, rtem: real, tDefault: real)
    requires 1 <= i < n - 1 && a.Length == n * n
    modifies a
    ensures forall k :: 0 <= k < a.Length && k / n == i ==>
              a[k] == DefaultAt(old(a[k]), n, k, barSize, ltem, rtem, tDefault)
    ensures forall k :: 0 <= k < a.Length && k / n != i ==> a[k] == old(a[k])
  {
    var row := n * i;
    assert 0 <= row && row + n <= a.Length by {
      MulLeftMono(n, 0, i);
      MulLeftMono(n, i + 1, n - 1);
    }
    for j := 0 to n
      invariant forall k :: row <= k < row + j ==> a[k] == FreeNode(old(a[k]), n, i, k - row, tDefault)
      invariant forall k :: 0 <= k < a.Length && !(row <= k < row + j) ==> a[k] == old(a[k])
    {
      SetFree(a, n, i, j, tDefault);
    }
    a[row] := a[row].(edge := true);
    a[row + (n - 1)] := a[row + (n - 1)].(edge := true);
    RowExactly(n, i);
  }

  /** Lines 21-32: the second loop, rows 1 to n-2. */
  method DefaultMiddleRows(a: array<Node>, n: int, barSize: real, ltem: real, rtem: real, tDefault: real)
    requires n >= 2 && a.Length == n * n
    modifies a
    ensures forall k :: n <= k < a.Length - n ==>
              a[k] == DefaultAt(old(a[k]), n, k, barSize, ltem, rtem, tDefault)
    ensures forall k :: 0 <= k < n || a.Length - n <= k < a.Length ==> a[k] == old(a[k])
  {
    for i := 1 to n - 1
      invariant forall k :: 0 <= k < a.Length && 1 <= k / n < i ==>
                  a[k] == DefaultAt(old(a[k]), n, k, barSize, ltem, rtem, tDefault)
      invariant forall k :: 0 <= k < a.Length && !(1 <= k / n < i) ==> a[k] == old(a[k])
    {
      DefaultMiddleRow(a, n, i, barSize, ltem, rtem, tDefault);
    }
    MiddleRowsAddressed(n);
  }
}
