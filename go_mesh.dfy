/**
 * The node record, kernels and mesh initialisers of the Go ports. The
 * three programs (golang/serial/serial.go, golang/serial.go and
 * golang/parallel/parallel.go) share InitSquare, FixTemp and TUpdate
 * word for word; InitBar with Neighbors 1 and 2 is shared by
 * golang/serial/serial.go and golang/parallel/parallel.go. A slice comes
 * from make, so every field starts at its zero value.
 */
module GoMesh {
  import opened Grid
  import HeatNode

  /** Go's Node; parallel.go declares Neighbors as float64 but stores only whole counts in it. */
  datatype GoNode = GoNode(T: real, TSum: real, X: real, Y: real, Fixed: bool, Neighbors: int)

  const DX: real := 0.005
  const DY: real := 0.005
  const EPS: real := 0.0001
  const TDefault: real := 300.0

  /** The zero value make gives every element of a fresh slice. */
  const Zero: GoNode := GoNode(0.0, 0.0, 0.0, 0.0, false, 0)

  /** FixTemp: the node is pinned at temp; no other field changes. */
  function FixTemp(t: GoNode, temp: real): (r: GoNode)
    ensures r.Fixed && r.T == temp
    ensures r.TSum == t.TSum && r.X == t.X && r.Y == t.Y && r.Neighbors == t.Neighbors
  {
    t.(T := temp, Fixed := true)
  }

  /** A second FixTemp on the same node wins outright: the first leaves no trace. */
  lemma FixTempTwice(t: GoNode, first: real, second: real)
    ensures FixTemp(FixTemp(t, first), second) == FixTemp(t, second)
  {
  }

  /** Two grid coordinates k and m, scaled by dX, lie less than dX + EPS apart exactly when k and m are at most one apart. */
  lemma Reach(k: int, m: int)
    ensures HeatNode.Abs(k as real * DX - m as real * DX) < DX + EPS <==> -1 <= k - m <= 1
  {
    var d := k - m;
    assert k as real * DX - m as real * DX == d as real * DX;
    if d >= 2 {
      assert d as real * DX >= 2.0 * DX;
    } else if d <= -2 {
      assert d as real * DX <= -2.0 * DX;
    }
  }

  /**
   * TUpdate: a free node takes TSum / Neighbors and clears TSum; a fixed
   * node is untouched. Dividing by zero neighbours is an IEEE infinity or
   * NaN in Go and has no real counterpart, so a free node needs Neighbors != 0.
   */
  function TUpdate(t: GoNode): (r: GoNode)
    requires t.Fixed || t.Neighbors != 0
    ensures t.Fixed ==> r == t
    ensures !t.Fixed ==> r.T * t.Neighbors as real == t.TSum
    ensures !t.Fixed ==> r == t.(T := r.T, TSum := 0.0)
  {
    if t.Fixed then t else t.(T := t.TSum / t.Neighbors as real, TSum := 0.0)
  }

  /** Every free node of s has a nonzero neighbour count, so TUpdate applies everywhere. */
  predicate Dividable(s: seq<GoNode>)
  {
    forall k :: 0 <= k < |s| ==> s[k].Fixed || s[k].Neighbors != 0
  }

  /** The TUpdate sweep that ends every time step (golang/serial/serial.go:202-204, golang/serial.go:131-133). */
  method UpdateAll(a: array<GoNode>)
    requires Dividable(a[..])
    modifies a
    ensures forall k :: 0 <= k < a.Length ==> a[k] == TUpdate(old(a[k]))
  {
    for k := 0 to a.Length
      invariant forall m :: 0 <= m < k ==> a[m] == TUpdate(old(a[m]))
      invariant forall m :: k <= m < a.Length ==> a[m] == old(a[m])
    {
      assert a[k] == a[..][k];
      a[k] := TUpdate(a[k]);
    }
  }

  /** Node k of the bar InitBar returns: both ends pinned with one neighbour, the rest free with two. */
  function BarNode(n: int, k: int, leftTemp: real, rightTemp: real): GoNode
  {
    if k == n - 1 then GoNode(rightTemp, 0.0, k as real * DX, 0.0, true, 1)
    else if k == 0 then GoNode(leftTemp, 0.0, 0.0, 0.0, true, 1)
    else GoNode(TDefault, 0.0, k as real * DX, 0.0, false, 2)
  }

  /** InitBar: n free nodes dX apart, then node 0 pinned at leftTemp and node n-1 at rightTemp. */
  method InitBar(n: int, leftTemp: real, rightTemp: real) returns (nodes: array<GoNode>)
    requires n >= 1
    ensures fresh(nodes) && nodes.Length == n
    ensures forall k :: 0 <= k < n ==> nodes[k] == BarNode(n, k, leftTemp, rightTemp)
  {
    nodes := new GoNode[n](_ => Zero);
    for k := 0 to n
      invariant forall m :: 0 <= m < k ==> nodes[m] == GoNode(TDefault, 0.0, m as real * DX, 0.0, false, 2)
    {
      nodes[k] := nodes[k].(T := TDefault, TSum := 0.0, X := k as real * DX, Y := 0.0, Fixed := false,
                            Neighbors := 2);
    }
    nodes[0] := FixTemp(nodes[0], leftTemp);
    nodes[0] := nodes[0].(Neighbors := 1);
    nodes[n - 1] := FixTemp(nodes[n - 1], rightTemp);
    nodes[n - 1] := nodes[n - 1].(Neighbors := 1);
  }

  /** The bar laid out as InitBar leaves it: node k at k*dX on the line y = 0, every free node with two neighbours. */
  predicate IsBar(s: seq<GoNode>)
  {
    forall k :: 0 <= k < |s| ==>
      s[k].X == k as real * DX && s[k].Y == 0.0 && (s[k].Fixed <==> (k == 0 || k == |s| - 1))
      && (!s[k].Fixed ==> s[k].Neighbors == 2)
  }

  /**
   * InitBar of a bar of at least two nodes: exactly the two ends are
   * fixed, at leftTemp and rightTemp with one neighbour each; every other
   * node is free at TDefault with two; TSum is 0 throughout.
   */
  lemma BarLayout(s: seq<GoNode>, leftTemp: real, rightTemp: real)
    requires |s| >= 2 && forall k :: 0 <= k < |s| ==> s[k] == BarNode(|s|, k, leftTemp, rightTemp)
    ensures IsBar(s) && Dividable(s)
    ensures s[0].T == leftTemp && s[|s| - 1].T == rightTemp
    ensures s[0].Neighbors == 1 && s[|s| - 1].Neighbors == 1
    ensures forall k :: 0 < k < |s| - 1 ==> s[k].T == TDefault && s[k].Neighbors == 2
    ensures forall k :: 0 <= k < |s| ==> s[k].TSum == 0.0
  {
    assert s[0] == BarNode(|s|, 0, leftTemp, rightTemp);
  }

  /**
   * Node k = n*j + i of the square InitSquare returns, in column i and row
   * j: at (i*dX, j*dY), free at TDefault with one neighbour per in-grid
   * side, except nodes 0 and n*n-1, which FixTemp pins.
   */
  function SquareNode(n: int, k: int, topLeftTemp: real, bottomRightTemp: real): GoNode
    requires n >= 1
  {
    var i, j := k % n, k / n;
    var o := GoNode(TDefault, 0.0, i as real * DX, j as real * DY, false, NeighborCount(n, j, i));
    if k == n * n - 1 then FixTemp(o, bottomRightTemp)
    else if k == 0 then FixTemp(o, topLeftTemp)
    else o
  }

  /** Lines 70-83 of golang/serial/serial.go: the neighbour count of column i, row j, one guard per side. */
  method CountNeighbors(n: int, i: int, j: int) returns (neighbors: int)
    ensures neighbors == NeighborCount(n, j, i)
    ensures 0 <= neighbors <= 4
  {
    neighbors := 0;
    if i < n - 1 {
      neighbors := neighbors + 1;
    }
    if i > 0 {
      neighbors := neighbors + 1;
    }
    if j < n - 1 {
      neighbors := neighbors + 1;
    }
    if j > 0 {
      neighbors := neighbors + 1;
    }
  }

  /** InitSquare: the n*n nodes in row-major order, then nodes 0 and n*n-1 pinned. */
  method InitSquare(n: int, topLeftTemp: real, bottomRightTemp: real) returns (nodes: array<GoNode>)
    requires n >= 1
    ensures fresh(nodes) && nodes.Length == n * n
    ensures forall k :: 0 <= k < n * n ==> nodes[k] == SquareNode(n, k, topLeftTemp, bottomRightTemp)
  {
    nodes := new GoNode[n * n](_ => Zero);
    for k := 0 to n * n
      invariant forall m :: 0 <= m < k ==>
                  nodes[m] == GoNode(TDefault, 0.0, (m % n) as real * DX, (m / n) as real * DY, false,
                                     NeighborCount(n, m / n, m % n))
    {
      var i, j := k % n, k / n;
      var neighbors := CountNeighbors(n, i, j);
      nodes[k] := nodes[k].(T := TDefault, TSum := 0.0, X := i as real * DX, Y := j as real * DY, Fixed := false,
                            Neighbors := neighbors);
    }
    nodes[0] := FixTemp(nodes[0], topLeftTemp);
    nodes[n * n - 1] := FixTemp(nodes[n * n - 1], bottomRightTemp);
  }

  /** The square laid out as InitSquare leaves it: positions on the dX grid, neighbour counts, fixed corners 0 and n*n-1. */
  predicate IsSquare(s: seq<GoNode>, n: int)
    requires n >= 1
  {
    |s| == n * n &&
    forall k :: 0 <= k < |s| ==>
      s[k].X == (k % n) as real * DX && s[k].Y == (k / n) as real * DY
      && s[k].Neighbors == NeighborCount(n, k / n, k % n)
      && (s[k].Fixed <==> (k == 0 || k == n * n - 1))
  }

  /**
   * InitSquare of an n*n square, n >= 2: node k sits in column k%n and
   * row k/n, its Neighbors is the number of in-grid positions Orthogonal
   * lists for it (between 2 and 4), only nodes 0 and n*n-1 are fixed (at
   * topLeftTemp and bottomRightTemp), every other node is at TDefault,
   * and TSum is 0 throughout.
   */
  lemma SquareLayout(s: seq<GoNode>, n: int, topLeftTemp: real, bottomRightTemp: real)
    requires n >= 2 && |s| == n * n
    requires forall k :: 0 <= k < |s| ==> s[k] == SquareNode(n, k, topLeftTemp, bottomRightTemp)
    ensures IsSquare(s, n) && Dividable(s)
    ensures forall k :: 0 <= k < |s| ==>
              0 <= k / n < n && 0 <= k % n < n &&
              s[k].Neighbors == |Orthogonal(n, k / n, k % n)| && 2 <= s[k].Neighbors <= 4
    ensures s[0].T == topLeftTemp && s[n * n - 1].T == bottomRightTemp
    ensures forall k :: 0 < k < n * n - 1 ==> s[k].T == TDefault
    ensures forall k :: 0 <= k < |s| ==> s[k].TSum == 0.0
  {
    forall k | 0 <= k < |s|
      ensures 0 <= k / n < n && 0 <= k % n < n
      ensures s[k].Neighbors == |Orthogonal(n, k / n, k % n)| && 2 <= s[k].Neighbors <= 4
    {
      Decompose(n, k);
    }
    assert n * n - 1 > 0 by { MulLeftMono(n, 2, n); }
  }

  /**
   * Sum of the temperatures of the in-grid orthogonal neighbours of node
   * k (row k/n, column k%n) of an n*n square: one term per side that
   * NeighborCount counts.
   */
  function NeighbourTemps(s: seq<GoNode>, n: int, k: int): real
    requires n >= 1 && |s| == n * n && 0 <= k < |s|
  {
    Decompose(n, k);
    var r, c := k / n, k % n;
    (if r > 0 then (IdxBounds(n, r - 1, c); s[Idx(n, r - 1, c)].T) else 0.0)
    + (if r < n - 1 then (IdxBounds(n, r + 1, c); s[Idx(n, r + 1, c)].T) else 0.0)
    + (if c > 0 then (IdxBounds(n, r, c - 1); s[Idx(n, r, c - 1)].T) else 0.0)
    + (if c < n - 1 then (IdxBounds(n, r, c + 1); s[Idx(n, r, c + 1)].T) else 0.0)
  }
}
