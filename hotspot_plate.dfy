/**
 * The heated square plate (heatGen/twoD/common.cpp): an n-by-n mesh whose
 * perimeter is held at fixed temperatures, with a cluster of 13 hot-spot
 * nodes carrying a heat source, and the two per-node kernels used by the
 * plate drivers: apply_tsum (accumulate) and tupdate (finalize with the
 * source term).
 */
module HotSpotPlate {
  import opened HeatNode
  import opened Grid

  /** Initial temperature of every interior node (K). */
  const TDefault: real := 200.0

  /** The value a C `int` expression yields: v wrapped into 32-bit two's complement. */
  function Int32(v: int): (r: int)
    ensures -0x8000_0000 <= r < 0x8000_0000
    ensures (v - r) % 0x1_0000_0000 == 0
    ensures -0x8000_0000 <= v < 0x8000_0000 ==> r == v
  {
    var w := v % 0x1_0000_0000;
    if w >= 0x8000_0000 then w - 0x1_0000_0000 else w
  }

  /** Heat source of a hot spot, 1010*mesh_pts*mesh_pts evaluated in `int`. */
  function HotSpotQdot(n: int): real
  {
    Int32(1010 * n * n) as real
  }

  /** Up to mesh_pts = 1458 the source term does not overflow and is positive. */
  lemma HotSpotQdotPositive(n: int)
    requires 1 <= n <= 1458
    ensures HotSpotQdot(n) == (1010 * n * n) as real
    ensures HotSpotQdot(n) > 0.0
  {
    MulLeftMono(n, n, 1458);
    MulLeftMono(1458, n, 1458);
    assert 1010 * n * n <= 1010 * 1458 * 1458;
  }

  /**
   * The 13 hot-spot indices init_bar writes, in its order, with
   * m = mesh_pts/2: the centre (m, m), its four orthogonal neighbours, the
   * cells two away along the row and the column, and the four diagonal
   * neighbours.
   */
  function HotSpots(n: int): (r: seq<int>)
    ensures |r| == 13
  {
    var m := n / 2;
    [Idx(n, m, m), Idx(n, m, m + 1), Idx(n, m, m - 1), Idx(n, m + 1, m), Idx(n, m - 1, m),
     Idx(n, m + 2, m), Idx(n, m - 2, m), Idx(n, m, m + 2), Idx(n, m, m - 2),
     Idx(n, m + 1, m + 1), Idx(n, m - 1, m - 1), Idx(n, m + 1, m - 1), Idx(n, m - 1, m + 1)]
  }

  predicate IsHotSpot(n: int, k: int)
  {
    k in HotSpots(n)
  }

  /** The row and column offsets from the centre of the 13 hot spots, in init_bar's order. */
  const RowOffsets: seq<int> := [0, 0, 0, 1, -1, 2, -2, 0, 0, 1, -1, 1, -1]
  const ColOffsets: seq<int> := [0, 1, -1, 0, 0, 0, 0, 2, -2, 1, -1, -1, 1]

  /** Hot spot t is the cell offset from the centre by RowOffsets[t] rows and ColOffsets[t] columns. */
  lemma HotSpotsAreOffsets(n: int)
    ensures |RowOffsets| == |ColOffsets| == 13
    ensures forall t :: 0 <= t < 13 ==> -2 <= RowOffsets[t] <= 2 && -2 <= ColOffsets[t] <= 2
    ensures forall t :: 0 <= t < 13 ==> HotSpots(n)[t] == Idx(n, n / 2 + RowOffsets[t], n / 2 + ColOffsets[t])
  {
  }

  /** A hot spot lies within two rows and two columns of the centre (n/2, n/2). */
  lemma HotSpotNearCentre(n: int, i: int, j: int)
    requires n >= 5 && 0 <= j < n && IsHotSpot(n, Idx(n, i, j))
    ensures -2 <= i - n / 2 <= 2 && -2 <= j - n / 2 <= 2
  {
    var m := n / 2;
    HotSpotsAreOffsets(n);
    var t :| 0 <= t < 13 && HotSpots(n)[t] == Idx(n, i, j);
    var p, q := m + RowOffsets[t], m + ColOffsets[t];
    IdxInjective(n, i, j, p, q);
  }

  /** The node at (i, j) after the two row loops of init_bar, before the hot spots. */
  function FramedNode(o: Node, n: int, i: int, j: int, barSize: real, ltem: real, rtem: real): Node
    requires n >= 2
  {
    var step := StepLen(n);
    if i == 0 then
      o.(T := ltem, T_sum := 0.0, x := step * j as real, y := 0.0, fixed := true, edge := true, qdot := 0.0)
    else if i == n - 1 then
      o.(T := rtem, T_sum := 0.0, x := step * j as real, y := barSize, fixed := true, edge := true, qdot := 0.0)
    else if j == 0 then
      o.(T := ltem, T_sum := 0.0, x := 0.0, y := step * i as real, fixed := true, edge := true)
    else if j == n - 1 then
      o.(T := rtem, T_sum := 0.0, x := 0.0, y := step * i as real, fixed := true, edge := true)
    else
      o.(T := TDefault, T_sum := 0.0, x := step * j as real, y := step * i as real,
         fixed := false, edge := false, qdot := 0.0)
  }

  /**
   * The node at buffer index k once init_bar is done, given the node o the
   * buffer held there before: the framed node of its cell (k / n, k % n),
   * with the heat source if k is a hot spot.
   */
  function PlateAt(o: Node, n: int, k: int, barSize: real, ltem: real, rtem: real): Node
    requires n >= 2
  {
    var framed := FramedNode(o, n, k / n, k % n, barSize, ltem, rtem);
    if IsHotSpot(n, k) then framed.(qdot := HotSpotQdot(n)) else framed
  }

  /**
   * The plate init_bar lays out, cell by cell. Rows 0 and n-1 are fixed at
   * ltem and rtem; in every other row columns 0 and n-1 are fixed at ltem
   * and rtem, with x = 0 in both and qdot left as it was; every other cell
   * is interior at T_default; the hot spots carry the heat source.
   */
  lemma PlateCell(o: Node, n: int, i: int, j: int, barSize: real, ltem: real, rtem: real)
    requires n >= 2 && 0 <= i < n && 0 <= j < n
    ensures 0 <= Idx(n, i, j) < n * n
    ensures var r := PlateAt(o, n, Idx(n, i, j), barSize, ltem, rtem);
      && (r.fixed <==> (i == 0 || i == n - 1 || j == 0 || j == n - 1))
      && (r.edge <==> r.fixed)
      && ((i == 0 || (j == 0 && i < n - 1)) ==> r.T == ltem)
      && ((i == n - 1 || (j == n - 1 && 0 < i)) ==> r.T == rtem)
      && (!r.fixed ==> r.T == TDefault)
      && r.T_sum == 0.0
      && r.y == (if i == 0 then 0.0 else if i == n - 1 then barSize else StepLen(n) * i as real)
      && r.x == (if 0 < i < n - 1 && (j == 0 || j == n - 1) then 0.0 else StepLen(n) * j as real)
      && (IsHotSpot(n, Idx(n, i, j)) ==> r.qdot == HotSpotQdot(n))
      && (!IsHotSpot(n, Idx(n, i, j)) ==>
            r.qdot == (if 0 < i < n - 1 && (j == 0 || j == n - 1) then o.qdot else 0.0))
      && r.corner == o.corner
  {
    IdxBounds(n, i, j);
    RowCol(n, i, j);
    var f := FramedNode(o, n, i, j, barSize, ltem, rtem);
    assert PlateAt(o, n, Idx(n, i, j), barSize, ltem, rtem)
           == if IsHotSpot(n, Idx(n, i, j)) then f.(qdot := HotSpotQdot(n)) else f;
  }

  /**
   * init_bar: fills the n*n buffer row by row and seeds the hot spots.
   * Returns the mesh spacing it stores in the global `step`. The C code
   * writes the 13 hot-spot indices unconditionally, which leaves the buffer
   * for mesh_pts < 5; hence the bound on n.
   */
  method InitBar(a: array<Node>, n: int, barSize: real, ltem: real, rtem: real) returns (step: real)
    requires n >= 5 && a.Length == n * n
    modifies a
    ensures step == StepLen(n)
    ensures forall k :: 0 <= k < a.Length ==> a[k] == PlateAt(old(a[k]), n, k, barSize, ltem, rtem)
  {
    step := 1.0 / (n - 1) as real;
    InitBorderRows(a, n, barSize, ltem, rtem);
    InitMiddleRows(a, n, barSize, ltem, rtem);
    BorderRowsAddressed(n, a.Length);
    SeedHotSpots(a, n);
  }

  /** The body of the first loop of init_bar at column j: one node of row 0 and one of row n-1. */
  method SetBorderPair(a: array<Node>, n: int, j: int, barSize: real, ltem: real, rtem: real)
    requires n >= 2 && a.Length == n * n && 0 <= j < n
    modifies a
    ensures a[j] == FramedNode(old(a[j]), n, 0, j, barSize, ltem, rtem)
    ensures a[a.Length - n + j] == FramedNode(old(a[a.Length - n + j]), n, n - 1, j, barSize, ltem, rtem)
    ensures forall k :: 0 <= k < a.Length && k != j && k != a.Length - n + j ==> a[k] == old(a[k])
  {
    var step := 1.0 / (n - 1) as real;
    var last := (n - 1) * n;
    assert n <= last == a.Length - n by { MulLeftMono(n, 1, n - 1); }
    a[j] := a[j].(T := ltem, T_sum := 0.0, x := step * j as real, y := 0.0,
                  fixed := true, edge := true, qdot := 0.0);
    a[last + j] := a[last + j].(T := rtem, T_sum := 0.0, x := step * j as real, y := barSize,
                                fixed := true, edge := true, qdot := 0.0);
  }

  /** The first loop of init_bar: rows 0 and n-1, column by column. */
  method InitBorderRows(a: array<Node>, n: int, barSize: real, ltem: real, rtem: real)
    requires n >= 2 && a.Length == n * n
    modifies a
    ensures forall k :: 0 <= k < n ==> a[k] == FramedNode(old(a[k]), n, 0, k, barSize, ltem, rtem)
    ensures forall k :: a.Length - n <= k < a.Length ==>
              a[k] == FramedNode(old(a[k]), n, n - 1, k - (a.Length - n), barSize, ltem, rtem)
    ensures forall k :: n <= k < a.Length - n ==> a[k] == old(a[k])
  {
    var last := a.Length - n;
    assert n <= last by { MulLeftMono(n, 2, n); }
    for j := 0 to n
      invariant forall k :: 0 <= k < j ==> a[k] == FramedNode(old(a[k]), n, 0, k, barSize, ltem, rtem)
      invariant forall k :: last <= k < last + j ==> a[k] == FramedNode(old(a[k]), n, n - 1, k - last, barSize, ltem, rtem)
      invariant forall k :: j <= k < last || last + j <= k < a.Length ==> a[k] == old(a[k])
    {
      SetBorderPair(a, n, j, barSize, ltem, rtem);
    }
  }

  /** FramedNode of the cell at buffer index k. */
  function FramedAt(o: Node, n: int, k: int, barSize: real, ltem: real, rtem: real): Node
    requires n >= 2
  {
    FramedNode(o, n, k / n, k % n, barSize, ltem, rtem)
  }

  /** The body of the inner loop of init_bar: interior node (i, j) at index n*i + j. */
  method SetInterior(a: array<Node>, n: int, i: int, j: int, barSize: real, ltem: real, rtem: real)
    requires 1 <= i < n - 1 && 1 <= j < n - 1 && 0 <= n * i + j < a.Length
    modifies a
    ensures a[n * i + j] == FramedNode(old(a[n * i + j]), n, i, j, barSize, ltem, rtem)
    ensures forall k :: 0 <= k < a.Length && k != n * i + j ==> a[k] == old(a[k])
  {
    var step := 1.0 / (n - 1) as real;
    a[n * i + j] := a[n * i + j].(T := TDefault, T_sum := 0.0, x := step * j as real,
                                  y := step * i as real, fixed := false, edge := false, qdot := 0.0);
  }

  /** The end of each pass of the second loop of init_bar: columns 0 and n-1 of row i. */
  method SetEndColumns(a: array<Node>, n: int, i: int, barSize: real, ltem: real, rtem: real)
    requires 1 <= i < n - 1 && 0 <= n * i && n * i + n <= a.Length
    modifies a
    ensures a[n * i] == FramedNode(old(a[n * i]), n, i, 0, barSize, ltem, rtem)
    ensures a[n * i + (n - 1)] == FramedNode(old(a[n * i + (n - 1)]), n, i, n - 1, barSize, ltem, rtem)
    ensures forall k :: 0 <= k < a.Length && k != n * i && k != n * i + (n - 1) ==> a[k] == old(a[k])
  {
    var step := 1.0 / (n - 1) as real;
    a[n * i] := a[n * i].(T := ltem, T_sum := 0.0, x := 0.0, y := step * i as real,
                          fixed := true, edge := true);
    a[n * i + (n - 1)] := a[n * i + (n - 1)].(T := rtem, T_sum := 0.0, x := 0.0, y := step * i as real,
                                              fixed := true, edge := true);
  }

  /** One pass of the second loop of init_bar: row i, interior first, then both end columns. */
  method InitMiddleRow(a: array<Node>, n: int, i: int, barSize: real, ltem: real, rtem: real)
    requires 1 <= i < n - 1 && a.Length == n * n
    modifies a
    ensures forall k :: 0 <= k < a.Length && k / n == i ==> a[k] == FramedAt(old(a[k]), n, k, barSize, ltem, rtem)
    ensures forall k :: 0 <= k < a.Length && k / n != i ==> a[k] == old(a[k])
  {
    var row := n * i;
    assert 0 <= row && row + n <= a.Length by {
      MulLeftMono(n, 0, i);
      MulLeftMono(n, i + 1, n - 1);
    }
    for j := 1 to n - 1
      invariant forall k :: row < k < row + j ==> a[k] == FramedNode(old(a[k]), n, i, k - row, barSize, ltem, rtem)
      invariant forall k :: 0 <= k < a.Length && !(row < k < row + j) ==> a[k] == old(a[k])
    {
      SetInterior(a, n, i, j, barSize, ltem, rtem);
    }
    SetEndColumns(a, n, i, barSize, ltem, rtem);
    RowExactly(n, i);
  }

  /** The second loop of init_bar: rows 1 to n-2. */
  method InitMiddleRows(a: array<Node>, n: int, barSize: real, ltem: real, rtem: real)
    requires n >= 2 && a.Length == n * n
    modifies a
    ensures forall k :: n <= k < a.Length - n ==> a[k] == FramedAt(old(a[k]), n, k, barSize, ltem, rtem)
    ensures forall k :: 0 <= k < n || a.Length - n <= k < a.Length ==> a[k] == old(a[k])
  {
    for i := 1 to n - 1
      invariant forall k :: 0 <= k < a.Length ==>
                  a[k] == if 1 <= k / n < i then FramedAt(old(a[k]), n, k, barSize, ltem, rtem) else old(a[k])
    {
      InitMiddleRow(a, n, i, barSize, ltem, rtem);
    }
    MiddleRowsAddressed(n);
  }

  /** s is o with qdot set to q at exactly the indices in hot. */
  ghost predicate SeededAt(s: seq<Node>, o: seq<Node>, hot: seq<int>, q: real)
  {
    |s| == |o| && forall k :: 0 <= k < |s| ==> s[k] == if k in hot then o[k].(qdot := q) else o[k]
  }

  /**
   * Hot-spot assignment number t, `tnodes[x].qdot = q`. Writing the same
   * source term twice is harmless, so the heated prefix simply grows by x.
   */
  method Heat(a: array<Node>, x: int, q: real, ghost n: int, ghost t: int, ghost o: seq<Node>)
    requires 0 <= t < 13 && x == HotSpots(n)[t] && 0 <= x < a.Length
    requires SeededAt(a[..], o, HotSpots(n)[..t], q)
    modifies a
    ensures SeededAt(a[..], o, HotSpots(n)[..t + 1], q)
  {
    ghost var hot := HotSpots(n);
    assert hot[..t + 1] == hot[..t] + [x];
    a[x] := a[x].(qdot := q);
  }

  /**
   * The 13 hot-spot assignments that end init_bar, writing 1010*n*n into
   * qdot, at (m+di)*mesh_pts + m + dj with m = mesh_pts/2.
   */
  method SeedHotSpots(a: array<Node>, n: int)
    requires n >= 5 && a.Length == n * n
    modifies a
    ensures forall k :: 0 <= k < a.Length ==>
              a[k] == if IsHotSpot(n, k) then old(a[k]).(qdot := HotSpotQdot(n)) else old(a[k])
  {
    var q := Int32(1010 * n * n) as real;
    HotSpotsInBuffer(n);
    ghost var o := a[..];
    assert HotSpots(n)[..0] == [];
    HeatCross(a, n, q, o);
    HeatOuter(a, n, q, o);
    assert HotSpots(n)[..13] == HotSpots(n);
  }

  /** Lines 97-104: the centre, its four orthogonal neighbours and the cells two above and below. */
  method HeatCross(a: array<Node>, n: int, q: real, ghost o: seq<Node>)
    requires n >= 5 && a.Length == n * n
    requires SeededAt(a[..], o, HotSpots(n)[..0], q)
    modifies a
    ensures SeededAt(a[..], o, HotSpots(n)[..7], q)
  {
    var m := n / 2;
    HotSpotsInBuffer(n);
    Heat(a, Idx(n, m, m), q, n, 0, o);
    Heat(a, Idx(n, m, m + 1), q, n, 1, o);
    Heat(a, Idx(n, m, m - 1), q, n, 2, o);
    Heat(a, Idx(n, m + 1, m), q, n, 3, o);
    Heat(a, Idx(n, m - 1, m), q, n, 4, o);
    Heat(a, Idx(n, m + 2, m), q, n, 5, o);
    Heat(a, Idx(n, m - 2, m), q, n, 6, o);
  }

  /** Lines 105-110: the cells two left and right of the centre and the four diagonal neighbours. */
  method HeatOuter(a: array<Node>, n: int, q: real, ghost o: seq<Node>)
    requires n >= 5 && a.Length == n * n
    requires SeededAt(a[..], o, HotSpots(n)[..7], q)
    modifies a
    ensures SeededAt(a[..], o, HotSpots(n)[..13], q)
  {
    var m := n / 2;
    HotSpotsInBuffer(n);
    Heat(a, Idx(n, m, m + 2), q, n, 7, o);
    Heat(a, Idx(n, m, m - 2), q, n, 8, o);
    Heat(a, Idx(n, m + 1, m + 1), q, n, 9, o);
    Heat(a, Idx(n, m - 1, m - 1), q, n, 10, o);
    Heat(a, Idx(n, m + 1, m - 1), q, n, 11, o);
    Heat(a, Idx(n, m - 1, m + 1), q, n, 12, o);
  }

  /** From mesh_pts = 5 on, every hot-spot index lies inside the n*n buffer. */
  lemma HotSpotsInBuffer(n: int)
    requires n >= 5
    ensures forall t :: 0 <= t < 13 ==> 0 <= HotSpots(n)[t] < n * n
  {
    var m := n / 2;
    IdxBounds(n, m, m);
    IdxBounds(n, m, m + 1);
    IdxBounds(n, m, m - 1);
    IdxBounds(n, m + 1, m);
    IdxBounds(n, m - 1, m);
    IdxBounds(n, m + 2, m);
    IdxBounds(n, m - 2, m);
    IdxBounds(n, m, m + 2);
    IdxBounds(n, m, m - 2);
    IdxBounds(n, m + 1, m + 1);
    IdxBounds(n, m - 1, m - 1);
    IdxBounds(n, m + 1, m - 1);
    IdxBounds(n, m - 1, m + 1);
  }

  /**
   * With mesh_pts >= 7 every node init_bar heats is an interior, non-fixed
   * node at T_default holding the full source term.
   */
  lemma HotSpotsAreInterior(o: Node, n: int, i: int, j: int, barSize: real, ltem: real, rtem: real)
    requires n >= 7 && 0 <= i < n && 0 <= j < n && IsHotSpot(n, Idx(n, i, j))
    ensures var r := PlateAt(o, n, Idx(n, i, j), barSize, ltem, rtem);
            !r.fixed && r.qdot == HotSpotQdot(n) && r.T == TDefault
  {
    HotSpotNearCentre(n, i, j);
    RowCol(n, i, j);
  }

  /** apply_tsum: a non-fixed node adds the neighbour's temperature to its sum; nothing else changes. */
  function ApplyTsum(t: Node, nb: Node): (r: Node)
    ensures t.fixed ==> r == t
    ensures !t.fixed ==> r.T_sum == t.T_sum + nb.T
    ensures r == t.(T_sum := r.T_sum)
  {
    if t.fixed then t else t.(T_sum := t.T_sum + nb.T)
  }

  /**
   * tupdate: a non-fixed node adds its source term qdot*step^2/k to the sum,
   * takes the sum divided by div as its temperature and clears the sum.
   */
  function TUpdate(t: Node, div: real, step: real, k: real): (r: Node)
    requires div != 0.0 && k != 0.0
    ensures t.fixed ==> r == t
    ensures !t.fixed ==> r.T == (t.T_sum + t.qdot * step * step / k) / div && r.T_sum == 0.0
    ensures r == t.(T := r.T, T_sum := r.T_sum)
  {
    if t.fixed then t
    else
      var sum := t.T_sum + (t.qdot * step * step) / k;
      t.(T := sum / div, T_sum := 0.0)
  }
}
