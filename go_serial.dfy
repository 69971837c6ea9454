/**
 * The time step of golang/serial/serial.go. On a bar every node calls
 * ApplyTsum with its one or two index neighbours; on a square every node
 * adds the T of each in-grid orthogonal neighbour straight into its TSum
 * (fixed nodes included); then every node calls TUpdate.
 */
module GoSerial {
  import opened Grid
  import opened GoMesh
  import HeatNode

  /**
   * ApplyTsum of golang/serial/serial.go: yDist is the constant 0, so a
   * free node takes the neighbour's T exactly when the two lie less than
   * dX + EPS apart in x; a fixed node is untouched.
   */
  function ApplyTsum(t: GoNode, nb: GoNode): (r: GoNode)
    ensures t.Fixed ==> r == t
    ensures r == t.(TSum := r.TSum)
    ensures !t.Fixed && HeatNode.Abs(t.X - nb.X) < DX + EPS ==> r.TSum == t.TSum + nb.T
    ensures !(HeatNode.Abs(t.X - nb.X) < DX + EPS) ==> r == t
  {
    if t.Fixed then t
    else
      var xDist := HeatNode.Abs(t.X - nb.X);
      var yDist := 0.0;
      if (xDist < DX + EPS && yDist == 0.0) || (yDist < DX + EPS && xDist == 0.0) then t.(TSum := t.TSum + nb.T)
      else t
  }

  /** Node k of the bar s after lines 176-181: node 0 reads node 1, node n-1 reads n-2, the rest read k+1 then k-1. */
  function BarGathered(s: seq<GoNode>, k: int): GoNode
    requires |s| >= 2 && 0 <= k < |s|
  {
    if k == 0 then ApplyTsum(s[0], s[1])
    else if k == |s| - 1 then ApplyTsum(s[k], s[k - 1])
    else ApplyTsum(ApplyTsum(s[k], s[k + 1]), s[k - 1])
  }

  /** Lines 178-179: free node i reads node i+1, then node i-1; only its TSum moves. */
  method BarPull(a: array<GoNode>, i: int, ghost s: seq<GoNode>)
    requires a.Length == |s| && 0 < i < a.Length - 1 && a[i] == s[i] && a[i + 1] == s[i + 1]
    requires a[i - 1].T == s[i - 1].T && a[i - 1].X == s[i - 1].X
    modifies a
    ensures a[i] == BarGathered(s, i)
    ensures forall k :: 0 <= k < a.Length && k != i ==> a[k] == old(a[k])
  {
    a[i] := ApplyTsum(a[i], a[i + 1]);
    a[i] := ApplyTsum(a[i], a[i - 1]);
  }

  /** Lines 176-181: the bar accumulate phase. */
  method BarAccumulate(a: array<GoNode>)
    requires a.Length >= 2
    modifies a
    ensures forall k :: 0 <= k < a.Length ==> a[k] == BarGathered(old(a[..]), k)
  {
    ghost var s := a[..];
    var n := a.Length;
    a[0] := ApplyTsum(a[0], a[1]);
    for i := 1 to n - 1
      invariant forall k :: 0 <= k < i ==> a[k] == BarGathered(s, k)
      invariant forall k :: i <= k < n ==> a[k] == s[k]
    {
      BarPull(a, i, s);
    }
    a[n - 1] := ApplyTsum(a[n - 1], a[n - 2]);
  }

  /**
   * One guard pair of lines 187-192: offset (dx, dy) of column i, row j is
   * used when it moves along exactly one axis and stays inside the grid.
   */
  predicate Admitted(n: int, i: int, j: int, dx: int, dy: int)
  {
    !((dx == 0 && dy == 0) || (dx != 0 && dy != 0))
    && !((i + dx < 0) || (i + dx >= n) || (j + dy < 0) || (j + dy >= n))
  }

  /**
   * Lines 185-196: the guards admit exactly the in-grid orthogonal
   * neighbours, and both idxA = j*n + i and idxB = (j+dy)*n + (i+dx) then
   * lie in [0, n*n).
   */
  lemma AdmittedExactly(n: int, i: int, j: int, dx: int, dy: int)
    requires 0 <= i < n && 0 <= j < n && -1 <= dx <= 1 && -1 <= dy <= 1
    ensures Admitted(n, i, j, dx, dy) <==>
              0 <= i + dx < n && 0 <= j + dy < n && Adjacent(j, i, j + dy, i + dx)
    ensures 0 <= Idx(n, j, i) < n * n
    ensures Admitted(n, i, j, dx, dy) ==> 0 <= Idx(n, j + dy, i + dx) < n * n
  {
    IdxBounds(n, j, i);
    if Admitted(n, i, j, dx, dy) {
      IdxBounds(n, j + dy, i + dx);
    }
  }

  /** What offset (dx, dy) adds to the TSum of column i, row j: the neighbour's T when admitted, else nothing. */
  function OffsetTerm(s: seq<GoNode>, n: int, i: int, j: int, dx: int, dy: int): real
    requires |s| == n * n && 0 <= i < n && 0 <= j < n && -1 <= dx <= 1 && -1 <= dy <= 1
  {
    if Admitted(n, i, j, dx, dy) then (AdmittedExactly(n, i, j, dx, dy); s[Idx(n, j + dy, i + dx)].T) else 0.0
  }

  /** The terms of offsets (dx, -1) to (dx, m-1), in the order of the dy loop. */
  function ColumnSum(s: seq<GoNode>, n: int, i: int, j: int, dx: int, m: int): real
    requires |s| == n * n && 0 <= i < n && 0 <= j < n && -1 <= dx <= 1 && -1 <= m <= 2
    decreases m + 1
  {
    if m == -1 then 0.0 else ColumnSum(s, n, i, j, dx, m - 1) + OffsetTerm(s, n, i, j, dx, m - 1)
  }

  /** The terms of every offset with dx below m, in the order of the dx loop. */
  function OffsetSum(s: seq<GoNode>, n: int, i: int, j: int, m: int): real
    requires |s| == n * n && 0 <= i < n && 0 <= j < n && -1 <= m <= 2
    decreases m + 1
  {
    if m == -1 then 0.0 else OffsetSum(s, n, i, j, m - 1) + ColumnSum(s, n, i, j, m - 1, 2)
  }

  /** How many offsets with dx below m the guards admit. */
  function OffsetCount(n: int, i: int, j: int, m: int): int
    requires -1 <= m <= 2
    decreases m + 1
  {
    if m == -1 then 0
    else
      OffsetCount(n, i, j, m - 1)
      + (if Admitted(n, i, j, m - 1, -1) then 1 else 0)
      + (if Admitted(n, i, j, m - 1, 0) then 1 else 0)
      + (if Admitted(n, i, j, m - 1, 1) then 1 else 0)
  }

  /**
   * The nine offsets of lines 185-196 add, for column i and row j, exactly
   * the temperatures of the in-grid orthogonal neighbours.
   */
  lemma OffsetsAreNeighbours(s: seq<GoNode>, n: int, i: int, j: int)
    requires |s| == n * n && 0 <= i < n && 0 <= j < n
    ensures 0 <= Idx(n, j, i) < n * n
    ensures OffsetSum(s, n, i, j, 2) == NeighbourTemps(s, n, Idx(n, j, i))
  {
    IdxBounds(n, j, i);
    RowCol(n, j, i);
    assert ColumnSum(s, n, i, j, -1, 2) == OffsetTerm(s, n, i, j, -1, 0);
    assert ColumnSum(s, n, i, j, 0, 2) == OffsetTerm(s, n, i, j, 0, -1) + OffsetTerm(s, n, i, j, 0, 1);
    assert ColumnSum(s, n, i, j, 1, 2) == OffsetTerm(s, n, i, j, 1, 0);
  }

  /** The guards of lines 187-192 admit as many offsets as the node has in-grid neighbours. */
  lemma OffsetCountIsNeighbors(n: int, i: int, j: int)
    requires 0 <= i < n && 0 <= j < n
    ensures OffsetCount(n, i, j, 2) == NeighborCount(n, j, i)
  {
  }

  /** Lines 186-196: the dy loop for offset dx of column i, row j. */
  method SquareColumnOffsets(a: array<GoNode>, n: int, i: int, j: int, dx: int, ghost s: seq<GoNode>)
    requires a.Length == n * n == |s| && 0 <= i < n && 0 <= j < n && -1 <= dx <= 1
    requires forall k :: 0 <= k < a.Length ==> a[k] == s[k].(TSum := a[k].TSum)
    modifies a
    ensures forall k :: 0 <= k < a.Length ==> a[k] == s[k].(TSum := a[k].TSum)
    ensures 0 <= Idx(n, j, i) < a.Length
    ensures a[Idx(n, j, i)].TSum == old(a[Idx(n, j, i)].TSum) + ColumnSum(s, n, i, j, dx, 2)
    ensures forall k :: 0 <= k < a.Length && k != Idx(n, j, i) ==> a[k] == old(a[k])
  {
    IdxBounds(n, j, i);
    for dy := -1 to 2
      invariant forall k :: 0 <= k < a.Length ==> a[k] == s[k].(TSum := a[k].TSum)
      invariant a[Idx(n, j, i)].TSum == old(a[Idx(n, j, i)].TSum) + ColumnSum(s, n, i, j, dx, dy)
      invariant forall k :: 0 <= k < a.Length && k != Idx(n, j, i) ==> a[k] == old(a[k])
    {
      if (dx == 0 && dy == 0) || (dx != 0 && dy != 0) {
        continue;
      }
      if (i + dx < 0) || (i + dx >= n) || (j + dy < 0) || (j + dy >= n) {
        continue;
      }
      AdmittedExactly(n, i, j, dx, dy);
      var idxA := j * n + i;
      var idxB := (j + dy) * n + (i + dx);
      assert idxA == Idx(n, j, i) && idxB == Idx(n, j + dy, i + dx);
      a[idxA] := a[idxA].(TSum := a[idxA].TSum + a[idxB].T);
    }
  }

  /** Lines 185-197: all offsets of column i, row j. */
  method SquareCell(a: array<GoNode>, n: int, i: int, j: int, ghost s: seq<GoNode>)
    requires a.Length == n * n == |s| && 0 <= i < n && 0 <= j < n
    requires forall k :: 0 <= k < a.Length ==> a[k] == s[k].(TSum := a[k].TSum)
    modifies a
    ensures forall k :: 0 <= k < a.Length ==> a[k] == s[k].(TSum := a[k].TSum)
    ensures 0 <= Idx(n, j, i) < a.Length
    ensures a[Idx(n, j, i)].TSum == old(a[Idx(n, j, i)].TSum) + NeighbourTemps(s, n, Idx(n, j, i))
    ensures forall k :: 0 <= k < a.Length && k != Idx(n, j, i) ==> a[k] == old(a[k])
  {
    IdxBounds(n, j, i);
    for dx := -1 to 2
      invariant forall k :: 0 <= k < a.Length ==> a[k] == s[k].(TSum := a[k].TSum)
      invariant a[Idx(n, j, i)].TSum == old(a[Idx(n, j, i)].TSum) + OffsetSum(s, n, i, j, dx)
      invariant forall k :: 0 <= k < a.Length && k != Idx(n, j, i) ==> a[k] == old(a[k])
    {
      SquareColumnOffsets(a, n, i, j, dx, s);
    }
    OffsetsAreNeighbours(s, n, i, j);
  }

  /** Node k of the square s after the accumulate phase: its TSum grows by its neighbours' T, fixed or not. */
  function SquareGathered(s: seq<GoNode>, n: int, k: int): GoNode
    requires n >= 1 && |s| == n * n && 0 <= k < |s|
  {
    s[k].(TSum := s[k].TSum + NeighbourTemps(s, n, k))
  }

  /** Lines 184-198: the j loop of column i. */
  method SquareColumn(a: array<GoNode>, n: int, i: int, ghost s: seq<GoNode>)
    requires n >= 1 && a.Length == n * n == |s| && 0 <= i < n
    requires forall k :: 0 <= k < a.Length ==> a[k] == s[k].(TSum := a[k].TSum)
    requires forall k :: 0 <= k < a.Length && k % n == i ==> a[k] == s[k]
    modifies a
    ensures forall k :: 0 <= k < a.Length ==> a[k] == s[k].(TSum := a[k].TSum)
    ensures forall k :: 0 <= k < a.Length && k % n == i ==> a[k] == SquareGathered(s, n, k)
    ensures forall k :: 0 <= k < a.Length && k % n != i ==> a[k] == old(a[k])
  {
    for j := 0 to n
      invariant forall k :: 0 <= k < a.Length ==> a[k] == s[k].(TSum := a[k].TSum)
      invariant forall k :: 0 <= k < a.Length && k % n == i && k / n < j ==> a[k] == SquareGathered(s, n, k)
      invariant forall k :: 0 <= k < a.Length && k % n == i && k / n >= j ==> a[k] == s[k]
      invariant forall k :: 0 <= k < a.Length && k % n != i ==> a[k] == old(a[k])
    {
      RowCol(n, j, i);
      SquareCell(a, n, i, j, s);
      forall k | 0 <= k < a.Length && k % n == i && k / n == j
        ensures a[k] == SquareGathered(s, n, k)
      {
        Decompose(n, k);
      }
    }
    CellsInGrid(n);
  }

  /** Lines 183-199: the square accumulate phase, column by column. */
  method SquareAccumulate(a: array<GoNode>, n: int)
    requires n >= 1 && a.Length == n * n
    modifies a
    ensures forall k :: 0 <= k < a.Length ==> a[k] == SquareGathered(old(a[..]), n, k)
  {
    ghost var s := a[..];
    for i := 0 to n
      invariant forall k :: 0 <= k < a.Length ==> a[k] == s[k].(TSum := a[k].TSum)
      invariant forall k :: 0 <= k < a.Length && k % n < i ==> a[k] == SquareGathered(s, n, k)
      invariant forall k :: 0 <= k < a.Length && k % n >= i ==> a[k] == s[k]
    {
      SquareColumn(a, n, i, s);
    }
    CellsInGrid(n);
  }

  /** Node k after one step of main's loop, on a bar (square false) or a square of side n. */
  function StepAt(s: seq<GoNode>, n: int, square: bool, k: int): GoNode
    requires Dividable(s) && 0 <= k < |s|
    requires if square then n >= 1 && |s| == n * n else |s| >= 2
  {
    var g := if square then SquareGathered(s, n, k) else BarGathered(s, k);
    TUpdate(g)
  }

  /** The mesh after one step. */
  function StepAll(s: seq<GoNode>, n: int, square: bool): (r: seq<GoNode>)
    requires Dividable(s)
    requires if square then n >= 1 && |s| == n * n else |s| >= 2
    ensures |r| == |s| && forall k :: 0 <= k < |s| ==> r[k] == StepAt(s, n, square, k)
  {
    seq(|s|, k requires 0 <= k < |s| => StepAt(s, n, square, k))
  }

  /** A step keeps every field but T and TSum, so a dividable mesh stays dividable. */
  lemma StepKeepsShape(s: seq<GoNode>, n: int, square: bool)
    requires Dividable(s)
    requires if square then n >= 1 && |s| == n * n else |s| >= 2
    ensures forall k :: 0 <= k < |s| ==>
              var r := StepAll(s, n, square)[k];
              r.X == s[k].X && r.Y == s[k].Y && r.Fixed == s[k].Fixed && r.Neighbors == s[k].Neighbors
    ensures Dividable(StepAll(s, n, square))
  {
  }

  /** The mesh after t steps. */
  function Steps(s: seq<GoNode>, n: int, square: bool, t: nat): (r: seq<GoNode>)
    requires Dividable(s)
    requires if square then n >= 1 && |s| == n * n else |s| >= 2
    ensures |r| == |s| && Dividable(r)
  {
    if t == 0 then s
    else
      var p := Steps(s, n, square, t - 1);
      StepKeepsShape(p, n, square);
      StepAll(p, n, square)
  }

  /** Lines 175-204: one pass of main's time-step loop. */
  method Step(a: array<GoNode>, n: int, square: bool)
    requires Dividable(a[..])
    requires if square then n >= 1 && a.Length == n * n else a.Length == n >= 2
    modifies a
    ensures a[..] == StepAll(old(a[..]), n, square)
  {
    ghost var s := a[..];
    if !square {
      BarAccumulate(a);
    } else {
      SquareAccumulate(a, n);
    }
    assert Dividable(a[..]) by {
      forall k | 0 <= k < a.Length
        ensures a[..][k].Fixed == s[k].Fixed && a[..][k].Neighbors == s[k].Neighbors
      {
      }
    }
    UpdateAll(a);
    assert a[..] == StepAll(s, n, square);
  }

  /** Lines 164-205 without the output: NSTEPS passes, here nsteps. */
  method Simulate(a: array<GoNode>, n: int, square: bool, nsteps: nat)
    requires Dividable(a[..])
    requires if square then n >= 1 && a.Length == n * n else a.Length == n >= 2
    modifies a
    ensures a[..] == Steps(old(a[..]), n, square, nsteps)
  {
    for t := 0 to nsteps
      invariant a[..] == Steps(old(a[..]), n, square, t)
    {
      Step(a, n, square);
    }
  }

  /**
   * One bar step on the bar InitBar lays out: the fixed ends keep their
   * nodes, and a free node k takes (TSum + T[k-1] + T[k+1]) / 2 of the
   * pre-step bar and clears TSum.
   */
  lemma BarStepOnBar(s: seq<GoNode>, k: int)
    requires IsBar(s) && |s| >= 2 && 0 <= k < |s|
    ensures Dividable(s)
    ensures s[k].Fixed ==> StepAt(s, |s|, false, k) == s[k]
    ensures !s[k].Fixed ==>
              0 < k < |s| - 1 &&
              StepAt(s, |s|, false, k) == s[k].(T := (s[k].TSum + s[k + 1].T + s[k - 1].T) / 2.0, TSum := 0.0)
  {
    if !s[k].Fixed {
      Reach(k, k + 1);
      Reach(k, k - 1);
    }
  }

  /** One bar step keeps the bar laid out and its ends unchanged, and leaves every free node with TSum 0. */
  lemma BarStepKeepsBar(p: seq<GoNode>)
    requires IsBar(p) && |p| >= 2
    ensures Dividable(p)
    ensures IsBar(StepAll(p, |p|, false))
    ensures StepAll(p, |p|, false)[0] == p[0] && StepAll(p, |p|, false)[|p| - 1] == p[|p| - 1]
    ensures forall k :: 0 < k < |p| - 1 ==> StepAll(p, |p|, false)[k].TSum == 0.0
  {
    var q := StepAll(p, |p|, false);
    StepKeepsShape(p, |p|, false);
    assert IsBar(q);
    forall k | 0 < k < |p| - 1
      ensures q[k].TSum == 0.0
    {
      BarStepOnBar(p, k);
    }
    BarStepOnBar(p, 0);
    BarStepOnBar(p, |p| - 1);
  }

  /**
   * Any number of bar steps from the laid-out bar: it stays laid out and
   * both ends keep their nodes.
   */
  lemma {:induction false} BarStepsKeepBar(s: seq<GoNode>, t: nat)
    requires IsBar(s) && |s| >= 2
    ensures Dividable(s)
    ensures IsBar(Steps(s, |s|, false, t))
    ensures Steps(s, |s|, false, t)[0] == s[0] && Steps(s, |s|, false, t)[|s| - 1] == s[|s| - 1]
  {
    BarStepKeepsBar(s);
    if t > 0 {
      var u: nat := t - 1;
      BarStepsKeepBar(s, u);
      var p := Steps(s, |s|, false, u);
      BarStepKeepsBar(p);
      assert Steps(s, |s|, false, t) == StepAll(p, |s|, false);
    }
  }

  /**
   * Once a bar step has run, every free node has TSum 0, so from then on
   * each step sets T[k] to the mean of T[k-1] and T[k+1].
   */
  lemma BarStepsClearSums(s: seq<GoNode>, t: nat)
    requires IsBar(s) && |s| >= 2 && t >= 1
    ensures Dividable(s)
    ensures forall k :: 0 < k < |s| - 1 ==> Steps(s, |s|, false, t)[k].TSum == 0.0
  {
    BarStepKeepsBar(s);
    BarStepsKeepBar(s, t - 1);
    var p := Steps(s, |s|, false, t - 1);
    BarStepKeepsBar(p);
    assert Steps(s, |s|, false, t) == StepAll(p, |s|, false);
  }

  /**
   * One square step: every node's TSum first grows by its neighbours' T,
   * fixed nodes included; a fixed node then keeps T (and the grown TSum),
   * while a free node takes (TSum + neighbours) / Neighbors and clears TSum.
   */
  lemma SquareStepCell(s: seq<GoNode>, n: int, k: int)
    requires Dividable(s) && n >= 1 && |s| == n * n && 0 <= k < |s|
    ensures s[k].Fixed ==> StepAt(s, n, true, k) == s[k].(TSum := s[k].TSum + NeighbourTemps(s, n, k))
    ensures !s[k].Fixed ==>
              StepAt(s, n, true, k).T * s[k].Neighbors as real == s[k].TSum + NeighbourTemps(s, n, k)
              && StepAt(s, n, true, k) == s[k].(T := StepAt(s, n, true, k).T, TSum := 0.0)
  {
  }

  /**
   * On the square InitSquare lays out, every node adds exactly Neighbors
   * terms in lines 185-196; and over any number of steps the layout
   * stays and every fixed node keeps its T.
   */
  lemma {:induction false} SquareStepsKeepSquare(s: seq<GoNode>, n: int, t: nat)
    requires n >= 1 && IsSquare(s, n) && Dividable(s)
    ensures forall k :: 0 <= k < |s| ==> OffsetCount(n, k % n, k / n, 2) == s[k].Neighbors
    ensures IsSquare(Steps(s, n, true, t), n)
    ensures forall k :: 0 <= k < |s| && s[k].Fixed ==> Steps(s, n, true, t)[k].T == s[k].T
  {
    forall k | 0 <= k < |s|
      ensures OffsetCount(n, k % n, k / n, 2) == s[k].Neighbors
    {
      Decompose(n, k);
      OffsetCountIsNeighbors(n, k % n, k / n);
    }
    if t > 0 {
      SquareStepsKeepSquare(s, n, t - 1);
      var p := Steps(s, n, true, t - 1);
      StepKeepsShape(p, n, true);
      forall k | 0 <= k < |s| && s[k].Fixed
        ensures Steps(s, n, true, t)[k].T == s[k].T
      {
        SquareStepCell(p, n, k);
      }
    }
  }
}
