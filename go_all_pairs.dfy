/**
 * golang/serial.go: the all-pairs variant of the Go solver. ApplyTsum
 * measures both the x and the y distance, InitBar pins the node at the
 * global meshPts - 1, and each step lets every node call ApplyTsum with
 * every other node of the mesh before the TUpdate sweep.
 */
module GoAllPairs {
  import opened Grid
  import opened GoMesh
  import HeatNode
  import GoSerial

  /** The guard of line 96: the two lie less than dX + EPS apart along one axis and level along the other. */
  predicate InReach(t: GoNode, nb: GoNode)
  {
    var xDist := HeatNode.Abs(t.X - nb.X);
    var yDist := HeatNode.Abs(t.Y - nb.Y);
    (xDist < DX + EPS && yDist == 0.0) || (yDist < DX + EPS && xDist == 0.0)
  }

  /**
   * Lines 88-99: ApplyTsum takes the neighbour by value; a free node adds
   * its T when it is in reach, a fixed node is untouched, and only TSum
   * can move.
   */
  function ApplyTsum(t: GoNode, nb: GoNode): (r: GoNode)
    ensures t.Fixed ==> r == t
    ensures r == t.(TSum := r.TSum)
    ensures r.TSum == if !t.Fixed && InReach(t, nb) then t.TSum + nb.T else t.TSum
  {
    if t.Fixed then t
    else if InReach(t, nb) then t.(TSum := t.TSum + nb.T)
    else t
  }

  /**
   * On the positions InitSquare gives (column c at c*dX, row r at r*dY,
   * and dX = dY), two distinct nodes are in reach exactly when they are
   * orthogonally adjacent on the grid.
   */
  lemma SquareReach(s: seq<GoNode>, n: int, k: int, m: int)
    requires n >= 1 && IsSquare(s, n) && 0 <= k < |s| && 0 <= m < |s| && k != m
    ensures 0 <= k / n < n && 0 <= k % n < n && 0 <= m / n < n && 0 <= m % n < n
    ensures InReach(s[k], s[m]) <==> Adjacent(k / n, k % n, m / n, m % n)
  {
    Decompose(n, k);
    Decompose(n, m);
    Reach(k % n, m % n);
    Reach(k / n, m / n);
    assert s[k].X - s[m].X == (k % n - m % n) as real * DX;
    assert s[k].Y - s[m].Y == (k / n - m / n) as real * DY;
  }

  /** Node t after ApplyTsum with s[0], ..., s[m-1] in order, skipping index i (lines 123-128). */
  function Pulled(t: GoNode, s: seq<GoNode>, i: int, m: int): (r: GoNode)
    requires 0 <= m <= |s|
    ensures r == t.(TSum := r.TSum)
    ensures t.Fixed ==> r == t
  {
    if m == 0 then t
    else
      var p := Pulled(t, s, i, m - 1);
      if m - 1 == i then p else ApplyTsum(p, s[m - 1])
  }

  /** Node i of s after the accumulate phase: ApplyTsum with every other node. */
  function Gathered(s: seq<GoNode>, i: int): GoNode
    requires 0 <= i < |s|
  {
    Pulled(s[i], s, i, |s|)
  }

  /** Lines 123-128: the inner loop for node i; the copy nodeB holds the current node j, whose T and position are pre-step. */
  method PullAll(a: array<GoNode>, i: int, ghost s: seq<GoNode>)
    requires a.Length == |s| && 0 <= i < a.Length && a[i] == s[i]
    requires forall k :: 0 <= k < a.Length ==> a[k] == s[k].(TSum := a[k].TSum)
    modifies a
    ensures a[i] == Gathered(s, i)
    ensures forall k :: 0 <= k < a.Length && k != i ==> a[k] == old(a[k])
  {
    for j := 0 to a.Length
      invariant a[i] == Pulled(s[i], s, i, j)
      invariant forall k :: 0 <= k < a.Length && k != i ==> a[k] == old(a[k])
    {
      if i == j {
        continue;
      }
      var nodeB := a[j];
      a[i] := ApplyTsum(a[i], nodeB);
    }
  }

  /** Lines 122-129: the accumulate phase. */
  method Accumulate(a: array<GoNode>)
    modifies a
    ensures forall k :: 0 <= k < a.Length ==> a[k] == Gathered(old(a[..]), k)
  {
    ghost var s := a[..];
    for i := 0 to a.Length
      invariant forall k :: 0 <= k < i ==> a[k] == Gathered(s, k)
      invariant forall k :: i <= k < a.Length ==> a[k] == s[k]
    {
      PullAll(a, i, s);
    }
  }

  /** Node k after one step from s. */
  function StepAt(s: seq<GoNode>, k: int): GoNode
    requires Dividable(s) && 0 <= k < |s|
  {
    TUpdate(Gathered(s, k))
  }

  /** The mesh after one step; only T and TSum move, so it stays dividable. */
  function StepAll(s: seq<GoNode>): (r: seq<GoNode>)
    requires Dividable(s)
    ensures |r| == |s| && forall k :: 0 <= k < |s| ==> r[k] == StepAt(s, k)
    ensures forall k :: 0 <= k < |s| ==>
              r[k].X == s[k].X && r[k].Y == s[k].Y && r[k].Fixed == s[k].Fixed && r[k].Neighbors == s[k].Neighbors
    ensures Dividable(r)
  {
    seq(|s|, k requires 0 <= k < |s| => StepAt(s, k))
  }

  /** The mesh after t steps. */
  function Steps(s: seq<GoNode>, t: nat): (r: seq<GoNode>)
    requires Dividable(s)
    ensures |r| == |s| && Dividable(r)
  {
    if t == 0 then s else StepAll(Steps(s, t - 1))
  }

  /** Lines 122-133: one pass of main's time-step loop. */
  method Step(a: array<GoNode>)
    requires Dividable(a[..])
    modifies a
    ensures a[..] == StepAll(old(a[..]))
  {
    ghost var s := a[..];
    Accumulate(a);
    assert forall k :: 0 <= k < a.Length ==> a[..][k] == s[k].(TSum := a[..][k].TSum);
    UpdateAll(a);
    assert a[..] == StepAll(s);
  }

  /** Lines 121-134: NSTEPS passes, here nsteps. */
  method Simulate(a: array<GoNode>, nsteps: nat)
    requires Dividable(a[..])
    modifies a
    ensures a[..] == Steps(old(a[..]), nsteps)
  {
    for t := 0 to nsteps
      invariant a[..] == Steps(old(a[..]), t)
    {
      Step(a);
    }
  }

  /** Over any number of steps every fixed node keeps its node, and every node its position, flag and count. */
  lemma {:induction false} StepsKeepFixed(s: seq<GoNode>, t: nat)
    requires Dividable(s)
    ensures forall k :: 0 <= k < |s| ==>
              var r := Steps(s, t)[k];
              r.X == s[k].X && r.Y == s[k].Y && r.Fixed == s[k].Fixed && r.Neighbors == s[k].Neighbors
              && (s[k].Fixed ==> r == s[k])
  {
    if t > 0 {
      StepsKeepFixed(s, t - 1);
    }
  }

  /** The temperature of node x when x is below m, else nothing. */
  function TempBelow(s: seq<GoNode>, x: int, m: int): real
  {
    if 0 <= x < m && x < |s| then s[x].T else 0.0
  }

  /**
   * The in-grid orthogonal neighbours of node k (row k/n, column k%n) whose
   * index is below m: the part of NeighbourTemps the first m iterations
   * of the j loop can have added.
   */
  function NeighboursBelow(s: seq<GoNode>, n: int, k: int, m: int): real
    requires n >= 1
  {
    (if k / n > 0 then TempBelow(s, k - n, m) else 0.0)
    + (if k / n < n - 1 then TempBelow(s, k + n, m) else 0.0)
    + (if k % n > 0 then TempBelow(s, k - 1, m) else 0.0)
    + (if k % n < n - 1 then TempBelow(s, k + 1, m) else 0.0)
  }

  /** Node m is one of the four guarded indices of NeighboursBelow exactly when it is orthogonally adjacent to node k. */
  lemma AdjacentByIndex(n: int, k: int, m: int)
    requires n >= 1 && 0 <= k < n * n && 0 <= m < n * n
    ensures 0 <= k / n < n && 0 <= k % n < n && 0 <= m / n < n && 0 <= m % n < n
    ensures Adjacent(k / n, k % n, m / n, m % n) <==>
              (k / n > 0 && m == k - n) || (k / n < n - 1 && m == k + n)
              || (k % n > 0 && m == k - 1) || (k % n < n - 1 && m == k + 1)
  {
    Decompose(n, k);
    Decompose(n, m);
    var r, c, p, q := k / n, k % n, m / n, m % n;
    OrthogonalExactly(n, r, c);
    assert m in Orthogonal(n, r, c) <==> Adjacent(r, c, p, q) by {
      assert Idx(n, p, q) == m;
    }
    OrthogonalMembers(n, r, c, m);
  }

  /** Index x is listed by Orthogonal(n, i, j) exactly when it is one of the four guarded shifts of Idx(n, i, j). */
  lemma OrthogonalMembers(n: int, i: int, j: int, x: int)
    requires 0 <= i < n && 0 <= j < n
    ensures x in Orthogonal(n, i, j) <==>
              (i > 0 && x == Idx(n, i, j) - n) || (i < n - 1 && x == Idx(n, i, j) + n)
              || (j > 0 && x == Idx(n, i, j) - 1) || (j < n - 1 && x == Idx(n, i, j) + 1)
  {
    Shifts(n, i, j);
  }

  /** Index m adds to NeighboursBelow exactly when it is orthogonally adjacent to k. */
  lemma NeighboursBelowStep(s: seq<GoNode>, n: int, k: int, m: int)
    requires n >= 1 && |s| == n * n && 0 <= k < |s| && 0 <= m < |s|
    ensures 0 <= k / n < n && 0 <= k % n < n && 0 <= m / n < n && 0 <= m % n < n
    ensures NeighboursBelow(s, n, k, m + 1)
            == NeighboursBelow(s, n, k, m) + (if Adjacent(k / n, k % n, m / n, m % n) then s[m].T else 0.0)
  {
    AdjacentByIndex(n, k, m);
  }

  /** With every index below m = n*n, NeighboursBelow is NeighbourTemps. */
  lemma NeighboursBelowAll(s: seq<GoNode>, n: int, k: int)
    requires n >= 1 && |s| == n * n && 0 <= k < |s|
    ensures NeighboursBelow(s, n, k, |s|) == NeighbourTemps(s, n, k)
  {
    Decompose(n, k);
    var r, c := k / n, k % n;
    Shifts(n, r, c);
    if r > 0 { IdxBounds(n, r - 1, c); }
    if r < n - 1 { IdxBounds(n, r + 1, c); }
    SameTerm(s, r > 0, k - n, Idx(n, r - 1, c));
    SameTerm(s, r < n - 1, k + n, Idx(n, r + 1, c));
    SameTerm(s, c > 0, k - 1, Idx(n, r, c - 1));
    SameTerm(s, c < n - 1, k + 1, Idx(n, r, c + 1));
  }

  /** One guarded term of NeighboursBelow at m = |s| and of NeighbourTemps, for the same index. */
  lemma SameTerm(s: seq<GoNode>, present: bool, x: int, y: int)
    requires x == y && (present ==> 0 <= y < |s|)
    ensures (if present then TempBelow(s, x, |s|) else 0.0) == (if present then s[y].T else 0.0)
  {
  }

  /** The first m iterations of the j loop of a free node k of the laid-out square add exactly its neighbours below m. */
  lemma {:induction false} PulledBelow(s: seq<GoNode>, n: int, k: int, m: int)
    requires n >= 1 && IsSquare(s, n) && 0 <= k < |s| && !s[k].Fixed && 0 <= m <= |s|
    ensures Pulled(s[k], s, k, m).TSum == s[k].TSum + NeighboursBelow(s, n, k, m)
  {
    if m > 0 {
      PulledBelow(s, n, k, m - 1);
      NeighboursBelowStep(s, n, k, m - 1);
      PulledStep(s, k, m - 1);
      AddedIffAdjacent(s, n, k, m - 1);
    }
  }

  /** What iteration j adds to a free node k of the square is what NeighboursBelow gains at j. */
  lemma AddedIffAdjacent(s: seq<GoNode>, n: int, k: int, j: int)
    requires n >= 1 && IsSquare(s, n) && 0 <= k < |s| && 0 <= j < |s|
    ensures 0 <= k / n < n && 0 <= k % n < n && 0 <= j / n < n && 0 <= j % n < n
    ensures (j != k && InReach(s[k], s[j])) == Adjacent(k / n, k % n, j / n, j % n)
  {
    Decompose(n, k);
    Decompose(n, j);
    if j == k {
      assert !Adjacent(k / n, k % n, k / n, k % n);
    } else {
      SquareReach(s, n, k, j);
    }
  }

  /** Iteration j of the inner loop adds s[j].T to a free node k exactly when j is another node in reach. */
  lemma PulledStep(s: seq<GoNode>, k: int, j: int)
    requires 0 <= k < |s| && !s[k].Fixed && 0 <= j < |s|
    ensures Pulled(s[k], s, k, j + 1).TSum
            == Pulled(s[k], s, k, j).TSum + (if j != k && InReach(s[k], s[j]) then s[j].T else 0.0)
  {
    var p := Pulled(s[k], s, k, j);
    assert InReach(p, s[j]) == InReach(s[k], s[j]);
  }

  /**
   * Lines 121-129 on the square InitSquare lays out: the all-pairs loop
   * skips the node itself, so a free node gathers exactly its in-grid
   * orthogonal neighbours' temperatures, Neighbors of them.
   */
  lemma GatheredOnSquare(s: seq<GoNode>, n: int, k: int)
    requires n >= 1 && IsSquare(s, n) && 0 <= k < |s| && !s[k].Fixed
    ensures Gathered(s, k).TSum == s[k].TSum + NeighbourTemps(s, n, k)
    ensures Gathered(s, k) == s[k].(TSum := Gathered(s, k).TSum)
  {
    PulledBelow(s, n, k, |s|);
    NeighboursBelowAll(s, n, k);
  }

  /**
   * One step on the laid-out square: a fixed node keeps its node, and a
   * free node k takes (TSum + its neighbours' T) / Neighbors and clears TSum.
   */
  lemma StepOnSquare(s: seq<GoNode>, n: int, k: int)
    requires n >= 1 && IsSquare(s, n) && Dividable(s) && 0 <= k < |s|
    ensures s[k].Fixed ==> StepAt(s, k) == s[k]
    ensures !s[k].Fixed ==>
              StepAt(s, k).T * s[k].Neighbors as real == s[k].TSum + NeighbourTemps(s, n, k)
              && StepAt(s, k) == s[k].(T := StepAt(s, k).T, TSum := 0.0)
  {
    if !s[k].Fixed {
      GatheredOnSquare(s, n, k);
      FreeStep(s, k, NeighbourTemps(s, n, k));
    }
  }

  /** A free node whose accumulate phase added sum takes (TSum + sum) / Neighbors and clears TSum. */
  lemma FreeStep(s: seq<GoNode>, k: int, sum: real)
    requires Dividable(s) && 0 <= k < |s| && !s[k].Fixed
    requires Gathered(s, k) == s[k].(TSum := s[k].TSum + sum)
    ensures StepAt(s, k).T * s[k].Neighbors as real == s[k].TSum + sum
    ensures StepAt(s, k) == s[k].(T := StepAt(s, k).T, TSum := 0.0)
  {
  }

  /** Over any number of steps the laid-out square stays laid out. */
  lemma StepsKeepSquare(s: seq<GoNode>, n: int, t: nat)
    requires n >= 1 && IsSquare(s, n) && Dividable(s)
    ensures IsSquare(Steps(s, t), n)
  {
    StepsKeepFixed(s, t);
  }

  /**
   * a and b hold the same mesh and the same temperatures, and differ at
   * most in the TSum of fixed nodes, which no step reads.
   */
  predicate SameTemps(a: seq<GoNode>, b: seq<GoNode>)
  {
    |a| == |b| &&
    forall k :: 0 <= k < |a| ==> a[k] == b[k].(TSum := a[k].TSum) && (!a[k].Fixed ==> a[k].TSum == b[k].TSum)
  }

  /** NeighbourTemps reads only the temperatures. */
  lemma NeighbourTempsReadsT(a: seq<GoNode>, b: seq<GoNode>, n: int, k: int)
    requires n >= 1 && |a| == n * n && SameTemps(a, b) && 0 <= k < |a|
    ensures NeighbourTemps(a, n, k) == NeighbourTemps(b, n, k)
  {
    Decompose(n, k);
    var r, c := k / n, k % n;
    if r > 0 { IdxBounds(n, r - 1, c); }
    if r < n - 1 { IdxBounds(n, r + 1, c); }
    IdxBounds(n, r, c);
    if c > 0 { IdxBounds(n, r, c - 1); }
    if c < n - 1 { IdxBounds(n, r, c + 1); }
  }

  /** Node k after one step here and after one step of golang/serial/serial.go on the same square. */
  lemma StepCellMatchesSerial(a: seq<GoNode>, b: seq<GoNode>, n: int, k: int)
    requires n >= 1 && IsSquare(a, n) && Dividable(a) && Dividable(b) && SameTemps(a, b) && 0 <= k < |a|
    ensures StepAt(a, k) == GoSerial.StepAt(b, n, true, k).(TSum := StepAt(a, k).TSum)
    ensures !a[k].Fixed ==> StepAt(a, k) == GoSerial.StepAt(b, n, true, k)
  {
    if !a[k].Fixed {
      GatheredOnSquare(a, n, k);
      NeighbourTempsReadsT(a, b, n, k);
      assert Gathered(a, k) == GoSerial.SquareGathered(b, n, k);
    }
  }

  /**
   * On the square, this program and golang/serial/serial.go keep the same
   * meshes at every step, up to the TSum that a fixed node collects in the
   * latter, which is never read.
   */
  lemma {:induction false} StepsMatchSerial(s: seq<GoNode>, n: int, t: nat)
    requires n >= 1 && IsSquare(s, n) && Dividable(s)
    ensures SameTemps(Steps(s, t), GoSerial.Steps(s, n, true, t))
  {
    if t > 0 {
      var u: nat := t - 1;
      StepsMatchSerial(s, n, u);
      assert SameTemps(Steps(s, u), GoSerial.Steps(s, n, true, u));
      NextStepMatchesSerial(s, n, u);
    }
  }

  /** If the two programs agree after t steps, they agree after t + 1. */
  lemma NextStepMatchesSerial(s: seq<GoNode>, n: int, t: nat)
    requires n >= 1 && IsSquare(s, n) && Dividable(s)
    requires SameTemps(Steps(s, t), GoSerial.Steps(s, n, true, t))
    ensures SameTemps(Steps(s, t + 1), GoSerial.Steps(s, n, true, t + 1))
  {
    StepsKeepSquare(s, n, t);
    StepMatchesSerial(Steps(s, t), GoSerial.Steps(s, n, true, t), n);
  }

  /** Hence both programs print the same temperatures for every node after any number of steps. */
  lemma SerialTemperaturesAgree(s: seq<GoNode>, n: int, t: nat)
    requires n >= 1 && IsSquare(s, n) && Dividable(s)
    ensures forall k :: 0 <= k < |s| ==> Steps(s, t)[k].T == GoSerial.Steps(s, n, true, t)[k].T
  {
    StepsMatchSerial(s, n, t);
  }

  /** One step here and one step of golang/serial/serial.go keep two meshes with the same temperatures in step. */
  lemma StepMatchesSerial(a: seq<GoNode>, b: seq<GoNode>, n: int)
    requires n >= 1 && IsSquare(a, n) && Dividable(a) && Dividable(b) && SameTemps(a, b)
    ensures SameTemps(StepAll(a), GoSerial.StepAll(b, n, true))
  {
    forall k | 0 <= k < |a|
      ensures StepAll(a)[k] == GoSerial.StepAll(b, n, true)[k].(TSum := StepAll(a)[k].TSum)
      ensures !StepAll(a)[k].Fixed ==> StepAll(a)[k].TSum == GoSerial.StepAll(b, n, true)[k].TSum
    {
      StepCellMatchesSerial(a, b, n, k);
    }
  }

  /** Node k of the bar InitBar returns in this program: the node at meshPts - 1 is pinned, and no node sets Neighbors. */
  function GlobalBarNode(n: int, meshPts: int, k: int, leftTemp: real, rightTemp: real): GoNode
  {
    if k == meshPts - 1 then GoNode(rightTemp, 0.0, k as real * DX, 0.0, true, 0)
    else if k == 0 then GoNode(leftTemp, 0.0, 0.0, 0.0, true, 0)
    else GoNode(TDefault, 0.0, k as real * DX, 0.0, false, 0)
  }

  /**
   * Lines 33-48: InitBar pins nodes[meshPts-1], the global set by SetLen,
   * rather than nodes[n-1]; Go panics unless that index is inside the slice.
   */
  method InitBar(n: int, meshPts: int, leftTemp: real, rightTemp: real) returns (nodes: array<GoNode>)
    requires 1 <= n && 1 <= meshPts <= n
    ensures fresh(nodes) && nodes.Length == n
    ensures forall k :: 0 <= k < n ==> nodes[k] == GlobalBarNode(n, meshPts, k, leftTemp, rightTemp)
  {
    nodes := new GoNode[n](_ => Zero);
    for k := 0 to n
      invariant forall m :: 0 <= m < k ==> nodes[m] == GoNode(TDefault, 0.0, m as real * DX, 0.0, false, 0)
      invariant forall m :: k <= m < n ==> nodes[m] == Zero
    {
      nodes[k] := nodes[k].(T := TDefault, TSum := 0.0, X := k as real * DX, Y := 0.0, Fixed := false);
    }
    nodes[0] := FixTemp(nodes[0], leftTemp);
    nodes[meshPts - 1] := FixTemp(nodes[meshPts - 1], rightTemp);
  }

  /**
   * When meshPts = n, as main arranges, InitBar pins exactly nodes 0 and
   * n-1; when meshPts < n it pins node meshPts-1 and leaves node n-1
   * free. Either way every Neighbors stays 0, so once the bar has a free
   * node TUpdate would divide by zero.
   */
  lemma GlobalBarLayout(s: seq<GoNode>, meshPts: int, leftTemp: real, rightTemp: real)
    requires 2 <= |s| && 1 <= meshPts <= |s|
    requires forall k :: 0 <= k < |s| ==> s[k] == GlobalBarNode(|s|, meshPts, k, leftTemp, rightTemp)
    ensures meshPts == |s| ==> forall k :: 0 <= k < |s| ==> (s[k].Fixed <==> k == 0 || k == |s| - 1)
    ensures meshPts < |s| ==> s[meshPts - 1].Fixed && !s[|s| - 1].Fixed
    ensures forall k :: 0 <= k < |s| ==> s[k].Neighbors == 0
    ensures |s| >= 3 ==> !Dividable(s)
  {
    if |s| >= 3 {
      var k := if meshPts == 2 then 2 else 1;
      assert !s[k].Fixed && s[k].Neighbors == 0;
    }
  }
}
