/**
 * The time-step loop of novelShape/serial.cpp: every node (i, j) calls
 * apply_tsum with each of its in-grid orthogonal neighbours (up, down,
 * left, right, each guarded by a bounds test), then every node calls
 * tupdate with divisor 2 at a corner, 3 at an edge and 4 elsewhere.
 */
module NovelShapeSerial {
  import opened HeatNode
  import opened Grid
  import opened NovelShape

  /** Node t after one apply_tsum per index of srcs, in order, each reading the neighbour from s. */
  function PullFrom(t: Node, s: seq<Node>, srcs: seq<int>): (r: Node)
    requires IndicesIn(srcs, |s|)
    ensures r == t.(T_sum := r.T_sum)
    ensures t.fixed ==> r == t
    decreases |srcs|
  {
    if srcs == [] then t
    else ApplyTsum(PullFrom(t, s, srcs[..|srcs| - 1]), s[srcs[|srcs| - 1]])
  }

  /** The neighbour list of an in-grid cell indexes the n*n buffer. */
  lemma OrthogonalIn(n: int, i: int, j: int)
    requires 0 <= i < n && 0 <= j < n
    ensures IndicesIn(Orthogonal(n, i, j), n * n)
  {
    OrthogonalExactly(n, i, j);
    var r := Orthogonal(n, i, j);
    forall m | 0 <= m < |r|
      ensures 0 <= r[m] < n * n
    {
      assert r[m] in r;
    }
  }

  /** Node (i, j) of s after the accumulate phase: one call per in-grid orthogonal neighbour. */
  function GatheredAt(s: seq<Node>, n: int, i: int, j: int): Node
    requires |s| == n * n && 0 <= i < n && 0 <= j < n
  {
    IdxBounds(n, i, j);
    OrthogonalIn(n, i, j);
    PullFrom(s[Idx(n, i, j)], s, Orthogonal(n, i, j))
  }

  /** At most one guarded call: t takes s[src[0]] when src lists a neighbour, else stays. */
  function Stage(t: Node, s: seq<Node>, src: seq<int>): Node
    requires IndicesIn(src, |s|) && |src| <= 1
  {
    if src == [] then t else ApplyTsum(t, s[src[0]])
  }

  /** The neighbour of (i, j) in direction (di, dj), as a list of at most one index: empty when it leaves the grid. */
  function Side(n: int, i: int, j: int, di: int, dj: int): (r: seq<int>)
    requires 0 <= i < n && 0 <= j < n && -1 <= di <= 1 && -1 <= dj <= 1
    ensures |r| <= 1 && IndicesIn(r, n * n)
  {
    if 0 <= i + di < n && 0 <= j + dj < n then (IdxBounds(n, i + di, j + dj); [Idx(n, i + di, j + dj)]) else []
  }

  /**
   * Lines 59-66: node (i, j) after its four guarded calls, up, down, left
   * and right, each reading the neighbour from s.
   */
  function CellPull(s: seq<Node>, n: int, i: int, j: int): Node
    requires |s| == n * n && 0 <= i < n && 0 <= j < n
  {
    IdxBounds(n, i, j);
    var t := s[Idx(n, i, j)];
    Stage(Stage(Stage(Stage(t, s, Side(n, i, j, -1, 0)), s, Side(n, i, j, 1, 0)), s, Side(n, i, j, 0, -1)),
          s, Side(n, i, j, 0, 1))
  }

  /** Four sources of at most one index each, called in order, are four stages. */
  lemma {:induction false} PullFour(t: Node, s: seq<Node>, up: seq<int>, down: seq<int>, left: seq<int>, right: seq<int>)
    requires IndicesIn(up, |s|) && IndicesIn(down, |s|) && IndicesIn(left, |s|) && IndicesIn(right, |s|)
    requires |up| <= 1 && |down| <= 1 && |left| <= 1 && |right| <= 1
    ensures IndicesIn(up + down + left + right, |s|)
    ensures PullFrom(t, s, up + down + left + right)
            == Stage(Stage(Stage(Stage(t, s, up), s, down), s, left), s, right)
  {
    PullSnoc(t, s, [], up);
    assert [] + up == up;
    PullSnoc(t, s, up, down);
    PullSnoc(t, s, up + down, left);
    PullSnoc(t, s, up + down + left, right);
  }

  /** The four guarded calls are one call per in-grid orthogonal neighbour, in the order Orthogonal lists them. */
  lemma CellPullIsGathered(s: seq<Node>, n: int, i: int, j: int)
    requires |s| == n * n && 0 <= i < n && 0 <= j < n
    ensures CellPull(s, n, i, j) == GatheredAt(s, n, i, j)
  {
    IdxBounds(n, i, j);
    var up, down, left, right := Side(n, i, j, -1, 0), Side(n, i, j, 1, 0), Side(n, i, j, 0, -1), Side(n, i, j, 0, 1);
    assert Orthogonal(n, i, j) == up + down + left + right;
    PullFour(s[Idx(n, i, j)], s, up, down, left, right);
  }

  /** Appending at most one source is one more stage. */
  lemma PullSnoc(t: Node, s: seq<Node>, done: seq<int>, more: seq<int>)
    requires IndicesIn(done, |s|) && IndicesIn(more, |s|) && |more| <= 1
    ensures IndicesIn(done + more, |s|)
    ensures PullFrom(t, s, done + more) == Stage(PullFrom(t, s, done), s, more)
  {
    if more == [] {
      assert done + more == done;
    } else {
      assert (done + more)[..|done|] == done;
    }
  }

  /** Node k of s after the accumulate phase. */
  function Gathered(s: seq<Node>, n: int, k: int): Node
    requires n >= 1 && |s| == n * n && 0 <= k < |s|
  {
    Decompose(n, k);
    CellPull(s, n, k / n, k % n)
  }

  /** Lines 77-82: the divisor tupdate gets, 2 at a corner, else 3 at an edge, else 4. */
  function Divisor(t: Node): (r: real)
    ensures r == 2.0 || r == 3.0 || r == 4.0
  {
    if t.corner then 2.0 else if t.edge then 3.0 else 4.0
  }

  /** Node k after one step from s. */
  function ShapeStepAt(s: seq<Node>, n: int, k: int): Node
    requires n >= 1 && |s| == n * n && 0 <= k < |s|
  {
    var g := Gathered(s, n, k);
    TUpdate(g, Divisor(g))
  }

  /** The plate after one step from s. */
  function ShapeStepAll(s: seq<Node>, n: int): (r: seq<Node>)
    requires n >= 1 && |s| == n * n
    ensures |r| == |s| && forall k :: 0 <= k < |s| ==> r[k] == ShapeStepAt(s, n, k)
  {
    seq(|s|, k requires 0 <= k < |s| => ShapeStepAt(s, n, k))
  }

  /** The plate after t steps from s. */
  function ShapeSteps(s: seq<Node>, n: int, t: nat): (r: seq<Node>)
    requires n >= 1 && |s| == n * n
    ensures |r| == |s|
  {
    if t == 0 then s else ShapeStepAll(ShapeSteps(s, n, t - 1), n)
  }

  /**
   * One guarded call of lines 59-66: node c takes neighbour nb. Only T_sum
   * moves during the accumulate phase, so the neighbour still holds its
   * pre-step T and x, as in s.
   */
  method Pull(a: array<Node>, c: int, nb: int, ghost s: seq<Node>)
    requires a.Length == |s| && 0 <= c < a.Length && 0 <= nb < a.Length && nb != c
    requires forall k :: 0 <= k < a.Length ==> a[k].T == s[k].T && a[k].x == s[k].x
    modifies a
    ensures a[c] == ApplyTsum(old(a[c]), s[nb])
    ensures forall k :: 0 <= k < a.Length ==> a[k].T == s[k].T && a[k].x == s[k].x
    ensures forall k :: 0 <= k < a.Length && k != c ==> a[k] == old(a[k])
  {
    a[c] := ApplyTsum(a[c], a[nb]);
  }

  /** Lines 59-66: the four guarded calls for node (i, j). */
  method AccumulateCell(a: array<Node>, n: int, i: int, j: int, ghost s: seq<Node>)
    requires a.Length == n * n == |s| && 0 <= i < n && 0 <= j < n && 0 <= n * i && n * i + n <= a.Length
    requires forall k :: 0 <= k < a.Length ==> a[k].T == s[k].T && a[k].x == s[k].x
    requires a[Idx(n, i, j)] == s[Idx(n, i, j)]
    modifies a
    ensures forall k :: 0 <= k < a.Length ==> a[k].T == s[k].T && a[k].x == s[k].x
    ensures a[Idx(n, i, j)] == CellPull(s, n, i, j)
    ensures forall k :: 0 <= k < a.Length && k != Idx(n, i, j) ==> a[k] == old(a[k])
  {
    var c := Idx(n, i, j);
    if i - 1 >= 0 {
      IdxBounds(n, i - 1, j);
      Pull(a, c, Idx(n, i - 1, j), s);
    }
    if i + 1 < n {
      IdxBounds(n, i + 1, j);
      Pull(a, c, Idx(n, i + 1, j), s);
    }
    if j - 1 >= 0 {
      Pull(a, c, Idx(n, i, j - 1), s);
    }
    if j + 1 < n {
      Pull(a, c, Idx(n, i, j + 1), s);
    }
  }

  /** The plate after the accumulate phase from s, node by node. */
  function GatheredAll(s: seq<Node>, n: int): (r: seq<Node>)
    requires n >= 1 && |s| == n * n
    ensures |r| == |s| && forall k :: 0 <= k < |s| ==> r[k] == Gathered(s, n, k)
  {
    seq(|s|, k requires 0 <= k < |s| => Gathered(s, n, k))
  }

  /** Lines 57-67: the inner loop of the accumulate phase, row i; g is the accumulated plate. */
  method AccumulateRow(a: array<Node>, n: int, i: int, ghost s: seq<Node>, ghost g: seq<Node>)
    requires a.Length == n * n == |s| && 0 <= i < n && 0 <= n * i && n * i + n <= a.Length
    requires n >= 1 && g == GatheredAll(s, n)
    requires forall k :: 0 <= k < a.Length ==> a[k].T == s[k].T && a[k].x == s[k].x
    requires forall k :: n * i <= k < n * i + n ==> a[k] == s[k]
    modifies a
    ensures forall k :: 0 <= k < a.Length ==> a[k].T == s[k].T && a[k].x == s[k].x
    ensures forall k :: n * i <= k < n * i + n ==> a[k] == g[k]
    ensures forall k :: 0 <= k < a.Length && !(n * i <= k < n * i + n) ==> a[k] == old(a[k])
  {
    for j := 0 to n
      invariant forall k :: 0 <= k < a.Length ==> a[k].T == s[k].T && a[k].x == s[k].x
      invariant forall k :: n * i <= k < n * i + j ==> a[k] == g[k]
      invariant forall k :: n * i + j <= k < n * i + n ==> a[k] == s[k]
      invariant forall k :: 0 <= k < a.Length && !(n * i <= k < n * i + n) ==> a[k] == old(a[k])
    {
      AccumulateCell(a, n, i, j, s);
      RowCol(n, i, j);
      assert g[Idx(n, i, j)] == CellPull(s, n, i, j);
    }
  }

  /** Lines 55-68: the accumulate phase. */
  method AccumulateAll(a: array<Node>, n: int)
    requires n >= 1 && a.Length == n * n
    modifies a
    ensures a[..] == GatheredAll(old(a[..]), n)
  {
    ghost var s := a[..];
    ghost var g := GatheredAll(s, n);
    for i := 0 to n
      invariant 0 <= n * i <= a.Length
      invariant forall k :: 0 <= k < a.Length ==> a[k].T == s[k].T && a[k].x == s[k].x
      invariant forall k :: 0 <= k < n * i ==> a[k] == g[k]
      invariant forall k :: n * i <= k < a.Length ==> a[k] == s[k]
    {
      assert n * i + n == n * (i + 1) <= a.Length by { MulLeftMono(n, i + 1, n); }
      AccumulateRow(a, n, i, s, g);
    }
    assert a[..] == g;
  }

  /** Lines 75-83: the inner loop of the update phase, row i. */
  method UpdateRow(a: array<Node>, n: int, i: int)
    requires n >= 1 && 0 <= i && n * i + n <= a.Length && 0 <= n * i
    modifies a
    ensures forall k :: n * i <= k < n * i + n ==> a[k] == TUpdate(old(a[k]), Divisor(old(a[k])))
    ensures forall k :: 0 <= k < a.Length && !(n * i <= k < n * i + n) ==> a[k] == old(a[k])
  {
    for j := 0 to n
      invariant forall k :: n * i <= k < n * i + j ==> a[k] == TUpdate(old(a[k]), Divisor(old(a[k])))
      invariant forall k :: 0 <= k < a.Length && !(n * i <= k < n * i + j) ==> a[k] == old(a[k])
    {
      var c := i * n + j;
      if a[c].corner {
        a[c] := TUpdate(a[c], 2.0);
      } else if a[c].edge {
        a[c] := TUpdate(a[c], 3.0);
      } else {
        a[c] := TUpdate(a[c], 4.0);
      }
    }
  }

  /** Lines 73-85: the update phase. */
  method UpdateAll(a: array<Node>, n: int)
    requires n >= 1 && a.Length == n * n
    modifies a
    ensures forall k :: 0 <= k < a.Length ==> a[k] == TUpdate(old(a[k]), Divisor(old(a[k])))
  {
    for i := 0 to n
      invariant 0 <= n * i <= a.Length
      invariant forall k :: 0 <= k < n * i ==> a[k] == TUpdate(old(a[k]), Divisor(old(a[k])))
      invariant forall k :: n * i <= k < a.Length ==> a[k] == old(a[k])
    {
      assert n * i + n == n * (i + 1) <= a.Length by { MulLeftMono(n, i + 1, n); }
      UpdateRow(a, n, i);
    }
  }

  /** Lines 55-85, one pass of the time-step loop. */
  method ShapeStep(a: array<Node>, n: int)
    requires n >= 1 && a.Length == n * n
    modifies a
    ensures forall k :: 0 <= k < a.Length ==> a[k] == ShapeStepAt(old(a[..]), n, k)
  {
    AccumulateAll(a, n);
    UpdateAll(a, n);
  }

  /** Lines 50-95 without the output: nsteps time steps. */
  method ShapeSimulate(a: array<Node>, n: int, nsteps: nat)
    requires n >= 1 && a.Length == n * n
    modifies a
    ensures a[..] == ShapeSteps(old(a[..]), n, nsteps)
  {
    for t := 0 to nsteps
      invariant a[..] == ShapeSteps(old(a[..]), n, t)
    {
      ghost var before := a[..];
      ShapeStep(a, n);
      assert a[..] == ShapeStepAll(before, n);
    }
  }

  /** Sum of the temperatures of the nodes s[src] in srcs that lie in the cavity exactly when cav holds. */
  function SideSum(s: seq<Node>, srcs: seq<int>, cav: bool): real
    requires IndicesIn(srcs, |s|)
    decreases |srcs|
  {
    if srcs == [] then 0.0
    else
      var last := s[srcs[|srcs| - 1]];
      SideSum(s, srcs[..|srcs| - 1], cav) + (if (last.x == CavityX) == cav then last.T else 0.0)
  }

  /** Every node of s is either solid (0 <= x <= 1) or in the cavity (x = -100). */
  predicate Laid(s: seq<Node>)
  {
    forall k :: 0 <= k < |s| ==> s[k].x == CavityX || 0.0 <= s[k].x <= 1.0
  }

  /**
   * A free node of a laid-out plate gathers exactly the temperatures of
   * those listed neighbours on its own side of the cavity wall.
   */
  lemma {:induction false} PullFromSides(t: Node, s: seq<Node>, srcs: seq<int>)
    requires IndicesIn(srcs, |s|) && Laid(s) && !t.fixed
    requires t.x == CavityX || 0.0 <= t.x <= 1.0
    ensures PullFrom(t, s, srcs).T_sum == t.T_sum + SideSum(s, srcs, t.x == CavityX)
    decreases |srcs|
  {
    if srcs != [] {
      var init := srcs[..|srcs| - 1];
      PullFromSides(t, s, init);
      SidesDoNotMix(PullFrom(t, s, init), s[srcs[|srcs| - 1]]);
    }
  }

  /**
   * One step: a fixed node keeps its node; a free node keeps its position
   * and flags, clears T_sum and takes the sum it gathered divided by 2 at a
   * corner, 3 at an edge and 4 elsewhere.
   */
  lemma ShapeStepCell(s: seq<Node>, n: int, k: int)
    requires n >= 1 && |s| == n * n && 0 <= k < |s|
    ensures s[k].fixed ==> ShapeStepAt(s, n, k) == s[k]
    ensures !s[k].fixed ==>
              ShapeStepAt(s, n, k) == s[k].(T := Gathered(s, n, k).T_sum / Divisor(s[k]), T_sum := 0.0)
  {
    Decompose(n, k);
  }

  /** Sum, over the in-grid orthogonal neighbours of node k, of those on the side of the cavity wall given by cav. */
  function NeighbourSideSum(s: seq<Node>, n: int, k: int, cav: bool): real
    requires n >= 1 && |s| == n * n && 0 <= k < |s|
  {
    Decompose(n, k);
    OrthogonalIn(n, k / n, k % n);
    SideSum(s, Orthogonal(n, k / n, k % n), cav)
  }

  /**
   * On a laid-out plate a free node k gathers its pre-step T_sum plus the
   * temperatures of its in-grid orthogonal neighbours on its own side of
   * the cavity wall: a solid node never takes a cavity node's T.
   */
  lemma GatheredOnSides(s: seq<Node>, n: int, k: int)
    requires n >= 1 && |s| == n * n && 0 <= k < |s|
    requires Laid(s) && !s[k].fixed
    ensures Gathered(s, n, k).T_sum == s[k].T_sum + NeighbourSideSum(s, n, k, s[k].x == CavityX)
  {
    Decompose(n, k);
    OrthogonalIn(n, k / n, k % n);
    CellPullIsGathered(s, n, k / n, k % n);
    PullFromSides(s[k], s, Orthogonal(n, k / n, k % n));
  }

  /**
   * Over any number of steps every node keeps its position and flags, so
   * the cavity, the divisors and the saved selection never change, and
   * every fixed node keeps its temperature.
   */
  lemma {:induction false} ShapeStepsKeepLayout(s: seq<Node>, n: int, t: nat)
    requires n >= 1 && |s| == n * n
    ensures forall k :: 0 <= k < |s| ==>
              var r := ShapeSteps(s, n, t)[k];
              r.x == s[k].x && r.y == s[k].y && r.fixed == s[k].fixed && r.edge == s[k].edge
              && r.corner == s[k].corner && (s[k].fixed ==> r == s[k])
  {
    if t > 0 {
      ShapeStepsKeepLayout(s, n, t - 1);
      var p := ShapeSteps(s, n, t - 1);
      forall k | 0 <= k < |s|
        ensures var r := ShapeSteps(s, n, t)[k];
              r.x == s[k].x && r.y == s[k].y && r.fixed == s[k].fixed && r.edge == s[k].edge
              && r.corner == s[k].corner && (s[k].fixed ==> r == s[k])
      {
        ShapeStepCell(p, n, k);
      }
    }
  }

  /**
   * On the plate init_bar lays out, tupdate divides by 2 exactly at the
   * four corners, by 3 on the rest of the border and the rim of the
   * cavity, and by 4 everywhere else.
   */
  lemma ShapeDivisor(o: Node, n: int, i: int, j: int, ltem: real, rtem: real)
    requires n >= 10 && 0 <= i < n && 0 <= j < n
    ensures var d := Divisor(ShapeNode(o, n, i, j, ltem, rtem));
      && (d == 2.0 <==> IsCorner(n, i, j))
      && (d == 3.0 <==> !IsCorner(n, i, j) && (OnBorder(n, i, j) || OnRim(n, i, j)))
      && (d == 4.0 <==> !OnBorder(n, i, j) && !OnRim(n, i, j))
  {
    ShapeCell(o, n, i, j, ltem, rtem);
  }
}
