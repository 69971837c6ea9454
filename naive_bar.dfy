/**
 * The one-dimensional bar of heatGen/twoD/common_naive.cpp: init_bar lays
 * out n nodes dx apart with fixed ends, apply_tsum lets a node take the
 * temperature of any node within dx + 0.001 of it (but not at its own
 * position), and tupdate halves the gathered sum.
 */
module NaiveBar {
  import opened HeatNode

  /** Node spacing dx, in metres. */
  const Dx: real := 0.005
  /** Initial temperature of the free nodes, T_default. */
  const TDefault: real := 300.0
  /** The reach of apply_tsum: dx + 0.001. */
  const Reach: real := Dx + 0.001

  /** The node at index i once init_bar is done, given the node o the buffer held there. */
  function BarNode(o: Node, n: int, i: int, ltem: real, rtem: real): Node
  {
    if i == n - 1 then o.(T := rtem, T_sum := 0.0, x := (n - 1) as real * Dx, fixed := true)
    else if i == 0 then o.(T := ltem, T_sum := 0.0, x := 0.0, fixed := true)
    else o.(T := TDefault, T_sum := 0.0, x := i as real * Dx, fixed := false)
  }

  /**
   * init_bar: node 0, then node n-1, then the free nodes 1 to n-2. With a
   * single node the second write wins, so that node holds rtem.
   */
  method InitBar(a: array<Node>, ltem: real, rtem: real)
    requires a.Length >= 1
    modifies a
    ensures forall i :: 0 <= i < a.Length ==> a[i] == BarNode(old(a[i]), a.Length, i, ltem, rtem)
  {
    var n := a.Length;
    a[0] := a[0].(T := ltem, T_sum := 0.0, x := 0.0, fixed := true);
    a[n - 1] := a[n - 1].(T := rtem, T_sum := 0.0, x := (n - 1) as real * Dx, fixed := true);
    var i := 1;
    while i < n - 1
      invariant 1 <= i <= n
      invariant forall k :: 1 <= k < i ==> a[k] == BarNode(old(a[k]), n, k, ltem, rtem)
      invariant a[0] == BarNode(old(a[0]), n, 0, ltem, rtem)
      invariant a[n - 1] == BarNode(old(a[n - 1]), n, n - 1, ltem, rtem)
      invariant forall k :: i <= k < n - 1 ==> a[k] == old(a[k])
    {
      a[i] := a[i].(T := TDefault, T_sum := 0.0, x := i as real * Dx, fixed := false);
      i := i + 1;
    }
  }

  /** The laid-out bar: node i at position i*dx, fixed exactly at both ends, T_sum 0 everywhere. */
  predicate IsBar(s: seq<Node>)
  {
    forall i :: 0 <= i < |s| ==>
      s[i].x == i as real * Dx && (s[i].fixed <==> (i == 0 || i == |s| - 1))
  }

  /**
   * init_bar leaves node 0 fixed at ltem and node n-1 fixed at rtem, the
   * others free at T_default, node i at position i*dx, and every T_sum 0.
   */
  lemma InitBarLayout(o: seq<Node>, s: seq<Node>, ltem: real, rtem: real)
    requires |o| == |s| >= 2
    requires forall i :: 0 <= i < |s| ==> s[i] == BarNode(o[i], |s|, i, ltem, rtem)
    ensures IsBar(s)
    ensures s[0].T == ltem && s[|s| - 1].T == rtem
    ensures forall i :: 0 < i < |s| - 1 ==> s[i].T == TDefault
    ensures forall i :: 0 <= i < |s| ==> s[i].T_sum == 0.0
  {
    assert s[0] == BarNode(o[0], |s|, 0, ltem, rtem);
  }

  /**
   * apply_tsum: a free node adds the neighbour's temperature when their
   * distance is positive and at most dx + 0.001; a fixed node is untouched.
   */
  function ApplyTsum(t: Node, nb: Node): (r: Node)
    ensures t.fixed ==> r == t
    ensures r == t.(T_sum := r.T_sum)
    ensures !t.fixed && 0.0 < Abs(t.x - nb.x) <= Reach ==> r.T_sum == t.T_sum + nb.T
    ensures !(0.0 < Abs(t.x - nb.x) <= Reach) ==> r == t
  {
    if t.fixed then t
    else
      var dist := Abs(t.x - nb.x);
      if dist <= Reach && dist != 0.0 then t.(T_sum := t.T_sum + nb.T) else t
  }

  /** tupdate: a free node takes half its gathered sum and clears the sum. */
  function TUpdate(t: Node): (r: Node)
    ensures t.fixed ==> r == t
    ensures !t.fixed ==> r == t.(T := t.T_sum / 2.0, T_sum := 0.0)
  {
    if t.fixed then t else t.(T := t.T_sum / 2.0, T_sum := 0.0)
  }

  /** Two nodes laid out at i*dx and j*dx are within reach exactly when they are adjacent. */
  lemma ReachIsAdjacency(i: int, j: int)
    ensures 0.0 < Abs(i as real * Dx - j as real * Dx) <= Reach <==> (j == i - 1 || j == i + 1)
  {
    var d := (i - j) as real;
    assert i as real * Dx - j as real * Dx == d * 0.005;
    if d >= 2.0 {
      assert d * 0.005 >= 0.01;
    } else if d <= -2.0 {
      assert d * 0.005 <= -0.01;
    } else {
      assert i - j == -1 || i - j == 0 || i - j == 1;
    }
  }
}
