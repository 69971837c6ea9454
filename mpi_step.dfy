/**
 * The per-rank time step of heatGen/oneD/mpi.cpp (lines 61-68): the rank
 * sweeps its own range [lindex, rindex) of its n-node buffer, each node
 * calling apply_tsum with its left and then its right neighbour, and then
 * calls tupdate(node, 1) on the same range. The kernels live in
 * heatGen/oneD/common.cpp, which is not part of this model, so they are
 * parameters here.
 */
module MpiStep {
  import opened HeatNode
  import NaiveBar

  /**
   * A kernel shaped like the apply_tsum of the other C programs: it changes
   * only the T_sum of the node it updates and does not look at the
   * neighbour's T_sum.
   */
  ghost predicate SumsOnly(apply: (Node, Node) -> Node)
  {
    (forall t, nb :: apply(t, nb) == t.(T_sum := apply(t, nb).T_sum))
    && (forall t: Node, nb: Node, v: real :: apply(t, nb.(T_sum := v)) == apply(t, nb))
  }

  /** The kernel of heatGen/twoD/common_naive.cpp, the one serial.cpp uses, has that shape. */
  lemma NaiveKernelSumsOnly()
    ensures SumsOnly(NaiveBar.ApplyTsum)
  {
    forall t: Node, nb: Node, v: real
      ensures NaiveBar.ApplyTsum(t, nb.(T_sum := v)) == NaiveBar.ApplyTsum(t, nb)
    {
      assert nb.(T_sum := v).x == nb.x && nb.(T_sum := v).T == nb.T;
    }
  }

  /** The buffer after the first m - l iterations of lines 61-64. */
  function Accumulated(s: seq<Node>, l: int, m: int, apply: (Node, Node) -> Node): (r: seq<Node>)
    requires 1 <= l <= m < |s|
    ensures |r| == |s|
    decreases m - l
  {
    if m == l then s
    else
      var p := Accumulated(s, l, m - 1, apply);
      p[m - 1 := apply(apply(p[m - 1], p[m - 2]), p[m])]
  }

  /** The buffer after tupdate(node, 1) on every node of [l, r) (lines 66-68). */
  function Updated(s: seq<Node>, l: int, r: int, update: Node -> Node): (res: seq<Node>)
    requires 0 <= l <= r <= |s|
    ensures |res| == |s|
  {
    seq(|s|, k requires 0 <= k < |s| => if l <= k < r then update(s[k]) else s[k])
  }

  /** The buffer after the local step of a rank owning [l, r). */
  function LocalStepped(s: seq<Node>, l: int, r: int, apply: (Node, Node) -> Node, update: Node -> Node): (res: seq<Node>)
    requires 1 <= l <= r < |s|
    ensures |res| == |s|
  {
    Updated(Accumulated(s, l, r, apply), l, r, update)
  }

  /**
   * Lines 61-68 for a rank owning [l, r). The loop reads tnodes[l-1] and
   * tnodes[r], so it stays inside the buffer only when l >= 1 and r < n:
   * never on rank 0 or on the last rank (MpiPartition.NeighboursInBuffer).
   */
  method LocalStep(tnodes: array<Node>, l: int, r: int, apply: (Node, Node) -> Node, update: Node -> Node)
    requires 1 <= l <= r < tnodes.Length
    modifies tnodes
    ensures tnodes[..] == LocalStepped(old(tnodes[..]), l, r, apply, update)
  {
    ghost var s := tnodes[..];
    for i := l to r
      invariant tnodes[..] == Accumulated(s, l, i, apply)
    {
      tnodes[i] := apply(tnodes[i], tnodes[i - 1]);
      tnodes[i] := apply(tnodes[i], tnodes[i + 1]);
    }
    ghost var p := tnodes[..];
    for i := l to r
      invariant tnodes[..] == Updated(p, l, i, update)
    {
      tnodes[i] := update(tnodes[i]);
    }
  }

  /** The sweep writes only nodes of [l, m). */
  lemma {:induction false} AccumulatedWrites(s: seq<Node>, l: int, m: int, apply: (Node, Node) -> Node)
    requires 1 <= l <= m < |s|
    ensures forall k :: 0 <= k < |s| && !(l <= k < m) ==> Accumulated(s, l, m, apply)[k] == s[k]
    decreases m - l
  {
    if m > l {
      AccumulatedWrites(s, l, m - 1, apply);
    }
  }

  /** The local step writes only the rank's own nodes: everything outside [l, r) keeps its value. */
  lemma LocalStepWrites(s: seq<Node>, l: int, r: int, apply: (Node, Node) -> Node, update: Node -> Node)
    requires 1 <= l <= r < |s|
    ensures forall k :: 0 <= k < |s| && !(l <= k < r) ==> LocalStepped(s, l, r, apply, update)[k] == s[k]
  {
    AccumulatedWrites(s, l, r, apply);
  }

  /** Two buffers that agree on [l-1, r] still agree there after the first m - l iterations of the sweep. */
  lemma {:induction false} AccumulatedReads(s: seq<Node>, s': seq<Node>, l: int, m: int, r: int, apply: (Node, Node) -> Node)
    requires 1 <= l <= m <= r < |s| == |s'|
    requires forall k :: l - 1 <= k <= r ==> s[k] == s'[k]
    ensures forall k :: l - 1 <= k <= r ==> Accumulated(s, l, m, apply)[k] == Accumulated(s', l, m, apply)[k]
    decreases m - l
  {
    if m > l {
      AccumulatedReads(s, s', l, m - 1, r, apply);
    }
  }

  /**
   * The local step reads only tnodes[l-1 .. r]: two buffers that agree
   * there give the rank the same nodes in [l, r), whatever else they hold.
   */
  lemma LocalStepReads(s: seq<Node>, s': seq<Node>, l: int, r: int, apply: (Node, Node) -> Node, update: Node -> Node)
    requires 1 <= l <= r < |s| == |s'|
    requires forall k :: l - 1 <= k <= r ==> s[k] == s'[k]
    ensures forall k :: l <= k < r ==> LocalStepped(s, l, r, apply, update)[k] == LocalStepped(s', l, r, apply, update)[k]
  {
    AccumulatedReads(s, s', l, r, r, apply);
  }

  /** With an apply_tsum that only sums, the sweep changes no field of any node but T_sum. */
  lemma {:induction false} AccumulatedSumsOnly(s: seq<Node>, l: int, m: int, apply: (Node, Node) -> Node)
    requires 1 <= l <= m < |s| && SumsOnly(apply)
    ensures forall k :: 0 <= k < |s| ==> Accumulated(s, l, m, apply)[k] == s[k].(T_sum := Accumulated(s, l, m, apply)[k].T_sum)
    decreases m - l
  {
    if m > l {
      AccumulatedSumsOnly(s, l, m - 1, apply);
      var p := Accumulated(s, l, m - 1, apply);
      var once := apply(p[m - 1], p[m - 2]);
      assert once == p[m - 1].(T_sum := once.T_sum);
      assert apply(once, p[m]) == once.(T_sum := apply(once, p[m]).T_sum);
    }
  }

  /**
   * Hence the left neighbour a node reads has already been swept but
   * differs only in T_sum, which apply_tsum ignores, so every node of
   * [l, m) holds what it would have from the pre-step buffer.
   */
  lemma {:induction false} AccumulatedJacobi(s: seq<Node>, l: int, m: int, apply: (Node, Node) -> Node)
    requires 1 <= l <= m < |s| && SumsOnly(apply)
    ensures forall k :: l <= k < m ==> Accumulated(s, l, m, apply)[k] == apply(apply(s[k], s[k - 1]), s[k + 1])
    decreases m - l
  {
    if m > l {
      AccumulatedJacobi(s, l, m - 1, apply);
      AccumulatedWrites(s, l, m - 1, apply);
      AccumulatedSumsOnly(s, l, m - 1, apply);
      var p := Accumulated(s, l, m - 1, apply);
      assert apply(s[m - 1], p[m - 2]) == apply(s[m - 1], s[m - 2].(T_sum := p[m - 2].T_sum));
    }
  }

  /**
   * Hence, with such a kernel, the local step gives every node i of the
   * rank's range tupdate(apply_tsum(apply_tsum(T[i], T[i-1]), T[i+1])) of
   * the pre-step buffer.
   */
  lemma LocalStepJacobi(s: seq<Node>, l: int, r: int, apply: (Node, Node) -> Node, update: Node -> Node)
    requires 1 <= l <= r < |s| && SumsOnly(apply)
    ensures forall i :: l <= i < r ==> LocalStepped(s, l, r, apply, update)[i] == update(apply(apply(s[i], s[i - 1]), s[i + 1]))
  {
    AccumulatedJacobi(s, l, r, apply);
  }
}
