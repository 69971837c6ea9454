/**
 * The time-step loop of serial.cpp over the bar of common_naive.cpp: every
 * node calls apply_tsum with every node of the bar, itself included, then
 * every node calls tupdate.
 */
module NaiveSerial {
  import opened HeatNode
  import opened NaiveBar

  /**
   * Node t after apply_tsum(t, s[j]) for j = 0 to m-1, in order. Only
   * T_sum moves.
   */
  function Pulled(t: Node, s: seq<Node>, m: nat): (r: Node)
    requires m <= |s|
    ensures r == t.(T_sum := r.T_sum)
    ensures t.fixed ==> r == t
  {
    if m == 0 then t else ApplyTsum(Pulled(t, s, m - 1), s[m - 1])
  }

  /** Node i after one step from s. */
  function NaiveStepAt(s: seq<Node>, i: int): Node
    requires 0 <= i < |s|
  {
    TUpdate(Pulled(s[i], s, |s|))
  }

  /**
   * The bar after one step from s: a step moves only T and T_sum, so
   * positions and flags stay, and a fixed node is kept whole.
   */
  function NaiveStepAll(s: seq<Node>): (r: seq<Node>)
    ensures |r| == |s| && forall i :: 0 <= i < |s| ==> r[i] == NaiveStepAt(s, i)
    ensures forall i :: 0 <= i < |s| ==> r[i] == s[i].(T := r[i].T, T_sum := r[i].T_sum)
    ensures forall i :: 0 <= i < |s| && s[i].fixed ==> r[i] == s[i]
  {
    seq(|s|, i requires 0 <= i < |s| => NaiveStepAt(s, i))
  }

  /** The bar after t steps from s. */
  function NaiveSteps(s: seq<Node>, t: nat): (r: seq<Node>)
    ensures |r| == |s|
  {
    if t == 0 then s else NaiveStepAll(NaiveSteps(s, t - 1))
  }

  /** Lines 57-58: node i calls apply_tsum with every node j of the bar, in index order. */
  method PullAll(a: array<Node>, i: int, ghost s: seq<Node>)
    requires 0 <= i < a.Length == |s| && a[i] == s[i]
    requires forall k :: 0 <= k < a.Length ==> a[k].T == s[k].T && a[k].x == s[k].x
    modifies a
    ensures a[i] == Pulled(s[i], s, a.Length)
    ensures forall k :: 0 <= k < a.Length && k != i ==> a[k] == old(a[k])
  {
    for j := 0 to a.Length
      invariant a[i] == Pulled(s[i], s, j)
      invariant forall k :: 0 <= k < a.Length && k != i ==> a[k] == old(a[k])
    {
      a[i] := ApplyTsum(a[i], a[j]);
    }
  }

  /** Lines 55-59: the accumulate phase, node by node. */
  method AccumulateAll(a: array<Node>)
    modifies a
    ensures forall k :: 0 <= k < a.Length ==> a[k] == Pulled(old(a[k]), old(a[..]), a.Length)
  {
    ghost var s := a[..];
    for i := 0 to a.Length
      invariant forall k :: 0 <= k < i ==> a[k] == Pulled(s[k], s, a.Length)
      invariant forall k :: i <= k < a.Length ==> a[k] == s[k]
    {
      PullAll(a, i, s);
    }
  }

  /** Lines 64-65: tupdate on every node. */
  method UpdateAll(a: array<Node>)
    modifies a
    ensures forall k :: 0 <= k < a.Length ==> a[k] == TUpdate(old(a[k]))
  {
    for i := 0 to a.Length
      invariant forall k :: 0 <= k < i ==> a[k] == TUpdate(old(a[k]))
      invariant forall k :: i <= k < a.Length ==> a[k] == old(a[k])
    {
      a[i] := TUpdate(a[i]);
    }
  }

  /** Lines 55-65, one pass of the time-step loop. */
  method NaiveStep(a: array<Node>)
    modifies a
    ensures a[..] == NaiveStepAll(old(a[..]))
  {
    ghost var s := a[..];
    AccumulateAll(a);
    UpdateAll(a);
    assert forall k :: 0 <= k < a.Length ==> a[k] == NaiveStepAll(s)[k];
  }

  /** Lines 50-75 without the output: nsteps time steps. */
  method NaiveSimulate(a: array<Node>, nsteps: nat)
    modifies a
    ensures a[..] == NaiveSteps(old(a[..]), nsteps)
  {
    ghost var s0 := a[..];
    for t := 0 to nsteps
      invariant a[..] == NaiveSteps(s0, t)
    {
      NaiveStep(a);
    }
  }

  /**
   * On a laid-out bar, the first m calls for free node i have added the
   * temperatures of exactly those of nodes i-1 and i+1 that are below m.
   */
  lemma {:induction false} PulledOnBar(s: seq<Node>, i: int, m: nat)
    requires IsBar(s) && 0 < i < |s| - 1 && m <= |s|
    ensures Pulled(s[i], s, m)
            == s[i].(T_sum := s[i].T_sum + (if i - 1 < m then s[i - 1].T else 0.0)
                                         + (if i + 1 < m then s[i + 1].T else 0.0))
  {
    if m > 0 {
      PulledOnBar(s, i, m - 1);
      ReachIsAdjacency(i, m - 1);
    }
  }

  /**
   * One step on a laid-out bar: the fixed ends keep their nodes, and a free
   * node i takes (T_sum + T[i-1] + T[i+1]) / 2 of the pre-step bar and
   * clears its T_sum; nothing else changes.
   */
  lemma NaiveStepOnBar(s: seq<Node>, i: int)
    requires IsBar(s) && 0 <= i < |s|
    ensures s[i].fixed ==> NaiveStepAt(s, i) == s[i]
    ensures !s[i].fixed ==>
              0 < i < |s| - 1 &&
              NaiveStepAt(s, i) == s[i].(T := (s[i].T_sum + s[i - 1].T + s[i + 1].T) / 2.0, T_sum := 0.0)
  {
    if !s[i].fixed {
      PulledOnBar(s, i, |s|);
    }
  }

  /**
   * Any number of steps from a laid-out bar: it stays laid out, both ends
   * keep their temperatures, and after at least one step every free node's
   * T_sum is 0, so each later step sets T[i] to the mean of T[i-1] and T[i+1].
   */
  lemma {:induction false} NaiveStepsKeepBar(s: seq<Node>, t: nat)
    requires IsBar(s) && |s| >= 1
    ensures IsBar(NaiveSteps(s, t))
    ensures NaiveSteps(s, t)[0] == s[0] && NaiveSteps(s, t)[|s| - 1] == s[|s| - 1]
    ensures t >= 1 ==> forall i :: 0 < i < |s| - 1 ==> NaiveSteps(s, t)[i].T_sum == 0.0
  {
    if t > 0 {
      NaiveStepsKeepBar(s, t - 1);
      var p := NaiveSteps(s, t - 1);
      forall i | 0 <= i < |s|
        ensures NaiveSteps(s, t)[i].x == p[i].x && NaiveSteps(s, t)[i].fixed == p[i].fixed
        ensures 0 < i < |s| - 1 ==> NaiveSteps(s, t)[i].T_sum == 0.0
      {
        NaiveStepOnBar(p, i);
      }
      NaiveStepOnBar(p, 0);
      NaiveStepOnBar(p, |s| - 1);
    }
  }

  /**
   * With every T_sum 0, as init_bar and every step leave it, a step gives
   * each free node the mean of its two neighbours' pre-step temperatures.
   */
  lemma NaiveStepAverages(s: seq<Node>, i: int)
    requires IsBar(s) && 0 < i < |s| - 1 && s[i].T_sum == 0.0
    ensures NaiveStepAt(s, i).T == (s[i - 1].T + s[i + 1].T) / 2.0
  {
    NaiveStepOnBar(s, i);
  }
}
