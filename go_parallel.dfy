/**
 * golang/parallel/parallel.go with its goroutines run one index at a time:
 * the sum body a worker runs for an index taken from sumQ, the update body
 * a worker runs for an index taken from updateQ, and main's step loop
 * that hands out every index to each queue in turn. The initialisers and
 * TUpdate are those of GoMesh.
 */
module GoParallel {
  import opened GoMesh
  import GoSerial

  /** T[idx-1] when idx > 0 plus T[idx+1] when idx < n-1: the bar neighbours of idx. */
  function BarNeighbours(s: seq<GoNode>, n: int, idx: int): real
    requires 0 <= idx < |s| && n == |s|
  {
    (if idx > 0 then s[idx - 1].T else 0.0) + (if idx < n - 1 then s[idx + 1].T else 0.0)
  }

  /**
   * The mesh after the sum body for idx (lines 158-170): in bar mode a free
   * node's TSum is overwritten with its neighbours' T; in square mode, and
   * on a fixed node, nothing changes.
   */
  function SumAt(s: seq<GoNode>, n: int, square: bool, idx: int): (r: seq<GoNode>)
    requires 0 <= idx < |s| && (!square ==> n == |s|)
    ensures |r| == |s|
    ensures forall k :: 0 <= k < |s| && k != idx ==> r[k] == s[k]
    ensures r[idx] == s[idx].(TSum := r[idx].TSum)
    ensures square || s[idx].Fixed ==> r == s
    ensures !square && !s[idx].Fixed ==> r[idx].TSum == BarNeighbours(s, n, idx)
  {
    if square || s[idx].Fixed then s else s[idx := s[idx].(TSum := BarNeighbours(s, n, idx))]
  }

  /** Lines 158-170: the sum body for one index taken from sumQ. */
  method SumBody(nodes: array<GoNode>, n: int, square: bool, idx: int)
    requires 0 <= idx < nodes.Length && (!square ==> n == nodes.Length)
    modifies nodes
    ensures nodes[..] == SumAt(old(nodes[..]), n, square, idx)
  {
    var acc := 0.0;
    if !square {
      if !nodes[idx].Fixed {
        if idx > 0 {
          acc := acc + nodes[idx - 1].T;
        }
        if idx < n - 1 {
          acc := acc + nodes[idx + 1].T;
        }
        nodes[idx] := nodes[idx].(TSum := acc);
      }
    }
  }

  /** The sum body assigns TSum rather than adding to it: running it twice for one index is running it once. */
  lemma SumAtIdempotent(s: seq<GoNode>, n: int, square: bool, idx: int)
    requires 0 <= idx < |s| && (!square ==> n == |s|)
    ensures SumAt(SumAt(s, n, square, idx), n, square, idx) == SumAt(s, n, square, idx)
  {
    var r := SumAt(s, n, square, idx);
    if !square && !s[idx].Fixed {
      assert BarNeighbours(r, n, idx) == BarNeighbours(s, n, idx);
    }
  }

  /**
   * The sum bodies for two indices commute: each writes only its own TSum
   * and reads only T, so the order in which the workers take indices from
   * sumQ does not matter.
   */
  lemma SumAtCommutes(s: seq<GoNode>, n: int, square: bool, i: int, j: int)
    requires 0 <= i < |s| && 0 <= j < |s| && (!square ==> n == |s|)
    ensures SumAt(SumAt(s, n, square, i), n, square, j) == SumAt(SumAt(s, n, square, j), n, square, i)
  {
    if !square && i != j {
      var si, sj := SumAt(s, n, square, i), SumAt(s, n, square, j);
      assert BarNeighbours(si, n, j) == BarNeighbours(s, n, j);
      assert BarNeighbours(sj, n, i) == BarNeighbours(s, n, i);
    }
  }

  /** The mesh after the update body for idx (lines 179-183), which is TUpdate. */
  function UpdateAt(s: seq<GoNode>, idx: int): (r: seq<GoNode>)
    requires 0 <= idx < |s| && (s[idx].Fixed || s[idx].Neighbors != 0)
    ensures |r| == |s| && r[idx] == TUpdate(s[idx])
    ensures forall k :: 0 <= k < |s| && k != idx ==> r[k] == s[k]
  {
    s[idx := TUpdate(s[idx])]
  }

  /** Lines 179-183: the update body for one index taken from updateQ. */
  method UpdateBody(nodes: array<GoNode>, idx: int)
    requires 0 <= idx < nodes.Length && (nodes[idx].Fixed || nodes[idx].Neighbors != 0)
    modifies nodes
    ensures nodes[..] == UpdateAt(old(nodes[..]), idx)
  {
    if !nodes[idx].Fixed {
      nodes[idx] := nodes[idx].(T := nodes[idx].TSum / nodes[idx].Neighbors as real, TSum := 0.0);
    }
  }

  /** Node k after every index has run the sum body once. */
  function Summed(s: seq<GoNode>, n: int, square: bool, k: int): (r: GoNode)
    requires 0 <= k < |s| && (!square ==> n == |s|)
    ensures r == s[k].(TSum := r.TSum)
  {
    SumAt(s, n, square, k)[k]
  }

  /** Node k after one step: every sum body, then every update body. */
  function StepAt(s: seq<GoNode>, n: int, square: bool, k: int): GoNode
    requires Dividable(s) && 0 <= k < |s| && (!square ==> n == |s|)
  {
    TUpdate(Summed(s, n, square, k))
  }

  /** The mesh after one step; only T and TSum move, so it stays dividable. */
  function StepAll(s: seq<GoNode>, n: int, square: bool): (r: seq<GoNode>)
    requires Dividable(s) && (!square ==> n == |s|)
    ensures |r| == |s| && forall k :: 0 <= k < |s| ==> r[k] == StepAt(s, n, square, k)
    ensures forall k :: 0 <= k < |s| ==>
              r[k].X == s[k].X && r[k].Y == s[k].Y && r[k].Fixed == s[k].Fixed && r[k].Neighbors == s[k].Neighbors
    ensures Dividable(r)
  {
    seq(|s|, k requires 0 <= k < |s| => StepAt(s, n, square, k))
  }

  /** The mesh after t steps. */
  function Steps(s: seq<GoNode>, n: int, square: bool, t: nat): (r: seq<GoNode>)
    requires Dividable(s) && (!square ==> n == |s|)
    ensures |r| == |s| && Dividable(r)
  {
    if t == 0 then s else StepAll(Steps(s, n, square, t - 1), n, square)
  }

  /** Lines 192-196 run one index at a time: index i reads T only, which no earlier sum body has changed. */
  method SumPhase(nodes: array<GoNode>, n: int, square: bool)
    requires !square ==> n == nodes.Length
    modifies nodes
    ensures forall k :: 0 <= k < nodes.Length ==> nodes[k] == Summed(old(nodes[..]), n, square, k)
  {
    ghost var s := nodes[..];
    for i := 0 to nodes.Length
      invariant forall k :: 0 <= k < i ==> nodes[k] == Summed(s, n, square, k)
      invariant forall k :: i <= k < nodes.Length ==> nodes[k] == s[k]
    {
      ghost var before := nodes[..];
      SumBody(nodes, n, square, i);
      if !square && !s[i].Fixed {
        assert BarNeighbours(before, n, i) == BarNeighbours(s, n, i);
      }
    }
  }

  /** Lines 197-201 run one index at a time. */
  method UpdatePhase(nodes: array<GoNode>)
    requires Dividable(nodes[..])
    modifies nodes
    ensures forall k :: 0 <= k < nodes.Length ==> nodes[k] == TUpdate(old(nodes[k]))
  {
    for i := 0 to nodes.Length
      invariant forall k :: 0 <= k < i ==> nodes[k] == TUpdate(old(nodes[k]))
      invariant forall k :: i <= k < nodes.Length ==> nodes[k] == old(nodes[k])
    {
      assert nodes[i] == nodes[..][i];
      UpdateBody(nodes, i);
    }
  }

  /** Lines 192-201: one pass of main's time-step loop, the two phases separated by wg.Wait. */
  method Step(nodes: array<GoNode>, n: int, square: bool)
    requires Dividable(nodes[..]) && (!square ==> n == nodes.Length)
    modifies nodes
    ensures nodes[..] == StepAll(old(nodes[..]), n, square)
  {
    ghost var s := nodes[..];
    SumPhase(nodes, n, square);
    assert forall k :: 0 <= k < nodes.Length ==> nodes[..][k] == s[k].(TSum := nodes[..][k].TSum);
    UpdatePhase(nodes);
    assert nodes[..] == StepAll(s, n, square);
  }

  /** Lines 191-202: NSTEPS passes, here nsteps. */
  method Simulate(nodes: array<GoNode>, n: int, square: bool, nsteps: nat)
    requires Dividable(nodes[..]) && (!square ==> n == nodes.Length)
    modifies nodes
    ensures nodes[..] == Steps(old(nodes[..]), n, square, nsteps)
  {
    for t := 0 to nsteps
      invariant nodes[..] == Steps(old(nodes[..]), n, square, t)
    {
      Step(nodes, n, square);
    }
  }

  /**
   * In square mode the sum body is empty, so a step divides the leftover
   * TSum: from a square whose free nodes hold TSum 0, as InitSquare leaves
   * it, one step takes every free node to T = 0 and every fixed node keeps
   * its node.
   */
  lemma SquareStepZeroes(s: seq<GoNode>, n: int, k: int)
    requires Dividable(s) && 0 <= k < |s| && (!s[k].Fixed ==> s[k].TSum == 0.0)
    ensures s[k].Fixed ==> StepAt(s, n, true, k) == s[k]
    ensures !s[k].Fixed ==> StepAt(s, n, true, k) == s[k].(T := 0.0)
  {
  }

  /** Any number of square-mode steps from such a square: free nodes sit at T = 0 after the first, fixed nodes never move. */
  lemma {:induction false} SquareStepsZeroes(s: seq<GoNode>, n: int, t: nat)
    requires Dividable(s) && forall k :: 0 <= k < |s| && !s[k].Fixed ==> s[k].TSum == 0.0
    ensures forall k :: 0 <= k < |s| && s[k].Fixed ==> Steps(s, n, true, t)[k] == s[k]
    ensures forall k :: 0 <= k < |s| && !s[k].Fixed ==>
              Steps(s, n, true, t)[k] == s[k].(T := if t == 0 then s[k].T else 0.0)
  {
    if t > 0 {
      SquareStepsZeroes(s, n, t - 1);
      var p := Steps(s, n, true, t - 1);
      forall k | 0 <= k < |s|
        ensures s[k].Fixed ==> Steps(s, n, true, t)[k] == s[k]
        ensures !s[k].Fixed ==> Steps(s, n, true, t)[k] == s[k].(T := 0.0)
      {
        SquareStepZeroes(p, n, k);
      }
    }
  }

  /** The bar InitBar lays out, with every free TSum still 0. */
  predicate ClearBar(s: seq<GoNode>)
  {
    IsBar(s) && |s| >= 2 && forall k :: 0 < k < |s| - 1 ==> s[k].TSum == 0.0
  }

  /**
   * On a cleared bar a bar step here is a step of golang/serial/serial.go:
   * a free node k takes (T[k-1] + T[k+1]) / 2 and the ends stay.
   */
  lemma BarStepMatchesSerial(s: seq<GoNode>)
    requires ClearBar(s)
    ensures Dividable(s)
    ensures StepAll(s, |s|, false) == GoSerial.StepAll(s, |s|, false)
  {
    forall k | 0 <= k < |s|
      ensures StepAll(s, |s|, false)[k] == GoSerial.StepAll(s, |s|, false)[k]
    {
      GoSerial.BarStepOnBar(s, k);
      if !s[k].Fixed {
        assert (s[k].TSum + s[k + 1].T + s[k - 1].T) / 2.0 == (s[k - 1].T + s[k + 1].T) / 2 as real;
      }
    }
  }

  /**
   * From the bar InitBar returns, bar mode here and in golang/serial/serial.go
   * compute the same meshes at every step, and the bar stays cleared.
   */
  lemma {:induction false} BarStepsMatchSerial(s: seq<GoNode>, t: nat)
    requires ClearBar(s)
    ensures Dividable(s)
    ensures Steps(s, |s|, false, t) == GoSerial.Steps(s, |s|, false, t)
    ensures ClearBar(GoSerial.Steps(s, |s|, false, t))
  {
    GoSerial.BarStepKeepsBar(s);
    if t > 0 {
      var u: nat := t - 1;
      BarStepsMatchSerial(s, u);
      assert Steps(s, |s|, false, u) == GoSerial.Steps(s, |s|, false, u);
      assert ClearBar(GoSerial.Steps(s, |s|, false, u));
      NextBarStepMatchesSerial(s, u);
    }
  }

  /** If bar mode here and in golang/serial/serial.go agree after t steps on a bar that is still cleared, the same holds after t + 1. */
  lemma NextBarStepMatchesSerial(s: seq<GoNode>, t: nat)
    requires ClearBar(s) && Dividable(s)
    requires Steps(s, |s|, false, t) == GoSerial.Steps(s, |s|, false, t)
    requires ClearBar(GoSerial.Steps(s, |s|, false, t))
    ensures Steps(s, |s|, false, t + 1) == GoSerial.Steps(s, |s|, false, t + 1)
    ensures ClearBar(GoSerial.Steps(s, |s|, false, t + 1))
  {
    var p := GoSerial.Steps(s, |s|, false, t);
    GoSerial.BarStepKeepsBar(p);
    BarStepMatchesSerial(p);
    assert Steps(s, |s|, false, t + 1) == StepAll(p, |s|, false);
    assert GoSerial.Steps(s, |s|, false, t + 1) == GoSerial.StepAll(p, |s|, false);
  }
}
