/**
 * The mesh node record of the C programs. The variants declare different
 * subsets of these fields (the 1D chain has T, T_sum, x, fixed; the heated
 * plate adds y, edge and qdot; the cavity shape adds y, edge and corner);
 * here one record holds them all and each variant touches only its own.
 */
module HeatNode {

  datatype Node = Node(
    T: real,       // current temperature
    T_sum: real,   // scratch sum of neighbour temperatures for the step in flight
    x: real,
    y: real,
    qdot: real,    // heat source of a hot spot
    fixed: bool,   // Dirichlet node: its temperature never changes
    edge: bool,
    corner: bool)

  function Abs(v: real): (r: real)
    ensures r >= 0.0 && (r == v || r == -v)
  {
    if v < 0.0 then -v else v
  }

  /** Every entry of srcs indexes a buffer of length len. */
  predicate IndicesIn(srcs: seq<int>, len: int)
  {
    forall m :: 0 <= m < |srcs| ==> 0 <= srcs[m] < len
  }

  /** T0[x], or nothing when x is outside T0. */
  function TempAt(T0: seq<real>, x: int): real
  {
    if 0 <= x < |T0| then T0[x] else 0.0
  }

  /**
   * Sum of the temperatures T0[src], one term per entry of srcs, added left
   * to right. An index outside T0 contributes nothing (the step loops only
   * ever pass in-bounds indices; the lemmas beside them show that).
   */
  function SumOver(T0: seq<real>, srcs: seq<int>): real
    decreases |srcs|
  {
    if srcs == [] then 0.0
    else SumOver(T0, srcs[..|srcs| - 1]) + TempAt(T0, srcs[|srcs| - 1])
  }

  /** The sum over three listed indices. */
  lemma SumOver3(T0: seq<real>, p: int, q: int, r: int)
    ensures SumOver(T0, [p, q, r]) == TempAt(T0, p) + TempAt(T0, q) + TempAt(T0, r)
  {
    assert [p][..0] == [];
    assert SumOver(T0, [p]) == TempAt(T0, p);
    assert [p, q][..1] == [p];
    assert SumOver(T0, [p, q]) == TempAt(T0, p) + TempAt(T0, q);
    assert [p, q, r][..2] == [p, q];
  }

  /** The sum over four listed indices. */
  lemma SumOver4(T0: seq<real>, p: int, q: int, r: int, t: int)
    ensures SumOver(T0, [p, q, r, t]) == TempAt(T0, p) + TempAt(T0, q) + TempAt(T0, r) + TempAt(T0, t)
  {
    assert [p, q, r, t][..3] == [p, q, r];
    SumOver3(T0, p, q, r);
  }

  /** Temperatures of a buffer of nodes. */
  function Temps(s: seq<Node>): (r: seq<real>)
    ensures |r| == |s| && forall k :: 0 <= k < |s| ==> r[k] == s[k].T
  {
    seq(|s|, k requires 0 <= k < |s| => s[k].T)
  }

  /**
   * A node after an accumulate phase that offered it neighbour temperatures
   * adding up to sum: a fixed node is untouched, any other adds sum to T_sum.
   */
  function Accumulated(t: Node, sum: real): Node
  {
    if t.fixed then t else t.(T_sum := t.T_sum + sum)
  }
}
