/**
 * The plate with a cavity of novelShape/common.cpp. init_bar lays out an
 * n-by-n mesh in five passes: every node free at T_default, the four corner
 * flags, the edge flags of the outer border, a rectangular cavity whose
 * nodes are moved to x = -100 and whose rim is flagged as edge, and two
 * fixed strips in column 0. apply_tsum only takes neighbours within 10 in
 * x, which keeps the cavity nodes and the solid nodes apart; save writes
 * only the nodes with x > -1.
 */
module NovelShape {
  import opened HeatNode
  import opened Grid

  /** Initial temperature of every node (K), T_default. */
  const TDefault: real := 300.0
  /** The x coordinate init_bar gives to the nodes of the cavity. */
  const CavityX: real := -100.0

  /** mesh_pts/10: the height of each fixed strip and the width of the solid column right of the cavity. */
  function Strip(n: int): int
  {
    n / 10
  }

  predicate IsCorner(n: int, i: int, j: int)
  {
    (i == 0 || i == n - 1) && (j == 0 || j == n - 1)
  }

  predicate OnBorder(n: int, i: int, j: int)
  {
    i == 0 || i == n - 1 || j == 0 || j == n - 1
  }

  /** The cavity: rows n/10 to n-n/10-1, columns 0 to n-n/10-1. */
  predicate InCavity(n: int, i: int, j: int)
  {
    Strip(n) <= i < n - Strip(n) && 0 <= j < n - Strip(n)
  }

  /** The solid cells around the cavity: the row above it, the row below it and the column to its right. */
  predicate OnRim(n: int, i: int, j: int)
  {
    ((i == Strip(n) - 1 || i == n - Strip(n)) && 0 <= j < n - Strip(n))
    || (Strip(n) <= i < n - Strip(n) && j == n - Strip(n))
  }

  /** Column 0 of the first n/10 rows, held at ltem. */
  predicate PinnedLeft(n: int, i: int, j: int)
  {
    j == 0 && 0 <= i < Strip(n)
  }

  /** Column 0 of the last n/10 rows, held at rtem. */
  predicate PinnedRight(n: int, i: int, j: int)
  {
    j == 0 && n - Strip(n) <= i < n
  }

  /** Lines 57-63: the node at (i, j) after the first pass, given the node o the buffer held there. */
  function Blank(o: Node, n: int, i: int, j: int): Node
    requires n >= 2
  {
    o.(T := TDefault, T_sum := 0.0, x := StepLen(n) * j as real, y := StepLen(n) * i as real,
       fixed := false, edge := false, corner := false)
  }

  /** t moved into the cavity when cav holds, flagged as edge when rim holds. */
  function Hollowed(t: Node, cav: bool, rim: bool): Node
  {
    var moved := if cav then t.(x := CavityX) else t;
    if rim then moved.(edge := true) else moved
  }

  /** t fixed at ltem when left holds, else fixed at rtem when right holds. */
  function Pinned(t: Node, left: bool, right: bool, ltem: real, rtem: real): Node
  {
    if left then t.(T := ltem, fixed := true) else if right then t.(T := rtem, fixed := true) else t
  }

  /** The node at (i, j) once all five passes of init_bar are done. */
  function ShapeNode(o: Node, n: int, i: int, j: int, ltem: real, rtem: real): Node
    requires n >= 2
  {
    var blank := Blank(o, n, i, j);
    var cornered := if IsCorner(n, i, j) then blank.(corner := true) else blank;
    var bordered := if OnBorder(n, i, j) then cornered.(edge := true) else cornered;
    Pinned(Hollowed(bordered, InCavity(n, i, j), OnRim(n, i, j)),
           PinnedLeft(n, i, j), PinnedRight(n, i, j), ltem, rtem)
  }

  /**
   * The shape init_bar lays out, cell by cell: exactly the four corners are
   * corners; the edges are the outer border and the rim of the cavity; the
   * cavity cells, and only they, sit at x = -100, so they are exactly the
   * cells with x <= -1; the fixed cells are column 0 of the first and last
   * n/10 rows, at ltem and rtem, none of them in the cavity; every other
   * cell is free at T_default; every T_sum is 0.
   */
  lemma ShapeCell(o: Node, n: int, i: int, j: int, ltem: real, rtem: real)
    requires n >= 10 && 0 <= i < n && 0 <= j < n
    ensures var r := ShapeNode(o, n, i, j, ltem, rtem);
      && (r.corner <==> IsCorner(n, i, j))
      && (r.edge <==> OnBorder(n, i, j) || OnRim(n, i, j))
      && r.x == (if InCavity(n, i, j) then CavityX else StepLen(n) * j as real)
      && (r.x > -1.0 <==> !InCavity(n, i, j))
      && (r.fixed <==> PinnedLeft(n, i, j) || PinnedRight(n, i, j))
      && (r.fixed ==> !InCavity(n, i, j))
      && r.T == (if PinnedLeft(n, i, j) then ltem else if PinnedRight(n, i, j) then rtem else TDefault)
      && r.T_sum == 0.0 && r.y == StepLen(n) * i as real && r.qdot == o.qdot
  {
    StepNonneg(n, j);
  }

  /**
   * init_bar of novelShape/common.cpp; returns the spacing it stores in the
   * global `step`. For mesh_pts < 10 the cavity pass writes row -1 (index
   * mesh_pts*(mesh_pts/10 - 1) + j with mesh_pts/10 = 0), outside the
   * buffer; hence n >= 10.
   */
  method InitShape(a: array<Node>, n: int, ltem: real, rtem: real) returns (step: real)
    requires n >= 10 && a.Length == n * n
    modifies a
    ensures step == StepLen(n)
    ensures forall k :: 0 <= k < a.Length ==> a[k] == ShapeNode(old(a[k]), n, k / n, k % n, ltem, rtem)
  {
    step := 1.0 / (n - 1) as real;
    FillRows(a, n);
    MarkCorners(a, n);
    MarkBorder(a, n);
    HollowCavity(a, n);
    PinStrips(a, n, ltem, rtem);
  }

  /** Lines 56-64: one pass of the first loop, row i. */
  method FillRow(a: array<Node>, n: int, i: int)
    requires n >= 2 && 0 <= n * i && n * i + n <= a.Length
    modifies a
    ensures forall k :: n * i <= k < n * i + n ==> a[k] == Blank(old(a[k]), n, i, k - n * i)
    ensures forall k :: 0 <= k < a.Length && !(n * i <= k < n * i + n) ==> a[k] == old(a[k])
  {
    var step := 1.0 / (n - 1) as real;
    var row := n * i;
    for j := 0 to n
      invariant forall k :: row <= k < row + j ==> a[k] == Blank(old(a[k]), n, i, k - row)
      invariant forall k :: 0 <= k < a.Length && !(row <= k < row + j) ==> a[k] == old(a[k])
    {
      a[row + j] := a[row + j].(T := TDefault, T_sum := 0.0, x := step * j as real, y := step * i as real,
                                fixed := false, edge := false, corner := false);
    }
  }

  /** Lines 55-65: the first pass, every node free at T_default. */
  method FillRows(a: array<Node>, n: int)
    requires n >= 2 && a.Length == n * n
    modifies a
    ensures forall k :: 0 <= k < a.Length ==> a[k] == Blank(old(a[k]), n, k / n, k % n)
  {
    for i := 0 to n
      invariant 0 <= n * i <= a.Length
      invariant forall k :: 0 <= k < n * i ==> a[k] == Blank(old(a[k]), n, k / n, k % n)
      invariant forall k :: n * i <= k < a.Length ==> a[k] == old(a[k])
    {
      assert n * i + n == n * (i + 1) <= a.Length by { MulLeftMono(n, i + 1, n); }
      FillRow(a, n, i);
      RowOf(n, i);
    }
  }

  /** The four corner indices are exactly the cells that are corners. */
  lemma CornersAddressed(n: int)
    requires n >= 2
    ensures forall k :: 0 <= k < n * n ==>
              (IsCorner(n, k / n, k % n) <==> k == 0 || k == n * (n - 1) || k == n - 1 || k == n * (n - 1) + n - 1)
  {
    forall k | 0 <= k < n * n
      ensures IsCorner(n, k / n, k % n) <==> k == 0 || k == n * (n - 1) || k == n - 1 || k == n * (n - 1) + n - 1
    {
      Decompose(n, k);
      RowCol(n, 0, 0);
      RowCol(n, n - 1, 0);
      RowCol(n, 0, n - 1);
      RowCol(n, n - 1, n - 1);
    }
  }

  /** Lines 67-70: the second pass, the four corner flags. */
  method MarkCorners(a: array<Node>, n: int)
    requires n >= 2 && a.Length == n * n
    modifies a
    ensures forall k :: 0 <= k < a.Length ==>
              a[k] == if IsCorner(n, k / n, k % n) then old(a[k]).(corner := true) else old(a[k])
  {
    var last := n * (n - 1);
    assert last == a.Length - n && n <= last by { MulLeftMono(n, 1, n - 1); }
    a[0] := a[0].(corner := true);
    a[last] := a[last].(corner := true);
    a[n - 1] := a[n - 1].(corner := true);
    a[last + n - 1] := a[last + n - 1].(corner := true);
    assert forall k :: 0 <= k < a.Length ==>
             a[k] == if k == 0 || k == last || k == n - 1 || k == last + n - 1 then old(a[k]).(corner := true) else old(a[k]);
    CornersAddressed(n);
  }

  /** The border cells flagged by the first i passes of the third loop. */
  predicate EdgeSoFar(n: int, r: int, c: int, i: int)
  {
    ((c == 0 || c == n - 1) && r < i) || ((r == 0 || r == n - 1) && c < i)
  }

  /** Pass i of the third loop flags exactly the cells (i, 0), (i, n-1), (0, i) and (n-1, i). */
  lemma EdgeRoundAddressed(n: int, i: int)
    requires n >= 2 && 0 <= i < n
    ensures forall k :: 0 <= k < n * n ==>
              (EdgeSoFar(n, k / n, k % n, i + 1) <==>
                 EdgeSoFar(n, k / n, k % n, i) || k == n * i || k == n * i + n - 1 || k == i || k == n * (n - 1) + i)
  {
    forall k | 0 <= k < n * n
      ensures EdgeSoFar(n, k / n, k % n, i + 1) <==>
                EdgeSoFar(n, k / n, k % n, i) || k == n * i || k == n * i + n - 1 || k == i || k == n * (n - 1) + i
    {
      Decompose(n, k);
      RowCol(n, i, 0);
      RowCol(n, i, n - 1);
      RowCol(n, 0, i);
      RowCol(n, n - 1, i);
    }
  }

  /** Lines 73-76: the body of the third loop, one cell of each side. */
  method EdgeRound(a: array<Node>, n: int, i: int)
    requires 0 <= i < n && a.Length == n * n
    modifies a
    ensures forall k :: 0 <= k < a.Length ==>
              a[k] == if k == n * i || k == n * i + n - 1 || k == i || k == n * (n - 1) + i
                      then old(a[k]).(edge := true) else old(a[k])
  {
    assert n * i + n <= a.Length by { MulLeftMono(n, i + 1, n); }
    assert n * (n - 1) == a.Length - n;
    a[n * i] := a[n * i].(edge := true);
    a[n * i + n - 1] := a[n * i + n - 1].(edge := true);
    a[i] := a[i].(edge := true);
    a[n * (n - 1) + i] := a[n * (n - 1) + i].(edge := true);
  }

  /** Lines 72-77: the third pass, the edge flags of the outer border. */
  method MarkBorder(a: array<Node>, n: int)
    requires n >= 2 && a.Length == n * n
    modifies a
    ensures forall k :: 0 <= k < a.Length ==>
              a[k] == if OnBorder(n, k / n, k % n) then old(a[k]).(edge := true) else old(a[k])
  {
    for i := 0 to n
      invariant forall k :: 0 <= k < a.Length ==>
                  a[k] == if EdgeSoFar(n, k / n, k % n, i) then old(a[k]).(edge := true) else old(a[k])
    {
      EdgeRound(a, n, i);
      EdgeRoundAddressed(n, i);
    }
    CellsInGrid(n);
  }

  /** The cells of the cavity moved by the first passes of the fourth loop, rows n/10 to i-1. */
  predicate CavitySoFar(n: int, r: int, c: int, i: int)
  {
    Strip(n) <= r < i && 0 <= c < n - Strip(n)
  }

  /** The rim cells flagged by the passes of the fourth loop before row i. */
  predicate RimSoFar(n: int, r: int, c: int, i: int)
  {
    (r == Strip(n) - 1 && 0 <= c < n - Strip(n) && i > Strip(n))
    || (r == n - Strip(n) && 0 <= c < n - Strip(n) && i >= n - Strip(n))
    || (Strip(n) <= r < i && c == n - Strip(n))
  }

  /** The indices pass i of the fourth loop moves into the cavity: columns 0 to n-n/10-1 of row i. */
  predicate RowMoved(n: int, i: int, k: int)
  {
    n * i <= k < n * i + (n - Strip(n))
  }

  /**
   * The indices pass i of the fourth loop flags as edge: column n-n/10 of
   * row i, and in the first pass row i-1, in the last pass row i+1, each
   * over columns 0 to n-n/10-1.
   */
  predicate RowRim(n: int, i: int, k: int)
  {
    k == n * i + (n - Strip(n))
    || (i == Strip(n) && n * (i - 1) <= k < n * (i - 1) + (n - Strip(n)))
    || (i == n - Strip(n) - 1 && n * (i + 1) <= k < n * (i + 1) + (n - Strip(n)))
  }

  /** Lines 80-89: one pass of the fourth loop, row i of the cavity. */
  method HollowRow(a: array<Node>, n: int, i: int)
    requires n >= 10 && a.Length == n * n && Strip(n) <= i < n - Strip(n)
    modifies a
    ensures forall k :: 0 <= k < a.Length ==> a[k] == Hollowed(old(a[k]), RowMoved(n, i, k), RowRim(n, i, k))
  {
    var m := n / 10;
    assert 0 <= n * (i - 1) && n * (i + 2) <= a.Length by {
      MulLeftMono(n, 0, i - 1);
      MulLeftMono(n, i + 2, n);
    }
    var j := 0;
    while j < n - m
      invariant 0 <= j <= n - m
      invariant forall k :: 0 <= k < a.Length ==>
                  a[k] == Hollowed(old(a[k]), n * i <= k < n * i + j,
                                   (i == m && n * (i - 1) <= k < n * (i - 1) + j)
                                   || (i == n - m - 1 && n * (i + 1) <= k < n * (i + 1) + j))
    {
      if i == m {
        a[n * (i - 1) + j] := a[n * (i - 1) + j].(edge := true);
      } else if i == n - m - 1 {
        a[n * (i + 1) + j] := a[n * (i + 1) + j].(edge := true);
      }
      a[n * i + j] := a[n * i + j].(x := -100.0);
      j := j + 1;
    }
    a[n * i + j] := a[n * i + j].(edge := true);
  }

  /** Pass i of the fourth loop extends the moved cells and the rim by the indices it writes. */
  lemma HollowRoundAddressed(n: int, i: int)
    requires n >= 10 && Strip(n) <= i < n - Strip(n)
    ensures forall k :: 0 <= k < n * n ==>
              (CavitySoFar(n, k / n, k % n, i + 1) <==> CavitySoFar(n, k / n, k % n, i) || RowMoved(n, i, k))
              && (RimSoFar(n, k / n, k % n, i + 1) <==> RimSoFar(n, k / n, k % n, i) || RowRim(n, i, k))
  {
    RowExactly(n, i - 1);
    RowExactly(n, i);
    RowExactly(n, i + 1);
  }

  /** Lines 79-90: the fourth pass, the cavity and its rim. */
  method HollowCavity(a: array<Node>, n: int)
    requires n >= 10 && a.Length == n * n
    modifies a
    ensures forall k :: 0 <= k < a.Length ==>
              a[k] == Hollowed(old(a[k]), InCavity(n, k / n, k % n), OnRim(n, k / n, k % n))
  {
    var m := n / 10;
    for i := m to n - m
      invariant forall k :: 0 <= k < a.Length ==>
                  a[k] == Hollowed(old(a[k]), CavitySoFar(n, k / n, k % n, i), RimSoFar(n, k / n, k % n, i))
    {
      HollowRow(a, n, i);
      HollowRoundAddressed(n, i);
    }
  }

  /** The cells pinned at ltem by the first i passes of the fifth loop. */
  predicate LeftSoFar(n: int, r: int, c: int, i: int)
  {
    c == 0 && 0 <= r < i
  }

  /** The cells pinned at rtem by the first i passes of the fifth loop. */
  predicate RightSoFar(n: int, r: int, c: int, i: int)
  {
    c == 0 && n - i <= r < n
  }

  /** What pass i of the fifth loop does to the cell at index k. */
  predicate PinnedByRound(n: int, i: int, k: int)
    requires n > 0
  {
    var r, c := k / n, k % n;
    && (k == n * i ==>
          LeftSoFar(n, r, c, i + 1) && !RightSoFar(n, r, c, i + 1) && !LeftSoFar(n, r, c, i) && !RightSoFar(n, r, c, i))
    && (k == n * (n - i - 1) ==>
          RightSoFar(n, r, c, i + 1) && !LeftSoFar(n, r, c, i + 1) && !LeftSoFar(n, r, c, i) && !RightSoFar(n, r, c, i))
    && (k != n * i && k != n * (n - i - 1) ==>
          (LeftSoFar(n, r, c, i + 1) <==> LeftSoFar(n, r, c, i))
          && (RightSoFar(n, r, c, i + 1) <==> RightSoFar(n, r, c, i)))
  }

  /**
   * Pass i of the fifth loop pins exactly (i, 0) at ltem and (n-i-1, 0) at
   * rtem, two cells no earlier pass pinned.
   */
  lemma PinCell(n: int, i: int, k: int)
    requires n >= 10 && 0 <= i < Strip(n) && 0 <= k < n * n
    ensures PinnedByRound(n, i, k)
  {
    assert i + 1 < n - i - 1;
    assert n * i < n * (n - i - 1) by { MulLeftMono(n, i + 1, n - i - 1); }
    Decompose(n, k);
    var r, c := k / n, k % n;
    if k == n * i {
      IdxInjective(n, r, c, i, 0);
    } else if k == n * (n - i - 1) {
      IdxInjective(n, r, c, n - i - 1, 0);
    } else {
      assert c == 0 ==> r != i && r != n - i - 1;
    }
  }

  /** Lines 93-96: the body of the fifth loop. */
  method PinRound(a: array<Node>, n: int, i: int, ltem: real, rtem: real)
    requires n >= 10 && a.Length == n * n && 0 <= i < Strip(n)
    modifies a
    ensures forall k :: 0 <= k < a.Length ==>
              a[k] == if k == n * i then old(a[k]).(T := ltem, fixed := true)
                      else if k == n * (n - i - 1) then old(a[k]).(T := rtem, fixed := true)
                      else old(a[k])
  {
    assert n * i < n * (n - i - 1) < a.Length by {
      MulLeftMono(n, i + 1, n - i - 1);
      MulLeftMono(n, n - i, n);
    }
    a[n * i] := a[n * i].(T := ltem, fixed := true);
    a[n * (n - i - 1)] := a[n * (n - i - 1)].(T := rtem, fixed := true);
  }

  /** Lines 92-97: the fifth pass, the two fixed strips in column 0. */
  method PinStrips(a: array<Node>, n: int, ltem: real, rtem: real)
    requires n >= 10 && a.Length == n * n
    modifies a
    ensures forall k :: 0 <= k < a.Length ==>
              a[k] == Pinned(old(a[k]), PinnedLeft(n, k / n, k % n), PinnedRight(n, k / n, k % n), ltem, rtem)
  {
    var m := n / 10;
    for i := 0 to m
      invariant forall k :: 0 <= k < a.Length ==>
                  a[k] == Pinned(old(a[k]), LeftSoFar(n, k / n, k % n, i), RightSoFar(n, k / n, k % n, i), ltem, rtem)
    {
      PinRound(a, n, i, ltem, rtem);
      forall k | 0 <= k < a.Length
        ensures a[k] == Pinned(old(a[k]), LeftSoFar(n, k / n, k % n, i + 1), RightSoFar(n, k / n, k % n, i + 1),
                               ltem, rtem)
      {
        PinCell(n, i, k);
      }
    }
  }

  /**
   * apply_tsum: a free node adds the neighbour's temperature when the two
   * lie less than 10 apart in x; a fixed node is untouched.
   */
  function ApplyTsum(t: Node, nb: Node): (r: Node)
    ensures t.fixed ==> r == t
    ensures r == t.(T_sum := r.T_sum)
    ensures r.T_sum == t.T_sum || (!t.fixed && r.T_sum == t.T_sum + nb.T)
  {
    if t.fixed then t
    else if Abs(t.x - nb.x) < 10.0 then t.(T_sum := t.T_sum + nb.T)
    else t
  }

  /**
   * On the laid-out plate, where a solid node has 0 <= x <= 1 and a cavity
   * node x = -100, a free node takes a neighbour's temperature exactly when
   * both are solid or both are in the cavity.
   */
  lemma SidesDoNotMix(t: Node, nb: Node)
    requires !t.fixed
    requires t.x == CavityX || 0.0 <= t.x <= 1.0
    requires nb.x == CavityX || 0.0 <= nb.x <= 1.0
    ensures ApplyTsum(t, nb).T_sum == if (t.x == CavityX) == (nb.x == CavityX) then t.T_sum + nb.T else t.T_sum
  {
  }

  /** tupdate: a free node takes its sum divided by div and clears the sum; there is no source term. */
  function TUpdate(t: Node, div: real): (r: Node)
    requires div != 0.0
    ensures t.fixed ==> r == t
    ensures !t.fixed ==> r == t.(T := t.T_sum / div, T_sum := 0.0)
  {
    if t.fixed then t else t.(T := t.T_sum / div, T_sum := 0.0)
  }

  /**
   * Lines 138-141, the selection inside save: the indices of the nodes with
   * x > -1, in increasing order; exactly those nodes are written.
   */
  function Visible(s: seq<Node>): (r: seq<int>)
    ensures forall p :: 0 <= p < |r| ==> 0 <= r[p] < |s| && s[r[p]].x > -1.0
    ensures forall p, q :: 0 <= p < q < |r| ==> r[p] < r[q]
    ensures forall k :: 0 <= k < |s| && s[k].x > -1.0 ==> k in r
  {
    if s == [] then []
    else
      var rest := Visible(s[..|s| - 1]);
      if s[|s| - 1].x > -1.0 then rest + [|s| - 1] else rest
  }

  /** Every solid cell of the laid-out plate is saved, and no cavity cell is. */
  lemma SavedAreSolid(s: seq<Node>, o: seq<Node>, n: int, ltem: real, rtem: real)
    requires n >= 10 && |s| == |o| == n * n
    requires forall k :: 0 <= k < |s| ==> s[k] == ShapeNode(o[k], n, k / n, k % n, ltem, rtem)
    ensures forall k :: 0 <= k < |s| ==> (k in Visible(s) <==> !InCavity(n, k / n, k % n))
  {
    CellsInGrid(n);
    forall k | 0 <= k < |s|
      ensures k in Visible(s) <==> !InCavity(n, k / n, k % n)
    {
      ShapeCell(o[k], n, k / n, k % n, ltem, rtem);
      if k in Visible(s) {
        var p :| 0 <= p < |Visible(s)| && Visible(s)[p] == k;
      }
    }
  }
}
