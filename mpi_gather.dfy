/**
 * The MPI_Allgather of heatGen/oneD/mpi.cpp (lines 92-93 and 102-103),
 * which works on raw memory and is modelled byte for byte. A 1D node is 40
 * bytes: the doubles T, T_sum, x and qdot at bytes 0, 8, 16 and 24, the int
 * fixed at byte 32 and four bytes of padding. A buffer is a sequence of
 * 4-byte quads: a node is ten quads and a double two, its low and its high
 * half. The ranks' buffers are the values of MpiExchange.Ranks.
 */
module MpiGather {
  import opened HeatNode
  import opened MpiPartition
  import opened Options
  import opened MpiExchange

  /** One quad of a buffer: a half of the double v, the int flag, or padding. */
  datatype Quad = Low(v: real) | High(v: real) | Flag(b: bool) | Pad

  /** sizeof(node_t), in quads. */
  const NodeQuads := 10

  /**
   * The NODE datatype of lines 36-41 as MPI lays it out: its type map covers
   * three doubles and the int at byte 24, the first seven quads; it is never
   * resized, so its extent is those 28 bytes rounded up to the alignment of
   * a double, 32 bytes or eight quads.
   */
  const NodeSpan := 7
  const NodeExtent := 8

  /**
   * The datatype the gather needs: every field of the node, the first nine
   * quads, with the extent of the node, so that element e is node e.
   */
  const WholeSpan := 9
  const WholeExtent := NodeQuads

  /** The double whose low half is quad k, or None when quads k and k + 1 hold halves of different values. */
  function DoubleAt(m: seq<Quad>, k: int): Option<real>
    requires 0 <= k && k + 1 < |m|
  {
    if m[k].Low? && m[k + 1] == High(m[k].v) then Some(m[k].v) else None
  }

  /** The int flag at quad k, or None when quad k holds part of a double or padding. */
  function FlagAt(m: seq<Quad>, k: int): Option<bool>
    requires 0 <= k < |m|
  {
    if m[k].Flag? then Some(m[k].b) else None
  }

  /** The quads of one node; reading them back gives its five fields. */
  function Encode(nd: Node): (m: seq<Quad>)
    ensures |m| == NodeQuads
    ensures DoubleAt(m, 0) == Some(nd.T) && DoubleAt(m, 2) == Some(nd.T_sum)
    ensures DoubleAt(m, 4) == Some(nd.x) && DoubleAt(m, 6) == Some(nd.qdot)
    ensures FlagAt(m, 8) == Some(nd.fixed)
  {
    [Low(nd.T), High(nd.T), Low(nd.T_sum), High(nd.T_sum), Low(nd.x), High(nd.x),
     Low(nd.qdot), High(nd.qdot), Flag(nd.fixed), Pad]
  }

  /** A node buffer as memory: node i occupies quads NodeQuads * i to NodeQuads * i + 9. */
  function Flat(s: seq<Node>): (m: seq<Quad>)
    ensures |m| == NodeQuads * |s|
  {
    seq(NodeQuads * |s|, k requires 0 <= k < NodeQuads * |s| => Encode(s[k / NodeQuads])[k % NodeQuads])
  }

  /** Slot i of memory m holds the quads of every field of nd (its padding is not compared). */
  predicate Holds(m: seq<Quad>, i: int, nd: Node)
    requires 0 <= i && NodeQuads * i + NodeQuads <= |m|
  {
    forall o :: 0 <= o < WholeSpan ==> m[NodeQuads * i + o] == Encode(nd)[o]
  }

  /** A slot that holds a node reads back as its T, T_sum, x, qdot and fixed. */
  lemma ReadsBack(m: seq<Quad>, i: int, nd: Node)
    requires 0 <= i && NodeQuads * i + NodeQuads <= |m| && Holds(m, i, nd)
    ensures DoubleAt(m, NodeQuads * i) == Some(nd.T) && DoubleAt(m, NodeQuads * i + 2) == Some(nd.T_sum)
    ensures DoubleAt(m, NodeQuads * i + 4) == Some(nd.x) && DoubleAt(m, NodeQuads * i + 6) == Some(nd.qdot)
    ensures FlagAt(m, NodeQuads * i + 8) == Some(nd.fixed)
  {
    var k := NodeQuads * i;
    var e := Encode(nd);
    assert m[k] == e[0] && m[k + 1] == e[1] && m[k + 2] == e[2] && m[k + 3] == e[3];
    assert m[k + 4] == e[4] && m[k + 5] == e[5] && m[k + 6] == e[6] && m[k + 7] == e[7];
    assert m[k + 8] == e[8];
  }

  /**
   * Rank q's recv_buffer after MPI_Allgather of every rank's owned range in
   * a datatype whose type map covers its first span quads and whose extent
   * is extent quads, when nProc divides n (so every rank sends c = n / nProc
   * elements). Element e of rank p is read extent * e quads past
   * &tnodes[lindex] and written extent * (p * c + e) quads into
   * recv_buffer; quads no type map covers keep what recv_buffer held.
   */
  function Allgathered(r: Ranks, n: int, q: int, span: int, extent: int): (g: seq<Quad>)
    requires Shaped(r, n) && n % |r.bufs| == 0 && 0 <= q < |r.bufs|
    requires 1 <= span <= extent <= NodeQuads
    ensures |g| == NodeQuads * n
  {
    var c := n / |r.bufs|;
    seq(NodeQuads * n, k requires 0 <= k < NodeQuads * n =>
      if k < extent * n && k % extent < span then
        ElementSource(k, n, |r.bufs|, extent);
        var el := k / extent;
        Flat(r.bufs[el / c])[NodeQuads * LIndex(el / c, n, |r.bufs|) + extent * (el % c) + k % extent]
      else Flat(r.recvs[q])[k])
  }

  /**
   * Quad k of the gathered region belongs to element k / extent of the
   * whole, which is element el % c of rank el / c, and the quad it copies
   * lies inside that rank's buffer.
   */
  lemma ElementSource(k: int, n: int, nProc: int, extent: int)
    requires 1 <= nProc <= n && n % nProc == 0 && 1 <= extent <= NodeQuads && 0 <= k < extent * n
    ensures n / nProc >= 1 && 0 <= k / extent < n
    ensures 0 <= k / extent / (n / nProc) < nProc
    ensures 0 <= NodeQuads * LIndex(k / extent / (n / nProc), n, nProc)
                 + extent * (k / extent % (n / nProc)) + k % extent < NodeQuads * n
  {
    var el := k / extent;
    var e := el % (n / nProc);
    ElementOf(k, n, nProc, extent);
    ScaledBelow(e, extent);
    SlotBound(LIndex(el / (n / nProc), n, nProc), e, el, n, k % extent, extent, extent * e);
  }

  /** Element k / extent of the whole lies in [0, n), in the block of rank el / c, at offset el % c from its start. */
  lemma ElementOf(k: int, n: int, nProc: int, extent: int)
    requires 1 <= nProc <= n && n % nProc == 0 && 1 <= extent <= NodeQuads && 0 <= k < extent * n
    ensures n / nProc >= 1 && 0 <= k / extent < n
    ensures 0 <= k / extent / (n / nProc) < nProc
    ensures 0 <= LIndex(k / extent / (n / nProc), n, nProc)
    ensures LIndex(k / extent / (n / nProc), n, nProc) + k / extent % (n / nProc) == k / extent
  {
    QuotientInRange(k, extent, n);
    BlockOffset(k / extent, n, nProc);
  }

  /** With even ranges, node i is i % c nodes past the start of block i / c, c = n / nProc. */
  lemma BlockOffset(i: int, n: int, nProc: int)
    requires 1 <= nProc <= n && n % nProc == 0 && 0 <= i < n
    ensures n / nProc >= 1 && 0 <= i / (n / nProc) < nProc
    ensures 0 <= LIndex(i / (n / nProc), n, nProc)
    ensures LIndex(i / (n / nProc), n, nProc) + i % (n / nProc) == i
  {
    var c := n / nProc;
    BlockOf(i, n, nProc);
    var p := i / c;
    RangeOf(p, n, nProc);
    EvenRange(p, n, nProc);
    assert i == c * p + i % c;
    assert p * c == c * p;
  }

  /** The quad a gathered element copies lies below the end of an n-node buffer. */
  lemma SlotBound(l: int, e: int, el: int, n: int, off: int, extent: int, scaled: int)
    requires 0 <= l && l + e == el < n && 0 <= scaled <= NodeQuads * e && 0 <= off < extent <= NodeQuads
    ensures 0 <= NodeQuads * l + scaled + off < NodeQuads * n
  {
  }

  /** A scale of at most NodeQuads scales a non-negative count by at most NodeQuads. */
  lemma ScaledBelow(e: int, extent: int)
    requires 0 <= e && 1 <= extent <= NodeQuads
    ensures 0 <= extent * e <= NodeQuads * e
  {
    if e >= 1 {
      MulSign(e, NodeQuads - extent + 1);
      MulSign(e, extent);
      assert e * (NodeQuads - extent + 1) == NodeQuads * e - extent * e + e;
    }
  }

  /** With even ranges, node i lies in block i / (n / nProc), which is the range of that rank. */
  lemma BlockOf(i: int, n: int, nProc: int)
    requires 1 <= nProc <= n && n % nProc == 0 && 0 <= i < n
    ensures n / nProc >= 1 && 0 <= i / (n / nProc) < nProc
    ensures LIndex(i / (n / nProc), n, nProc) <= i < RIndex(i / (n / nProc), n, nProc)
  {
    var c := n / nProc;
    DivMono(nProc, n, nProc);
    assert n == nProc * c;
    QuotientInRange(i, c, nProc);
    var p := i / c;
    EvenRange(p, n, nProc);
    assert p * c == c * p && (p + 1) * c == c * p + c;
  }

  /** A number in [0, c * m) has its quotient by c in [0, m) and lies in that quotient's block of c. */
  lemma QuotientInRange(i: int, c: int, m: int)
    requires c >= 1 && 0 <= i < c * m
    ensures 0 <= i / c < m && c * (i / c) <= i < c * (i / c) + c
  {
    var p := i / c;
    assert i == c * p + i % c;
    MulSign(c, p - m + 1);
    assert c * (p - m + 1) == c * p - c * m + c;
    MulSign(c, p);
  }

  /**
   * The gather as written tears nodes once a rank sends two or more. With
   * n = 4 and two ranks, rank 1's block starts 64 bytes into recv_buffer,
   * inside node 1, and node 2's T slot receives the x of rank 1's node 2:
   * whenever that node's x and T differ, recv_buffer[2] does not read back
   * as the node its owner holds.
   */
  lemma GatherTearsNodes(r: Ranks, q: int)
    requires Shaped(r, 4) && |r.bufs| == 2 && 0 <= q < 2
    ensures Owner(2, 4, 2) == 1
    ensures DoubleAt(Allgathered(r, 4, q, NodeSpan, NodeExtent), NodeQuads * 2) == Some(r.bufs[1][2].x)
    ensures r.bufs[1][2].x != r.bufs[1][2].T ==> !Holds(Allgathered(r, 4, q, NodeSpan, NodeExtent), 2, r.bufs[1][2])
  {
    Tiling(2, 4, 2);
    var g := Allgathered(r, 4, q, NodeSpan, NodeExtent);
    var b := Flat(r.bufs[1]);
    var nd := r.bufs[1][2];
    assert LIndex(1, 4, 2) == 2;
    assert 20 / NodeExtent == 2 && 21 / NodeExtent == 2 && 2 / (4 / 2) == 1 && 2 % (4 / 2) == 0;
    assert g[20] == b[24] && g[21] == b[25];
    assert b[24] == Encode(nd)[4] && b[25] == Encode(nd)[5];
    assert g[NodeQuads * 2 + 0] == Low(nd.x);
  }

  /**
   * With a datatype that covers the whole node and has the node's extent,
   * the gather gives every rank the whole bar: slot i of rank q's
   * recv_buffer reads back as node i as its owner holds it, for every i in
   * [0, n).
   */
  lemma WholeGatherCollectsOwners(r: Ranks, n: int, q: int)
    requires Shaped(r, n) && n % |r.bufs| == 0 && 0 <= q < |r.bufs|
    ensures forall i :: 0 <= i < n ==>
              0 <= Owner(i, n, |r.bufs|) < |r.bufs|
              && Holds(Allgathered(r, n, q, WholeSpan, WholeExtent), i, r.bufs[Owner(i, n, |r.bufs|)][i])
  {
    var g := Allgathered(r, n, q, WholeSpan, WholeExtent);
    forall i | 0 <= i < n
      ensures 0 <= Owner(i, n, |r.bufs|) < |r.bufs|
      ensures Holds(g, i, r.bufs[Owner(i, n, |r.bufs|)][i])
    {
      WholeSlot(r, n, q, i);
    }
  }

  /** Slot i of the whole-node gather holds its owner's node i. */
  lemma WholeSlot(r: Ranks, n: int, q: int, i: int)
    requires Shaped(r, n) && n % |r.bufs| == 0 && 0 <= q < |r.bufs| && 0 <= i < n
    ensures 0 <= Owner(i, n, |r.bufs|) < |r.bufs|
    ensures Holds(Allgathered(r, n, q, WholeSpan, WholeExtent), i, r.bufs[Owner(i, n, |r.bufs|)][i])
  {
    var np := |r.bufs|;
    var g := Allgathered(r, n, q, WholeSpan, WholeExtent);
    BlockOf(i, n, np);
    Tiling(i, n, np);
    var p := i / (n / np);
    assert p == Owner(i, n, np);
    forall o | 0 <= o < WholeSpan
      ensures g[NodeQuads * i + o] == Encode(r.bufs[p][i])[o]
    {
      WholeQuad(r, n, q, i, o);
    }
  }

  /** Quad o of slot i of the whole-node gather is quad o of node i of the rank whose block holds i. */
  lemma WholeQuad(r: Ranks, n: int, q: int, i: int, o: int)
    requires Shaped(r, n) && n % |r.bufs| == 0 && 0 <= q < |r.bufs| && 0 <= i < n && 0 <= o < WholeSpan
    ensures n / |r.bufs| >= 1 && 0 <= i / (n / |r.bufs|) < |r.bufs|
    ensures Allgathered(r, n, q, WholeSpan, WholeExtent)[NodeQuads * i + o] == Encode(r.bufs[i / (n / |r.bufs|)][i])[o]
  {
    var np := |r.bufs|;
    var c := n / np;
    BlockOf(i, n, np);
    var p := i / c;
    var k := NodeQuads * i + o;
    assert k / WholeExtent == i && k % WholeExtent == o;
    assert NodeQuads * LIndex(p, n, np) + WholeExtent * (i % c) + o == k by {
      EvenRange(p, n, np);
      assert i == c * p + i % c;
      assert p * c == c * p;
    }
    assert k < WholeExtent * n && k % WholeExtent < WholeSpan;
    assert k / WholeExtent / c == p && k / WholeExtent % c == i % c;
    var g := Allgathered(r, n, q, WholeSpan, WholeExtent);
    assert g[k] == Flat(r.bufs[p])[k];
  }
}
