/**
 * The ghost-node exchange of heatGen/oneD/mpi.cpp (lines 70-88) and the
 * gather of the owned ranges (lines 92-93 and 102-103, which MpiGather
 * models), with the MPI
 * processes laid side by side: rank q's tnodes buffer is tnodes[q] and its
 * recv_buffer is recv[q]. Each MPI_Sendrecv pair becomes a copy from the
 * sending rank's buffer through the receiving rank's recv_buffer.
 *
 * The NODE datatype of lines 36-41 describes three doubles and an int at
 * byte 24. Of the five fields of the 1D node (T, T_sum, x, qdot, fixed)
 * it covers T, T_sum and x; byte 24 is the start of qdot, and fixed, at
 * byte 32, is never sent. A received node therefore keeps the qdot and
 * fixed that the receiving buffer already held.
 */
module MpiExchange {
  import opened HeatNode
  import opened MpiPartition

  /** The node a receive of one NODE leaves in a buffer slot that held `held`. */
  function Received(sent: Node, held: Node): (r: Node)
    ensures r.T == sent.T && r.T_sum == sent.T_sum && r.x == sent.x
    ensures r.qdot == held.qdot && r.fixed == held.fixed
  {
    held.(T := sent.T, T_sum := sent.T_sum, x := sent.x)
  }

  /** A receive does not carry the sender's fixed flag: a pinned node arrives free in a slot that held a free node. */
  lemma FixedNotSent()
    ensures exists sent: Node, held: Node :: sent.fixed && !Received(sent, held).fixed
  {
    var sent := Node(400.0, 0.0, 0.0, 0.0, 0.0, true, false, false);
    var held := sent.(fixed := false);
    assert sent.fixed && !Received(sent, held).fixed;
  }

  /** The buffers of all ranks, as values: tnodes and recv_buffer per rank. */
  datatype Ranks = Ranks(bufs: seq<seq<Node>>, recvs: seq<seq<Node>>)

  /**
   * Every rank holds an n-node tnodes buffer and an n-node recv_buffer
   * (lines 26 and 52), and there are at least as many nodes as ranks, so
   * that every rank's range is nonempty and lindex - 1 and rindex are
   * inside the buffer wherever lines 78 and 88 write them.
   */
  predicate Shaped(r: Ranks, n: int)
  {
    |r.bufs| == |r.recvs| >= 1 && n >= |r.bufs|
    && (forall q :: 0 <= q < |r.bufs| ==> |r.bufs[q]| == n && |r.recvs[q]| == n)
  }

  /**
   * The slots lines 74-88 touch on rank q: its range is nonempty, it starts
   * where rank q - 1's ends and ends where rank q + 1's starts, and the
   * ghost slots lindex - 1 (q > 0) and rindex (q < nProc - 1) lie inside
   * the n-node buffer.
   */
  lemma Slots(q: int, n: int, nProc: int)
    requires 1 <= nProc <= n && 0 <= q < nProc
    ensures 0 <= LIndex(q, n, nProc) < RIndex(q, n, nProc) <= n
    ensures q > 0 ==> 1 <= LIndex(q, n, nProc) && LIndex(q, n, nProc) == RIndex(q - 1, n, nProc)
    ensures q < nProc - 1 ==> RIndex(q, n, nProc) < n && RIndex(q, n, nProc) == LIndex(q + 1, n, nProc)
  {
    RangeOf(q, n, nProc);
    RangeSize(q, n, nProc);
    if q > 0 {
      RangeOf(q - 1, n, nProc);
      RangeSize(q - 1, n, nProc);
    }
    if q < nProc - 1 {
      RangeOf(q + 1, n, nProc);
      RangeSize(q + 1, n, nProc);
    }
  }

  /** What rank q < nProc - 1 receives at lines 74-76: the first owned node of rank q + 1. */
  function FromRight(r: Ranks, n: int, q: int): Node
    requires Shaped(r, n) && 0 <= q < |r.bufs| - 1
  {
    Slots(q + 1, n, |r.bufs|);
    Received(r.bufs[q + 1][LIndex(q + 1, n, |r.bufs|)], r.recvs[q][0])
  }

  /** Rank q's tnodes after line 78. */
  function LeftBuf(r: Ranks, n: int, q: int): (b: seq<Node>)
    requires Shaped(r, n) && 0 <= q < |r.bufs|
    ensures |b| == n
  {
    if q == |r.bufs| - 1 then r.bufs[q]
    else
      Slots(q, n, |r.bufs|);
      r.bufs[q][RIndex(q, n, |r.bufs|) := FromRight(r, n, q)]
  }

  /** Rank q's recv_buffer after lines 74-76. */
  function LeftRecv(r: Ranks, n: int, q: int): (b: seq<Node>)
    requires Shaped(r, n) && 0 <= q < |r.bufs|
    ensures |b| == n
  {
    if q == |r.bufs| - 1 then r.recvs[q] else r.recvs[q][0 := FromRight(r, n, q)]
  }

  /**
   * Lines 71-79 on every rank: each rank but the last receives the first
   * owned node of rank + 1 into recv_buffer[0] and copies it to
   * tnodes[rindex]; the last rank's source is MPI_PROC_NULL and nothing
   * changes there.
   */
  function SentLeft(r: Ranks, n: int): (res: Ranks)
    requires Shaped(r, n)
    ensures Shaped(res, n)
  {
    Ranks(seq(|r.bufs|, q requires 0 <= q < |r.bufs| => LeftBuf(r, n, q)),
          seq(|r.bufs|, q requires 0 <= q < |r.bufs| => LeftRecv(r, n, q)))
  }

  /** What rank q > 0 receives at lines 84-86: the last owned node of rank q - 1. */
  function FromLeft(r: Ranks, n: int, q: int): Node
    requires Shaped(r, n) && 0 < q < |r.bufs|
  {
    Slots(q - 1, n, |r.bufs|);
    Received(r.bufs[q - 1][RIndex(q - 1, n, |r.bufs|) - 1], r.recvs[q][0])
  }

  /** Rank q's tnodes after line 88. */
  function RightBuf(r: Ranks, n: int, q: int): (b: seq<Node>)
    requires Shaped(r, n) && 0 <= q < |r.bufs|
    ensures |b| == n
  {
    if q == 0 then r.bufs[q]
    else
      Slots(q, n, |r.bufs|);
      r.bufs[q][LIndex(q, n, |r.bufs|) - 1 := FromLeft(r, n, q)]
  }

  /** Rank q's recv_buffer after lines 84-86. */
  function RightRecv(r: Ranks, n: int, q: int): (b: seq<Node>)
    requires Shaped(r, n) && 0 <= q < |r.bufs|
    ensures |b| == n
  {
    if q == 0 then r.recvs[q] else r.recvs[q][0 := FromLeft(r, n, q)]
  }

  /**
   * Lines 81-88 on every rank: each rank but the first receives the last
   * owned node of rank - 1 into recv_buffer[0] and copies it to
   * tnodes[lindex - 1]; rank 0's source is MPI_PROC_NULL.
   */
  function SentRight(r: Ranks, n: int): (res: Ranks)
    requires Shaped(r, n)
    ensures Shaped(res, n)
  {
    Ranks(seq(|r.bufs|, q requires 0 <= q < |r.bufs| => RightBuf(r, n, q)),
          seq(|r.bufs|, q requires 0 <= q < |r.bufs| => RightRecv(r, n, q)))
  }

  /** The whole exchange of one time step: to the left, then to the right. */
  function Exchanged(r: Ranks, n: int): (res: Ranks)
    requires Shaped(r, n)
    ensures Shaped(res, n)
  {
    SentRight(SentLeft(r, n), n)
  }

  /** The 2 * nProc buffers of the ranks are distinct arrays, each of n nodes. */
  ghost predicate Separate(tnodes: seq<array<Node>>, recv: seq<array<Node>>, n: int)
  {
    |tnodes| == |recv| >= 1 && n >= |tnodes|
    && (forall q :: 0 <= q < |tnodes| ==> tnodes[q].Length == n && recv[q].Length == n)
    && (forall p, q :: 0 <= p < |tnodes| && 0 <= q < |tnodes| && p != q ==> tnodes[p] != tnodes[q] && recv[p] != recv[q])
    && (forall p, q :: 0 <= p < |tnodes| && 0 <= q < |tnodes| ==> tnodes[p] != recv[q])
  }

  /** The arrays of rank q are none of the other ranks' arrays. */
  lemma Apart(tnodes: seq<array<Node>>, recv: seq<array<Node>>, n: int, q: int)
    requires Separate(tnodes, recv, n) && 0 <= q < |tnodes|
    ensures forall p :: 0 <= p < |tnodes| && p != q ==>
              tnodes[p] != tnodes[q] && tnodes[p] != recv[q] && recv[p] != recv[q] && recv[p] != tnodes[q]
  {
  }

  /** Every array the ranks own. */
  ghost function Footprint(tnodes: seq<array<Node>>, recv: seq<array<Node>>): set<array<Node>>
  {
    (set q | 0 <= q < |tnodes| :: tnodes[q]) + (set q | 0 <= q < |recv| :: recv[q])
  }

  /** The current contents of the ranks' buffers. */
  function Contents(tnodes: seq<array<Node>>, recv: seq<array<Node>>): (r: Ranks)
    requires |tnodes| == |recv|
    reads set q | 0 <= q < |tnodes| :: tnodes[q]
    reads set q | 0 <= q < |recv| :: recv[q]
    ensures |r.bufs| == |r.recvs| == |tnodes|
    ensures forall q :: 0 <= q < |tnodes| ==> r.bufs[q] == tnodes[q][..] && r.recvs[q] == recv[q][..]
  {
    Ranks(seq(|tnodes|, q requires 0 <= q < |tnodes| reads set p | 0 <= p < |tnodes| :: tnodes[p] => tnodes[q][..]),
          seq(|recv|, q requires 0 <= q < |recv| reads set p | 0 <= p < |recv| :: recv[p] => recv[q][..]))
  }

  /** Buffers whose every rank holds what r says have r as their contents. */
  lemma ContentsAre(tnodes: seq<array<Node>>, recv: seq<array<Node>>, r: Ranks)
    requires |tnodes| == |recv| == |r.bufs| == |r.recvs|
    requires forall p :: 0 <= p < |tnodes| ==> tnodes[p][..] == r.bufs[p] && recv[p][..] == r.recvs[p]
    ensures Contents(tnodes, recv) == r
  {
  }

  /** Lines 74-79 on rank q < nProc - 1: receive rank q + 1's first owned node and store it at rindex. */
  method ReceiveFromRight(tnodes: seq<array<Node>>, recv: seq<array<Node>>, n: int, q: int, ghost r: Ranks)
    requires Separate(tnodes, recv, n) && 0 <= q < |tnodes| - 1
    requires Shaped(r, n) && |r.bufs| == |tnodes|
    requires tnodes[q][..] == r.bufs[q] && tnodes[q + 1][..] == r.bufs[q + 1] && recv[q][..] == r.recvs[q]
    modifies tnodes[q], recv[q]
    ensures tnodes[q][..] == LeftBuf(r, n, q) && recv[q][..] == LeftRecv(r, n, q)
    ensures forall p :: 0 <= p < |tnodes| && p != q ==> tnodes[p][..] == old(tnodes[p][..]) && recv[p][..] == old(recv[p][..])
  {
    Apart(tnodes, recv, n, q);
    Slots(q, n, |tnodes|);
    Slots(q + 1, n, |tnodes|);
    assert tnodes[q + 1][LIndex(q + 1, n, |tnodes|)] == r.bufs[q + 1][LIndex(q + 1, n, |tnodes|)];
    recv[q][0] := Received(tnodes[q + 1][LIndex(q + 1, n, |tnodes|)], recv[q][0]);
    tnodes[q][RIndex(q, n, |tnodes|)] := recv[q][0];
  }

  /** Lines 84-88 on rank q > 0: receive rank q - 1's last owned node and store it at lindex - 1. */
  method ReceiveFromLeft(tnodes: seq<array<Node>>, recv: seq<array<Node>>, n: int, q: int, ghost r: Ranks)
    requires Separate(tnodes, recv, n) && 0 < q < |tnodes|
    requires Shaped(r, n) && |r.bufs| == |tnodes|
    requires tnodes[q][..] == r.bufs[q] && tnodes[q - 1][..] == r.bufs[q - 1] && recv[q][..] == r.recvs[q]
    modifies tnodes[q], recv[q]
    ensures tnodes[q][..] == RightBuf(r, n, q) && recv[q][..] == RightRecv(r, n, q)
    ensures forall p :: 0 <= p < |tnodes| && p != q ==> tnodes[p][..] == old(tnodes[p][..]) && recv[p][..] == old(recv[p][..])
  {
    Apart(tnodes, recv, n, q);
    Slots(q, n, |tnodes|);
    Slots(q - 1, n, |tnodes|);
    assert tnodes[q - 1][RIndex(q - 1, n, |tnodes|) - 1] == r.bufs[q - 1][RIndex(q - 1, n, |tnodes|) - 1];
    recv[q][0] := Received(tnodes[q - 1][RIndex(q - 1, n, |tnodes|) - 1], recv[q][0]);
    tnodes[q][LIndex(q, n, |tnodes|) - 1] := recv[q][0];
  }

  /** Lines 71-79, rank by rank; no rank reads a buffer an earlier rank has written. */
  method SendLeft(tnodes: seq<array<Node>>, recv: seq<array<Node>>, n: int)
    requires Separate(tnodes, recv, n)
    modifies Footprint(tnodes, recv)
    ensures Shaped(old(Contents(tnodes, recv)), n)
    ensures Contents(tnodes, recv) == SentLeft(old(Contents(tnodes, recv)), n)
  {
    var np := |tnodes|;
    ghost var r0 := Contents(tnodes, recv);
    ghost var t := SentLeft(r0, n);
    for q := 0 to np
      invariant forall p :: 0 <= p < q ==> tnodes[p][..] == t.bufs[p] && recv[p][..] == t.recvs[p]
      invariant forall p :: q <= p < np ==> tnodes[p][..] == r0.bufs[p] && recv[p][..] == r0.recvs[p]
    {
      assert t.bufs[q] == LeftBuf(r0, n, q) && t.recvs[q] == LeftRecv(r0, n, q);
      if q != np - 1 {
        ReceiveFromRight(tnodes, recv, n, q, r0);
      }
    }
    ContentsAre(tnodes, recv, t);
  }

  /** Lines 81-88, rank by rank from the last down, so every rank reads a buffer no earlier iteration has written. */
  method SendRight(tnodes: seq<array<Node>>, recv: seq<array<Node>>, n: int)
    requires Separate(tnodes, recv, n)
    modifies Footprint(tnodes, recv)
    ensures Shaped(old(Contents(tnodes, recv)), n)
    ensures Contents(tnodes, recv) == SentRight(old(Contents(tnodes, recv)), n)
  {
    var np := |tnodes|;
    ghost var r0 := Contents(tnodes, recv);
    ghost var t := SentRight(r0, n);
    for m := 0 to np
      invariant forall p :: np - m <= p < np ==> tnodes[p][..] == t.bufs[p] && recv[p][..] == t.recvs[p]
      invariant forall p :: 0 <= p < np - m ==> tnodes[p][..] == r0.bufs[p] && recv[p][..] == r0.recvs[p]
    {
      var q := np - 1 - m;
      assert t.bufs[q] == RightBuf(r0, n, q) && t.recvs[q] == RightRecv(r0, n, q);
      if q != 0 {
        ReceiveFromLeft(tnodes, recv, n, q, r0);
      }
    }
    ContentsAre(tnodes, recv, t);
  }

  /** The exchange that follows every local step (lines 70-88). */
  method Exchange(tnodes: seq<array<Node>>, recv: seq<array<Node>>, n: int)
    requires Separate(tnodes, recv, n)
    modifies Footprint(tnodes, recv)
    ensures Shaped(old(Contents(tnodes, recv)), n)
    ensures Contents(tnodes, recv) == Exchanged(old(Contents(tnodes, recv)), n)
  {
    SendLeft(tnodes, recv, n);
    SendRight(tnodes, recv, n);
  }

  /**
   * The exchange writes only the two ghost slots of each rank: tnodes[rindex]
   * on every rank but the last and tnodes[lindex - 1] on every rank but
   * the first, and recv_buffer[0]. In particular it never touches an owned
   * node, rank 0 never writes lindex - 1 and the last rank never writes
   * rindex.
   */
  lemma ExchangeWrites(r: Ranks, n: int, q: int)
    requires Shaped(r, n) && 0 <= q < |r.bufs|
    ensures forall k :: 0 <= k < n && (q == |r.bufs| - 1 || k != RIndex(q, n, |r.bufs|))
                                   && (q == 0 || k != LIndex(q, n, |r.bufs|) - 1) ==>
              Exchanged(r, n).bufs[q][k] == r.bufs[q][k]
    ensures forall k :: 0 < k < n ==> Exchanged(r, n).recvs[q][k] == r.recvs[q][k]
    ensures forall k :: 0 <= k < n && LIndex(q, n, |r.bufs|) <= k < RIndex(q, n, |r.bufs|) ==> Exchanged(r, n).bufs[q][k] == r.bufs[q][k]
  {
    Slots(q, n, |r.bufs|);
    var l := SentLeft(r, n);
    assert l.bufs[q] == LeftBuf(r, n, q) && l.recvs[q] == LeftRecv(r, n, q);
    assert Exchanged(r, n).bufs[q] == RightBuf(l, n, q) && Exchanged(r, n).recvs[q] == RightRecv(l, n, q);
  }

  /** A node a rank owns is the same before the exchange, halfway through and after it. */
  lemma OwnedKept(r: Ranks, n: int, q: int, k: int)
    requires Shaped(r, n) && 0 <= q < |r.bufs| && 0 <= k < n
    requires LIndex(q, n, |r.bufs|) <= k < RIndex(q, n, |r.bufs|)
    ensures SentLeft(r, n).bufs[q][k] == r.bufs[q][k] && Exchanged(r, n).bufs[q][k] == r.bufs[q][k]
  {
    Slots(q, n, |r.bufs|);
    assert SentLeft(r, n).bufs[q] == LeftBuf(r, n, q);
    assert Exchanged(r, n).bufs[q] == RightBuf(SentLeft(r, n), n, q);
  }

  /** The first half of the exchange keeps the qdot and fixed of every rank's recv_buffer[0]. */
  lemma LeftRecvKeeps(r: Ranks, n: int, q: int)
    requires Shaped(r, n) && 0 <= q < |r.bufs|
    ensures SentLeft(r, n).recvs[q][0].qdot == r.recvs[q][0].qdot && SentLeft(r, n).recvs[q][0].fixed == r.recvs[q][0].fixed
  {
    assert SentLeft(r, n).recvs[q] == LeftRecv(r, n, q);
  }

  /**
   * After the exchange, rank q's tnodes[rindex] holds the T, T_sum and x of
   * rank q + 1's first owned node: the same global node, as its owner holds
   * it. Its qdot and fixed are the ones recv_buffer[0] held before.
   */
  lemma RightGhostFilled(r: Ranks, n: int, q: int)
    requires Shaped(r, n) && 0 <= q < |r.bufs| - 1
    ensures RIndex(q, n, |r.bufs|) == LIndex(q + 1, n, |r.bufs|) && 0 <= LIndex(q + 1, n, |r.bufs|) < n
    ensures var g, o := Exchanged(r, n).bufs[q][RIndex(q, n, |r.bufs|)], Exchanged(r, n).bufs[q + 1][LIndex(q + 1, n, |r.bufs|)];
            g.T == o.T && g.T_sum == o.T_sum && g.x == o.x && o == r.bufs[q + 1][LIndex(q + 1, n, |r.bufs|)]
            && g.qdot == r.recvs[q][0].qdot && g.fixed == r.recvs[q][0].fixed
  {
    var np := |r.bufs|;
    var l := SentLeft(r, n);
    Slots(q, n, np);
    Slots(q + 1, n, np);
    assert l.bufs[q] == LeftBuf(r, n, q) && l.recvs[q] == LeftRecv(r, n, q);
    assert Exchanged(r, n).bufs[q] == RightBuf(l, n, q);
    OwnedKept(r, n, q + 1, LIndex(q + 1, n, np));
  }

  /**
   * After the exchange, rank q's tnodes[lindex - 1] holds the T, T_sum and
   * x of rank q - 1's last owned node, as its owner holds it; its qdot and
   * fixed are the ones recv_buffer[0] held before the exchange.
   */
  lemma LeftGhostFilled(r: Ranks, n: int, q: int)
    requires Shaped(r, n) && 0 < q < |r.bufs|
    ensures LIndex(q, n, |r.bufs|) == RIndex(q - 1, n, |r.bufs|) && 0 <= RIndex(q - 1, n, |r.bufs|) - 1 < n
    ensures var g, o := Exchanged(r, n).bufs[q][LIndex(q, n, |r.bufs|) - 1], Exchanged(r, n).bufs[q - 1][RIndex(q - 1, n, |r.bufs|) - 1];
            g.T == o.T && g.T_sum == o.T_sum && g.x == o.x && o == r.bufs[q - 1][RIndex(q - 1, n, |r.bufs|) - 1]
            && g.qdot == r.recvs[q][0].qdot && g.fixed == r.recvs[q][0].fixed
  {
    var np := |r.bufs|;
    Slots(q, n, np);
    Slots(q - 1, n, np);
    var l := SentLeft(r, n);
    var s := RIndex(q - 1, n, np) - 1;
    OwnedKept(r, n, q - 1, s);
    LeftRecvKeeps(r, n, q);
    assert Exchanged(r, n).bufs[q] == RightBuf(l, n, q);
    assert Exchanged(r, n).bufs[q][LIndex(q, n, np) - 1] == Received(l.bufs[q - 1][s], l.recvs[q][0]);
  }
}
