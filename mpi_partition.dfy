/**
 * The block partition of heatGen/oneD/mpi.cpp: rank r of nProc owns the
 * nodes [LIndex(r), RIndex(r)) of the n-node bar. Both bounds are C int
 * divisions of non-negative operands, which truncate like Dafny's.
 */
module MpiPartition {

  /** Line 46: lindex = rank * n / n_proc. */
  function LIndex(rank: int, n: int, nProc: int): int
    requires nProc >= 1
  {
    rank * n / nProc
  }

  /** Line 47: rindex = (rank + 1) * n / n_proc. */
  function RIndex(rank: int, n: int, nProc: int): int
    requires nProc >= 1
  {
    (rank + 1) * n / nProc
  }

  /** Division by a positive d keeps order. */
  lemma DivMono(a: int, b: int, d: int)
    requires d >= 1 && a <= b
    ensures a / d <= b / d
  {
    var qa, qb := a / d, b / d;
    assert a == d * qa + a % d && b == d * qb + b % d;
    MulSign(d, qa - qb);
    assert d * (qa - qb) == d * qa - d * qb;
  }

  /** The quotient of a + b is the two quotients added, plus one when the remainders overflow d. */
  lemma DivAdd(a: int, b: int, d: int)
    requires d >= 1
    ensures (a + b) / d == a / d + b / d + (if a % d + b % d >= d then 1 else 0)
  {
    var q := a / d + b / d + (if a % d + b % d >= d then 1 else 0);
    var m := a % d + b % d - (if a % d + b % d >= d then d else 0);
    assert a + b == d * q + m;
    DivUnique(a + b, d, q, m);
  }

  /** A quotient and remainder in range are the quotient and remainder. */
  lemma DivUnique(x: int, d: int, q: int, m: int)
    requires d >= 1 && x == d * q + m && 0 <= m < d
    ensures x / d == q
  {
    assert d * (x / d - q) == m - x % d;
    MulSign(d, x / d - q);
  }

  /** A product of two non-negative numbers is non-negative. */
  lemma MulNonneg(a: int, b: int)
    requires a >= 0 && b >= 0
    ensures a * b >= 0
  {
  }

  /** A multiple of a positive d is zero or at least d away from zero. */
  lemma MulSign(d: int, e: int)
    requires d >= 1
    ensures e >= 1 ==> d * e >= d
    ensures e <= -1 ==> d * e <= -d
  {
    if e >= 1 {
      assert d * e - d == d * (e - 1);
    } else if e <= -1 {
      assert d * e + d == d * (e + 1);
    }
  }

  /** Line 46 and 47 for a rank of the communicator: rank 0 starts at 0, the last rank ends at n, and the ranges run in order. */
  lemma Ends(n: int, nProc: int)
    requires n >= 0 && nProc >= 1
    ensures LIndex(0, n, nProc) == 0 && RIndex(nProc - 1, n, nProc) == n
  {
    DivUnique(nProc * n, nProc, n, 0);
  }

  /** Each rank's range lies inside [0, n) and ends where the next rank's range starts. */
  lemma RangeOf(rank: int, n: int, nProc: int)
    requires n >= 0 && nProc >= 1 && 0 <= rank < nProc
    ensures 0 <= LIndex(rank, n, nProc) <= RIndex(rank, n, nProc) <= n
    ensures RIndex(rank, n, nProc) == LIndex(rank + 1, n, nProc)
  {
    assert 0 <= LIndex(rank, n, nProc) by {
      assert 0 <= rank * n;
      DivMono(0, rank * n, nProc);
    }
    assert LIndex(rank, n, nProc) <= RIndex(rank, n, nProc) by {
      assert (rank + 1) * n == rank * n + n;
      DivMono(rank * n, (rank + 1) * n, nProc);
    }
    assert RIndex(rank, n, nProc) <= n by {
      assert nProc * n - (rank + 1) * n == (nProc - rank - 1) * n;
      MulNonneg(nProc - rank - 1, n);
      DivMono((rank + 1) * n, nProc * n, nProc);
      DivUnique(nProc * n, nProc, n, 0);
    }
  }

  /**
   * Each rank holds n / nProc or n / nProc + 1 nodes, so it is never empty
   * when there are at least as many nodes as ranks.
   */
  lemma RangeSize(rank: int, n: int, nProc: int)
    requires n >= 0 && nProc >= 1 && 0 <= rank < nProc
    ensures RIndex(rank, n, nProc) - LIndex(rank, n, nProc) == n / nProc
            || RIndex(rank, n, nProc) - LIndex(rank, n, nProc) == n / nProc + 1
    ensures n >= nProc ==> RIndex(rank, n, nProc) - LIndex(rank, n, nProc) >= 1
  {
    assert (rank + 1) * n == rank * n + n;
    DivAdd(rank * n, n, nProc);
    if n >= nProc {
      DivMono(nProc, n, nProc);
    }
  }

  /** Ranges of distinct ranks are disjoint: a lower rank's range ends before a higher rank's starts. */
  lemma {:induction false} Ordered(p: int, q: int, n: int, nProc: int)
    requires n >= 0 && nProc >= 1 && 0 <= p < q < nProc
    ensures RIndex(p, n, nProc) <= LIndex(q, n, nProc)
    decreases q - p
  {
    RangeOf(p, n, nProc);
    if p + 1 < q {
      RangeOf(p + 1, n, nProc);
      Ordered(p + 1, q, n, nProc);
    }
  }

  /** The first rank from first on whose range reaches past node i. */
  function OwnerFrom(i: int, n: int, nProc: int, first: int): (r: int)
    requires n >= 0 && nProc >= 1 && 0 <= first < nProc && i < n
    decreases nProc - first
  {
    if i < RIndex(first, n, nProc) || first == nProc - 1 then first else OwnerFrom(i, n, nProc, first + 1)
  }

  /** The rank that owns node i. */
  function Owner(i: int, n: int, nProc: int): int
    requires n >= 0 && nProc >= 1 && i < n
  {
    OwnerFrom(i, n, nProc, 0)
  }

  /** Searching from rank first, for a node at or after LIndex(first), finds a rank whose range holds it. */
  lemma {:induction false} OwnerFromOwns(i: int, n: int, nProc: int, first: int)
    requires n >= 0 && nProc >= 1 && 0 <= first < nProc && LIndex(first, n, nProc) <= i < n
    ensures first <= OwnerFrom(i, n, nProc, first) < nProc
    ensures LIndex(OwnerFrom(i, n, nProc, first), n, nProc) <= i < RIndex(OwnerFrom(i, n, nProc, first), n, nProc)
    decreases nProc - first
  {
    RangeOf(first, n, nProc);
    Ends(n, nProc);
    if !(i < RIndex(first, n, nProc) || first == nProc - 1) {
      OwnerFromOwns(i, n, nProc, first + 1);
    }
  }

  /**
   * Lines 46-47 tile the bar: every node 0 <= i < n lies in the range of
   * exactly one rank, Owner(i).
   */
  lemma Tiling(i: int, n: int, nProc: int)
    requires n >= 0 && nProc >= 1 && 0 <= i < n
    ensures 0 <= Owner(i, n, nProc) < nProc
    ensures LIndex(Owner(i, n, nProc), n, nProc) <= i < RIndex(Owner(i, n, nProc), n, nProc)
    ensures forall q :: 0 <= q < nProc && LIndex(q, n, nProc) <= i < RIndex(q, n, nProc) ==> q == Owner(i, n, nProc)
  {
    Ends(n, nProc);
    OwnerFromOwns(i, n, nProc, 0);
    var o := Owner(i, n, nProc);
    forall q | 0 <= q < nProc && LIndex(q, n, nProc) <= i < RIndex(q, n, nProc)
      ensures q == o
    {
      if q < o {
        Ordered(q, o, n, nProc);
      } else if o < q {
        Ordered(o, q, n, nProc);
      }
    }
  }

  /**
   * With at least as many nodes as ranks, the step loop of rank r reads
   * inside the n-node buffer (lindex - 1 >= 0 and rindex < n) exactly when
   * r is neither the first nor the last rank.
   */
  lemma NeighboursInBuffer(rank: int, n: int, nProc: int)
    requires n >= nProc >= 1 && 0 <= rank < nProc
    ensures 1 <= LIndex(rank, n, nProc) && RIndex(rank, n, nProc) < n <==> 0 < rank < nProc - 1
  {
    Ends(n, nProc);
    RangeOf(rank, n, nProc);
    if 0 < rank {
      Ordered(0, rank, n, nProc);
      RangeOf(0, n, nProc);
    }
    if rank < nProc - 1 {
      Ordered(rank, nProc - 1, n, nProc);
      RangeOf(nProc - 1, n, nProc);
    }
  }

  /** When every range has n / nProc nodes, rank p's range starts at p * (n / nProc). */
  lemma {:induction false} EvenStarts(p: int, n: int, nProc: int)
    requires n >= 0 && nProc >= 1 && 0 <= p < nProc
    requires forall q :: 0 <= q < nProc ==> RIndex(q, n, nProc) - LIndex(q, n, nProc) == n / nProc
    ensures LIndex(p, n, nProc) == p * (n / nProc)
  {
    if p == 0 {
      Ends(n, nProc);
    } else {
      var c := n / nProc;
      assert (p - 1) * c + c == p * c;
      EvenStarts(p - 1, n, nProc);
      RangeOf(p - 1, n, nProc);
      assert LIndex(p, n, nProc) == LIndex(p - 1, n, nProc) + c;
    }
  }

  /** When nProc divides n, rank p's range is [p * (n / nProc), (p + 1) * (n / nProc)). */
  lemma EvenRange(p: int, n: int, nProc: int)
    requires n >= 0 && nProc >= 1 && n % nProc == 0
    ensures LIndex(p, n, nProc) == p * (n / nProc) && RIndex(p, n, nProc) == (p + 1) * (n / nProc)
  {
    var c := n / nProc;
    assert n == nProc * c;
    assert p * n == nProc * (p * c);
    assert (p + 1) * n == nProc * ((p + 1) * c);
    DivUnique(p * n, nProc, p * c, 0);
    DivUnique((p + 1) * n, nProc, (p + 1) * c, 0);
  }

  /**
   * The MPI_Allgather calls (lines 92-93 and 102-103) pass each rank's own
   * rindex - lindex as the count of every block; those counts agree across
   * the ranks exactly when nProc divides n.
   */
  lemma EvenRanges(n: int, nProc: int)
    requires n >= 0 && nProc >= 1
    ensures (forall p :: 0 <= p < nProc ==> RIndex(p, n, nProc) - LIndex(p, n, nProc) == n / nProc) <==> n % nProc == 0
  {
    var c := n / nProc;
    if n % nProc == 0 {
      forall p | 0 <= p < nProc
        ensures RIndex(p, n, nProc) - LIndex(p, n, nProc) == c
      {
        EvenRange(p, n, nProc);
        assert (p + 1) * c == p * c + c;
      }
    }
    if forall p :: 0 <= p < nProc ==> RIndex(p, n, nProc) - LIndex(p, n, nProc) == c {
      EvenStarts(nProc - 1, n, nProc);
      RangeOf(nProc - 1, n, nProc);
      Ends(n, nProc);
      assert (nProc - 1) * c + c == nProc * c;
    }
  }
}
