/** The index pairs the aspect search visits: an outer walk over the first
    chart's bodies, an inner walk over the second's, and in natal mode only
    the pairs whose first index is below the second. */
module Pairs {
  import opened Tables

  /** The pair (i, j) is visited: both indices in range, and in natal mode i < j. */
  predicate Visited(mode: Mode, n1: nat, n2: nat, p: (nat, nat))
  {
    p.0 < n1 && p.1 < n2 && !(mode == Natal && p.0 >= p.1)
  }

  /** The inner walk of row i from column j on. */
  function Row(mode: Mode, i: nat, j: nat, n2: nat): seq<(nat, nat)>
    decreases n2 - j
  {
    if j >= n2 then []
    else (if mode == Natal && i >= j then [] else [(i, j)]) + Row(mode, i, j + 1, n2)
  }

  /** The outer walk from row i on. */
  function Rows(mode: Mode, i: nat, n1: nat, n2: nat): seq<(nat, nat)>
    decreases n1 - i
  {
    if i >= n1 then [] else Row(mode, i, 0, n2) + Rows(mode, i + 1, n1, n2)
  }

  /** Every visited pair, in visiting order. */
  function Candidates(mode: Mode, n1: nat, n2: nat): seq<(nat, nat)>
  {
    Rows(mode, 0, n1, n2)
  }

  lemma {:induction false} RowMultiplicity(mode: Mode, i: nat, j: nat, n2: nat, p: (nat, nat))
    ensures multiset(Row(mode, i, j, n2))[p] == if p.0 == i && j <= p.1 < n2 && !(mode == Natal && i >= p.1) then 1 else 0
    decreases n2 - j
  {
    if j < n2 {
      RowMultiplicity(mode, i, j + 1, n2, p);
    }
  }

  lemma {:induction false} RowsMultiplicity(mode: Mode, i: nat, n1: nat, n2: nat, p: (nat, nat))
    ensures multiset(Rows(mode, i, n1, n2))[p] == if i <= p.0 && Visited(mode, n1, n2, p) then 1 else 0
    decreases n1 - i
  {
    if i < n1 {
      RowMultiplicity(mode, i, 0, n2, p);
      RowsMultiplicity(mode, i + 1, n1, n2, p);
    }
  }

  /** Each visited pair is a candidate exactly once, and nothing else is a
      candidate; in particular natal mode never pairs an index with itself
      and lists each unordered pair once. */
  lemma CandidatesExactlyOnce(mode: Mode, n1: nat, n2: nat, p: (nat, nat))
    ensures multiset(Candidates(mode, n1, n2))[p] == if Visited(mode, n1, n2, p) then 1 else 0
    ensures p in Candidates(mode, n1, n2) <==> Visited(mode, n1, n2, p)
    ensures mode == Natal && p in Candidates(mode, n1, n2) ==> p.0 < p.1 && (p.1, p.0) !in Candidates(mode, n1, n2)
  {
    RowsMultiplicity(mode, 0, n1, n2, p);
    RowsMultiplicity(mode, 0, n1, n2, (p.1, p.0));
  }

  lemma {:induction false} RowLength(mode: Mode, i: nat, j: nat, n2: nat)
    requires j <= n2
    ensures mode == Synastry ==> |Row(mode, i, j, n2)| == n2 - j
    ensures mode == Natal && i < j ==> |Row(mode, i, j, n2)| == n2 - j
    ensures mode == Natal && j <= i < n2 ==> |Row(mode, i, j, n2)| == n2 - i - 1
    decreases n2 - j
  {
    if j < n2 {
      RowLength(mode, i, j + 1, n2);
    }
  }

  lemma {:induction false} SynastryRowsLength(i: nat, n1: nat, n2: nat)
    requires i <= n1
    ensures |Rows(Synastry, i, n1, n2)| == (n1 - i) * n2
    decreases n1 - i
  {
    if i < n1 {
      RowLength(Synastry, i, 0, n2);
      SynastryRowsLength(i + 1, n1, n2);
      assert (n1 - i) * n2 == n2 + (n1 - (i + 1)) * n2;
    }
  }

  lemma {:induction false} NatalRowsLength(i: nat, n: nat)
    requires i <= n
    ensures 2 * |Rows(Natal, i, n, n)| == (n - i) * (n - i - 1)
    decreases n - i
  {
    if i < n {
      RowLength(Natal, i, 0, n);
      NatalRowsLength(i + 1, n);
      var m := n - i;
      assert (m - 1) * (m - 2) + 2 * (m - 1) == m * (m - 1);
    }
  }

  /** Natal mode over n bodies visits n(n-1)/2 pairs; synastry over n and m
      bodies visits n*m. */
  lemma CandidateCounts(n: nat, m: nat)
    ensures |Candidates(Natal, n, n)| == n * (n - 1) / 2
    ensures |Candidates(Synastry, n, m)| == n * m
  {
    NatalRowsLength(0, n);
    SynastryRowsLength(0, n, m);
  }
}
