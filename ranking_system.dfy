/**
 * Cross-sectional ranking: within each month, securities are ranked by
 * trailing yearly return, highest first, with competition ranks (tied
 * returns share the lowest rank, and the next rank skips past the tie).
 */
module RankingSystem {
  import opened Wrappers
  import opened Calendar
  import opened Seqs
  import opened Frames

  /** The row is dated `d` and its return is strictly greater than `x`. */
  predicate Above(r: ReturnRow, d: Date, x: real) {
    r.date == d && r.yearlyReturn > x
  }

  /** Number of rows dated `d` whose return is strictly greater than `x`. */
  function CountAbove(rows: seq<ReturnRow>, d: Date, x: real): (n: nat)
    ensures n <= |rows|
    decreases |rows|
  {
    if |rows| == 0 then 0
    else CountAbove(rows[..|rows| - 1], d, x) + (if Above(rows[|rows| - 1], d, x) then 1 else 0)
  }

  /** Positions of the rows dated `d` with a return strictly greater than `x`. */
  function AboveIndices(rows: seq<ReturnRow>, d: Date, x: real): set<int> {
    set j | 0 <= j < |rows| && Above(rows[j], d, x)
  }

  /** Positions of the rows dated `d`: the month's cross-section. */
  function DateIndices(rows: seq<ReturnRow>, d: Date): set<int> {
    set j | 0 <= j < |rows| && rows[j].date == d
  }

  /** The ranks 1..n. */
  function RankRange(n: nat): (ks: set<int>)
    ensures forall k :: k in ks <==> 1 <= k <= n
  {
    if n == 0 then {} else RankRange(n - 1) + {n}
  }

  /** The column `groupby('Date')['YearlyReturn'].rank(ascending=False,
      method='min')` read against the frame `ctx`, attached to one row. */
  function WithRank(ctx: seq<ReturnRow>): ReturnRow -> RankedRow {
    (r: ReturnRow) => RankedRow(r.isin, r.date, r.yearlyReturn, 1 + CountAbove(ctx, r.date, r.yearlyReturn))
  }

  /** `rank_stocks_by_return`: a copy of the frame with a Rank column added;
      every row keeps its position, ISIN, Date and YearlyReturn. */
  function RankStocksByReturn(rows: seq<ReturnRow>): (ranked: seq<RankedRow>)
    ensures |ranked| == |rows|
    ensures forall i :: 0 <= i < |rows| ==>
      ranked[i].isin == rows[i].isin && ranked[i].date == rows[i].date &&
      ranked[i].yearlyReturn == rows[i].yearlyReturn
    ensures forall i :: 0 <= i < |rows| ==> ranked[i].rank >= 1
  {
    MapSeq(rows, WithRank(rows))
  }

  /** The count computed row by row is the number of such positions. */
  lemma {:induction false} CountAboveIsCardinality(rows: seq<ReturnRow>, d: Date, x: real)
    ensures CountAbove(rows, d, x) == |AboveIndices(rows, d, x)|
    decreases |rows|
  {
    if |rows| == 0 {
      assert AboveIndices(rows, d, x) == {};
    } else {
      var n := |rows| - 1;
      var front := rows[..n];
      CountAboveIsCardinality(front, d, x);
      if Above(rows[n], d, x) {
        assert AboveIndices(rows, d, x) == AboveIndices(front, d, x) + {n};
      } else {
        assert AboveIndices(rows, d, x) == AboveIndices(front, d, x);
      }
    }
  }

  /** A row's rank is one more than the number of rows of the same month
      with a strictly greater return. */
  lemma RankCountsGreaterReturns(rows: seq<ReturnRow>, i: int)
    requires 0 <= i < |rows|
    ensures RankStocksByReturn(rows)[i].rank == 1 + |AboveIndices(rows, rows[i].date, rows[i].yearlyReturn)|
  {
    CountAboveIsCardinality(rows, rows[i].date, rows[i].yearlyReturn);
  }

  lemma SubsetCardinality(a: set<int>, b: set<int>)
    requires a <= b
    ensures |a| <= |b|
    ensures |a| == |b| ==> a == b
  {
    assert b == a + (b - a);
    assert a * (b - a) == {};
  }

  /** Every rank lies in 1..N, N being the number of rows of that month. */
  lemma RankWithinMonthSize(rows: seq<ReturnRow>, i: int)
    requires 0 <= i < |rows|
    ensures 1 <= RankStocksByReturn(rows)[i].rank <= |DateIndices(rows, rows[i].date)|
  {
    var d, x := rows[i].date, rows[i].yearlyReturn;
    RankCountsGreaterReturns(rows, i);
    SubsetCardinality(AboveIndices(rows, d, x) + {i}, DateIndices(rows, d));
  }

  /** Within a month a strictly higher return gets a strictly better
      (smaller) rank, and equal returns share a rank: ties are not broken. */
  lemma RankOrdersReturns(rows: seq<ReturnRow>, i: int, j: int)
    requires 0 <= i < |rows| && 0 <= j < |rows|
    requires rows[i].date == rows[j].date
    ensures var ranked := RankStocksByReturn(rows);
      (ranked[i].rank < ranked[j].rank <==> rows[i].yearlyReturn > rows[j].yearlyReturn) &&
      (ranked[i].rank == ranked[j].rank <==> rows[i].yearlyReturn == rows[j].yearlyReturn)
  {
    RankCountsGreaterReturns(rows, i);
    RankCountsGreaterReturns(rows, j);
    var d := rows[i].date;
    var ai := AboveIndices(rows, d, rows[i].yearlyReturn);
    var aj := AboveIndices(rows, d, rows[j].yearlyReturn);
    if rows[i].yearlyReturn > rows[j].yearlyReturn {
      SubsetCardinality(ai + {i}, aj);
    } else if rows[j].yearlyReturn > rows[i].yearlyReturn {
      SubsetCardinality(aj + {j}, ai);
    }
  }

  /** A row gets rank 1 exactly when no row of its month has a greater
      return; in particular the month's highest return is ranked 1. */
  lemma RankOneIffHighest(rows: seq<ReturnRow>, i: int)
    requires 0 <= i < |rows|
    ensures RankStocksByReturn(rows)[i].rank == 1 <==>
      forall j :: 0 <= j < |rows| && rows[j].date == rows[i].date ==> rows[j].yearlyReturn <= rows[i].yearlyReturn
  {
    RankCountsGreaterReturns(rows, i);
    var a := AboveIndices(rows, rows[i].date, rows[i].yearlyReturn);
    forall j | 0 <= j < |rows| && rows[j].date == rows[i].date && rows[j].yearlyReturn > rows[i].yearlyReturn
      ensures j in a
    {
    }
    if a != {} {
      var j :| j in a;
      assert rows[j].date == rows[i].date && rows[j].yearlyReturn > rows[i].yearlyReturn;
    }
  }

  /** The returns of one month are pairwise distinct. */
  predicate DistinctReturnsOn(rows: seq<ReturnRow>, d: Date) {
    forall i, j :: 0 <= i < |rows| && 0 <= j < |rows| && i != j && rows[i].date == d && rows[j].date == d ==>
      rows[i].yearlyReturn != rows[j].yearlyReturn
  }

  lemma {:induction false} RankRangeSize(n: nat)
    ensures |RankRange(n)| == n
  {
    if n > 0 {
      RankRangeSize(n - 1);
      CardAddOne(RankRange(n - 1), n);
    }
  }

  /** The rank at position `i` of a ranked frame, 0 outside it. */
  function RankAt(ranked: seq<RankedRow>, i: int): int {
    if 0 <= i < |ranked| then ranked[i].rank else 0
  }

  /** Positions below `n` of the ranked rows dated `d`. */
  function RankedIndicesBelow(ranked: seq<RankedRow>, d: Date, n: nat): set<int>
    requires n <= |ranked|
  {
    set j | 0 <= j < n && ranked[j].date == d
  }

  /** The ranks held by the positions `idx`. */
  function RanksAt(ranked: seq<RankedRow>, idx: set<int>): set<int> {
    set i | i in idx :: RankAt(ranked, i)
  }

  /** No two rows dated `d` share a rank. */
  predicate DistinctRanksOn(ranked: seq<RankedRow>, d: Date) {
    forall i, j :: 0 <= i < |ranked| && 0 <= j < |ranked| && i != j && ranked[i].date == d && ranked[j].date == d ==>
      ranked[i].rank != ranked[j].rank
  }

  /** Pairwise distinct ranks: as many ranks as rows, for any prefix. */
  lemma {:induction false} DistinctRanksCount(ranked: seq<RankedRow>, d: Date, n: nat)
    requires n <= |ranked|
    requires DistinctRanksOn(ranked, d)
    ensures |RanksAt(ranked, RankedIndicesBelow(ranked, d, n))| == |RankedIndicesBelow(ranked, d, n)|
  {
    if n == 0 {
      assert RankedIndicesBelow(ranked, d, n) == {};
      assert RanksAt(ranked, {}) == {};
    } else {
      var m := n - 1;
      DistinctRanksCount(ranked, d, m);
      RankedIndicesStep(ranked, d, n);
    }
  }

  /** Position `n - 1` adds its rank, a new one, when it is dated `d`. */
  lemma RankedIndicesStep(ranked: seq<RankedRow>, d: Date, n: nat)
    requires 0 < n <= |ranked|
    requires DistinctRanksOn(ranked, d)
    ensures var m := n - 1;
      var below := RankedIndicesBelow(ranked, d, m);
      if ranked[m].date == d then
        |RanksAt(ranked, RankedIndicesBelow(ranked, d, n))| == |RanksAt(ranked, below)| + 1 &&
        |RankedIndicesBelow(ranked, d, n)| == |below| + 1
      else
        RankedIndicesBelow(ranked, d, n) == below
  {
    var m := n - 1;
    var below := RankedIndicesBelow(ranked, d, m);
    if ranked[m].date == d {
      assert RankedIndicesBelow(ranked, d, n) == below + {m};
      assert RanksAt(ranked, below + {m}) == RanksAt(ranked, below) + {RankAt(ranked, m)};
      assert RankAt(ranked, m) !in RanksAt(ranked, below) by {
        forall i | i in below ensures RankAt(ranked, i) != RankAt(ranked, m) {
        }
      }
      CardAddOne(below, m);
      CardAddOne(RanksAt(ranked, below), RankAt(ranked, m));
    } else {
      assert RankedIndicesBelow(ranked, d, n) == below;
    }
  }

  /** When a month's returns are distinct, its ranks are exactly 1..N. */
  lemma RanksPermuteOneToN(rows: seq<ReturnRow>, d: Date)
    requires DistinctReturnsOn(rows, d)
    ensures var ranked := RankStocksByReturn(rows);
      (set i | i in DateIndices(rows, d) :: ranked[i].rank) == RankRange(|DateIndices(rows, d)|)
  {
    var ranked := RankStocksByReturn(rows);
    var idx := DateIndices(rows, d);
    forall i, j | 0 <= i < |ranked| && 0 <= j < |ranked| && i != j && ranked[i].date == d && ranked[j].date == d
      ensures ranked[i].rank != ranked[j].rank
    {
      RankOrdersReturns(rows, i, j);
    }
    assert idx == RankedIndicesBelow(ranked, d, |ranked|);
    DistinctRanksCount(ranked, d, |ranked|);
    var image := set i | i in idx :: ranked[i].rank;
    assert image == RanksAt(ranked, idx);
    forall k | k in image ensures k in RankRange(|idx|) {
      var i :| i in idx && k == ranked[i].rank;
      RankWithinMonthSize(rows, i);
    }
    RankRangeSize(|idx|);
    SubsetCardinality(image, RankRange(|idx|));
  }

  function ReturnOn(d: Date): ReturnRow -> bool {
    (r: ReturnRow) => r.date == d
  }

  function RankedOn(d: Date): RankedRow -> bool {
    OnDate(RankedDate, d)
  }

  /** Counting the rows above a value in month `d` sees only month `d`. */
  lemma {:induction false} CountAboveSeesOneMonth(rows: seq<ReturnRow>, d: Date, x: real)
    ensures CountAbove(rows, d, x) == CountAbove(Filter(rows, ReturnOn(d)), d, x)
    decreases |rows|
  {
    if |rows| > 0 {
      var n := |rows| - 1;
      CountAboveSeesOneMonth(rows[..n], d, x);
      var f := Filter(rows[..n], ReturnOn(d));
      if rows[n].date == d {
        assert ReturnOn(d)(rows[n]);
        assert Filter(rows, ReturnOn(d)) == f + [rows[n]];
        assert (f + [rows[n]])[..|f|] == f;
      } else {
        assert !ReturnOn(d)(rows[n]);
        assert Filter(rows, ReturnOn(d)) == f;
        assert !Above(rows[n], d, x);
      }
    }
  }

  /** One month's ranks depend only on that month's rows: ranking the whole
      frame and then taking month `d` is ranking month `d` alone. */
  lemma RanksAreLocalToTheirMonth(rows: seq<ReturnRow>, d: Date)
    ensures Filter(RankStocksByReturn(rows), RankedOn(d)) == RankStocksByReturn(Filter(rows, ReturnOn(d)))
  {
    var month := Filter(rows, ReturnOn(d));
    forall r ensures RankedOn(d)(WithRank(rows)(r)) == ReturnOn(d)(r) {
      var w := WithRank(rows)(r);
      assert w.date == r.date;
      assert RankedOn(d)(w) == OnDate(RankedDate, d)(w) == (RankedDate(w) == d);
    }
    FilterMap(rows, WithRank(rows), RankedOn(d), ReturnOn(d));
    forall i | 0 <= i < |month| ensures WithRank(rows)(month[i]) == WithRank(month)(month[i]) {
      FilterMember(rows, ReturnOn(d), month[i]);
      CountAboveSeesOneMonth(rows, d, month[i].yearlyReturn);
    }
  }

  /** `get_latest_rankings`: the rows of the latest month sorted by ascending
      rank, with that month's date; NaT (None) and no rows on an empty frame. */
  function GetLatestRankings(ranked: seq<RankedRow>): (latest: (seq<RankedRow>, Option<Date>))
    ensures latest.1.None? <==> |ranked| == 0
    ensures latest.1.None? ==> latest.0 == []
    ensures latest.1.Some? ==>
      (forall r :: r in ranked ==> Ordinal(r.date) <= Ordinal(latest.1.value)) &&
      (exists r :: r in ranked && r.date == latest.1.value)
    ensures latest.1.Some? ==> forall r :: r in latest.0 <==> r in ranked && r.date == latest.1.value
    ensures latest.1.Some? ==> multiset(latest.0) == multiset(Filter(ranked, RankedOn(latest.1.value)))
    ensures forall i, j :: 0 <= i < j < |latest.0| ==> latest.0[i].rank <= latest.0[j].rank
  {
    RankedRankLeIsTotalPreorder();
    LatestView(ranked, RankedDate, RankedRankLe)
  }
}
