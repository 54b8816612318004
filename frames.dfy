/**
 * The frames that flow through the pipeline, as sequences of records, with
 * the orders they are sorted by and the "latest month" view shared by the
 * ranking and rank-delta stages.
 */
module Frames {
  import opened Wrappers
  import opened Calendar
  import opened Ordering
  import opened Seqs

  /** A closing price. Prices are positive. */
  type Price = p: real | p > 0.0 witness 1.0

  /** A row of the price frame: columns ISIN, Date, Price. */
  datatype PriceRow = PriceRow(isin: string, date: Date, price: Price)

  /** A row of the returns frame: columns ISIN, Date, YearlyReturn. */
  datatype ReturnRow = ReturnRow(isin: string, date: Date, yearlyReturn: real)

  /** A row of the ranked frame: the returns columns plus Rank. */
  datatype RankedRow = RankedRow(isin: string, date: Date, yearlyReturn: real, rank: int)

  /** A row of the rank-delta frame: the ranked columns plus PreviousRank
      and RankDelta, absent (NaN) on a security's first row. */
  datatype DeltaRow = DeltaRow(
    isin: string, date: Date, yearlyReturn: real, rank: int,
    previousRank: Option<int>, rankDelta: Option<int>)

  /** The (ISIN, Date) sort order, on ISIN and day number. */
  predicate KeyLe(isinA: string, dayA: int, isinB: string, dayB: int) {
    if isinA == isinB then dayA <= dayB else StrLe(isinA, isinB)
  }

  lemma KeyLeTotal(isinA: string, dayA: int, isinB: string, dayB: int)
    ensures KeyLe(isinA, dayA, isinB, dayB) || KeyLe(isinB, dayB, isinA, dayA)
  {
    StrLeTotal(isinA, isinB);
  }

  lemma KeyLeTransitive(ia: string, da: int, ib: string, db: int, ic: string, dc: int)
    requires KeyLe(ia, da, ib, db) && KeyLe(ib, db, ic, dc)
    ensures KeyLe(ia, da, ic, dc)
  {
    if ia != ib && ib != ic {
      StrLeTransitive(ia, ib, ic);
      if ia == ic {
        StrLeAntisymmetric(ia, ib);
      }
    }
  }

  /** Sorted by (ISIN, Date), the ISINs ascend. */
  lemma KeyLeIsins(isinA: string, dayA: int, isinB: string, dayB: int)
    requires KeyLe(isinA, dayA, isinB, dayB)
    ensures StrLe(isinA, isinB)
  {
    if isinA == isinB {
      StrLeReflexive(isinA);
    }
  }

  predicate PriceKeyLe(a: PriceRow, b: PriceRow) {
    KeyLe(a.isin, Ordinal(a.date), b.isin, Ordinal(b.date))
  }

  predicate RankedKeyLe(a: RankedRow, b: RankedRow) {
    KeyLe(a.isin, Ordinal(a.date), b.isin, Ordinal(b.date))
  }

  predicate DeltaKeyLe(a: DeltaRow, b: DeltaRow) {
    KeyLe(a.isin, Ordinal(a.date), b.isin, Ordinal(b.date))
  }

  predicate RankedRankLe(a: RankedRow, b: RankedRow) {
    a.rank <= b.rank
  }

  predicate DeltaRankLe(a: DeltaRow, b: DeltaRow) {
    a.rank <= b.rank
  }

  function PriceIsin(r: PriceRow): string { r.isin }
  function DeltaIsin(r: DeltaRow): string { r.isin }
  function RankedDate(r: RankedRow): Date { r.date }
  function DeltaDate(r: DeltaRow): Date { r.date }

  lemma PriceKeyLeIsTotalPreorder()
    ensures TotalPreorder(PriceKeyLe)
  {
    forall a, b ensures PriceKeyLe(a, b) || PriceKeyLe(b, a) {
      KeyLeTotal(a.isin, Ordinal(a.date), b.isin, Ordinal(b.date));
    }
    forall a, b, c | PriceKeyLe(a, b) && PriceKeyLe(b, c) ensures PriceKeyLe(a, c) {
      KeyLeTransitive(a.isin, Ordinal(a.date), b.isin, Ordinal(b.date), c.isin, Ordinal(c.date));
    }
  }

  lemma RankedKeyLeIsTotalPreorder()
    ensures TotalPreorder(RankedKeyLe)
  {
    forall a, b ensures RankedKeyLe(a, b) || RankedKeyLe(b, a) {
      KeyLeTotal(a.isin, Ordinal(a.date), b.isin, Ordinal(b.date));
    }
    forall a, b, c | RankedKeyLe(a, b) && RankedKeyLe(b, c) ensures RankedKeyLe(a, c) {
      KeyLeTransitive(a.isin, Ordinal(a.date), b.isin, Ordinal(b.date), c.isin, Ordinal(c.date));
    }
  }

  lemma DeltaKeyLeIsTotalPreorder()
    ensures TotalPreorder(DeltaKeyLe)
  {
    forall a, b ensures DeltaKeyLe(a, b) || DeltaKeyLe(b, a) {
      KeyLeTotal(a.isin, Ordinal(a.date), b.isin, Ordinal(b.date));
    }
    forall a, b, c | DeltaKeyLe(a, b) && DeltaKeyLe(b, c) ensures DeltaKeyLe(a, c) {
      KeyLeTransitive(a.isin, Ordinal(a.date), b.isin, Ordinal(b.date), c.isin, Ordinal(c.date));
    }
  }

  lemma RankedRankLeIsTotalPreorder()
    ensures TotalPreorder(RankedRankLe)
  {
  }

  lemma DeltaRankLeIsTotalPreorder()
    ensures TotalPreorder(DeltaRankLe)
  {
  }

  /** `sort_values(by=['ISIN', 'Date'])` on the price frame. */
  function SortPrices(rows: seq<PriceRow>): (r: seq<PriceRow>)
    ensures multiset(r) == multiset(rows)
    ensures SortedBy(r, PriceKeyLe)
  {
    PriceKeyLeIsTotalPreorder();
    SortBy(rows, PriceKeyLe)
  }

  /** `sort_values(by=['ISIN', 'Date'])` on the ranked frame. */
  function SortRanked(rows: seq<RankedRow>): (r: seq<RankedRow>)
    ensures multiset(r) == multiset(rows)
    ensures SortedBy(r, RankedKeyLe)
  {
    RankedKeyLeIsTotalPreorder();
    SortBy(rows, RankedKeyLe)
  }

  /** `Date.max()`: the latest date of the frame, NaT (None) when empty. */
  function LatestDate<T>(rows: seq<T>, date: T -> Date): (d: Option<Date>)
    ensures d.None? <==> |rows| == 0
    ensures d.Some? ==> exists i :: 0 <= i < |rows| && date(rows[i]) == d.value
    ensures d.Some? ==> forall i :: 0 <= i < |rows| ==> Ordinal(date(rows[i])) <= Ordinal(d.value)
    decreases |rows|
  {
    if |rows| == 0 then None
    else
      var last := date(rows[|rows| - 1]);
      var front := LatestDate(rows[..|rows| - 1], date);
      if front.Some? && Ordinal(last) <= Ordinal(front.value) then front else Some(last)
  }

  /** The mask `Date == d`. */
  function OnDate<T>(date: T -> Date, d: Date): T -> bool {
    (r: T) => date(r) == d
  }

  /** The rows of the latest date sorted by rank, with that date:
      `df[df['Date'] == df['Date'].max()].sort_values('Rank')`. On an empty
      frame the date is NaT and the view is empty. */
  function LatestView<T(!new)>(rows: seq<T>, date: T -> Date, rankLe: (T, T) -> bool): (view: (seq<T>, Option<Date>))
    requires TotalPreorder(rankLe)
    ensures view.1.None? <==> |rows| == 0
    ensures view.1.None? ==> view.0 == []
    ensures view.1.Some? ==> forall r :: r in rows ==> Ordinal(date(r)) <= Ordinal(view.1.value)
    ensures view.1.Some? ==> exists r :: r in rows && date(r) == view.1.value
    ensures view.1.Some? ==> forall r :: r in view.0 <==> r in rows && date(r) == view.1.value
    ensures view.1.Some? ==> multiset(view.0) == multiset(Filter(rows, OnDate(date, view.1.value)))
    ensures SortedBy(view.0, rankLe)
  {
    var latest := LatestDate(rows, date);
    match latest
    case None => ([], None)
    case Some(d) =>
      var selected := Filter(rows, OnDate(date, d));
      var sorted := SortBy(selected, rankLe);
      assert forall r :: r in sorted <==> r in selected by {
        forall r ensures r in sorted <==> r in selected {
          assert r in sorted <==> r in multiset(sorted);
          assert r in selected <==> r in multiset(selected);
        }
      }
      assert forall r :: r in selected <==> r in rows && date(r) == d by {
        forall r ensures r in selected <==> r in rows && date(r) == d {
          FilterMember(rows, OnDate(date, d), r);
        }
      }
      (sorted, latest)
  }
}
