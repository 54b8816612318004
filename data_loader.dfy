/**
 * Loading and month bucketing of the price data: the required-column checks
 * of the two loaders, the collapse of price rows to one row per (ISIN,
 * calendar year, calendar month) keeping the latest-dated row, and the
 * combined load, which only warns about constituents without prices.
 */
module DataLoader {
  import opened Wrappers
  import opened Calendar
  import opened Ordering
  import opened Seqs
  import opened Frames

  /** The columns each loader requires in its file's header. */
  const ConstituentColumns: seq<string> := ["ISIN"]
  const PriceColumns: seq<string> := ["ISIN", "Date", "Price"]

  datatype LoadError = MissingRequiredColumns(missing: seq<string>)

  /** A constituent list as read: its header and its ISIN column. */
  datatype ConstituentTable = ConstituentTable(columns: seq<string>, isins: seq<string>)

  /** A price table as read or returned: its header and its rows. */
  datatype PriceTable = PriceTable(columns: seq<string>, rows: seq<PriceRow>)

  function Absent(columns: seq<string>): string -> bool {
    c => c !in columns
  }

  /** The required columns the header lacks, in the order they are required. */
  function MissingColumns(required: seq<string>, columns: seq<string>): (missing: seq<string>)
    ensures |missing| <= |required|
    ensures forall c :: c in missing <==> c in required && c !in columns
  {
    var missing := Filter(required, Absent(columns));
    assert forall c :: c in missing <==> c in required && c !in columns by {
      forall c ensures c in missing <==> c in required && c !in columns {
        FilterMember(required, Absent(columns), c);
      }
    }
    missing
  }

  /** `load_nifty500_isins` after reading the file: a ValueError exactly when
      the header has no ISIN column, the table unchanged otherwise. */
  function LoadNifty500Isins(table: ConstituentTable): (r: Result<ConstituentTable, LoadError>)
    ensures r.Failure? <==> "ISIN" !in table.columns
    ensures r.Failure? ==> r.error == MissingRequiredColumns(["ISIN"])
    ensures r.Success? ==> r.value == table
  {
    var missing := MissingColumns(ConstituentColumns, table.columns);
    if |missing| > 0 then
      assert missing[0] in missing;
      Failure(MissingRequiredColumns(missing))
    else
      assert "ISIN" in ConstituentColumns;
      Success(table)
  }

  /** `load_historical_prices` after reading the file: a ValueError naming
      exactly the missing columns when one of ISIN, Date, Price is absent;
      otherwise the same rows sorted by (ISIN, Date). */
  function LoadHistoricalPrices(table: PriceTable): (r: Result<PriceTable, LoadError>)
    ensures r.Failure? <==> !("ISIN" in table.columns && "Date" in table.columns && "Price" in table.columns)
    ensures r.Failure? ==> forall c :: c in r.error.missing <==> c in PriceColumns && c !in table.columns
    ensures r.Success? ==> r.value.columns == table.columns
    ensures r.Success? ==> multiset(r.value.rows) == multiset(table.rows) && SortedBy(r.value.rows, PriceKeyLe)
  {
    var missing := MissingColumns(PriceColumns, table.columns);
    if |missing| > 0 then
      assert missing[0] in missing;
      Failure(MissingRequiredColumns(missing))
    else
      assert "ISIN" in PriceColumns && "Date" in PriceColumns && "Price" in PriceColumns;
      Success(PriceTable(table.columns, SortPrices(table.rows)))
  }

  /** The (ISIN, year, month) bucket of a price row. */
  datatype Bucket = Bucket(isin: string, year: int, month: int)

  function BucketOf(x: PriceRow): Bucket {
    Bucket(x.isin, x.date.year, x.date.month)
  }

  function BucketsOf(s: seq<PriceRow>): set<Bucket> {
    set x | x in s :: BucketOf(x)
  }

  function InBucket(b: Bucket): PriceRow -> bool {
    x => BucketOf(x) == b
  }

  /** No two rows share a bucket (by position). */
  predicate DistinctBuckets(s: seq<PriceRow>) {
    forall i, j :: 0 <= i < j < |s| ==> BucketOf(s[i]) != BucketOf(s[j])
  }

  /** Every row is alone in its bucket (by count, so row order is immaterial). */
  predicate OneRowPerBucket(s: seq<PriceRow>) {
    forall x :: x in s ==> |Filter(s, InBucket(BucketOf(x)))| == 1
  }

  predicate PriceDateLe(a: PriceRow, b: PriceRow) {
    Ordinal(a.date) <= Ordinal(b.date)
  }

  lemma PriceDateLeIsTotalPreorder()
    ensures TotalPreorder(PriceDateLe)
  {
  }

  /** `sort_values('Date')` on the price frame. */
  function SortByDate(rows: seq<PriceRow>): (r: seq<PriceRow>)
    ensures multiset(r) == multiset(rows)
    ensures SortedBy(r, PriceDateLe)
  {
    PriceDateLeIsTotalPreorder();
    SortBy(rows, PriceDateLe)
  }

  /** `groupby([...]).last()` on rows in date order: the rows that no later
      row of the same bucket follows, in their order. */
  function LastOfBuckets(s: seq<PriceRow>): (r: seq<PriceRow>)
    ensures multiset(r) <= multiset(s)
    ensures |r| <= |s|
    decreases |s|
  {
    if |s| == 0 then []
    else
      assert s == [s[0]] + s[1..];
      (if BucketOf(s[0]) in BucketsOf(s[1..]) then [] else [s[0]]) + LastOfBuckets(s[1..])
  }

  /** The frame `prepare_monthly_price_data` returns: one row per bucket in
      (ISIN, year, month) order, which for rows of distinct buckets is the
      (ISIN, Date) order. */
  function MonthlyPrices(rows: seq<PriceRow>): (monthly: seq<PriceRow>)
    ensures SortedBy(monthly, PriceKeyLe)
  {
    SortPrices(LastOfBuckets(SortByDate(rows)))
  }

  lemma LastOfBucketsKeepsBuckets(s: seq<PriceRow>)
    ensures BucketsOf(LastOfBuckets(s)) == BucketsOf(s)
  {
    var r := LastOfBuckets(s);
    forall b | b in BucketsOf(r) ensures b in BucketsOf(s) {
      var x :| x in r && BucketOf(x) == b;
      assert x in multiset(r);
      assert x in s;
    }
    forall b | b in BucketsOf(s) ensures b in BucketsOf(r) {
      var x :| x in s && BucketOf(x) == b;
      LastOfBucketsCovers(s, x);
    }
  }

  /** Every row's bucket has a row in the output. */
  lemma {:induction false} LastOfBucketsCovers(s: seq<PriceRow>, x: PriceRow)
    requires x in s
    ensures exists y :: y in LastOfBuckets(s) && BucketOf(y) == BucketOf(x)
    decreases |s|
  {
    var rest := s[1..];
    assert s == [s[0]] + rest;
    var r := LastOfBuckets(s);
    if BucketOf(x) in BucketsOf(rest) {
      var z :| z in rest && BucketOf(z) == BucketOf(x);
      LastOfBucketsCovers(rest, z);
      var y :| y in LastOfBuckets(rest) && BucketOf(y) == BucketOf(x);
      assert y in r;
    } else {
      assert x == s[0];
      assert r[0] == x;
    }
  }

  lemma {:induction false} LastOfBucketsDistinct(s: seq<PriceRow>)
    ensures DistinctBuckets(LastOfBuckets(s))
    decreases |s|
  {
    if |s| > 0 {
      var rest := LastOfBuckets(s[1..]);
      LastOfBucketsDistinct(s[1..]);
      LastOfBucketsKeepsBuckets(s[1..]);
      if BucketOf(s[0]) !in BucketsOf(s[1..]) {
        var r := [s[0]] + rest;
        forall i, j | 0 <= i < j < |r| ensures BucketOf(r[i]) != BucketOf(r[j]) {
          if i == 0 {
            assert r[j] == rest[j - 1];
            assert BucketOf(r[j]) in BucketsOf(rest);
          } else {
            assert r[i] == rest[i - 1] && r[j] == rest[j - 1];
          }
        }
      }
    }
  }

  /** In date order, the row kept for a bucket is dated no earlier than any
      row of that bucket. */
  lemma LastOfBucketsLatest(s: seq<PriceRow>, x: PriceRow, y: PriceRow)
    requires SortedBy(s, PriceDateLe)
    requires x in LastOfBuckets(s) && y in s && BucketOf(y) == BucketOf(x)
    ensures Ordinal(y.date) <= Ordinal(x.date)
  {
    LastOfBucketsMember(s, x);
    var i :| 0 <= i < |s| && s[i] == x && NoLaterInBucket(s, i);
    var j :| 0 <= j < |s| && s[j] == y;
    NotAfterLast(s, i, j);
    if j < i {
      assert PriceDateLe(s[j], s[i]);
    }
  }

  /** No row after position `i` shares its bucket. */
  predicate NoLaterInBucket(s: seq<PriceRow>, i: int)
    requires 0 <= i < |s|
  {
    forall j :: i < j < |s| ==> BucketOf(s[j]) != BucketOf(s[i])
  }

  lemma NotAfterLast(s: seq<PriceRow>, i: int, j: int)
    requires 0 <= i < |s| && 0 <= j < |s| && NoLaterInBucket(s, i)
    requires BucketOf(s[j]) == BucketOf(s[i])
    ensures j <= i
  {
  }

  /** A row is kept exactly from a position that no later row of its bucket
      follows. */
  lemma {:induction false} LastOfBucketsMember(s: seq<PriceRow>, x: PriceRow)
    requires x in LastOfBuckets(s)
    ensures exists i :: 0 <= i < |s| && s[i] == x && NoLaterInBucket(s, i)
    decreases |s|
  {
    var rest := s[1..];
    LastOfBucketsUnfold(s);
    if x in LastOfBuckets(rest) {
      LastOfBucketsMember(rest, x);
      var k :| 0 <= k < |rest| && rest[k] == x && NoLaterInBucket(rest, k);
      assert s[k + 1] == x;
      forall j | k + 1 < j < |s| ensures BucketOf(s[j]) != BucketOf(s[k + 1]) {
        assert s[j] == rest[j - 1];
      }
    } else {
      assert x == s[0] && BucketOf(s[0]) !in BucketsOf(rest);
      forall j | 0 < j < |s| ensures BucketOf(s[j]) != BucketOf(s[0]) {
        assert s[j] in rest;
      }
      assert NoLaterInBucket(s, 0);
    }
  }

  lemma LastOfBucketsUnfold(s: seq<PriceRow>)
    requires |s| > 0
    ensures LastOfBuckets(s) == (if BucketOf(s[0]) in BucketsOf(s[1..]) then [] else [s[0]]) + LastOfBuckets(s[1..])
  {
  }

  /** A first row whose bucket does not recur is kept. */
  lemma LastOfBucketsKeepsFirst(s: seq<PriceRow>)
    requires |s| > 0 && BucketOf(s[0]) !in BucketsOf(s[1..])
    ensures LastOfBuckets(s) == [s[0]] + LastOfBuckets(s[1..])
  {
  }

  /** Rows already one per bucket come through unchanged. */
  lemma {:induction false} LastOfDistinctBuckets(s: seq<PriceRow>)
    requires DistinctBuckets(s)
    ensures LastOfBuckets(s) == s
    decreases |s|
  {
    if |s| > 0 {
      var rest := s[1..];
      DistinctBucketsSplit(s);
      LastOfDistinctBuckets(rest);
      LastOfBucketsKeepsFirst(s);
      assert s == [s[0]] + rest;
    }
  }

  /** Distinct buckets: the first row's bucket is not among the rest, whose
      buckets are distinct too. */
  lemma DistinctBucketsSplit(s: seq<PriceRow>)
    requires DistinctBuckets(s) && |s| > 0
    ensures DistinctBuckets(s[1..]) && BucketOf(s[0]) !in BucketsOf(s[1..])
  {
    var rest := s[1..];
    forall i, j | 0 <= i < j < |rest| ensures BucketOf(rest[i]) != BucketOf(rest[j]) {
      assert rest[i] == s[i + 1] && rest[j] == s[j + 1];
    }
    forall y | y in rest ensures BucketOf(y) != BucketOf(s[0]) {
      var k :| 0 <= k < |rest| && rest[k] == y;
      assert s[k + 1] == y;
    }
  }

  /** A selection that holds only at position `i` selects that row alone. */
  lemma {:induction false} FilterSingle(s: seq<PriceRow>, p: PriceRow -> bool, i: int)
    requires 0 <= i < |s| && p(s[i])
    requires forall j :: 0 <= j < |s| && j != i ==> !p(s[j])
    ensures Filter(s, p) == [s[i]]
    decreases |s|
  {
    var n := |s| - 1;
    var front := s[..n];
    if i == n {
      forall y | y in front ensures !p(y) {
        var k :| 0 <= k < |front| && front[k] == y;
        assert s[k] == y;
      }
      FilterNone(front, p);
    } else {
      FilterSingle(front, p, i);
    }
  }

  lemma DistinctIsOneRowPerBucket(s: seq<PriceRow>)
    requires DistinctBuckets(s)
    ensures OneRowPerBucket(s)
  {
    forall x | x in s ensures |Filter(s, InBucket(BucketOf(x)))| == 1 {
      var i :| 0 <= i < |s| && s[i] == x;
      FilterSingle(s, InBucket(BucketOf(x)), i);
    }
  }

  lemma OneRowPerBucketIsDistinct(s: seq<PriceRow>)
    requires OneRowPerBucket(s)
    ensures DistinctBuckets(s)
  {
    forall i, j | 0 <= i < j < |s| ensures BucketOf(s[i]) != BucketOf(s[j]) {
      assert s[i] in s;
      FilterTwoPositions(s, InBucket(BucketOf(s[i])), i, j);
    }
  }

  lemma OneRowPerBucketPermuted(a: seq<PriceRow>, b: seq<PriceRow>)
    requires multiset(a) == multiset(b) && OneRowPerBucket(a)
    ensures OneRowPerBucket(b)
  {
    forall x | x in b ensures |Filter(b, InBucket(BucketOf(x)))| == 1 {
      assert x in multiset(b);
      FilterPerm(a, b, InBucket(BucketOf(x)));
    }
  }

  /** Each output row is an input row, each as often at most, so the output
      is never longer than the input. */
  lemma MonthlyRowsAreInputRows(rows: seq<PriceRow>)
    ensures multiset(MonthlyPrices(rows)) <= multiset(rows)
    ensures |MonthlyPrices(rows)| <= |rows|
  {
    var byDate := SortByDate(rows);
    var kept := LastOfBuckets(byDate);
    var m := MonthlyPrices(rows);
    assert |m| == |multiset(m)| == |multiset(kept)| == |kept|;
    assert |byDate| == |multiset(byDate)| == |multiset(rows)| == |rows|;
  }

  /** The output holds at most one row per (ISIN, year, month) bucket. */
  lemma MonthlyOneRowPerBucket(rows: seq<PriceRow>)
    ensures OneRowPerBucket(MonthlyPrices(rows))
  {
    var kept := LastOfBuckets(SortByDate(rows));
    LastOfBucketsDistinct(SortByDate(rows));
    DistinctIsOneRowPerBucket(kept);
    OneRowPerBucketPermuted(kept, MonthlyPrices(rows));
  }

  /** No bucket of the input is dropped. */
  lemma MonthlyKeepsEveryBucket(rows: seq<PriceRow>)
    ensures BucketsOf(MonthlyPrices(rows)) == BucketsOf(rows)
  {
    var byDate := SortByDate(rows);
    var kept := LastOfBuckets(byDate);
    LastOfBucketsKeepsBuckets(byDate);
    SameMembersSameBuckets(kept, MonthlyPrices(rows));
    SameMembersSameBuckets(byDate, rows);
  }

  lemma SameMembersSameBuckets(a: seq<PriceRow>, b: seq<PriceRow>)
    requires multiset(a) == multiset(b)
    ensures BucketsOf(a) == BucketsOf(b)
  {
    forall x ensures x in a <==> x in b {
      assert x in a <==> x in multiset(a);
      assert x in b <==> x in multiset(b);
    }
  }

  /** The row kept for a bucket is an input row dated no earlier than any
      input row of that bucket, and carries that row's price. */
  lemma MonthlyKeepsLatest(rows: seq<PriceRow>, x: PriceRow, y: PriceRow)
    requires x in MonthlyPrices(rows) && y in rows && BucketOf(y) == BucketOf(x)
    ensures x in rows
    ensures Ordinal(y.date) <= Ordinal(x.date)
  {
    var byDate := SortByDate(rows);
    var kept := LastOfBuckets(byDate);
    assert x in multiset(MonthlyPrices(rows));
    assert x in kept;
    assert x in multiset(kept);
    assert x in byDate;
    assert x in multiset(byDate);
    assert y in multiset(rows);
    LastOfBucketsLatest(byDate, x, y);
  }

  /** When the input already has one row per bucket, the output holds the
      same rows. */
  lemma MonthlyOfMonthlyRows(rows: seq<PriceRow>)
    requires OneRowPerBucket(rows)
    ensures multiset(MonthlyPrices(rows)) == multiset(rows)
  {
    var byDate := SortByDate(rows);
    OneRowPerBucketPermuted(rows, byDate);
    OneRowPerBucketIsDistinct(byDate);
    LastOfDistinctBuckets(byDate);
  }

  /** Bucketing twice gives the rows bucketing once gives. */
  lemma MonthlyIsIdempotent(rows: seq<PriceRow>)
    ensures multiset(MonthlyPrices(MonthlyPrices(rows))) == multiset(MonthlyPrices(rows))
  {
    MonthlyOneRowPerBucket(rows);
    MonthlyOfMonthlyRows(MonthlyPrices(rows));
  }

  /** `df[c] = ...`: assigning a column adds it to the header once. */
  function WithColumn(columns: seq<string>, c: string): (r: seq<string>)
    ensures c in r && forall d :: d in columns ==> d in r
    ensures c in columns ==> r == columns
    ensures |r| == |columns| + (if c in columns then 0 else 1) && r[..|columns|] == columns
  {
    if c in columns then columns else columns + [c]
  }

  function NotGroupKey(c: string): bool {
    c != "ISIN" && c != "Year" && c != "Month"
  }

  /** The caller's price frame, which `prepare_monthly_price_data` updates
      in place. */
  class PriceFrame {
    var columns: seq<string>
    var rows: seq<PriceRow>

    constructor (columns: seq<string>, rows: seq<PriceRow>)
      ensures this.columns == columns && this.rows == rows
    {
      this.columns := columns;
      this.rows := rows;
    }
  }

  /** `prepare_monthly_price_data`: gives the caller's frame Year and Month
      columns (its Date values are dates already, so the coercion changes
      nothing), then returns one row per bucket with the header the
      group-by produces once Year and Month are dropped again. */
  method PrepareMonthlyPriceData(frame: PriceFrame) returns (monthly: PriceTable)
    modifies frame
    ensures frame.columns == WithColumn(WithColumn(old(frame.columns), "Year"), "Month")
    ensures frame.rows == old(frame.rows)
    ensures "Year" in frame.columns && "Month" in frame.columns
    ensures monthly.rows == MonthlyPrices(old(frame.rows))
    ensures monthly.columns == ["ISIN"] + Filter(old(frame.columns), NotGroupKey)
  {
    ghost var before := frame.columns;
    frame.columns := WithColumn(frame.columns, "Year");
    frame.columns := WithColumn(frame.columns, "Month");
    var grouped := MonthlyPrices(frame.rows);
    var columns := ["ISIN", "Year", "Month"] + Filter(frame.columns, NotGroupKey);
    FilterCongruentColumns(before, frame.columns);
    if "Year" in columns && "Month" in columns {
      columns := ["ISIN"] + Filter(frame.columns, NotGroupKey);
    }
    monthly := PriceTable(columns, grouped);
  }

  lemma FilterCongruentColumns(before: seq<string>, after: seq<string>)
    requires after == WithColumn(WithColumn(before, "Year"), "Month")
    ensures Filter(after, NotGroupKey) == Filter(before, NotGroupKey)
  {
    GroupKeyColumnDropped(before, "Year");
    GroupKeyColumnDropped(WithColumn(before, "Year"), "Month");
  }

  lemma GroupKeyColumnDropped(columns: seq<string>, c: string)
    requires !NotGroupKey(c)
    ensures Filter(WithColumn(columns, c), NotGroupKey) == Filter(columns, NotGroupKey)
  {
    if c !in columns {
      FilterSnoc(columns, c, NotGroupKey);
      assert Filter(columns, NotGroupKey) + [] == Filter(columns, NotGroupKey);
    }
  }

  /** The constituent ISINs without a price row: `load_and_prepare_all_data`
      only logs these. */
  function MissingIsins(isins: seq<string>, rows: seq<PriceRow>): set<string> {
    set c | c in isins && !HasIsin(rows, c)
  }

  predicate HasIsin(rows: seq<PriceRow>, c: string) {
    exists x :: x in rows && x.isin == c
  }

  /** Bucketing keeps every ISIN and invents none. */
  lemma MonthlyKeepsIsins(rows: seq<PriceRow>, c: string)
    ensures HasIsin(MonthlyPrices(rows), c) <==> HasIsin(rows, c)
  {
    var m := MonthlyPrices(rows);
    MonthlyKeepsEveryBucket(rows);
    if HasIsin(rows, c) {
      var x :| x in rows && x.isin == c;
      assert BucketOf(x) in BucketsOf(m);
      var y :| y in m && BucketOf(y) == BucketOf(x);
      assert y.isin == c;
    }
    if HasIsin(m, c) {
      var y :| y in m && y.isin == c;
      assert BucketOf(y) in BucketsOf(rows);
      var x :| x in rows && BucketOf(x) == BucketOf(y);
      assert x.isin == c;
    }
  }

  /** The constituents reported missing after bucketing are those with no
      row in the loaded prices. */
  lemma MissingIsinsBeforeBucketing(isins: seq<string>, rows: seq<PriceRow>)
    ensures MissingIsins(isins, MonthlyPrices(rows)) == MissingIsins(isins, rows)
  {
    forall c | c in isins ensures c in MissingIsins(isins, MonthlyPrices(rows)) <==> c in MissingIsins(isins, rows) {
      MonthlyKeepsIsins(rows, c);
    }
  }

  /** `load_and_prepare_all_data` after both files are read: fails with the
      constituent list's error first, then with the price file's; ISINs of
      the list without prices do not make it fail. */
  method LoadAndPrepareAllData(constituents: ConstituentTable, prices: PriceTable)
    returns (r: Result<(ConstituentTable, PriceTable), LoadError>)
    ensures r.Failure? <==> "ISIN" !in constituents.columns || LoadHistoricalPrices(prices).Failure?
    ensures "ISIN" !in constituents.columns ==> r == Failure(MissingRequiredColumns(["ISIN"]))
    ensures r.Success? ==> r.value.0 == constituents
    ensures r.Failure? && "ISIN" in constituents.columns ==> r.error == LoadHistoricalPrices(prices).error
    ensures r.Success? ==> r.value.1.rows == MonthlyPrices(LoadHistoricalPrices(prices).value.rows)
    ensures r.Success? ==> r.value.1.columns == ["ISIN"] + Filter(prices.columns, NotGroupKey)
    ensures r.Success? ==> "ISIN" in r.value.1.columns && "Date" in r.value.1.columns && "Price" in r.value.1.columns
  {
    var loadedConstituents := LoadNifty500Isins(constituents);
    if loadedConstituents.Failure? {
      return Failure(loadedConstituents.error);
    }
    var loadedPrices := LoadHistoricalPrices(prices);
    if loadedPrices.Failure? {
      return Failure(loadedPrices.error);
    }
    var frame := new PriceFrame(loadedPrices.value.columns, loadedPrices.value.rows);
    var monthly := PrepareMonthlyPriceData(frame);
    var missing := MissingIsins(loadedConstituents.value.isins, monthly.rows);
    FilterMember(prices.columns, NotGroupKey, "Date");
    FilterMember(prices.columns, NotGroupKey, "Price");
    r := Success((loadedConstituents.value, monthly));
  }
}
