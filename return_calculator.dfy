/**
 * Trailing one-year returns on a monthly rolling basis. For each row of a
 * security, the prior row is the security's latest row dated on or before
 * "12 calendar months back, plus 15 days"; a return is emitted when that
 * row is 330 to 395 days back, as the fraction price_now / price_prior - 1.
 */
module ReturnCalculator {
  import opened Wrappers
  import opened Calendar
  import opened Ordering
  import opened Seqs
  import opened Grouping
  import opened Frames

  /** Fewest and most days allowed between a row and its prior row. */
  const MinGap: int := 330
  const MaxGap: int := 395

  /** Day number of `target_date + 15 days`, with `target_date` the date 12
      calendar months before `d`. It lies 350 or 351 days before `d`, so a
      prior row on or before it is always at least 350 days back. */
  function WindowEnd(d: Date): (e: int)
    ensures Ordinal(d) - 351 <= e <= Ordinal(d) - 350
  {
    Ordinal(TwelveMonthsEarlier(d)) + 15
  }

  /** The return as a fraction: positive exactly when the price rose, zero
      exactly when it is unchanged, and never -100% or below. */
  function YearlyReturn(now: Price, prior: Price): (r: real)
    ensures r > -1.0
    ensures r > 0.0 <==> now > prior
    ensures r == 0.0 <==> now == prior
    ensures r < 0.0 <==> now < prior
  {
    RatioAgainstOne(now, prior);
    now / prior - 1.0
  }

  lemma RatioAgainstOne(a: real, b: real)
    requires a > 0.0 && b > 0.0
    ensures a / b > 0.0
    ensures a / b > 1.0 <==> a > b
    ensures a / b == 1.0 <==> a == b
  {
    RatioAboveOne(a, b);
    RatioBelowOne(a, b);
    RatioOfPositives(a, b);
  }

  lemma RatioAboveOne(a: real, b: real)
    requires a > 0.0 && b > 0.0
    ensures a / b > 1.0 ==> a > b
  {
    var q := a / b;
    assert a == q * b;
    assert (q - 1.0) * b == a - b;
    if q > 1.0 {
      assert (q - 1.0) * b > 0.0;
      assert a - b > 0.0;
    }
  }

  lemma RatioBelowOne(a: real, b: real)
    requires a > 0.0 && b > 0.0
    ensures a / b < 1.0 ==> a < b
  {
    var q := a / b;
    assert a == q * b;
    assert (1.0 - q) * b == b - a;
    if q < 1.0 {
      assert (1.0 - q) * b > 0.0;
      assert b - a > 0.0;
    }
  }

  lemma RatioOfPositives(a: real, b: real)
    requires a > 0.0 && b > 0.0
    ensures a / b > 0.0
    ensures a / b == 1.0 <==> a == b
  {
    var q := a / b;
    assert a == q * b;
  }

  /** The rows are in ascending date order. */
  predicate DatesAscend(rows: seq<PriceRow>) {
    forall i, j :: 0 <= i < j < |rows| ==> Ordinal(rows[i].date) <= Ordinal(rows[j].date)
  }

  /** The rows of one security, in ascending date order. */
  predicate SecurityRows(group: seq<PriceRow>) {
    |group| > 0 && DatesAscend(group) && forall x :: x in group ==> x.isin == group[0].isin
  }

  /** `group[group['Date'] <= bound].iloc[-1]`: the position of the last row
      dated on or before day `bound`, or None when there is none. */
  function LastOnOrBefore(group: seq<PriceRow>, bound: int): (k: Option<nat>)
    ensures k.Some? ==> k.value < |group| && Ordinal(group[k.value].date) <= bound
    ensures k.Some? ==> forall j :: k.value < j < |group| ==> Ordinal(group[j].date) > bound
    ensures k.None? ==> forall j :: 0 <= j < |group| ==> Ordinal(group[j].date) > bound
    decreases |group|
  {
    if |group| == 0 then None
    else if Ordinal(group[|group| - 1].date) <= bound then Some(|group| - 1)
    else LastOnOrBefore(group[..|group| - 1], bound)
  }

  /** The return row emitted for row `i` of a security's date-sorted rows. */
  function Emit(group: seq<PriceRow>, i: nat): Option<ReturnRow>
    requires i < |group|
  {
    var now := group[i];
    match LastOnOrBefore(group, WindowEnd(now.date))
    case None => None
    case Some(k) =>
      var gap := Ordinal(now.date) - Ordinal(group[k].date);
      if MinGap <= gap <= MaxGap then Some(ReturnRow(now.isin, now.date, YearlyReturn(now.price, group[k].price)))
      else None
  }

  function OptionRows(o: Option<ReturnRow>): seq<ReturnRow> {
    if o.Some? then [o.value] else []
  }

  /** The returns emitted for the first `n` rows of a security. */
  function Emitted(group: seq<PriceRow>, n: nat): seq<ReturnRow>
    requires n <= |group|
  {
    if n == 0 then [] else Emitted(group, n - 1) + OptionRows(Emit(group, n - 1))
  }

  /** The returns emitted for the first `n` securities. */
  function EmittedByGroups(gs: seq<seq<PriceRow>>, n: nat): seq<ReturnRow>
    requires n <= |gs|
  {
    if n == 0 then [] else EmittedByGroups(gs, n - 1) + Emitted(gs[n - 1], |gs[n - 1]|)
  }

  /** The ISIN groups of the (ISIN, Date)-sorted price frame: each non-empty,
      of one ISIN, in date order, and holding every row of its ISIN. */
  function PriceGroups(prices: seq<PriceRow>): (gs: seq<seq<PriceRow>>)
    ensures multiset(Flatten(gs)) == multiset(prices)
    ensures forall j :: 0 <= j < |gs| ==> |gs[j]| > 0 && DatesAscend(gs[j])
    ensures forall j, x :: 0 <= j < |gs| && x in gs[j] ==> x.isin == gs[j][0].isin
    ensures forall j, x :: 0 <= j < |gs| ==> (x in gs[j] <==> x in prices && x.isin == gs[j][0].isin)
  {
    var sorted := SortPrices(prices);
    SortedByIsin(prices);
    var gs := GroupRuns(sorted, PriceIsin);
    GroupsSorted(sorted, PriceIsin, PriceKeyLe);
    forall j | 0 <= j < |gs| ensures DatesAscend(gs[j]) {
      var g := gs[j];
      forall a, b | 0 <= a < b < |g| ensures Ordinal(g[a].date) <= Ordinal(g[b].date) {
        assert PriceKeyLe(g[a], g[b]);
        assert g[a].isin == g[b].isin by {
          assert g[a] in g && g[b] in g;
        }
      }
    }
    forall j, x | 0 <= j < |gs| ensures x in gs[j] <==> x in prices && x.isin == gs[j][0].isin {
      GroupOfKey(sorted, PriceIsin, j, x);
      assert x in sorted <==> x in multiset(sorted);
      assert x in prices <==> x in multiset(prices);
    }
    gs
  }

  /** The (ISIN, Date)-sorted price frame is sorted by ISIN alone. */
  lemma SortedByIsin(prices: seq<PriceRow>)
    ensures KeySorted(SortPrices(prices), PriceIsin)
  {
    var sorted := SortPrices(prices);
    forall i, j | 0 <= i < j < |sorted| ensures StrLe(PriceIsin(sorted[i]), PriceIsin(sorted[j])) {
      assert PriceKeyLe(sorted[i], sorted[j]);
      KeyLeIsins(sorted[i].isin, Ordinal(sorted[i].date), sorted[j].isin, Ordinal(sorted[j].date));
    }
  }

  /** `groupby('ISIN')` visits the securities in ascending ISIN order. */
  lemma PriceGroupsAscend(prices: seq<PriceRow>)
    ensures KeysAscend(PriceGroups(prices), PriceIsin)
  {
    SortedByIsin(prices);
    GroupKeysIncrease(SortPrices(prices), PriceIsin);
  }

  /** The frame `calculate_yearly_returns` returns. */
  function YearlyReturns(prices: seq<PriceRow>): seq<ReturnRow> {
    var gs := PriceGroups(prices);
    EmittedByGroups(gs, |gs|)
  }

  /** The columns ISIN, Date, YearlyReturn assembled into rows. */
  function Columns(isins: seq<string>, dates: seq<Date>, yearly: seq<real>): (rows: seq<ReturnRow>)
    requires |isins| == |dates| == |yearly|
    ensures |rows| == |isins|
    ensures forall k :: 0 <= k < |rows| ==> rows[k] == ReturnRow(isins[k], dates[k], yearly[k])
  {
    seq(|isins|, k requires 0 <= k < |isins| => ReturnRow(isins[k], dates[k], yearly[k]))
  }

  lemma ColumnsAppend(isins: seq<string>, dates: seq<Date>, yearly: seq<real>, isin: string, date: Date, r: real)
    requires |isins| == |dates| == |yearly|
    ensures Columns(isins + [isin], dates + [date], yearly + [r]) == Columns(isins, dates, yearly) + [ReturnRow(isin, date, r)]
  {
  }

  lemma AppendAssociates(a: seq<ReturnRow>, b: seq<ReturnRow>, c: seq<ReturnRow>)
    ensures (a + b) + c == a + (b + c)
  {
  }

  /** Appending the rows of row `i` extends the rows of the first `i`. */
  lemma EmittedStep(done: seq<ReturnRow>, group: seq<PriceRow>, i: nat)
    requires i < |group|
    ensures done + Emitted(group, i) + OptionRows(Emit(group, i)) == done + Emitted(group, i + 1)
  {
    AppendAssociates(done, Emitted(group, i), OptionRows(Emit(group, i)));
  }

  /** `calculate_yearly_returns`: for each ISIN group and each of its rows,
      looks up the prior row and appends the return to the result columns. */
  method CalculateYearlyReturns(prices: seq<PriceRow>) returns (result: seq<ReturnRow>)
    ensures result == YearlyReturns(prices)
  {
    var groups := PriceGroups(prices);
    var resultIsins: seq<string> := [];
    var resultDates: seq<Date> := [];
    var resultReturns: seq<real> := [];
    for g := 0 to |groups|
      invariant |resultIsins| == |resultDates| == |resultReturns|
      invariant Columns(resultIsins, resultDates, resultReturns) == EmittedByGroups(groups, g)
    {
      var group := groups[g];
      resultIsins, resultDates, resultReturns := AppendGroupReturns(group, group[0].isin, resultIsins, resultDates, resultReturns);
    }
    result := Columns(resultIsins, resultDates, resultReturns);
  }

  /** The inner loop of `calculate_yearly_returns` over the date-sorted rows
      of the security `isin`, appending to the result columns. */
  method AppendGroupReturns(group: seq<PriceRow>, isin: string, isins0: seq<string>, dates0: seq<Date>, yearly0: seq<real>)
    returns (isins: seq<string>, dates: seq<Date>, yearly: seq<real>)
    requires forall x :: x in group ==> x.isin == isin
    requires |isins0| == |dates0| == |yearly0|
    ensures |isins| == |dates| == |yearly|
    ensures Columns(isins, dates, yearly) == Columns(isins0, dates0, yearly0) + Emitted(group, |group|)
  {
    isins, dates, yearly := isins0, dates0, yearly0;
    ghost var base := Columns(isins0, dates0, yearly0);
    for i := 0 to |group|
      invariant |isins| == |dates| == |yearly|
      invariant Columns(isins, dates, yearly) == base + Emitted(group, i)
    {
      assert group[i] in group;
      var emitted := RowReturn(group, i, isin);
      EmittedStep(base, group, i);
      if emitted.Some? {
        var row := emitted.value;
        ColumnsAppend(isins, dates, yearly, row.isin, row.date, row.yearlyReturn);
        isins := isins + [row.isin];
        dates := dates + [row.date];
        yearly := yearly + [row.yearlyReturn];
      }
    }
  }

  /** The body of the inner loop for row `i`: finds the prior row and, when
      it lies 330 to 395 days back, the return to append. */
  method RowReturn(group: seq<PriceRow>, i: nat, isin: string) returns (emitted: Option<ReturnRow>)
    requires i < |group| && group[i].isin == isin
    ensures emitted == Emit(group, i)
  {
    var currentDate := group[i].date;
    var currentPrice := group[i].price;
    var prior := LastOnOrBefore(group, WindowEnd(currentDate));
    emitted := None;
    if prior.Some? {
      var priorRow := group[prior.value];
      var dateDiff := Ordinal(currentDate) - Ordinal(priorRow.date);
      if MinGap <= dateDiff <= MaxGap {
        var yearlyReturn := YearlyReturn(currentPrice, priorRow.price);
        emitted := Some(ReturnRow(isin, currentDate, yearlyReturn));
      }
    }
  }

  /** The row `now` has a row of its security in `rows` dated from 395 days
      before it up to the window end: the rows that get a return. */
  predicate HasPriorIn(rows: seq<PriceRow>, now: PriceRow) {
    exists p :: p in rows && p.isin == now.isin && Ordinal(now.date) - MaxGap <= Ordinal(p.date) <= WindowEnd(now.date)
  }

  function Eligible(rows: seq<PriceRow>): PriceRow -> bool {
    now => HasPriorIn(rows, now)
  }

  /** `p` is the latest row of `now`'s security in `rows` dated on or before
      the window end of `now`. */
  predicate IsPriorRow(rows: seq<PriceRow>, now: PriceRow, p: PriceRow) {
    p in rows && p.isin == now.isin && Ordinal(p.date) <= WindowEnd(now.date) &&
    forall q :: q in rows && q.isin == now.isin && Ordinal(q.date) <= WindowEnd(now.date) ==> Ordinal(q.date) <= Ordinal(p.date)
  }

  /** Within one security's date-sorted rows, row `i` gets a return exactly
      when a row lies between 395 days back and the window end; the return
      is then measured against the latest row on or before the window end,
      which lies 350 to 395 days back (so the 330-day lower bound never
      decides anything). */
  lemma EmitCharacterised(group: seq<PriceRow>, i: nat)
    requires i < |group| && SecurityRows(group)
    ensures Emit(group, i).Some? <==> HasPriorIn(group, group[i])
    ensures Emit(group, i).Some? ==> exists p :: ReturnFrom(group, Emit(group, i).value, group[i], p)
  {
    var now := group[i];
    var bound := WindowEnd(now.date);
    var prior := LastOnOrBefore(group, bound);
    if prior.Some? {
      var k := prior.value;
      var p := group[k];
      LastOnOrBeforeIsPrior(group, i, k);
      if HasPriorIn(group, now) {
        var w :| w in group && w.isin == now.isin && Ordinal(now.date) - MaxGap <= Ordinal(w.date) <= bound;
        assert Ordinal(w.date) <= Ordinal(p.date);
      }
      if Emit(group, i).Some? {
        assert p in group;
        assert HasPriorIn(group, now);
        assert ReturnFrom(group, Emit(group, i).value, now, p);
      }
    }
  }

  /** The row `LastOnOrBefore` finds is the prior row. */
  lemma LastOnOrBeforeIsPrior(group: seq<PriceRow>, i: nat, k: nat)
    requires i < |group| && SecurityRows(group)
    requires LastOnOrBefore(group, WindowEnd(group[i].date)) == Some(k)
    ensures IsPriorRow(group, group[i], group[k])
  {
    var now := group[i];
    var bound := WindowEnd(now.date);
    assert now in group && group[k] in group;
    forall q | q in group && q.isin == now.isin && Ordinal(q.date) <= bound
      ensures Ordinal(q.date) <= Ordinal(group[k].date)
    {
      var m :| 0 <= m < |group| && group[m] == q;
      WithinBoundNotAfter(group, bound, k, m);
    }
  }

  /** No row on or before the bound comes after the one `LastOnOrBefore` finds. */
  lemma WithinBoundNotAfter(group: seq<PriceRow>, bound: int, k: nat, m: nat)
    requires DatesAscend(group)
    requires LastOnOrBefore(group, bound) == Some(k)
    requires m < |group| && Ordinal(group[m].date) <= bound
    ensures m <= k && Ordinal(group[m].date) <= Ordinal(group[k].date)
  {
    assert LastOnOrBefore(group, bound).value == k;
    if m < k {
      assert Ordinal(group[m].date) <= Ordinal(group[k].date);
    }
  }

  /** The (ISIN, Date) key of a price row and of a return row. */
  function PriceKey(x: PriceRow): (string, Date) {
    (x.isin, x.date)
  }

  function ReturnKey(r: ReturnRow): (string, Date) {
    (r.isin, r.date)
  }

  /** The returns of the first `n` rows of a security carry, in order, the
      keys of those of its first `n` rows that have a prior row. */
  lemma {:induction false} EmittedKeys(group: seq<PriceRow>, n: nat)
    requires n <= |group| && SecurityRows(group)
    ensures MapSeq(Emitted(group, n), ReturnKey) == MapSeq(Filter(group[..n], Eligible(group)), PriceKey)
    decreases n
  {
    if n > 0 {
      var i := n - 1;
      EmittedKeys(group, i);
      var kept := if Eligible(group)(group[i]) then [group[i]] else [];
      EmitKey(group, i);
      FilterPrefixStep(group, Eligible(group), n);
      MapBoth(Emitted(group, i), OptionRows(Emit(group, i)), Filter(group[..i], Eligible(group)), kept, ReturnKey, PriceKey);
    }
  }

  /** Row `i` contributes its own key exactly when it is eligible. */
  lemma EmitKey(group: seq<PriceRow>, i: nat)
    requires i < |group| && SecurityRows(group)
    ensures MapSeq(OptionRows(Emit(group, i)), ReturnKey) ==
      MapSeq(if Eligible(group)(group[i]) then [group[i]] else [], PriceKey)
  {
    assert group[i] in group;
    EmitCharacterised(group, i);
  }

  /** A row of a security's group has a prior row in the group exactly when
      it has one in the whole frame. */
  lemma GroupEligibility(prices: seq<PriceRow>, j: nat)
    requires j < |PriceGroups(prices)|
    ensures var g := PriceGroups(prices)[j];
      Filter(g, Eligible(g)) == Filter(g, Eligible(prices))
  {
    var g := PriceGroups(prices)[j];
    forall x | x in g ensures Eligible(g)(x) == Eligible(prices)(x) {
      if HasPriorIn(prices, x) {
        var w :| w in prices && w.isin == x.isin && Ordinal(x.date) - MaxGap <= Ordinal(w.date) <= WindowEnd(x.date);
        assert w in g;
      }
      if HasPriorIn(g, x) {
        var w :| w in g && w.isin == x.isin && Ordinal(x.date) - MaxGap <= Ordinal(w.date) <= WindowEnd(x.date);
        assert w in prices;
      }
    }
    FilterCongruent(g, Eligible(g), Eligible(prices));
  }

  lemma {:induction false} EmittedByGroupsKeys(prices: seq<PriceRow>, n: nat)
    requires n <= |PriceGroups(prices)|
    ensures var gs := PriceGroups(prices);
      MapSeq(EmittedByGroups(gs, n), ReturnKey) == MapSeq(Filter(Flatten(gs[..n]), Eligible(prices)), PriceKey)
    decreases n
  {
    var gs := PriceGroups(prices);
    if n > 0 {
      var j := n - 1;
      var g := gs[j];
      EmittedByGroupsKeys(prices, j);
      assert gs[..n][..j] == gs[..j];
      assert Flatten(gs[..n]) == Flatten(gs[..j]) + g;
      assert g[..|g|] == g;
      EmittedKeys(g, |g|);
      GroupEligibility(prices, j);
      FilterConcat(Flatten(gs[..j]), g, Eligible(prices));
      MapConcat(EmittedByGroups(gs, j), Emitted(g, |g|), ReturnKey);
      MapConcat(Filter(Flatten(gs[..j]), Eligible(prices)), Filter(g, Eligible(prices)), PriceKey);
    }
  }

  /** `calculate_yearly_returns` emits one return per price row that has a
      prior row of its security between 395 days back and the window end,
      and for no other row: the (ISIN, Date) keys of the result are those of
      the eligible rows, with multiplicity, so there are never more returns
      than prices. */
  lemma ReturnsAreEligibleRows(prices: seq<PriceRow>)
    ensures multiset(MapSeq(YearlyReturns(prices), ReturnKey)) == multiset(MapSeq(Filter(prices, Eligible(prices)), PriceKey))
    ensures |YearlyReturns(prices)| == |Filter(prices, Eligible(prices))| <= |prices|
  {
    var gs := PriceGroups(prices);
    EmittedByGroupsKeys(prices, |gs|);
    assert gs[..|gs|] == gs;
    FilterPerm(Flatten(gs), prices, Eligible(prices));
    MapPerm(Filter(Flatten(gs), Eligible(prices)), Filter(prices, Eligible(prices)), PriceKey);
  }

  lemma {:induction false} EmittedMember(group: seq<PriceRow>, n: nat, r: ReturnRow)
    requires n <= |group|
    ensures r in Emitted(group, n) ==> exists i :: 0 <= i < n && Emit(group, i) == Some(r)
    decreases n
  {
    if n > 0 {
      EmittedMember(group, n - 1, r);
    }
  }

  lemma {:induction false} EmittedByGroupsMember(gs: seq<seq<PriceRow>>, n: nat, r: ReturnRow)
    requires n <= |gs|
    ensures r in EmittedByGroups(gs, n) ==> exists j :: 0 <= j < n && r in Emitted(gs[j], |gs[j]|)
    decreases n
  {
    if n > 0 {
      EmittedByGroupsMember(gs, n - 1, r);
    }
  }

  /** `r` is the return of row `now` of `rows` measured against its prior
      row `p`, which lies 350 to 395 days before it. */
  predicate ReturnFrom(rows: seq<PriceRow>, r: ReturnRow, now: PriceRow, p: PriceRow) {
    now in rows && now.isin == r.isin && now.date == r.date &&
    IsPriorRow(rows, now, p) && 350 <= Ordinal(now.date) - Ordinal(p.date) <= MaxGap &&
    r.yearlyReturn == YearlyReturn(now.price, p.price)
  }

  lemma GroupReturnProvenance(g: seq<PriceRow>, r: ReturnRow)
    requires SecurityRows(g)
    requires r in Emitted(g, |g|)
    ensures exists now, p :: ReturnFrom(g, r, now, p)
  {
    EmittedMember(g, |g|, r);
    var i :| 0 <= i < |g| && Emit(g, i) == Some(r);
    assert g[i] in g;
    EmitCharacterised(g, i);
    var p :| ReturnFrom(g, Emit(g, i).value, g[i], p);
    assert ReturnFrom(g, r, g[i], p);
  }

  /** The prior row of a row within its security's group is its prior row
      within the whole frame. */
  lemma GroupPriorIsFramePrior(prices: seq<PriceRow>, j: nat, r: ReturnRow, now: PriceRow, p: PriceRow)
    requires j < |PriceGroups(prices)|
    requires ReturnFrom(PriceGroups(prices)[j], r, now, p)
    ensures ReturnFrom(prices, r, now, p)
  {
    var g := PriceGroups(prices)[j];
    forall q | q in prices && q.isin == now.isin && Ordinal(q.date) <= WindowEnd(now.date)
      ensures Ordinal(q.date) <= Ordinal(p.date)
    {
      assert q in g;
    }
    assert p in g && now in g;
  }

  /** Every return comes from a price row `now` of its security and date and
      is `now / prior - 1` for the latest row `prior` of that security on or
      before the window end, which lies 350 to 395 days before `now`. */
  lemma ReturnProvenance(prices: seq<PriceRow>, r: ReturnRow)
    requires r in YearlyReturns(prices)
    ensures exists now, p :: ReturnFrom(prices, r, now, p)
  {
    var gs := PriceGroups(prices);
    EmittedByGroupsMember(gs, |gs|, r);
    var j :| 0 <= j < |gs| && r in Emitted(gs[j], |gs[j]|);
    GroupReturnProvenance(gs[j], r);
    var now, p :| ReturnFrom(gs[j], r, now, p);
    GroupPriorIsFramePrior(prices, j, r, now, p);
  }

  /** Every return sits on a price row of its security and date, and needs a
      row of that security at least 350 days earlier. */
  lemma ReturnNeedsYearOfHistory(prices: seq<PriceRow>, r: ReturnRow)
    requires r in YearlyReturns(prices)
    ensures exists now, p :: (now in prices && p in prices && now.isin == r.isin && p.isin == r.isin &&
      now.date == r.date && Ordinal(p.date) <= Ordinal(now.date) - 350)
  {
    ReturnProvenance(prices, r);
    var now, p :| ReturnFrom(prices, r, now, p);
    assert now in prices && p in prices;
  }

  /** A security's earliest row gets no return. */
  lemma EarliestRowHasNoReturn(prices: seq<PriceRow>, x: PriceRow)
    requires x in prices
    requires forall q :: q in prices && q.isin == x.isin ==> Ordinal(x.date) <= Ordinal(q.date)
    ensures forall r :: r in YearlyReturns(prices) ==> !(r.isin == x.isin && r.date == x.date)
  {
    forall r | r in YearlyReturns(prices) && r.isin == x.isin
      ensures r.date != x.date
    {
      ReturnNeedsYearOfHistory(prices, r);
    }
  }

  /** A security whose rows span less than 350 days gets no return at all. */
  lemma ShortHistoryHasNoReturns(prices: seq<PriceRow>, isin: string)
    requires forall a, b :: a in prices && b in prices && a.isin == isin && b.isin == isin ==>
      Ordinal(b.date) - Ordinal(a.date) < 350
    ensures forall r :: r in YearlyReturns(prices) ==> r.isin != isin
  {
    forall r | r in YearlyReturns(prices)
      ensures r.isin != isin
    {
      ReturnNeedsYearOfHistory(prices, r);
    }
  }

  /** The error `validate_returns` raises: a frame built from three empty
      lists has an object-typed YearlyReturn column, on which `nlargest`
      raises TypeError. */
  datatype ValidationError = NonNumericReturns

  /** `validate_returns`: on an empty frame `nlargest` raises; otherwise its
      checks only log and the frame is returned as it was given. */
  function ValidateReturns(frame: seq<ReturnRow>): (validated: Result<seq<ReturnRow>, ValidationError>)
    ensures validated.Failure? <==> |frame| == 0
    ensures validated.Success? ==> validated.value == frame
  {
    if |frame| == 0 then Failure(NonNumericReturns) else Success(frame)
  }

  /** Validation of the computed returns fails exactly when no price row has
      a prior row between 395 days back and its window end. */
  lemma ValidationFailsWithoutEligibleRows(prices: seq<PriceRow>)
    ensures ValidateReturns(YearlyReturns(prices)).Failure? <==> |Filter(prices, Eligible(prices))| == 0
  {
    ReturnsAreEligibleRows(prices);
  }
}
