/**
 * Month-over-month rank changes. Each security's rows are taken in date
 * order, and every row is paired with the security's previous appearance,
 * whatever the number of months in between. A negative rank delta is an
 * improvement.
 */
module RankDeltaCalculator {
  import opened Wrappers
  import opened Calendar
  import opened Ordering
  import opened Seqs
  import opened Grouping
  import opened Frames

  /** The ranked columns of a rank-delta row. */
  function Base(r: DeltaRow): RankedRow {
    RankedRow(r.isin, r.date, r.yearlyReturn, r.rank)
  }

  /** Row `i` of the (ISIN, Date)-sorted frame `s` with `shift(1)` of the
      Rank column within its ISIN group, and the difference. */
  function ShiftedRow(s: seq<RankedRow>, i: nat): DeltaRow
    requires i < |s|
  {
    var previous := if i > 0 && s[i - 1].isin == s[i].isin then Some(s[i - 1].rank) else None;
    DeltaRow(s[i].isin, s[i].date, s[i].yearlyReturn, s[i].rank, previous,
      if previous.Some? then Some(s[i].rank - previous.value) else None)
  }

  function ShiftAll(s: seq<RankedRow>): (deltas: seq<DeltaRow>)
    ensures |deltas| == |s|
  {
    seq(|s|, i requires 0 <= i < |s| => ShiftedRow(s, i))
  }

  /** `calculate_rank_delta`: the ranked rows re-sorted by (ISIN, Date), each
      with PreviousRank and RankDelta = Rank - PreviousRank, both absent
      together. */
  function CalculateRankDelta(ranked: seq<RankedRow>): (deltas: seq<DeltaRow>)
    ensures |deltas| == |ranked|
    ensures multiset(MapSeq(deltas, Base)) == multiset(ranked)
    ensures SortedBy(deltas, DeltaKeyLe)
    ensures forall i :: 0 <= i < |deltas| ==>
      (deltas[i].rankDelta.Some? <==> deltas[i].previousRank.Some?) &&
      (deltas[i].previousRank.Some? ==> deltas[i].rankDelta.value == deltas[i].rank - deltas[i].previousRank.value)
  {
    var s := SortRanked(ranked);
    var deltas := ShiftAll(s);
    assert |s| == |multiset(s)| == |multiset(ranked)| == |ranked|;
    assert MapSeq(deltas, Base) == s;
    deltas
  }

  /** The mask "same ISIN and same Date as `r`". */
  function SameKey(r: RankedRow): RankedRow -> bool {
    (x: RankedRow) => x.isin == r.isin && x.date == r.date
  }

  /** At most one row per (ISIN, Date). */
  predicate OneRowPerKey(rows: seq<RankedRow>) {
    forall r :: r in rows ==> |Filter(rows, SameKey(r))| == 1
  }

  lemma OneRowPerKeyPermuted(a: seq<RankedRow>, b: seq<RankedRow>)
    requires multiset(a) == multiset(b)
    requires OneRowPerKey(a)
    ensures OneRowPerKey(b)
  {
    forall r | r in b ensures |Filter(b, SameKey(r))| == 1 {
      assert r in multiset(b);
      FilterPerm(a, b, SameKey(r));
    }
  }

  /** In a sorted frame, a row of the same ISIN further back is dated no
      later, and strictly earlier when keys are unique. */
  lemma EarlierPosition(s: seq<RankedRow>, k: int, i: int)
    requires SortedBy(s, RankedKeyLe)
    requires 0 <= k < i < |s| && s[k].isin == s[i].isin
    ensures Ordinal(s[k].date) <= Ordinal(s[i].date)
    ensures OneRowPerKey(s) ==> Ordinal(s[k].date) < Ordinal(s[i].date)
  {
    assert RankedKeyLe(s[k], s[i]);
    OrdinalOrder(s[k].date, s[i].date);
    FilterTwoPositions(s, SameKey(s[i]), k, i);
    assert s[i] in s;
  }

  /** In a sorted frame, an ISIN seen anywhere before position `i` is also
      the ISIN of the row just before `i`. */
  lemma SameIsinJustBefore(s: seq<RankedRow>, k: int, i: int)
    requires SortedBy(s, RankedKeyLe)
    requires 0 <= k < i < |s| && s[k].isin == s[i].isin
    ensures s[i - 1].isin == s[i].isin
    ensures Ordinal(s[k].date) <= Ordinal(s[i - 1].date)
  {
    assert RankedKeyLe(s[k], s[i - 1]) || k == i - 1;
    assert RankedKeyLe(s[i - 1], s[i]);
    if k < i - 1 {
      KeyLeIsins(s[k].isin, Ordinal(s[k].date), s[i - 1].isin, Ordinal(s[i - 1].date));
    } else {
      StrLeReflexive(s[k].isin);
    }
    KeyLeIsins(s[i - 1].isin, Ordinal(s[i - 1].date), s[i].isin, Ordinal(s[i].date));
    StrLeAntisymmetric(s[i - 1].isin, s[i].isin);
  }

  /** Over a sorted frame with one row per (ISIN, Date): position `i` has
      a same-ISIN row before it exactly when some row of its ISIN is dated
      earlier, and the row just before it is then the latest such row. */
  lemma ShiftFindsPreviousAppearance(s: seq<RankedRow>, i: int)
    requires SortedBy(s, RankedKeyLe)
    requires OneRowPerKey(s)
    requires 0 <= i < |s|
    ensures (i > 0 && s[i - 1].isin == s[i].isin) <==>
      exists k :: 0 <= k < |s| && s[k].isin == s[i].isin && Ordinal(s[k].date) < Ordinal(s[i].date)
    ensures i > 0 && s[i - 1].isin == s[i].isin ==>
      Ordinal(s[i - 1].date) < Ordinal(s[i].date) &&
      forall k :: 0 <= k < |s| && s[k].isin == s[i].isin && Ordinal(s[k].date) < Ordinal(s[i].date) ==>
        Ordinal(s[k].date) <= Ordinal(s[i - 1].date)
  {
    forall k | 0 <= k < |s| && s[k].isin == s[i].isin
      ensures k < i ==>
        Ordinal(s[k].date) < Ordinal(s[i].date) && s[i - 1].isin == s[i].isin &&
        Ordinal(s[k].date) <= Ordinal(s[i - 1].date)
      ensures k >= i ==> Ordinal(s[i].date) <= Ordinal(s[k].date)
    {
      if k < i {
        EarlierPosition(s, k, i);
        SameIsinJustBefore(s, k, i);
      } else if k > i {
        EarlierPosition(s, i, k);
      }
    }
    if i > 0 && s[i - 1].isin == s[i].isin {
      EarlierPosition(s, i - 1, i);
    }
  }

  /** With one row per (ISIN, Date), a row has no PreviousRank exactly when
      no row of its ISIN is dated earlier; otherwise PreviousRank is the rank
      of the latest earlier-dated row of its ISIN, however many months back. */
  lemma PreviousRankIsPreviousAppearance(ranked: seq<RankedRow>, i: int)
    requires OneRowPerKey(ranked)
    requires 0 <= i < |ranked|
    ensures var d := CalculateRankDelta(ranked)[i];
      (d.previousRank.None? <==>
        forall r :: r in ranked && r.isin == d.isin ==> Ordinal(d.date) <= Ordinal(r.date)) &&
      (d.previousRank.Some? ==>
        exists r :: r in ranked && r.isin == d.isin && Ordinal(r.date) < Ordinal(d.date) &&
          r.rank == d.previousRank.value &&
          forall q :: q in ranked && q.isin == d.isin && Ordinal(q.date) < Ordinal(d.date) ==>
            Ordinal(q.date) <= Ordinal(r.date))
  {
    var s := SortRanked(ranked);
    OneRowPerKeyPermuted(ranked, s);
    var d := CalculateRankDelta(ranked)[i];
    assert d == ShiftedRow(s, i);
    assert forall r :: r in ranked <==> r in s by {
      forall r ensures r in ranked <==> r in s {
        assert r in ranked <==> r in multiset(ranked);
        assert r in s <==> r in multiset(s);
      }
    }
    ShiftFindsPreviousAppearance(s, i);
    if i > 0 && s[i - 1].isin == s[i].isin {
      assert s[i - 1] in ranked;
    }
  }

  predicate HasNoPrevious(r: DeltaRow) {
    r.previousRank.None?
  }

  /** The ISINs of a frame. */
  function IsinsOf(rows: seq<RankedRow>): set<string> {
    set r | r in rows :: r.isin
  }

  lemma {:induction false} NoPreviousCountsIsinsBelow(s: seq<RankedRow>, n: nat)
    requires SortedBy(s, RankedKeyLe)
    requires n <= |s|
    ensures |Filter(ShiftAll(s)[..n], HasNoPrevious)| == |IsinsOf(s[..n])|
  {
    if n == 0 {
      assert IsinsOf(s[..n]) == {};
    } else {
      var m := n - 1;
      var d := ShiftAll(s);
      NoPreviousCountsIsinsBelow(s, m);
      FilterPrefixStep(d, HasNoPrevious, n);
      NoPreviousIffNewIsin(s, m);
      IsinsOfStep(s, n);
      var added := if HasNoPrevious(d[m]) then [d[m]] else [];
      assert |Filter(d[..n], HasNoPrevious)| == |Filter(d[..m], HasNoPrevious)| + |added|;
    }
  }

  /** A row adds its ISIN to those of the rows before it, one more exactly
      when it is new. */
  lemma IsinsOfStep(s: seq<RankedRow>, n: nat)
    requires 0 < n <= |s|
    ensures |IsinsOf(s[..n])| == |IsinsOf(s[..n - 1])| + (if s[n - 1].isin in IsinsOf(s[..n - 1]) then 0 else 1)
  {
    assert s[..n] == s[..n - 1] + [s[n - 1]];
    assert IsinsOf(s[..n]) == IsinsOf(s[..n - 1]) + {s[n - 1].isin};
    CardAddOne(IsinsOf(s[..n - 1]), s[n - 1].isin);
  }


  /** In the sorted frame, row `m` has no previous rank exactly when its ISIN
      does not occur before it. */
  lemma NoPreviousIffNewIsin(s: seq<RankedRow>, m: nat)
    requires SortedBy(s, RankedKeyLe) && m < |s|
    ensures HasNoPrevious(ShiftAll(s)[m]) <==> s[m].isin !in IsinsOf(s[..m])
  {
    if s[m].isin in IsinsOf(s[..m]) {
      var r :| r in s[..m] && r.isin == s[m].isin;
      var k :| 0 <= k < m && s[k] == r;
      SameIsinJustBefore(s, k, m);
    }
    if m > 0 && s[m - 1].isin == s[m].isin {
      assert s[m - 1] in s[..m];
    }
  }

  /** The rows without a rank delta are exactly one per security: their
      number is the number of distinct ISINs. */
  lemma AbsentDeltasCountSecurities(ranked: seq<RankedRow>)
    ensures |Filter(CalculateRankDelta(ranked), HasNoPrevious)| == |IsinsOf(ranked)|
  {
    var s := SortRanked(ranked);
    NoPreviousCountsIsinsBelow(s, |s|);
    assert s[..|s|] == s;
    assert ShiftAll(s)[..|s|] == ShiftAll(s);
    forall x ensures x in IsinsOf(s) <==> x in IsinsOf(ranked) {
      if x in IsinsOf(s) {
        var r :| r in s && r.isin == x;
        assert r in multiset(ranked);
      }
      if x in IsinsOf(ranked) {
        var r :| r in ranked && r.isin == x;
        assert r in multiset(s);
      }
    }
    assert IsinsOf(s) == IsinsOf(ranked);
  }

  /** `get_latest_rank_delta`: the rows of the latest month sorted by
      ascending rank, with that month's date; NaT (None) and no rows on an
      empty frame. */
  function GetLatestRankDelta(deltas: seq<DeltaRow>): (latest: (seq<DeltaRow>, Option<Date>))
    ensures latest.1.None? <==> |deltas| == 0
    ensures latest.1.None? ==> latest.0 == []
    ensures latest.1.Some? ==>
      (forall r :: r in deltas ==> Ordinal(r.date) <= Ordinal(latest.1.value)) &&
      (exists r :: r in deltas && r.date == latest.1.value)
    ensures latest.1.Some? ==> forall r :: r in latest.0 <==> r in deltas && r.date == latest.1.value
    ensures latest.1.Some? ==> multiset(latest.0) == multiset(Filter(deltas, OnDate(DeltaDate, latest.1.value)))
    ensures forall i, j :: 0 <= i < j < |latest.0| ==> latest.0[i].rank <= latest.0[j].rank
  {
    DeltaRankLeIsTotalPreorder();
    LatestView(deltas, DeltaDate, DeltaRankLe)
  }

  // Consistent movers.

  predicate Present(r: DeltaRow) {
    r.rankDelta.Some?
  }

  predicate Improved(r: DeltaRow) {
    r.rankDelta.Some? && r.rankDelta.value < 0
  }

  predicate Declined(r: DeltaRow) {
    r.rankDelta.Some? && r.rankDelta.value > 0
  }

  /** The mask "ISIN is `x` and `q` holds". */
  function OfIsin(x: string, q: DeltaRow -> bool): DeltaRow -> bool {
    (r: DeltaRow) => r.isin == x && q(r)
  }

  /** At least 3 of the rows carry a rank delta, and at least 75% of those
      satisfy `q`: the test `identify_consistent_movers` makes on one group. */
  predicate Qualifies(rows: seq<DeltaRow>, q: DeltaRow -> bool) {
    var n := |Filter(rows, Present)|;
    n >= 3 && (|Filter(rows, q)| as real) / (n as real) >= 0.75
  }

  /** Security `x` passes the test for `q` over its rows of the frame. */
  predicate IsConsistentMover(deltas: seq<DeltaRow>, x: string, q: DeltaRow -> bool) {
    var n := |Filter(deltas, OfIsin(x, Present))|;
    n >= 3 && (|Filter(deltas, OfIsin(x, q))| as real) / (n as real) >= 0.75
  }

  /** Security `x` has at least 3 rank deltas and at least 75% of them are
      negative. */
  predicate IsConsistentImprover(deltas: seq<DeltaRow>, x: string) {
    IsConsistentMover(deltas, x, Improved)
  }

  /** Security `x` has at least 3 rank deltas and at least 75% of them are
      positive. */
  predicate IsConsistentDecliner(deltas: seq<DeltaRow>, x: string) {
    IsConsistentMover(deltas, x, Declined)
  }

  /** No security is both a consistent improver and a consistent decliner. */
  lemma MoversAreExclusive(deltas: seq<DeltaRow>, x: string)
    ensures !(IsConsistentImprover(deltas, x) && IsConsistentDecliner(deltas, x))
  {
    var n := |Filter(deltas, OfIsin(x, Present))|;
    var up := |Filter(deltas, OfIsin(x, Improved))|;
    var down := |Filter(deltas, OfIsin(x, Declined))|;
    forall r ensures
      (OfIsin(x, Improved)(r) ==> OfIsin(x, Present)(r)) && (OfIsin(x, Declined)(r) ==> OfIsin(x, Present)(r)) &&
      !(OfIsin(x, Improved)(r) && OfIsin(x, Declined)(r))
    {
      assert OfIsin(x, Improved)(r) == (r.isin == x && Improved(r));
      assert OfIsin(x, Declined)(r) == (r.isin == x && Declined(r));
      assert OfIsin(x, Present)(r) == (r.isin == x && Present(r));
    }
    FilterExclusiveSum(deltas, OfIsin(x, Improved), OfIsin(x, Declined), OfIsin(x, Present));
    if n > 0 {
      SharesOfDisjointCounts(up, down, n);
    }
  }

  /** Two shares of disjoint counts cannot both reach 75%. */
  lemma SharesOfDisjointCounts(up: nat, down: nat, n: nat)
    requires 0 < n && up + down <= n
    ensures !((up as real) / (n as real) >= 0.75 && (down as real) / (n as real) >= 0.75)
  {
    if (up as real) / (n as real) >= 0.75 && (down as real) / (n as real) >= 0.75 {
      ShareAtLeast(up as real, n as real);
      ShareAtLeast(down as real, n as real);
    }
  }

  lemma ShareAtLeast(a: real, b: real)
    requires b > 0.0 && a / b >= 0.75
    ensures a >= 0.75 * b
  {
    var q := a / b;
    assert a == q * b;
    assert q * b >= 0.75 * b;
  }

  predicate DeltaIsinLe(a: DeltaRow, b: DeltaRow) {
    StrLe(a.isin, b.isin)
  }

  lemma DeltaIsinLeIsTotalPreorder()
    ensures TotalPreorder(DeltaIsinLe)
  {
    forall a, b ensures DeltaIsinLe(a, b) || DeltaIsinLe(b, a) {
      StrLeTotal(a.isin, b.isin);
    }
    forall a, b, c | DeltaIsinLe(a, b) && DeltaIsinLe(b, c) ensures DeltaIsinLe(a, c) {
      StrLeTransitive(a.isin, b.isin, c.isin);
    }
  }

  /** The groups of `delta_df.groupby('ISIN')`: ISINs ascending, rows in
      their frame order within a group. */
  function IsinGroups(deltas: seq<DeltaRow>): (gs: seq<seq<DeltaRow>>)
    ensures multiset(Flatten(gs)) == multiset(deltas)
    ensures forall j :: 0 <= j < |gs| ==> |gs[j]| > 0
    ensures KeySorted(Flatten(gs), DeltaIsin)
    ensures KeysAscend(gs, DeltaIsin)
  {
    DeltaIsinLeIsTotalPreorder();
    var sorted := SortBy(deltas, DeltaIsinLe);
    assert KeySorted(sorted, DeltaIsin) by {
      forall i, j | 0 <= i < j < |sorted| ensures StrLe(DeltaIsin(sorted[i]), DeltaIsin(sorted[j])) {
        assert DeltaIsinLe(sorted[i], sorted[j]);
      }
    }
    GroupKeysIncrease(sorted, DeltaIsin);
    GroupRuns(sorted, DeltaIsin)
  }

  /** Counting within one group counts that security over the whole frame. */
  lemma GroupCount(deltas: seq<DeltaRow>, j: int, q: DeltaRow -> bool)
    requires 0 <= j < |IsinGroups(deltas)|
    ensures var g := IsinGroups(deltas)[j];
      |Filter(g, q)| == |Filter(deltas, OfIsin(g[0].isin, q))|
  {
    var gs: seq<seq<DeltaRow>> := IsinGroups(deltas);
    var sorted := Flatten(gs);
    assert gs == GroupRuns(sorted, DeltaIsin);
    var g := gs[j];
    var x := g[0].isin;
    forall r | r in g ensures q(r) == OfIsin(x, q)(r) {
    }
    FilterCongruent(g, q, OfIsin(x, q));
    OtherGroupsOtherKeys(sorted, DeltaIsin, j);
    forall k, r | 0 <= k < |gs| && k != j && r in gs[k] ensures !OfIsin(x, q)(r) {
    }
    FilterFlattenSingle(gs, j, OfIsin(x, q));
    FilterPerm(sorted, deltas, OfIsin(x, q));
  }

  /** The test made on one group decides the verdict for its security. */
  lemma GroupVerdict(deltas: seq<DeltaRow>, j: int, q: DeltaRow -> bool)
    requires 0 <= j < |IsinGroups(deltas)|
    ensures var g := IsinGroups(deltas)[j];
      IsConsistentMover(deltas, g[0].isin, q) <==> Qualifies(g, q)
  {
    GroupCount(deltas, j, Present);
    GroupCount(deltas, j, q);
  }

  /** A security with any rank delta has a group. */
  lemma CountedSecurityHasGroup(deltas: seq<DeltaRow>, x: string)
    requires |Filter(deltas, OfIsin(x, Present))| > 0
    ensures exists j :: 0 <= j < |IsinGroups(deltas)| && IsinGroups(deltas)[j][0].isin == x
  {
    var gs: seq<seq<DeltaRow>> := IsinGroups(deltas);
    var sorted := Flatten(gs);
    assert gs == GroupRuns(sorted, DeltaIsin);
    var r := Filter(deltas, OfIsin(x, Present))[0];
    FilterMember(deltas, OfIsin(x, Present), r);
    assert r in multiset(sorted);
    FlattenMember(gs, r);
    var j :| 0 <= j < |gs| && r in gs[j];
    assert gs[j][0].isin == r.isin;
  }

  /** The ISINs of the groups among the first `n` that pass the test for
      `q`, in group order. */
  function Listed(groups: seq<seq<DeltaRow>>, n: nat, q: DeltaRow -> bool): seq<string>
    requires n <= |groups|
    requires forall j :: 0 <= j < |groups| ==> |groups[j]| > 0
  {
    if n == 0 then []
    else Listed(groups, n - 1, q) + (if Qualifies(groups[n - 1], q) then [groups[n - 1][0].isin] else [])
  }

  lemma ListedStep(groups: seq<seq<DeltaRow>>, g: nat, q: DeltaRow -> bool)
    requires g < |groups|
    requires forall j :: 0 <= j < |groups| ==> |groups[j]| > 0
    ensures Listed(groups, g + 1, q) == Listed(groups, g, q) + (if Qualifies(groups[g], q) then [groups[g][0].isin] else [])
  {
  }

  /** The ISINs are in strictly ascending order (so without repeats). */
  predicate StrictlyAscending(xs: seq<string>) {
    forall i, j :: 0 <= i < j < |xs| ==> StrLt(xs[i], xs[j])
  }

  /** The securities listed from the first `n` groups are the keys of those
      groups that pass the test. */
  lemma {:induction false} ListedMembers(gs: seq<seq<DeltaRow>>, n: nat, q: DeltaRow -> bool)
    requires forall j :: 0 <= j < |gs| ==> |gs[j]| > 0
    requires n <= |gs|
    ensures forall x :: x in Listed(gs, n, q) <==> exists j :: 0 <= j < n && gs[j][0].isin == x && Qualifies(gs[j], q)
  {
    if n > 0 {
      var m := n - 1;
      ListedMembers(gs, m, q);
      var tail := if Qualifies(gs[m], q) then [gs[m][0].isin] else [];
      assert Listed(gs, n, q) == Listed(gs, m, q) + tail;
      forall x ensures x in Listed(gs, n, q) <==> x in Listed(gs, m, q) || x in tail {
      }
    }
  }

  /** Appending a key above all listed ones keeps the list ascending. */
  lemma AppendAbove(xs: seq<string>, key: string)
    requires StrictlyAscending(xs)
    requires forall x :: x in xs ==> StrLt(x, key)
    ensures StrictlyAscending(xs + [key])
  {
    var ys := xs + [key];
    forall i, j | 0 <= i < j < |ys| ensures StrLt(ys[i], ys[j]) {
      assert ys[i] == xs[i];
      if j < |xs| {
        assert ys[j] == xs[j];
      }
    }
  }

  /** Over groups with ascending keys, the listed securities ascend and come
      before the keys of the groups not yet visited. */
  lemma {:induction false} ListedAscending(gs: seq<seq<DeltaRow>>, n: nat, q: DeltaRow -> bool)
    requires forall j :: 0 <= j < |gs| ==> |gs[j]| > 0
    requires KeysAscend(gs, DeltaIsin)
    requires n <= |gs|
    ensures StrictlyAscending(Listed(gs, n, q))
    ensures forall x, j :: x in Listed(gs, n, q) && n <= j < |gs| ==> StrLt(x, gs[j][0].isin)
  {
    if n > 0 {
      var m := n - 1;
      ListedAscending(gs, m, q);
      var key := gs[m][0].isin;
      var before := Listed(gs, m, q);
      forall j | n <= j < |gs| ensures StrLt(key, gs[j][0].isin) {
        assert DeltaIsin(gs[m][0]) == key && DeltaIsin(gs[j][0]) == gs[j][0].isin;
      }
      if Qualifies(gs[m], q) {
        assert Listed(gs, n, q) == before + [key];
        AppendAbove(before, key);
      } else {
        assert Listed(gs, n, q) == before;
      }
    }
  }

  /** The securities `identify_consistent_movers` lists for `q` are exactly
      the consistent movers, in ascending ISIN order. */
  lemma ListedAreConsistentMovers(deltas: seq<DeltaRow>, q: DeltaRow -> bool)
    ensures var gs := IsinGroups(deltas);
      var listed := Listed(gs, |gs|, q);
      (forall x :: x in listed <==> IsConsistentMover(deltas, x, q)) && StrictlyAscending(listed)
  {
    var gs: seq<seq<DeltaRow>> := IsinGroups(deltas);
    ListedMembers(gs, |gs|, q);
    ListedAscending(gs, |gs|, q);
    forall j | 0 <= j < |gs| ensures IsConsistentMover(deltas, gs[j][0].isin, q) <==> Qualifies(gs[j], q) {
      GroupVerdict(deltas, j, q);
    }
    forall x | IsConsistentMover(deltas, x, q) ensures exists j :: 0 <= j < |gs| && gs[j][0].isin == x {
      CountedSecurityHasGroup(deltas, x);
    }
  }

  /** `identify_consistent_movers`: walks the ISIN groups in order and lists
      each security with at least 3 rank deltas of which at least 75% are
      negative (improvers) or positive (decliners). */
  method IdentifyConsistentMovers(deltas: seq<DeltaRow>) returns (improvers: seq<string>, decliners: seq<string>)
    ensures forall x :: x in improvers <==> IsConsistentImprover(deltas, x)
    ensures forall x :: x in decliners <==> IsConsistentDecliner(deltas, x)
    ensures StrictlyAscending(improvers) && StrictlyAscending(decliners)
  {
    var groups: seq<seq<DeltaRow>> := IsinGroups(deltas);
    improvers, decliners := [], [];
    for g := 0 to |groups|
      invariant improvers == Listed(groups, g, Improved)
      invariant decliners == Listed(groups, g, Declined)
    {
      var group: seq<DeltaRow> := groups[g];
      ListedStep(groups, g, Improved);
      ListedStep(groups, g, Declined);
      var present := Filter(group, Present);
      if |present| < 3 {
        continue;
      }
      var improvementShare := (|Filter(group, Improved)| as real) / (|present| as real);
      var declineShare := (|Filter(group, Declined)| as real) / (|present| as real);
      assert Qualifies(group, Improved) <==> improvementShare >= 0.75;
      assert Qualifies(group, Declined) <==> declineShare >= 0.75;
      if improvementShare >= 0.75 {
        improvers := improvers + [group[0].isin];
      }
      if declineShare >= 0.75 {
        decliners := decliners + [group[0].isin];
      }
    }
    ListedAreConsistentMovers(deltas, Improved);
    ListedAreConsistentMovers(deltas, Declined);
  }
}
