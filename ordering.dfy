/**
 * Orders and the sort the frames are put through: Python's string order for
 * ISINs, and a stable sort of a sequence under a total preorder.
 */
module Ordering {
  import opened Seqs

  /** Python's `<=` on strings: lexicographic by code point. */
  predicate StrLe(a: string, b: string)
    decreases |a|
  {
    |a| == 0 || (|b| > 0 && (a[0] < b[0] || (a[0] == b[0] && StrLe(a[1..], b[1..]))))
  }

  /** Python's `<` on strings. */
  predicate StrLt(a: string, b: string) {
    StrLe(a, b) && a != b
  }

  lemma {:induction false} StrLeReflexive(a: string)
    ensures StrLe(a, a)
    decreases |a|
  {
    if |a| > 0 {
      StrLeReflexive(a[1..]);
    }
  }

  lemma {:induction false} StrLeTotal(a: string, b: string)
    ensures StrLe(a, b) || StrLe(b, a)
    decreases |a|
  {
    if |a| > 0 && |b| > 0 && a[0] == b[0] {
      StrLeTotal(a[1..], b[1..]);
    }
  }

  lemma {:induction false} StrLeTransitive(a: string, b: string, c: string)
    requires StrLe(a, b) && StrLe(b, c)
    ensures StrLe(a, c)
    decreases |a|
  {
    if |a| > 0 && a[0] == b[0] && b[0] == c[0] {
      StrLeTransitive(a[1..], b[1..], c[1..]);
    }
  }

  lemma {:induction false} StrLeAntisymmetric(a: string, b: string)
    requires StrLe(a, b) && StrLe(b, a)
    ensures a == b
    decreases |a|
  {
    if |a| > 0 {
      StrLeAntisymmetric(a[1..], b[1..]);
      assert a == [a[0]] + a[1..];
      assert b == [b[0]] + b[1..];
    }
  }

  lemma StrLtLeTransitive(a: string, b: string, c: string)
    requires StrLt(a, b) && StrLe(b, c)
    ensures StrLt(a, c)
  {
    StrLeTransitive(a, b, c);
    if a == c {
      StrLeAntisymmetric(a, b);
    }
  }

  /** `le` is total and transitive: a sort key that may tie. */
  ghost predicate TotalPreorder<T(!new)>(le: (T, T) -> bool) {
    && (forall a, b :: le(a, b) || le(b, a))
    && (forall a, b, c :: le(a, b) && le(b, c) ==> le(a, c))
  }

  predicate SortedBy<T>(s: seq<T>, le: (T, T) -> bool) {
    forall i, j :: 0 <= i < j < |s| ==> le(s[i], s[j])
  }

  /** Inserts `x` into sorted `s` after every element not above it. */
  function Insert<T(!new)>(s: seq<T>, x: T, le: (T, T) -> bool): (r: seq<T>)
    requires TotalPreorder(le) && SortedBy(s, le)
    ensures multiset(r) == multiset(s) + multiset{x}
    ensures SortedBy(r, le)
    decreases |s|
  {
    if |s| == 0 then [x]
    else if le(s[|s| - 1], x) then
      AppendAbove(s, x, le);
      s + [x]
    else
      var last := s[|s| - 1];
      var front := s[..|s| - 1];
      assert s == front + [last];
      SortedSlice(s, le, 0, |s| - 1);
      var r := Insert(front, x, le);
      BelowLast(s, x, r, le);
      AppendAbove(r, last, le);
      r + [last]
  }

  /** Appending an element no smaller than every element keeps the order. */
  lemma AppendAbove<T>(s: seq<T>, x: T, le: (T, T) -> bool)
    requires SortedBy(s, le) && forall i :: 0 <= i < |s| ==> le(s[i], x)
    ensures SortedBy(s + [x], le)
  {
  }

  /** When `x` goes before the last element of sorted `s`, the other
      elements and `x`, in any order `r`, are at most that last element. */
  lemma BelowLast<T(!new)>(s: seq<T>, x: T, r: seq<T>, le: (T, T) -> bool)
    requires TotalPreorder(le) && SortedBy(s, le) && |s| > 0 && !le(s[|s| - 1], x)
    requires multiset(r) == multiset(s[..|s| - 1]) + multiset{x}
    ensures forall i :: 0 <= i < |r| ==> le(r[i], s[|s| - 1])
  {
    var front := s[..|s| - 1];
    forall i | 0 <= i < |r| ensures le(r[i], s[|s| - 1]) {
      var y := r[i];
      assert y in multiset(r);
      if y != x {
        assert y in multiset(front);
        var k :| 0 <= k < |front| && front[k] == y;
        assert s[k] == y;
      }
    }
  }

  /** An insertion sort of `s` under `le`; `SortKeepsTieOrder` proves it
      stable. */
  function SortBy<T(!new)>(s: seq<T>, le: (T, T) -> bool): (r: seq<T>)
    requires TotalPreorder(le)
    ensures multiset(r) == multiset(s)
    ensures SortedBy(r, le)
    decreases |s|
  {
    if |s| == 0 then []
    else
      assert s == s[..|s| - 1] + [s[|s| - 1]];
      Insert(SortBy(s[..|s| - 1], le), s[|s| - 1], le)
  }

  /** The elements that tie with `y` under `le`. */
  function Ties<T>(le: (T, T) -> bool, y: T): T -> bool {
    z => le(y, z) && le(z, y)
  }

  /** `p` holds only of elements that tie with each other under `le`. */
  ghost predicate TieClass<T(!new)>(le: (T, T) -> bool, p: T -> bool) {
    forall a, b :: p(a) && p(b) ==> le(a, b)
  }

  /** Inserting `x` puts it after every element of its tie class. */
  lemma {:induction false} InsertKeepsTieOrder<T(!new)>(s: seq<T>, x: T, le: (T, T) -> bool, p: T -> bool)
    requires TotalPreorder(le) && SortedBy(s, le) && TieClass(le, p)
    ensures Filter(Insert(s, x, le), p) == Filter(s, p) + (if p(x) then [x] else [])
    decreases |s|
  {
    if |s| == 0 || le(s[|s| - 1], x) {
      InsertAbove(s, x, le);
      FilterSnoc(s, x, p);
    } else {
      var last := s[|s| - 1];
      var front := s[..|s| - 1];
      InsertBelow(s, x, le);
      InsertKeepsTieOrder(front, x, le, p);
      FilterSnoc(Insert(front, x, le), last, p);
      assert Filter(s, p) == Filter(front, p) + (if p(last) then [last] else []);
      if p(x) {
        assert !p(last);
        assert Filter(Insert(front, x, le), p) + [] == Filter(Insert(front, x, le), p);
        assert Filter(front, p) + [] == Filter(front, p);
      } else {
        assert Filter(front, p) + [] == Filter(front, p);
      }
    }
  }

  /** Inserting at or above the last element of `s` appends. */
  lemma InsertAbove<T(!new)>(s: seq<T>, x: T, le: (T, T) -> bool)
    requires TotalPreorder(le) && SortedBy(s, le) && (|s| == 0 || le(s[|s| - 1], x))
    ensures Insert(s, x, le) == s + [x]
  {
    if |s| == 0 {
      assert s + [x] == [x];
    }
  }

  /** Inserting below the last element of `s` inserts into the rest of `s`. */
  lemma InsertBelow<T(!new)>(s: seq<T>, x: T, le: (T, T) -> bool)
    requires TotalPreorder(le) && SortedBy(s, le) && |s| > 0 && !le(s[|s| - 1], x)
    ensures SortedBy(s[..|s| - 1], le)
    ensures Insert(s, x, le) == Insert(s[..|s| - 1], x, le) + [s[|s| - 1]]
  {
    SortedSlice(s, le, 0, |s| - 1);
  }

  /** The sort is stable: the elements of each class of ties keep their
      input order. */
  lemma {:induction false} SortKeepsTieOrder<T(!new)>(s: seq<T>, le: (T, T) -> bool, y: T)
    requires TotalPreorder(le)
    ensures Filter(SortBy(s, le), Ties(le, y)) == Filter(s, Ties(le, y))
    decreases |s|
  {
    if |s| > 0 {
      var front := s[..|s| - 1];
      SortKeepsTieOrder(front, le, y);
      InsertKeepsTieOrder(SortBy(front, le), s[|s| - 1], le, Ties(le, y));
    }
  }

  lemma SortedSlice<T>(s: seq<T>, le: (T, T) -> bool, lo: int, hi: int)
    requires SortedBy(s, le) && 0 <= lo <= hi <= |s|
    ensures SortedBy(s[lo..hi], le)
  {
  }
}
