/**
 * Row selections, column projections and concatenations of frames,
 * as operations on sequences, with the facts about them that do not depend
 * on the order of the rows.
 */
module Seqs {

  /** The rows of `s` that satisfy `p`, in order: a boolean mask. */
  function Filter<T>(s: seq<T>, p: T -> bool): (r: seq<T>)
    ensures |r| <= |s|
    decreases |s|
  {
    if |s| == 0 then []
    else Filter(s[..|s| - 1], p) + (if p(s[|s| - 1]) then [s[|s| - 1]] else [])
  }

  /** Selecting from `a` with one more row appended. */
  lemma FilterSnoc<T>(a: seq<T>, z: T, p: T -> bool)
    ensures Filter(a + [z], p) == Filter(a, p) + (if p(z) then [z] else [])
  {
    assert (a + [z])[..|a|] == a;
  }

  /** Selecting from one more row of `s` adds that row when it qualifies. */
  lemma FilterPrefixStep<T>(s: seq<T>, p: T -> bool, n: int)
    requires 0 < n <= |s|
    ensures Filter(s[..n], p) == Filter(s[..n - 1], p) + (if p(s[n - 1]) then [s[n - 1]] else [])
  {
    assert s[..n][..n - 1] == s[..n - 1];
  }

  /** Adding an element grows a set by one exactly when it is new. */
  lemma CardAddOne<T>(a: set<T>, x: T)
    ensures |a + {x}| == |a| + (if x in a then 0 else 1)
  {
    if x in a {
      assert a + {x} == a;
    }
  }

  /** A column computed row by row. */
  function MapSeq<T, U>(s: seq<T>, f: T -> U): (r: seq<U>)
    ensures |r| == |s|
    ensures forall i :: 0 <= i < |s| ==> r[i] == f(s[i])
  {
    seq(|s|, i requires 0 <= i < |s| => f(s[i]))
  }

  /** Frames stacked one after another. */
  function Flatten<T>(gs: seq<seq<T>>): seq<T>
    decreases |gs|
  {
    if |gs| == 0 then [] else Flatten(gs[..|gs| - 1]) + gs[|gs| - 1]
  }

  lemma {:induction false} FilterConcat<T>(a: seq<T>, b: seq<T>, p: T -> bool)
    ensures Filter(a + b, p) == Filter(a, p) + Filter(b, p)
    decreases |b|
  {
    if |b| == 0 {
      assert a + b == a;
    } else {
      var b' := b[..|b| - 1];
      assert (a + b)[..|a + b| - 1] == a + b';
      FilterConcat(a, b', p);
    }
  }

  /** A row occurs in the selection as often as in the frame if it satisfies
      the mask, and not at all otherwise. */
  lemma {:induction false} FilterMultiplicity<T>(s: seq<T>, p: T -> bool, x: T)
    ensures multiset(Filter(s, p))[x] == if p(x) then multiset(s)[x] else 0
    decreases |s|
  {
    if |s| > 0 {
      FilterMultiplicity(s[..|s| - 1], p, x);
      assert s == s[..|s| - 1] + [s[|s| - 1]];
    }
  }

  lemma FilterMember<T>(s: seq<T>, p: T -> bool, x: T)
    ensures x in Filter(s, p) <==> x in s && p(x)
  {
    FilterMultiplicity(s, p, x);
    assert x in Filter(s, p) <==> x in multiset(Filter(s, p));
    assert x in s <==> x in multiset(s);
  }

  /** Selecting from two orderings of the same rows selects the same rows. */
  lemma FilterPerm<T>(a: seq<T>, b: seq<T>, p: T -> bool)
    requires multiset(a) == multiset(b)
    ensures multiset(Filter(a, p)) == multiset(Filter(b, p))
    ensures |Filter(a, p)| == |Filter(b, p)|
  {
    var fa, fb := Filter(a, p), Filter(b, p);
    forall x ensures multiset(fa)[x] == multiset(fb)[x] {
      FilterMultiplicity(a, p, x);
      FilterMultiplicity(b, p, x);
    }
    SameMultiplicities(fa, fb);
    assert |multiset(fa)| == |fa|;
    assert |multiset(fb)| == |fb|;
  }

  lemma SameMultiplicities<T>(a: seq<T>, b: seq<T>)
    requires forall x :: multiset(a)[x] == multiset(b)[x]
    ensures multiset(a) == multiset(b)
  {
  }

  /** Two masks that agree on every row of `s` select the same rows. */
  lemma {:induction false} FilterCongruent<T>(s: seq<T>, p: T -> bool, q: T -> bool)
    requires forall x :: x in s ==> p(x) == q(x)
    ensures Filter(s, p) == Filter(s, q)
    decreases |s|
  {
    if |s| > 0 {
      FilterCongruent(s[..|s| - 1], p, q);
    }
  }

  lemma {:induction false} FilterNone<T>(s: seq<T>, p: T -> bool)
    requires forall x :: x in s ==> !p(x)
    ensures Filter(s, p) == []
    decreases |s|
  {
    if |s| > 0 {
      FilterNone(s[..|s| - 1], p);
    }
  }

  lemma MapConcat<T, U>(a: seq<T>, b: seq<T>, f: T -> U)
    ensures MapSeq(a + b, f) == MapSeq(a, f) + MapSeq(b, f)
  {
  }

  /** Two columns that agree piece by piece agree on the concatenation. */
  lemma MapBoth<T, U, V>(a: seq<T>, b: seq<T>, c: seq<U>, d: seq<U>, f: T -> V, g: U -> V)
    requires MapSeq(a, f) == MapSeq(c, g) && MapSeq(b, f) == MapSeq(d, g)
    ensures MapSeq(a + b, f) == MapSeq(c + d, g)
  {
    MapConcat(a, b, f);
    MapConcat(c, d, g);
  }

  /** Projecting two orderings of the same rows gives the same values. */
  lemma {:induction false} MapPerm<T, U>(a: seq<T>, b: seq<T>, f: T -> U)
    requires multiset(a) == multiset(b)
    ensures multiset(MapSeq(a, f)) == multiset(MapSeq(b, f))
    decreases |a|
  {
    if |a| == 0 {
      assert |b| == |multiset(b)| == 0;
    } else {
      var x := a[|a| - 1];
      var a' := a[..|a| - 1];
      assert a == a' + [x];
      assert x in multiset(b);
      var k :| 0 <= k < |b| && b[k] == x;
      var b' := b[..k] + b[k + 1..];
      assert b == b[..k] + [x] + b[k + 1..];
      assert multiset(b) == multiset(b[..k]) + multiset{x} + multiset(b[k + 1..]);
      assert multiset(a) == multiset(a') + multiset{x};
      forall z ensures multiset(a')[z] == multiset(b')[z] {
        assert (multiset(a') + multiset{x})[z] == (multiset(b') + multiset{x})[z];
      }
      assert multiset(a') == multiset(b');
      MapPerm(a', b', f);
      MapConcat(a', [x], f);
      MapConcat(b[..k] + [x], b[k + 1..], f);
      MapConcat(b[..k], [x], f);
      MapConcat(b[..k], b[k + 1..], f);
    }
  }

  lemma {:induction false} FlattenPrepend<T>(g: seq<T>, gs: seq<seq<T>>)
    ensures Flatten([g] + gs) == g + Flatten(gs)
    decreases |gs|
  {
    if |gs| > 0 {
      var front := gs[..|gs| - 1];
      assert ([g] + gs)[..|gs|] == [g] + front;
      FlattenPrepend(g, front);
    } else {
      assert Flatten([g]) == Flatten([g][..0]) + g;
    }
  }

  lemma {:induction false} FlattenMember<T>(gs: seq<seq<T>>, x: T)
    ensures x in Flatten(gs) <==> exists j :: 0 <= j < |gs| && x in gs[j]
    decreases |gs|
  {
    if |gs| > 0 {
      var front := gs[..|gs| - 1];
      FlattenMember(front, x);
      if x in Flatten(gs) {
        if x !in gs[|gs| - 1] {
          assert x in Flatten(front);
          var j :| 0 <= j < |front| && x in front[j];
          assert x in gs[j];
        }
      } else {
        forall j | 0 <= j < |gs| ensures x !in gs[j] {
          if j < |gs| - 1 {
            assert gs[j] == front[j];
          }
        }
      }
    }
  }

  /** If only group `i` holds rows satisfying `p`, selecting from the stacked
      groups selects from group `i`. */
  lemma {:induction false} FilterFlattenSingle<T>(gs: seq<seq<T>>, i: int, p: T -> bool)
    requires 0 <= i < |gs|
    requires forall j, x :: 0 <= j < |gs| && j != i && x in gs[j] ==> !p(x)
    ensures Filter(Flatten(gs), p) == Filter(gs[i], p)
    decreases |gs|
  {
    var n := |gs| - 1;
    var front := gs[..n];
    FilterConcat(Flatten(front), gs[n], p);
    if i == n {
      FilterNoneFlatten(front, p);
    } else {
      FilterFlattenSingle(front, i, p);
      FilterNone(gs[n], p);
    }
  }

  lemma {:induction false} FilterNoneFlatten<T>(gs: seq<seq<T>>, p: T -> bool)
    requires forall j, x :: 0 <= j < |gs| && x in gs[j] ==> !p(x)
    ensures Filter(Flatten(gs), p) == []
    decreases |gs|
  {
    if |gs| > 0 {
      var n := |gs| - 1;
      FilterConcat(Flatten(gs[..n]), gs[n], p);
      FilterNoneFlatten(gs[..n], p);
      FilterNone(gs[n], p);
    }
  }

  /** Selecting after computing a column selects the same rows as a mask
      that reads the inputs of that column. */
  lemma {:induction false} FilterMap<T, U>(s: seq<T>, f: T -> U, q: U -> bool, p: T -> bool)
    requires forall x :: q(f(x)) == p(x)
    ensures Filter(MapSeq(s, f), q) == MapSeq(Filter(s, p), f)
    decreases |s|
  {
    if |s| > 0 {
      var n := |s| - 1;
      var m := MapSeq(s, f);
      assert m[..n] == MapSeq(s[..n], f);
      FilterMap(s[..n], f, q, p);
      MapConcat(Filter(s[..n], p), if p(s[n]) then [s[n]] else [], f);
    }
  }

  /** Two positions satisfying the mask give a selection of at least two rows. */
  lemma FilterTwoPositions<T>(s: seq<T>, p: T -> bool, i: int, j: int)
    requires 0 <= i < j < |s|
    ensures p(s[i]) && p(s[j]) ==> |Filter(s, p)| >= 2
  {
    if p(s[i]) && p(s[j]) {
      assert s == s[..j] + s[j..];
      FilterConcat(s[..j], s[j..], p);
      FilterMember(s[..j], p, s[i]);
      FilterMember(s[j..], p, s[j]);
    }
  }

  /** Two exclusive masks inside a third select no more rows than it does. */
  lemma {:induction false} FilterExclusiveSum<T>(s: seq<T>, p: T -> bool, q: T -> bool, r: T -> bool)
    requires forall x :: (p(x) ==> r(x)) && (q(x) ==> r(x)) && !(p(x) && q(x))
    ensures |Filter(s, p)| + |Filter(s, q)| <= |Filter(s, r)|
    decreases |s|
  {
    if |s| > 0 {
      FilterExclusiveSum(s[..|s| - 1], p, q, r);
    }
  }
}
