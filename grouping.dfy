/**
 * `groupby` on a string column of a frame sorted by that column: the frame
 * split into maximal runs of rows sharing a key, visited in key order.
 */
module Grouping {
  import opened Ordering
  import opened Seqs

  /** Number of rows at the front of `s` whose key is `k`. */
  function RunLength<T>(s: seq<T>, key: T -> string, k: string): (n: nat)
    ensures n <= |s|
    ensures forall i :: 0 <= i < n ==> key(s[i]) == k
    ensures n < |s| ==> key(s[n]) != k
    decreases |s|
  {
    if |s| == 0 || key(s[0]) != k then 0 else 1 + RunLength(s[1..], key, k)
  }

  /** The rows are in ascending key order. */
  predicate KeySorted<T>(s: seq<T>, key: T -> string) {
    forall i, j :: 0 <= i < j < |s| ==> StrLe(key(s[i]), key(s[j]))
  }

  /** Maximal runs of equal key, front to back: stacked again they give `s`,
      and every run is non-empty and of one key. */
  function GroupRuns<T>(s: seq<T>, key: T -> string): (gs: seq<seq<T>>)
    ensures Flatten(gs) == s
    ensures forall j :: 0 <= j < |gs| ==> |gs[j]| > 0
    ensures forall j, x :: 0 <= j < |gs| && x in gs[j] ==> key(x) == key(gs[j][0])
    decreases |s|
  {
    if |s| == 0 then []
    else
      var n := RunLength(s, key, key(s[0]));
      var rest := GroupRuns(s[n..], key);
      FlattenPrepend(s[..n], rest);
      assert s == s[..n] + s[n..];
      var gs := [s[..n]] + rest;
      assert forall j :: 1 <= j < |gs| ==> gs[j] == rest[j - 1];
      gs
  }

  /** The groups' keys strictly ascend. */
  predicate KeysAscend<T>(gs: seq<seq<T>>, key: T -> string) {
    forall i, j :: 0 <= i < j < |gs| && |gs[i]| > 0 && |gs[j]| > 0 ==> StrLt(key(gs[i][0]), key(gs[j][0]))
  }

  /** Over a key-sorted frame the groups come in strictly ascending key
      order, so no key is split over two groups. */
  lemma {:induction false} GroupKeysIncrease<T>(s: seq<T>, key: T -> string)
    requires KeySorted(s, key)
    ensures KeysAscend(GroupRuns(s, key), key)
    decreases |s|
  {
    if |s| > 0 {
      var gs := GroupRuns(s, key);
      var n := RunLength(s, key, key(s[0]));
      var rest := GroupRuns(s[n..], key);
      assert gs == [s[..n]] + rest;
      assert KeySorted(s[n..], key);
      GroupKeysIncrease(s[n..], key);
      forall i, j | 0 <= i < j < |gs| && |gs[i]| > 0 && |gs[j]| > 0 ensures StrLt(key(gs[i][0]), key(gs[j][0])) {
        if i > 0 {
          assert gs[i] == rest[i - 1] && gs[j] == rest[j - 1];
          assert 0 <= i - 1 < j - 1 < |rest|;
          assert KeysAscend(rest, key);
        } else {
          assert gs[0] == s[..n] && gs[0][0] == s[0];
          var y := gs[j][0];
          assert y in rest[j - 1];
          FlattenMember(rest, y);
          var m :| 0 <= m < |s[n..]| && s[n..][m] == y;
          assert s[n + m] == y && 0 < n;
          assert StrLe(key(s[0]), key(s[n]));
          assert StrLe(key(s[n]), key(y)) by {
            if m > 0 {
              assert StrLe(key(s[n]), key(s[n + m]));
            } else {
              StrLeReflexive(key(y));
            }
          }
          StrLtLeTransitive(key(s[0]), key(s[n]), key(y));
        }
      }
    }
  }

  /** In a key-sorted frame, the group of a key holds every row with that
      key, and no other group holds one. */
  lemma GroupOfKey<T>(s: seq<T>, key: T -> string, i: int, x: T)
    requires KeySorted(s, key)
    requires 0 <= i < |GroupRuns(s, key)|
    ensures var gs := GroupRuns(s, key);
      x in s && key(x) == key(gs[i][0]) <==> x in gs[i]
  {
    var gs := GroupRuns(s, key);
    OtherGroupsOtherKeys(s, key, i);
    FlattenMember(gs, x);
  }

  /** In a key-sorted frame, no group but group `i` holds a row with
      group `i`'s key. */
  lemma OtherGroupsOtherKeys<T>(s: seq<T>, key: T -> string, i: int)
    requires KeySorted(s, key)
    requires 0 <= i < |GroupRuns(s, key)|
    ensures var gs := GroupRuns(s, key);
      forall j, x :: 0 <= j < |gs| && j != i && x in gs[j] ==> key(x) != key(gs[i][0])
  {
    var gs := GroupRuns(s, key);
    GroupKeysIncrease(s, key);
    forall j, x | 0 <= j < |gs| && j != i && x in gs[j] ensures key(x) != key(gs[i][0]) {
      assert key(x) == key(gs[j][0]);
      assert key(gs[j][0]) != key(gs[i][0]);
    }
  }

  /** The groups of a sorted frame are sorted. */
  lemma {:induction false} GroupsSorted<T>(s: seq<T>, key: T -> string, le: (T, T) -> bool)
    requires SortedBy(s, le)
    ensures forall j :: 0 <= j < |GroupRuns(s, key)| ==> SortedBy(GroupRuns(s, key)[j], le)
    decreases |s|
  {
    if |s| > 0 {
      var n := RunLength(s, key, key(s[0]));
      var rest := GroupRuns(s[n..], key);
      assert GroupRuns(s, key) == [s[..n]] + rest;
      SortedSlice(s, le, 0, n);
      SortedSlice(s, le, n, |s|);
      assert s[n..] == s[n..|s|] && s[..n] == s[0..n];
      GroupsSorted(s[n..], key, le);
    }
  }
}
