/**
  Order-preserving filtering of sequences.

  The grid engine compacts its storage with `arrayClean`, which walks an array
  in index order and copies every entry that is not null into a fresh array.
  Both gravity passes are this one operation: inside a column it drops the
  removed cells, across the board it drops the columns that were nulled out.
  This module states, once, what such a filter keeps and where each kept
  element ends up.
 */
module Filtering {

  /** The elements of `s` satisfying `keep`, in their original order. */
  function Filter<T>(s: seq<T>, keep: T -> bool): (r: seq<T>)
    ensures |r| <= |s|
    ensures forall i :: 0 <= i < |r| ==> keep(r[i])
    decreases |s|
  {
    if s == [] then []
    else
      var init := s[..|s| - 1];
      assert s == init + [s[|s| - 1]];
      var r0 := Filter(init, keep);
      if keep(s[|s| - 1]) then r0 + [s[|s| - 1]] else r0
  }

  /** Filtering distributes over concatenation. */
  lemma {:induction false} FilterAppend<T>(a: seq<T>, b: seq<T>, keep: T -> bool)
    ensures Filter(a + b, keep) == Filter(a, keep) + Filter(b, keep)
    decreases |b|
  {
    if b == [] {
      assert a + b == a;
    } else {
      var b0 := b[..|b| - 1];
      assert (a + b)[..|a + b| - 1] == a + b0;
      assert (a + b)[|a + b| - 1] == b[|b| - 1];
      FilterAppend(a, b0, keep);
    }
  }

  /** Extending a prefix by one element extends its filter by that element
      exactly when the element is kept. */
  lemma FilterPrefixStep<T>(s: seq<T>, i: int, keep: T -> bool)
    requires 0 <= i < |s|
    ensures Filter(s[..i + 1], keep)
            == Filter(s[..i], keep) + (if keep(s[i]) then [s[i]] else [])
  {
    assert s[..i + 1][..i] == s[..i];
  }

  /** A kept element lands at its rank: the number of kept elements before it. */
  lemma FilterRank<T>(s: seq<T>, i: int, keep: T -> bool)
    requires 0 <= i < |s| && keep(s[i])
    ensures |Filter(s[..i], keep)| < |Filter(s, keep)|
    ensures Filter(s, keep)[|Filter(s[..i], keep)|] == s[i]
  {
    assert s == s[..i + 1] + s[i + 1..];
    FilterAppend(s[..i + 1], s[i + 1..], keep);
    FilterPrefixStep(s, i, keep);
  }

  /** Ranks grow with the index, so filtering never reorders what it keeps. */
  lemma FilterRankMonotone<T>(s: seq<T>, i: int, j: int, keep: T -> bool)
    requires 0 <= i < j <= |s| && keep(s[i])
    ensures |Filter(s[..i], keep)| < |Filter(s[..j], keep)|
  {
    assert s[..j] == s[..i + 1] + s[i + 1..j];
    FilterAppend(s[..i + 1], s[i + 1..j], keep);
    FilterPrefixStep(s, i, keep);
  }

  /** Every element of the filtered sequence is a kept element of `s`, found at
      the index whose rank is its position. */
  lemma {:induction false} FilterOrigin<T>(s: seq<T>, j: int, keep: T -> bool)
    requires 0 <= j < |Filter(s, keep)|
    ensures exists i :: 0 <= i < |s| && keep(s[i])
                        && |Filter(s[..i], keep)| == j && Filter(s, keep)[j] == s[i]
    decreases |s|
  {
    var n := |s| - 1;
    var init := s[..n];
    assert s[..n] == init;
    if j < |Filter(init, keep)| {
      FilterOrigin(init, j, keep);
      var i :| 0 <= i < |init| && keep(init[i])
               && |Filter(init[..i], keep)| == j && Filter(init, keep)[j] == init[i];
      assert init[..i] == s[..i];
    } else {
      assert keep(s[n]) && Filter(s, keep)[j] == s[n];
    }
  }

  /** Filtering invents nothing: every element of the result comes from `s`. */
  lemma FilterSubset<T>(s: seq<T>, keep: T -> bool)
    ensures forall j :: 0 <= j < |Filter(s, keep)| ==> Filter(s, keep)[j] in s
  {
    forall j | 0 <= j < |Filter(s, keep)|
      ensures Filter(s, keep)[j] in s
    {
      FilterOrigin(s, j, keep);
    }
  }

  /** Filtering a sequence whose elements are all kept changes nothing. */
  lemma {:induction false} FilterKeepsAll<T>(s: seq<T>, keep: T -> bool)
    requires forall i :: 0 <= i < |s| ==> keep(s[i])
    ensures Filter(s, keep) == s
    decreases |s|
  {
    if s != [] {
      var init := s[..|s| - 1];
      FilterKeepsAll(init, keep);
      assert s == init + [s[|s| - 1]];
    }
  }

  /** Filtering a sequence none of whose elements is kept leaves nothing. */
  lemma {:induction false} FilterKeepsNone<T>(s: seq<T>, keep: T -> bool)
    requires forall i :: 0 <= i < |s| ==> !keep(s[i])
    ensures Filter(s, keep) == []
    decreases |s|
  {
    if s != [] {
      FilterKeepsNone(s[..|s| - 1], keep);
    }
  }

  /** Filtering twice is filtering once. */
  lemma FilterIdempotent<T>(s: seq<T>, keep: T -> bool)
    ensures Filter(Filter(s, keep), keep) == Filter(s, keep)
  {
    FilterKeepsAll(Filter(s, keep), keep);
  }
}
