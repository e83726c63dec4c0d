/**
 * The array operations the screens apply to note lists, on values:
 * `Array.prototype.filter` and `splice(index, 1)` with a non-negative index.
 */
module Sequences {

  /** `a` can be obtained from `b` by deleting elements (order is kept). */
  predicate IsSubsequence<T(==)>(a: seq<T>, b: seq<T>)
    decreases |b|
  {
    if a == [] then true
    else if b == [] then false
    else if a[0] == b[0] then IsSubsequence(a[1..], b[1..])
    else IsSubsequence(a, b[1..])
  }

  /** `s.filter(keep)`: the elements of `s` that satisfy `keep`, each with its
      multiplicity, and nothing else. */
  function Filter<T(==,!new)>(s: seq<T>, keep: T -> bool): (r: seq<T>)
    ensures |r| <= |s|
    ensures forall x :: multiset(r)[x] == if keep(x) then multiset(s)[x] else 0
  {
    if s == [] then []
    else
      assert s == [s[0]] + s[1..];
      (if keep(s[0]) then [s[0]] else []) + Filter(s[1..], keep)
  }

  /** Every element the filter keeps satisfies the predicate. */
  lemma FilterKeepsOnlyMatches<T(!new)>(s: seq<T>, keep: T -> bool, k: nat)
    requires k < |Filter(s, keep)|
    ensures keep(Filter(s, keep)[k]) && Filter(s, keep)[k] in s
  {
    var r := Filter(s, keep);
    assert r[k] in multiset(r);
  }

  /** The filter keeps the relative order of the elements it keeps. */
  lemma {:induction false} FilterIsSubsequence<T(!new)>(s: seq<T>, keep: T -> bool)
    ensures IsSubsequence(Filter(s, keep), s)
  {
    if s != [] {
      var r := Filter(s, keep);
      var rest := Filter(s[1..], keep);
      FilterIsSubsequence(s[1..], keep);
      if keep(s[0]) {
        assert r == [s[0]] + rest;
        assert r[1..] == rest;
      } else {
        assert r == rest;
        if r != [] {
          FilterKeepsOnlyMatches(s, keep, 0);
          assert r[0] != s[0];
        }
      }
    }
  }

  /** A filter whose predicate holds of every element keeps everything. */
  lemma {:induction false} FilterKeepsAll<T(!new)>(s: seq<T>, keep: T -> bool)
    requires forall k :: 0 <= k < |s| ==> keep(s[k])
    ensures Filter(s, keep) == s
  {
    if s != [] {
      FilterKeepsAll(s[1..], keep);
      assert s == [s[0]] + s[1..];
    }
  }

  /** Filtering distributes over concatenation. */
  lemma {:induction false} FilterAppend<T(!new)>(s: seq<T>, t: seq<T>, keep: T -> bool)
    ensures Filter(s + t, keep) == Filter(s, keep) + Filter(t, keep)
  {
    if s == [] {
      assert s + t == t;
    } else {
      var st := s + t;
      assert st[0] == s[0] && st[1..] == s[1..] + t;
      var head := if keep(s[0]) then [s[0]] else [];
      FilterAppend(s[1..], t, keep);
      calc {
        Filter(st, keep);
        head + Filter(s[1..] + t, keep);
        head + (Filter(s[1..], keep) + Filter(t, keep));
        (head + Filter(s[1..], keep)) + Filter(t, keep);
        Filter(s, keep) + Filter(t, keep);
      }
    }
  }

  /** `s.splice(i, 1)` on a copy of `s`, for a non-negative index `i`: removes the
      element at `i` when there is one and otherwise changes nothing. */
  function RemoveAt<T>(s: seq<T>, i: nat): (r: seq<T>)
    ensures i < |s| ==> |r| == |s| - 1
    ensures i >= |s| ==> r == s
    ensures forall k :: 0 <= k < |r| ==> r[k] == if k < i then s[k] else s[k + 1]
  {
    if i < |s| then s[..i] + s[i + 1..] else s
  }

  /** Removing one element removes exactly one occurrence of it. */
  lemma RemoveAtMultiset<T>(s: seq<T>, i: nat)
    requires i < |s|
    ensures multiset(RemoveAt(s, i)) + multiset{s[i]} == multiset(s)
  {
    assert s == s[..i] + [s[i]] + s[i + 1..];
  }
}
