/** Sequence vocabulary shared by the catalog model: the in-order filter that
    `Array.prototype.filter` performs, the prefix that `slice(0, n)` takes,
    subsequences, and duplicate-freedom. */
module Sequences {

  function Min(a: int, b: int): (r: int)
    ensures r <= a && r <= b
    ensures r == a || r == b
  {
    if a <= b then a else b
  }

  /** `r` can be obtained from `s` by deleting elements, keeping the order of
      the rest. */
  predicate IsSubsequence<T(==)>(r: seq<T>, s: seq<T>)
    decreases |s|
  {
    if |r| == 0 then true
    else if |s| == 0 then false
    else (r[0] == s[0] && IsSubsequence(r[1..], s[1..])) || IsSubsequence(r, s[1..])
  }

  /** `r` is exactly the in-order selection of the elements of `s` that `keep`
      accepts: it takes nothing else, it drops none of them, and it does not
      reorder them. The membership clause follows from the subsequence
      clause; it is stated because the counting clause ranges over the
      elements of `s` only. */
  ghost predicate SelectsExactly<T>(r: seq<T>, s: seq<T>, keep: T -> bool) {
    && IsSubsequence(r, s)
    && (forall x | x in r :: x in s)
    && (forall x | x in s :: multiset(r)[x] == if keep(x) then multiset(s)[x] else 0)
  }

  /** No value occurs twice. */
  predicate Distinct<T(==)>(s: seq<T>) {
    forall i, j :: 0 <= i < j < |s| ==> s[i] != s[j]
  }

  /** Models `s.filter(keep)`: the elements `keep` accepts, in their original
      order. `FilterSelects` states that nothing else is taken and nothing
      accepted is lost. */
  function Filter<T>(s: seq<T>, keep: T -> bool): (r: seq<T>)
    ensures |r| <= |s|
    ensures forall x :: x in r ==> keep(x) && x in s
    decreases |s|
  {
    if |s| == 0 then []
    else
      var rest := Filter(s[1..], keep);
      if keep(s[0]) then [s[0]] + rest else rest
  }

  lemma {:induction false} FilterSelects<T>(s: seq<T>, keep: T -> bool)
    ensures SelectsExactly(Filter(s, keep), s, keep)
    decreases |s|
  {
    FilterIsSubsequence(s, keep);
    FilterCounts(s, keep);
  }

  lemma {:induction false} FilterIsSubsequence<T>(s: seq<T>, keep: T -> bool)
    ensures IsSubsequence(Filter(s, keep), s)
    decreases |s|
  {
    if |s| > 0 {
      var rest := Filter(s[1..], keep);
      FilterIsSubsequence(s[1..], keep);
      if keep(s[0]) {
        assert Filter(s, keep)[1..] == rest;
      }
    }
  }

  lemma {:induction false} FilterCounts<T>(s: seq<T>, keep: T -> bool)
    ensures forall x :: multiset(Filter(s, keep))[x] == if keep(x) then multiset(s)[x] else 0
    decreases |s|
  {
    if |s| > 0 {
      var rest := Filter(s[1..], keep);
      FilterCounts(s[1..], keep);
      HeadCount(s);
      if keep(s[0]) {
        assert multiset(Filter(s, keep)) == multiset([s[0]]) + multiset(rest);
      }
    }
  }

  /** A filter takes each value at most as often as it occurs. */
  lemma FilterShrinks<T>(s: seq<T>, keep: T -> bool)
    ensures multiset(Filter(s, keep)) <= multiset(s)
  {
    FilterCounts(s, keep);
  }

  lemma HeadCount<T>(s: seq<T>)
    requires |s| > 0
    ensures forall x :: multiset(s)[x] == multiset(s[1..])[x] + if x == s[0] then 1 else 0
  {
    assert s == [s[0]] + s[1..];
  }

  /** Models `s.slice(0, n)`: the first `n` elements, or all of `s` when it is
      shorter. */
  function Take<T>(s: seq<T>, n: nat): (r: seq<T>)
    ensures |r| == Min(n, |s|)
    ensures forall k :: 0 <= k < |r| ==> r[k] == s[k]
    ensures multiset(r) <= multiset(s)
  {
    if |s| <= n then s
    else
      assert s == s[..n] + s[n..];
      s[..n]
  }

  lemma {:induction false} SubsequenceTransitive<T>(a: seq<T>, b: seq<T>, c: seq<T>)
    requires IsSubsequence(a, b) && IsSubsequence(b, c)
    ensures IsSubsequence(a, c)
    decreases |c|
  {
    if |a| == 0 {
    } else if |c| == 0 {
    } else if b[0] == c[0] && IsSubsequence(b[1..], c[1..]) {
      if a[0] == b[0] && IsSubsequence(a[1..], b[1..]) {
        SubsequenceTransitive(a[1..], b[1..], c[1..]);
      } else {
        SubsequenceTransitive(a, b[1..], c[1..]);
      }
    } else {
      SubsequenceTransitive(a, b, c[1..]);
    }
  }

  /** A subsequence only as long as the whole is the whole. */
  lemma {:induction false} SubsequenceSameLength<T>(r: seq<T>, s: seq<T>)
    requires IsSubsequence(r, s) && |r| == |s|
    ensures r == s
    decreases |s|
  {
    if |s| == 0 {
    } else if r[0] == s[0] && IsSubsequence(r[1..], s[1..]) {
      SubsequenceSameLength(r[1..], s[1..]);
      assert r == [r[0]] + r[1..];
      assert s == [s[0]] + s[1..];
    } else {
      SubsequenceLength(r, s[1..]);
    }
  }

  lemma {:induction false} SubsequenceLength<T>(r: seq<T>, s: seq<T>)
    requires IsSubsequence(r, s)
    ensures |r| <= |s|
    decreases |s|
  {
    if |r| == 0 {
    } else if r[0] == s[0] && IsSubsequence(r[1..], s[1..]) {
      SubsequenceLength(r[1..], s[1..]);
    } else {
      SubsequenceLength(r, s[1..]);
    }
  }

  /** A subsequence of `s` made only of accepted elements is a subsequence of
      `Filter(s, keep)`. */
  lemma {:induction false} SubsequenceOfFilter<T>(r: seq<T>, s: seq<T>, keep: T -> bool)
    requires IsSubsequence(r, s)
    requires forall k :: 0 <= k < |r| ==> keep(r[k])
    ensures IsSubsequence(r, Filter(s, keep))
    decreases |s|
  {
    if |r| == 0 {
    } else if r[0] == s[0] && IsSubsequence(r[1..], s[1..]) {
      SubsequenceOfFilter(r[1..], s[1..], keep);
      assert Filter(s, keep) == [s[0]] + Filter(s[1..], keep);
    } else {
      SubsequenceOfFilter(r, s[1..], keep);
      var f := Filter(s, keep);
      if keep(s[0]) {
        assert f == [s[0]] + Filter(s[1..], keep);
        assert f[1..] == Filter(s[1..], keep);
      }
    }
  }

  /** The in-order exact selection is unique: whatever satisfies
      `SelectsExactly` is the result of `Filter`. */
  lemma FilterUnique<T>(r: seq<T>, s: seq<T>, keep: T -> bool)
    requires SelectsExactly(r, s, keep)
    ensures r == Filter(s, keep)
  {
    var f := Filter(s, keep);
    forall k | 0 <= k < |r| ensures keep(r[k]) {
      assert multiset(r)[r[k]] > 0;
    }
    SubsequenceOfFilter(r, s, keep);
    FilterCounts(s, keep);
    assert multiset(r) == multiset(f) by {
      forall x ensures multiset(r)[x] == multiset(f)[x] {
      }
    }
    assert |r| == |multiset(r)| == |multiset(f)| == |f|;
    SubsequenceSameLength(r, f);
  }

  /** Filtering twice is filtering once by both tests. */
  lemma {:induction false} FilterTwice<T>(s: seq<T>, first: T -> bool, second: T -> bool, both: T -> bool)
    requires forall x :: both(x) == (first(x) && second(x))
    ensures SelectsExactly(Filter(Filter(s, first), second), s, both)
  {
    var once := Filter(s, first);
    var twice := Filter(once, second);
    FilterIsSubsequence(s, first);
    FilterIsSubsequence(once, second);
    FilterCounts(s, first);
    FilterCounts(once, second);
    SubsequenceTransitive(twice, once, s);
    forall x ensures multiset(twice)[x] == if both(x) then multiset(s)[x] else 0 {
      assert multiset(twice)[x] == if second(x) then multiset(once)[x] else 0;
      assert multiset(once)[x] == if first(x) then multiset(s)[x] else 0;
    }
  }

  /** Duplicate-freedom in terms of multiplicities. */
  lemma {:induction false} DistinctMultiplicity<T>(s: seq<T>)
    ensures Distinct(s) <==> forall x :: multiset(s)[x] <= 1
    decreases |s|
  {
    if |s| > 0 {
      var t := s[1..];
      assert s == [s[0]] + t;
      DistinctMultiplicity(t);
      if Distinct(s) {
        assert Distinct(t) by {
          forall i, j | 0 <= i < j < |t| ensures t[i] != t[j] {
            assert t[i] == s[i + 1] && t[j] == s[j + 1];
          }
        }
      } else {
        var i, j :| 0 <= i < j < |s| && s[i] == s[j];
        if i == 0 {
          assert s[j] == t[j - 1];
          assert multiset(s)[s[0]] == 1 + multiset(t)[s[0]];
        } else {
          assert t[i - 1] == t[j - 1];
          assert !Distinct(t);
          var x :| multiset(t)[x] > 1;
          assert multiset(s)[x] >= multiset(t)[x];
        }
      }
    }
  }

  /** Any sequence whose elements the distinct sequence `s` covers, with
      multiplicity, is duplicate-free too. */
  lemma DistinctSubMultiset<T>(r: seq<T>, s: seq<T>)
    requires Distinct(s)
    requires multiset(r) <= multiset(s)
    ensures Distinct(r)
  {
    DistinctMultiplicity(s);
    FewerCopies(r, s);
    DistinctMultiplicity(r);
  }

  /** Taking fewer copies of each value keeps every value at most once. */
  lemma FewerCopies<T>(r: seq<T>, s: seq<T>)
    requires multiset(r) <= multiset(s)
    requires forall x :: multiset(s)[x] <= 1
    ensures forall x :: multiset(r)[x] <= 1
  {
    forall x ensures multiset(r)[x] <= 1 {
      assert multiset(r)[x] <= multiset(s)[x];
    }
  }


  /** A value at two different positions occurs at least twice. */
  lemma TwoPositions<T>(s: seq<T>, i: nat, j: nat)
    requires i < |s| && j < |s| && i != j && s[i] == s[j]
    ensures multiset(s)[s[i]] >= 2
  {
    var lo, hi := if i < j then i else j, if i < j then j else i;
    assert s == s[..lo] + [s[lo]] + s[lo + 1..hi] + [s[hi]] + s[hi + 1..];
  }
}
