/** The Fisher-Yates (Knuth) shuffle of `shuffleArray` and the size-capped
    random sample built on it. The random source is injected: a `Chooser`
    answers, for step `i`, the index `j` in `[0, i]` that the source computes
    as `Math.floor(Math.random() * (i + 1))`. */
module Shuffling {
  import opened Sequences

  /** An injected random source: asked at step `i`, it names an index in
      `[0, i]`. */
  type Chooser = pick: nat -> nat | forall i :: Answers(pick, i) witness (i: nat) => 0

  /** `pick`, asked at step `i`, names an index in `[0, i]`. */
  predicate Answers(pick: nat -> nat, i: nat) {
    pick(i) <= i
  }

  /** Models `Math.floor(Math.random() * (i + 1))`: the index that step `i`
      of the shuffle swaps with. */
  function Draw(pick: Chooser, i: nat): (j: nat)
    ensures j <= i
  {
    assert Answers(pick, i);
    pick(i)
  }

  /** The number of products a random sample shows. */
  const SampleSize: nat := 8

  /** Exchanges the elements at `i` and `j`. */
  function Swap<T>(s: seq<T>, i: nat, j: nat): (r: seq<T>)
    requires i < |s| && j < |s|
    ensures |r| == |s|
    ensures r[i] == s[j] && r[j] == s[i]
    ensures forall k :: 0 <= k < |s| && k != i && k != j ==> r[k] == s[k]
  {
    s[i := s[j]][j := s[i]]
  }

  lemma SwapPermutes<T>(s: seq<T>, i: nat, j: nat)
    requires i < |s| && j < |s|
    ensures multiset(Swap(s, i, j)) == multiset(s)
  {
  }

  /** The loop of `shuffleArray` from step `i` down to step 1: swap the
      element at `i` with the one at the drawn index, then go on with `i - 1`. */
  function ShuffleFrom<T>(s: seq<T>, i: nat, pick: Chooser): (r: seq<T>)
    requires i < |s|
    ensures |r| == |s|
    decreases i
  {
    if i == 0 then s else ShuffleFrom(Swap(s, i, Draw(pick, i)), i - 1, pick)
  }

  /** The sequence `shuffleArray` returns when its random draws are `pick`. */
  function Shuffle<T>(s: seq<T>, pick: Chooser): (r: seq<T>)
    ensures |r| == |s|
  {
    if |s| == 0 then s else ShuffleFrom(s, |s| - 1, pick)
  }

  /** Models `shuffleArray` (App.tsx): copies the input into a fresh array and
      runs the Fisher-Yates loop from the last index down to 1; the input
      itself is a value and cannot change. */
  method ShuffleArray<T>(input: seq<T>, pick: Chooser) returns (r: seq<T>)
    ensures r == Shuffle(input, pick)
    ensures multiset(r) == multiset(input)
  {
    ShufflePermutes(input, pick);
    if |input| == 0 {
      return input;
    }
    var a := CopyToArray(input);
    var i := |input| - 1;
    while i > 0
      invariant 0 <= i < a.Length
      invariant ShuffleFrom(a[..], i, pick) == Shuffle(input, pick)
      decreases i
    {
      var j := Draw(pick, i);
      ghost var before := a[..];
      a[i], a[j] := a[j], a[i];
      assert a[..] == Swap(before, i, j);
      i := i - 1;
    }
    r := a[..];
  }

  /** `[...array]`: a fresh array holding the elements of `s`. */
  method CopyToArray<T>(s: seq<T>) returns (a: array<T>)
    ensures fresh(a) && a[..] == s
  {
    a := new T[|s|](k requires 0 <= k < |s| => s[k]);
  }

  lemma {:induction false} ShuffleFromPermutes<T>(s: seq<T>, i: nat, pick: Chooser)
    requires i < |s|
    ensures multiset(ShuffleFrom(s, i, pick)) == multiset(s)
    decreases i
  {
    if i > 0 {
      SwapPermutes(s, i, Draw(pick, i));
      ShuffleFromPermutes(Swap(s, i, Draw(pick, i)), i - 1, pick);
    }
  }

  /** `shuffleArray` returns a permutation of its input. */
  lemma ShufflePermutes<T>(s: seq<T>, pick: Chooser)
    ensures multiset(Shuffle(s, pick)) == multiset(s)
  {
    if |s| > 0 {
      ShuffleFromPermutes(s, |s| - 1, pick);
    }
  }

  /** Steps `i` and below never touch the elements after `i`; step `i` leaves
      the drawn element at `i`. */
  lemma {:induction false} ShuffleFromFixesTail<T>(s: seq<T>, i: nat, pick: Chooser)
    requires i < |s|
    ensures forall k :: i < k < |s| ==> ShuffleFrom(s, i, pick)[k] == s[k]
    ensures ShuffleFrom(s, i, pick)[i] == s[Draw(pick, i)]
    decreases i
  {
    if i > 0 {
      ShuffleFromFixesTail(Swap(s, i, Draw(pick, i)), i - 1, pick);
    }
  }

  /** The shuffle only asks its chooser about steps `i` and below. */
  lemma {:induction false} ShuffleUsesOnlyItsSteps<T>(s: seq<T>, i: nat, p: Chooser, q: Chooser)
    requires i < |s|
    requires forall k: nat :: k <= i ==> Draw(p, k) == Draw(q, k)
    ensures ShuffleFrom(s, i, p) == ShuffleFrom(s, i, q)
    decreases i
  {
    if i > 0 {
      assert Draw(p, i) == Draw(q, i);
      ShuffleUsesOnlyItsSteps(Swap(s, i, Draw(p, i)), i - 1, p, q);
    }
  }

  /** A position of `x` in `s`. */
  function IndexOf<T(==)>(s: seq<T>, x: T): (k: nat)
    requires x in s
    ensures k < |s| && s[k] == x
  {
    if s[0] == x then 0 else 1 + IndexOf(s[1..], x)
  }

  /** The chooser that answers `j` at step `i` and agrees with `rest`
      elsewhere. */
  function Override(rest: Chooser, i: nat, j: nat): (pick: Chooser)
    requires j <= i
    ensures Draw(pick, i) == j
    ensures forall k: nat :: k != i ==> Draw(pick, k) == Draw(rest, k)
  {
    (k: nat) => if k == i then j else Draw(rest, k)
  }

  /** Every permutation of `s` is an outcome of the shuffle: these are the
      random draws that produce `t`. */
  function ChooserFor<T(==)>(s: seq<T>, t: seq<T>): (pick: Chooser)
    requires multiset(s) == multiset(t)
    ensures Shuffle(s, pick) == t
  {
    assert |s| == |multiset(s)| == |multiset(t)| == |t|;
    if |s| == 0 then
      (k: nat) => 0
    else
      assert s[..|s|] == s && t[..|t|] == t;
      ChooserFrom(s, t, |s| - 1)
  }

  /** Draws for steps `i` down to 1 that turn `s` into `t`, when the two
      agree after `i` and hold the same elements up to `i`. */
  function ChooserFrom<T(==)>(s: seq<T>, t: seq<T>, i: nat): (pick: Chooser)
    requires i < |s| == |t|
    requires multiset(s[..i + 1]) == multiset(t[..i + 1])
    requires s[i + 1..] == t[i + 1..]
    ensures ShuffleFrom(s, i, pick) == t
    decreases i
  {
    if i == 0 then
      FirstPlaced(s, t);
      (k: nat) => 0
    else
      var j := Source(s, t, i);
      PlaceStep(s, t, i, j);
      var rest := ChooserFrom(Swap(s, i, j), t, i - 1);
      OverrideStep(s, t, i, j, rest);
      Override(rest, i, j)
  }

  /** The draw for step `i`: a position up to `i` holding `t[i]`. */
  function Source<T(==)>(s: seq<T>, t: seq<T>, i: nat): (j: nat)
    requires i < |s| == |t|
    requires multiset(s[..i + 1]) == multiset(t[..i + 1])
    ensures j <= i && s[j] == t[i]
  {
    assert t[..i + 1][i] == t[i] && t[i] in multiset(s[..i + 1]);
    IndexOf(s[..i + 1], t[i])
  }

  /** Prefixing draws that finish the job from step `i - 1` with the draw
      `j` at step `i` finishes it from step `i`. */
  lemma {:induction false} OverrideStep<T>(s: seq<T>, t: seq<T>, i: nat, j: nat, rest: Chooser)
    requires 0 < i < |s| && j <= i
    requires ShuffleFrom(Swap(s, i, j), i - 1, rest) == t
    ensures ShuffleFrom(s, i, Override(rest, i, j)) == t
  {
    ShuffleUsesOnlyItsSteps(Swap(s, i, j), i - 1, Override(rest, i, j), rest);
  }

  lemma FirstPlaced<T>(s: seq<T>, t: seq<T>)
    requires 0 < |s| == |t|
    requires multiset(s[..1]) == multiset(t[..1])
    requires s[1..] == t[1..]
    ensures s == t
  {
    assert s[..1] == [s[0]] && t[..1] == [t[0]];
    assert t[0] in multiset(s[..1]);
    assert s == [s[0]] + s[1..] && t == [t[0]] + t[1..];
  }

  /** After step `i` swaps `t[i]` into place, the two sequences agree from
      `i` on and hold the same elements before it. */
  lemma PlaceStep<T>(s: seq<T>, t: seq<T>, i: nat, j: nat)
    requires 0 < i < |s| == |t| && j <= i
    requires s[j] == t[i]
    requires multiset(s[..i + 1]) == multiset(t[..i + 1])
    requires s[i + 1..] == t[i + 1..]
    ensures multiset(Swap(s, i, j)[..i]) == multiset(t[..i])
    ensures Swap(s, i, j)[i..] == t[i..]
  {
    var u := Swap(s, i, j);
    assert u[..i + 1] == Swap(s[..i + 1], i, j);
    SwapPermutes(s[..i + 1], i, j);
    assert u[..i + 1] == u[..i] + [t[i]];
    assert t[..i + 1] == t[..i] + [t[i]];
    DropLast(u[..i], t[..i], t[i]);
    assert u[i..] == [t[i]] + s[i + 1..];
    assert t[i..] == [t[i]] + t[i + 1..];
  }

  /** Removing the same last element from two sequences with equal contents
      leaves equal contents. */
  lemma DropLast<T>(a: seq<T>, b: seq<T>, x: T)
    requires multiset(a + [x]) == multiset(b + [x])
    ensures multiset(a) == multiset(b)
  {
    assert multiset(a) == multiset(a + [x]) - multiset{x};
    assert multiset(b) == multiset(b + [x]) - multiset{x};
  }

  /** On a duplicate-free input, different draws give different
      permutations: `Shuffle` is injective in the steps it uses. With
      `ChooserFor`, this puts the draws and the permutations of `s` in
      one-to-one correspondence. */
  lemma ShuffleInjective<T>(s: seq<T>, p: Chooser, q: Chooser)
    requires Distinct(s)
    requires Shuffle(s, p) == Shuffle(s, q)
    ensures forall i: nat :: i < |s| ==> Draw(p, i) == Draw(q, i)
  {
    if |s| > 0 {
      DistinctMultiplicity(s);
      ShuffleFromInjective(s, |s| - 1, p, q);
    }
  }

  lemma {:induction false} ShuffleFromInjective<T>(s: seq<T>, i: nat, p: Chooser, q: Chooser)
    requires i < |s|
    requires forall x :: multiset(s)[x] <= 1
    requires ShuffleFrom(s, i, p) == ShuffleFrom(s, i, q)
    ensures forall k: nat :: k <= i ==> Draw(p, k) == Draw(q, k)
    decreases i
  {
    if i > 0 {
      LastDrawAgrees(s, i, p, q);
      SwapKeepsCounts(s, i, Draw(p, i));
      ShuffleFromInjective(Swap(s, i, Draw(p, i)), i - 1, p, q);
    }
    ExtendAgreement(p, q, i);
  }

  /** A swap keeps every value at most once when it was. */
  lemma SwapKeepsCounts<T>(s: seq<T>, i: nat, j: nat)
    requires i < |s| && j < |s|
    requires forall x :: multiset(s)[x] <= 1
    ensures forall x :: multiset(Swap(s, i, j))[x] <= 1
  {
    SwapPermutes(s, i, j);
  }

  lemma {:induction false} LastDrawAgrees<T>(s: seq<T>, i: nat, p: Chooser, q: Chooser)
    requires i < |s|
    requires forall x :: multiset(s)[x] <= 1
    requires ShuffleFrom(s, i, p) == ShuffleFrom(s, i, q)
    ensures Draw(p, i) == Draw(q, i)
  {
    ShuffleFromFixesTail(s, i, p);
    ShuffleFromFixesTail(s, i, q);
    if Draw(p, i) != Draw(q, i) {
      TwoPositions(s, Draw(p, i), Draw(q, i));
    }
  }

  lemma ExtendAgreement(p: Chooser, q: Chooser, n: nat)
    requires forall k: nat :: k < n ==> Draw(p, k) == Draw(q, k)
    requires n == 0 || Draw(p, n) == Draw(q, n)
    ensures forall k: nat :: k <= n ==> Draw(p, k) == Draw(q, k)
  {
    forall k: nat | k <= n ensures Draw(p, k) == Draw(q, k) {
      if k == 0 {
        assert Draw(p, k) <= 0 && Draw(q, k) <= 0;
      }
    }
  }

  /** Models `shuffleArray(candidates).slice(0, 8)`. */
  function Sample<T>(candidates: seq<T>, pick: Chooser): (r: seq<T>)
    ensures |r| == Min(SampleSize, |candidates|)
    ensures multiset(r) <= multiset(candidates)
  {
    ShufflePermutes(candidates, pick);
    Take(Shuffle(candidates, pick), SampleSize)
  }

  /** A sample drawn from duplicate-free candidates has no duplicates. */
  lemma SampleDistinct<T>(candidates: seq<T>, pick: Chooser)
    requires Distinct(candidates)
    ensures Distinct(Sample(candidates, pick))
  {
    DistinctSubMultiset(Sample(candidates, pick), candidates);
  }

  /** Some sequence listing the elements of `m`. */
  ghost function Enumerate<T>(m: multiset<T>): (r: seq<T>)
    ensures multiset(r) == m
    decreases |m|
  {
    if |m| == 0 then []
    else
      var x :| x in m;
      Enumerate(m - multiset{x}) + [x]
  }

  /** Every ordered choice of `min(8, |candidates|)` of the candidates is a
      possible sample. */
  lemma SampleReachesEverySelection<T>(candidates: seq<T>, t: seq<T>)
    requires |t| == Min(SampleSize, |candidates|)
    requires multiset(t) <= multiset(candidates)
    ensures exists pick: Chooser :: Sample(candidates, pick) == t
  {
    var full := Complete(t, candidates);
    var pick := ChooserFor(candidates, full);
    assert |full| == |multiset(full)| == |candidates|;
    var r := Sample(candidates, pick);
    assert r == full[..|t|];
    assert r == t;
  }

  /** `t` extended to a permutation of `s`. */
  lemma Complete<T>(t: seq<T>, s: seq<T>) returns (full: seq<T>)
    requires multiset(t) <= multiset(s)
    ensures multiset(full) == multiset(s)
    ensures |t| <= |full| && full[..|t|] == t
  {
    var rest := Enumerate(multiset(s) - multiset(t));
    full := t + rest;
    assert multiset(full) == multiset(t) + multiset(rest);
    assert full[..|t|] == t;
  }
}
