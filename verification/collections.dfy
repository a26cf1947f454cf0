/** Sequence helpers behind the array methods the source relies on:
    `filter`, `findIndex`/`find`, counting, and de-duplication through a
    `Set` (which keeps first-insertion order). */
module Collections {
  import opened Wrappers

  /** `r` is obtained from `s` by deleting some elements, keeping the order
      of the rest. */
  ghost predicate Subsequence<T>(r: seq<T>, s: seq<T>)
    decreases |s|
  {
    if |r| == 0 then true
    else if |s| == 0 then false
    else if r[0] == s[0] then Subsequence(r[1..], s[1..])
    else Subsequence(r, s[1..])
  }

  /** No element occurs twice. */
  predicate Distinct<T(==)>(s: seq<T>) {
    forall i, j :: 0 <= i < j < |s| ==> s[i] != s[j]
  }

  /** Number of elements of `s` satisfying `p`. */
  function Count<T>(s: seq<T>, p: T -> bool): nat
    decreases |s|
  {
    if |s| == 0 then 0
    else Count(s[..|s| - 1], p) + (if p(s[|s| - 1]) then 1 else 0)
  }

  lemma {:induction false} CountConcat<T>(a: seq<T>, b: seq<T>, p: T -> bool)
    ensures Count(a + b, p) == Count(a, p) + Count(b, p)
    decreases |b|
  {
    if |b| == 0 {
      assert a + b == a;
    } else {
      assert (a + b)[..|a + b| - 1] == a + b[..|b| - 1];
      CountConcat(a, b[..|b| - 1], p);
    }
  }

  lemma {:induction false} CountZero<T>(s: seq<T>, p: T -> bool)
    ensures Count(s, p) == 0 <==> forall i :: 0 <= i < |s| ==> !p(s[i])
    decreases |s|
  {
    if |s| > 0 {
      CountZero(s[..|s| - 1], p);
      assert forall i :: 0 <= i < |s| - 1 ==> s[..|s| - 1][i] == s[i];
    }
  }

  /** When at most position `i` can satisfy `p`, the count is 0 or 1
      according to `s[i]`. */
  lemma CountOnlyAt<T>(s: seq<T>, i: nat, p: T -> bool)
    requires i < |s|
    requires forall j :: 0 <= j < |s| && j != i ==> !p(s[j])
    ensures Count(s, p) == if p(s[i]) then 1 else 0
  {
    assert s == s[..i] + [s[i]] + s[i + 1..];
    CountConcat(s[..i] + [s[i]], s[i + 1..], p);
    CountConcat(s[..i], [s[i]], p);
    CountZero(s[..i], p);
    CountZero(s[i + 1..], p);
    assert Count([s[i]], p) == Count([s[i]][..0], p) + (if p(s[i]) then 1 else 0);
  }

  /** `Count` seen from the front. */
  lemma CountCons<T>(s: seq<T>, p: T -> bool)
    requires |s| > 0
    ensures Count(s, p) == (if p(s[0]) then 1 else 0) + Count(s[1..], p)
  {
    assert s == [s[0]] + s[1..];
    CountConcat([s[0]], s[1..], p);
    assert Count([s[0]], p) == Count([s[0]][..0], p) + (if p(s[0]) then 1 else 0);
  }

  /** Replacing one element changes the count by that element's
      contribution only. */
  lemma CountUpdate<T>(s: seq<T>, i: nat, x: T, p: T -> bool)
    requires i < |s|
    ensures Count(s[i := x], p)
         == Count(s, p) - (if p(s[i]) then 1 else 0) + (if p(x) then 1 else 0)
  {
    assert s == s[..i] + [s[i]] + s[i + 1..];
    assert s[i := x] == s[..i] + [x] + s[i + 1..];
    CountConcat(s[..i] + [s[i]], s[i + 1..], p);
    CountConcat(s[..i], [s[i]], p);
    CountConcat(s[..i] + [x], s[i + 1..], p);
    CountConcat(s[..i], [x], p);
    assert Count([s[i]], p) == Count([s[i]][..0], p) + (if p(s[i]) then 1 else 0);
    assert Count([x], p) == Count([x][..0], p) + (if p(x) then 1 else 0);
  }

  /** `Array.prototype.filter`: the elements satisfying `keep`, in order. */
  function Filter<T(!new)>(s: seq<T>, keep: T -> bool): (r: seq<T>)
    ensures Subsequence(r, s)
    ensures forall i :: 0 <= i < |r| ==> keep(r[i])
    ensures |r| == Count(s, keep)
    ensures forall x :: x in r <==> x in s && keep(x)
    decreases |s|
  {
    if |s| == 0 then []
    else
      var rest := Filter(s[..|s| - 1], keep);
      var last := s[|s| - 1];
      SubsequenceAppend(rest, s[..|s| - 1], last);
      InitLast(s);
      if keep(last) then rest + [last] else rest
  }

  /** Filtering with a predicate every element satisfies changes nothing. */
  lemma {:induction false} FilterKeepsAll<T(!new)>(s: seq<T>, keep: T -> bool)
    ensures (forall i :: 0 <= i < |s| ==> keep(s[i])) ==> Filter(s, keep) == s
    decreases |s|
  {
    if |s| > 0 && forall i :: 0 <= i < |s| ==> keep(s[i]) {
      var init := s[..|s| - 1];
      var last := s[|s| - 1];
      assert keep(last);
      assert Filter(s, keep) == Filter(init, keep) + [last];
      assert forall i :: 0 <= i < |init| ==> init[i] == s[i];
      FilterKeepsAll(init, keep);
      InitLast(s);
    }
  }

  lemma InitLast<T>(s: seq<T>)
    requires |s| > 0
    ensures s == s[..|s| - 1] + [s[|s| - 1]]
  { }

  lemma {:induction false} SubsequenceAppend<T>(r: seq<T>, s: seq<T>, x: T)
    requires Subsequence(r, s)
    ensures Subsequence(r + [x], s + [x])
    ensures Subsequence(r, s + [x])
    decreases |s|
  {
    if |r| == 0 {
      SubsequenceOfEmpty(s + [x]);
      if |s| == 0 {
        assert [x][1..] == [];
        assert r + [x] == [x];
      } else {
        assert (s + [x])[1..] == s[1..] + [x];
        SubsequenceAppend(r, s[1..], x);
      }
    } else if r[0] == s[0] {
      assert (r + [x])[1..] == r[1..] + [x];
      assert (s + [x])[1..] == s[1..] + [x];
      SubsequenceAppend(r[1..], s[1..], x);
    } else {
      assert (s + [x])[1..] == s[1..] + [x];
      SubsequenceAppend(r, s[1..], x);
    }
  }

  /** Deleting elements never increases a count. */
  lemma {:induction false} CountOfSubsequence<T>(r: seq<T>, s: seq<T>, p: T -> bool)
    requires Subsequence(r, s)
    ensures Count(r, p) <= Count(s, p)
    decreases |s|
  {
    if |r| > 0 {
      assert s == [s[0]] + s[1..];
      CountConcat([s[0]], s[1..], p);
      if r[0] == s[0] {
        CountOfSubsequence(r[1..], s[1..], p);
        assert r == [r[0]] + r[1..];
        CountConcat([r[0]], r[1..], p);
      } else {
        CountOfSubsequence(r, s[1..], p);
      }
    }
  }

  lemma {:induction false} FilterConcat<T(!new)>(a: seq<T>, b: seq<T>, keep: T -> bool)
    ensures Filter(a + b, keep) == Filter(a, keep) + Filter(b, keep)
    decreases |b|
  {
    if |b| == 0 {
      assert a + b == a;
    } else {
      var init := b[..|b| - 1];
      assert (a + b)[..|a + b| - 1] == a + init;
      assert (a + b)[|a + b| - 1] == b[|b| - 1];
      FilterConcat(a, init, keep);
    }
  }

  /** `filter` seen from the front: the head, if kept, then the filtered
      tail. */
  lemma FilterCons<T(!new)>(s: seq<T>, keep: T -> bool)
    requires |s| > 0
    ensures Filter(s, keep) == (if keep(s[0]) then [s[0]] else []) + Filter(s[1..], keep)
  {
    HeadTail(s);
    FilterConcat([s[0]], s[1..], keep);
    FilterSingleton(s[0], keep);
  }

  lemma HeadTail<T>(s: seq<T>)
    requires |s| > 0
    ensures s == [s[0]] + s[1..]
  {
  }

  lemma FilterSingleton<T(!new)>(x: T, keep: T -> bool)
    ensures Filter([x], keep) == if keep(x) then [x] else []
  {
    assert [x][..0] == [];
  }

  /** A subsequence whose every element is kept, and which is as long as
      the number of kept elements, is the filtered sequence: the length
      clause of `Filter` (and of the members built on it) pins the result,
      duplicates included. */
  lemma {:induction false} FilterUnique<T(!new)>(r: seq<T>, s: seq<T>, keep: T -> bool)
    requires Subsequence(r, s)
    requires forall i :: 0 <= i < |r| ==> keep(r[i])
    requires |r| == Count(s, keep)
    ensures r == Filter(s, keep)
    decreases |s|
  {
    if |s| == 0 {
      assert |r| == 0;
    } else if |r| == 0 {
      assert |Filter(s, keep)| == 0;
    } else {
      FilterCons(s, keep);
      CountCons(s, keep);
      if r[0] == s[0] {
        FilterUnique(r[1..], s[1..], keep);
        HeadTail(r);
      } else {
        FilterKeepsAll(r, keep);
        CountOfSubsequence(r, s[1..], keep);
        FilterUnique(r, s[1..], keep);
      }
    }
  }

  lemma SubsequenceOfEmpty<T>(s: seq<T>)
    ensures Subsequence([], s)
  {
  }

  /** `Array.prototype.findIndex`: the first position satisfying `p`. */
  function FindIndex<T>(s: seq<T>, p: T -> bool): (r: Option<nat>)
    ensures r.None? <==> forall i :: 0 <= i < |s| ==> !p(s[i])
    ensures r.Some? ==> r.value < |s| && p(s[r.value])
    ensures r.Some? ==> forall j :: 0 <= j < r.value ==> !p(s[j])
    decreases |s|
  {
    if |s| == 0 then None
    else if p(s[0]) then Some(0)
    else match FindIndex(s[1..], p)
      case None => None
      case Some(k) => Some(k + 1)
  }

  /** Position of the first occurrence of `x` in `s`. */
  function FirstIndex<T(==)>(s: seq<T>, x: T): (i: nat)
    requires x in s
    ensures i < |s| && s[i] == x
    ensures forall j :: 0 <= j < i ==> s[j] != x
    decreases |s|
  {
    if s[0] == x then 0 else 1 + FirstIndex(s[1..], x)
  }

  lemma FirstIndexOfPrefix<T>(s: seq<T>, x: T, n: nat)
    requires n <= |s| && x in s[..n]
    ensures x in s && FirstIndex(s, x) == FirstIndex(s[..n], x)
  {
    var i := FirstIndex(s[..n], x);
    assert s[..n][i] == s[i];
    assert forall j :: 0 <= j < i ==> s[..n][j] == s[j];
  }

  /** `Array.from(new Set(s))`: the distinct elements of `s`, each at the
      place of its first occurrence. */
  function Dedup<T(==,!new)>(s: seq<T>): (r: seq<T>)
    ensures forall x :: x in r <==> x in s
    ensures Distinct(r)
    ensures forall i, j :: 0 <= i < j < |r| ==> FirstIndex(s, r[i]) < FirstIndex(s, r[j])
    decreases |s|
  {
    if |s| == 0 then []
    else
      var init := s[..|s| - 1];
      var p := Dedup(init);
      var x := s[|s| - 1];
      assert s == init + [x];
      assert forall i :: 0 <= i < |p| ==> p[i] in p;
      DedupStep(s, p, x);
      if x in p then p else p + [x]
  }

  lemma DedupStep<T>(s: seq<T>, p: seq<T>, x: T)
    requires |s| > 0 && x == s[|s| - 1]
    requires forall i :: 0 <= i < |p| ==> p[i] in s[..|s| - 1]
    requires forall y :: y in p <==> y in s[..|s| - 1]
    requires forall i, j :: 0 <= i < j < |p| ==> FirstIndex(s[..|s| - 1], p[i]) < FirstIndex(s[..|s| - 1], p[j])
    ensures forall i :: 0 <= i < |p| ==> p[i] in s
    ensures forall i, j :: 0 <= i < j < |p| ==> FirstIndex(s, p[i]) < FirstIndex(s, p[j])
    ensures x !in p ==> forall i :: 0 <= i < |p| ==> FirstIndex(s, p[i]) < FirstIndex(s, x)
  {
    var n := |s| - 1;
    forall i | 0 <= i < |p|
      ensures p[i] in s
      ensures FirstIndex(s, p[i]) == FirstIndex(s[..n], p[i]) < n
    {
      FirstIndexOfPrefix(s, p[i], n);
    }
    if x !in p {
      assert x !in s[..n];
      assert forall j :: 0 <= j < n ==> s[j] == s[..n][j];
    }
  }

  /** Being a prefix is transitive. */
  lemma PrefixOfPrefix<T>(a: seq<T>, b: seq<T>, c: seq<T>)
    requires |b| <= |a| && a[..|b|] == b
    requires |c| <= |b| && b[..|c|] == c
    ensures a[..|c|] == c
  {
    assert a[..|c|] == a[..|b|][..|c|];
  }

  /** Occurrences in a concatenation add up. */
  lemma MultisetConcatAt<T>(a: seq<T>, b: seq<T>, x: T)
    ensures multiset(a + b)[x] == multiset(a)[x] + multiset(b)[x]
  {
  }

  /** Occurrences in a non-empty sequence: the head's, plus the tail's. */
  lemma MultisetConsAt<T>(s: seq<T>, x: T)
    requires |s| > 0
    ensures multiset(s)[x] == (if s[0] == x then 1 else 0) + multiset(s[1..])[x]
  {
    assert s == [s[0]] + s[1..];
  }
}
