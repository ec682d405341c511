/** Array operations of JavaScript used by the memo code: `filter`, `findIndex`, and `Array.from` of an insertion-ordered `Set`. */
module Seqs {

  /** `s.filter(p)`. */
  function Filter<T(==)>(s: seq<T>, p: T -> bool): (r: seq<T>)
    ensures |r| <= |s|
    ensures forall k :: 0 <= k < |r| ==> r[k] in s && p(r[k])
    ensures forall k :: 0 <= k < |s| && p(s[k]) ==> s[k] in r
    decreases |s|
  {
    if s == [] then [] else (if p(s[0]) then [s[0]] else []) + Filter(s[1..], p)
  }

  /** Filtering keeps the relative order: the kept part of `a + b` is the kept part of `a`, then that of `b`. */
  lemma {:induction false} FilterAppend<T>(a: seq<T>, b: seq<T>, p: T -> bool)
    ensures Filter(a + b, p) == Filter(a, p) + Filter(b, p)
    decreases |a|
  {
    if a != [] {
      assert (a + b)[1..] == a[1..] + b;
      FilterAppend(a[1..], b, p);
      var head := if p(a[0]) then [a[0]] else [];
      calc {
        Filter(a + b, p);
        head + Filter(a[1..] + b, p);
        head + (Filter(a[1..], p) + Filter(b, p));
        (head + Filter(a[1..], p)) + Filter(b, p);
      }
    } else {
      assert a + b == b;
    }
  }

  /** `r` is `s` with some elements left out and the others kept in their order. */
  predicate SubsequenceOf<T(==)>(r: seq<T>, s: seq<T>)
    decreases |s|
  {
    r == []
    || (s != [] && ((r[0] == s[0] && SubsequenceOf(r[1..], s[1..])) || SubsequenceOf(r, s[1..])))
  }

  /** What a filter keeps comes in the order of the input. */
  lemma {:induction false} FilterSubsequence<T>(s: seq<T>, p: T -> bool)
    ensures SubsequenceOf(Filter(s, p), s)
    decreases |s|
  {
    if s != [] {
      FilterSubsequence(s[1..], p);
      var r := Filter(s, p);
      if p(s[0]) {
        assert r[0] == s[0] && r[1..] == Filter(s[1..], p);
      } else {
        assert r == Filter(s[1..], p);
      }
    }
  }

  /** Filtering with two tests that agree on every element gives the same result. */
  lemma {:induction false} FilterCongruent<T>(s: seq<T>, p: T -> bool, q: T -> bool)
    requires forall k :: 0 <= k < |s| ==> p(s[k]) == q(s[k])
    ensures Filter(s, p) == Filter(s, q)
    decreases |s|
  {
    if s != [] {
      FilterCongruent(s[1..], p, q);
    }
  }

  /** A position of `slice` clamped into `0..n`: a negative one counts back from `n`. */
  function SlicePosition(i: int, n: nat): (k: nat)
    ensures k <= n
    ensures 0 <= i <= n ==> k == i
    ensures i > n ==> k == n
    ensures i < 0 ==> k == if n + i < 0 then 0 else n + i
  {
    if i < 0 then (if n + i < 0 then 0 else n + i)
    else if i > n then n
    else i
  }

  /** `s.slice(start, end)`. */
  function Slice<T>(s: seq<T>, start: int, end: int): (r: seq<T>)
    ensures |r| <= |s|
  {
    var b, e := SlicePosition(start, |s|), SlicePosition(end, |s|);
    if b < e then s[b..e] else []
  }

  /** The first index from `k` on whose element satisfies `p`, or -1. */
  function IndexFrom<T>(s: seq<T>, k: nat, p: T -> bool): (i: int)
    requires k <= |s|
    ensures i == -1 || k <= i < |s|
    decreases |s| - k
  {
    if k == |s| then -1
    else if p(s[k]) then k
    else IndexFrom(s, k + 1, p)
  }

  /** `s.findIndex(p)`: the first index whose element satisfies `p`, or -1. */
  function FirstIndex<T>(s: seq<T>, p: T -> bool): (i: int)
    ensures -1 <= i < |s|
  {
    IndexFrom(s, 0, p)
  }

  /** The found element satisfies `p` and none between `k` and it does; -1 means none from `k` on does. */
  lemma {:induction false} IndexFromSpec<T>(s: seq<T>, k: nat, p: T -> bool)
    requires k <= |s|
    ensures var i := IndexFrom(s, k, p);
      (i >= 0 ==> p(s[i]) && forall j :: k <= j < i ==> !p(s[j]))
      && (i == -1 ==> forall j :: k <= j < |s| ==> !p(s[j]))
    decreases |s| - k
  {
    if k < |s| && !p(s[k]) {
      IndexFromSpec(s, k + 1, p);
    }
  }

  /** The first index from `k` on is determined by its defining property. */
  lemma IndexFromIs<T>(s: seq<T>, k: nat, p: T -> bool, i: int)
    requires k <= |s|
    requires i == -1 || k <= i < |s|
    requires i >= 0 ==> p(s[i])
    requires forall j :: k <= j < |s| && (i == -1 || j < i) ==> !p(s[j])
    ensures IndexFrom(s, k, p) == i
  {
    IndexFromSpec(s, k, p);
    var r := IndexFrom(s, k, p);
    if r >= 0 {
      assert p(s[r]);
    }
  }

  lemma FirstIndexSpec<T>(s: seq<T>, p: T -> bool)
    ensures var i := FirstIndex(s, p);
      (i >= 0 ==> p(s[i]) && forall j :: 0 <= j < i ==> !p(s[j]))
      && (i == -1 ==> forall j :: 0 <= j < |s| ==> !p(s[j]))
  {
    IndexFromSpec(s, 0, p);
  }

  lemma FirstIndexIs<T>(s: seq<T>, p: T -> bool, i: int)
    requires -1 <= i < |s|
    requires i >= 0 ==> p(s[i])
    requires forall j :: 0 <= j < |s| && (i == -1 || j < i) ==> !p(s[j])
    ensures FirstIndex(s, p) == i
  {
    IndexFromIs(s, 0, p, i);
  }

  /** Searching a suffix `s[k..]` from `m` is searching `s` from `k + m`, with indices shifted by `k`. */
  lemma {:induction false} IndexFromSuffix<T>(s: seq<T>, k: nat, m: nat, p: T -> bool)
    requires k + m <= |s|
    ensures var i := IndexFrom(s, k + m, p);
      IndexFrom(s[k..], m, p) == if i == -1 then -1 else i - k
    decreases |s| - k - m
  {
    if k + m < |s| {
      assert s[k..][m] == s[k + m];
      IndexFromSuffix(s, k, m + 1, p);
    }
  }

  /** `s.slice(k).findIndex(p)` in terms of `s`. */
  lemma FirstIndexOfSuffix<T>(s: seq<T>, k: nat, p: T -> bool)
    requires k <= |s|
    ensures var i := IndexFrom(s, k, p);
      FirstIndex(s[k..], p) == if i == -1 then -1 else i - k
  {
    IndexFromSuffix(s, k, 0, p);
  }

  /** `s` with `x` spliced in so that it lands at index `i`. */
  function InsertAt<T>(s: seq<T>, i: nat, x: T): (r: seq<T>)
    requires i <= |s|
    ensures |r| == |s| + 1 && r[i] == x
    ensures r[..i] == s[..i] && r[i + 1..] == s[i..]
  {
    s[..i] + [x] + s[i..]
  }

  /** The elements after the splice point move up by one; those before it stay. */
  lemma InsertAtIndex<T>(s: seq<T>, i: nat, x: T, j: nat)
    requires i <= |s| && j < |s|
    ensures j < i ==> InsertAt(s, i, x)[j] == s[j]
    ensures j >= i ==> InsertAt(s, i, x)[j + 1] == s[j]
  {
    var r := InsertAt(s, i, x);
    if j < i {
      assert r[j] == r[..i][j];
    } else if j < |s| {
      assert r[j + 1] == r[i + 1..][j - i];
    }
  }

  /** Splicing `x` in at `i` and then `y` right after it puts `[x, y]` at `i`. */
  lemma InsertAtTwice<T>(s: seq<T>, i: nat, x: T, y: T)
    requires i <= |s|
    ensures InsertAt(InsertAt(s, i, x), i + 1, y) == s[..i] + [x, y] + s[i..]
  {
    var s1 := InsertAt(s, i, x);
    assert s1[..i + 1] == s[..i] + [x];
    assert s1[i + 1..] == s[i..];
  }

  /** A search that ends at or after the splice point, over an element it rejects, ends one later. */
  lemma IndexFromAfterInsert<T>(s: seq<T>, k: nat, i: nat, x: T, p: T -> bool)
    requires k <= i <= |s| && !p(x)
    requires IndexFrom(s, k, p) >= i
    ensures IndexFrom(InsertAt(s, i, x), k, p) == IndexFrom(s, k, p) + 1
  {
    var h := IndexFrom(s, k, p);
    var r := InsertAt(s, i, x);
    IndexFromSpec(s, k, p);
    InsertAtIndex(s, i, x, h);
    forall j | k <= j < h + 1
      ensures !p(r[j])
    {
      if j > i {
        InsertAtIndex(s, i, x, j - 1);
      } else if j < i {
        InsertAtIndex(s, i, x, j);
      }
    }
    IndexFromIs(r, k, p, h + 1);
  }

  /** A prefix one longer is the prefix with the next element appended. */
  lemma TakeSnoc<T>(s: seq<T>, i: nat)
    requires i < |s|
    ensures s[..i + 1] == s[..i] + [s[i]]
    ensures s[..i + 1][..i] == s[..i]
  {
  }

  lemma AppendAssoc<T>(a: seq<T>, b: seq<T>, c: seq<T>)
    ensures a + (b + c) == a + b + c
  {
  }

  predicate Distinct<T(==)>(s: seq<T>) {
    forall i, j :: 0 <= i < j < |s| ==> s[i] != s[j]
  }

  /**
   * `Array.from(set)` after adding the elements of `s` to an empty `Set` in order:
   * each element once, in the order of its first occurrence.
   */
  function Dedup<T(==,!new)>(s: seq<T>): (r: seq<T>)
    ensures Distinct(r)
    ensures forall x :: x in r <==> x in s
    decreases |s|
  {
    if s == [] then []
    else
      var d := Dedup(s[..|s| - 1]);
      assert s == s[..|s| - 1] + [s[|s| - 1]];
      if s[|s| - 1] in d then d else d + [s[|s| - 1]]
  }

  /** Adding one more element to the `Set` appends it, unless it is already there. */
  lemma DedupSnoc<T(!new)>(s: seq<T>, x: T)
    ensures Dedup(s + [x]) == if x in Dedup(s) then Dedup(s) else Dedup(s) + [x]
  {
    assert (s + [x])[..|s|] == s;
  }
}
