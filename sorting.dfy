/**
 * Ordering and counting facts used by the order-statistic masks and by the
 * median: an insertion sort on reals (the model of numpy's `np.sort` and
 * Python's `sorted` on numbers), counting by a predicate, and how counts and
 * distinctness survive a permutation.
 */
module Sorting {

  /** Ascending order, ties allowed. */
  predicate SortedAsc(s: seq<real>) {
    forall i, j :: 0 <= i < j < |s| ==> s[i] <= s[j]
  }

  /** Strictly ascending order. */
  predicate StrictlyAsc(s: seq<real>) {
    forall i, j :: 0 <= i < j < |s| ==> s[i] < s[j]
  }

  /** No value occurs at two positions. */
  predicate Distinct<T(==)>(s: seq<T>) {
    forall i, j :: 0 <= i < j < |s| ==> s[i] != s[j]
  }

  /** Inserts `x` into an ascending sequence, before the first element not below it. */
  function Insert(x: real, s: seq<real>): (r: seq<real>)
    requires SortedAsc(s)
    ensures |r| == |s| + 1
    ensures multiset(r) == multiset(s) + multiset{x}
    ensures SortedAsc(r)
  {
    if s == [] then [x]
    else if x <= s[0] then [x] + s
    else
      var t := Insert(x, s[1..]);
      InsertBehindHead(x, s, t);
      [s[0]] + t
  }

  /** Putting the head of `s` in front of `x` inserted into the tail of `s` gives an ascending sequence holding `s` and `x`. */
  lemma InsertBehindHead(x: real, s: seq<real>, t: seq<real>)
    requires s != [] && SortedAsc(s) && s[0] < x
    requires SortedAsc(t) && multiset(t) == multiset(s[1..]) + multiset{x}
    ensures multiset([s[0]] + t) == multiset(s) + multiset{x}
    ensures SortedAsc([s[0]] + t)
  {
    assert s == [s[0]] + s[1..];
    forall k | 0 <= k < |t| ensures s[0] <= t[k] {
      assert t[k] in multiset(t);
    }
  }

  /** The ascending rearrangement of `s`. */
  function Sort(s: seq<real>): (r: seq<real>)
    ensures |r| == |s|
    ensures multiset(r) == multiset(s)
    ensures SortedAsc(r)
  {
    if s == [] then []
    else
      assert s == [s[0]] + s[1..];
      Insert(s[0], Sort(s[1..]))
  }

  /** Two ascending arrangements of the same multiset are the same sequence. */
  lemma {:induction false} SortedUnique(a: seq<real>, b: seq<real>)
    requires SortedAsc(a) && SortedAsc(b)
    requires multiset(a) == multiset(b)
    ensures a == b
  {
    assert |a| == |multiset(a)| == |multiset(b)| == |b|;
    if a != [] {
      assert a[0] in multiset(b);
      assert b[0] in multiset(a);
      assert a[0] == b[0];
      assert a == [a[0]] + a[1..];
      assert b == [b[0]] + b[1..];
      assert multiset(a[1..]) == multiset(a) - multiset{a[0]};
      assert multiset(b[1..]) == multiset(b) - multiset{b[0]};
      SortedUnique(a[1..], b[1..]);
    }
  }

  /** Sorting depends only on the multiset of values. */
  lemma SortPermutation(a: seq<real>, b: seq<real>)
    requires multiset(a) == multiset(b)
    ensures Sort(a) == Sort(b)
  {
    SortedUnique(Sort(a), Sort(b));
  }

  /** The number of elements of `s` that satisfy `f`. */
  function Count<T>(s: seq<T>, f: T -> bool): (n: nat)
    ensures n <= |s|
  {
    if s == [] then 0 else (if f(s[0]) then 1 else 0) + Count(s[1..], f)
  }

  lemma {:induction false} CountConcat<T>(p: seq<T>, q: seq<T>, f: T -> bool)
    ensures Count(p + q, f) == Count(p, f) + Count(q, f)
  {
    if p == [] {
      assert p + q == q;
    } else {
      assert (p + q)[1..] == p[1..] + q;
      CountConcat(p[1..], q, f);
    }
  }

  /** Counting by any predicate is invariant under permutation. */
  lemma {:induction false} CountPermutation<T>(a: seq<T>, b: seq<T>, f: T -> bool)
    requires multiset(a) == multiset(b)
    ensures Count(a, f) == Count(b, f)
  {
    if a == [] {
      assert |b| == |multiset(b)| == 0;
    } else {
      var x := a[0];
      assert x in multiset(b);
      var j :| 0 <= j < |b| && b[j] == x;
      var rest := b[..j] + b[j + 1..];
      MultisetRemove(b, j);
      assert a == [x] + a[1..];
      assert multiset(a[1..]) == multiset(a) - multiset{x};
      CountPermutation(a[1..], rest, f);
      CountRemove(b, j, f);
    }
  }

  /** Removing the element at `j` removes one occurrence of it from the multiset. */
  lemma MultisetRemove<T>(b: seq<T>, j: int)
    requires 0 <= j < |b|
    ensures multiset(b[..j] + b[j + 1..]) == multiset(b) - multiset{b[j]}
  {
    SplitAt(b, j);
  }

  /** A sequence is its part before `j`, its element at `j` and its part after `j`. */
  lemma SplitAt<T>(b: seq<T>, j: int)
    requires 0 <= j < |b|
    ensures b == (b[..j] + [b[j]]) + b[j + 1..]
  {
    assert b[j..] == [b[j]] + b[j + 1..];
    assert b == b[..j] + b[j..];
  }

  /** Removing the element at `j` lowers the count by one exactly when that element satisfies `f`. */
  lemma CountRemove<T>(b: seq<T>, j: int, f: T -> bool)
    requires 0 <= j < |b|
    ensures Count(b, f) == Count(b[..j] + b[j + 1..], f) + (if f(b[j]) then 1 else 0)
  {
    var p, x, q := b[..j], b[j], b[j + 1..];
    SplitAt(b, j);
    CountConcat(p + [x], q, f);
    CountConcat(p, [x], f);
    CountConcat(p, q, f);
    assert [x][1..] == [];
  }

  lemma {:induction false} CountNone<T>(s: seq<T>, f: T -> bool)
    requires forall i :: 0 <= i < |s| ==> !f(s[i])
    ensures Count(s, f) == 0
  {
    if s != [] {
      CountNone(s[1..], f);
    }
  }

  lemma {:induction false} CountAll<T>(s: seq<T>, f: T -> bool)
    requires forall i :: 0 <= i < |s| ==> f(s[i])
    ensures Count(s, f) == |s|
  {
    if s != [] {
      CountAll(s[1..], f);
    }
  }

  /** The count splits at any position. */
  lemma CountSplit<T>(s: seq<T>, k: int, f: T -> bool)
    requires 0 <= k <= |s|
    ensures Count(s, f) == Count(s[..k], f) + Count(s[k..], f)
  {
    assert s == s[..k] + s[k..];
    CountConcat(s[..k], s[k..], f);
  }

  /** When the first `k` elements all satisfy `f`, at least `k` do. */
  lemma CountFrontAll<T>(s: seq<T>, k: int, f: T -> bool)
    requires 0 <= k <= |s| && forall i :: 0 <= i < k ==> f(s[i])
    ensures Count(s, f) >= k
  {
    CountSplit(s, k, f);
    CountAll(s[..k], f);
  }

  /** When none of the first `k` elements satisfies `f`, at most the other `|s| - k` do. */
  lemma CountFrontNone<T>(s: seq<T>, k: int, f: T -> bool)
    requires 0 <= k <= |s| && forall i :: 0 <= i < k ==> !f(s[i])
    ensures Count(s, f) <= |s| - k
  {
    CountSplit(s, k, f);
    CountNone(s[..k], f);
  }

  /** When the elements from position `k` on all satisfy `f`, at least `|s| - k` do. */
  lemma CountBackAll<T>(s: seq<T>, k: int, f: T -> bool)
    requires 0 <= k <= |s| && forall i :: k <= i < |s| ==> f(s[i])
    ensures Count(s, f) >= |s| - k
  {
    CountSplit(s, k, f);
    CountAll(s[k..], f);
  }

  /** When none of the elements from position `k` on satisfies `f`, at most the first `k` do. */
  lemma CountBackNone<T>(s: seq<T>, k: int, f: T -> bool)
    requires 0 <= k <= |s| && forall i :: k <= i < |s| ==> !f(s[i])
    ensures Count(s, f) <= k
  {
    CountSplit(s, k, f);
    CountNone(s[k..], f);
  }

  /** A disjunction is counted at most once per element, and exactly the sum when the two never meet. */
  lemma {:induction false} CountOr<T>(s: seq<T>, f: T -> bool, g: T -> bool, h: T -> bool)
    requires forall i :: 0 <= i < |s| ==> (h(s[i]) <==> f(s[i]) || g(s[i]))
    ensures Count(s, h) <= Count(s, f) + Count(s, g)
    ensures (forall i :: 0 <= i < |s| ==> !(f(s[i]) && g(s[i]))) ==>
              Count(s, h) == Count(s, f) + Count(s, g)
  {
    if s != [] {
      CountOr(s[1..], f, g, h);
    }
  }

  /** Two equally long sequences whose positions agree under `f` and `g` have equal counts. */
  lemma {:induction false} CountCorrespond<T, U>(a: seq<T>, b: seq<U>, f: T -> bool, g: U -> bool)
    requires |a| == |b|
    requires forall i :: 0 <= i < |a| ==> (f(a[i]) <==> g(b[i]))
    ensures Count(a, f) == Count(b, g)
  {
    if a != [] {
      CountCorrespond(a[1..], b[1..], f, g);
    }
  }

  /** Pointwise implication between predicates gives ordered counts. */
  lemma {:induction false} CountMonotone<T>(s: seq<T>, f: T -> bool, g: T -> bool)
    requires forall i :: 0 <= i < |s| ==> (f(s[i]) ==> g(s[i]))
    ensures Count(s, f) <= Count(s, g)
  {
    if s != [] {
      CountMonotone(s[1..], f, g);
    }
  }

  /** In an ascending sequence, at most |s|-1-k elements lie strictly above s[k]; exactly that many when strictly ascending. */
  lemma CountAboveSorted(s: seq<real>, k: int, f: real -> bool)
    requires SortedAsc(s) && 0 <= k < |s|
    requires forall x :: f(x) <==> x > s[k]
    ensures Count(s, f) <= |s| - 1 - k
    ensures StrictlyAsc(s) ==> Count(s, f) == |s| - 1 - k
  {
    forall i | 0 <= i < k + 1 ensures !f(s[i]) {
      assert i == k || s[i] <= s[k];
    }
    CountFrontNone(s, k + 1, f);
    if StrictlyAsc(s) {
      CountBackAll(s, k + 1, f);
    }
  }

  /** In an ascending sequence, at most k elements lie strictly below s[k]; exactly k when strictly ascending. */
  lemma CountBelowSorted(s: seq<real>, k: int, f: real -> bool)
    requires SortedAsc(s) && 0 <= k < |s|
    requires forall x :: f(x) <==> x < s[k]
    ensures Count(s, f) <= k
    ensures StrictlyAsc(s) ==> Count(s, f) == k
  {
    forall i | k <= i < |s| ensures !f(s[i]) {
      assert i == k || s[k] <= s[i];
    }
    CountBackNone(s, k, f);
    if StrictlyAsc(s) {
      CountFrontAll(s, k, f);
    }
  }

  lemma TwoPositions<T>(s: seq<T>, i: int, j: int)
    requires 0 <= i < j < |s| && s[i] == s[j]
    ensures multiset(s)[s[i]] >= 2
  {
    assert s == s[..i] + [s[i]] + s[i + 1..j] + [s[j]] + s[j + 1..];
  }

  lemma {:induction false} DistinctMultiplicity<T>(s: seq<T>)
    requires Distinct(s)
    ensures forall x :: multiset(s)[x] <= 1
  {
    if s != [] {
      assert s == [s[0]] + s[1..];
      DistinctMultiplicity(s[1..]);
      assert s[0] !in s[1..];
    }
  }

  /** Distinctness is a property of the multiset of values. */
  lemma DistinctPermutation<T>(a: seq<T>, b: seq<T>)
    requires Distinct(a) && multiset(a) == multiset(b)
    ensures Distinct(b)
  {
    DistinctMultiplicity(a);
    forall i, j | 0 <= i < j < |b| ensures b[i] != b[j] {
      if b[i] == b[j] {
        TwoPositions(b, i, j);
        assert false;
      }
    }
  }

  /** Sorting distinct values gives a strictly ascending sequence. */
  lemma SortDistinct(s: seq<real>)
    requires Distinct(s)
    ensures StrictlyAsc(Sort(s))
  {
    var t := Sort(s);
    DistinctPermutation(s, t);
  }
}
