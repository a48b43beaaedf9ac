/** `Array.prototype.sort(compare)`, as the gallery uses it. ECMAScript
    requires the sort to be stable; for a comparator that is a total
    preorder the stable sorted permutation is unique, so it is described
    here by insertion sort: each element goes after every earlier element
    that is not greater than it. `le(a, b)` stands for `compare(a, b) <= 0`. */
module Sorting {

  ghost predicate Total<T(!new)>(le: (T, T) -> bool)
  {
    forall a, b :: le(a, b) || le(b, a)
  }

  ghost predicate Transitive<T(!new)>(le: (T, T) -> bool)
  {
    forall a, b, c :: le(a, b) && le(b, c) ==> le(a, c)
  }

  ghost predicate SortedBy<T>(s: seq<T>, le: (T, T) -> bool)
  {
    forall i, j | 0 <= i < j < |s| :: le(s[i], s[j])
  }

  /** Insert `x` after the last element of `s` that is not greater. */
  function Insert<T>(s: seq<T>, x: T, le: (T, T) -> bool): (r: seq<T>)
    ensures |r| == |s| + 1
  {
    if s == [] then [x]
    else if le(s[|s| - 1], x) then s + [x]
    else Insert(s[..|s| - 1], x, le) + [s[|s| - 1]]
  }

  /** The stable sort of `s`. */
  function InsertionSort<T>(s: seq<T>, le: (T, T) -> bool): (r: seq<T>)
    ensures |r| == |s|
  {
    if s == [] then []
    else Insert(InsertionSort(s[..|s| - 1], le), s[|s| - 1], le)
  }

  lemma {:induction false} InsertPermutes<T>(s: seq<T>, x: T, le: (T, T) -> bool)
    ensures multiset(Insert(s, x, le)) == multiset(s) + multiset{x}
  {
    if s != [] && !le(s[|s| - 1], x) {
      var init := s[..|s| - 1];
      InsertPermutes(init, x, le);
      assert s == init + [s[|s| - 1]];
    }
  }

  /** The sort's result is a permutation of its input. */
  lemma {:induction false} InsertionSortPermutes<T>(s: seq<T>, le: (T, T) -> bool)
    ensures multiset(InsertionSort(s, le)) == multiset(s)
  {
    if s != [] {
      var init := s[..|s| - 1];
      InsertionSortPermutes(init, le);
      InsertPermutes(InsertionSort(init, le), s[|s| - 1], le);
      assert s == init + [s[|s| - 1]];
    }
  }

  lemma {:induction false} InsertSorted<T(!new)>(s: seq<T>, x: T, le: (T, T) -> bool)
    requires Total(le) && Transitive(le)
    requires SortedBy(s, le)
    ensures SortedBy(Insert(s, x, le), le)
  {
    if s != [] && !le(s[|s| - 1], x) {
      var init := s[..|s| - 1];
      var last := s[|s| - 1];
      assert SortedBy(init, le);
      InsertSorted(init, x, le);
      InsertPermutes(init, x, le);
      var r := Insert(init, x, le);
      assert le(x, last);
      forall k | 0 <= k < |r|
        ensures le(r[k], last)
      {
        assert r[k] in multiset(r);
        if r[k] != x {
          assert r[k] in multiset(init);
          assert r[k] in init;
          var m :| 0 <= m < |init| && init[m] == r[k];
          assert s[m] == init[m];
        }
      }
    }
  }

  /** The sort's result is sorted. */
  lemma {:induction false} InsertionSortSorted<T(!new)>(s: seq<T>, le: (T, T) -> bool)
    requires Total(le) && Transitive(le)
    ensures SortedBy(InsertionSort(s, le), le)
  {
    if s != [] {
      InsertionSortSorted(s[..|s| - 1], le);
      InsertSorted(InsertionSort(s[..|s| - 1], le), s[|s| - 1], le);
    }
  }

  /** Inserting `x` where every element from `k` on is greater leaves that
      tail behind `x`. */
  lemma {:induction false} InsertPastTail<T>(s: seq<T>, k: nat, x: T, le: (T, T) -> bool)
    requires k <= |s|
    requires forall m | k <= m < |s| :: !le(s[m], x)
    ensures Insert(s, x, le) == Insert(s[..k], x, le) + s[k..]
    decreases |s| - k
  {
    if k < |s| {
      var init := s[..|s| - 1];
      assert init[..k] == s[..k];
      InsertPastTail(init, k, x, le);
      assert s[k..] == init[k..] + [s[|s| - 1]];
    } else {
      assert s[..k] == s;
    }
  }

  /** One insertion step: `a[i]` moves left past the greater elements of
      the sorted prefix `a[..i]`. */
  method InsertInto<T>(a: array<T>, i: nat, le: (T, T) -> bool)
    requires i < a.Length
    modifies a
    ensures a[..i + 1] == Insert(old(a[..i]), old(a[i]), le)
    ensures a[i + 1..] == old(a[i + 1..])
  {
    ghost var sorted := a[..i];
    ghost var rest := a[i + 1..];
    var x := a[i];
    var j := i;
    while j > 0 && !le(a[j - 1], x)
      invariant 0 <= j <= i
      invariant forall k | 0 <= k < j :: a[k] == sorted[k]
      invariant forall k | j < k <= i :: a[k] == sorted[k - 1]
      invariant forall k | i < k < a.Length :: a[k] == rest[k - i - 1]
      invariant forall m | j <= m < i :: !le(sorted[m], x)
    {
      a[j] := a[j - 1];
      j := j - 1;
    }
    a[j] := x;
    InsertedAt(a[..], sorted, rest, j, x, le);
  }

  /** The array after the shifting loop, read as a sequence. */
  lemma {:induction false} InsertedAt<T>(b: seq<T>, sorted: seq<T>, rest: seq<T>, j: nat, x: T,
                                         le: (T, T) -> bool)
    requires j <= |sorted| && |b| == |sorted| + 1 + |rest|
    requires forall k | 0 <= k < j :: b[k] == sorted[k]
    requires b[j] == x
    requires forall k | j < k <= |sorted| :: b[k] == sorted[k - 1]
    requires forall k | |sorted| < k < |b| :: b[k] == rest[k - |sorted| - 1]
    requires j == 0 || le(sorted[j - 1], x)
    requires forall m | j <= m < |sorted| :: !le(sorted[m], x)
    ensures b[..|sorted| + 1] == Insert(sorted, x, le)
    ensures b[|sorted| + 1..] == rest
  {
    InsertPastTail(sorted, j, x, le);
    assert Insert(sorted[..j], x, le) == sorted[..j] + [x];
    assert b[..|sorted| + 1] == sorted[..j] + [x] + sorted[j..];
  }

  lemma {:induction false} InsertionSortStep<T>(s: seq<T>, i: nat, le: (T, T) -> bool)
    requires i < |s|
    ensures InsertionSort(s[..i + 1], le) == Insert(InsertionSort(s[..i], le), s[i], le)
  {
    assert s[..i + 1][..i] == s[..i];
  }

  /** `a.sort(compare)`: insertion sort in place. */
  method SortInPlace<T>(a: array<T>, le: (T, T) -> bool)
    modifies a
    ensures a[..] == InsertionSort(old(a[..]), le)
  {
    ghost var input := a[..];
    for i := 0 to a.Length
      invariant a[..i] == InsertionSort(input[..i], le)
      invariant a[i..] == input[i..]
    {
      InsertInto(a, i, le);
      InsertionSortStep(input, i, le);
    }
    assert input[..a.Length] == input;
  }
}
