/** Stable sorting by a comparator, the way `List.sort` and `Stream.sorted`
    order a list: the result is a permutation of the input, ordered by the
    comparator, and elements the comparator calls equal keep their input
    order. The comparator is given as its strict part `less`. */
module Sorting {

  /** `less` is irreflexive and negatively transitive, which is what a
      consistent Java `Comparator` gives: `compare(a, b) < 0` is a strict weak
      order. */
  ghost predicate IsStrictWeakOrder<T(!new)>(less: (T, T) -> bool) {
    && (forall a :: !less(a, a))
    && (forall a, b, c :: less(a, b) && less(b, c) ==> less(a, c))
    && (forall a, b, c :: less(a, c) && !less(a, b) ==> less(b, c))
  }

  /** Neither is before the other: the comparator returns 0. */
  predicate Equiv<T>(less: (T, T) -> bool, a: T, b: T) {
    !less(a, b) && !less(b, a)
  }

  /** No element is strictly before an earlier one. */
  predicate Sorted<T>(s: seq<T>, less: (T, T) -> bool) {
    forall i, j :: 0 <= i < j < |s| ==> !less(s[j], s[i])
  }

  /** The elements of `s` equivalent to `x`, in their order in `s`. */
  function Class<T>(s: seq<T>, less: (T, T) -> bool, x: T): (r: seq<T>)
    ensures |r| <= |s|
    decreases |s|
  {
    if |s| == 0 then []
    else (if Equiv(less, x, s[0]) then [s[0]] else []) + Class(s[1..], less, x)
  }

  /** Inserts `x` after every element that is not strictly after it. */
  function Insert<T>(x: T, s: seq<T>, less: (T, T) -> bool): (r: seq<T>)
    ensures |r| == |s| + 1
    decreases |s|
  {
    if |s| == 0 then [x]
    else if less(x, s[0]) then [x] + s
    else [s[0]] + Insert(x, s[1..], less)
  }

  /** Insertion sort, adding the input's elements from first to last. */
  function Sort<T>(s: seq<T>, less: (T, T) -> bool): (r: seq<T>)
    ensures |r| == |s|
    decreases |s|
  {
    if |s| == 0 then [] else Insert(s[|s| - 1], Sort(s[..|s| - 1], less), less)
  }

  lemma {:induction false} InsertPermutes<T>(x: T, s: seq<T>, less: (T, T) -> bool)
    ensures multiset(Insert(x, s, less)) == multiset(s) + multiset{x}
    decreases |s|
  {
    if |s| > 0 && !less(x, s[0]) {
      InsertPermutes(x, s[1..], less);
      assert s == [s[0]] + s[1..];
    }
  }

  /** The result holds exactly the input's elements, with their multiplicities. */
  lemma {:induction false} SortPermutes<T>(s: seq<T>, less: (T, T) -> bool)
    ensures multiset(Sort(s, less)) == multiset(s)
    decreases |s|
  {
    if |s| > 0 {
      var n := |s| - 1;
      SortPermutes(s[..n], less);
      InsertPermutes(s[n], Sort(s[..n], less), less);
      assert s == s[..n] + [s[n]];
    }
  }

  /** In a sorted sequence, an element strictly before the head is strictly
      before every element. */
  lemma BeforeHeadBeforeAll<T(!new)>(x: T, s: seq<T>, less: (T, T) -> bool, k: nat)
    requires IsStrictWeakOrder(less)
    requires Sorted(s, less)
    requires |s| > 0 && less(x, s[0]) && k < |s|
    ensures less(x, s[k])
  {
    if k > 0 {
      assert !less(s[k], s[0]);
    }
  }

  lemma {:induction false} InsertSorted<T(!new)>(x: T, s: seq<T>, less: (T, T) -> bool)
    requires IsStrictWeakOrder(less)
    requires Sorted(s, less)
    ensures Sorted(Insert(x, s, less), less)
    decreases |s|
  {
    if |s| > 0 {
      if less(x, s[0]) {
        var r := Insert(x, s, less);
        forall i, j | 0 <= i < j < |r|
          ensures !less(r[j], r[i])
        {
          if i == 0 {
            BeforeHeadBeforeAll(x, s, less, j - 1);
          } else {
            assert r[i] == s[i - 1] && r[j] == s[j - 1];
          }
        }
      } else {
        InsertSorted(x, s[1..], less);
        var r := Insert(x, s, less);
        var t := Insert(x, s[1..], less);
        assert r == [s[0]] + t;
        InsertPermutes(x, s[1..], less);
        forall j | 1 <= j < |r|
          ensures !less(r[j], s[0])
        {
          assert r[j] in multiset(t);
          assert r[j] == x || r[j] in multiset(s[1..]);
          if r[j] != x {
            var k :| 0 <= k < |s[1..]| && s[1..][k] == r[j];
            assert s[k + 1] == r[j];
          }
        }
      }
    }
  }

  /** The result is ordered by the comparator. */
  lemma {:induction false} SortSorted<T(!new)>(s: seq<T>, less: (T, T) -> bool)
    requires IsStrictWeakOrder(less)
    ensures Sorted(Sort(s, less), less)
    decreases |s|
  {
    if |s| > 0 {
      SortSorted(s[..|s| - 1], less);
      InsertSorted(s[|s| - 1], Sort(s[..|s| - 1], less), less);
    }
  }

  lemma {:induction false} ClassAppend<T>(s: seq<T>, y: T, less: (T, T) -> bool, x: T)
    ensures Class(s + [y], less, x) == Class(s, less, x) + (if Equiv(less, x, y) then [y] else [])
    decreases |s|
  {
    if |s| > 0 {
      assert (s + [y])[1..] == s[1..] + [y];
      ClassAppend(s[1..], y, less, x);
    }
  }

  /** Nothing in a sorted sequence whose head is strictly after `y` is
      equivalent to anything equivalent to `y`. */
  lemma {:induction false} ClassEmptyAfter<T(!new)>(s: seq<T>, y: T, less: (T, T) -> bool, x: T)
    requires IsStrictWeakOrder(less)
    requires Sorted(s, less)
    requires |s| > 0 && less(y, s[0])
    requires Equiv(less, x, y)
    ensures Class(s, less, x) == []
    decreases |s|
  {
    BeforeHeadBeforeAll(y, s, less, 0);
    assert less(x, s[0]);
    if |s| > 1 {
      BeforeHeadBeforeAll(y, s, less, 1);
      ClassEmptyAfter(s[1..], y, less, x);
    }
  }

  /** Dropping the head of a sorted sequence leaves it sorted. */
  lemma SortedTail<T>(s: seq<T>, less: (T, T) -> bool)
    requires Sorted(s, less) && |s| > 0
    ensures Sorted(s[1..], less)
  {
    forall i, j | 0 <= i < j < |s| - 1
      ensures !less(s[1..][j], s[1..][i])
    {
      assert s[1..][j] == s[j + 1] && s[1..][i] == s[i + 1];
    }
  }

  /** `y` goes in front when it is strictly before the head, and then nothing
      after it is equivalent to it. */
  lemma InsertClassFront<T(!new)>(y: T, s: seq<T>, less: (T, T) -> bool, x: T)
    requires IsStrictWeakOrder(less)
    requires Sorted(s, less)
    requires |s| > 0 && less(y, s[0])
    ensures Class(Insert(y, s, less), less, x) == Class(s, less, x) + (if Equiv(less, x, y) then [y] else [])
  {
    var r := Insert(y, s, less);
    var tail := if Equiv(less, x, y) then [y] else [];
    assert r == [y] + s && r[0] == y && r[1..] == s;
    assert Class(r, less, x) == tail + Class(s, less, x);
    if Equiv(less, x, y) {
      ClassEmptyAfter(s, y, less, x);
    }
  }

  /** Inserting `y` puts it after every element equivalent to it. */
  lemma {:induction false} InsertClass<T(!new)>(y: T, s: seq<T>, less: (T, T) -> bool, x: T)
    requires IsStrictWeakOrder(less)
    requires Sorted(s, less)
    ensures Class(Insert(y, s, less), less, x) == Class(s, less, x) + (if Equiv(less, x, y) then [y] else [])
    decreases |s|
  {
    var tail := if Equiv(less, x, y) then [y] else [];
    if |s| == 0 {
      assert Insert(y, s, less) == [y];
      assert Class([y], less, x) == tail + Class([], less, x);
    } else if less(y, s[0]) {
      InsertClassFront(y, s, less, x);
    } else {
      var r := Insert(y, s, less);
      var t := Insert(y, s[1..], less);
      var head := if Equiv(less, x, s[0]) then [s[0]] else [];
      assert r == [s[0]] + t && r[0] == s[0] && r[1..] == t;
      assert Class(r, less, x) == head + Class(t, less, x);
      SortedTail(s, less);
      InsertClass(y, s[1..], less, x);
      assert Class(s, less, x) == head + Class(s[1..], less, x);
    }
  }

  /** Stability: the elements of each equivalence class appear in the
      result in their input order. */
  lemma {:induction false} SortStable<T(!new)>(s: seq<T>, less: (T, T) -> bool, x: T)
    requires IsStrictWeakOrder(less)
    ensures Class(Sort(s, less), less, x) == Class(s, less, x)
    decreases |s|
  {
    if |s| > 0 {
      var n := |s| - 1;
      SortStable(s[..n], less, x);
      SortSorted(s[..n], less);
      InsertClass(s[n], Sort(s[..n], less), less, x);
      assert s == s[..n] + [s[n]];
      ClassAppend(s[..n], s[n], less, x);
    }
  }

  /** Keeping the first `k` elements keeps a prefix of each equivalence
      class. */
  lemma {:induction false} ClassPrefix<T>(s: seq<T>, k: nat, less: (T, T) -> bool, x: T)
    requires k <= |s|
    ensures Class(s[..k], less, x) <= Class(s, less, x)
    decreases |s|
  {
    if k > 0 {
      assert s[..k][1..] == s[1..][..k - 1];
      ClassPrefix(s[1..], k - 1, less, x);
    }
  }

  /** Cutting a sorted sequence after `n` elements keeps a sorted part, drawn
      from the whole, that nothing in the cut-off part precedes. */
  lemma TruncatedSorted<T>(s: seq<T>, n: nat, less: (T, T) -> bool)
    requires Sorted(s, less)
    requires n <= |s|
    ensures Sorted(s[..n], less)
    ensures multiset(s[..n]) <= multiset(s)
    ensures forall a, b :: a in s[..n] && b in multiset(s) - multiset(s[..n]) ==> !less(b, a)
  {
    assert s == s[..n] + s[n..];
    assert multiset(s) == multiset(s[..n]) + multiset(s[n..]);
    forall a, b | a in s[..n] && b in multiset(s) - multiset(s[..n])
      ensures !less(b, a)
    {
      assert b in s[n..];
      var i :| 0 <= i < n && s[..n][i] == a;
      var j :| 0 <= j < |s| - n && s[n..][j] == b;
      assert s[i] == a && s[n + j] == b;
    }
  }

  /** The first `n` of the sorted sequence: sorted, drawn from the input,
      outranked by nothing left out, and stable within each class. */
  lemma SortTruncated<T(!new)>(p: seq<T>, n: nat, less: (T, T) -> bool, x: T)
    requires IsStrictWeakOrder(less)
    requires n <= |p|
    ensures |Sort(p, less)[..n]| == n
    ensures Sorted(Sort(p, less)[..n], less)
    ensures multiset(Sort(p, less)[..n]) <= multiset(p)
    ensures forall a, b :: a in Sort(p, less)[..n] && b in multiset(p) - multiset(Sort(p, less)[..n]) ==> !less(b, a)
    ensures Class(Sort(p, less)[..n], less, x) <= Class(p, less, x)
  {
    var s := Sort(p, less);
    SortPermutes(p, less);
    SortSorted(p, less);
    SortStable(p, less, x);
    ClassPrefix(s, n, less, x);
    TruncatedSorted(s, n, less);
  }
}
