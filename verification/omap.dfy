/** An insertion-ordered map, the shape of a Python `dict` and of Java's
    `LinkedHashMap`: keys keep the position of their first insertion, and
    writing to an existing key replaces its value in place. */
module OrderedMap {

  import opened Wrappers

  type OMap<K, V> = seq<(K, V)>

  predicate UniqueKeys<K(==), V>(m: OMap<K, V>) {
    forall i, j :: 0 <= i < j < |m| ==> m[i].0 != m[j].0
  }

  function Keys<K, V>(m: OMap<K, V>): (ks: seq<K>)
    ensures |ks| == |m|
    ensures forall i :: 0 <= i < |m| ==> ks[i] == m[i].0
  {
    seq(|m|, i requires 0 <= i < |m| => m[i].0)
  }

  predicate HasKey<K(==), V>(m: OMap<K, V>, k: K) {
    exists i :: 0 <= i < |m| && m[i].0 == k
  }

  /** `m.get(k)`: the value stored under the first entry with key `k`. */
  function Get<K(==), V(==)>(m: OMap<K, V>, k: K): (r: Option<V>)
    ensures r.None? <==> !HasKey(m, k)
    ensures r.Some? ==> exists i :: 0 <= i < |m| && m[i] == (k, r.value)
    decreases |m|
  {
    if |m| == 0 then None
    else if m[0].0 == k then Some(m[0].1)
    else
      var r := Get(m[1..], k);
      assert HasKey(m, k) ==> HasKey(m[1..], k) by {
        if HasKey(m, k) {
          var i :| 0 <= i < |m| && m[i].0 == k;
          assert m[1..][i - 1].0 == k;
        }
      }
      assert r.Some? ==> exists i :: 0 <= i < |m| && m[i] == (k, r.value) by {
        if r.Some? {
          var i :| 0 <= i < |m[1..]| && m[1..][i] == (k, r.value);
          assert m[i + 1] == (k, r.value);
        }
      }
      r
  }

  /** With unique keys, the value at a position is the value `Get` finds. */
  lemma {:induction false} GetAt<K, V>(m: OMap<K, V>, i: nat)
    requires UniqueKeys(m)
    requires i < |m|
    ensures Get(m, m[i].0) == Some(m[i].1)
    decreases i
  {
    if i > 0 {
      assert m[0].0 != m[i].0;
      assert m[1..][i - 1] == m[i];
      GetAt(m[1..], i - 1);
    }
  }

  /** `m[k] = v`: replaces the value of an existing key in place, or appends a
      new entry at the end. */
  function Put<K(==), V(==)>(m: OMap<K, V>, k: K, v: V): (r: OMap<K, V>)
    ensures HasKey(m, k) ==> |r| == |m|
    ensures !HasKey(m, k) ==> r == m + [(k, v)]
    ensures forall i :: 0 <= i < |m| ==> r[i].0 == m[i].0
    ensures forall i :: 0 <= i < |m| && m[i].0 != k ==> r[i] == m[i]
    decreases |m|
  {
    if |m| == 0 then [(k, v)]
    else if m[0].0 == k then [(k, v)] + m[1..]
    else
      assert HasKey(m, k) <==> HasKey(m[1..], k) by {
        if HasKey(m, k) {
          var i :| 0 <= i < |m| && m[i].0 == k;
          assert m[1..][i - 1].0 == k;
        }
        if HasKey(m[1..], k) {
          var i :| 0 <= i < |m[1..]| && m[1..][i].0 == k;
          assert m[i + 1].0 == k;
        }
      }
      [m[0]] + Put(m[1..], k, v)
  }

  /** Writing keeps keys unique and keeps the order of existing keys, adding
      a new key at the end. */
  lemma PutKeys<K, V>(m: OMap<K, V>, k: K, v: V)
    requires UniqueKeys(m)
    ensures UniqueKeys(Put(m, k, v))
    ensures Keys(Put(m, k, v)) == if HasKey(m, k) then Keys(m) else Keys(m) + [k]
  {
  }

  /** After writing, `k` reads back `v`. */
  lemma PutGetSame<K, V>(m: OMap<K, V>, k: K, v: V)
    requires UniqueKeys(m)
    ensures Get(Put(m, k, v), k) == Some(v)
  {
    var r := Put(m, k, v);
    PutKeys(m, k, v);
    if HasKey(m, k) {
      var i :| 0 <= i < |m| && m[i].0 == k;
      PutAt(m, k, v, i);
      GetAt(r, i);
    } else {
      GetAt(r, |m|);
    }
  }

  /** Writing `k` leaves every other key's value alone. */
  lemma PutGetOther<K, V>(m: OMap<K, V>, k: K, v: V, k': K)
    requires UniqueKeys(m)
    requires k' != k
    ensures Get(Put(m, k, v), k') == Get(m, k')
  {
    var r := Put(m, k, v);
    PutKeys(m, k, v);
    if HasKey(m, k') {
      var j :| 0 <= j < |m| && m[j].0 == k';
      GetAt(m, j);
      GetAt(r, j);
    } else {
      assert !HasKey(r, k');
    }
  }

  lemma {:induction false} PutAt<K, V>(m: OMap<K, V>, k: K, v: V, i: nat)
    requires UniqueKeys(m)
    requires i < |m| && m[i].0 == k
    ensures Put(m, k, v)[i] == (k, v)
    decreases i
  {
    if i > 0 {
      assert m[0].0 != k;
      assert m[1..][i - 1] == m[i];
      PutAt(m[1..], k, v, i - 1);
    }
  }

  /** Each entry after a write is either untouched or the written one. */
  lemma PutEntry<K, V>(m: OMap<K, V>, k: K, v: V, i: nat)
    requires UniqueKeys(m)
    requires i < |Put(m, k, v)|
    ensures Put(m, k, v)[i] == if i < |m| && m[i].0 != k then m[i] else (k, v)
  {
    if i < |m| && m[i].0 == k {
      PutAt(m, k, v, i);
    } else if i >= |m| {
      assert !HasKey(m, k);
    }
  }

  /** `m.computeIfAbsent(k, new ArrayList()).add(x)` (and Python's
      `setdefault(k, []).append(x)`): appends `x` to the list kept under `k`. */
  function AppendTo<K(==), X(==)>(m: OMap<K, seq<X>>, k: K, x: X): (r: OMap<K, seq<X>>)
  {
    match Get(m, k)
    case Some(xs) => Put(m, k, xs + [x])
    case None => Put(m, k, [x])
  }

  lemma AppendToIsPut<K, X>(m: OMap<K, seq<X>>, k: K, x: X)
    ensures AppendTo(m, k, x) == Put(m, k, Get(m, k).GetOr([]) + [x])
  {
    if Get(m, k).None? {
      assert Get(m, k).GetOr([]) + [x] == [x];
    }
  }

  lemma HasKeyInKeys<K, V>(m: OMap<K, V>, k: K)
    ensures HasKey(m, k) <==> k in Keys(m)
  {
    if k in Keys(m) {
      var i :| 0 <= i < |m| && Keys(m)[i] == k;
      assert m[i].0 == k;
    }
  }

  // ---------------------------------------------------------------------------
  // Insertion-ordered sets and grouping
  // ---------------------------------------------------------------------------

  predicate Distinct<T(==)>(xs: seq<T>) {
    forall i, j :: 0 <= i < j < |xs| ==> xs[i] != xs[j]
  }

  /** The position of the first `x` in `xs`. */
  function FirstIndex<T(==)>(xs: seq<T>, x: T): (i: nat)
    requires x in xs
    ensures i < |xs| && xs[i] == x
    ensures forall j :: 0 <= j < i ==> xs[j] != x
    decreases |xs|
  {
    if xs[0] == x then 0 else 1 + FirstIndex(xs[1..], x)
  }

  /** Extending a sequence leaves the first position of an element it
      already holds unchanged. */
  lemma FirstIndexExtend<T>(xs: seq<T>, ys: seq<T>, x: T)
    requires x in xs
    ensures FirstIndex(xs + ys, x) == FirstIndex(xs, x)
  {
    var i := FirstIndex(xs, x);
    var k := FirstIndex(xs + ys, x);
    assert (xs + ys)[i] == x;
  }

  /** What a `LinkedHashSet` holds after adding the elements of `xs` in
      order: each distinct element once, where it first occurred. */
  function Dedup<T(==)>(xs: seq<T>): (r: seq<T>)
    ensures forall i :: 0 <= i < |r| ==> r[i] in xs
    ensures forall i :: 0 <= i < |xs| ==> xs[i] in r
    ensures Distinct(r)
    ensures |r| <= |xs|
    decreases |xs|
  {
    if |xs| == 0 then []
    else
      var n := |xs| - 1;
      var d := Dedup(xs[..n]);
      assert xs == xs[..n] + [xs[n]];
      if xs[n] in d then d else d + [xs[n]]
  }

  /** Elements come out in the order of their first occurrence. */
  lemma {:induction false} DedupFirstOccurrence<T>(xs: seq<T>)
    ensures forall i, j :: 0 <= i < j < |Dedup(xs)| ==>
              FirstIndex(xs, Dedup(xs)[i]) < FirstIndex(xs, Dedup(xs)[j])
    decreases |xs|
  {
    if |xs| > 0 {
      var n := |xs| - 1;
      var p := xs[..n];
      var d := Dedup(p);
      assert xs == p + [xs[n]];
      assert Dedup(xs) == if xs[n] in d then d else d + [xs[n]];
      DedupFirstOccurrence(p);
      FirstOrderExtend(p, d, xs[n]);
    }
  }

  /** Appending `x` to `p` keeps the first-occurrence order of elements of
      `p`, and a new `x` comes after all of them. */
  lemma FirstOrderExtend<T>(p: seq<T>, d: seq<T>, x: T)
    requires forall i :: 0 <= i < |d| ==> d[i] in p
    requires forall i, j :: 0 <= i < j < |d| ==> FirstIndex(p, d[i]) < FirstIndex(p, d[j])
    ensures forall i, j :: 0 <= i < j < |d| ==> FirstIndex(p + [x], d[i]) < FirstIndex(p + [x], d[j])
    ensures x !in p ==>
              forall i, j :: 0 <= i < j < |d| + 1 ==>
                FirstIndex(p + [x], (d + [x])[i]) < FirstIndex(p + [x], (d + [x])[j])
  {
    forall i | 0 <= i < |d|
      ensures FirstIndex(p + [x], d[i]) == FirstIndex(p, d[i])
    {
      FirstIndexExtend(p, [x], d[i]);
    }
    if x !in p {
      var r := d + [x];
      assert FirstIndex(p + [x], x) == |p|;
      forall i, j | 0 <= i < j < |r|
        ensures FirstIndex(p + [x], r[i]) < FirstIndex(p + [x], r[j])
      {
        assert r[i] == d[i];
        if j < |d| {
          assert r[j] == d[j];
        }
      }
    }
  }

  /** The values paired with `k`, in order. */
  function ValuesFor<K(==), X>(pairs: seq<(K, X)>, k: K): (r: seq<X>)
    ensures |r| <= |pairs|
    decreases |pairs|
  {
    if |pairs| == 0 then []
    else
      var n := |pairs| - 1;
      ValuesFor(pairs[..n], k) + (if pairs[n].0 == k then [pairs[n].1] else [])
  }

  /** One more pair adds its value to its key's list. */
  lemma ValuesForSnoc<K, X>(pairs: seq<(K, X)>, pair: (K, X), k: K)
    ensures ValuesFor(pairs + [pair], k) == ValuesFor(pairs, k) + (if pair.0 == k then [pair.1] else [])
  {
    var q := pairs + [pair];
    assert q[..|q| - 1] == pairs && q[|q| - 1] == pair;
  }

  lemma {:induction false} ValuesForEmpty<K, X>(pairs: seq<(K, X)>, k: K)
    ensures ValuesFor(pairs, k) == [] <==> k !in Keys(pairs)
    decreases |pairs|
  {
    if |pairs| > 0 {
      var n := |pairs| - 1;
      assert Keys(pairs) == Keys(pairs[..n]) + [pairs[n].0];
      ValuesForEmpty(pairs[..n], k);
    }
  }

  /** `computeIfAbsent(k, new ArrayList()).add(x)` for every pair in order
      (and Python's `setdefault(k, []).append(x)`). */
  function GroupPairs<K(==), X(==)>(pairs: seq<(K, X)>): (m: OMap<K, seq<X>>)
    decreases |pairs|
  {
    if |pairs| == 0 then []
    else
      var n := |pairs| - 1;
      AppendTo(GroupPairs(pairs[..n]), pairs[n].0, pairs[n].1)
  }

  /** Appending to a key's list keeps keys unique and adds a new key at the
      end. */
  lemma AppendToKeys<K, X>(m: OMap<K, seq<X>>, k: K, x: X)
    requires UniqueKeys(m)
    ensures UniqueKeys(AppendTo(m, k, x))
    ensures Keys(AppendTo(m, k, x)) == if k in Keys(m) then Keys(m) else Keys(m) + [k]
  {
    AppendToIsPut(m, k, x);
    PutKeys(m, k, Get(m, k).GetOr([]) + [x]);
    HasKeyInKeys(m, k);
  }

  /** Appending to a key's list extends that list and no other. */
  lemma AppendToGet<K, X>(m: OMap<K, seq<X>>, k: K, x: X, k': K)
    requires UniqueKeys(m)
    ensures Get(AppendTo(m, k, x), k') == if k' == k then Some(Get(m, k).GetOr([]) + [x]) else Get(m, k')
  {
    AppendToIsPut(m, k, x);
    if k' == k {
      PutGetSame(m, k, Get(m, k).GetOr([]) + [x]);
    } else {
      PutGetOther(m, k, Get(m, k).GetOr([]) + [x], k');
    }
  }

  /** The groups: one per distinct key, in the order keys first appear. */
  lemma {:induction false} GroupPairsKeys<K, X>(pairs: seq<(K, X)>)
    ensures UniqueKeys(GroupPairs(pairs))
    ensures Keys(GroupPairs(pairs)) == Dedup(Keys(pairs))
    decreases |pairs|
  {
    if |pairs| > 0 {
      var n := |pairs| - 1;
      var p := pairs[..n];
      GroupPairsKeys(p);
      assert Keys(pairs)[..n] == Keys(p);
      AppendToKeys(GroupPairs(p), pairs[n].0, pairs[n].1);
    }
  }

  /** Each group holds its key's values in order; a key that never occurs
      has no group. */
  lemma {:induction false} GroupPairsGet<K, X>(pairs: seq<(K, X)>, k: K)
    ensures Get(GroupPairs(pairs), k) == if k in Keys(pairs) then Some(ValuesFor(pairs, k)) else None
    decreases |pairs|
  {
    if |pairs| == 0 {
      assert GroupPairs(pairs) == [];
      assert !HasKey(GroupPairs(pairs), k);
    } else {
      var n := |pairs| - 1;
      var p := pairs[..n];
      GroupPairsKeys(p);
      var m := GroupPairs(p);
      var k0 := pairs[n].0;
      var x0 := pairs[n].1;
      var g := GroupPairs(pairs);
      assert g == AppendTo(m, k0, x0);
      KeysSnoc(pairs);
      AppendToGet(m, k0, x0, k);
      GroupPairsGet(p, k);
      if k == k0 {
        ValuesForEmpty(p, k);
        assert Get(m, k).GetOr([]) == ValuesFor(p, k);
        assert ValuesFor(pairs, k) == ValuesFor(p, k) + [x0];
        assert Keys(pairs)[n] == k;
      } else {
        assert ValuesFor(pairs, k) == ValuesFor(p, k);
        assert k in Keys(pairs) <==> k in Keys(p);
      }
    }
  }

  lemma KeysSnoc<K, V>(m: OMap<K, V>)
    requires |m| > 0
    ensures Keys(m) == Keys(m[..|m| - 1]) + [m[|m| - 1].0]
  {
  }

  /** The number of values over all groups. */
  function TotalLength<K, X>(m: OMap<K, seq<X>>): nat
    decreases |m|
  {
    if |m| == 0 then 0 else |m[0].1| + TotalLength(m[1..])
  }

  lemma {:induction false} TotalLengthPut<K, X>(m: OMap<K, seq<X>>, k: K, v: seq<X>)
    ensures TotalLength(Put(m, k, v)) + |Get(m, k).GetOr([])| == TotalLength(m) + |v|
    decreases |m|
  {
    if |m| > 0 && m[0].0 != k {
      assert Put(m, k, v)[1..] == Put(m[1..], k, v);
      TotalLengthPut(m[1..], k, v);
    } else if |m| > 0 {
      assert Put(m, k, v)[1..] == m[1..];
    }
  }

  /** Grouping loses and duplicates nothing: the groups hold as many values
      as there were pairs. */
  lemma {:induction false} GroupPairsTotal<K, X>(pairs: seq<(K, X)>)
    ensures TotalLength(GroupPairs(pairs)) == |pairs|
    decreases |pairs|
  {
    if |pairs| > 0 {
      var n := |pairs| - 1;
      var m := GroupPairs(pairs[..n]);
      GroupPairsTotal(pairs[..n]);
      AppendToIsPut(m, pairs[n].0, pairs[n].1);
      TotalLengthPut(m, pairs[n].0, Get(m, pairs[n].0).GetOr([]) + [pairs[n].1]);
    }
  }
}
