/** A stable sort (JavaScript `Array.prototype.sort` and Python `list.sort` are both
    stable) that orders a sequence by a comparison `le`, where `le(a, b)` means "a may come
    before b". Ties keep their original order. */
module Seqs {
  import opened Wrappers

  /** `le` orders every pair and is transitive, as the comparators of the modelled code
      are (a numeric difference or a lexicographic tuple comparison). */
  ghost predicate IsTotalPreorder<T(!new)>(le: (T, T) -> bool) {
    (forall a, b :: le(a, b) || le(b, a))
    && (forall a, b, c :: le(a, b) && le(b, c) ==> le(a, c))
  }

  predicate Sorted<T>(s: seq<T>, le: (T, T) -> bool) {
    forall i, j | 0 <= i < j < |s| :: le(s[i], s[j])
  }

  /** Places `x` in front of the first element it may precede. */
  function Insert<T>(x: T, s: seq<T>, le: (T, T) -> bool): (r: seq<T>)
    ensures multiset(r) == multiset(s) + multiset{x}
    ensures |r| == |s| + 1
  {
    if s == [] then [x]
    else if le(x, s[0]) then [x] + s
    else
      assert s == [s[0]] + s[1..];
      [s[0]] + Insert(x, s[1..], le)
  }

  /** The sorted arrangement of `s`; a permutation of it. */
  function Sort<T>(s: seq<T>, le: (T, T) -> bool): (r: seq<T>)
    ensures multiset(r) == multiset(s)
    ensures |r| == |s|
  {
    if s == [] then []
    else
      assert s == [s[0]] + s[1..];
      Insert(s[0], Sort(s[1..], le), le)
  }

  /** `y` may precede every element of `s`. */
  predicate Below<T>(y: T, s: seq<T>, le: (T, T) -> bool) {
    forall i | 0 <= i < |s| :: le(y, s[i])
  }

  lemma {:induction false} InsertBelow<T>(x: T, s: seq<T>, le: (T, T) -> bool, y: T)
    requires le(y, x) && Below(y, s, le)
    ensures Below(y, Insert(x, s, le), le)
    decreases |s|
  {
    var r := Insert(x, s, le);
    if s == [] {
    } else if le(x, s[0]) {
      forall i | 0 <= i < |r| ensures le(y, r[i]) {
        if i > 0 { assert r[i] == s[i - 1]; }
      }
    } else {
      var t := Insert(x, s[1..], le);
      assert Below(y, s[1..], le) by {
        forall i | 0 <= i < |s[1..]| ensures le(y, s[1..][i]) { assert s[1..][i] == s[i + 1]; }
      }
      InsertBelow(x, s[1..], le, y);
      assert r == [s[0]] + t;
      forall i | 0 <= i < |r| ensures le(y, r[i]) {
        if i > 0 { assert r[i] == t[i - 1]; }
      }
    }
  }

  lemma {:induction false} InsertSorted<T(!new)>(x: T, s: seq<T>, le: (T, T) -> bool)
    requires IsTotalPreorder(le) && Sorted(s, le)
    ensures Sorted(Insert(x, s, le), le)
    decreases |s|
  {
    var r := Insert(x, s, le);
    if s == [] {
    } else if le(x, s[0]) {
      assert r == [x] + s;
      forall i, j | 0 <= i < j < |r| ensures le(r[i], r[j]) {
        if i == 0 {
          assert r[j] == s[j - 1] && le(s[0], s[j - 1]) by {
            if j > 1 { assert le(s[0], s[j - 1]); }
          }
        } else {
          assert r[i] == s[i - 1] && r[j] == s[j - 1];
        }
      }
    } else {
      var u := s[1..];
      assert Sorted(u, le) by {
        forall i, j | 0 <= i < j < |u| ensures le(u[i], u[j]) { assert u[i] == s[i + 1] && u[j] == s[j + 1]; }
      }
      assert Below(s[0], u, le) by {
        forall i | 0 <= i < |u| ensures le(s[0], u[i]) { assert u[i] == s[i + 1]; }
      }
      var t := Insert(x, u, le);
      InsertSorted(x, u, le);
      InsertBelow(x, u, le, s[0]);
      assert r == [s[0]] + t;
      forall i, j | 0 <= i < j < |r| ensures le(r[i], r[j]) {
        if i == 0 {
          assert r[j] == t[j - 1];
        } else {
          assert r[i] == t[i - 1] && r[j] == t[j - 1];
        }
      }
    }
  }

  /** Under a total preorder the result is ordered. */
  lemma {:induction false} SortSorted<T(!new)>(s: seq<T>, le: (T, T) -> bool)
    requires IsTotalPreorder(le)
    ensures Sorted(Sort(s, le), le)
    decreases |s|
  {
    if s != [] {
      SortSorted(s[1..], le);
      InsertSorted(s[0], Sort(s[1..], le), le);
    }
  }

  /** Sorting an already ordered sequence changes nothing. */
  lemma {:induction false} SortOfSorted<T>(s: seq<T>, le: (T, T) -> bool)
    requires Sorted(s, le)
    ensures Sort(s, le) == s
    decreases |s|
  {
    if s != [] {
      assert Sorted(s[1..], le) by {
        forall i, j | 0 <= i < j < |s[1..]| ensures le(s[1..][i], s[1..][j]) {
          assert s[1..][i] == s[i + 1] && s[1..][j] == s[j + 1];
        }
      }
      SortOfSorted(s[1..], le);
      if |s| > 1 {
        assert le(s[0], s[1]);
        assert s[1..][0] == s[1];
      }
      assert [s[0]] + s[1..] == s;
    }
  }

  /** `a` and `b` tie under `le`. */
  predicate Tie<T>(le: (T, T) -> bool, a: T, b: T) {
    le(a, b) && le(b, a)
  }

  /** The elements of `s` that tie with `k`, in their order in `s`. */
  function TiesWith<T>(s: seq<T>, k: T, le: (T, T) -> bool): (r: seq<T>)
    ensures |r| <= |s|
  {
    if s == [] then []
    else if Tie(le, s[0], k) then [s[0]] + TiesWith(s[1..], k, le)
    else TiesWith(s[1..], k, le)
  }

  lemma {:induction false} InsertTies<T(!new)>(x: T, s: seq<T>, k: T, le: (T, T) -> bool)
    requires IsTotalPreorder(le)
    ensures TiesWith(Insert(x, s, le), k, le)
         == (if Tie(le, x, k) then [x] else []) + TiesWith(s, k, le)
    decreases |s|
  {
    var r := Insert(x, s, le);
    if s == [] {
    } else if le(x, s[0]) {
      assert r == [x] + s && r[1..] == s;
    } else {
      var u := s[1..];
      var t := Insert(x, u, le);
      assert r == [s[0]] + t && r[1..] == t;
      InsertTies(x, u, k, le);
      var front := if Tie(le, s[0], k) then [s[0]] else [];
      assert TiesWith(r, k, le) == front + TiesWith(t, k, le);
      assert TiesWith(s, k, le) == front + TiesWith(u, k, le);
      if Tie(le, x, k) {
        assert !Tie(le, s[0], k);
        assert TiesWith(r, k, le) == [x] + TiesWith(u, k, le);
      } else {
        assert TiesWith(t, k, le) == TiesWith(u, k, le);
      }
    }
  }

  /** Stability: the elements that tie with any `k` come out in their original order. */
  lemma {:induction false} SortStable<T(!new)>(s: seq<T>, k: T, le: (T, T) -> bool)
    requires IsTotalPreorder(le)
    ensures TiesWith(Sort(s, le), k, le) == TiesWith(s, k, le)
    decreases |s|
  {
    if s != [] {
      SortStable(s[1..], k, le);
      InsertTies(s[0], Sort(s[1..], le), k, le);
    }
  }

  // ---------------------------------------------------------------- comparisons

  /** Ascending by an integer key (`(a, b) => key(a) - key(b)`). */
  function Ascending<T>(key: T -> int): (T, T) -> bool {
    (a: T, b: T) => key(a) <= key(b)
  }

  /** Descending by an integer key (`(a, b) => key(b) - key(a)`, or `reverse=True`). */
  function Descending<T>(key: T -> int): (T, T) -> bool {
    (a: T, b: T) => key(a) >= key(b)
  }

  lemma KeyOrdersArePreorders<T(!new)>(key: T -> int)
    ensures IsTotalPreorder(Ascending(key))
    ensures IsTotalPreorder(Descending(key))
  {
  }

  /** Sorting by a key orders exactly by that key. */
  lemma SortAscendingByKey<T(!new)>(s: seq<T>, key: T -> int)
    ensures forall i, j | 0 <= i < j < |Sort(s, Ascending(key))|
      :: key(Sort(s, Ascending(key))[i]) <= key(Sort(s, Ascending(key))[j])
  {
    KeyOrdersArePreorders(key);
    SortSorted(s, Ascending(key));
  }

  lemma SortDescendingByKey<T(!new)>(s: seq<T>, key: T -> int)
    ensures forall i, j | 0 <= i < j < |Sort(s, Descending(key))|
      :: key(Sort(s, Descending(key))[i]) >= key(Sort(s, Descending(key))[j])
  {
    KeyOrdersArePreorders(key);
    SortSorted(s, Descending(key));
  }

  // ---------------------------------------------------------------- filtering

  /** The elements of `s` satisfying `p`, in order (JavaScript `filter`, a Python list
      comprehension with a condition, or a loop that appends the kept elements). */
  function Filter<T>(s: seq<T>, p: T -> bool): (r: seq<T>)
    ensures |r| <= |s|
  {
    if s == [] then []
    else
      var init := Filter(s[..|s| - 1], p);
      assert s == s[..|s| - 1] + [s[|s| - 1]];
      if p(s[|s| - 1]) then init + [s[|s| - 1]] else init
  }

  /** Every element `Filter` keeps passes the test. */
  lemma {:induction false} FilterSatisfies<T>(s: seq<T>, p: T -> bool)
    ensures forall i | 0 <= i < |Filter(s, p)| :: p(Filter(s, p)[i])
    decreases |s|
  {
    if s != [] {
      FilterSatisfies(s[..|s| - 1], p);
    }
  }

  /** An element is kept exactly when it occurs in `s` and passes. */
  lemma {:induction false} FilterContains<T>(s: seq<T>, p: T -> bool)
    ensures forall x :: x in Filter(s, p) <==> x in s && p(x)
    decreases |s|
  {
    if s != [] {
      var init, last := s[..|s| - 1], s[|s| - 1];
      assert s == init + [last];
      FilterContains(init, p);
    }
  }

  lemma {:induction false} FilterConcat<T>(a: seq<T>, b: seq<T>, p: T -> bool)
    ensures Filter(a + b, p) == Filter(a, p) + Filter(b, p)
    decreases |b|
  {
    if b != [] {
      var b' := b[..|b| - 1];
      assert (a + b)[..|a + b| - 1] == a + b';
      FilterConcat(a, b', p);
    } else {
      assert a + b == a;
    }
  }

  /** Nothing is dropped when every element passes. */
  lemma {:induction false} FilterAll<T>(s: seq<T>, p: T -> bool)
    requires forall i | 0 <= i < |s| :: p(s[i])
    ensures Filter(s, p) == s
    decreases |s|
  {
    if s != [] {
      FilterAll(s[..|s| - 1], p);
      assert s == s[..|s| - 1] + [s[|s| - 1]];
    }
  }

  /** Nothing is kept when no element passes. */
  lemma {:induction false} FilterNone<T>(s: seq<T>, p: T -> bool)
    requires forall i | 0 <= i < |s| :: !p(s[i])
    ensures Filter(s, p) == []
    decreases |s|
  {
    if s != [] {
      FilterNone(s[..|s| - 1], p);
    }
  }

  /** Filtering twice by the same condition is filtering once. */
  lemma FilterIdempotent<T>(s: seq<T>, p: T -> bool)
    ensures Filter(Filter(s, p), p) == Filter(s, p)
  {
    FilterSatisfies(s, p);
    FilterAll(Filter(s, p), p);
  }

  lemma FilterAppend<T>(s: seq<T>, x: T, p: T -> bool)
    ensures Filter(s + [x], p) == Filter(s, p) + (if p(x) then [x] else [])
  {
    assert (s + [x])[..|s|] == s;
  }

  /** Splitting by a condition and its negation loses and adds nothing. */
  lemma {:induction false} FilterPartition<T>(s: seq<T>, p: T -> bool, q: T -> bool)
    requires forall i | 0 <= i < |s| :: q(s[i]) == !p(s[i])
    ensures multiset(Filter(s, p)) + multiset(Filter(s, q)) == multiset(s)
    ensures |Filter(s, p)| + |Filter(s, q)| == |s|
    decreases |s|
  {
    if s != [] {
      var init, x := s[..|s| - 1], s[|s| - 1];
      assert s == init + [x];
      FilterPartition(init, p, q);
      FilterAppend(init, x, p);
      FilterAppend(init, x, q);
      var fp, fq := Filter(init, p), Filter(init, q);
      var xp: seq<T> := if p(x) then [x] else [];
      var xq: seq<T> := if q(x) then [x] else [];
      assert multiset(xp) + multiset(xq) == multiset{x};
      assert multiset(fp + xp) == multiset(fp) + multiset(xp);
      assert multiset(fq + xq) == multiset(fq) + multiset(xq);
      assert multiset(s) == multiset(init) + multiset{x};
    }
  }

  /** The elements that pass, counted in a multiset, are those of `s` that pass. */
  lemma {:induction false} FilterMultiset<T>(s: seq<T>, p: T -> bool, x: T)
    ensures multiset(Filter(s, p))[x] == if p(x) then multiset(s)[x] else 0
    decreases |s|
  {
    if s != [] {
      FilterMultiset(s[..|s| - 1], p, x);
      assert s == s[..|s| - 1] + [s[|s| - 1]];
    }
  }

  /** Nothing is kept exactly when no element satisfies the test. */
  lemma FilterEmpty<T>(s: seq<T>, p: T -> bool)
    ensures Filter(s, p) == [] <==> forall x | x in s :: !p(x)
  {
    FilterContains(s, p);
    if Filter(s, p) != [] {
      assert Filter(s, p)[0] in Filter(s, p);
    }
  }

  /** Sorting the elements that pass a condition keeps only elements that pass it. */
  lemma SortFilterSatisfies<T>(s: seq<T>, p: T -> bool, le: (T, T) -> bool)
    ensures forall i | 0 <= i < |Sort(Filter(s, p), le)| :: p(Sort(Filter(s, p), le)[i])
  {
    var f := Filter(s, p);
    var r := Sort(f, le);
    FilterSatisfies(s, p);
    forall i | 0 <= i < |r| ensures p(r[i]) {
      assert r[i] in multiset(f);
      var j :| 0 <= j < |f| && f[j] == r[i];
    }
  }

  /** In `a + b`, where every element of `a` passes `p` and none of `b` does, an element
      passes exactly when it lies within the `a` part. */
  lemma ConcatPartition<T>(a: seq<T>, b: seq<T>, p: T -> bool)
    requires forall i | 0 <= i < |a| :: p(a[i])
    requires forall i | 0 <= i < |b| :: !p(b[i])
    ensures forall i | 0 <= i < |a + b| :: p((a + b)[i]) <==> i < |a|
  {
    forall i | 0 <= i < |a + b| ensures p((a + b)[i]) <==> i < |a| {
      if i >= |a| {
        assert (a + b)[i] == b[i - |a|];
      }
    }
  }

  /** A part of `a + b` that is ordered by a key keeps its order in the whole. */
  lemma DescendingSuffix<T>(a: seq<T>, b: seq<T>, key: T -> int)
    requires forall i, j | 0 <= i < j < |b| :: key(b[i]) >= key(b[j])
    ensures forall i, j | |a| <= i < j < |a + b| :: key((a + b)[i]) >= key((a + b)[j])
  {
    forall i, j | |a| <= i < j < |a + b| ensures key((a + b)[i]) >= key((a + b)[j]) {
      assert (a + b)[i] == b[i - |a|] && (a + b)[j] == b[j - |a|];
    }
  }

  // ---------------------------------------------------------------- de-duplication

  /** The keys of the elements of `s`. */
  function KeysOf<T, K(==)>(s: seq<T>, key: T -> K): set<K> {
    set i | 0 <= i < |s| :: key(s[i])
  }

  /** Keeps the first element of each key, in order (a loop over the input that skips an
      element whose key is already in a `seen` set and otherwise appends it and adds its
      key to the set). */
  function DedupBy<T, K(==)>(s: seq<T>, key: T -> K): (r: seq<T>)
    ensures |r| <= |s|
  {
    if s == [] then []
    else
      var init := DedupBy(s[..|s| - 1], key);
      if key(s[|s| - 1]) in KeysOf(s[..|s| - 1], key) then init else init + [s[|s| - 1]]
  }

  /** One more element is kept exactly when its key is new. */
  lemma DedupByAppend<T, K>(s: seq<T>, x: T, key: T -> K)
    ensures DedupBy(s + [x], key) == if key(x) in KeysOf(s, key) then DedupBy(s, key) else DedupBy(s, key) + [x]
  {
    assert (s + [x])[..|s|] == s;
  }

  /** The position of the first element with key `k`. */
  function FirstIndex<T, K(==)>(s: seq<T>, key: T -> K, k: K): (i: nat)
    requires k in KeysOf(s, key)
    ensures i < |s| && key(s[i]) == k
    ensures forall j | 0 <= j < i :: key(s[j]) != k
  {
    if key(s[0]) == k then 0
    else
      assert k in KeysOf(s[1..], key) by {
        var j :| 0 <= j < |s| && key(s[j]) == k;
        assert s[1..][j - 1] == s[j];
      }
      1 + FirstIndex(s[1..], key, k)
  }

  predicate DistinctKeys<T, K(==)>(s: seq<T>, key: T -> K) {
    forall i, j | 0 <= i < j < |s| :: key(s[i]) != key(s[j])
  }

  lemma FirstIndexPrefix<T, K>(s: seq<T>, key: T -> K, k: K, n: nat)
    requires n <= |s| && k in KeysOf(s[..n], key)
    ensures k in KeysOf(s, key) && FirstIndex(s, key, k) == FirstIndex(s[..n], key, k)
  {
    var j :| 0 <= j < n && key(s[..n][j]) == k;
    assert key(s[j]) == k;
    var a := FirstIndex(s, key, k);
    var b := FirstIndex(s[..n], key, k);
    assert key(s[b]) == k;
  }

  lemma KeysOfAppend<T, K>(s: seq<T>, x: T, key: T -> K)
    ensures KeysOf(s + [x], key) == KeysOf(s, key) + {key(x)}
  {
    var t := s + [x];
    forall k | k in KeysOf(t, key) ensures k in KeysOf(s, key) + {key(x)} {
      var j :| 0 <= j < |t| && key(t[j]) == k;
      if j < |s| {
        assert t[j] == s[j];
      }
    }
    forall k | k in KeysOf(s, key) ensures k in KeysOf(t, key) {
      var j :| 0 <= j < |s| && key(s[j]) == k;
      assert t[j] == s[j];
    }
    assert t[|s|] == x;
  }

  /** `r` holds, for each key of `s`, exactly the first element of `s` carrying it, listed
      in the order of those first appearances. */
  ghost predicate FirstOccurrences<T, K>(s: seq<T>, r: seq<T>, key: T -> K) {
    && DistinctKeys(r, key)
    && KeysOf(r, key) == KeysOf(s, key)
    && (forall i | 0 <= i < |r| ::
          key(r[i]) in KeysOf(s, key) && r[i] == s[FirstIndex(s, key, key(r[i]))])
    && (forall i, j | 0 <= i < j < |r| && key(r[i]) in KeysOf(s, key) && key(r[j]) in KeysOf(s, key)
          :: FirstIndex(s, key, key(r[i])) < FirstIndex(s, key, key(r[j])))
  }

  lemma DedupPrefix<T, K>(init: seq<T>, x: T, d: seq<T>, key: T -> K)
    requires FirstOccurrences(init, d, key)
    ensures KeysOf(init + [x], key) == KeysOf(init, key) + {key(x)}
    ensures forall i | 0 <= i < |d| ::
      && key(d[i]) in KeysOf(init, key)
      && key(d[i]) in KeysOf(init + [x], key)
      && FirstIndex(init + [x], key, key(d[i])) == FirstIndex(init, key, key(d[i]))
      && d[i] == (init + [x])[FirstIndex(init + [x], key, key(d[i]))]
  {
    var s := init + [x];
    assert s[..|init|] == init;
    KeysOfAppend(init, x, key);
    forall i | 0 <= i < |d|
      ensures key(d[i]) in KeysOf(s, key)
      ensures FirstIndex(s, key, key(d[i])) == FirstIndex(init, key, key(d[i]))
      ensures d[i] == s[FirstIndex(s, key, key(d[i]))]
    {
      FirstIndexPrefix(s, key, key(d[i]), |init|);
      assert s[FirstIndex(init, key, key(d[i]))] == init[FirstIndex(init, key, key(d[i]))];
    }
  }

  lemma DedupStepOld<T, K>(init: seq<T>, x: T, d: seq<T>, key: T -> K)
    requires FirstOccurrences(init, d, key) && key(x) in KeysOf(init, key)
    ensures FirstOccurrences(init + [x], d, key)
  {
    DedupPrefix(init, x, d, key);
  }

  lemma DedupStepNewDistinct<T, K>(init: seq<T>, x: T, d: seq<T>, key: T -> K)
    requires FirstOccurrences(init, d, key) && key(x) !in KeysOf(init, key)
    ensures DistinctKeys(d + [x], key)
  {
    var r := d + [x];
    forall i, j | 0 <= i < j < |r| ensures key(r[i]) != key(r[j]) {
      assert r[i] == d[i];
      if j < |d| {
        assert r[j] == d[j];
      }
    }
  }

  lemma DedupStepNewOrder<T, K>(init: seq<T>, x: T, d: seq<T>, key: T -> K)
    requires FirstOccurrences(init, d, key) && key(x) !in KeysOf(init, key)
    ensures forall i, j | 0 <= i < j < |d + [x]|
              && key((d + [x])[i]) in KeysOf(init + [x], key) && key((d + [x])[j]) in KeysOf(init + [x], key)
              :: FirstIndex(init + [x], key, key((d + [x])[i])) < FirstIndex(init + [x], key, key((d + [x])[j]))
  {
    var s := init + [x];
    var r := d + [x];
    DedupPrefix(init, x, d, key);
    forall i | 0 <= i < |init| ensures key(s[i]) != key(x) {
      assert s[i] == init[i];
    }
    assert FirstIndex(s, key, key(x)) == |init|;
    forall i, j | 0 <= i < j < |r| && key(r[i]) in KeysOf(s, key) && key(r[j]) in KeysOf(s, key)
      ensures FirstIndex(s, key, key(r[i])) < FirstIndex(s, key, key(r[j]))
    {
      assert r[i] == d[i];
      if j < |d| {
        assert r[j] == d[j];
      }
    }
  }

  lemma DedupStepNew<T, K>(init: seq<T>, x: T, d: seq<T>, key: T -> K)
    requires FirstOccurrences(init, d, key) && key(x) !in KeysOf(init, key)
    ensures FirstOccurrences(init + [x], d + [x], key)
  {
    var s := init + [x];
    var r := d + [x];
    DedupPrefix(init, x, d, key);
    KeysOfAppend(d, x, key);
    DedupStepNewDistinct(init, x, d, key);
    DedupStepNewOrder(init, x, d, key);
    forall i | 0 <= i < |init| ensures key(s[i]) != key(x) {
      assert s[i] == init[i];
    }
    assert FirstIndex(s, key, key(x)) == |init|;
    forall i | 0 <= i < |r|
      ensures key(r[i]) in KeysOf(s, key) && r[i] == s[FirstIndex(s, key, key(r[i]))]
    {
      if i < |d| {
        assert r[i] == d[i];
      }
    }
  }

  /** De-duplication keeps exactly the first occurrence of every key, in order. */
  lemma {:induction false} DedupByFirstOccurrence<T, K>(s: seq<T>, key: T -> K)
    ensures FirstOccurrences(s, DedupBy(s, key), key)
    decreases |s|
  {
    if s != [] {
      var init := s[..|s| - 1];
      assert s == init + [s[|s| - 1]];
      DedupByFirstOccurrence(init, key);
      if key(s[|s| - 1]) in KeysOf(init, key) {
        DedupStepOld(init, s[|s| - 1], DedupBy(init, key), key);
      } else {
        DedupStepNew(init, s[|s| - 1], DedupBy(init, key), key);
      }
    }
  }

  // ---------------------------------------------------------------- distinct elements

  ghost predicate Distinct<T>(s: seq<T>) {
    forall i, j | 0 <= i < j < |s| :: s[i] != s[j]
  }

  lemma {:induction false} DistinctCounts<T>(s: seq<T>)
    requires Distinct(s)
    ensures forall x :: multiset(s)[x] <= 1
    decreases |s|
  {
    if s != [] {
      var init, last := s[..|s| - 1], s[|s| - 1];
      assert s == init + [last];
      assert Distinct(init) by {
        forall i, j | 0 <= i < j < |init| ensures init[i] != init[j] {
          assert init[i] == s[i] && init[j] == s[j];
        }
      }
      DistinctCounts(init);
      assert last !in init by {
        forall j | 0 <= j < |init| ensures init[j] != last {
          assert init[j] == s[j];
        }
      }
    }
  }

  lemma {:induction false} CountsDistinct<T>(s: seq<T>)
    requires forall x :: multiset(s)[x] <= 1
    ensures Distinct(s)
    decreases |s|
  {
    if s != [] {
      var init, last := s[..|s| - 1], s[|s| - 1];
      assert s == init + [last];
      assert multiset(s) == multiset(init) + multiset{last};
      forall x ensures multiset(init)[x] <= 1 {
        assert multiset(init)[x] <= multiset(s)[x];
      }
      CountsDistinct(init);
      assert multiset(s)[last] <= 1;
      assert multiset(init)[last] == 0;
      forall i, j | 0 <= i < j < |s| ensures s[i] != s[j] {
        assert s[i] == init[i];
        if j < |init| {
          assert s[j] == init[j];
        } else {
          assert init[i] in multiset(init);
        }
      }
    }
  }

  /** A rearrangement of a sequence without repetitions has none either. */
  lemma DistinctPermutation<T>(a: seq<T>, b: seq<T>)
    requires Distinct(a) && multiset(b) == multiset(a)
    ensures Distinct(b)
  {
    DistinctCounts(a);
    CountsDistinct(b);
  }

  /** A rearrangement has the same elements. */
  lemma PermutationElements<T>(a: seq<T>, b: seq<T>)
    requires multiset(b) == multiset(a)
    ensures forall x :: x in b <==> x in a
  {
    forall x ensures x in b <==> x in a {
      assert x in b <==> x in multiset(b);
      assert x in a <==> x in multiset(a);
    }
  }

  /** De-duplicating by the elements themselves keeps every element once. */
  lemma DedupIdSpec<T>(s: seq<T>)
    ensures Distinct(DedupBy(s, Id()))
    ensures forall x :: x in DedupBy(s, Id()) <==> x in s
  {
    var d := DedupBy(s, Id());
    DedupByFirstOccurrence(s, Id());
    forall i, j | 0 <= i < j < |d| ensures d[i] != d[j] {
      assert Id<T>()(d[i]) != Id<T>()(d[j]);
    }
    forall x ensures x in d <==> x in s {
      if x in d {
        var j :| 0 <= j < |d| && d[j] == x;
        assert Id<T>()(d[j]) in KeysOf(d, Id());
        var k :| 0 <= k < |s| && Id<T>()(s[k]) == x;
      }
      if x in s {
        var k :| 0 <= k < |s| && s[k] == x;
        assert Id<T>()(s[k]) in KeysOf(s, Id());
        var j :| 0 <= j < |d| && Id<T>()(d[j]) == x;
      }
    }
  }

  // ---------------------------------------------------------------- misc

  function Id<T>(): T -> T {
    x => x
  }

  predicate StrictlyDecreasing(a: seq<int>) {
    forall i, j | 0 <= i < j < |a| :: a[i] > a[j]
  }

  ghost predicate SameElements(a: seq<int>, b: seq<int>) {
    forall x :: x in a <==> x in b
  }

  /** The head of a strictly decreasing sequence is its greatest element. */
  lemma HeadIsGreatest(a: seq<int>, x: int)
    requires StrictlyDecreasing(a) && x in a
    ensures a[0] >= x
  {
    var i :| 0 <= i < |a| && a[i] == x;
    if i > 0 {
      assert a[0] > a[i];
    }
  }

  /** Without its head, a strictly decreasing sequence holds only smaller elements. */
  lemma TailIsSmaller(a: seq<int>, x: int)
    requires StrictlyDecreasing(a) && a != [] && x in a[1..]
    ensures x < a[0]
  {
    var i :| 0 <= i < |a[1..]| && a[1..][i] == x;
    assert a[i + 1] == x;
  }

  lemma TailIncluded(a: seq<int>, b: seq<int>, x: int)
    requires StrictlyDecreasing(b) && SameElements(a, b) && a != [] && b != [] && a[0] == b[0]
    requires StrictlyDecreasing(a) && a != [] && x in a[1..]
    ensures x in b[1..]
  {
    TailIsSmaller(a, x);
    assert x in a && x in b;
    var j :| 0 <= j < |b| && b[j] == x;
    assert j != 0;
    assert b[1..][j - 1] == x;
  }

  lemma DecreasingTail(a: seq<int>)
    requires StrictlyDecreasing(a) && a != []
    ensures StrictlyDecreasing(a[1..])
  {
    forall i, j | 0 <= i < j < |a[1..]| ensures a[1..][i] > a[1..][j] {
      assert a[1..][i] == a[i + 1] && a[1..][j] == a[j + 1];
    }
  }

  /** Two strictly decreasing sequences with the same elements are equal, so such a
      sequence is determined by its set of elements. */
  lemma {:induction false} StrictlyDescendingUnique(a: seq<int>, b: seq<int>)
    requires StrictlyDecreasing(a) && StrictlyDecreasing(b)
    requires SameElements(a, b)
    ensures a == b
    decreases |a|
  {
    if a != [] {
      assert a[0] in a;
    }
    if b != [] {
      assert b[0] in b;
    }
    if a != [] && b != [] {
      HeadIsGreatest(b, a[0]);
      HeadIsGreatest(a, b[0]);
      forall x ensures x in a[1..] <==> x in b[1..] {
        if x in a[1..] {
          TailIncluded(a, b, x);
        }
        if x in b[1..] {
          TailIncluded(b, a, x);
        }
      }
      DecreasingTail(a);
      DecreasingTail(b);
      StrictlyDescendingUnique(a[1..], b[1..]);
      assert a == [a[0]] + a[1..] && b == [b[0]] + b[1..];
    }
  }

  /** What `f` gives for the elements of `s` where it gives something, in order: a loop
      that appends a value for each element it does not skip. */
  function FilterMap<A, B>(s: seq<A>, f: A -> Option<B>): (r: seq<B>)
    ensures |r| <= |s|
  {
    if s == [] then []
    else
      var init := FilterMap(s[..|s| - 1], f);
      var y := f(s[|s| - 1]);
      if y.Some? then init + [y.value] else init
  }

  /** One more element appends its value, if it has one. */
  lemma FilterMapAppend<A, B>(s: seq<A>, x: A, f: A -> Option<B>)
    ensures FilterMap(s + [x], f) == if f(x).Some? then FilterMap(s, f) + [f(x).value] else FilterMap(s, f)
  {
    assert (s + [x])[..|s|] == s;
  }

  /** A value is collected exactly when some element gives it. */
  lemma {:induction false} FilterMapMembers<A, B>(s: seq<A>, f: A -> Option<B>)
    ensures forall y :: y in FilterMap(s, f) <==> exists k | 0 <= k < |s| :: f(s[k]) == Some(y)
    decreases |s|
  {
    if s != [] {
      var init, last := s[..|s| - 1], s[|s| - 1];
      FilterMapMembers(init, f);
      FilterMapAppend(init, last, f);
      assert s == init + [last];
      forall y
        ensures y in FilterMap(s, f) <==> exists k | 0 <= k < |s| :: f(s[k]) == Some(y)
      {
        if y in FilterMap(init, f) {
          var k :| 0 <= k < |init| && f(init[k]) == Some(y);
          assert s[k] == init[k];
        }
        if exists k | 0 <= k < |s| :: f(s[k]) == Some(y) {
          var k :| 0 <= k < |s| && f(s[k]) == Some(y);
          if k < |init| {
            assert s[k] == init[k];
          }
        }
      }
    }
  }

  /** Every collected value has a property that every value of `f` has. */
  lemma {:induction false} FilterMapSatisfies<A, B>(s: seq<A>, f: A -> Option<B>, p: B -> bool)
    requires forall k | 0 <= k < |s| :: f(s[k]).Some? ==> p(f(s[k]).value)
    ensures forall i | 0 <= i < |FilterMap(s, f)| :: p(FilterMap(s, f)[i])
    decreases |s|
  {
    if s != [] {
      var init, last := s[..|s| - 1], s[|s| - 1];
      assert forall k | 0 <= k < |init| :: init[k] == s[k];
      FilterMapSatisfies(init, f, p);
      FilterMapAppend(init, last, f);
      assert s == init + [last];
    }
  }

  /** The prefix one element longer. */
  lemma PrefixStep<T>(s: seq<T>, i: nat)
    requires i < |s|
    ensures s[..i + 1] == s[..i] + [s[i]]
  {
  }

  /** A `forEach((x, i) => …)` loop that produces one value per element from the
      element and its index. */
  method MapIndexed<A, B>(s: seq<A>, f: (A, nat) -> B) returns (r: seq<B>)
    ensures |r| == |s|
    ensures forall j | 0 <= j < |r| :: r[j] == f(s[j], j)
  {
    r := [];
    var i := 0;
    while i < |s|
      invariant 0 <= i <= |s| && |r| == i
      invariant forall j | 0 <= j < i :: r[j] == f(s[j], j)
    {
      r := r + [f(s[i], i)];
      i := i + 1;
    }
  }

  /** A loop that collects the values of `f`, skipping the elements without one. */
  method CollectFilterMap<A, B>(s: seq<A>, f: A -> Option<B>) returns (r: seq<B>)
    ensures r == FilterMap(s, f)
  {
    r := [];
    var i := 0;
    while i < |s|
      invariant 0 <= i <= |s|
      invariant r == FilterMap(s[..i], f)
    {
      FilterMapAppend(s[..i], s[i], f);
      PrefixStep(s, i);
      var y := f(s[i]);
      if y.Some? {
        r := r + [y.value];
      }
      i := i + 1;
    }
    assert s[..i] == s;
  }

  /** A loop that collects what `f` gives, skips the elements it gives nothing for and
      stops with the error of the first element it fails on. */
  function Collect<A, B, E>(s: seq<A>, f: A -> Result<Option<B>, E>): (r: Result<seq<B>, E>)
    ensures r.Ok? ==> |r.value| <= |s|
  {
    if s == [] then Ok([])
    else
      match Collect(s[..|s| - 1], f)
      case Err(e) => Err(e)
      case Ok(ys) =>
        match f(s[|s| - 1])
        case Err(e) => Err(e)
        case Ok(y) => if y.Some? then Ok(ys + [y.value]) else Ok(ys)
  }

  /** Once a prefix fails, the whole sequence fails with the same error. */
  lemma {:induction false} CollectErrPrefix<A, B, E>(s: seq<A>, i: nat, f: A -> Result<Option<B>, E>)
    requires i <= |s| && Collect(s[..i], f).Err?
    ensures Collect(s, f) == Collect(s[..i], f)
    decreases |s| - i
  {
    if i < |s| {
      var init := s[..|s| - 1];
      assert init[..i] == s[..i];
      CollectErrPrefix(init, i, f);
    } else {
      assert s[..i] == s;
    }
  }

  /** The collection succeeds exactly when `f` succeeds on every element. */
  lemma {:induction false} CollectOk<A, B, E>(s: seq<A>, f: A -> Result<Option<B>, E>)
    ensures Collect(s, f).Ok? <==> forall k | 0 <= k < |s| :: f(s[k]).Ok?
    decreases |s|
  {
    if s != [] {
      var init := s[..|s| - 1];
      CollectOk(init, f);
      assert forall k | 0 <= k < |init| :: init[k] == s[k];
    }
  }

  /** A failure is the error of an element on which `f` fails while succeeding on every
      element before it. */
  lemma {:induction false} CollectErr<A, B, E>(s: seq<A>, f: A -> Result<Option<B>, E>)
    requires Collect(s, f).Err?
    ensures exists k | 0 <= k < |s| ::
      f(s[k]) == Err(Collect(s, f).error) && forall j | 0 <= j < k :: f(s[j]).Ok?
    decreases |s|
  {
    var init := s[..|s| - 1];
    assert forall k | 0 <= k < |init| :: init[k] == s[k];
    if Collect(init, f).Err? {
      CollectErr(init, f);
      var k :| 0 <= k < |init| &&
        f(init[k]) == Err(Collect(init, f).error) && forall j | 0 <= j < k :: f(init[j]).Ok?;
      assert f(s[k]) == Err(Collect(s, f).error);
    } else {
      CollectOk(init, f);
      assert f(s[|s| - 1]) == Err(Collect(s, f).error);
    }
  }

  /** A value is collected exactly when some element gives it. */
  lemma {:induction false} CollectMembers<A, B, E>(s: seq<A>, f: A -> Result<Option<B>, E>, y: B)
    requires Collect(s, f).Ok?
    ensures y in Collect(s, f).value <==> exists k | 0 <= k < |s| :: f(s[k]) == Ok(Some(y))
    decreases |s|
  {
    if s != [] {
      var init, last := s[..|s| - 1], s[|s| - 1];
      assert forall k | 0 <= k < |init| :: init[k] == s[k];
      CollectMembers(init, f, y);
      if exists k | 0 <= k < |s| :: f(s[k]) == Ok(Some(y)) {
        var k :| 0 <= k < |s| && f(s[k]) == Ok(Some(y));
        if k < |init| {
          assert f(init[k]) == Ok(Some(y));
        }
      }
    }
  }

  /** `Collect` as the loop of the modelled code runs it, returning at the first error. */
  method CollectUntilErr<A, B, E>(s: seq<A>, f: A -> Result<Option<B>, E>) returns (r: Result<seq<B>, E>)
    ensures r == Collect(s, f)
  {
    var out := [];
    var i := 0;
    while i < |s|
      invariant 0 <= i <= |s|
      invariant Collect(s[..i], f) == Ok(out)
    {
      PrefixStep(s, i);
      assert s[..i + 1][..i] == s[..i];
      var y := f(s[i]);
      if y.Err? {
        CollectErrPrefix(s, i + 1, f);
        return Err(y.error);
      }
      if y.value.Some? {
        out := out + [y.value.value];
      }
      i := i + 1;
    }
    assert s[..i] == s;
    return Ok(out);
  }

  /** A loop that appends all that `f` gives for each element, in order, and stops with
      the error of the first element it fails on. */
  function Gather<A, B, E>(s: seq<A>, f: A -> Result<seq<B>, E>): Result<seq<B>, E> {
    if s == [] then Ok([])
    else
      match Gather(s[..|s| - 1], f)
      case Err(e) => Err(e)
      case Ok(ys) =>
        match f(s[|s| - 1])
        case Err(e) => Err(e)
        case Ok(more) => Ok(ys + more)
  }

  /** Gathering two runs gathers the first, then the second; an error of the first wins. */
  lemma {:induction false} GatherConcat<A, B, E>(a: seq<A>, b: seq<A>, f: A -> Result<seq<B>, E>)
    ensures Gather(a + b, f) ==
      match Gather(a, f)
      case Err(e) => Err(e)
      case Ok(x) =>
        match Gather(b, f)
        case Err(e) => Err(e)
        case Ok(y) => Ok(x + y)
    decreases |b|
  {
    if b == [] {
      assert a + b == a;
      if Gather(a, f).Ok? {
        assert Gather(a, f).value + [] == Gather(a, f).value;
      }
    } else {
      var binit := b[..|b| - 1];
      GatherConcat(a, binit, f);
      assert (a + b)[..|a + b| - 1] == a + binit;
      assert (a + b)[|a + b| - 1] == b[|b| - 1];
      var ga, gb := Gather(a, f), Gather(binit, f);
      if ga.Ok? && gb.Ok? {
        var last := f(b[|b| - 1]);
        if last.Ok? {
          assert ga.value + gb.value + last.value == ga.value + (gb.value + last.value);
        }
      }
    }
  }

  /** An element whose value is known: `Gather` of a one-element run. */
  lemma GatherOne<A, B, E>(x: A, f: A -> Result<seq<B>, E>)
    ensures Gather([x], f) == f(x)
  {
    assert [x][..0] == [];
    if f(x).Ok? {
      assert [] + f(x).value == f(x).value;
    }
  }

  /** Once a prefix fails, the whole sequence fails with the same error. */
  lemma GatherErrPrefix<A, B, E>(s: seq<A>, i: nat, f: A -> Result<seq<B>, E>)
    requires i <= |s| && Gather(s[..i], f).Err?
    ensures Gather(s, f) == Gather(s[..i], f)
  {
    assert s[..i] + s[i..] == s;
    GatherConcat(s[..i], s[i..], f);
  }

  /** `Gather` as the loop of the modelled code runs it, returning at the first error. */
  method GatherUntilErr<A, B, E>(s: seq<A>, f: A -> Result<seq<B>, E>) returns (r: Result<seq<B>, E>)
    ensures r == Gather(s, f)
  {
    var out := [];
    var i := 0;
    while i < |s|
      invariant 0 <= i <= |s|
      invariant Gather(s[..i], f) == Ok(out)
    {
      PrefixStep(s, i);
      GatherConcat(s[..i], [s[i]], f);
      GatherOne(s[i], f);
      var y := f(s[i]);
      if y.Err? {
        GatherErrPrefix(s, i + 1, f);
        return Err(y.error);
      }
      out := out + y.value;
      i := i + 1;
    }
    assert s[..i] == s;
    return Ok(out);
  }

  /** Lexicographic order of integer sequences of the same length (Python tuple
      comparison): the first difference decides, and equal sequences tie. */
  predicate LexLe(a: seq<int>, b: seq<int>)
    decreases |a|
  {
    a == [] || b == [] || a[0] < b[0] || (a[0] == b[0] && LexLe(a[1..], b[1..]))
  }

  lemma {:induction false} LexTotal(a: seq<int>, b: seq<int>)
    requires |a| == |b|
    ensures LexLe(a, b) || LexLe(b, a)
    decreases |a|
  {
    if a != [] && a[0] == b[0] {
      LexTotal(a[1..], b[1..]);
    }
  }

  lemma {:induction false} LexTransitive(a: seq<int>, b: seq<int>, c: seq<int>)
    requires |a| == |b| == |c| && LexLe(a, b) && LexLe(b, c)
    ensures LexLe(a, c)
    decreases |a|
  {
    if a != [] && a[0] == b[0] == c[0] {
      LexTransitive(a[1..], b[1..], c[1..]);
    }
  }

  /** The first position in `[p, n)` where `at` succeeds, with what it found there: the
      leftmost match of a pattern scanned position by position (Python `re.search`). */
  function FirstAt<M>(n: nat, p: nat, at: nat -> Option<M>): (r: Option<(nat, M)>)
    ensures r.Some? ==> p <= r.value.0 < n && at(r.value.0) == Some(r.value.1)
    ensures r.Some? ==> forall q | p <= q < r.value.0 :: at(q).None?
    ensures r.None? <==> forall q | p <= q < n :: at(q).None?
    decreases n - p
  {
    if p >= n then None
    else if at(p).Some? then Some((p, at(p).value))
    else FirstAt(n, p + 1, at)
  }

  function Max(a: int, b: int): int {
    if a >= b then a else b
  }

  function Min(a: int, b: int): int {
    if a <= b then a else b
  }
}
