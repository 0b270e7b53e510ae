/**
 * The standard sequence algorithms the engine is built from, stated over the
 * traits' key order: std::sort (SortByKey), std::inplace_merge (Merge),
 * std::unique (Unique), and what lower_bound, upper_bound and equal_range compute
 * (LowerBoundOf, UpperBoundOf).  Counting and removal by key (CountKey, Without)
 * give erase(key) and count(key) their meaning.
 */
module SortedSequence {
  import opened Comparator

  /** No element is ordered before an earlier one (std::sort's result). */
  ghost predicate Ascending<K, E>(tr: Traits<K, E>, s: seq<E>) {
    forall i, j :: 0 <= i < j < |s| ==> !tr.Less(s[j], s[i])
  }

  /** The container invariant: strictly ascending, so no two elements are equal. */
  ghost predicate StrictlyAscending<K, E>(tr: Traits<K, E>, s: seq<E>) {
    forall i, j :: 0 <= i < j < |s| ==> tr.Less(s[i], s[j])
  }

  /** Some element of `s` has a key equivalent to `k`. */
  ghost predicate HasKey<K, E>(tr: Traits<K, E>, s: seq<E>, k: K) {
    exists i :: 0 <= i < |s| && tr.EqualKey(s[i], k)
  }

  /** Some element of `s` is equal to `x` under the traits. */
  ghost predicate HasEquivalent<K, E>(tr: Traits<K, E>, s: seq<E>, x: E) {
    exists i :: 0 <= i < |s| && tr.Equal(s[i], x)
  }

  /** Every element of `t` has an equal element in `s`: the keys of `t` are among those of `s`. */
  ghost predicate CoversKeys<K, E>(tr: Traits<K, E>, s: seq<E>, t: seq<E>) {
    forall i :: 0 <= i < |t| ==> HasEquivalent(tr, s, t[i])
  }

  /** `s[i]` is the first element of `s` with its key. */
  ghost predicate FirstOfKey<K, E>(tr: Traits<K, E>, s: seq<E>, i: int) {
    0 <= i < |s| && forall j :: 0 <= j < i ==> !tr.Equal(s[j], s[i])
  }

  /** `pos` is what std::lower_bound returns: the first index whose key is not before `k`. */
  ghost predicate LowerBoundOf<K, E>(tr: Traits<K, E>, s: seq<E>, k: K, pos: int) {
    && 0 <= pos <= |s|
    && (forall i :: 0 <= i < pos ==> tr.cmp(tr.Key(s[i]), k))
    && (forall i :: pos <= i < |s| ==> !tr.cmp(tr.Key(s[i]), k))
  }

  /** `pos` is what std::upper_bound returns: the first index whose key is after `k`. */
  ghost predicate UpperBoundOf<K, E>(tr: Traits<K, E>, s: seq<E>, k: K, pos: int) {
    && 0 <= pos <= |s|
    && (forall i :: 0 <= i < pos ==> !tr.cmp(k, tr.Key(s[i])))
    && (forall i :: pos <= i < |s| ==> tr.cmp(k, tr.Key(s[i])))
  }

  /** Number of elements whose key is equivalent to `k`. */
  function CountKey<K, E>(tr: Traits<K, E>, s: seq<E>, k: K): nat {
    if s == [] then 0
    else (if tr.EqualKey(s[0], k) then 1 else 0) + CountKey(tr, s[1..], k)
  }

  /** `s` without the elements whose key is equivalent to `k`, the rest in order. */
  function Without<K, E>(tr: Traits<K, E>, s: seq<E>, k: K): seq<E> {
    if s == [] then []
    else (if tr.EqualKey(s[0], k) then [] else [s[0]]) + Without(tr, s[1..], k)
  }

  /** std::inplace_merge of the sorted runs `a` and `b`.  The merge is stable: an
      element of `b` goes first only when it is strictly before the head of `a`. */
  function Merge<K, E>(tr: Traits<K, E>, a: seq<E>, b: seq<E>): (m: seq<E>)
    ensures |m| == |a| + |b|
    decreases |a| + |b|
  {
    if a == [] then b
    else if b == [] then a
    else if tr.Less(b[0], a[0]) then [b[0]] + Merge(tr, a, b[1..])
    else [a[0]] + Merge(tr, a[1..], b)
  }

  /** std::unique with the traits' `equal`: an element equal to the last element
      kept is dropped, so the first of every run of equal elements survives. */
  function Unique<K, E>(tr: Traits<K, E>, s: seq<E>): (u: seq<E>)
    ensures |u| <= |s|
    ensures |s| > 0 ==> |u| > 0 && u[0] == s[0]
    decreases |s|
  {
    if |s| <= 1 then s
    else if tr.Equal(s[0], s[1]) then Unique(tr, [s[0]] + s[2..])
    else [s[0]] + Unique(tr, s[1..])
  }

  /** std::sort by key (an insertion sort).  Only what std::sort promises is
      stated: the result is ascending and a permutation of the input. */
  method SortByKey<K(!new), E>(tr: Traits<K, E>, s: seq<E>) returns (r: seq<E>)
    requires ValidTraits(tr)
    ensures Ascending(tr, r)
    ensures multiset(r) == multiset(s)
  {
    r := [];
    var n := 0;
    while n < |s|
      invariant n <= |s|
      invariant Ascending(tr, r)
      invariant multiset(r) == multiset(s[..n])
    {
      var x := s[n];
      var p := |r|;
      while p > 0 && tr.Less(x, r[p - 1])
        invariant 0 <= p <= |r|
        invariant forall j :: p <= j < |r| ==> tr.Less(x, r[j])
      {
        p := p - 1;
      }
      InsertKeepsAscending(tr, r, p, x);
      assert r == r[..p] + r[p..];
      assert s[..n + 1] == s[..n] + [x];
      r := r[..p] + [x] + r[p..];
      n := n + 1;
    }
    assert s[..n] == s;
  }

  /** Inserting `x` after every element not after it and before every element
      after it keeps a sequence ascending. */
  lemma InsertKeepsAscending<K(!new), E>(tr: Traits<K, E>, r: seq<E>, p: nat, x: E)
    requires ValidTraits(tr) && Ascending(tr, r)
    requires p <= |r|
    requires p > 0 ==> !tr.Less(x, r[p - 1])
    requires forall j :: p <= j < |r| ==> tr.Less(x, r[j])
    ensures Ascending(tr, r[..p] + [x] + r[p..])
  {
    var t := r[..p] + [x] + r[p..];
    forall i | 0 <= i < p ensures !tr.Less(x, r[i]) {
      assert i == p - 1 || !tr.Less(r[p - 1], r[i]);
    }
    forall i, j | 0 <= i < j < |t| ensures !tr.Less(t[j], t[i]) {
      if j < p {
        assert t[i] == r[i] && t[j] == r[j];
      } else if j == p {
        assert t[i] == r[i];
      } else if i > p {
        assert t[i] == r[i - 1] && t[j] == r[j - 1];
      } else if i == p {
        assert t[j] == r[j - 1];
      } else {
        assert t[i] == r[i] && t[j] == r[j - 1];
      }
    }
  }

  /** Inserting `x` between the elements before it and those after it keeps a
      sequence strictly ascending: the single-element insert and operator[]. */
  lemma InsertKeepsStrictlyAscending<K(!new), E>(tr: Traits<K, E>, r: seq<E>, p: nat, x: E)
    requires ValidTraits(tr) && StrictlyAscending(tr, r)
    requires p <= |r|
    requires forall i :: 0 <= i < p ==> tr.Less(r[i], x)
    requires forall j :: p <= j < |r| ==> tr.Less(x, r[j])
    ensures StrictlyAscending(tr, r[..p] + [x] + r[p..])
  {
    var t := r[..p] + [x] + r[p..];
    forall i, j | 0 <= i < j < |t| ensures tr.Less(t[i], t[j]) {
      if j < p {
        assert t[i] == r[i] && t[j] == r[j];
      } else if j == p {
        assert t[i] == r[i];
      } else if i > p {
        assert t[i] == r[i - 1] && t[j] == r[j - 1];
      } else if i == p {
        assert t[j] == r[j - 1];
      } else {
        assert t[i] == r[i] && t[j] == r[j - 1];
      }
    }
  }

  /** Removing a contiguous run keeps a sequence strictly ascending: every erase. */
  lemma RemoveKeepsStrictlyAscending<K, E>(tr: Traits<K, E>, s: seq<E>, lo: nat, hi: nat)
    requires StrictlyAscending(tr, s) && lo <= hi <= |s|
    ensures StrictlyAscending(tr, s[..lo] + s[hi..])
  {
    var t := s[..lo] + s[hi..];
    forall i, j | 0 <= i < j < |t| ensures tr.Less(t[i], t[j]) {
      var i' := if i < lo then i else i + hi - lo;
      var j' := if j < lo then j else j + hi - lo;
      assert t[i] == s[i'] && t[j] == s[j'];
    }
  }

  /** In a strictly ascending sequence the lower bound of `k` decides whether
      `k` is present: it is exactly when the element there is equal to `k`. */
  lemma LowerBoundDecidesKey<K(!new), E>(tr: Traits<K, E>, s: seq<E>, k: K, pos: int)
    requires ValidTraits(tr) && StrictlyAscending(tr, s) && LowerBoundOf(tr, s, k, pos)
    ensures HasKey(tr, s, k) <==> pos < |s| && tr.EqualKey(s[pos], k)
  {
    if HasKey(tr, s, k) {
      var j :| 0 <= j < |s| && tr.EqualKey(s[j], k);
      assert pos <= j;
      assert pos < j ==> tr.Less(s[pos], s[j]);
    }
  }

  /** Lower and upper bound of `k` delimit exactly the elements equal to `k`, and
      in a strictly ascending sequence there is at most one of them. */
  lemma BoundsDelimitEqualRange<K(!new), E>(tr: Traits<K, E>, s: seq<E>, k: K, lo: int, hi: int)
    requires ValidTraits(tr) && StrictlyAscending(tr, s)
    requires LowerBoundOf(tr, s, k, lo) && UpperBoundOf(tr, s, k, hi)
    ensures lo <= hi <= lo + 1
    ensures forall i :: 0 <= i < |s| ==> (lo <= i < hi <==> tr.EqualKey(s[i], k))
  {
    if lo > 0 {
      assert !tr.cmp(k, tr.Key(s[lo - 1]));
    }
    assert lo + 1 < hi ==> tr.Less(s[lo], s[lo + 1]);
  }

  /** When the elements equal to `k` are exactly those of `s[lo..hi]`, counting
      them gives `hi - lo` and removing them leaves `s[..lo] + s[hi..]`. */
  lemma {:induction false} EqualRunIsCountedAndRemoved<K, E>(tr: Traits<K, E>, s: seq<E>, k: K, lo: nat, hi: nat)
    requires lo <= hi <= |s|
    requires forall i :: 0 <= i < |s| ==> (lo <= i < hi <==> tr.EqualKey(s[i], k))
    ensures CountKey(tr, s, k) == hi - lo
    ensures Without(tr, s, k) == s[..lo] + s[hi..]
    decreases |s|
  {
    if s == [] {
    } else {
      var t := s[1..];
      if lo > 0 {
        assert !tr.EqualKey(s[0], k);
        forall i | 0 <= i < |t| ensures (lo - 1 <= i < hi - 1 <==> tr.EqualKey(t[i], k)) {
          assert t[i] == s[i + 1];
        }
        EqualRunIsCountedAndRemoved(tr, t, k, lo - 1, hi - 1);
        assert s[..lo] == [s[0]] + t[..lo - 1];
        assert s[hi..] == t[hi - 1..];
      } else if hi > 0 {
        assert tr.EqualKey(s[0], k);
        forall i | 0 <= i < |t| ensures (0 <= i < hi - 1 <==> tr.EqualKey(t[i], k)) {
          assert t[i] == s[i + 1];
        }
        EqualRunIsCountedAndRemoved(tr, t, k, 0, hi - 1);
        assert s[hi..] == t[hi - 1..];
      } else {
        assert !tr.EqualKey(s[0], k);
        forall i | 0 <= i < |t| ensures !tr.EqualKey(t[i], k) {
          assert t[i] == s[i + 1];
        }
        EqualRunIsCountedAndRemoved(tr, t, k, 0, 0);
        assert s == [s[0]] + t;
      }
    }
  }

  /** Removal by key is complete and keeps everything else: no element equal to
      `k` is left, its size drops by the count, and every other element stays. */
  lemma {:induction false} WithoutRemovesOnlyKey<K, E>(tr: Traits<K, E>, s: seq<E>, k: K)
    ensures CountKey(tr, Without(tr, s, k), k) == 0
    ensures |Without(tr, s, k)| + CountKey(tr, s, k) == |s|
    ensures forall x :: x in s && !tr.EqualKey(x, k) ==> x in Without(tr, s, k)
    decreases |s|
  {
    if s != [] {
      WithoutRemovesOnlyKey(tr, s[1..], k);
      var w := Without(tr, s[1..], k);
      if !tr.EqualKey(s[0], k) {
        assert Without(tr, s, k) == [s[0]] + w;
        assert ([s[0]] + w)[1..] == w;
      } else {
        assert Without(tr, s, k) == w;
      }
      forall x | x in s && !tr.EqualKey(x, k) ensures x in Without(tr, s, k) {
        if x != s[0] {
          assert x in s[1..];
        }
      }
    }
  }

  /** No element equal to `k` is counted exactly when none is present. */
  lemma {:induction false} CountKeyZeroIffAbsent<K, E>(tr: Traits<K, E>, s: seq<E>, k: K)
    ensures CountKey(tr, s, k) == 0 <==> !HasKey(tr, s, k)
    decreases |s|
  {
    if s != [] {
      CountKeyZeroIffAbsent(tr, s[1..], k);
      if HasKey(tr, s[1..], k) {
        var i :| 0 <= i < |s[1..]| && tr.EqualKey(s[1..][i], k);
        assert tr.EqualKey(s[i + 1], k);
      }
      if HasKey(tr, s, k) && !tr.EqualKey(s[0], k) {
        var i :| 0 <= i < |s| && tr.EqualKey(s[i], k);
        assert s[1..][i - 1] == s[i];
      }
    }
  }

  /** Merging is a permutation of the two runs. */
  lemma {:induction false} MergeIsPermutation<K, E>(tr: Traits<K, E>, a: seq<E>, b: seq<E>)
    ensures multiset(Merge(tr, a, b)) == multiset(a) + multiset(b)
    decreases |a| + |b|
  {
    if a == [] || b == [] {
    } else if tr.Less(b[0], a[0]) {
      MergeIsPermutation(tr, a, b[1..]);
      assert b == [b[0]] + b[1..];
    } else {
      MergeIsPermutation(tr, a[1..], b);
      assert a == [a[0]] + a[1..];
    }
  }

  /** Prepending an element that no element of `s` is before keeps `s` ascending. */
  lemma AscendingCons<K, E>(tr: Traits<K, E>, x: E, s: seq<E>)
    requires Ascending(tr, s)
    requires forall i :: 0 <= i < |s| ==> !tr.Less(s[i], x)
    ensures Ascending(tr, [x] + s)
  {
    var t := [x] + s;
    forall i, j | 0 <= i < j < |t| ensures !tr.Less(t[j], t[i]) {
      assert t[j] == s[j - 1];
      if i > 0 {
        assert t[i] == s[i - 1];
      }
    }
  }

  /** Merging two ascending runs gives an ascending sequence. */
  lemma {:induction false} MergeIsAscending<K(!new), E>(tr: Traits<K, E>, a: seq<E>, b: seq<E>)
    requires ValidTraits(tr) && Ascending(tr, a) && Ascending(tr, b)
    ensures Ascending(tr, Merge(tr, a, b))
    decreases |a| + |b|
  {
    if a == [] || b == [] {
    } else if tr.Less(b[0], a[0]) {
      var rest := Merge(tr, a, b[1..]);
      MergeIsAscending(tr, a, b[1..]);
      MergeIsPermutation(tr, a, b[1..]);
      forall i | 0 <= i < |rest| ensures !tr.Less(rest[i], b[0]) {
        assert rest[i] in multiset(a) + multiset(b[1..]);
        if rest[i] in a {
          var j :| 0 <= j < |a| && a[j] == rest[i];
          assert j == 0 || !tr.Less(a[j], a[0]);
        } else {
          assert rest[i] in b[1..];
          var j :| 1 <= j < |b| && b[j] == rest[i];
          assert !tr.Less(b[j], b[0]);
        }
      }
      AscendingCons(tr, b[0], rest);
    } else {
      var rest := Merge(tr, a[1..], b);
      MergeIsAscending(tr, a[1..], b);
      MergeIsPermutation(tr, a[1..], b);
      forall i | 0 <= i < |rest| ensures !tr.Less(rest[i], a[0]) {
        assert rest[i] in multiset(a[1..]) + multiset(b);
        if rest[i] in a[1..] {
          var j :| 1 <= j < |a| && a[j] == rest[i];
          assert !tr.Less(a[j], a[0]);
        } else {
          var j :| 0 <= j < |b| && b[j] == rest[i];
          assert j == 0 || !tr.Less(b[j], b[0]);
        }
      }
      AscendingCons(tr, a[0], rest);
    }
  }

  /** Stability of the merge: every element of the strictly ascending first run
      is, in the merged sequence, the first element with its key, so no equal
      element of the second run is placed before it. */
  lemma {:induction false} MergeKeepsFirstRunFirst<K(!new), E>(tr: Traits<K, E>, a: seq<E>, b: seq<E>, k: nat)
    requires ValidTraits(tr) && StrictlyAscending(tr, a) && k < |a|
    ensures exists i :: FirstOfKey(tr, Merge(tr, a, b), i) && Merge(tr, a, b)[i] == a[k]
    decreases |a| + |b|
  {
    var m := Merge(tr, a, b);
    if b == [] {
      assert FirstOfKey(tr, m, k);
    } else if tr.Less(b[0], a[0]) {
      var rest := Merge(tr, a, b[1..]);
      MergeKeepsFirstRunFirst(tr, a, b[1..], k);
      var i :| FirstOfKey(tr, rest, i) && rest[i] == a[k];
      assert k == 0 || tr.Less(a[0], a[k]);
      assert tr.Less(b[0], a[k]);
      assert m == [b[0]] + rest;
      assert FirstOfKey(tr, m, i + 1);
    } else if k == 0 {
      assert FirstOfKey(tr, m, 0);
    } else {
      var rest := Merge(tr, a[1..], b);
      MergeKeepsFirstRunFirst(tr, a[1..], b, k - 1);
      var i :| FirstOfKey(tr, rest, i) && rest[i] == a[k];
      assert tr.Less(a[0], a[k]);
      assert m == [a[0]] + rest;
      assert FirstOfKey(tr, m, i + 1);
    }
  }

  /** Unique keeps a sub-multiset of its input. */
  lemma {:induction false} UniqueIsSubMultiset<K, E>(tr: Traits<K, E>, s: seq<E>)
    ensures multiset(Unique(tr, s)) <= multiset(s)
    decreases |s|
  {
    if |s| <= 1 {
    } else if tr.Equal(s[0], s[1]) {
      UniqueIsSubMultiset(tr, [s[0]] + s[2..]);
      assert s == [s[0]] + [s[1]] + s[2..];
    } else {
      UniqueIsSubMultiset(tr, s[1..]);
      assert s == [s[0]] + s[1..];
    }
  }

  /** Unique loses no key: every input element has an equal element in the result. */
  lemma {:induction false} UniqueCoversKeys<K(!new), E>(tr: Traits<K, E>, s: seq<E>)
    requires ValidTraits(tr)
    ensures CoversKeys(tr, Unique(tr, s), s)
    decreases |s|
  {
    var u := Unique(tr, s);
    if |s| <= 1 {
      if |s| == 1 {
        assert tr.Equal(u[0], s[0]);
      }
    } else if tr.Equal(s[0], s[1]) {
      var t := [s[0]] + s[2..];
      UniqueCoversKeys(tr, t);
      forall i | 0 <= i < |s| ensures HasEquivalent(tr, u, s[i]) {
        if i == 0 {
          assert s[i] == t[0];
        } else if i == 1 {
          assert tr.Equal(u[0], s[1]);
        } else {
          assert s[i] == t[i - 1];
        }
      }
    } else {
      var r := Unique(tr, s[1..]);
      UniqueCoversKeys(tr, s[1..]);
      forall i | 0 <= i < |s| ensures HasEquivalent(tr, u, s[i]) {
        if i == 0 {
          assert tr.Equal(u[0], s[0]);
        } else {
          assert s[i] == s[1..][i - 1];
          var j :| 0 <= j < |r| && tr.Equal(r[j], s[i]);
          assert u[j + 1] == r[j];
        }
      }
    }
  }

  /** Unique of an ascending sequence is strictly ascending: sort then unique
      establishes the container invariant. */
  lemma {:induction false} UniqueIsStrictlyAscending<K(!new), E>(tr: Traits<K, E>, s: seq<E>)
    requires ValidTraits(tr) && Ascending(tr, s)
    ensures StrictlyAscending(tr, Unique(tr, s))
    decreases |s|
  {
    if |s| <= 1 {
    } else if tr.Equal(s[0], s[1]) {
      var t := [s[0]] + s[2..];
      forall i, j | 0 <= i < j < |t| ensures !tr.Less(t[j], t[i]) {
        assert t[j] == s[j + 1];
        if i > 0 {
          assert t[i] == s[i + 1];
        }
      }
      UniqueIsStrictlyAscending(tr, t);
    } else {
      var r := Unique(tr, s[1..]);
      UniqueIsStrictlyAscending(tr, s[1..]);
      UniqueIsSubMultiset(tr, s[1..]);
      assert tr.Less(s[0], s[1]);
      forall j | 0 <= j < |r| ensures tr.Less(s[0], r[j]) {
        assert r[j] in multiset(s[1..]);
        var k :| 0 <= k < |s[1..]| && s[1..][k] == r[j];
        assert k == 0 || !tr.Less(s[k + 1], s[1]);
      }
      var u := [s[0]] + r;
      forall i, j | 0 <= i < j < |u| ensures tr.Less(u[i], u[j]) {
        assert u[j] == r[j - 1];
        if i > 0 {
          assert u[i] == r[i - 1];
        }
      }
    }
  }

  /** The first element with its key survives Unique: it is never equal to the
      element kept last before it. */
  lemma {:induction false} UniqueKeepsFirstOfKey<K, E>(tr: Traits<K, E>, s: seq<E>, i: int)
    requires FirstOfKey(tr, s, i)
    ensures s[i] in Unique(tr, s)
    decreases |s|
  {
    if i == 0 {
    } else if tr.Equal(s[0], s[1]) {
      var t := [s[0]] + s[2..];
      assert t[i - 1] == s[i];
      forall j | 0 <= j < i - 1 ensures !tr.Equal(t[j], t[i - 1]) {
        if j > 0 {
          assert t[j] == s[j + 1];
        }
      }
      UniqueKeepsFirstOfKey(tr, t, i - 1);
    } else {
      var t := s[1..];
      forall j | 0 <= j < i - 1 ensures !tr.Equal(t[j], t[i - 1]) {
        assert t[j] == s[j + 1];
      }
      UniqueKeepsFirstOfKey(tr, t, i - 1);
    }
  }

  /** Unique changes nothing in a sequence that is already strictly ascending. */
  lemma {:induction false} UniqueOfStrictlyAscending<K, E>(tr: Traits<K, E>, s: seq<E>)
    requires StrictlyAscending(tr, s)
    ensures Unique(tr, s) == s
    decreases |s|
  {
    if |s| > 1 {
      assert tr.Less(s[0], s[1]);
      UniqueOfStrictlyAscending(tr, s[1..]);
      assert s == [s[0]] + s[1..];
    }
  }

  /** A strictly ascending sequence is the only ascending arrangement of its
      elements, so sorting it gives it back whichever sort is used. */
  lemma {:induction false} AscendingPermutationOfStrict<K(!new), E>(tr: Traits<K, E>, s: seq<E>, r: seq<E>)
    requires ValidTraits(tr) && StrictlyAscending(tr, s)
    requires Ascending(tr, r) && multiset(r) == multiset(s)
    ensures r == s
    decreases |s|
  {
    assert |r| == |multiset(r)| == |multiset(s)| == |s|;
    if |s| > 0 {
      PermutationHead(tr, s, r);
      assert r == [r[0]] + r[1..];
      assert s == [s[0]] + s[1..];
      calc {
        multiset(r[1..]);
        multiset(r) - multiset{r[0]};
        multiset(s) - multiset{s[0]};
        multiset(s[1..]);
      }
      AscendingPermutationOfStrict(tr, s[1..], r[1..]);
    }
  }

  /** An ascending permutation of a strictly ascending sequence starts with
      the same element. */
  lemma PermutationHead<K(!new), E>(tr: Traits<K, E>, s: seq<E>, r: seq<E>)
    requires ValidTraits(tr) && StrictlyAscending(tr, s)
    requires Ascending(tr, r) && multiset(r) == multiset(s) && |s| > 0 && |r| > 0
    ensures r[0] == s[0]
  {
    assert s[0] in multiset(r);
    var j :| 0 <= j < |r| && r[j] == s[0];
    assert r[0] in multiset(s);
    var i :| 0 <= i < |s| && s[i] == r[0];
    assert j == 0 || !tr.Less(r[j], r[0]);
  }

  /** Two strictly ascending sequences with the same elements are equal: a
      normalised body is determined by the set of elements it holds. */
  lemma {:induction false} StrictlyAscendingBySet<K(!new), E>(tr: Traits<K, E>, a: seq<E>, b: seq<E>)
    requires ValidTraits(tr) && StrictlyAscending(tr, a) && StrictlyAscending(tr, b)
    requires forall x :: x in a <==> x in b
    ensures a == b
    decreases |a|
  {
    if |a| == 0 {
      forall x ensures x !in multiset(b) {
        assert x !in a;
      }
      assert multiset(b) == multiset{};
      assert |b| == |multiset(b)| == 0;
    } else {
      assert a[0] in b;
      SameMembersSameHead(tr, a, b);
      forall x ensures x in a[1..] <==> x in b[1..] {
        if x in a[1..] {
          MemberOfTail(tr, a, b, x);
        }
        if x in b[1..] {
          MemberOfTail(tr, b, a, x);
        }
      }
      StrictlyAscendingBySet(tr, a[1..], b[1..]);
      assert a == [a[0]] + a[1..];
      assert b == [b[0]] + b[1..];
    }
  }

  /** The smallest element is the same in both. */
  lemma SameMembersSameHead<K(!new), E>(tr: Traits<K, E>, a: seq<E>, b: seq<E>)
    requires ValidTraits(tr) && StrictlyAscending(tr, a) && StrictlyAscending(tr, b)
    requires forall x :: x in a <==> x in b
    requires |a| > 0 && |b| > 0
    ensures a[0] == b[0]
  {
    assert a[0] in b;
    var j :| 0 <= j < |b| && b[j] == a[0];
    assert b[0] in a;
    var i :| 0 <= i < |a| && a[i] == b[0];
    assert i == 0 || tr.Less(a[0], b[0]);
    assert j == 0 || tr.Less(b[0], a[0]);
  }

  /** With equal heads, an element of one tail is an element of the other. */
  lemma MemberOfTail<K(!new), E>(tr: Traits<K, E>, a: seq<E>, b: seq<E>, x: E)
    requires ValidTraits(tr) && StrictlyAscending(tr, a)
    requires forall y :: y in a ==> y in b
    requires |a| > 0 && |b| > 0 && a[0] == b[0] && x in a[1..]
    ensures x in b[1..]
  {
    var k :| 1 <= k < |a| && a[k] == x;
    assert tr.Less(a[0], x);
    assert x in b;
    var m :| 0 <= m < |b| && b[m] == x;
    assert m != 0;
    assert b[1..][m - 1] == x;
  }
}
