/**
 * The map layer: base_map_traits, which orders key/value pairs by their keys
 * alone, and the two members flat_map adds to the engine, `at` and
 * `operator[]`.  A map is the engine instantiated with elements of type
 * (K, V) and traits whose key extraction is the pair's first component.
 */
module FlatMap {
  import opened Comparator
  import opened SortedSequence
  import opened Lexicographic
  import opened FlatSortedContainerBase

  datatype Option<T> = None | Some(value: T)

  /** `at` either yields the mapped value or signals std::out_of_range with its message. */
  datatype Result<T> = Success(value: T) | Failure(error: string)

  /** One argument of a base_map_traits comparison: the overload set accepts a
      bare key or a key/value pair on either side. */
  datatype Operand<K, V> = KeyArg(key: K) | PairArg(pair: (K, V))

  /** key_from_value: the pair's first component. */
  function KeyFromValue<K, V>(p: (K, V)): K {
    p.0
  }

  /** The key an operand contributes to a comparison. */
  function OperandKey<K, V>(x: Operand<K, V>): K {
    match x
    case KeyArg(k) => k
    case PairArg(p) => KeyFromValue(p)
  }

  /** The four `cmp` overloads (key/key, pair/key, key/pair, pair/pair): each
      applies the user comparison to the two keys. */
  function Cmp<K, V>(compare: (K, K) -> bool, lhs: Operand<K, V>, rhs: Operand<K, V>): (r: bool)
    ensures r == compare(OperandKey(lhs), OperandKey(rhs))
    decreases (if lhs.PairArg? then 1 else 0) + (if rhs.PairArg? then 1 else 0)
  {
    match (lhs, rhs)
    case (KeyArg(a), KeyArg(b)) => compare(a, b)
    case (PairArg(a), KeyArg(b)) => Cmp<K, V>(compare, KeyArg(a.0), KeyArg(b))
    case (KeyArg(a), PairArg(b)) => Cmp<K, V>(compare, KeyArg(a), KeyArg(b.0))
    case (PairArg(a), PairArg(b)) => Cmp<K, V>(compare, KeyArg(a.0), KeyArg(b.0))
  }

  /** The template `equal`: neither operand is ordered before the other. */
  function Equal<K, V>(compare: (K, K) -> bool, lhs: Operand<K, V>, rhs: Operand<K, V>): bool {
    !Cmp(compare, lhs, rhs) && !Cmp(compare, rhs, lhs)
  }

  /** The mapped value never affects `cmp` or `equal`: two pairs with the same
      key compare the same way against anything. */
  lemma MappedValueIsIgnored<K, V>(compare: (K, K) -> bool, k: K, v1: V, v2: V, x: Operand<K, V>)
    ensures Cmp(compare, PairArg((k, v1)), x) == Cmp(compare, PairArg((k, v2)), x) == Cmp(compare, KeyArg(k), x)
    ensures Cmp(compare, x, PairArg((k, v1))) == Cmp(compare, x, PairArg((k, v2))) == Cmp(compare, x, KeyArg(k))
    ensures Equal(compare, PairArg((k, v1)), x) == Equal(compare, PairArg((k, v2)), x)
  {
  }

  /** `equal` is symmetric for every comparison, reflexive for every irreflexive
      one, and transitive when the comparison is a strict weak order. */
  lemma EqualIsEquivalence<K(!new), V>(compare: (K, K) -> bool, a: Operand<K, V>, b: Operand<K, V>, c: Operand<K, V>)
    ensures Equal(compare, a, b) == Equal(compare, b, a)
    ensures !compare(OperandKey(a), OperandKey(a)) ==> Equal(compare, a, a)
    ensures IsStrictWeakOrder(compare) && Equal(compare, a, b) && Equal(compare, b, c) ==> Equal(compare, a, c)
  {
    EquivalentIsEquivalence(compare, OperandKey(a), OperandKey(b), OperandKey(c));
  }

  /** flat_map_traits as the engine sees them. */
  function MapTraits<K(!new), V(!new)>(compare: (K, K) -> bool): (tr: Traits<K, (K, V)>)
    ensures forall p :: tr.Key(p) == p.0
  {
    Traits(compare, KeyFromValue)
  }

  /** The traits of a map: key extraction is the first component. */
  ghost predicate IsMapTraits<K(!new), V(!new)>(tr: Traits<K, (K, V)>) {
    forall p: (K, V) :: tr.Key(p) == p.0
  }

  /** The engine's element/element and element/key comparisons under map traits
      are the pair/pair and pair/key overloads. */
  lemma MapTraitsAgree<K(!new), V(!new)>(compare: (K, K) -> bool, a: (K, V), b: (K, V), k: K)
    ensures IsMapTraits(MapTraits<K, V>(compare))
    ensures MapTraits<K, V>(compare).Less(a, b) == Cmp(compare, PairArg(a), PairArg(b))
    ensures MapTraits<K, V>(compare).Equal(a, b) == Equal(compare, PairArg(a), PairArg(b))
    ensures MapTraits<K, V>(compare).EqualKey(a, k) == Equal(compare, PairArg(a), KeyArg(k))
  {
  }

  /** The mapped value of the first element whose key is equivalent to `k`: the
      reference meaning of "find, then ->second". */
  function Lookup<K, V>(tr: Traits<K, (K, V)>, s: seq<(K, V)>, k: K): (r: Option<V>)
    ensures r.Some? <==> HasKey(tr, s, k)
    ensures r.Some? ==> exists i :: 0 <= i < |s| && tr.EqualKey(s[i], k) && s[i].1 == r.value
  {
    if |s| == 0 then None
    else if tr.EqualKey(s[0], k) then Some(s[0].1)
    else
      var r := Lookup(tr, s[1..], k);
      assert r.Some? ==> exists i :: 0 < i < |s| && tr.EqualKey(s[i], k) && s[i].1 == r.value by {
        if r.Some? {
          var i :| 0 <= i < |s| - 1 && tr.EqualKey(s[1..][i], k) && s[1..][i].1 == r.value;
          assert s[i + 1] == s[1..][i];
        }
      }
      assert HasKey(tr, s[1..], k) ==> HasKey(tr, s, k) by {
        if HasKey(tr, s[1..], k) {
          var i :| 0 <= i < |s| - 1 && tr.EqualKey(s[1..][i], k);
          assert s[i + 1] == s[1..][i];
        }
      }
      assert HasKey(tr, s, k) ==> HasKey(tr, s[1..], k) by {
        if HasKey(tr, s, k) {
          var i :| 0 <= i < |s| && tr.EqualKey(s[i], k);
          assert s[1..][i - 1] == s[i];
        }
      }
      r
  }

  /** In a normalised body the element equal to `k` is the only one, so its
      mapped value is what Lookup finds. */
  lemma {:induction false} LookupFindsTheElement<K(!new), V>(tr: Traits<K, (K, V)>, s: seq<(K, V)>, k: K, i: int)
    requires ValidTraits(tr) && StrictlyAscending(tr, s)
    requires 0 <= i < |s| && tr.EqualKey(s[i], k)
    ensures Lookup(tr, s, k) == Some(s[i].1)
    decreases i
  {
    if i > 0 {
      assert tr.Less(s[0], s[i]);
      assert !tr.EqualKey(s[0], k);
      assert StrictlyAscending(tr, s[1..]);
      assert s[1..][i - 1] == s[i];
      LookupFindsTheElement(tr, s[1..], k, i - 1);
    }
  }

  /** An element whose key differs from `k` is invisible to Lookup(k). */
  lemma {:induction false} LookupSkipsOtherKey<K, V>(tr: Traits<K, (K, V)>, a: seq<(K, V)>, x: (K, V), b: seq<(K, V)>, k: K)
    requires !tr.EqualKey(x, k)
    ensures Lookup(tr, a + [x] + b, k) == Lookup(tr, a + b, k)
    decreases |a|
  {
    if |a| == 0 {
      assert a + [x] + b == [x] + b;
      assert ([x] + b)[1..] == b;
      assert a + b == b;
    } else {
      assert (a + [x] + b)[1..] == a[1..] + [x] + b;
      assert (a + b)[1..] == a[1..] + b;
      assert (a + [x] + b)[0] == a[0] == (a + b)[0];
      LookupSkipsOtherKey(tr, a[1..], x, b, k);
    }
  }

  /** at(key): the mapped value of the element find(key) locates, or
      std::out_of_range("flat_map::at") when find returns end(). */
  method At<K(!new), V>(m: FlatSortedContainer<K, (K, V)>, key: K) returns (r: Result<V>)
    requires m.Valid()
    ensures r.Failure? <==> !HasKey(m.traits, m.body, key)
    ensures r.Failure? ==> r.error == "flat_map::at"
    ensures r.Success? ==> Lookup(m.traits, m.body, key) == Some(r.value)
  {
    var pos := m.Find(key);
    if pos == |m.body| {
      r := Failure("flat_map::at");
    } else {
      LookupFindsTheElement(m.traits, m.body, key, pos);
      r := Success(m.body[pos].1);
    }
  }

  /** operator[](key): the index of the element equal to `key`; when there is
      none, (key, defaultValue) is emplaced at the lower bound through an unsafe
      region that is released, since the body is still strictly ascending.
      `defaultValue` stands for the value-initialised mapped_type(). */
  method Index<K(!new), V(!new)>(m: FlatSortedContainer<K, (K, V)>, key: K, defaultValue: V) returns (pos: nat)
    requires m.Valid() && IsMapTraits(m.traits)
    modifies m
    ensures m.Valid()
    ensures pos < |m.body| && m.traits.EqualKey(m.body[pos], key)
    ensures HasKey(m.traits, old(m.body), key) ==> m.body == old(m.body)
    ensures !HasKey(m.traits, old(m.body), key) ==>
              && LowerBoundOf(m.traits, old(m.body), key, pos)
              && m.body == old(m.body)[..pos] + [(key, defaultValue)] + old(m.body)[pos..]
  {
    pos := m.LowerBound(key);
    LowerBoundDecidesKey(m.traits, m.body, key, pos);
    if pos < |m.body| && m.traits.EqualKey(m.body[pos], key) {
      return;
    }
    ghost var before := m.body;
    assert m.traits.Key((key, defaultValue)) == key;
    InsertAtLowerBound(m.traits, m.body, (key, defaultValue), pos);
    var guard := m.UnsafeAccess();
    pos := guard.Emplace(pos, (key, defaultValue));
    guard.Release();
    guard.Close();
    assert m.body[pos] == (key, defaultValue);
  }

  /** `m[key] = value`: operator[] followed by a write through the reference it
      returns.  Afterwards `key` maps to `value` and every other key maps to
      what it mapped to before. */
  method Assign<K(!new), V(!new)>(m: FlatSortedContainer<K, (K, V)>, key: K, value: V, defaultValue: V)
    requires m.Valid() && IsMapTraits(m.traits)
    modifies m
    ensures m.Valid()
    ensures forall k :: Equivalent(m.traits.cmp, k, key) ==> Lookup(m.traits, m.body, k) == Some(value)
    ensures forall k :: !Equivalent(m.traits.cmp, k, key) ==> Lookup(m.traits, m.body, k) == Lookup(m.traits, old(m.body), k)
  {
    ghost var before := m.body;
    var pos := Index(m, key, defaultValue);
    if !HasKey(m.traits, before, key) {
      InsertedKeyIsInvisible(m.traits, before, pos, (key, defaultValue), key);
    }
    WriteMappedValue(m.traits, m.body, pos, key, value);
    m.body := m.body[pos := (m.body[pos].0, value)];
  }

  /** Writing through the reference operator[] returns: the element keeps its
      key, so the body stays normalised, and only the lookups of that key see
      the new value. */
  lemma WriteMappedValue<K(!new), V(!new)>(tr: Traits<K, (K, V)>, s: seq<(K, V)>, pos: int, key: K, value: V)
    requires ValidTraits(tr) && IsMapTraits(tr) && StrictlyAscending(tr, s)
    requires 0 <= pos < |s| && tr.EqualKey(s[pos], key)
    ensures StrictlyAscending(tr, s[pos := (s[pos].0, value)])
    ensures forall k :: Equivalent(tr.cmp, k, key) ==> Lookup(tr, s[pos := (s[pos].0, value)], k) == Some(value)
    ensures forall k :: !Equivalent(tr.cmp, k, key) ==> Lookup(tr, s[pos := (s[pos].0, value)], k) == Lookup(tr, s, k)
  {
    var old_pair := s[pos];
    var t := s[pos := (old_pair.0, value)];
    assert tr.Key(t[pos]) == tr.Key(old_pair);
    assert StrictlyAscending(tr, t) by {
      forall i, j | 0 <= i < j < |t| ensures tr.Less(t[i], t[j]) {
        assert tr.Less(s[i], s[j]);
        assert tr.Key(t[i]) == tr.Key(s[i]) && tr.Key(t[j]) == tr.Key(s[j]);
      }
    }
    assert t == s[..pos] + [(old_pair.0, value)] + s[pos + 1..];
    assert s == s[..pos] + [old_pair] + s[pos + 1..];
    forall k | Equivalent(tr.cmp, k, key)
      ensures Lookup(tr, t, k) == Some(value)
    {
      EquivalentIsEquivalence(tr.cmp, old_pair.0, key, k);
      LookupFindsTheElement(tr, t, k, pos);
    }
    forall k | !Equivalent(tr.cmp, k, key)
      ensures Lookup(tr, t, k) == Lookup(tr, s, k)
    {
      EquivalentIsEquivalence(tr.cmp, k, key, old_pair.0);
      LookupSkipsOtherKey(tr, s[..pos], (old_pair.0, value), s[pos + 1..], k);
      LookupSkipsOtherKey(tr, s[..pos], old_pair, s[pos + 1..], k);
    }
  }

  /** Inserting an element with key `key` does not change the lookup of any
      other key. */
  lemma InsertedKeyIsInvisible<K(!new), V>(tr: Traits<K, (K, V)>, s: seq<(K, V)>, pos: int, x: (K, V), key: K)
    requires ValidTraits(tr) && 0 <= pos <= |s| && tr.Key(x) == key
    ensures forall k :: !Equivalent(tr.cmp, k, key) ==> Lookup(tr, s[..pos] + [x] + s[pos..], k) == Lookup(tr, s, k)
  {
    forall k | !Equivalent(tr.cmp, k, key)
      ensures Lookup(tr, s[..pos] + [x] + s[pos..], k) == Lookup(tr, s, k)
    {
      LookupSkipsOtherKey(tr, s[..pos], x, s[pos..], k);
      assert s[..pos] + s[pos..] == s;
    }
  }

  /** The mapped value the last of `writes` with a key equivalent to `k` assigns:
      what a sequence of `m[k] = v` leaves for `k` in std::map. */
  function LastWrite<K, V>(compare: (K, K) -> bool, writes: seq<(K, V)>, k: K): (r: Option<V>)
    ensures r.Some? <==> exists i :: 0 <= i < |writes| && Equivalent(compare, writes[i].0, k)
  {
    if |writes| == 0 then None
    else if Equivalent(compare, writes[|writes| - 1].0, k) then Some(writes[|writes| - 1].1)
    else
      var init := writes[..|writes| - 1];
      var r := LastWrite(compare, init, k);
      assert (exists i :: 0 <= i < |writes| && Equivalent(compare, writes[i].0, k))
         ==> (exists i :: 0 <= i < |init| && Equivalent(compare, init[i].0, k)) by {
        if exists i :: 0 <= i < |writes| && Equivalent(compare, writes[i].0, k) {
          var i :| 0 <= i < |writes| && Equivalent(compare, writes[i].0, k);
          assert init[i] == writes[i];
        }
      }
      r
  }

  /** One more write: it wins for its own key and leaves the others alone. */
  lemma LastWriteStep<K, V>(compare: (K, K) -> bool, writes: seq<(K, V)>, n: int)
    requires 0 <= n < |writes|
    ensures forall k :: (LastWrite(compare, writes[..n + 1], k) ==
      if Equivalent(compare, k, writes[n].0) then Some(writes[n].1) else LastWrite(compare, writes[..n], k))
  {
    assert writes[..n + 1][..n] == writes[..n];
    assert writes[..n + 1][n] == writes[n];
  }

  /** Performing `m[k] = v` for each pair of `writes` in turn: the last write to
      a key wins and untouched keys keep their values, as with std::map. */
  method AssignAll<K(!new), V(!new)>(m: FlatSortedContainer<K, (K, V)>, writes: seq<(K, V)>, defaultValue: V)
    requires m.Valid() && IsMapTraits(m.traits)
    modifies m
    ensures m.Valid()
    ensures forall k :: (Lookup(m.traits, m.body, k) ==
      if LastWrite(m.traits.cmp, writes, k).Some? then LastWrite(m.traits.cmp, writes, k) else Lookup(m.traits, old(m.body), k))
  {
    for n := 0 to |writes|
      invariant m.Valid()
      invariant forall k :: (Lookup(m.traits, m.body, k) ==
        if LastWrite(m.traits.cmp, writes[..n], k).Some? then LastWrite(m.traits.cmp, writes[..n], k) else Lookup(m.traits, old(m.body), k))
    {
      Assign(m, writes[n].0, writes[n].1, defaultValue);
      LastWriteStep(m.traits.cmp, writes, n);
    }
    assert writes[..|writes|] == writes;
  }

  /** The keys the map test data writes to. */
  function RegularKeys(): seq<string> {
    ["a", "b", "d", "fa", "fr", "long", "q"]
  }

  /** The key/value pairs of the map test data, repeated keys included. */
  function RegularKeyValuePairs(): seq<(string, int)> {
    [("b", 3), ("b", 5), ("a", 3), ("fr", 3), ("fa", 3), ("d", 12), ("a", 7), ("long", 1233), ("q", 0)]
  }

  /** Assigning every pair through operator[] into an empty map keeps the last
      value written to each key, as std::map does. */
  method LastWriteWins() returns (m: FlatSortedContainer<string, (string, int)>)
    ensures m.Valid()
    ensures Lookup(m.traits, m.body, "a") == Some(7) && Lookup(m.traits, m.body, "b") == Some(5)
    ensures Lookup(m.traits, m.body, "d") == Some(12) && Lookup(m.traits, m.body, "fa") == Some(3)
    ensures Lookup(m.traits, m.body, "fr") == Some(3) && Lookup(m.traits, m.body, "long") == Some(1233)
    ensures Lookup(m.traits, m.body, "q") == Some(0)
    ensures forall k :: k !in RegularKeys() ==> Lookup(m.traits, m.body, k) == None
  {
    StringLessIsStrictTotalOrder();
    m := new FlatSortedContainer.Empty(MapTraits(StringLess));
    AssignAll(m, RegularKeyValuePairs(), 0);
    LastWritesOfRegularPairs(m.traits, m.body);
  }

  /** What the test pairs leave in any body whose lookups follow their last writes. */
  lemma LastWritesOfRegularPairs(tr: Traits<string, (string, int)>, body: seq<(string, int)>)
    requires tr.cmp == StringLess
    requires forall k :: (Lookup(tr, body, k) ==
      if LastWrite(tr.cmp, RegularKeyValuePairs(), k).Some? then LastWrite(tr.cmp, RegularKeyValuePairs(), k) else Lookup(tr, [], k))
    ensures Lookup(tr, body, "a") == Some(7) && Lookup(tr, body, "b") == Some(5)
    ensures Lookup(tr, body, "d") == Some(12) && Lookup(tr, body, "fa") == Some(3)
    ensures Lookup(tr, body, "fr") == Some(3) && Lookup(tr, body, "long") == Some(1233)
    ensures Lookup(tr, body, "q") == Some(0)
    ensures forall k :: k !in RegularKeys() ==> Lookup(tr, body, k) == None
  {
    RegularLastWrites();
    forall k | k !in RegularKeys() ensures Lookup(tr, body, k) == None {
      RegularUnwrittenKey(k);
    }
  }

  /** The write at `n` is the last one to its key when no later write is to an
      equal key: its value is the one std::map ends up holding. */
  lemma {:induction false} LastWriteIsLatest<K, V>(compare: (K, K) -> bool, writes: seq<(K, V)>, n: int, k: K)
    requires 0 <= n < |writes| && Equivalent(compare, writes[n].0, k)
    requires forall j :: n < j < |writes| ==> !Equivalent(compare, writes[j].0, k)
    ensures LastWrite(compare, writes, k) == Some(writes[n].1)
    decreases |writes|
  {
    if n < |writes| - 1 {
      var init := writes[..|writes| - 1];
      assert !Equivalent(compare, writes[|writes| - 1].0, k);
      assert init[n] == writes[n];
      forall j | n < j < |init| ensures !Equivalent(compare, init[j].0, k) {
        assert init[j] == writes[j];
      }
      LastWriteIsLatest(compare, init, n, k);
    }
  }

  /** The write at `n` is the last one to its key in the test data: every later
      write is to a key that orders strictly before or after it. */
  lemma RegularLastWriteAt(n: int)
    requires n in {1, 3, 4, 5, 6, 7, 8}
    ensures LastWrite(StringLess, RegularKeyValuePairs(), RegularKeyValuePairs()[n].0) == Some(RegularKeyValuePairs()[n].1)
  {
    var w := RegularKeyValuePairs();
    if n == 1 {
      assert StringLess("a", "b") && StringLess("b", "d") && StringLess("b", "fa") && StringLess("b", "fr") && StringLess("b", "long") && StringLess("b", "q");
      LastWriteIsLatest(StringLess, w, 1, "b");
    } else if n == 3 {
      assert StringLess("a", "fr") && StringLess("d", "fr") && StringLess("fa", "fr") && StringLess("fr", "long") && StringLess("fr", "q");
      LastWriteIsLatest(StringLess, w, 3, "fr");
    } else if n == 4 {
      assert StringLess("a", "fa") && StringLess("d", "fa") && StringLess("fa", "long") && StringLess("fa", "q");
      LastWriteIsLatest(StringLess, w, 4, "fa");
    } else if n == 5 {
      assert StringLess("a", "d") && StringLess("d", "long") && StringLess("d", "q");
      LastWriteIsLatest(StringLess, w, 5, "d");
    } else if n == 6 {
      assert StringLess("a", "long") && StringLess("a", "q");
      LastWriteIsLatest(StringLess, w, 6, "a");
    } else if n == 7 {
      assert StringLess("long", "q");
      LastWriteIsLatest(StringLess, w, 7, "long");
    } else {
      LastWriteIsLatest(StringLess, w, 8, "q");
    }
  }

  /** A key the test data never writes has no last write. */
  lemma RegularUnwrittenKey(k: string)
    requires k !in RegularKeys()
    ensures LastWrite(StringLess, RegularKeyValuePairs(), k) == None
  {
    StringLessIsStrictTotalOrder();
    var w := RegularKeyValuePairs();
    forall i | 0 <= i < |w| ensures !Equivalent(StringLess, w[i].0, k) {
      EquivalentIsEqualityForTotalOrder(StringLess, w[i].0, k);
    }
  }

  /** The last value written to each key of the test data: "a" is written
      twice, 3 and then 7, and "b" twice, 3 and then 5. */
  lemma RegularLastWrites()
    ensures LastWrite(StringLess, RegularKeyValuePairs(), "a") == Some(7)
    ensures LastWrite(StringLess, RegularKeyValuePairs(), "b") == Some(5)
    ensures LastWrite(StringLess, RegularKeyValuePairs(), "d") == Some(12)
    ensures LastWrite(StringLess, RegularKeyValuePairs(), "fa") == Some(3)
    ensures LastWrite(StringLess, RegularKeyValuePairs(), "fr") == Some(3)
    ensures LastWrite(StringLess, RegularKeyValuePairs(), "long") == Some(1233)
    ensures LastWrite(StringLess, RegularKeyValuePairs(), "q") == Some(0)
  {
    RegularLastWriteAt(1);
    RegularLastWriteAt(3);
    RegularLastWriteAt(4);
    RegularLastWriteAt(5);
    RegularLastWriteAt(6);
    RegularLastWriteAt(7);
    RegularLastWriteAt(8);
  }
}
