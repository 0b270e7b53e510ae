/**
 * The set layer: set_compare, whose value type is its key type, so key
 * extraction is the identity and `cmp` is the user comparison on the two
 * values.  flat_set is the engine instantiated with these traits.
 */
module FlatSet {
  import opened Comparator
  import opened SortedSequence
  import opened Lexicographic
  import opened FlatSortedContainerBase

  /** key_from_value: the value is its own key. */
  function KeyFromValue<K>(value: K): K {
    value
  }

  /** set_compare as the engine sees it. */
  function SetTraits<K>(compare: (K, K) -> bool): (tr: Traits<K, K>)
    ensures tr.cmp == compare
  {
    Traits(compare, KeyFromValue)
  }

  /** The engine's comparisons under set traits: `cmp` is the user comparison on
      the two values, `equal` is mutual non-less, and a value is its own key. */
  lemma SetTraitsAgree<K>(compare: (K, K) -> bool, a: K, b: K)
    ensures SetTraits(compare).Key(a) == a
    ensures SetTraits(compare).Less(a, b) == compare(a, b)
    ensures SetTraits(compare).Equal(a, b) == (!compare(a, b) && !compare(b, a))
    ensures SetTraits(compare).EqualKey(a, b) == SetTraits(compare).Equal(a, b)
  {
  }

  /** SortedSequence.StrictlyAscendingBySet instantiated with set traits: when
      the set's comparison is a strict total order, a normalised set is
      determined by its members. */
  lemma {:induction false} SetIsDeterminedByMembers<K(!new)>(compare: (K, K) -> bool, a: seq<K>, b: seq<K>)
    requires IsStrictTotalOrder(compare)
    requires StrictlyAscending(SetTraits(compare), a) && StrictlyAscending(SetTraits(compare), b)
    requires forall x :: x in a <==> x in b
    ensures a == b
  {
    StrictlyAscendingBySet(SetTraits(compare), a, b);
  }

  /** A set normalised from `input` under a strict total order holds exactly the
      members of `input`. */
  lemma NormalisedSetMembers<K(!new)>(compare: (K, K) -> bool, input: seq<K>, r: seq<K>)
    requires IsStrictTotalOrder(compare)
    requires multiset(r) <= multiset(input) && CoversKeys(SetTraits(compare), r, input)
    ensures forall x :: x in r <==> x in input
  {
    forall x | x in r ensures x in input {
      assert x in multiset(r);
    }
    forall x | x in input ensures x in r {
      var i :| 0 <= i < |input| && input[i] == x;
      assert HasEquivalent(SetTraits(compare), r, input[i]);
      var j :| 0 <= j < |r| && SetTraits(compare).Equal(r[j], x);
      EquivalentIsEqualityForTotalOrder(compare, r[j], x);
    }
  }

  /** The keys of the map test data, repeats included, in input order. */
  function RegularKeys(): seq<string> {
    ["b", "b", "a", "fr", "fa", "d", "a", "long", "q"]
  }

  /** Whatever normalisation produced it, a strictly ascending body drawn from
      RegularKeys() that loses none of them is the sorted list of distinct keys. */
  lemma RegularKeysNormalise(r: seq<string>)
    requires StrictlyAscending(SetTraits(StringLess), r)
    requires multiset(r) <= multiset(RegularKeys()) && CoversKeys(SetTraits(StringLess), r, RegularKeys())
    ensures r == ["a", "b", "d", "fa", "fr", "long", "q"]
  {
    StringLessIsStrictTotalOrder();
    NormalisedSetMembers(StringLess, RegularKeys(), r);
    var expected := ["a", "b", "d", "fa", "fr", "long", "q"];
    ExpectedIsStrictlyAscending();
    assert forall x :: x in RegularKeys() <==> x in expected;
    SetIsDeterminedByMembers(StringLess, r, expected);
  }

  lemma ExpectedIsStrictlyAscending()
    ensures StrictlyAscending(SetTraits(StringLess), ["a", "b", "d", "fa", "fr", "long", "q"])
  {
  }

  /** A set built from keys with repeats holds each key once, in ascending
      order, as std::set does. */
  method BuildFromRepeatedKeys() returns (s: FlatSortedContainer<string, string>)
    ensures s.Valid()
    ensures s.body == ["a", "b", "d", "fa", "fr", "long", "q"]
  {
    StringLessIsStrictTotalOrder();
    s := new FlatSortedContainer.FromBody(SetTraits(StringLess), RegularKeys());
    RegularKeysNormalise(s.body);
  }

  /** Bulk insert of the same keys into an empty set gives the same set. */
  method BulkInsertKeys() returns (s: FlatSortedContainer<string, string>)
    ensures s.Valid()
    ensures s.body == ["a", "b", "d", "fa", "fr", "long", "q"]
  {
    StringLessIsStrictTotalOrder();
    s := new FlatSortedContainer.Empty(SetTraits(StringLess));
    s.InsertRange(RegularKeys());
    assert multiset(s.body) <= multiset(RegularKeys());
    RegularKeysNormalise(s.body);
  }
}
