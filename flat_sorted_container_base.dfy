/**
 * The flat sorted container engine: one contiguous body kept strictly ascending
 * under the traits' key order, so no two of its elements are equal.  Lookups are
 * binary searches, single inserts shift the tail at the lower bound, bulk insert
 * appends, sorts the new tail, merges and drops duplicates, and an unsafe region
 * hands out the raw body and restores the invariant when it is closed.
 */
module FlatSortedContainerBase {
  import opened Comparator
  import opened SortedSequence
  import opened Lexicographic

  /** The deleter sort_and_unique: sort the body by key, then keep the first of
      every run of equal elements.  The result is strictly ascending, drawn from
      the input, loses no key, and is the input itself when that was already
      strictly ascending. */
  method SortAndUnique<K(!new), E>(tr: Traits<K, E>, body: seq<E>) returns (r: seq<E>)
    requires ValidTraits(tr)
    ensures StrictlyAscending(tr, r)
    ensures multiset(r) <= multiset(body)
    ensures CoversKeys(tr, r, body)
    ensures StrictlyAscending(tr, body) ==> r == body
  {
    var sorted := SortByKey(tr, body);
    r := Unique(tr, sorted);
    UniqueIsStrictlyAscending(tr, sorted);
    UniqueIsSubMultiset(tr, sorted);
    UniqueCoversKeys(tr, sorted);
    forall i | 0 <= i < |body| ensures HasEquivalent(tr, r, body[i]) {
      assert body[i] in multiset(sorted);
      var j :| 0 <= j < |sorted| && sorted[j] == body[i];
    }
    if StrictlyAscending(tr, body) {
      AscendingPermutationOfStrict(tr, body, sorted);
      UniqueOfStrictlyAscending(tr, body);
    }
  }

  /** What insert(value) does to `before`: `pos` is the lower bound of the key of
      `v`; if an equal element is there the body is unchanged and nothing is
      inserted, otherwise `v` is inserted at `pos`. */
  ghost predicate InsertOutcome<K, E>(tr: Traits<K, E>, before: seq<E>, v: E, after: seq<E>, pos: int, inserted: bool) {
    && LowerBoundOf(tr, before, tr.Key(v), pos)
    && inserted == !HasEquivalent(tr, before, v)
    && if inserted then after == before[..pos] + [v] + before[pos..]
       else pos < |before| && tr.Equal(before[pos], v) && after == before
  }

  /** Inserting at the lower bound when no equal element is there keeps the body
      strictly ascending. */
  lemma InsertAtLowerBound<K(!new), E>(tr: Traits<K, E>, s: seq<E>, v: E, pos: int)
    requires ValidTraits(tr) && StrictlyAscending(tr, s)
    requires LowerBoundOf(tr, s, tr.Key(v), pos)
    requires !(pos < |s| && tr.Equal(s[pos], v))
    ensures StrictlyAscending(tr, s[..pos] + [v] + s[pos..])
  {
    forall j | pos <= j < |s| ensures tr.Less(v, s[j]) {
      assert tr.Less(v, s[pos]);
      assert j == pos || tr.Less(s[pos], s[j]);
    }
    InsertKeepsStrictlyAscending(tr, s, pos, v);
  }

  /** insert(value) keeps the invariant, leaves an element equal to `v` at the
      returned index, and grows the body by one exactly when it inserts. */
  lemma InsertOutcomeKeepsInvariant<K(!new), E>(tr: Traits<K, E>, before: seq<E>, v: E, after: seq<E>, pos: int, inserted: bool)
    requires ValidTraits(tr) && StrictlyAscending(tr, before)
    requires InsertOutcome(tr, before, v, after, pos, inserted)
    ensures StrictlyAscending(tr, after)
    ensures 0 <= pos < |after| && tr.Equal(after[pos], v)
    ensures |after| == |before| + (if inserted then 1 else 0)
    ensures forall x :: x in before ==> x in after
  {
    LowerBoundDecidesKey(tr, before, tr.Key(v), pos);
    if inserted {
      InsertAtLowerBound(tr, before, v, pos);
      assert after[pos] == v;
      forall x | x in before ensures x in after {
        var i :| 0 <= i < |before| && before[i] == x;
        assert i < pos ==> after[i] == x;
        assert i >= pos ==> after[i + 1] == x;
      }
    }
  }

  /** Inserting the same element twice: the second insert reports the index of
      the first and changes nothing. */
  lemma InsertTwiceChangesNothing<K(!new), E>(tr: Traits<K, E>, s0: seq<E>, v: E, s1: seq<E>, p1: int, i1: bool, s2: seq<E>, p2: int, i2: bool)
    requires ValidTraits(tr) && StrictlyAscending(tr, s0)
    requires InsertOutcome(tr, s0, v, s1, p1, i1)
    requires InsertOutcome(tr, s1, v, s2, p2, i2)
    ensures !i2 && s2 == s1 && p2 == p1
  {
    InsertOutcomeKeepsInvariant(tr, s0, v, s1, p1, i1);
    assert tr.Equal(s1[p1], v);
    LowerBoundDecidesKey(tr, s1, tr.Key(v), p2);
    assert HasEquivalent(tr, s1, v);
    forall i | 0 <= i < p1 ensures tr.cmp(tr.Key(s1[i]), tr.Key(v)) {
      assert tr.Less(s1[i], s1[p1]);
    }
    forall i | p1 <= i < |s1| ensures !tr.cmp(tr.Key(s1[i]), tr.Key(v)) {
      assert i == p1 || tr.Less(s1[p1], s1[i]);
    }
  }

  /** A flat sorted container: `body` is the underlying vector, `traits` the
      comparator and key extraction it was instantiated with. */
  class FlatSortedContainer<K(!new), E> {
    const traits: Traits<K, E>
    var body: seq<E>

    /** The invariant every public operation keeps. */
    ghost predicate Valid()
      reads this
    {
      ValidTraits(traits) && StrictlyAscending(traits, body)
    }

    /** The default constructor. */
    constructor Empty(traits: Traits<K, E>)
      requires ValidTraits(traits)
      ensures Valid() && this.traits == traits && body == []
    {
      this.traits := traits;
      body := [];
    }

    /** Construction from an underlying vector or an iterator range: the body
        takes the input and an unsafe region, closed at once, normalises it. */
    constructor FromBody(traits: Traits<K, E>, input: seq<E>)
      requires ValidTraits(traits)
      ensures Valid() && this.traits == traits
      ensures multiset(body) <= multiset(input)
      ensures CoversKeys(traits, body, input)
    {
      this.traits := traits;
      body := input;
      new;
      var region := UnsafeAccess();
      region.Close();
    }

    /** unsafe_access(): a region over the raw body; closing it without a
        release runs sort_and_unique. */
    method UnsafeAccess() returns (region: UnsafeRegion<K, E>)
      ensures fresh(region) && region.owner == this
      ensures region.open && !region.released
    {
      region := new UnsafeRegion(this);
    }

    /** lower_bound(key): binary search for the first element not before `key`. */
    method LowerBound(key: K) returns (pos: nat)
      requires Valid()
      ensures LowerBoundOf(traits, body, key, pos)
    {
      var lo, hi := 0, |body|;
      while lo < hi
        invariant 0 <= lo <= hi <= |body|
        invariant forall i :: 0 <= i < lo ==> traits.cmp(traits.Key(body[i]), key)
        invariant forall i :: hi <= i < |body| ==> !traits.cmp(traits.Key(body[i]), key)
      {
        var mid := lo + (hi - lo) / 2;
        if traits.cmp(traits.Key(body[mid]), key) {
          lo := mid + 1;
        } else {
          hi := mid;
        }
      }
      pos := lo;
    }

    /** upper_bound(key): binary search for the first element after `key`. */
    method UpperBound(key: K) returns (pos: nat)
      requires Valid()
      ensures UpperBoundOf(traits, body, key, pos)
    {
      var lo, hi := 0, |body|;
      while lo < hi
        invariant 0 <= lo <= hi <= |body|
        invariant forall i :: 0 <= i < lo ==> !traits.cmp(key, traits.Key(body[i]))
        invariant forall i :: hi <= i < |body| ==> traits.cmp(key, traits.Key(body[i]))
      {
        var mid := lo + (hi - lo) / 2;
        if !traits.cmp(key, traits.Key(body[mid])) {
          lo := mid + 1;
        } else {
          hi := mid;
        }
      }
      pos := lo;
    }

    /** equal_range(key): the run of elements equal to `key`, between its lower
        and upper bound; under the invariant it holds at most one element. */
    method EqualRange(key: K) returns (first: nat, last: nat)
      requires Valid()
      ensures LowerBoundOf(traits, body, key, first) && UpperBoundOf(traits, body, key, last)
      ensures first <= last <= first + 1
      ensures forall i :: 0 <= i < |body| ==> (first <= i < last <==> traits.EqualKey(body[i], key))
    {
      first := LowerBound(key);
      last := UpperBound(key);
      BoundsDelimitEqualRange(traits, body, key, first, last);
    }

    /** find(key): the index of the element equal to `key`, or |body| (end())
        when there is none. */
    method Find(key: K) returns (pos: nat)
      requires Valid()
      ensures pos <= |body|
      ensures pos < |body| <==> HasKey(traits, body, key)
      ensures pos < |body| ==> traits.EqualKey(body[pos], key) && LowerBoundOf(traits, body, key, pos)
    {
      pos := LowerBound(key);
      LowerBoundDecidesKey(traits, body, key, pos);
      if pos == |body| || !traits.EqualKey(body[pos], key) {
        pos := |body|;
      }
    }

    /** count(key): the number of elements equal to `key`, 0 or 1. */
    method Count(key: K) returns (n: nat)
      requires Valid()
      ensures n == CountKey(traits, body, key)
      ensures n <= 1
      ensures n == 1 <==> HasKey(traits, body, key)
    {
      var first, last := EqualRange(key);
      n := last - first;
      EqualRunIsCountedAndRemoved(traits, body, key, first, last);
      CountKeyZeroIffAbsent(traits, body, key);
    }

    /** insert(value): insert `v` at the lower bound of its key unless an equal
        element is already there; return that index and whether it inserted. */
    method Insert(v: E) returns (pos: nat, inserted: bool)
      requires Valid()
      modifies this
      ensures Valid()
      ensures InsertOutcome(traits, old(body), v, body, pos, inserted)
    {
      pos := LowerBound(traits.Key(v));
      LowerBoundDecidesKey(traits, body, traits.Key(v), pos);
      if pos < |body| && traits.Equal(body[pos], v) {
        inserted := false;
      } else {
        InsertAtLowerBound(traits, body, v, pos);
        body := body[..pos] + [v] + body[pos..];
        inserted := true;
      }
    }

    /** insert(hint, value): the hint is ignored; the result is insert(value).first. */
    method InsertHint(hint: nat, v: E) returns (pos: nat)
      requires Valid()
      modifies this
      ensures Valid()
      ensures InsertOutcome(traits, old(body), v, body, pos, |body| != |old(body)|)
    {
      var inserted;
      pos, inserted := Insert(v);
    }

    /** emplace(args...): construct the element, then insert(value). */
    method Emplace(v: E) returns (pos: nat, inserted: bool)
      requires Valid()
      modifies this
      ensures Valid()
      ensures InsertOutcome(traits, old(body), v, body, pos, inserted)
    {
      pos, inserted := Insert(v);
    }

    /** emplace_hint(hint, args...): construct the element, then insert(hint, value). */
    method EmplaceHint(hint: nat, v: E) returns (pos: nat)
      requires Valid()
      modifies this
      ensures Valid()
      ensures InsertOutcome(traits, old(body), v, body, pos, |body| != |old(body)|)
    {
      pos := InsertHint(hint, v);
    }

    /** insert(first, last): append the range, sort the new tail, merge it into
        the old body, then erase the duplicates std::unique moved to the end.
        The old elements all survive (the merge is stable and unique keeps the
        first of a run); the keys of the range are added; which of several equal
        new elements survives is left open, as std::sort leaves it. */
    method InsertRange(items: seq<E>)
      requires Valid()
      modifies this
      ensures Valid()
      ensures forall i :: 0 <= i < |old(body)| ==> old(body)[i] in body
      ensures multiset(body) <= multiset(old(body)) + multiset(items)
      ensures CoversKeys(traits, body, old(body)) && CoversKeys(traits, body, items)
    {
      ghost var before := body;
      var n := |body|;
      body := body + items;
      var tail := SortByKey(traits, body[n..]);
      assert body[n..] == items;
      body := body[..n] + tail;
      assert body[..n] == before && body[n..] == tail;
      body := Merge(traits, body[..n], body[n..]);
      ghost var merged := body;
      body := Unique(traits, body);

      MergeIsPermutation(traits, before, tail);
      MergeIsAscending(traits, before, tail);
      UniqueIsStrictlyAscending(traits, merged);
      UniqueIsSubMultiset(traits, merged);
      UniqueCoversKeys(traits, merged);
      forall i | 0 <= i < |before| ensures before[i] in body {
        MergeKeepsFirstRunFirst(traits, before, tail, i);
        var j :| FirstOfKey(traits, merged, j) && merged[j] == before[i];
        UniqueKeepsFirstOfKey(traits, merged, j);
      }
      forall x | x in before || x in items ensures HasEquivalent(traits, body, x) {
        assert x in multiset(merged);
        var j :| 0 <= j < |merged| && merged[j] == x;
      }
    }

    /** erase(position): remove the element at `pos`; the result is the same index. */
    method Erase(pos: nat) returns (next: nat)
      requires Valid() && pos < |body|
      modifies this
      ensures Valid()
      ensures body == old(body)[..pos] + old(body)[pos + 1..]
      ensures next == pos
    {
      RemoveKeepsStrictlyAscending(traits, body, pos, pos + 1);
      body := body[..pos] + body[pos + 1..];
      next := pos;
    }

    /** erase(first, last): remove the run body[first..last]. */
    method EraseRange(first: nat, last: nat)
      requires Valid() && first <= last <= |body|
      modifies this
      ensures Valid()
      ensures body == old(body)[..first] + old(body)[last..]
    {
      RemoveKeepsStrictlyAscending(traits, body, first, last);
      body := body[..first] + body[last..];
    }

    /** erase(key): remove the equal range of `key` and return its length, which
        is count(key) before the call; afterwards no element equals `key` and the
        others keep their order. */
    method EraseKey(key: K) returns (n: nat)
      requires Valid()
      modifies this
      ensures Valid()
      ensures n == CountKey(traits, old(body), key) && n <= 1
      ensures body == Without(traits, old(body), key)
      ensures CountKey(traits, body, key) == 0 && !HasKey(traits, body, key)
    {
      var first, last := EqualRange(key);
      n := last - first;
      EqualRunIsCountedAndRemoved(traits, body, key, first, last);
      WithoutRemovesOnlyKey(traits, body, key);
      EraseRange(first, last);
      CountKeyZeroIffAbsent(traits, body, key);
    }

    /** clear(). */
    method Clear()
      requires Valid()
      modifies this
      ensures Valid() && body == []
    {
      body := [];
    }

    /** swap(other): exchange the two bodies; the traits stay where they are, so
        both remain valid when the two containers share their traits. */
    method Swap(other: FlatSortedContainer<K, E>)
      requires Valid() && other.Valid()
      modifies this, other
      ensures body == old(other.body) && other.body == old(body)
      ensures traits == other.traits ==> Valid() && other.Valid()
    {
      var mine := body;
      body := other.body;
      other.body := mine;
    }
  }

  /** The scoped unsafe region: raw access to the owner's body while the
      invariant is suspended.  Closing it (the end of the scope) runs
      sort_and_unique unless Release was called first. */
  class UnsafeRegion<K(!new), E> {
    const owner: FlatSortedContainer<K, E>
    var released: bool
    var open: bool

    constructor (owner: FlatSortedContainer<K, E>)
      ensures this.owner == owner && open && !released
    {
      this.owner := owner;
      released := false;
      open := true;
    }

    /** Any direct mutation of the body through the region. */
    method Assign(s: seq<E>)
      requires open && !released
      modifies owner
      ensures owner.body == s
    {
      owner.body := s;
    }

    /** The vector's emplace(pos, value) through the region. */
    method Emplace(pos: nat, v: E) returns (at: nat)
      requires open && !released && pos <= |owner.body|
      modifies owner
      ensures owner.body == old(owner.body)[..pos] + [v] + old(owner.body)[pos..]
      ensures at == pos
    {
      owner.body := owner.body[..pos] + [v] + owner.body[pos..];
      at := pos;
    }

    /** release(): the caller vouches that the body is already strictly ascending. */
    method Release()
      requires open
      modifies this
      ensures open && released
    {
      released := true;
    }

    /** The end of the region's scope. */
    method Close()
      requires open && ValidTraits(owner.traits)
      modifies this, owner
      ensures !open && released == old(released)
      ensures old(released) ==> owner.body == old(owner.body)
      ensures !old(released) ==> owner.Valid()
      ensures !old(released) ==> multiset(owner.body) <= multiset(old(owner.body))
      ensures !old(released) ==> CoversKeys(owner.traits, owner.body, old(owner.body))
      ensures StrictlyAscending(owner.traits, old(owner.body)) ==> owner.body == old(owner.body)
    {
      if !released {
        owner.body := SortAndUnique(owner.traits, owner.body);
      }
      open := false;
    }
  }

  /** operator==: the bodies are equal element by element, mapped values
      included, not merely their keys. */
  function EqualTo<K(!new), E(==)>(lhs: FlatSortedContainer<K, E>, rhs: FlatSortedContainer<K, E>): (r: bool)
    reads lhs, rhs
    ensures r <==> |lhs.body| == |rhs.body| && forall i :: 0 <= i < |lhs.body| ==> lhs.body[i] == rhs.body[i]
  {
    lhs.body == rhs.body
  }

  /** operator!=. */
  function NotEqualTo<K(!new), E(==)>(lhs: FlatSortedContainer<K, E>, rhs: FlatSortedContainer<K, E>): (r: bool)
    reads lhs, rhs
    ensures r <==> |lhs.body| != |rhs.body| || exists i :: 0 <= i < |lhs.body| && lhs.body[i] != rhs.body[i]
  {
    !EqualTo(lhs, rhs)
  }

  /** operator<: the bodies compared lexicographically with the element type's
      own `<` (`lt`), which for a map compares mapped values too. */
  function LessThan<K(!new), E(==, !new)>(lt: (E, E) -> bool, lhs: FlatSortedContainer<K, E>, rhs: FlatSortedContainer<K, E>): (r: bool)
    reads lhs, rhs
    ensures IsStrictTotalOrder(lt) ==> !(r && LexLess(lt, rhs.body, lhs.body))
  {
    LexLessTrichotomy(lt, lhs.body, rhs.body);
    LexLess(lt, lhs.body, rhs.body)
  }

  /** operator<=, derived as !(rhs < lhs). */
  function AtMost<K(!new), E(==, !new)>(lt: (E, E) -> bool, lhs: FlatSortedContainer<K, E>, rhs: FlatSortedContainer<K, E>): (r: bool)
    reads lhs, rhs
    ensures IsStrictTotalOrder(lt) ==> (r <==> LessThan(lt, lhs, rhs) || lhs.body == rhs.body)
  {
    LexLessTrichotomy(lt, lhs.body, rhs.body);
    !LessThan(lt, rhs, lhs)
  }

  /** operator>, derived as rhs < lhs. */
  function GreaterThan<K(!new), E(==, !new)>(lt: (E, E) -> bool, lhs: FlatSortedContainer<K, E>, rhs: FlatSortedContainer<K, E>): (r: bool)
    reads lhs, rhs
    ensures IsStrictTotalOrder(lt) ==> (r <==> !LessThan(lt, lhs, rhs) && lhs.body != rhs.body)
  {
    LexLessTrichotomy(lt, lhs.body, rhs.body);
    LessThan(lt, rhs, lhs)
  }

  /** operator>=, derived as !(lhs < rhs). */
  function AtLeast<K(!new), E(==, !new)>(lt: (E, E) -> bool, lhs: FlatSortedContainer<K, E>, rhs: FlatSortedContainer<K, E>): (r: bool)
    reads lhs, rhs
    ensures IsStrictTotalOrder(lt) ==> (r <==> LessThan(lt, rhs, lhs) || lhs.body == rhs.body)
  {
    LexLessTrichotomy(lt, rhs.body, lhs.body);
    !LessThan(lt, lhs, rhs)
  }

  /** Two equal containers; erasing the tail of one from index `n` makes it
      unequal to, less than and at most the other, and the other greater and
      at least. */
  method EraseTailThenCompare<K(!new), E(==, !new)>(lt: (E, E) -> bool, lhs: FlatSortedContainer<K, E>, rhs: FlatSortedContainer<K, E>, n: nat)
    requires lhs != rhs && lhs.Valid() && rhs.Valid() && EqualTo(lhs, rhs)
    requires n < |lhs.body| && IsStrictTotalOrder(lt)
    modifies lhs
    ensures lhs.body == old(lhs.body)[..n]
    ensures NotEqualTo(lhs, rhs) && LessThan(lt, lhs, rhs) && AtMost(lt, lhs, rhs)
    ensures GreaterThan(lt, rhs, lhs) && AtLeast(lt, rhs, lhs)
  {
    lhs.EraseRange(n, |lhs.body|);
    assert lhs.body == rhs.body[..n];
    ProperPrefixIsLess(lt, lhs.body, rhs.body);
  }
}
