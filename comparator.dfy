/**
 * The comparator abstraction the flat containers are instantiated with.
 *
 * A container is parameterised by traits that order KEYS with a user comparison
 * `cmp` and extract the key of a stored ELEMENT with `keyFromValue` (the element is
 * a key/value pair for a map and the key itself for a set).  Every comparison the
 * engine makes, whatever the argument kinds, is `cmp` applied to keys.
 */
module Comparator {

  /** `cmp` is a strict weak order: irreflexive, transitive, and negatively
      transitive (incomparability is transitive). */
  ghost predicate IsStrictWeakOrder<K(!new)>(cmp: (K, K) -> bool) {
    && (forall a :: !cmp(a, a))
    && (forall a, b, c :: cmp(a, b) && cmp(b, c) ==> cmp(a, c))
    && (forall a, b, c :: cmp(a, c) ==> cmp(a, b) || cmp(b, c))
  }

  /** A strict weak order in which only equal values are incomparable. */
  ghost predicate IsStrictTotalOrder<T(!new)>(lt: (T, T) -> bool) {
    && IsStrictWeakOrder(lt)
    && (forall a, b :: a != b ==> lt(a, b) || lt(b, a))
  }

  /** The traits' `equal`: neither argument orders before the other. */
  predicate Equivalent<K>(cmp: (K, K) -> bool, a: K, b: K) {
    !cmp(a, b) && !cmp(b, a)
  }

  /** Key order plus key extraction, as the engine consumes them. */
  datatype Traits<!K, !E> = Traits(cmp: (K, K) -> bool, keyFromValue: E -> K) {

    function Key(e: E): K {
      keyFromValue(e)
    }

    /** Element before element: their keys are ordered by `cmp`. */
    predicate Less(a: E, b: E) {
      cmp(keyFromValue(a), keyFromValue(b))
    }

    /** Element/element `equal`. */
    predicate Equal(a: E, b: E) {
      Equivalent(cmp, keyFromValue(a), keyFromValue(b))
    }

    /** Element/key `equal`. */
    predicate EqualKey(e: E, k: K) {
      Equivalent(cmp, keyFromValue(e), k)
    }
  }

  ghost predicate ValidTraits<K(!new), E>(tr: Traits<K, E>) {
    IsStrictWeakOrder(tr.cmp)
  }

  /** The derived `equal` is an equivalence relation whenever `cmp` is a strict
      weak order; it is symmetric for every `cmp` and reflexive for every
      irreflexive one. */
  lemma EquivalentIsEquivalence<K(!new)>(cmp: (K, K) -> bool, a: K, b: K, c: K)
    ensures Equivalent(cmp, a, b) == Equivalent(cmp, b, a)
    ensures !cmp(a, a) ==> Equivalent(cmp, a, a)
    ensures IsStrictWeakOrder(cmp) && Equivalent(cmp, a, b) && Equivalent(cmp, b, c)
            ==> Equivalent(cmp, a, c)
  {
  }

  /** Under a strict total order the derived `equal` is plain equality. */
  lemma EquivalentIsEqualityForTotalOrder<T(!new)>(lt: (T, T) -> bool, a: T, b: T)
    requires IsStrictTotalOrder(lt)
    ensures Equivalent(lt, a, b) <==> a == b
  {
  }
}
