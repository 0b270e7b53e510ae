/**
 * std::lexicographical_compare, which gives a std::vector its `<` (and so the
 * container comparisons) and a std::string its `<` (the default key order in the
 * examples).  It compares with the element type's own `<`, never with `==`.
 */
module Lexicographic {
  import opened Comparator

  /** `a` is before `b` in the lexicographic order built from the element order `lt`. */
  function LexLess<T>(lt: (T, T) -> bool, a: seq<T>, b: seq<T>): bool
    decreases |a|
  {
    if |b| == 0 then false
    else if |a| == 0 then true
    else if lt(a[0], b[0]) then true
    else if lt(b[0], a[0]) then false
    else LexLess(lt, a[1..], b[1..])
  }

  /** Irreflexive, transitive and connected is enough for a strict weak order. */
  lemma TotalIsStrictTotalOrder<T(!new)>(lt: (T, T) -> bool)
    requires forall a :: !lt(a, a)
    requires forall a, b, c :: lt(a, b) && lt(b, c) ==> lt(a, c)
    requires forall a, b :: a != b ==> lt(a, b) || lt(b, a)
    ensures IsStrictTotalOrder(lt)
  {
    forall a, b, c | lt(a, c) ensures lt(a, b) || lt(b, c) {
      if a != b && b != c && !lt(a, b) {
        assert lt(b, a);
      }
    }
  }

  lemma {:induction false} LexLessIrreflexive<T(!new)>(lt: (T, T) -> bool, a: seq<T>)
    requires IsStrictTotalOrder(lt)
    ensures !LexLess(lt, a, a)
    decreases |a|
  {
    if |a| > 0 {
      LexLessIrreflexive(lt, a[1..]);
    }
  }

  lemma {:induction false} LexLessTransitive<T(!new)>(lt: (T, T) -> bool, a: seq<T>, b: seq<T>, c: seq<T>)
    requires IsStrictTotalOrder(lt)
    requires LexLess(lt, a, b) && LexLess(lt, b, c)
    ensures LexLess(lt, a, c)
    decreases |a|
  {
    if |a| > 0 && !lt(a[0], b[0]) && !lt(b[0], c[0]) {
      assert a[0] == b[0] == c[0];
      LexLessTransitive(lt, a[1..], b[1..], c[1..]);
    }
  }

  lemma {:induction false} LexLessConnected<T(!new)>(lt: (T, T) -> bool, a: seq<T>, b: seq<T>)
    requires IsStrictTotalOrder(lt)
    requires a != b
    ensures LexLess(lt, a, b) || LexLess(lt, b, a)
    decreases |a|
  {
    if |a| > 0 && |b| > 0 && a[0] == b[0] {
      assert a == [a[0]] + a[1..] && b == [b[0]] + b[1..];
      LexLessConnected(lt, a[1..], b[1..]);
    }
  }

  /** Any relation that agrees with LexLess built from a strict total order is
      itself a strict total order (std::string's `<` and std::vector's `<`). */
  lemma LexLessIsStrictTotalOrder<T(!new)>(lt: (T, T) -> bool, less: (seq<T>, seq<T>) -> bool)
    requires IsStrictTotalOrder(lt)
    requires forall a, b :: less(a, b) == LexLess(lt, a, b)
    ensures IsStrictTotalOrder(less)
  {
    forall a ensures !less(a, a) {
      LexLessIrreflexive(lt, a);
    }
    forall a, b, c | less(a, b) && less(b, c) ensures less(a, c) {
      LexLessTransitive(lt, a, b, c);
    }
    forall a, b | a != b ensures less(a, b) || less(b, a) {
      LexLessConnected(lt, a, b);
    }
    TotalIsStrictTotalOrder(less);
  }

  /** Under a strict total element order, not-after is before-or-equal: the
      derived `<=` and `>=` of the containers mean what they say. */
  lemma LexLessTrichotomy<T(!new)>(lt: (T, T) -> bool, a: seq<T>, b: seq<T>)
    ensures IsStrictTotalOrder(lt) ==> (!LexLess(lt, b, a) <==> LexLess(lt, a, b) || a == b)
    ensures IsStrictTotalOrder(lt) ==> !(LexLess(lt, a, b) && LexLess(lt, b, a))
  {
    if IsStrictTotalOrder(lt) {
      if a == b {
        LexLessIrreflexive(lt, a);
      } else {
        LexLessConnected(lt, a, b);
        if LexLess(lt, a, b) && LexLess(lt, b, a) {
          LexLessTransitive(lt, a, b, a);
          LexLessIrreflexive(lt, a);
        }
      }
    }
  }

  /** A proper prefix comes first: erasing a container's tail makes it compare
      less than it was. */
  lemma {:induction false} ProperPrefixIsLess<T>(lt: (T, T) -> bool, a: seq<T>, b: seq<T>)
    requires forall x :: !lt(x, x)
    requires |a| < |b| && a == b[..|a|]
    ensures LexLess(lt, a, b)
    decreases |a|
  {
    if |a| > 0 {
      assert a[0] == b[0];
      assert a[1..] == b[1..][..|a| - 1];
      ProperPrefixIsLess(lt, a[1..], b[1..]);
    }
  }

  /** The order of characters. */
  function CharLess(a: char, b: char): bool {
    a < b
  }

  /** std::string's `<`, the default (std::less) key order of string-keyed maps and sets. */
  function StringLess(a: string, b: string): bool {
    LexLess(CharLess, a, b)
  }

  lemma StringLessIsStrictTotalOrder()
    ensures IsStrictTotalOrder(StringLess)
  {
    TotalIsStrictTotalOrder(CharLess);
    LexLessIsStrictTotalOrder(CharLess, StringLess);
  }
}
