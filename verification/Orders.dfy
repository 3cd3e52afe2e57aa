/** Strict total orders and their lexicographic extension to sequences. */
module Orders {
  ghost predicate StrictTotalOrder<T(!new)>(less: (T, T) -> bool) {
    && (forall x :: !less(x, x))
    && (forall x, y, z :: less(x, y) && less(y, z) ==> less(x, z))
    && (forall x, y :: less(x, y) || less(y, x) || x == y)
  }

  // std::lexicographical_compare
  predicate LexLess<T(==)>(less: (T, T) -> bool, a: seq<T>, b: seq<T>) {
    if b == [] then false
    else if a == [] then true
    else if less(a[0], b[0]) then true
    else if less(b[0], a[0]) then false
    else LexLess(less, a[1..], b[1..])
  }

  // The two agree up to k, where a ends or has the smaller element.
  predicate SmallerAt<T(==)>(less: (T, T) -> bool, a: seq<T>, b: seq<T>, k: nat) {
    k <= |a| && k < |b| && a[..k] == b[..k] && (k == |a| || less(a[k], b[k]))
  }

  // The first difference decides, and a beginning comes before the whole.
  lemma {:induction false} LexMeaning<T(!new)>(less: (T, T) -> bool, a: seq<T>, b: seq<T>)
    requires StrictTotalOrder(less)
    ensures LexLess(less, a, b) <==> exists k: nat :: SmallerAt(less, a, b, k)
  {
    if a == [] && b != [] {
      assert SmallerAt(less, a, b, 0);
    } else if a != [] && b != [] {
      if less(a[0], b[0]) { assert SmallerAt(less, a, b, 0); }
      LexMeaning(less, a[1..], b[1..]);
      SmallerLater(less, a, b);
    }
  }

  lemma SmallerLater<T(!new)>(less: (T, T) -> bool, a: seq<T>, b: seq<T>)
    requires StrictTotalOrder(less) && a != [] && b != []
    ensures (exists k: nat :: SmallerAt(less, a, b, k)) <==>
            less(a[0], b[0]) || (a[0] == b[0] && exists k: nat :: SmallerAt(less, a[1..], b[1..], k))
  {
    if k: nat :| SmallerAt(less, a, b, k) {
      if k > 0 {
        assert a[0] == a[..k][0] && b[0] == b[..k][0];
        assert a[1..][..k - 1] == a[..k][1..] && b[1..][..k - 1] == b[..k][1..];
        assert SmallerAt(less, a[1..], b[1..], k - 1);
      }
    }
    if less(a[0], b[0]) { assert SmallerAt(less, a, b, 0); }
    if a[0] == b[0] {
      if k: nat :| SmallerAt(less, a[1..], b[1..], k) {
        assert a[..k + 1] == [a[0]] + a[1..][..k] && b[..k + 1] == [b[0]] + b[1..][..k];
        assert SmallerAt(less, a, b, k + 1);
      }
    }
  }

  lemma {:induction false} LexIrreflexive<T(!new)>(less: (T, T) -> bool, a: seq<T>)
    requires StrictTotalOrder(less)
    ensures !LexLess(less, a, a)
  {
    if a != [] { LexIrreflexive(less, a[1..]); }
  }

  lemma {:induction false} LexTotal<T(!new)>(less: (T, T) -> bool, a: seq<T>, b: seq<T>)
    requires StrictTotalOrder(less)
    ensures LexLess(less, a, b) || LexLess(less, b, a) || a == b
  {
    if a != [] && b != [] {
      LexTotal(less, a[1..], b[1..]);
      if a[0] == b[0] && a[1..] == b[1..] {
        assert a == [a[0]] + a[1..] && b == [b[0]] + b[1..];
      }
    }
  }

  lemma {:induction false} LexTransitive<T(!new)>(less: (T, T) -> bool, a: seq<T>, b: seq<T>, c: seq<T>)
    requires StrictTotalOrder(less)
    requires LexLess(less, a, b) && LexLess(less, b, c)
    ensures LexLess(less, a, c)
  {
    if a != [] {
      if a[0] == b[0] && b[0] == c[0] {
        LexTransitive(less, a[1..], b[1..], c[1..]);
      }
    }
  }

  lemma LexStrictTotalOrder<T(!new)>(less: (T, T) -> bool, lex: (seq<T>, seq<T>) -> bool)
    requires StrictTotalOrder(less)
    requires forall a, b :: lex(a, b) == LexLess(less, a, b)
    ensures StrictTotalOrder(lex)
  {
    forall a ensures !lex(a, a) { LexIrreflexive(less, a); }
    forall a, b, c | lex(a, b) && lex(b, c) ensures lex(a, c) { LexTransitive(less, a, b, c); }
    forall a, b ensures lex(a, b) || lex(b, a) || a == b { LexTotal(less, a, b); }
  }
}
