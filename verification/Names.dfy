/** Document names (base/name.hpp): sequences of parts, their prefix relation and their order. */
module Names {
  import opened Orders

  type Path = seq<string>

  const MAX_PARTS := 10

  // A part that stands for one entry of a directory.
  predicate PlainPart(part: string) {
    part != "" && '/' !in part && part != "." && part != ".."
  }

  predicate ValidName(name: Path) {
    1 <= |name| <= MAX_PARTS && forall i :: 0 <= i < |name| ==> PlainPart(name[i])
  }

  // q is p itself or lies somewhere below it.
  predicate Within(p: Path, q: Path) { p <= q }

  predicate Below(p: Path, q: Path) { Within(p, q) && p != q }

  function Parent(p: Path): Path
    requires p != []
  {
    p[..|p| - 1]
  }

  predicate CharLess(x: char, y: char) { x < y }

  predicate StringLess(x: string, y: string) { LexLess(CharLess, x, y) }

  predicate NameLess(x: Path, y: Path) { LexLess(StringLess, x, y) }

  lemma NameOrder()
    ensures StrictTotalOrder(NameLess)
  {
    assert StrictTotalOrder(CharLess);
    LexStrictTotalOrder(CharLess, StringLess);
    LexStrictTotalOrder(StringLess, NameLess);
  }

  // Names are compared part by part, and parts character by character.
  lemma NameLessMeaning(x: Path, y: Path)
    ensures NameLess(x, y) <==>
            exists k: nat ::
              k <= |x| && k < |y| && x[..k] == y[..k] && (k == |x| || StringLess(x[k], y[k]))
    ensures forall a: string, b: string ::
              StringLess(a, b) <==>
              exists k: nat :: k <= |a| && k < |b| && a[..k] == b[..k] && (k == |a| || a[k] < b[k])
  {
    assert StrictTotalOrder(CharLess);
    LexStrictTotalOrder(CharLess, StringLess);
    LexMeaning(StringLess, x, y);
    if k: nat :| SmallerAt(StringLess, x, y, k) {
      assert k <= |x| && k < |y| && x[..k] == y[..k] && (k == |x| || StringLess(x[k], y[k]));
    }
    if k: nat :| k <= |x| && k < |y| && x[..k] == y[..k] && (k == |x| || StringLess(x[k], y[k])) {
      assert SmallerAt(StringLess, x, y, k);
    }
    forall a: string, b: string
      ensures StringLess(a, b) <==>
              exists k: nat :: k <= |a| && k < |b| && a[..k] == b[..k] && (k == |a| || a[k] < b[k])
    {
      StringLessMeaning(a, b);
    }
  }

  lemma StringLessMeaning(a: string, b: string)
    ensures StringLess(a, b) <==>
            exists k: nat :: k <= |a| && k < |b| && a[..k] == b[..k] && (k == |a| || a[k] < b[k])
  {
    assert StrictTotalOrder(CharLess);
    LexMeaning(CharLess, a, b);
    if k: nat :| SmallerAt(CharLess, a, b, k) {
      assert k <= |a| && k < |b| && a[..k] == b[..k] && (k == |a| || a[k] < b[k]);
    }
    if k: nat :| k <= |a| && k < |b| && a[..k] == b[..k] && (k == |a| || a[k] < b[k]) {
      assert SmallerAt(CharLess, a, b, k);
    }
  }

  ghost predicate StrictlySorted(s: seq<Path>) {
    forall i, j :: 0 <= i < j < |s| ==> NameLess(s[i], s[j])
  }

  // The iteration order of a std::set<Name> after one more emplace.
  function InsertSorted(s: seq<Path>, n: Path): (r: seq<Path>) {
    if s == [] then [n]
    else if NameLess(s[0], n) then [s[0]] + InsertSorted(s[1..], n)
    else if s[0] == n then s
    else [n] + s
  }

  lemma {:induction false} InsertSortedProperty(s: seq<Path>, n: Path)
    requires StrictlySorted(s)
    ensures StrictlySorted(InsertSorted(s, n))
    ensures forall x :: x in InsertSorted(s, n) <==> x in s || x == n
  {
    NameOrder();
    if s != [] && NameLess(s[0], n) {
      InsertSortedProperty(s[1..], n);
      var r := InsertSorted(s[1..], n);
      assert forall x :: x in s <==> x == s[0] || x in s[1..];
      forall j | 0 <= j < |r| ensures NameLess(s[0], r[j]) {
        assert r[j] in r;
        if r[j] in s[1..] {
          var k :| 0 <= k < |s| - 1 && s[1..][k] == r[j];
          assert NameLess(s[0], s[k + 1]);
        }
      }
    } else if s != [] && s[0] != n {
      assert NameLess(n, s[0]);
      forall j | 0 <= j < |s| ensures NameLess(n, s[j]) {
        if j > 0 { assert NameLess(s[0], s[j]); }
      }
    }
  }

  // A listing without repetition in name order is determined by what it contains.
  lemma {:induction false} SortedUnique(a: seq<Path>, b: seq<Path>)
    requires StrictlySorted(a) && StrictlySorted(b)
    requires forall x :: x in a <==> x in b
    ensures a == b
  {
    NameOrder();
    assert b != [] ==> b[0] in b;
    if a != [] {
      assert a[0] in a && a[0] in b;
      assert b[0] in b && b[0] in a;
      assert a[0] == b[0];
      forall x ensures x in a[1..] <==> x in b[1..] {
        RestAbove(a, x);
        RestAbove(b, x);
      }
      SortedUnique(a[1..], b[1..]);
      assert a == [a[0]] + a[1..] && b == [b[0]] + b[1..];
    }
  }

  lemma RestAbove(a: seq<Path>, x: Path)
    requires StrictlySorted(a) && a != []
    ensures x in a[1..] <==> x in a && x != a[0]
  {
    NameOrder();
    if x in a[1..] {
      var k :| 0 <= k < |a| - 1 && a[1..][k] == x;
      assert a[k + 1] == x && NameLess(a[0], a[k + 1]);
    }
  }
}
