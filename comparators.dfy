/**
 * Comparators in the sense of `java.util.Comparator`: a function returning a
 * negative, zero or positive `int`, together with the contract every
 * comparator handed to a sort must keep.
 */
module Comparators {
  import opened Bytes

  function Sign(x: int): int
  {
    if x < 0 then -1 else if x == 0 then 0 else 1
  }

  /** `Long.compare` and `Integer.compare`: -1, 0 or 1. */
  function Compare(x: int, y: int): (r: int)
    ensures r < 0 <==> x < y
    ensures r == 0 <==> x == y
    ensures -1 <= r <= 1
  {
    if x < y then -1 else if x == y then 0 else 1
  }

  /**
   * The contract of `Comparator.compare` at one triple of elements:
   * antisymmetric in sign, transitive, and elements comparing equal compare
   * alike against a third.
   */
  ghost predicate ContractAt<T>(cmp: (T, T) -> int, x: T, y: T, z: T)
  {
    Sign(cmp(x, y)) == -Sign(cmp(y, x)) &&
    (cmp(x, y) > 0 && cmp(y, z) > 0 ==> cmp(x, z) > 0) &&
    (cmp(x, y) == 0 ==> Sign(cmp(x, z)) == Sign(cmp(y, z)))
  }

  /** The contract of `Comparator.compare`, at every triple. */
  ghost predicate ValidComparator<T(!new)>(cmp: (T, T) -> int)
  {
    forall x, y, z :: ContractAt(cmp, x, y, z)
  }

  lemma Antisymmetric<T(!new)>(cmp: (T, T) -> int, x: T, y: T)
    requires ValidComparator(cmp)
    ensures cmp(x, y) < 0 <==> cmp(y, x) > 0
    ensures cmp(x, y) == 0 <==> cmp(y, x) == 0
  {
    assert ContractAt(cmp, x, y, x);
  }

  /** A valid comparator orders its elements as a total preorder. */
  lemma LeTransitive<T(!new)>(cmp: (T, T) -> int, x: T, y: T, z: T)
    requires ValidComparator(cmp)
    requires cmp(x, y) <= 0 && cmp(y, z) <= 0
    ensures cmp(x, z) <= 0
  {
    assert ContractAt(cmp, x, y, z) && ContractAt(cmp, y, z, x);
    assert ContractAt(cmp, z, y, x) && ContractAt(cmp, x, z, y);
  }

  /** An element strictly below another stays strictly below everything at or above it. */
  lemma LtLeTransitive<T(!new)>(cmp: (T, T) -> int, x: T, y: T, z: T)
    requires ValidComparator(cmp)
    requires cmp(x, y) < 0 && cmp(y, z) <= 0
    ensures cmp(x, z) < 0
  {
    assert ContractAt(cmp, x, y, z) && ContractAt(cmp, y, z, x);
    assert ContractAt(cmp, z, y, x) && ContractAt(cmp, x, z, y);
  }

  /** Elements comparing equal compare alike against a third. */
  lemma EquivalentAlike<T(!new)>(cmp: (T, T) -> int, x: T, y: T, z: T)
    requires ValidComparator(cmp)
    requires cmp(x, y) == 0
    ensures Sign(cmp(x, z)) == Sign(cmp(y, z))
  {
    assert ContractAt(cmp, x, y, z);
  }

  /** `Comparator.reversed()`: the arguments swapped. */
  lemma ReversedValid<T(!new)>(cmp: (T, T) -> int, rev: (T, T) -> int)
    requires ValidComparator(cmp)
    requires forall x, y :: rev(x, y) == cmp(y, x)
    ensures ValidComparator(rev)
  {
    forall x, y, z ensures ContractAt(rev, x, y, z) {
      assert ContractAt(cmp, y, x, z) && ContractAt(cmp, z, y, x);
      assert ContractAt(cmp, x, z, y) && ContractAt(cmp, y, z, x);
    }
  }

  // ASCII case folding on bytes, as `Character.toUpperCase` and
  // `Character.toLowerCase` act on the characters below 128.
  function ToUpper(c: Byte): Byte
  {
    if 'a' as Byte <= c <= 'z' as Byte then c - 32 else c
  }

  function ToLower(c: Byte): Byte
  {
    if 'A' as Byte <= c <= 'Z' as Byte then c + 32 else c
  }

  /**
   * `String.CASE_INSENSITIVE_ORDER.compare`: position by position, two
   * differing characters are upper-cased, then lower-cased, and the first
   * pair still differing decides by their difference; otherwise the length
   * difference decides.
   */
  function CompareIgnoreCase(s1: Str, s2: Str): int
    decreases |s1|
  {
    if |s1| == 0 || |s2| == 0 then |s1| - |s2|
    else
      var c1, c2 := s1[0], s2[0];
      if c1 != c2 && ToUpper(c1) != ToUpper(c2)
         && ToLower(ToUpper(c1)) != ToLower(ToUpper(c2))
      then ToLower(ToUpper(c1)) as int - ToLower(ToUpper(c2)) as int
      else CompareIgnoreCase(s1[1..], s2[1..])
  }

  function Fold(s: Str): (r: Str)
    ensures |r| == |s|
    ensures forall i :: 0 <= i < |s| ==> r[i] == ToLower(s[i])
  {
    seq(|s|, i requires 0 <= i < |s| => ToLower(s[i]))
  }

  /** Lexicographic comparison by byte difference, then length difference. */
  function LexCompare(u: Str, v: Str): int
    decreases |u|
  {
    if |u| == 0 || |v| == 0 then |u| - |v|
    else if u[0] != v[0] then u[0] as int - v[0] as int
    else LexCompare(u[1..], v[1..])
  }

  /** Ignoring case is comparing the lower-cased strings. */
  lemma {:induction false} CompareIgnoreCaseIsFolded(s1: Str, s2: Str)
    ensures CompareIgnoreCase(s1, s2) == LexCompare(Fold(s1), Fold(s2))
    decreases |s1|
  {
    if |s1| > 0 && |s2| > 0 {
      assert ToLower(ToUpper(s1[0])) == ToLower(s1[0]);
      assert ToLower(ToUpper(s2[0])) == ToLower(s2[0]);
      assert Fold(s1)[1..] == Fold(s1[1..]);
      assert Fold(s2)[1..] == Fold(s2[1..]);
      CompareIgnoreCaseIsFolded(s1[1..], s2[1..]);
    }
  }

  lemma {:induction false} LexAntisymmetric(u: Str, v: Str)
    ensures LexCompare(u, v) == -LexCompare(v, u)
    decreases |u|
  {
    if |u| > 0 && |v| > 0 && u[0] == v[0] {
      LexAntisymmetric(u[1..], v[1..]);
    }
  }

  lemma {:induction false} LexZero(u: Str, v: Str)
    ensures LexCompare(u, v) == 0 <==> u == v
    decreases |u|
  {
    if |u| > 0 && |v| > 0 && u[0] == v[0] {
      LexZero(u[1..], v[1..]);
      assert u == [u[0]] + u[1..] && v == [v[0]] + v[1..];
    }
  }

  lemma {:induction false} LexTransitive(u: Str, v: Str, w: Str)
    requires LexCompare(u, v) > 0 && LexCompare(v, w) > 0
    ensures LexCompare(u, w) > 0
    decreases |u|
  {
    if |u| > 0 && |v| > 0 && |w| > 0 && u[0] == v[0] && v[0] == w[0] {
      LexTransitive(u[1..], v[1..], w[1..]);
    }
  }

  /** `CASE_INSENSITIVE_ORDER` keeps the comparator contract. */
  lemma IgnoreCaseValid<T(!new)>(key: T -> Str, cmp: (T, T) -> int)
    requires forall x, y :: cmp(x, y) == CompareIgnoreCase(key(x), key(y))
    ensures ValidComparator(cmp)
  {
    forall x, y, z ensures ContractAt(cmp, x, y, z) {
      var u, v, w := Fold(key(x)), Fold(key(y)), Fold(key(z));
      CompareIgnoreCaseIsFolded(key(x), key(y));
      CompareIgnoreCaseIsFolded(key(y), key(x));
      CompareIgnoreCaseIsFolded(key(y), key(z));
      CompareIgnoreCaseIsFolded(key(x), key(z));
      LexAntisymmetric(u, v);
      if LexCompare(u, v) > 0 && LexCompare(v, w) > 0 {
        LexTransitive(u, v, w);
      }
      LexZero(u, v);
    }
  }
}
