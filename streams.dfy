/**
 * The sequential stream operations the process queries are built from:
 * `filter`, a stable `sorted`, `limit` and `distinct`, each on an ordered
 * stream and therefore keeping encounter order where it is not told to
 * change it.
 */
module Streams {
  import opened Comparators

  /** `filter`: the elements the predicate accepts, in order. */
  function Filter<T>(f: T -> bool, s: seq<T>): (r: seq<T>)
    ensures |r| <= |s|
    ensures forall x :: x in r ==> f(x)
  {
    if s == [] then []
    else (if f(s[0]) then [s[0]] else []) + Filter(f, s[1..])
  }

  /** Filtering only drops elements. */
  lemma {:induction false} FilterSubMultiset<T>(f: T -> bool, s: seq<T>)
    ensures multiset(Filter(f, s)) <= multiset(s)
  {
    if s != [] {
      FilterSubMultiset(f, s[1..]);
      assert s == [s[0]] + s[1..];
    }
  }

  /** What the predicate accepts is kept: filtering drops nothing it should keep. */
  lemma {:induction false} FilterKeeps<T>(f: T -> bool, s: seq<T>, x: T)
    requires x in s && f(x)
    ensures x in Filter(f, s)
  {
    if s[0] != x {
      FilterKeeps(f, s[1..], x);
    }
  }

  lemma {:induction false} FilterAll<T>(f: T -> bool, s: seq<T>)
    requires forall x :: x in s ==> f(x)
    ensures Filter(f, s) == s
  {
    if s != [] {
      FilterAll(f, s[1..]);
    }
  }

  lemma {:induction false} FilterSnoc<T>(f: T -> bool, s: seq<T>, x: T)
    ensures Filter(f, s + [x]) == Filter(f, s) + (if f(x) then [x] else [])
  {
    if s != [] {
      assert (s + [x])[1..] == s[1..] + [x];
      FilterSnoc(f, s[1..], x);
    }
  }

  // ---------------------------------------------------------------- sorted

  ghost predicate Sorted<T>(cmp: (T, T) -> int, s: seq<T>)
  {
    forall i, j :: 0 <= i < j < |s| ==> cmp(s[i], s[j]) <= 0
  }

  /** Places `x` before the first element it is strictly below. */
  function Insert<T>(cmp: (T, T) -> int, x: T, s: seq<T>): (r: seq<T>)
    ensures |r| == |s| + 1
  {
    if s == [] then [x]
    else if cmp(x, s[0]) < 0 then [x] + s
    else [s[0]] + Insert(cmp, x, s[1..])
  }

  lemma {:induction false} InsertPermutes<T>(cmp: (T, T) -> int, x: T, s: seq<T>)
    ensures multiset(Insert(cmp, x, s)) == multiset(s) + multiset{x}
  {
    if s != [] && cmp(x, s[0]) >= 0 {
      InsertPermutes(cmp, x, s[1..]);
      assert s == [s[0]] + s[1..];
    }
  }

  /**
   * `sorted(cmp)`: each element in turn is inserted after every earlier one
   * that does not compare above it, so the sort is stable.
   */
  function SortBy<T>(cmp: (T, T) -> int, s: seq<T>): (r: seq<T>)
    ensures |r| == |s|
  {
    if s == [] then []
    else Insert(cmp, s[|s| - 1], SortBy(cmp, s[..|s| - 1]))
  }

  /** The sort is a permutation: every element kept, as often as it occurs. */
  lemma {:induction false} SortByPermutes<T>(cmp: (T, T) -> int, s: seq<T>)
    ensures multiset(SortBy(cmp, s)) == multiset(s)
  {
    if s != [] {
      SortByPermutes(cmp, s[..|s| - 1]);
      InsertPermutes(cmp, s[|s| - 1], SortBy(cmp, s[..|s| - 1]));
      assert s == s[..|s| - 1] + [s[|s| - 1]];
    }
  }

  lemma {:induction false} InsertElements<T>(cmp: (T, T) -> int, x: T, s: seq<T>, y: T)
    requires y in Insert(cmp, x, s)
    ensures y == x || y in s
  {
    if s != [] && cmp(x, s[0]) >= 0 && y != s[0] {
      InsertElements(cmp, x, s[1..], y);
    }
  }

  lemma {:induction false} InsertSorted<T(!new)>(cmp: (T, T) -> int, x: T, s: seq<T>)
    requires ValidComparator(cmp) && Sorted(cmp, s)
    ensures Sorted(cmp, Insert(cmp, x, s))
  {
    var r := Insert(cmp, x, s);
    if s == [] {
    } else if cmp(x, s[0]) < 0 {
      forall j | 1 < j < |r| ensures cmp(x, r[j]) <= 0 {
        LtLeTransitive(cmp, x, s[0], s[j - 1]);
      }
    } else {
      var t := Insert(cmp, x, s[1..]);
      assert r == [s[0]] + t;
      InsertSorted(cmp, x, s[1..]);
      Antisymmetric(cmp, x, s[0]);
      forall j | 0 <= j < |t| ensures cmp(s[0], t[j]) <= 0 {
        InsertElements(cmp, x, s[1..], t[j]);
      }
      forall i, j | 0 <= i < j < |r| ensures cmp(r[i], r[j]) <= 0 {
        if i == 0 {
          assert r[j] == t[j - 1];
        } else {
          assert r[i] == t[i - 1] && r[j] == t[j - 1];
        }
      }
    }
  }

  /** The stable sort leaves its result in order. */
  lemma {:induction false} SortBySorted<T(!new)>(cmp: (T, T) -> int, s: seq<T>)
    requires ValidComparator(cmp)
    ensures Sorted(cmp, SortBy(cmp, s))
  {
    if s != [] {
      SortBySorted(cmp, s[..|s| - 1]);
      InsertSorted(cmp, s[|s| - 1], SortBy(cmp, s[..|s| - 1]));
    }
  }

  /** The elements of `s` comparing equal to `e`, in the order of `s`. */
  function Equivalents<T>(cmp: (T, T) -> int, e: T, s: seq<T>): seq<T>
  {
    if s == [] then []
    else (if cmp(s[0], e) == 0 then [s[0]] else []) + Equivalents(cmp, e, s[1..])
  }

  lemma {:induction false} EquivalentsSnoc<T>(cmp: (T, T) -> int, e: T, s: seq<T>, x: T)
    ensures Equivalents(cmp, e, s + [x])
         == Equivalents(cmp, e, s) + (if cmp(x, e) == 0 then [x] else [])
  {
    if s != [] {
      assert (s + [x])[1..] == s[1..] + [x];
      EquivalentsSnoc(cmp, e, s[1..], x);
    }
  }

  lemma {:induction false} NoEquivalentsAbove<T(!new)>(cmp: (T, T) -> int, e: T, s: seq<T>)
    requires ValidComparator(cmp)
    requires forall y :: y in s ==> cmp(e, y) < 0
    ensures Equivalents(cmp, e, s) == []
  {
    if s != [] {
      Antisymmetric(cmp, e, s[0]);
      NoEquivalentsAbove(cmp, e, s[1..]);
    }
  }

  lemma {:induction false} InsertEquivalents<T(!new)>(cmp: (T, T) -> int, e: T, x: T, s: seq<T>)
    requires ValidComparator(cmp) && Sorted(cmp, s)
    ensures Equivalents(cmp, e, Insert(cmp, x, s))
         == Equivalents(cmp, e, s) + (if cmp(x, e) == 0 then [x] else [])
  {
    var tail := if cmp(x, e) == 0 then [x] else [];
    if s == [] {
    } else if cmp(x, s[0]) < 0 {
      assert Insert(cmp, x, s) == [x] + s;
      assert ([x] + s)[1..] == s;
      if cmp(x, e) == 0 {
        BelowEquivalentOfNone(cmp, e, x, s);
      }
      assert Equivalents(cmp, e, [x] + s) == tail + Equivalents(cmp, e, s);
    } else {
      var head := if cmp(s[0], e) == 0 then [s[0]] else [];
      var t := Insert(cmp, x, s[1..]);
      assert Insert(cmp, x, s) == [s[0]] + t;
      assert ([s[0]] + t)[1..] == t;
      assert Sorted(cmp, s[1..]);
      InsertEquivalents(cmp, e, x, s[1..]);
      calc {
        Equivalents(cmp, e, [s[0]] + t);
        head + Equivalents(cmp, e, t);
        head + (Equivalents(cmp, e, s[1..]) + tail);
        (head + Equivalents(cmp, e, s[1..])) + tail;
        Equivalents(cmp, e, s) + tail;
      }
    }
  }

  /** Nothing in a sorted list starting above `x` compares equal to an equivalent `e` of `x`. */
  lemma BelowEquivalentOfNone<T(!new)>(cmp: (T, T) -> int, e: T, x: T, s: seq<T>)
    requires ValidComparator(cmp) && Sorted(cmp, s)
    requires s != [] && cmp(x, s[0]) < 0 && cmp(x, e) == 0
    ensures Equivalents(cmp, e, s) == []
  {
    forall y | y in s ensures cmp(e, y) < 0 {
      var j :| 0 <= j < |s| && s[j] == y;
      if j > 0 {
        LtLeTransitive(cmp, x, s[0], y);
      }
      EquivalentAlike(cmp, x, e, y);
    }
    NoEquivalentsAbove(cmp, e, s);
  }

  /** Stability: among elements comparing equal, the sort keeps their order. */
  lemma {:induction false} SortByStable<T(!new)>(cmp: (T, T) -> int, e: T, s: seq<T>)
    requires ValidComparator(cmp)
    ensures Equivalents(cmp, e, SortBy(cmp, s)) == Equivalents(cmp, e, s)
  {
    if s != [] {
      var init, x := s[..|s| - 1], s[|s| - 1];
      var t := SortBy(cmp, init);
      assert SortBy(cmp, s) == Insert(cmp, x, t);
      SortByStable(cmp, e, init);
      SortBySorted(cmp, init);
      InsertEquivalents(cmp, e, x, t);
      assert s == init + [x];
      EquivalentsSnoc(cmp, e, init, x);
    }
  }

  /** A comparator that finds every pair equal (`NO_SORTING`) leaves the order alone. */
  lemma {:induction false} SortByAllEqual<T>(cmp: (T, T) -> int, s: seq<T>)
    requires forall x, y :: cmp(x, y) == 0
    ensures SortBy(cmp, s) == s
  {
    if s != [] {
      SortByAllEqual(cmp, s[..|s| - 1]);
      InsertAllEqual(cmp, s[|s| - 1], s[..|s| - 1]);
    }
  }

  lemma {:induction false} InsertAllEqual<T>(cmp: (T, T) -> int, x: T, s: seq<T>)
    requires forall x, y :: cmp(x, y) == 0
    ensures Insert(cmp, x, s) == s + [x]
  {
    if s != [] {
      InsertAllEqual(cmp, x, s[1..]);
      assert s == [s[0]] + s[1..];
    }
  }

  // ----------------------------------------------------------------- limit

  /** `limit(n)`: at most the first `n` elements. */
  function Limit<T>(s: seq<T>, n: nat): (r: seq<T>)
    ensures |r| == if n < |s| then n else |s|
    ensures r <= s
  {
    if n < |s| then s[..n] else s
  }

  lemma LimitSorted<T>(cmp: (T, T) -> int, s: seq<T>, n: nat)
    requires Sorted(cmp, s)
    ensures Sorted(cmp, Limit(s, n))
  {
  }

  lemma LimitSubMultiset<T>(s: seq<T>, n: nat)
    ensures multiset(Limit(s, n)) <= multiset(s)
  {
    if n < |s| {
      assert s == s[..n] + s[n..];
    }
  }

  // -------------------------------------------------------------- distinct

  /** `distinct()` on an ordered stream: the first occurrence of each value, in order. */
  function Distinct<T(==)>(s: seq<T>): (r: seq<T>)
    ensures forall i, j :: 0 <= i < j < |r| ==> r[i] != r[j]
    ensures forall i :: 0 <= i < |r| ==> r[i] in s
    ensures forall i :: 0 <= i < |s| ==> s[i] in r
    ensures |r| <= |s|
  {
    if s == [] then []
    else
      var d, x := Distinct(s[..|s| - 1]), s[|s| - 1];
      assert s == s[..|s| - 1] + [x];
      if x in d then d else d + [x]
  }

  /**
   * Each element of `Distinct(s)` sits where its value first occurs in `s`,
   * so the result keeps encounter order.
   */
  lemma {:induction false} DistinctFirstOccurrence<T>(s: seq<T>, i: int, j: int)
    requires 0 <= i < j < |Distinct(s)|
    ensures FirstIndex(s, Distinct(s)[i]) < FirstIndex(s, Distinct(s)[j])
  {
    var init, x := s[..|s| - 1], s[|s| - 1];
    var d := Distinct(init);
    FirstIndexPrefix(s, init, Distinct(s)[i]);
    FirstIndexPrefix(s, init, Distinct(s)[j]);
    if j < |d| {
      DistinctFirstOccurrence(init, i, j);
    } else {
      assert Distinct(s)[j] == x && x !in init;
    }
  }

  /** `xs` is what remains of `ys` after dropping some of its elements, order kept. */
  ghost predicate Subsequence<T>(xs: seq<T>, ys: seq<T>)
    decreases |ys|
  {
    xs == [] ||
    (ys != [] && ((xs[0] == ys[0] && Subsequence(xs[1..], ys[1..])) || Subsequence(xs, ys[1..])))
  }

  function FirstIndex<T(==)>(s: seq<T>, x: T): (k: nat)
    requires x in s
    ensures k < |s| && s[k] == x && x !in s[..k]
  {
    if s[0] == x then 0 else
      assert s[1..][..FirstIndex(s[1..], x)] == s[1..1 + FirstIndex(s[1..], x)];
      1 + FirstIndex(s[1..], x)
  }

  lemma FirstIndexPrefix<T>(s: seq<T>, p: seq<T>, x: T)
    requires x in s && p <= s
    ensures x in p ==> FirstIndex(s, x) == FirstIndex(p, x)
    ensures x !in p ==> FirstIndex(s, x) >= |p|
  {
    var k := FirstIndex(s, x);
    if k < |p| {
      assert p[k] == x;
      assert p[..k] == s[..k];
    }
  }
}
