/** Small shared vocabulary: optional values, results, Python's string order
    and the unordered-pair key built by `tuple(sorted([a, b]))`. */
module Common {

  /** A dictionary key that may be absent (`d.get(k)` returning nothing). */
  datatype Option<+T> = None | Some(value: T) {
    /** The value, or `default` when the key is missing. */
    function GetOr(default: T): T {
      if Some? then value else default
    }
  }

  /** An operation that either yields a value or fails the way the source raises. */
  datatype Result<+T, +E> = Success(value: T) | Failure(error: E)

  /** Python's `a < b` on `str`: code-point lexicographic order, a proper prefix
      being the smaller string. */
  predicate StrLess(a: string, b: string)
    decreases |a|
  {
    if |b| == 0 then false
    else if |a| == 0 then true
    else if a[0] != b[0] then a[0] < b[0]
    else StrLess(a[1..], b[1..])
  }

  lemma {:induction false} StrLessIrreflexive(a: string)
    ensures !StrLess(a, a)
  {
    if |a| > 0 {
      StrLessIrreflexive(a[1..]);
    }
  }

  lemma {:induction false} StrLessAsymmetric(a: string, b: string)
    ensures !(StrLess(a, b) && StrLess(b, a))
    decreases |a|
  {
    if |a| > 0 && |b| > 0 && a[0] == b[0] {
      StrLessAsymmetric(a[1..], b[1..]);
    }
  }

  /** Any two different strings are ordered one way or the other. */
  lemma {:induction false} StrLessTotal(a: string, b: string)
    ensures a == b || StrLess(a, b) || StrLess(b, a)
    decreases |a|
  {
    if |a| > 0 && |b| > 0 && a[0] == b[0] {
      StrLessTotal(a[1..], b[1..]);
      if a[1..] == b[1..] {
        assert a == [a[0]] + a[1..] && b == [b[0]] + b[1..];
      }
    }
  }

  lemma {:induction false} StrLessTransitive(a: string, b: string, c: string)
    requires StrLess(a, b) && StrLess(b, c)
    ensures StrLess(a, c)
    decreases |a|
  {
    if |a| > 0 && a[0] == b[0] && b[0] == c[0] {
      StrLessTransitive(a[1..], b[1..], c[1..]);
    }
  }

  /** An ordered pair of node ids, the shape of every dedup key. */
  type Pair = (string, string)

  /** The two ends in ascending order; a stable sort swaps them only when `b < a`. */
  function SortedPair(a: string, b: string): (p: Pair)
    ensures p == (a, b) || p == (b, a)
    ensures !StrLess(p.1, p.0)
  {
    if StrLess(b, a) then
      StrLessAsymmetric(a, b);
      (b, a)
    else
      StrLessTotal(a, b);
      (a, b)
  }

  /** The sorted key forgets the order of its two ids. */
  lemma SortedPairSymmetric(a: string, b: string)
    ensures SortedPair(a, b) == SortedPair(b, a)
  {
    StrLessAsymmetric(a, b);
    StrLessTotal(a, b);
  }

  /** A sorted key coincides with the ordered pair (a, b) exactly when a does not sort after b. */
  lemma SortedPairIsOrdered(a: string, b: string)
    ensures SortedPair(a, b) == (a, b) <==> !StrLess(b, a)
  {
    if StrLess(b, a) {
      StrLessIrreflexive(a);
    }
  }

  ghost predicate Distinct<T>(s: seq<T>) {
    forall i, j :: 0 <= i < j < |s| ==> s[i] != s[j]
  }

  /** A repetition-free sequence whose elements lie in R is no longer than R is large. */
  lemma {:induction false} DistinctBound<T>(s: seq<T>, r: set<T>)
    requires Distinct(s)
    requires forall i :: 0 <= i < |s| ==> s[i] in r
    ensures |s| <= |r|
  {
    if s != [] {
      var x := s[|s| - 1];
      var init := s[..|s| - 1];
      forall i | 0 <= i < |init|
        ensures init[i] in r - {x}
      {
        assert init[i] == s[i];
      }
      DistinctBound(init, r - {x});
    }
  }

  /** A repetition-free sequence has exactly as many elements as the set of its elements. */
  lemma {:induction false} DistinctCard<T>(s: seq<T>)
    requires Distinct(s)
    ensures |set x | x in s| == |s|
  {
    if s != [] {
      var x := s[|s| - 1];
      var init := s[..|s| - 1];
      DistinctCard(init);
      assert s == init + [x];
      assert x !in init by {
        forall i | 0 <= i < |init| ensures init[i] != x {
          assert init[i] == s[i];
        }
      }
      assert (set y | y in s) == (set y | y in init) + {x};
    }
  }
}
