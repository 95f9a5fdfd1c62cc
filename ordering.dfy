/**
 * Comparators and sorting as the handler-method lookup uses them.
 *
 * A Java `Comparator<X>` is modelled as an int-valued function `cmp`; a
 * smaller value means "sorts earlier", which for a mapping comparator means
 * "the better match".  `Collections.sort` is modelled by a stable insertion
 * sort on a sequence.
 */
module Ordering {

  /**
   * The general contract of `java.util.Comparator.compare`: the sign of
   * `cmp(a, b)` is the opposite of the sign of `cmp(b, a)`, and "sorts no
   * later than" is transitive.  Together these make `cmp(a, b) <= 0` a total
   * preorder.
   */
  ghost predicate TotalPreorder<X(!new)>(cmp: (X, X) -> int) {
    && (forall a, b :: cmp(a, b) < 0 <==> cmp(b, a) > 0)
    && (forall a, b, c {:trigger cmp(a, b), cmp(b, c), cmp(a, c)} :: cmp(a, b) <= 0 && cmp(b, c) <= 0 ==> cmp(a, c) <= 0)
  }

  /** Every element sorts no later than every element after it. */
  ghost predicate Sorted<X>(s: seq<X>, cmp: (X, X) -> int) {
    forall i, j :: 0 <= i < j < |s| ==> cmp(s[i], s[j]) <= 0
  }

  /** `x` sorts no later than any element of `s`. */
  ghost predicate IsBest<X>(x: X, s: seq<X>, cmp: (X, X) -> int) {
    forall y :: y in s ==> cmp(x, y) <= 0
  }

  /** Two different occurrences in `s` are both best. */
  ghost predicate HasTie<X>(s: seq<X>, cmp: (X, X) -> int) {
    exists x, y :: x in s && y in s && IsBest(x, s, cmp) && IsBest(y, s, cmp) && multiset{x, y} <= multiset(s)
  }

  /** `x` occurs once in `s` and sorts strictly before every other element. */
  ghost predicate UniqueBest<X>(x: X, s: seq<X>, cmp: (X, X) -> int) {
    && x in s
    && multiset(s)[x] == 1
    && forall y :: y in s && y != x ==> cmp(x, y) < 0
  }

  lemma CompareReflexive<X(!new)>(cmp: (X, X) -> int, a: X)
    requires TotalPreorder(cmp)
    ensures cmp(a, a) == 0
  {
    assert cmp(a, a) < 0 <==> cmp(a, a) > 0;
  }

  /** A non-empty sequence has a best element. */
  lemma {:induction false} BestExists<X(!new)>(s: seq<X>, cmp: (X, X) -> int) returns (x: X)
    requires TotalPreorder(cmp)
    requires s != []
    ensures x in s && IsBest(x, s, cmp)
  {
    if |s| == 1 {
      x := s[0];
      CompareReflexive(cmp, x);
    } else {
      var t := BestExists(s[1..], cmp);
      assert s == [s[0]] + s[1..];
      if cmp(t, s[0]) <= 0 {
        x := t;
      } else {
        x := s[0];
        assert cmp(s[0], t) < 0;
        CompareReflexive(cmp, x);
        forall y | y in s ensures cmp(x, y) <= 0 {
          if y != s[0] {
            assert y in s[1..];
          }
        }
      }
    }
  }

  /**
   * For a non-empty sequence exactly one of two things holds: two
   * occurrences tie for best, or a single element is strictly best.
   */
  lemma TieOrUniqueBest<X(!new)>(s: seq<X>, cmp: (X, X) -> int)
    requires TotalPreorder(cmp)
    requires s != []
    ensures HasTie(s, cmp) <==> !exists x :: UniqueBest(x, s, cmp)
  {
    if x :| UniqueBest(x, s, cmp) {
      UniqueBestExcludesTie(x, s, cmp);
    } else {
      var b := BestExists(s, cmp);
      if multiset(s)[b] >= 2 {
        assert multiset{b, b} <= multiset(s);
      } else {
        assert !UniqueBest(b, s, cmp);
        var y :| y in s && y != b && cmp(b, y) >= 0;
        assert cmp(b, y) == 0;
        assert IsBest(y, s, cmp);
        assert multiset{b, y} <= multiset(s);
      }
    }
  }

  lemma UniqueBestExcludesTie<X(!new)>(x: X, s: seq<X>, cmp: (X, X) -> int)
    requires TotalPreorder(cmp)
    requires UniqueBest(x, s, cmp)
    ensures !HasTie(s, cmp)
  {
    forall a, b | a in s && b in s && IsBest(a, s, cmp) && IsBest(b, s, cmp)
      ensures !(multiset{a, b} <= multiset(s))
    {
      // A best element cannot sort strictly after x, so it is x itself.
      assert cmp(a, x) <= 0 && cmp(b, x) <= 0;
      assert a == x && b == x;
      assert multiset{a, b}[x] == 2;
    }
  }

  /** The head of a sorted permutation of `s` is best in `s`. */
  lemma SortedHeadIsBest<X>(sorted: seq<X>, s: seq<X>, cmp: (X, X) -> int)
    requires Sorted(sorted, cmp) && multiset(sorted) == multiset(s)
    requires sorted != []
    requires cmp(sorted[0], sorted[0]) <= 0
    ensures IsBest(sorted[0], s, cmp)
  {
    forall y | y in s ensures cmp(sorted[0], y) <= 0 {
      assert y in multiset(sorted);
      var k :| 0 <= k < |sorted| && sorted[k] == y;
    }
  }

  /** In a sorted permutation of `s`, a tie between the first two is a tie for best in `s`. */
  lemma SortedHeadTie<X(!new)>(sorted: seq<X>, s: seq<X>, cmp: (X, X) -> int)
    requires TotalPreorder(cmp)
    requires Sorted(sorted, cmp) && multiset(sorted) == multiset(s)
    requires |sorted| > 1 && cmp(sorted[0], sorted[1]) == 0
    ensures sorted[0] in s && sorted[1] in s
    ensures IsBest(sorted[0], s, cmp) && IsBest(sorted[1], s, cmp)
    ensures multiset{sorted[0], sorted[1]} <= multiset(s)
  {
    var x, y := sorted[0], sorted[1];
    CompareReflexive(cmp, x);
    SortedHeadIsBest(sorted, s, cmp);
    assert x in multiset(sorted) && y in multiset(sorted);
    assert cmp(y, x) == 0;
    forall z | z in s ensures cmp(y, z) <= 0 {
      assert cmp(x, z) <= 0;
    }
    assert sorted == [x, y] + sorted[2..];
    assert multiset(sorted) == multiset{x, y} + multiset(sorted[2..]);
  }

  /** In a sorted permutation of `s`, a head strictly before the second element is the unique best of `s`. */
  lemma SortedHeadUnique<X(!new)>(sorted: seq<X>, s: seq<X>, cmp: (X, X) -> int)
    requires TotalPreorder(cmp)
    requires Sorted(sorted, cmp) && multiset(sorted) == multiset(s)
    requires sorted != []
    requires |sorted| > 1 ==> cmp(sorted[0], sorted[1]) != 0
    ensures UniqueBest(sorted[0], s, cmp)
  {
    var x := sorted[0];
    CompareReflexive(cmp, x);
    assert x in multiset(sorted);
    forall k | 1 <= k < |sorted| ensures cmp(x, sorted[k]) < 0 {
      assert cmp(x, sorted[1]) < 0;
      assert cmp(sorted[1], sorted[k]) <= 0;
    }
    assert sorted == [x] + sorted[1..];
    assert x !in sorted[1..];
    assert multiset(sorted) == multiset{x} + multiset(sorted[1..]);
    forall y | y in s && y != x ensures cmp(x, y) < 0 {
      assert y in multiset(sorted);
      var k :| 0 <= k < |sorted| && sorted[k] == y;
    }
  }

  /** Inserts `x` after every element of `s` that sorts no later than it. */
  method Insert<X(!new)>(s: seq<X>, x: X, cmp: (X, X) -> int) returns (t: seq<X>)
    requires TotalPreorder(cmp)
    requires Sorted(s, cmp)
    ensures Sorted(t, cmp)
    ensures multiset(t) == multiset(s) + multiset{x}
  {
    var j := |s|;
    while j > 0 && cmp(s[j - 1], x) > 0
      invariant 0 <= j <= |s|
      invariant forall k :: j <= k < |s| ==> cmp(s[k], x) > 0
    {
      j := j - 1;
    }
    t := s[..j] + [x] + s[j..];
    InsertedSorted(s, j, x, cmp);
    InsertedMultiset(s, j, x);
  }

  lemma InsertedMultiset<X>(s: seq<X>, j: nat, x: X)
    requires j <= |s|
    ensures multiset(s[..j] + [x] + s[j..]) == multiset(s) + multiset{x}
  {
    assert s == s[..j] + s[j..];
  }

  lemma InsertedSorted<X(!new)>(s: seq<X>, j: nat, x: X, cmp: (X, X) -> int)
    requires TotalPreorder(cmp)
    requires Sorted(s, cmp)
    requires j <= |s|
    requires j > 0 ==> cmp(s[j - 1], x) <= 0
    requires forall k :: j <= k < |s| ==> cmp(s[k], x) > 0
    ensures Sorted(s[..j] + [x] + s[j..], cmp)
  {
    var t := s[..j] + [x] + s[j..];
    forall a, b | 0 <= a < b < |t| ensures cmp(t[a], t[b]) <= 0 {
      if b < j {
        assert t[a] == s[a] && t[b] == s[b];
      } else if b == j {
        assert t[a] == s[a] && cmp(s[a], s[j - 1]) <= 0;
      } else if a == j {
        assert t[b] == s[b - 1] && cmp(s[b - 1], x) > 0;
      } else if a < j {
        assert t[a] == s[a] && t[b] == s[b - 1];
      } else {
        assert t[a] == s[a - 1] && t[b] == s[b - 1];
      }
    }
  }

  /** `Collections.sort`: a sorted permutation of `s`. */
  method Sort<X(!new)>(s: seq<X>, cmp: (X, X) -> int) returns (sorted: seq<X>)
    requires TotalPreorder(cmp)
    ensures Sorted(sorted, cmp)
    ensures multiset(sorted) == multiset(s)
  {
    sorted := [];
    for i := 0 to |s|
      invariant Sorted(sorted, cmp)
      invariant multiset(sorted) == multiset(s[..i])
    {
      sorted := Insert(sorted, s[i], cmp);
      assert s[..i + 1] == s[..i] + [s[i]];
    }
    assert s[..|s|] == s;
  }
}
