/**
  Python's `sorted()` on a list of `str`, modelled as insertion sort under
  StringOrder. What callers rely on is stated once: the output is ordered
  and is a rearrangement of the input, and these two facts determine it.
 */
module Sorting {
  import opened StringOrder

  predicate Distinct<T(==)>(s: seq<T>) {
    forall i, j :: 0 <= i < j < |s| ==> s[i] != s[j]
  }

  predicate Sorted(s: seq<string>) {
    forall i, j :: 0 <= i < j < |s| ==> LessEq(s[i], s[j])
  }

  predicate StrictlySorted(s: seq<string>) {
    forall i, j :: 0 <= i < j < |s| ==> Less(s[i], s[j])
  }

  predicate LowerBound(y: string, s: seq<string>) {
    forall k :: 0 <= k < |s| ==> LessEq(y, s[k])
  }

  /** A sequence has no repeated element exactly when no element occurs twice in its multiset. */
  lemma {:induction false} DistinctIffSingleCounts<T>(s: seq<T>)
    ensures Distinct(s) <==> forall x :: multiset(s)[x] <= 1
  {
    if s != [] {
      var a, r := s[0], s[1..];
      assert s == [a] + r;
      DistinctIffSingleCounts(r);
      assert Distinct(s) <==> a !in r && Distinct(r) by {
        if Distinct(s) {
          forall i | 0 <= i < |r| ensures r[i] != a {
            assert s[0] != s[i + 1];
          }
        }
        if a !in r && Distinct(r) {
          forall i, j | 0 <= i < j < |s| ensures s[i] != s[j] {
            if i == 0 {
              assert s[j] == r[j - 1];
            } else {
              assert s[i] == r[i - 1] && s[j] == r[j - 1];
            }
          }
        }
      }
      if Distinct(s) {
        forall x ensures multiset(s)[x] <= 1 {
          assert multiset(s)[x] == multiset{a}[x] + multiset(r)[x];
        }
      }
      if forall x :: multiset(s)[x] <= 1 {
        assert multiset(s)[a] == 1 + multiset(r)[a];
        forall x ensures multiset(r)[x] <= 1 {
          assert multiset(s)[x] == multiset{a}[x] + multiset(r)[x];
        }
      }
    }
  }

  /** Rearranging a sequence without repetitions leaves it without repetitions. */
  lemma DistinctRearrangement<T>(s: seq<T>, t: seq<T>)
    requires Distinct(s) && multiset(s) == multiset(t)
    ensures Distinct(t)
  {
    DistinctIffSingleCounts(s);
    DistinctIffSingleCounts(t);
  }

  lemma LowerBoundOfRearrangement(y: string, s: seq<string>, t: seq<string>)
    requires LowerBound(y, s) && multiset(t) <= multiset(s)
    ensures LowerBound(y, t)
  {
    forall k | 0 <= k < |t| ensures LessEq(y, t[k]) {
      assert t[k] in multiset(t);
      assert t[k] in s;
    }
  }

  function Insert(x: string, s: seq<string>): (r: seq<string>)
    requires Sorted(s)
    ensures multiset(r) == multiset(s) + multiset{x}
    ensures Sorted(r)
    decreases |s|
  {
    if s == [] then [x]
    else if LessEq(x, s[0]) then
      assert LowerBound(x, s) by {
        forall k | 0 <= k < |s| ensures LessEq(x, s[k]) {
          LessEqTransitive(x, s[0], s[k]);
        }
      }
      [x] + s
    else
      LessTotal(x, s[0]);
      var t := Insert(x, s[1..]);
      assert s == [s[0]] + s[1..];
      LowerBoundOfRearrangement(s[0], s[1..] + [x], t);
      [s[0]] + t
  }

  function Sort(s: seq<string>): (r: seq<string>)
    ensures multiset(r) == multiset(s)
    ensures Sorted(r)
  {
    if s == [] then []
    else
      assert s == [s[0]] + s[1..];
      Insert(s[0], Sort(s[1..]))
  }

  /** A sorted sequence without repetitions is strictly increasing. */
  lemma SortedDistinctIsStrict(s: seq<string>)
    requires Sorted(s) && Distinct(s)
    ensures StrictlySorted(s)
  {
  }

  lemma SortedHeadIsLeast(s: seq<string>, x: string)
    requires Sorted(s) && x in s
    ensures LessEq(s[0], x)
  {
    var i :| 0 <= i < |s| && s[i] == x;
    assert i == 0 || LessEq(s[0], s[i]);
  }

  lemma SortedTail(s: seq<string>)
    requires Sorted(s) && s != []
    ensures Sorted(s[1..])
  {
    forall i, j | 0 <= i < j < |s| - 1 ensures LessEq(s[1..][i], s[1..][j]) {
      assert s[1..][i] == s[i + 1] && s[1..][j] == s[j + 1];
    }
  }

  lemma SortedSameHead(a: seq<string>, b: seq<string>)
    requires Sorted(a) && Sorted(b) && multiset(a) == multiset(b) && a != []
    ensures b != [] && a[0] == b[0]
  {
    assert a[0] in multiset(b);
    assert b != [];
    assert b[0] in multiset(a);
    SortedHeadIsLeast(a, b[0]);
    SortedHeadIsLeast(b, a[0]);
    LessEqAntisymmetric(a[0], b[0]);
  }

  lemma SameTailMultiset<T>(a: seq<T>, b: seq<T>)
    requires a != [] && b != [] && a[0] == b[0] && multiset(a) == multiset(b)
    ensures multiset(a[1..]) == multiset(b[1..])
  {
    assert a == [a[0]] + a[1..] && b == [b[0]] + b[1..];
    assert multiset(a) == multiset{a[0]} + multiset(a[1..]);
    assert multiset(b) == multiset{b[0]} + multiset(b[1..]);
    assert multiset(a[1..]) == multiset(a) - multiset{a[0]};
    assert multiset(b[1..]) == multiset(b) - multiset{b[0]};
  }

  /** Two sorted rearrangements of the same elements are the same sequence. */
  lemma {:induction false} SortedUnique(a: seq<string>, b: seq<string>)
    requires Sorted(a) && Sorted(b) && multiset(a) == multiset(b)
    ensures a == b
    decreases |a|
  {
    if a == [] {
      assert |b| == |multiset(b)| == 0;
    } else {
      SortedSameHead(a, b);
      SameTailMultiset(a, b);
      SortedTail(a);
      SortedTail(b);
      SortedUnique(a[1..], b[1..]);
      assert a == [a[0]] + a[1..] && b == [b[0]] + b[1..];
    }
  }

  /** Sorting does not depend on the order of its input, only on its elements. */
  lemma SortDependsOnlyOnElements(s: seq<string>, t: seq<string>)
    requires multiset(s) == multiset(t)
    ensures Sort(s) == Sort(t)
  {
    SortedUnique(Sort(s), Sort(t));
  }
}
