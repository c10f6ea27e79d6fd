/** A stable sort by an integer key: the model of Python's `list.sort()` and
    `list.sort(key=...)` as the query handlers use it. The method sorts with an
    insertion loop; the functions say what it computes, and the lemmas prove
    that the result is ordered and a permutation of the input. */
module Sorting {

  ghost predicate SortedBy<T>(s: seq<T>, key: T -> int) {
    forall i, j :: 0 <= i < j < |s| ==> key(s[i]) <= key(s[j])
  }

  /** Inserts `x` after every element whose key is not greater than its own,
      so that elements with equal keys keep their order (stability). */
  function InsertBy<T>(s: seq<T>, x: T, key: T -> int): seq<T> {
    if s == [] then [x]
    else if key(x) < key(s[0]) then [x] + s
    else [s[0]] + InsertBy(s[1..], x, key)
  }

  /** Insertion sort, inserting the elements left to right. */
  function InsertionSort<T>(s: seq<T>, key: T -> int): seq<T> {
    if s == [] then [] else InsertBy(InsertionSort(s[..|s| - 1], key), s[|s| - 1], key)
  }

  lemma {:induction false} InsertByMultiset<T>(s: seq<T>, x: T, key: T -> int)
    ensures multiset(InsertBy(s, x, key)) == multiset(s) + multiset{x}
    ensures |InsertBy(s, x, key)| == |s| + 1
  {
    if s != [] && key(s[0]) <= key(x) {
      InsertByMultiset(s[1..], x, key);
      assert s == [s[0]] + s[1..];
    }
  }

  /** Prepending an element no greater than any other keeps a sequence sorted. */
  lemma ConsSorted<T>(h: T, r: seq<T>, key: T -> int)
    requires SortedBy(r, key) && forall i :: 0 <= i < |r| ==> key(h) <= key(r[i])
    ensures SortedBy([h] + r, key)
  {
    var q := [h] + r;
    forall i, j | 0 <= i < j < |q| ensures key(q[i]) <= key(q[j]) {
      if i == 0 {
        assert q[j] == r[j - 1];
      } else {
        assert q[i] == r[i - 1] && q[j] == r[j - 1];
      }
    }
  }

  /** A lower bound of all keys and of `key(x)` bounds the keys after inserting `x`. */
  lemma {:induction false} InsertByBound<T>(s: seq<T>, x: T, key: T -> int, b: int)
    requires forall i :: 0 <= i < |s| ==> b <= key(s[i])
    requires b <= key(x)
    ensures forall i :: 0 <= i < |InsertBy(s, x, key)| ==> b <= key(InsertBy(s, x, key)[i])
  {
    if s != [] && key(s[0]) <= key(x) {
      InsertByBound(s[1..], x, key, b);
      var r := InsertBy(s[1..], x, key);
      assert InsertBy(s, x, key) == [s[0]] + r;
    }
  }

  lemma {:induction false} InsertBySorted<T>(s: seq<T>, x: T, key: T -> int)
    requires SortedBy(s, key)
    ensures SortedBy(InsertBy(s, x, key), key)
  {
    if s == [] {
    } else if key(x) < key(s[0]) {
      forall i | 0 <= i < |s| ensures key(x) <= key(s[i]) {
        if i > 0 {
          assert key(s[0]) <= key(s[i]);
        }
      }
      ConsSorted(x, s, key);
    } else {
      var t := s[1..];
      forall i | 0 <= i < |t| ensures key(s[0]) <= key(t[i]) {
        assert key(s[0]) <= key(s[i + 1]);
      }
      InsertBySorted(t, x, key);
      InsertByBound(t, x, key, key(s[0]));
      ConsSorted(s[0], InsertBy(t, x, key), key);
    }
  }

  lemma {:induction false} InsertionSortProperties<T>(s: seq<T>, key: T -> int)
    ensures SortedBy(InsertionSort(s, key), key)
    ensures multiset(InsertionSort(s, key)) == multiset(s)
    ensures |InsertionSort(s, key)| == |s|
  {
    if s != [] {
      var init := s[..|s| - 1];
      InsertionSortProperties(init, key);
      InsertBySorted(InsertionSort(init, key), s[|s| - 1], key);
      InsertByMultiset(InsertionSort(init, key), s[|s| - 1], key);
      assert s == init + [s[|s| - 1]];
    }
  }

  /** Sorts `s` by `key` with an insertion loop (Python's stable `sort`). */
  method SortBy<T(==)>(s: seq<T>, key: T -> int) returns (sorted: seq<T>)
    ensures sorted == InsertionSort(s, key)
    ensures SortedBy(sorted, key) && multiset(sorted) == multiset(s) && |sorted| == |s|
  {
    sorted := [];
    for i := 0 to |s|
      invariant sorted == InsertionSort(s[..i], key)
    {
      assert s[..i + 1][..i] == s[..i];
      sorted := InsertBy(sorted, s[i], key);
    }
    assert s[..|s|] == s;
    InsertionSortProperties(s, key);
  }

  function Reverse<T>(s: seq<T>): (r: seq<T>)
    ensures |r| == |s|
    ensures forall i :: 0 <= i < |s| ==> r[i] == s[|s| - 1 - i]
  {
    if s == [] then [] else [s[|s| - 1]] + Reverse(s[..|s| - 1])
  }

  /** When every element's key is strictly smaller than its predecessor's, the
      stable sort just reverses the sequence. */
  lemma {:induction false} SortStrictlyDecreasing<T>(s: seq<T>, key: T -> int)
    requires forall i, j :: 0 <= i < j < |s| ==> key(s[j]) < key(s[i])
    ensures InsertionSort(s, key) == Reverse(s)
  {
    if s != [] {
      var init := s[..|s| - 1];
      SortStrictlyDecreasing(init, key);
      var x := s[|s| - 1];
      if init != [] {
        assert Reverse(init)[0] == init[|init| - 1];
        assert key(x) < key(Reverse(init)[0]);
      }
    }
  }
}
