/**
 * The in-place sorts the program relies on (`sort_by_key`, and `sort_unstable`
 * on values whose order is fully given by a key), as a stable insertion sort
 * on an array, specified by a functional reference sort.
 */
module Sorting {

  /** Keys never decrease from left to right. */
  predicate SortedBy<T>(s: seq<T>, key: T -> int)
  {
    forall i, j :: 0 <= i < j < |s| ==> key(s[i]) <= key(s[j])
  }

  /** The elements of `s` whose key is `k`, in their order in `s`. */
  function WithKey<T>(s: seq<T>, key: T -> int, k: int): seq<T>
  {
    if s == [] then []
    else WithKey(s[..|s| - 1], key, k) + (if key(s[|s| - 1]) == k then [s[|s| - 1]] else [])
  }

  /** `x` placed after every element whose key is at most its own, counting from the right. */
  function InsertByKey<T>(s: seq<T>, x: T, key: T -> int): seq<T>
  {
    if s == [] then [x]
    else if key(s[|s| - 1]) <= key(x) then s + [x]
    else InsertByKey(s[..|s| - 1], x, key) + [s[|s| - 1]]
  }

  /** Insertion sort, left to right: the reference for a stable sort by `key`. */
  function StableSort<T>(s: seq<T>, key: T -> int): seq<T>
  {
    if s == [] then [] else InsertByKey(StableSort(s[..|s| - 1], key), s[|s| - 1], key)
  }

  /** The multiset of a non-empty sequence: its front part and its last element. */
  lemma MultisetSnoc<T>(s: seq<T>)
    requires s != []
    ensures multiset(s) == multiset(s[..|s| - 1]) + multiset{s[|s| - 1]}
  {
    assert s == s[..|s| - 1] + [s[|s| - 1]];
  }

  lemma {:induction false} InsertByKeyMultiset<T>(s: seq<T>, x: T, key: T -> int)
    ensures multiset(InsertByKey(s, x, key)) == multiset(s) + multiset{x}
  {
    if s != [] && key(s[|s| - 1]) > key(x) {
      InsertByKeyMultiset(s[..|s| - 1], x, key);
      MultisetSnoc(s);
    }
  }

  lemma {:induction false} InsertByKeySorted<T>(s: seq<T>, x: T, key: T -> int)
    requires SortedBy(s, key)
    ensures SortedBy(InsertByKey(s, x, key), key)
  {
    if s != [] && key(s[|s| - 1]) > key(x) {
      var init, last := s[..|s| - 1], s[|s| - 1];
      InsertByKeySorted(init, x, key);
      InsertByKeyMultiset(init, x, key);
      var r := InsertByKey(init, x, key);
      forall i | 0 <= i < |r|
        ensures key(r[i]) <= key(last)
      {
        assert r[i] in multiset(r);
        assert r[i] in multiset(init) || r[i] == x;
      }
    }
  }

  /** Inserting `x` adds it after the elements of its own key and leaves the other keys' elements alone. */
  lemma {:induction false} InsertByKeyStable<T>(s: seq<T>, x: T, key: T -> int, k: int)
    ensures WithKey(InsertByKey(s, x, key), key, k) == WithKey(s, key, k) + (if key(x) == k then [x] else [])
  {
    if s == [] {
    } else if key(s[|s| - 1]) <= key(x) {
      assert (s + [x])[..|s|] == s;
    } else {
      var init, last := s[..|s| - 1], s[|s| - 1];
      InsertByKeyStable(init, x, key, k);
      var r := InsertByKey(init, x, key);
      assert (r + [last])[..|r|] == r;
    }
  }

  /** The reference sort orders by key. */
  lemma {:induction false} StableSortSorted<T>(s: seq<T>, key: T -> int)
    ensures SortedBy(StableSort(s, key), key)
  {
    if s != [] {
      StableSortSorted(s[..|s| - 1], key);
      InsertByKeySorted(StableSort(s[..|s| - 1], key), s[|s| - 1], key);
    }
  }

  /** The reference sort is a permutation. */
  lemma {:induction false} StableSortPermutation<T>(s: seq<T>, key: T -> int)
    ensures multiset(StableSort(s, key)) == multiset(s)
  {
    if s != [] {
      StableSortPermutation(s[..|s| - 1], key);
      InsertByKeyMultiset(StableSort(s[..|s| - 1], key), s[|s| - 1], key);
      MultisetSnoc(s);
    }
  }

  /** The reference sort is stable: elements of equal key keep their relative order. */
  lemma {:induction false} StableSortStable<T>(s: seq<T>, key: T -> int, k: int)
    ensures WithKey(StableSort(s, key), key, k) == WithKey(s, key, k)
  {
    if s != [] {
      StableSortStable(s[..|s| - 1], key, k);
      InsertByKeyStable(StableSort(s[..|s| - 1], key), s[|s| - 1], key, k);
    }
  }

  /** Moving `x` past an element of greater key. */
  lemma InsertByKeyPast<T>(s: seq<T>, j: nat, x: T, key: T -> int)
    requires 0 < j <= |s| && key(s[j - 1]) > key(x)
    ensures InsertByKey(s[..j], x, key) + s[j..] == InsertByKey(s[..j - 1], x, key) + s[j - 1..]
  {
    assert s[..j][..j - 1] == s[..j - 1];
    assert s[j - 1..] == [s[j - 1]] + s[j..];
  }

  /** Swapping `x` with its left neighbour moves it one place left among the sorted elements. */
  lemma SwapBack<T>(before: seq<T>, sorted: seq<T>, x: T, j: nat)
    requires 0 < j <= |sorted| && before == sorted[..j] + [x] + sorted[j..]
    ensures before[j - 1 := x][j := sorted[j - 1]] == sorted[..j - 1] + [x] + sorted[j - 1..]
  {
  }

  /**
   * One step of the insertion sort: `a[i]` moves left past the elements of
   * strictly greater key; the rest of the array is untouched.
   */
  method InsertAt<T>(a: array<T>, i: nat, key: T -> int)
    requires i < a.Length
    modifies a
    ensures a[..i + 1] == InsertByKey(old(a[..i]), old(a[i]), key)
    ensures a[i + 1..] == old(a[i + 1..])
  {
    ghost var sorted := a[..i];
    ghost var rest := a[i + 1..];
    var x := a[i];
    assert sorted[..i] == sorted && sorted[i..] == [];
    assert a[..i + 1] == sorted[..i] + [x] + sorted[i..];
    var j := i;
    while j > 0 && key(a[j - 1]) > key(a[j])
      invariant 0 <= j <= i
      invariant a[..i + 1] == sorted[..j] + [x] + sorted[j..]
      invariant a[i + 1..] == rest
      invariant InsertByKey(sorted, x, key) == InsertByKey(sorted[..j], x, key) + sorted[j..]
    {
      ghost var before := a[..i + 1];
      assert a[j - 1] == sorted[j - 1] && a[j] == x;
      InsertByKeyPast(sorted, j, x, key);
      a[j - 1], a[j] := a[j], a[j - 1];
      assert a[..i + 1] == before[j - 1 := x][j := sorted[j - 1]];
      SwapBack(before, sorted, x, j);
      j := j - 1;
    }
    if j > 0 {
      assert a[j - 1] == sorted[j - 1];
      assert sorted[..j] + [x] == InsertByKey(sorted[..j], x, key);
    }
  }

  /**
   * Stable in-place sort of `a` by `key` (`slice::sort_by_key`): insertion
   * sort, moving each element left past the elements of strictly greater key.
   */
  method SortByKey<T>(a: array<T>, key: T -> int)
    modifies a
    ensures a[..] == StableSort(old(a[..]), key)
  {
    ghost var input := a[..];
    var i := 0;
    while i < a.Length
      invariant 0 <= i <= a.Length
      invariant a[..i] == StableSort(input[..i], key)
      invariant a[i..] == input[i..]
    {
      assert a[i] == input[i];
      assert a[i + 1..] == input[i + 1..] by {
        assert a[i..] == [a[i]] + a[i + 1..];
        assert input[i..] == [input[i]] + input[i + 1..];
      }
      InsertAt(a, i, key);
      assert input[..i + 1][..i] == input[..i];
      i := i + 1;
    }
    assert input[..a.Length] == input;
  }

  /** No element occurs twice. */
  predicate Distinct<T(==)>(s: seq<T>)
  {
    forall i, j :: 0 <= i < j < |s| ==> s[i] != s[j]
  }

  lemma {:induction false} InsertByKeyDistinct<T>(s: seq<T>, x: T, key: T -> int)
    requires Distinct(s) && x !in s
    ensures Distinct(InsertByKey(s, x, key))
  {
    if s != [] && key(s[|s| - 1]) > key(x) {
      var init, last := s[..|s| - 1], s[|s| - 1];
      assert x !in init;
      InsertByKeyDistinct(init, x, key);
      InsertByKeyMultiset(init, x, key);
      var r := InsertByKey(init, x, key);
      assert last !in r by {
        assert last !in init;
        assert last in multiset(r) ==> last in multiset(init) || last == x;
      }
    }
  }

  /** The reference sort of a duplicate-free sequence is duplicate-free. */
  lemma {:induction false} StableSortDistinct<T>(s: seq<T>, key: T -> int)
    requires Distinct(s)
    ensures Distinct(StableSort(s, key))
  {
    if s != [] {
      var init, last := s[..|s| - 1], s[|s| - 1];
      StableSortDistinct(init, key);
      StableSortPermutation(init, key);
      assert last !in init;
      assert last !in StableSort(init, key) by {
        assert last in StableSort(init, key) ==> last in multiset(init);
      }
      InsertByKeyDistinct(StableSort(init, key), last, key);
    }
  }

  /** An index's own value as its sort key. */
  function NatKey(x: nat): int
  {
    x
  }

  /** Strictly ascending indices. */
  predicate StrictlyIncreasing(s: seq<nat>)
  {
    forall i, j :: 0 <= i < j < |s| ==> s[i] < s[j]
  }

  /**
   * `sort_unstable` of a duplicate-free index sample: the same indices,
   * strictly ascending (with distinct keys, stability makes no difference).
   */
  lemma SortedSampleSpec(sample: seq<nat>)
    requires Distinct(sample)
    ensures StrictlyIncreasing(StableSort(sample, NatKey))
    ensures multiset(StableSort(sample, NatKey)) == multiset(sample)
  {
    var sorted := StableSort(sample, NatKey);
    StableSortSorted(sample, NatKey);
    StableSortDistinct(sample, NatKey);
    StableSortPermutation(sample, NatKey);
    forall i, j | 0 <= i < j < |sorted|
      ensures sorted[i] < sorted[j]
    {
      assert NatKey(sorted[i]) <= NatKey(sorted[j]) && sorted[i] != sorted[j];
    }
  }

  /** Sorts a copy of the sampled indices in an array. */
  method SortedSample(sample: seq<nat>) returns (ixs: seq<nat>)
    ensures ixs == StableSort(sample, NatKey)
  {
    var a := new nat[|sample|];
    forall i | 0 <= i < |sample| {
      a[i] := sample[i];
    }
    assert a[..] == sample;
    SortByKey(a, NatKey);
    ixs := a[..];
  }
}
