/** Binary search, sorting permutations, and insertion into growable arrays. */
module Algorithm {

  // ---- Orders and index permutations ------------------------------------------------------------

  /** What a three-way comparison function promises. */
  ghost predicate Preorder<K(!new)>(compare: (K, K) -> int) {
    && (forall x, y :: compare(x, y) <= 0 <==> compare(y, x) >= 0)
    && (forall x, y, z :: compare(x, y) <= 0 && compare(y, z) <= 0 ==> compare(x, z) <= 0)
  }

  /** p lists each of 0, ..., n - 1 exactly once. */
  ghost predicate IsPermutation(p: seq<nat>, n: nat) {
    && |p| == n
    && (forall i :: 0 <= i < n ==> p[i] < n)
    && (forall i, j :: 0 <= i < j < n ==> p[i] != p[j])
    && (forall k :: 0 <= k < n ==> k in p)
  }

  /** Reading the keys in the order p yields a sorted list. */
  ghost predicate SortedThrough<K>(keys: seq<K>, p: seq<nat>, compare: (K, K) -> int) {
    && (forall i :: 0 <= i < |p| ==> p[i] < |keys|)
    && (forall i, j :: 0 <= i < j < |p| ==> compare(keys[p[i]], keys[p[j]]) <= 0)
  }

  /** The list with x inserted at index i. */
  function Inserted<T>(s: seq<T>, i: nat, x: T): seq<T>
    requires i <= |s|
  {
    s[..i] + [x] + s[i..]
  }

  /** The list with the element at index i taken out. */
  function Removed<T>(s: seq<T>, i: nat): seq<T>
    requires i < |s|
  {
    s[..i] + s[i + 1..]
  }

  lemma InsertKeepsPermutation(p: seq<nat>, n: nat, i: nat)
    requires IsPermutation(p, n) && i <= n
    ensures IsPermutation(Inserted(p, i, n), n + 1)
  {
    var q := Inserted(p, i, n);
    forall k | 0 <= k <= n ensures k in q {
      if k == n {
        assert q[i] == n;
      } else {
        assert k in p;
        var j :| 0 <= j < n && p[j] == k;
        assert q[if j < i then j else j + 1] == k;
      }
    }
  }

  /** Where a new key can go: nothing before it is larger and nothing from there on is smaller. */
  ghost predicate FitsAt<K>(keys: seq<K>, p: seq<nat>, compare: (K, K) -> int, key: K, i: nat) {
    && i <= |p|
    && (forall j :: 0 <= j < |p| ==> p[j] < |keys|)
    && (forall j :: 0 <= j < i ==> compare(keys[p[j]], key) <= 0)
    && (forall j :: i <= j < |p| ==> compare(key, keys[p[j]]) <= 0)
  }

  lemma InsertKeepsSorted<K(!new)>(keys: seq<K>, p: seq<nat>, compare: (K, K) -> int, key: K, i: nat)
    requires SortedThrough(keys, p, compare) && FitsAt(keys, p, compare, key, i)
    ensures SortedThrough(keys + [key], Inserted(p, i, |keys|), compare)
  {
    var q := Inserted(p, i, |keys|);
    assert forall j :: 0 <= j < |q| ==>
      q[j] == if j < i then p[j] else if j == i then |keys| else p[j - 1];
  }

  // ---- Binary search ----------------------------------------------------------------------------

  /** The elements that compare above the key come first, then the equal ones, then the rest. */
  ghost predicate Searchable<E>(a: seq<E>, compare: E --> int) {
    && (forall i :: 0 <= i < |a| ==> compare.requires(a[i]))
    && (forall i, j :: 0 <= i < j < |a| ==>
          && (compare(a[i]) <= 0 ==> compare(a[j]) <= 0)
          && (compare(a[i]) < 0 ==> compare(a[j]) < 0))
  }

  /** Searches the first `count` elements of a. Returns the index of an equal element, or else the
      one index at which the key can be inserted. */
  method BinarySearch<E>(a: array<E>, count: nat, compare: E --> int) returns (found: bool, index: nat)
    requires count <= a.Length && Searchable(a[..count], compare)
    ensures found ==> index < count && compare(a[index]) == 0
    ensures !found ==>
              && index <= count
              && (forall i :: 0 <= i < index ==> compare(a[i]) > 0)
              && (forall i :: index <= i < count ==> compare(a[i]) < 0)
  {
    ghost var s := a[..count];
    var left, right := 0, count - 1;
    while true
      invariant 0 <= left <= right + 1 <= count
      invariant forall i :: 0 <= i < left ==> compare(s[i]) > 0
      invariant forall i :: right < i < count ==> compare(s[i]) < 0
      decreases right + 1 - left
    {
      if right < left {
        return false, left;
      }
      var mid := (left + right) / 2;
      assert a[mid] == s[mid];
      var cmp := compare(a[mid]);
      if cmp < 0 {
        right := mid - 1;
      } else if cmp > 0 {
        left := mid + 1;
      } else {
        return true, mid;
      }
    }
  }

  /** A sorted list of keys can be searched for any key. */
  lemma SortedIsSearchable<K(!new)>(keys: seq<K>, p: seq<nat>, compare: (K, K) -> int, key: K)
    requires Preorder(compare) && SortedThrough(keys, p, compare)
    ensures forall i, j :: 0 <= i < j < |p| ==>
              && (compare(key, keys[p[i]]) <= 0 ==> compare(key, keys[p[j]]) <= 0)
              && (compare(key, keys[p[i]]) < 0 ==> compare(key, keys[p[j]]) < 0)
  {
    forall i, j | 0 <= i < j < |p|
      ensures compare(key, keys[p[i]]) <= 0 ==> compare(key, keys[p[j]]) <= 0
      ensures compare(key, keys[p[i]]) < 0 ==> compare(key, keys[p[j]]) < 0
    {
      var x, y := keys[p[i]], keys[p[j]];
      assert compare(x, y) <= 0;
      assert compare(key, x) <= 0 ==> compare(key, y) <= 0;
      assert compare(y, key) <= 0 ==> compare(x, key) <= 0;
    }
  }

  // ---- Arrays that grow -------------------------------------------------------------------------

  /** A copy of the first `count` elements with room for `size`; the room is not initialised, so
      it may hold anything (here, `filler`). */
  method Realloc<T>(a: array<T>, count: nat, size: nat, filler: T) returns (b: array<T>)
    requires count <= a.Length && count <= size
    ensures fresh(b) && b.Length == size && b[..count] == a[..count]
  {
    var s := a[..count];
    b := new T[size](i => if 0 <= i < |s| then s[i] else filler);
  }

  /** Moves a[index], ..., a[count - 1] up by one place. */
  method MoveUp<T>(a: array<T>, index: nat, count: nat)
    requires index <= count < a.Length
    modifies a
    ensures a[..index] == old(a[..index])
    ensures a[index + 1..count + 1] == old(a[index..count])
    ensures forall j :: count < j < a.Length ==> a[j] == old(a[j])
  {
    var i := count;
    while i > index
      invariant index <= i <= count
      invariant forall j :: 0 <= j < i ==> a[j] == old(a[j])
      invariant forall j :: i < j <= count ==> a[j] == old(a[j - 1])
      invariant forall j :: count < j < a.Length ==> a[j] == old(a[j])
    {
      a[i] := a[i - 1];
      i := i - 1;
    }
  }

  /** Moves a[index + 1], ..., a[count - 1] down by one place. */
  method MoveDown<T>(a: array<T>, index: nat, count: nat)
    requires index < count <= a.Length
    modifies a
    ensures a[..count - 1] == old(Removed(a[..count], index))
    ensures forall j :: count <= j < a.Length ==> a[j] == old(a[j])
  {
    var i := index;
    while i < count - 1
      invariant index <= i < count
      invariant forall j :: 0 <= j < index ==> a[j] == old(a[j])
      invariant forall j :: index <= j < i ==> a[j] == old(a[j + 1])
      invariant forall j :: i < j < a.Length ==> a[j] == old(a[j])
    {
      a[i] := a[i + 1];
      i := i + 1;
    }
  }

  /** Inserts x at `index` among the first `count` elements, over the element after them. */
  method InsertInPlace<T>(a: array<T>, count: nat, index: nat, x: T)
    requires index <= count < a.Length
    modifies a
    ensures a[..count + 1] == old(Inserted(a[..count], index, x))
    ensures forall j :: count < j < a.Length ==> a[j] == old(a[j])
  {
    MoveUp(a, index, count);
    a[index] := x;
  }

  /** Grows the array by one element, inserted at `index`. */
  method ArrayInsert<T>(a: array<T>, count: nat, index: nat, x: T) returns (b: array<T>)
    requires index <= count <= a.Length
    ensures fresh(b) && b.Length == count + 1 && b[..] == Inserted(a[..count], index, x)
  {
    b := Realloc(a, count, count + 1, x);
    InsertInPlace(b, count, index, x);
    assert b[..count + 1] == b[..];
  }

  // ---- Sorting permutation ----------------------------------------------------------------------

  lemma NothingIsSorted<K>(compare: (K, K) -> int)
    ensures IsPermutation([], 0) && SortedThrough([], [], compare)
  {
  }

  /** Fills `permutation` with an order in which the keys are sorted. An insertion sort stands for
      the library's qsort_r, of which nothing but sortedness is used. */
  method SortingPermutation<K(!new)>(keys: seq<K>, compare: (K, K) -> int, permutation: array<nat>)
    requires Preorder(compare) && permutation.Length == |keys|
    modifies permutation
    ensures IsPermutation(permutation[..], |keys|)
    ensures SortedThrough(keys, permutation[..], compare)
  {
    hide IsPermutation, SortedThrough, Preorder;
    NothingIsSorted(compare);
    for i := 0 to |keys|
      invariant forall j :: 0 <= j < i ==> permutation[j] == j
    {
      permutation[i] := i;
    }
    assert keys[..0] == [] && permutation[..0] == [];
    for n := 0 to |keys|
      invariant IsPermutation(permutation[..n], n)
      invariant SortedThrough(keys[..n], permutation[..n], compare)
      invariant forall j :: n <= j < |keys| ==> permutation[j] == j
    {
      SortInOne(keys, compare, permutation, n);
    }
    assert keys[..|keys|] == keys && permutation[..|keys|] == permutation[..];
  }

  lemma SortedInsert<K(!new)>(keys: seq<K>, compare: (K, K) -> int, p: seq<nat>, n: nat, i: nat)
    requires Preorder(compare) && n < |keys| && i <= n
    requires IsPermutation(p, n) && SortedThrough(keys[..n], p, compare)
    requires i > 0 ==> compare(keys[p[i - 1]], keys[n]) <= 0
    requires forall j :: i <= j < n ==> compare(keys[n], keys[p[j]]) <= 0
    ensures IsPermutation(Inserted(p, i, n), n + 1)
    ensures SortedThrough(keys[..n + 1], Inserted(p, i, n), compare)
  {
    forall j | 0 <= j < i ensures compare(keys[..n][p[j]], keys[n]) <= 0 {
      assert j < i - 1 ==> compare(keys[..n][p[j]], keys[..n][p[i - 1]]) <= 0;
    }
    assert keys[..n + 1] == keys[..n] + [keys[n]];
    InsertKeepsPermutation(p, n, i);
    InsertKeepsSorted(keys[..n], p, compare, keys[n], i);
  }

  lemma ComparesBack<K(!new)>(compare: (K, K) -> int, x: K, y: K)
    requires Preorder(compare)
    ensures compare(x, y) < 0 <==> compare(y, x) > 0
    ensures compare(x, y) <= 0 <==> compare(y, x) >= 0
  {
  }

  /** The scan down the sorted part for the place of key n. */
  method FindPlace<K(!new)>(keys: seq<K>, compare: (K, K) -> int, p: array<nat>, n: nat)
    returns (i: nat)
    requires Preorder(compare) && n < |keys| && n <= p.Length
    requires forall j :: 0 <= j < n ==> p[j] < n
    ensures i <= n
    ensures i > 0 ==> compare(keys[p[i - 1]], keys[n]) <= 0
    ensures forall j :: i <= j < n ==> compare(keys[n], keys[p[j]]) <= 0
  {
    hide Preorder;
    i := n;
    while i > 0 && compare(keys[p[i - 1]], keys[n]) > 0
      invariant i <= n
      invariant forall j :: i <= j < n ==> compare(keys[n], keys[p[j]]) <= 0
    {
      ComparesBack(compare, keys[p[i - 1]], keys[n]);
      i := i - 1;
    }
  }

  /** Inserts index n into the sorted order of the first n keys. */
  method SortInOne<K(!new)>(keys: seq<K>, compare: (K, K) -> int, permutation: array<nat>, n: nat)
    requires Preorder(compare) && permutation.Length == |keys| && n < |keys|
    requires IsPermutation(permutation[..n], n)
    requires SortedThrough(keys[..n], permutation[..n], compare)
    requires permutation[n] == n
    modifies permutation
    ensures IsPermutation(permutation[..n + 1], n + 1)
    ensures SortedThrough(keys[..n + 1], permutation[..n + 1], compare)
    ensures forall j :: n < j < |keys| ==> permutation[j] == old(permutation[j])
  {
    hide SortedThrough, Preorder, Inserted;
    assert forall j :: 0 <= j < n ==> permutation[..n][j] < n;
    var i := FindPlace(keys, compare, permutation, n);
    SortedInsert(keys, compare, permutation[..n], n, i);
    InsertInPlace(permutation, n, i, permutation[n]);
  }
}
