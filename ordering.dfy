/**
 * The ordering helpers: sortInPlace, a stable sort of a slice keyed on the
 * lower-cased strings; sortedPathList, which sorts a copy; and sortedKeys, which
 * lists the keys of a string set in ascending order. A stable sort by a key has
 * exactly one possible result, the one insertion sort produces, so the sort is
 * specified by StableSort below and carried out in place by insertion sort.
 */
module Ordering {
  import opened Strings

  /** Places `x` after the last element of the sorted `t` whose key is not greater
      than that of `x`, scanning from the right. */
  function Insert(t: seq<string>, x: string, key: string -> string): (r: seq<string>)
    ensures |r| == |t| + 1
    decreases |t|
  {
    if t == [] || !Less(key(x), key(t[|t| - 1])) then t + [x]
    else Insert(t[..|t| - 1], x, key) + [t[|t| - 1]]
  }

  /** The stable sort of `s` by `key`: the elements inserted one after the other. */
  function StableSort(s: seq<string>, key: string -> string): (r: seq<string>)
    ensures |r| == |s|
    decreases |s|
  {
    if s == [] then [] else Insert(StableSort(s[..|s| - 1], key), s[|s| - 1], key)
  }

  /** No element comes after one whose key is greater. */
  ghost predicate SortedBy(s: seq<string>, key: string -> string) {
    forall i, j :: 0 <= i < j < |s| ==> !Less(key(s[j]), key(s[i]))
  }

  /** The elements of `s` whose key is `k`, in their order in `s`. */
  function WithKey(s: seq<string>, key: string -> string, k: string): (r: seq<string>)
    decreases |s|
  {
    if s == [] then []
    else WithKey(s[..|s| - 1], key, k) + (if key(s[|s| - 1]) == k then [s[|s| - 1]] else [])
  }

  /* ---------- permutation ---------- */

  lemma {:induction false} InsertPermutes(t: seq<string>, x: string, key: string -> string)
    ensures multiset(Insert(t, x, key)) == multiset(t) + multiset{x}
    decreases |t|
  {
    if t != [] && Less(key(x), key(t[|t| - 1])) {
      InsertPermutes(t[..|t| - 1], x, key);
      assert t == t[..|t| - 1] + [t[|t| - 1]];
    }
  }

  /** The sorted list holds exactly the elements of the input, as often as the input. */
  lemma {:induction false} StableSortPermutes(s: seq<string>, key: string -> string)
    ensures multiset(StableSort(s, key)) == multiset(s)
    decreases |s|
  {
    if s != [] {
      StableSortPermutes(s[..|s| - 1], key);
      InsertPermutes(StableSort(s[..|s| - 1], key), s[|s| - 1], key);
      assert s == s[..|s| - 1] + [s[|s| - 1]];
    }
  }

  /* ---------- order ---------- */

  lemma {:induction false} InsertSorted(t: seq<string>, x: string, key: string -> string)
    requires SortedBy(t, key)
    ensures SortedBy(Insert(t, x, key), key)
    decreases |t|
  {
    var r := Insert(t, x, key);
    if t == [] {
    } else if !Less(key(x), key(t[|t| - 1])) {
      forall i, j | 0 <= i < j < |r|
        ensures !Less(key(r[j]), key(r[i]))
      {
        if j == |t| && i < |t| - 1 {
          assert r[i] == t[i];
          NotLessTransitive(key(x), key(t[|t| - 1]), key(t[i]));
        }
      }
    } else {
      var t' := t[..|t| - 1];
      var last := t[|t| - 1];
      InsertSorted(t', x, key);
      InsertPermutes(t', x, key);
      LessAsymmetric(key(x), key(last));
      var r' := Insert(t', x, key);
      forall i, j | 0 <= i < j < |r|
        ensures !Less(key(r[j]), key(r[i]))
      {
        if j == |t| {
          assert r[i] == r'[i] && r[i] in multiset(r');
          assert r[i] in multiset(t') || r[i] == x;
          if r[i] != x {
            var m :| 0 <= m < |t'| && t'[m] == r[i];
            assert t[m] == r[i];
          }
        }
      }
    }
  }

  /** The sorted list is in ascending order of keys. */
  lemma {:induction false} StableSortSorted(s: seq<string>, key: string -> string)
    ensures SortedBy(StableSort(s, key), key)
    decreases |s|
  {
    if s != [] {
      StableSortSorted(s[..|s| - 1], key);
      InsertSorted(StableSort(s[..|s| - 1], key), s[|s| - 1], key);
    }
  }

  /* ---------- stability ---------- */

  lemma {:induction false} InsertStable(t: seq<string>, x: string, key: string -> string, k: string)
    ensures WithKey(Insert(t, x, key), key, k) == WithKey(t, key, k) + (if key(x) == k then [x] else [])
    decreases |t|
  {
    var r := Insert(t, x, key);
    if t == [] || !Less(key(x), key(t[|t| - 1])) {
      assert r[..|r| - 1] == t;
    } else {
      var t' := t[..|t| - 1];
      var last := t[|t| - 1];
      InsertStable(t', x, key, k);
      LessIrreflexive(key(x));
      assert r[..|r| - 1] == Insert(t', x, key);
      assert key(x) != key(last);
    }
  }

  /** Stability: for every key, the elements with that key keep their input order. */
  lemma {:induction false} StableSortStable(s: seq<string>, key: string -> string, k: string)
    ensures WithKey(StableSort(s, key), key, k) == WithKey(s, key, k)
    decreases |s|
  {
    if s != [] {
      StableSortStable(s[..|s| - 1], key, k);
      InsertStable(StableSort(s[..|s| - 1], key), s[|s| - 1], key, k);
    }
  }

  /* ---------- the sort in place ---------- */

  /** One step of the inner loop: moving `x` past an element with a greater key. */
  lemma InsertStep(t: seq<string>, j: nat, x: string, key: string -> string)
    requires 0 < j <= |t|
    requires Less(key(x), key(t[j - 1]))
    ensures Insert(t[..j], x, key) + t[j..] == Insert(t[..j - 1], x, key) + t[j - 1..]
  {
    assert t[..j][..j - 1] == t[..j - 1];
    assert [t[j - 1]] + t[j..] == t[j - 1..];
  }

  /** One pass of the outer loop: the element at `i` moves left past every element
      of the sorted prefix with a greater key. */
  method InsertAt(a: array<string>, i: nat, key: string -> string)
    requires i < a.Length
    modifies a
    ensures a[..i + 1] == Insert(old(a[..i]), old(a[i]), key)
    ensures a[i + 1..] == old(a[i + 1..])
  {
    ghost var t := a[..i];
    ghost var rest := a[i + 1..];
    var x := a[i];
    var j := i;
    while j > 0 && Less(key(x), key(a[j - 1]))
      invariant 0 <= j <= i
      invariant a[..j] == t[..j]
      invariant a[j + 1..i + 1] == t[j..]
      invariant a[i + 1..] == rest
      invariant Insert(t, x, key) == Insert(t[..j], x, key) + t[j..]
    {
      InsertStep(t, j, x, key);
      a[j] := a[j - 1];
      j := j - 1;
    }
    a[j] := x;
    assert a[..i + 1] == t[..j] + [x] + t[j..];
  }

  /** sortInPlace: insertion sort of the array by `key`. */
  method SortInPlace(a: array<string>, key: string -> string)
    modifies a
    ensures a[..] == StableSort(old(a[..]), key)
  {
    ghost var orig := a[..];
    for i := 0 to a.Length
      invariant a[..i] == StableSort(orig[..i], key)
      invariant a[i..] == orig[i..]
    {
      assert a[i] == orig[i];
      InsertAt(a, i, key);
      assert orig[..i + 1][..i] == orig[..i];
    }
    assert orig[..a.Length] == orig;
  }

  /** sortedPathList: a sorted copy, by lower-cased entry; the argument is a value and
      is not changed. */
  method SortedPathList(pathList: seq<string>) returns (sorted: seq<string>)
    ensures sorted == StableSort(pathList, Lower)
    ensures multiset(sorted) == multiset(pathList)
    ensures SortedBy(sorted, Lower)
  {
    var a := new string[|pathList|](i requires 0 <= i < |pathList| => pathList[i]);
    assert a[..] == pathList;
    SortInPlace(a, Lower);
    sorted := a[..];
    StableSortPermutes(pathList, Lower);
    StableSortSorted(pathList, Lower);
  }

  function Identity(s: string): (r: string) { s }

  /** sortedKeys: the keys of a string set, each once, in strictly ascending order. */
  method SortedKeys(stringSet: set<string>) returns (keys: seq<string>)
    ensures |keys| == |stringSet|
    ensures forall x :: x in keys <==> x in stringSet
    ensures forall i, j :: 0 <= i < j < |keys| ==> Less(keys[i], keys[j])
  {
    var a := new string[|stringSet|];
    var i := 0;
    var remaining := stringSet;
    while remaining != {}
      invariant 0 <= i <= a.Length
      invariant remaining <= stringSet
      invariant i + |remaining| == |stringSet|
      invariant forall x :: x in a[..i] <==> x in stringSet - remaining
      invariant forall p, q :: 0 <= p < q < i ==> a[p] != a[q]
      decreases |remaining|
    {
      var key :| key in remaining;
      ghost var prefix := a[..i];
      assert key !in prefix;
      a[i] := key;
      assert a[..i + 1] == prefix + [key];
      i := i + 1;
      remaining := remaining - {key};
    }
    ghost var filled := a[..];
    assert filled == a[..i];
    SortInPlace(a, Identity);
    keys := a[..];
    SortedDistinct(filled, keys);
  }

  /** Sorting strings that are all different gives a strictly ascending list of the same strings. */
  lemma SortedDistinct(filled: seq<string>, keys: seq<string>)
    requires forall p, q :: 0 <= p < q < |filled| ==> filled[p] != filled[q]
    requires keys == StableSort(filled, Identity)
    ensures forall x :: x in keys <==> x in filled
    ensures forall p, q :: 0 <= p < q < |keys| ==> Less(keys[p], keys[q])
  {
    StableSortPermutes(filled, Identity);
    StableSortSorted(filled, Identity);
    forall x
      ensures x in keys <==> x in filled
    {
      assert x in keys <==> x in multiset(keys);
      assert x in filled <==> x in multiset(filled);
    }
    forall p, q | 0 <= p < q < |keys|
      ensures Less(keys[p], keys[q])
    {
      DistinctAfterPermutation(filled, keys, p, q);
      LessTotal(keys[p], keys[q]);
    }
  }

  /** A permutation of a list without repeated elements has none either. */
  lemma DistinctAfterPermutation(s: seq<string>, r: seq<string>, p: nat, q: nat)
    requires forall i, j :: 0 <= i < j < |s| ==> s[i] != s[j]
    requires multiset(r) == multiset(s)
    requires p < q < |r|
    ensures r[p] != r[q]
  {
    if r[p] == r[q] {
      assert multiset(r)[r[p]] >= 2 by {
        assert r == r[..p] + [r[p]] + r[p + 1..q] + [r[q]] + r[q + 1..];
      }
      DistinctCount(s, r[p]);
    }
  }

  lemma {:induction false} DistinctCount(s: seq<string>, x: string)
    requires forall i, j :: 0 <= i < j < |s| ==> s[i] != s[j]
    ensures multiset(s)[x] <= 1
    decreases |s|
  {
    if s != [] {
      var init := s[..|s| - 1];
      DistinctCount(init, x);
      assert s == init + [s[|s| - 1]];
      if s[|s| - 1] == x {
        assert x !in init;
      }
    }
  }
}
