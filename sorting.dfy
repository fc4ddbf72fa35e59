/**
  The two array operations the search view uses on its lists:
  `Array.prototype.filter` (a pure function here) and
  `Array.prototype.sort` with a comparator that compares one string key of
  each element by `localeCompare` (an in-place sort on an `array`).
 */
module Sorting {
  import opened Strings

  /** `s.filter(p)`: the elements of `s` that satisfy `p`, each as often as it occurs in `s`. */
  function Keep<T(!new)>(s: seq<T>, p: T -> bool): (r: seq<T>)
    ensures |r| <= |s|
    ensures forall x :: multiset(r)[x] == if p(x) then multiset(s)[x] else 0
  {
    if |s| == 0 then []
    else
      assert s == [s[0]] + s[1..];
      (if p(s[0]) then [s[0]] else []) + Keep(s[1..], p)
  }

  /** An element is kept exactly when it occurs in `s` and satisfies `p`. */
  lemma KeepMember<T(!new)>(s: seq<T>, p: T -> bool, x: T)
    ensures x in Keep(s, p) <==> x in s && p(x)
  {
    assert x in Keep(s, p) <==> multiset(Keep(s, p))[x] > 0;
    assert x in s <==> multiset(s)[x] > 0;
  }

  /** A filter whose predicate holds of every element keeps the whole sequence. */
  lemma {:induction false} KeepAll<T(!new)>(s: seq<T>, p: T -> bool)
    requires forall k :: 0 <= k < |s| ==> p(s[k])
    ensures Keep(s, p) == s
  {
    if |s| > 0 {
      KeepAll(s[1..], p);
      assert s == [s[0]] + s[1..];
    }
  }

  /** A multiset that holds every element at most as often as another is contained in it. */
  lemma SubMultiset<T>(a: multiset<T>, b: multiset<T>)
    requires forall x :: a[x] <= b[x]
    ensures a <= b
  {
  }

  /** Every element's key is at most every later element's key. */
  ghost predicate SortedBy<T>(s: seq<T>, key: T -> string)
  {
    forall i, j :: 0 <= i < j < |s| ==> LessEq(key(s[i]), key(s[j]))
  }

  /** Every element's key is at most the next element's key. */
  ghost predicate AdjacentSortedBy<T>(s: seq<T>, key: T -> string)
  {
    forall i :: 0 < i < |s| ==> LessEq(key(s[i - 1]), key(s[i]))
  }

  /** Order between neighbours extends to order between any two elements. */
  lemma {:induction false} AdjacentSortedIsSorted<T>(s: seq<T>, key: T -> string)
    requires AdjacentSortedBy(s, key)
    ensures SortedBy(s, key)
  {
    forall i, j | 0 <= i < j < |s|
      ensures LessEq(key(s[i]), key(s[j]))
    {
      AdjacentChain(s, key, i, j);
    }
  }

  lemma {:induction false} AdjacentChain<T>(s: seq<T>, key: T -> string, i: nat, j: nat)
    requires AdjacentSortedBy(s, key)
    requires i <= j < |s|
    ensures LessEq(key(s[i]), key(s[j]))
    decreases j - i
  {
    if i == j {
      LessEqReflexive(key(s[i]));
    } else {
      AdjacentChain(s, key, i + 1, j);
      LessEqTransitive(key(s[i]), key(s[i + 1]), key(s[j]));
    }
  }

  /**
    `a.sort((x, y) => key(x).localeCompare(key(y)))`, in place: an insertion
    sort that swaps each element leftwards past every strictly greater key.
   */
  method SortBy<T>(a: array<T>, key: T -> string)
    modifies a
    ensures SortedBy(a[..], key)
    ensures multiset(a[..]) == old(multiset(a[..]))
  {
    var i := 0;
    while i < a.Length
      invariant 0 <= i <= a.Length
      invariant AdjacentSortedBy(a[..i], key)
      invariant multiset(a[..]) == old(multiset(a[..]))
    {
      InsertLeft(a, i, key);
      i := i + 1;
    }
    assert a[..] == a[..a.Length];
    AdjacentSortedIsSorted(a[..], key);
  }

  /**
    Copies `s` into a fresh array and sorts that array in place by key, as
    the view does with the list it has just built (`push` then `sort`).
   */
  method SortedCopy<T>(s: seq<T>, key: T -> string) returns (r: seq<T>)
    ensures SortedBy(r, key)
    ensures multiset(r) == multiset(s)
  {
    var a := new T[|s|](i requires 0 <= i < |s| => s[i]);
    assert a[..] == s;
    SortBy(a, key);
    r := a[..];
  }

  /** Moves `a[i]` leftwards into place within the sorted prefix `a[..i]`. */
  method InsertLeft<T>(a: array<T>, i: nat, key: T -> string)
    requires i < a.Length
    requires AdjacentSortedBy(a[..i], key)
    modifies a
    ensures AdjacentSortedBy(a[..i + 1], key)
    ensures multiset(a[..]) == old(multiset(a[..]))
    ensures a[i + 1..] == old(a[i + 1..])
  {
    var j := i;
    while 0 < j && !LessEq(key(a[j - 1]), key(a[j]))
      invariant 0 <= j <= i
      invariant forall k :: 0 < k <= i && k != j ==> LessEq(key(a[k - 1]), key(a[k]))
      invariant 0 < j < i ==> LessEq(key(a[j - 1]), key(a[j + 1]))
      invariant multiset(a[..]) == old(multiset(a[..]))
      invariant a[i + 1..] == old(a[i + 1..])
    {
      LessEqTotal(key(a[j - 1]), key(a[j]));
      Swap(a, j - 1, j);
      j := j - 1;
    }
  }

  /** Exchanges two elements of the array. */
  method Swap<T>(a: array<T>, i: nat, j: nat)
    requires i < j < a.Length
    modifies a
    ensures a[i] == old(a[j]) && a[j] == old(a[i])
    ensures forall k :: 0 <= k < a.Length && k != i && k != j ==> a[k] == old(a[k])
    ensures multiset(a[..]) == old(multiset(a[..]))
  {
    a[i], a[j] := a[j], a[i];
  }
}
