/**
 * sort.Slice(posts, func(i, j int) bool { return key(posts[i]) > key(posts[j]) }):
 * an in-place sort into descending order of a string key.
 */
module Sorting {
  import opened Text

  /** Every element's key is at least the key of every later element. */
  predicate DescendingBy<T>(s: seq<T>, key: T -> string)
  {
    forall i, j :: 0 <= i < j < |s| ==> LessEq(key(s[j]), key(s[i]))
  }

  /**
   * Sorts `a` in place by descending key. The result is a permutation of the
   * input; the relative order of equal keys is not specified (sort.Slice is
   * not stable), and this selection sort makes no promise about it either.
   */
  method SortDescending<T>(a: array<T>, key: T -> string)
    modifies a
    ensures DescendingBy(a[..], key)
    ensures multiset(a[..]) == old(multiset(a[..]))
  {
    var i := 0;
    while i < a.Length
      invariant 0 <= i <= a.Length
      invariant multiset(a[..]) == old(multiset(a[..]))
      invariant forall p, q :: 0 <= p < q < i ==> LessEq(key(a[q]), key(a[p]))
      invariant forall p, q :: 0 <= p < i <= q < a.Length ==> LessEq(key(a[q]), key(a[p]))
    {
      var m := i;
      var k := i + 1;
      LessEqReflexive(key(a[i]));
      ghost var start := a[..];
      while k < a.Length
        invariant a[..] == start
        invariant i <= m < k <= a.Length
        invariant forall q :: i <= q < k ==> LessEq(key(a[q]), key(a[m]))
      {
        if !LessEq(key(a[k]), key(a[m])) {
          LessEqTotal(key(a[k]), key(a[m]));
          LessEqReflexive(key(a[k]));
          forall q | i <= q < k
            ensures LessEq(key(a[q]), key(a[k]))
          {
            LessEqTransitive(key(a[q]), key(a[m]), key(a[k]));
          }
          m := k;
        }
        k := k + 1;
      }
      ghost var before := a[..];
      Swap(a, i, m);
      assert forall q :: i < q < a.Length ==> a[q] == before[if q == m then i else q];
      i := i + 1;
    }
  }

  /** The listings' last step: the collected posts copied into an array and sorted there. */
  method SortedDescending<T>(s: seq<T>, key: T -> string) returns (r: seq<T>)
    ensures DescendingBy(r, key)
    ensures multiset(r) == multiset(s) && |r| == |s|
  {
    var a := new T[|s|](i requires 0 <= i < |s| => s[i]);
    assert a[..] == s;
    SortDescending(a, key);
    assert |multiset(a[..])| == |multiset(s)|;
    r := a[..];
  }

  method Swap<T>(a: array<T>, i: int, j: int)
    requires 0 <= i <= j < a.Length
    modifies a
    ensures a[i] == old(a[j]) && a[j] == old(a[i])
    ensures forall k :: 0 <= k < a.Length && k != i && k != j ==> a[k] == old(a[k])
    ensures multiset(a[..]) == old(multiset(a[..]))
  {
    a[i], a[j] := a[j], a[i];
  }

  /** In a descending order, entries with an empty key come after all others. */
  lemma {:induction false} EmptyKeysLast<T>(s: seq<T>, key: T -> string, i: int, j: int)
    requires DescendingBy(s, key)
    requires 0 <= i < j < |s| && key(s[i]) == []
    ensures key(s[j]) == []
  {
    EmptyIsLeast(key(s[j]));
  }
}
