/** `list_del_overlap` (main.py:27-29): dropping repeated elements of a list. */
module Dedup {
  import opened Common

  /** `list(set(lst))`. Python gives the set's iteration order, which is not
      specified; this model keeps the last occurrence of each element, in list
      order. What callers may rely on is the contract: no element twice, and
      exactly the elements of the input. */
  function ListDelOverlap<T(==)>(lst: seq<T>): (r: seq<T>)
    ensures NoDuplicates(r)
    ensures Elements(r) == Elements(lst)
    ensures |r| <= |lst|
  {
    if lst == [] then []
    else
      var rest := ListDelOverlap(lst[1..]);
      assert Elements(lst) == {lst[0]} + Elements(lst[1..]);
      if lst[0] in lst[1..] then rest
      else
        assert lst[0] !in Elements(rest);
        [lst[0]] + rest
  }

  /** A list that already has no repeats comes back with the same elements,
      each once: a permutation of it. This follows from the contract alone, so
      it holds for whatever order `list(set(lst))` yields. */
  lemma ListDelOverlapOfDistinct<T>(lst: seq<T>)
    requires NoDuplicates(lst)
    ensures multiset(ListDelOverlap(lst)) == multiset(lst)
  {
    SameElementsPermutation(ListDelOverlap(lst), lst);
  }

  /** Two lists without repeats that hold the same elements are permutations of each other. */
  lemma SameElementsPermutation<T>(a: seq<T>, b: seq<T>)
    requires NoDuplicates(a) && NoDuplicates(b) && Elements(a) == Elements(b)
    ensures multiset(a) == multiset(b)
  {
    DistinctMultiset(a);
    DistinctMultiset(b);
    forall x ensures multiset(a)[x] == multiset(b)[x] {
      assert x in a <==> x in Elements(a);
      assert x in b <==> x in Elements(b);
    }
  }

  /** In a list without repeats every element occurs once. */
  lemma {:induction false} DistinctMultiset<T>(s: seq<T>)
    requires NoDuplicates(s)
    ensures forall x :: multiset(s)[x] == if x in s then 1 else 0
  {
    if s != [] {
      assert s == [s[0]] + s[1..];
      assert s[0] !in s[1..];
      DistinctMultiset(s[1..]);
    }
  }

  /** The result holds one entry per distinct element of the input. */
  lemma ListDelOverlapSize<T>(lst: seq<T>)
    ensures |ListDelOverlap(lst)| == |Elements(lst)|
  {
    DistinctSize(ListDelOverlap(lst));
  }

  lemma {:induction false} DistinctSize<T>(s: seq<T>)
    requires NoDuplicates(s)
    ensures |Elements(s)| == |s|
  {
    if s != [] {
      assert Elements(s) == {s[0]} + Elements(s[1..]);
      assert s[0] !in Elements(s[1..]);
      DistinctSize(s[1..]);
    }
  }

  /** The same picture URL found twice is kept once. */
  lemma ListDelOverlapRepeated<T>(u: T)
    ensures ListDelOverlap([u, u]) == [u]
  {
    assert [u, u][1..] == [u];
  }
}
