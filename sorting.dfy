/**
 * The per-channel `std::sort` of `medianColor`, as a function on sequences: an insertion sort whose
 * result is sorted and a permutation of its input, which determines it uniquely.
 */
module Sorting {
  import opened Types

  predicate Sorted(s: seq<Byte>)
  {
    forall i, j | 0 <= i < j < |s| :: s[i] <= s[j]
  }

  /** Puts `x` before the first element of `s` that is not smaller than it. */
  function Insert(x: Byte, s: seq<Byte>): (r: seq<Byte>)
    ensures |r| == |s| + 1
  {
    if s == [] || x <= s[0] then [x] + s else [s[0]] + Insert(x, s[1..])
  }

  /** Inserting into a sorted sequence keeps it sorted; the result starts with the smaller of `x` and `s[0]`. */
  lemma {:induction false} InsertSorted(x: Byte, s: seq<Byte>)
    requires Sorted(s)
    ensures Sorted(Insert(x, s))
    ensures Insert(x, s)[0] == if s != [] && s[0] < x then s[0] else x
  {
    if s != [] && s[0] < x {
      var t := Insert(x, s[1..]);
      InsertSorted(x, s[1..]);
      assert s[0] <= t[0];
      assert Insert(x, s) == [s[0]] + t;
    }
  }

  /** Inserting adds `x` and keeps every other element. */
  lemma {:induction false} InsertPermutes(x: Byte, s: seq<Byte>)
    ensures multiset(Insert(x, s)) == multiset(s) + multiset{x}
  {
    if s != [] && s[0] < x {
      InsertPermutes(x, s[1..]);
      assert s == [s[0]] + s[1..];
    }
  }

  /** Ascending order, as `std::sort` with the default comparison leaves a channel vector. */
  function Sort(s: seq<Byte>): (r: seq<Byte>)
    ensures |r| == |s|
  {
    if s == [] then [] else Insert(s[0], Sort(s[1..]))
  }

  /** The result of sorting is in ascending order. */
  lemma {:induction false} SortSorted(s: seq<Byte>)
    ensures Sorted(Sort(s))
  {
    if s != [] {
      SortSorted(s[1..]);
      InsertSorted(s[0], Sort(s[1..]));
    }
  }

  /** Sorting only reorders: the result holds the same elements, each as often. */
  lemma {:induction false} SortPermutes(s: seq<Byte>)
    ensures multiset(Sort(s)) == multiset(s)
  {
    if s != [] {
      SortPermutes(s[1..]);
      InsertPermutes(s[0], Sort(s[1..]));
      assert s == [s[0]] + s[1..];
    }
  }

  /** Two sorted sequences with the same elements are equal: the sorted order is unique. */
  lemma {:induction false} SortedUnique(s: seq<Byte>, t: seq<Byte>)
    requires Sorted(s) && Sorted(t) && multiset(s) == multiset(t)
    ensures s == t
    decreases |s|
  {
    if s != [] {
      assert |t| == |s| by { assert |multiset(s)| == |multiset(t)|; }
      assert s[0] == t[0] by {
        HeadIsLeast(s, t[0]);
        HeadIsLeast(t, s[0]);
      }
      assert s[1..] == t[1..] by {
        Tail(s);
        Tail(t);
        SortedUnique(s[1..], t[1..]);
      }
      assert s == [s[0]] + s[1..];
    }
  }

  /** The head of a sorted sequence is no greater than any of its elements. */
  lemma HeadIsLeast(s: seq<Byte>, x: Byte)
    requires Sorted(s) && x in multiset(s)
    ensures s != [] && s[0] <= x
  {
    var i :| 0 <= i < |s| && s[i] == x;
  }

  /** The tail of a non-empty sorted sequence is sorted and holds the other elements. */
  lemma Tail(s: seq<Byte>)
    requires Sorted(s) && s != []
    ensures Sorted(s[1..])
    ensures multiset(s[1..]) == multiset(s) - multiset{s[0]}
  {
    assert s == [s[0]] + s[1..];
  }

  /** Sorting depends only on the elements, not on the order they arrive in. */
  lemma SortPermutation(s: seq<Byte>, t: seq<Byte>)
    requires multiset(s) == multiset(t)
    ensures Sort(s) == Sort(t)
  {
    SortPermutes(s);
    SortPermutes(t);
    SortSorted(s);
    SortSorted(t);
    SortedUnique(Sort(s), Sort(t));
  }
}
