/**
 * Keyword lists: a list is a sequence of payloads (keywords), ordered by a
 * caller-supplied `less`.  The utilities copy a list, merge two lists, and
 * merge-sort a list by splitting it at its middle node.
 */
module KeywordLists {

  // ---------------------------------------------------------------------
  // Orders
  // ---------------------------------------------------------------------

  /**
   * `less` is a strict weak order: irreflexive, transitive, and its
   * negation ("not less", i.e. "at least") is transitive too.
   */
  ghost predicate StrictWeakOrder<T(!new)>(less: (T, T) -> bool) {
    (forall x :: !less(x, x)) &&
    (forall x, y, z :: less(x, y) && less(y, z) ==> less(x, z)) &&
    (forall x, y, z :: !less(x, y) && !less(y, z) ==> !less(x, z))
  }

  /** No later entry is `less` than an earlier one. */
  ghost predicate Sorted<T>(s: seq<T>, less: (T, T) -> bool) {
    forall i, j :: 0 <= i < j < |s| ==> !less(s[j], s[i])
  }

  /** No entry of `s` is `less` than `x`. */
  ghost predicate AtLeast<T>(s: seq<T>, x: T, less: (T, T) -> bool) {
    forall i :: 0 <= i < |s| ==> !less(s[i], x)
  }

  // ---------------------------------------------------------------------
  // Merging
  // ---------------------------------------------------------------------

  /**
   * The list `merge` builds.  While both lists are non-empty it compares
   * their heads; when the head of `l2` is `less` than the head of `l1` it
   * emits it and swaps the roles of the lists, so the rest of `l2` is
   * merged in first position; otherwise it emits the head of `l1`.
   */
  function Merged<T>(l1: seq<T>, l2: seq<T>, less: (T, T) -> bool): (r: seq<T>)
    ensures |r| == |l1| + |l2|
    decreases |l1| + |l2|
  {
    if |l1| == 0 then l2
    else if |l2| == 0 then l1
    else if less(l2[0], l1[0]) then [l2[0]] + Merged(l2[1..], l1, less)
    else [l1[0]] + Merged(l1[1..], l2, less)
  }

  /** The merge holds exactly the entries of both inputs. */
  lemma {:induction false} MergedPermutation<T>(l1: seq<T>, l2: seq<T>, less: (T, T) -> bool)
    ensures multiset(Merged(l1, l2, less)) == multiset(l1) + multiset(l2)
    decreases |l1| + |l2|
  {
    if |l1| > 0 && |l2| > 0 {
      if less(l2[0], l1[0]) {
        MergedPermutation(l2[1..], l1, less);
        assert l2 == [l2[0]] + l2[1..];
      } else {
        MergedPermutation(l1[1..], l2, less);
        assert l1 == [l1[0]] + l1[1..];
      }
    }
  }

  /** A lower bound of both inputs is a lower bound of the merge. */
  lemma {:induction false} MergedAtLeast<T>(l1: seq<T>, l2: seq<T>, x: T, less: (T, T) -> bool)
    requires AtLeast(l1, x, less) && AtLeast(l2, x, less)
    ensures AtLeast(Merged(l1, l2, less), x, less)
    decreases |l1| + |l2|
  {
    if |l1| > 0 && |l2| > 0 {
      if less(l2[0], l1[0]) {
        MergedAtLeast(l2[1..], l1, x, less);
      } else {
        MergedAtLeast(l1[1..], l2, x, less);
      }
    }
  }

  /** A sorted list whose head is at most every entry of its tail. */
  lemma SortedCons<T>(x: T, s: seq<T>, less: (T, T) -> bool)
    requires Sorted(s, less) && AtLeast(s, x, less)
    ensures Sorted([x] + s, less)
  {
    var t := [x] + s;
    forall i, j | 0 <= i < j < |t| ensures !less(t[j], t[i]) {
      assert t[j] == s[j - 1];
      if i > 0 {
        assert t[i] == s[i - 1];
      }
    }
  }

  /** Merging two sorted lists under a strict weak order gives a sorted list: each step emits a least head. */
  lemma {:induction false} MergedSorted<T(!new)>(l1: seq<T>, l2: seq<T>, less: (T, T) -> bool)
    requires StrictWeakOrder(less) && Sorted(l1, less) && Sorted(l2, less)
    ensures Sorted(Merged(l1, l2, less), less)
    decreases |l1| + |l2|
  {
    if |l1| > 0 && |l2| > 0 {
      var a, b := l1[0], l2[0];
      if less(b, a) {
        var rest := l2[1..];
        MergedSorted(rest, l1, less);
        forall i | 0 <= i < |rest| ensures !less(rest[i], b) {
          assert rest[i] == l2[i + 1];
        }
        forall i | 0 <= i < |l1| ensures !less(l1[i], b) {
          if i > 0 {
            assert !less(l1[i], a);
          }
        }
        MergedAtLeast(rest, l1, b, less);
        SortedCons(b, Merged(rest, l1, less), less);
      } else {
        var rest := l1[1..];
        MergedSorted(rest, l2, less);
        forall i | 0 <= i < |rest| ensures !less(rest[i], a) {
          assert rest[i] == l1[i + 1];
        }
        forall i | 0 <= i < |l2| ensures !less(l2[i], a) {
          if i > 0 {
            assert !less(l2[i], b);
          }
        }
        MergedAtLeast(rest, l2, a, less);
        SortedCons(a, Merged(rest, l2, less), less);
      }
    }
  }

  /**
   * Merges two lists, appending the chosen head to the result each turn;
   * a list that runs out hands the rest of the other one over whole.
   */
  method Merge<T>(list1: seq<T>, list2: seq<T>, less: (T, T) -> bool) returns (result: seq<T>)
    ensures result == Merged(list1, list2, less)
    ensures |list1| == 0 ==> result == list2
    ensures |list2| == 0 ==> result == list1
  {
    var l1, l2 := list1, list2;
    result := [];
    while true
      invariant result + Merged(l1, l2, less) == Merged(list1, list2, less)
      decreases |l1| + |l2|
    {
      if |l1| == 0 {
        result := result + l2;
        break;
      }
      if |l2| == 0 {
        result := result + l1;
        break;
      }
      if less(l2[0], l1[0]) {
        ghost var m := Merged(l2[1..], l1, less);
        assert Merged(l1, l2, less) == [l2[0]] + m;
        assert result + ([l2[0]] + m) == (result + [l2[0]]) + m;
        result := result + [l2[0]];
        var rest := l2[1..];
        l2 := l1;
        l1 := rest;
      } else {
        ghost var m := Merged(l1[1..], l2, less);
        assert Merged(l1, l2, less) == [l1[0]] + m;
        assert result + ([l1[0]] + m) == (result + [l1[0]]) + m;
        result := result + [l1[0]];
        l1 := l1[1..];
      }
    }
  }

  // ---------------------------------------------------------------------
  // Sorting
  // ---------------------------------------------------------------------

  /**
   * The list `mergesort_list` returns: lists of at most one node as they
   * are; otherwise the first ceil(n/2) nodes and the rest, each sorted,
   * merged.
   */
  function MergeSorted<T>(list: seq<T>, less: (T, T) -> bool): (r: seq<T>)
    ensures |r| == |list|
    decreases |list|
  {
    if |list| <= 1 then list
    else
      var half := (|list| + 1) / 2;
      Merged(MergeSorted(list[..half], less), MergeSorted(list[half..], less), less)
  }

  /** Merge sort only rearranges: the output holds exactly the entries of the input. */
  lemma {:induction false} MergeSortedPermutation<T>(list: seq<T>, less: (T, T) -> bool)
    ensures multiset(MergeSorted(list, less)) == multiset(list)
    decreases |list|
  {
    if |list| > 1 {
      var half := (|list| + 1) / 2;
      var left, right := list[..half], list[half..];
      assert list == left + right;
      MergeSortedPermutation(left, less);
      MergeSortedPermutation(right, less);
      var sl, sr := MergeSorted(left, less), MergeSorted(right, less);
      MergedPermutation(sl, sr, less);
      assert MergeSorted(list, less) == Merged(sl, sr, less);
    }
  }

  /** Merge sort under a strict weak order yields a sorted list. */
  lemma {:induction false} MergeSortedSorted<T(!new)>(list: seq<T>, less: (T, T) -> bool)
    requires StrictWeakOrder(less)
    ensures Sorted(MergeSorted(list, less), less)
    decreases |list|
  {
    if |list| > 1 {
      var half := (|list| + 1) / 2;
      MergeSortedSorted(list[..half], less);
      MergeSortedSorted(list[half..], less);
      MergedSorted(MergeSorted(list[..half], less), MergeSorted(list[half..], less), less);
    }
  }

  /**
   * The slow/fast cursor walk of `mergesort_list`: `temp` moves two nodes
   * for each node `middle` moves, and the left half ends at `middle`.
   * Returns the number of nodes in the left half.
   */
  method Middle<T>(list: seq<T>) returns (half: nat)
    requires |list| >= 2
    ensures half == (|list| + 1) / 2 && 0 < half < |list|
  {
    var middle := 0;
    var temp := 1;
    while true
      invariant temp == 2 * middle + 1 && temp < |list|
      decreases |list| - temp
    {
      temp := temp + 1;
      if temp == |list| {
        break;
      }
      temp := temp + 1;
      middle := middle + 1;
      if temp == |list| {
        break;
      }
    }
    half := middle + 1;
  }

  /** Sorts a list: cut after the middle node, sort both halves, merge. */
  method MergesortList<T>(list: seq<T>, less: (T, T) -> bool) returns (r: seq<T>)
    ensures r == MergeSorted(list, less)
    ensures |list| <= 1 ==> r == list
    decreases |list|
  {
    if |list| <= 1 {
      return list;
    }
    var half := Middle(list);
    var rightHalf := list[half..];
    var left := MergesortList(list[..half], less);
    var right := MergesortList(rightHalf, less);
    r := Merge(left, right, less);
  }

  // ---------------------------------------------------------------------
  // Copying
  // ---------------------------------------------------------------------

  /** A shallow copy: a new list whose nodes hold the same payloads in the same order. */
  method CopyList<T>(list: seq<T>) returns (result: seq<T>)
    ensures |result| == |list|
    ensures forall i :: 0 <= i < |list| ==> result[i] == list[i]
  {
    result := [];
    var rest := list;
    while |rest| > 0
      invariant result + rest == list
      decreases |rest|
    {
      result := result + [rest[0]];
      rest := rest[1..];
    }
  }
}
