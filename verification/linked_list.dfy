/** The singly linked list of perf_examples/linked_list.c, as the sequence of
    its node values from the head on, with the caller's comparator `comp`:
    `comp(x, y) >= 0` says that `x` may come before `y`. */
module LinkedList {

  /** Adjacent values are in `comp` order. */
  predicate Sorted<T(!new)>(s: seq<T>, comp: (T, T) -> int) {
    forall i :: 0 <= i < |s| - 1 ==> comp(s[i], s[i + 1]) >= 0
  }

  /** Of any two values, one may come before the other. */
  ghost predicate Total<T(!new)>(comp: (T, T) -> int) {
    forall x: T, y: T :: comp(x, y) >= 0 || comp(y, x) >= 0
  }

  /** If `x` may come before `y` and `y` before `z`, then `x` before `z`. */
  ghost predicate Transitive<T(!new)>(comp: (T, T) -> int) {
    forall x: T, y: T, z: T :: TransitiveAt(comp, x, y, z)
  }

  /** One instance of transitivity; proofs name the instance they use. */
  predicate TransitiveAt<T>(comp: (T, T) -> int, x: T, y: T, z: T) {
    comp(x, y) >= 0 && comp(y, z) >= 0 ==> comp(x, z) >= 0
  }

  // ---------------------------------------------------------------------
  // list_put, list_length, list_destroy
  // ---------------------------------------------------------------------

  /** list_put: the new node becomes the head, whether or not the list was
      empty. */
  function ListPut<T(!new)>(l: seq<T>, v: T): (r: seq<T>)
    ensures |r| == |l| + 1 && r[0] == v && r[1..] == l
  {
    if |l| == 0 then [v] else [v] + l
  }

  /** list_length: the number of nodes, counted along the `next` links. */
  method ListLength<T(!new)>(l: seq<T>) returns (n: nat)
    ensures n == |l|
  {
    if |l| == 0 {
      return 0;
    }
    n := 0;
    var rest := l;
    while rest != []
      invariant n + |rest| == |l|
      decreases |rest|
    {
      n := n + 1;
      rest := rest[1..];
    }
  }

  /** list_destroy: detaches the head and hands it to `clean_up`, until the
      list is empty; `cleaned` lists the values handed over, in order. */
  method ListDestroy<T(!new)>(l: seq<T>) returns (cleaned: seq<T>, rest: seq<T>)
    ensures cleaned == l && rest == []
  {
    cleaned := [];
    rest := l;
    while rest != []
      invariant cleaned + rest == l
      decreases |rest|
    {
      var current := rest[0];
      rest := rest[1..];
      cleaned := cleaned + [current];
    }
  }

  // ---------------------------------------------------------------------
  // front_back_split
  // ---------------------------------------------------------------------

  /** The front half, one longer when the length is odd, and the back half. */
  function FrontBackSplit<T(!new)>(l: seq<T>): (r: (seq<T>, seq<T>))
    requires |l| >= 1
    ensures r.0 + r.1 == l
    ensures |r.0| == |l| - |l| / 2 && |r.1| == |l| / 2
  {
    (l[..(|l| + 1) / 2], l[(|l| + 1) / 2..])
  }

  /** front_back_split: `fast` moves two nodes for each node `slow` moves
      and `slow` ends on the last node of the front half. Indices stand for
      the pointers, `|l|` for NULL. */
  method SplitByPointers<T(!new)>(l: seq<T>) returns (front: seq<T>, back: seq<T>)
    requires |l| >= 1
    ensures (front, back) == FrontBackSplit(l)
  {
    var slow := 0;
    var fast := 1;
    while fast != |l|
      invariant slow < |l| && fast <= |l|
      invariant fast == 2 * slow + 1 || (fast == 2 * slow + 2 && fast == |l|)
      decreases |l| - fast
    {
      fast := fast + 1;
      if fast != |l| {
        slow := slow + 1;
        fast := fast + 1;
      }
    }
    front := l[..slow + 1];
    back := l[slow + 1..];
  }

  // ---------------------------------------------------------------------
  // sorted_merge and list_sort
  // ---------------------------------------------------------------------

  /** sorted_merge: takes the head of `a` when it may come before the head
      of `b`, otherwise the head of `b`. */
  function SortedMerge<T(!new)>(a: seq<T>, b: seq<T>, comp: (T, T) -> int): (r: seq<T>)
    ensures multiset(r) == multiset(a) + multiset(b)
    ensures |r| > 0 ==> (|a| > 0 && r[0] == a[0]) || (|b| > 0 && r[0] == b[0])
    decreases |a| + |b|
  {
    if |a| == 0 then b
    else if |b| == 0 then a
    else if comp(a[0], b[0]) >= 0 then
      assert a == [a[0]] + a[1..];
      [a[0]] + SortedMerge(a[1..], b, comp)
    else
      assert b == [b[0]] + b[1..];
      [b[0]] + SortedMerge(a, b[1..], comp)
  }

  /** `r` is an interleaving of `a` and `b`: it takes every value of both,
      each list's values in their own order. */
  predicate Interleaves<T(==)>(r: seq<T>, a: seq<T>, b: seq<T>)
    decreases |r|
  {
    if |r| == 0 then |a| == 0 && |b| == 0
    else
      || (|a| > 0 && r[0] == a[0] && Interleaves(r[1..], a[1..], b))
      || (|b| > 0 && r[0] == b[0] && Interleaves(r[1..], a, b[1..]))
  }

  /** A list interleaved with nothing is itself, on either side. */
  lemma {:induction false} InterleavesAlone<T>(a: seq<T>)
    ensures Interleaves(a, a, []) && Interleaves(a, [], a)
    decreases |a|
  {
    if |a| > 0 {
      InterleavesAlone(a[1..]);
    }
  }

  /** The merge interleaves its two lists: it neither drops, adds nor
      reorders the values of either. */
  lemma {:induction false} MergeInterleaves<T(!new)>(a: seq<T>, b: seq<T>, comp: (T, T) -> int)
    ensures Interleaves(SortedMerge(a, b, comp), a, b)
    decreases |a| + |b|
  {
    if |a| == 0 {
      InterleavesAlone(b);
    } else if |b| == 0 {
      InterleavesAlone(a);
    } else if comp(a[0], b[0]) >= 0 {
      MergeInterleaves(a[1..], b, comp);
      assert SortedMerge(a, b, comp) == [a[0]] + SortedMerge(a[1..], b, comp);
    } else {
      MergeInterleaves(a, b[1..], comp);
      assert SortedMerge(a, b, comp) == [b[0]] + SortedMerge(a, b[1..], comp);
    }
  }

  /** Merging two lists in order gives a list in order. */
  lemma {:induction false} MergeSorted<T(!new)>(a: seq<T>, b: seq<T>, comp: (T, T) -> int)
    requires Total(comp) && Sorted(a, comp) && Sorted(b, comp)
    ensures Sorted(SortedMerge(a, b, comp), comp)
    decreases |a| + |b|
  {
    if |a| > 0 && |b| > 0 {
      if comp(a[0], b[0]) >= 0 {
        var rest := SortedMerge(a[1..], b, comp);
        MergeSorted(a[1..], b, comp);
        assert SortedMerge(a, b, comp) == [a[0]] + rest;
        if |rest| > 0 && |a| > 1 && rest[0] == a[1] {
          assert comp(a[0], a[1]) >= 0;
        }
      } else {
        var rest := SortedMerge(a, b[1..], comp);
        MergeSorted(a, b[1..], comp);
        assert SortedMerge(a, b, comp) == [b[0]] + rest;
        assert comp(b[0], a[0]) >= 0;
        if |rest| > 0 && |b| > 1 && rest[0] == b[1] {
          assert comp(b[0], b[1]) >= 0;
        }
      }
    }
  }

  /** list_sort: lists of up to one node stay as they are; longer ones are
      split, both halves sorted and the results merged. */
  function ListSort<T(!new)>(l: seq<T>, comp: (T, T) -> int): (r: seq<T>)
    ensures multiset(r) == multiset(l)
    ensures |l| <= 1 ==> r == l
    decreases |l|
  {
    if |l| <= 1 then l
    else
      var halves := FrontBackSplit(l);
      SortedMerge(ListSort(halves.0, comp), ListSort(halves.1, comp), comp)
  }

  /** Under a total order the sort's result is in order. */
  lemma {:induction false} SortIsSorted<T(!new)>(l: seq<T>, comp: (T, T) -> int)
    requires Total(comp)
    ensures Sorted(ListSort(l, comp), comp)
    decreases |l|
  {
    if |l| > 1 {
      var halves := FrontBackSplit(l);
      SortIsSorted(halves.0, comp);
      SortIsSorted(halves.1, comp);
      MergeSorted(ListSort(halves.0, comp), ListSort(halves.1, comp), comp);
    }
  }

  /** Under a transitive order every earlier value may come before every
      later one. */
  lemma {:induction false} SortedChain<T(!new)>(s: seq<T>, comp: (T, T) -> int, i: nat, j: nat)
    requires Transitive(comp) && Sorted(s, comp)
    requires i <= j < |s|
    requires i < j || comp(s[i], s[i]) >= 0
    ensures comp(s[i], s[j]) >= 0
    decreases j - i
  {
    if i + 1 < j {
      SortedChain(s, comp, i + 1, j);
      assert comp(s[i], s[i + 1]) >= 0;
      assert TransitiveAt(comp, s[i], s[i + 1], s[j]);
    }
  }

  /** Merging two lists whose concatenation is already in order gives the
      concatenation: the merge never overtakes a value of `a`. */
  lemma {:induction false} MergeInOrder<T(!new)>(a: seq<T>, b: seq<T>, comp: (T, T) -> int)
    requires Transitive(comp) && Sorted(a + b, comp)
    ensures SortedMerge(a, b, comp) == a + b
    decreases |a|
  {
    if |a| > 0 && |b| > 0 {
      SortedChain(a + b, comp, 0, |a|);
      assert (a + b)[0] == a[0] && (a + b)[|a|] == b[0];
      assert a[1..] + b == (a + b)[1..];
      assert Sorted(a[1..] + b, comp);
      MergeInOrder(a[1..], b, comp);
      assert a == [a[0]] + a[1..];
    } else if |a| > 0 {
      assert a + b == a;
    }
  }

  /** A list already in order is left as it is. */
  lemma {:induction false} SortSorted<T(!new)>(l: seq<T>, comp: (T, T) -> int)
    requires Transitive(comp) && Sorted(l, comp)
    ensures ListSort(l, comp) == l
    decreases |l|
  {
    if |l| > 1 {
      var halves := FrontBackSplit(l);
      var f, b := halves.0, halves.1;
      assert Sorted(f, comp) by {
        assert forall i :: 0 <= i < |f| ==> f[i] == l[i];
      }
      assert Sorted(b, comp) by {
        assert forall i :: 0 <= i < |b| ==> b[i] == l[|f| + i];
      }
      SortSorted(f, comp);
      SortSorted(b, comp);
      MergeInOrder(f, b, comp);
    }
  }

  /** Sorting twice is sorting once. */
  lemma SortIdempotent<T(!new)>(l: seq<T>, comp: (T, T) -> int)
    requires Total(comp) && Transitive(comp)
    ensures ListSort(ListSort(l, comp), comp) == ListSort(l, comp)
  {
    SortIsSorted(l, comp);
    SortSorted(ListSort(l, comp), comp);
  }

  // ---------------------------------------------------------------------
  // Stability
  // ---------------------------------------------------------------------

  /** Neither value may come after the other: they sort as equals. */
  predicate Equivalent<T(!new)>(x: T, y: T, comp: (T, T) -> int) {
    comp(x, y) >= 0 && comp(y, x) >= 0
  }

  /** The values of `s` equivalent to `k`, in their order in `s`. */
  function Equivalents<T(!new)>(s: seq<T>, k: T, comp: (T, T) -> int): (r: seq<T>)
    ensures |r| <= |s|
  {
    if |s| == 0 then []
    else (if Equivalent(s[0], k, comp) then [s[0]] else []) + Equivalents(s[1..], k, comp)
  }

  lemma {:induction false} EquivalentsConcat<T(!new)>(x: seq<T>, y: seq<T>, k: T, comp: (T, T) -> int)
    ensures Equivalents(x + y, k, comp) == Equivalents(x, k, comp) + Equivalents(y, k, comp)
    decreases |x|
  {
    if |x| > 0 {
      assert (x + y)[1..] == x[1..] + y;
      EquivalentsConcat(x[1..], y, k, comp);
    } else {
      assert x + y == y;
    }
  }

  lemma {:induction false} EquivalentsNone<T(!new)>(s: seq<T>, k: T, comp: (T, T) -> int)
    requires forall i :: 0 <= i < |s| ==> !Equivalent(s[i], k, comp)
    ensures Equivalents(s, k, comp) == []
    decreases |s|
  {
    if |s| > 0 {
      EquivalentsNone(s[1..], k, comp);
    }
  }

  /** When the head of `b` is taken before all of an ordered `a`, no value of
      `a` is equivalent to it. */
  lemma OvertakenNotEquivalent<T(!new)>(a: seq<T>, b0: T, k: T, comp: (T, T) -> int, i: nat)
    requires Total(comp) && Transitive(comp) && Sorted(a, comp)
    requires i < |a| && comp(a[0], b0) < 0 && Equivalent(b0, k, comp)
    ensures !Equivalent(a[i], k, comp)
  {
    assert comp(a[0], a[0]) >= 0;
    SortedChain(a, comp, 0, i);
    assert TransitiveAt(comp, a[i], k, b0);
    assert TransitiveAt(comp, a[0], a[i], b0);
  }

  lemma Regroup<T>(x: seq<T>, y: seq<T>, z: seq<T>)
    ensures x + (y + z) == (x + y) + z
  {
  }

  lemma SortedTail<T(!new)>(s: seq<T>, comp: (T, T) -> int)
    requires Sorted(s, comp) && |s| > 0
    ensures Sorted(s[1..], comp)
  {
    assert forall i :: 0 <= i < |s| - 1 ==> s[1..][i] == s[i + 1];
  }

  /** Merging two ordered lists keeps, for every key, the values equivalent
      to it from `a` before those from `b`, each in their own order. */
  lemma {:induction false} MergeEquivalents<T(!new)>(a: seq<T>, b: seq<T>, comp: (T, T) -> int, k: T)
    requires Total(comp) && Transitive(comp) && Sorted(a, comp) && Sorted(b, comp)
    ensures Equivalents(SortedMerge(a, b, comp), k, comp) == Equivalents(a, k, comp) + Equivalents(b, k, comp)
    decreases |a| + |b|, 1
  {
    if |a| == 0 {
      assert [] + Equivalents(b, k, comp) == Equivalents(b, k, comp);
    } else if |b| == 0 {
      assert Equivalents(a, k, comp) + [] == Equivalents(a, k, comp);
    } else if comp(a[0], b[0]) >= 0 {
      MergeHeadOfA(a, b, comp, k);
    } else {
      MergeHeadOfB(a, b, comp, k);
    }
  }

  /** The step of `MergeEquivalents` in which the head of `a` is taken. */
  lemma {:induction false} MergeHeadOfA<T(!new)>(a: seq<T>, b: seq<T>, comp: (T, T) -> int, k: T)
    requires Total(comp) && Transitive(comp) && Sorted(a, comp) && Sorted(b, comp)
    requires |a| > 0 && |b| > 0 && comp(a[0], b[0]) >= 0
    ensures Equivalents(SortedMerge(a, b, comp), k, comp) == Equivalents(a, k, comp) + Equivalents(b, k, comp)
    decreases |a| + |b|, 0
  {
    SortedTail(a, comp);
    MergeEquivalents(a[1..], b, comp, k);
    var m := SortedMerge(a[1..], b, comp);
    assert SortedMerge(a, b, comp) == [a[0]] + m;
    assert ([a[0]] + m)[1..] == m;
    var ea1, eb := Equivalents(a[1..], k, comp), Equivalents(b, k, comp);
    assert Equivalents(m, k, comp) == ea1 + eb;
    if Equivalent(a[0], k, comp) {
      assert Equivalents([a[0]] + m, k, comp) == [a[0]] + Equivalents(m, k, comp);
      assert Equivalents(a, k, comp) == [a[0]] + ea1;
      Regroup([a[0]], ea1, eb);
    } else {
      assert Equivalents([a[0]] + m, k, comp) == Equivalents(m, k, comp);
      assert Equivalents(a, k, comp) == ea1;
    }
  }

  /** The step of `MergeEquivalents` in which the head of `b` is taken. */
  lemma {:induction false} MergeHeadOfB<T(!new)>(a: seq<T>, b: seq<T>, comp: (T, T) -> int, k: T)
    requires Total(comp) && Transitive(comp) && Sorted(a, comp) && Sorted(b, comp)
    requires |a| > 0 && |b| > 0 && comp(a[0], b[0]) < 0
    ensures Equivalents(SortedMerge(a, b, comp), k, comp) == Equivalents(a, k, comp) + Equivalents(b, k, comp)
    decreases |a| + |b|, 0
  {
    SortedTail(b, comp);
    MergeEquivalents(a, b[1..], comp, k);
    var m := SortedMerge(a, b[1..], comp);
    assert SortedMerge(a, b, comp) == [b[0]] + m;
    assert ([b[0]] + m)[1..] == m;
    var ea, eb1 := Equivalents(a, k, comp), Equivalents(b[1..], k, comp);
    assert Equivalents(m, k, comp) == ea + eb1;
    if Equivalent(b[0], k, comp) {
      OvertakenNone(a, b[0], k, comp);
      assert Equivalents([b[0]] + m, k, comp) == [b[0]] + Equivalents(m, k, comp);
      assert Equivalents(b, k, comp) == [b[0]] + eb1;
      assert ea + eb1 == eb1 && ea + ([b[0]] + eb1) == [b[0]] + eb1;
    } else {
      assert Equivalents([b[0]] + m, k, comp) == Equivalents(m, k, comp);
      assert Equivalents(b, k, comp) == eb1;
    }
  }

  /** No value of an ordered list is equivalent to a key its head is
      ordered after. */
  lemma OvertakenNone<T(!new)>(a: seq<T>, b0: T, k: T, comp: (T, T) -> int)
    requires Total(comp) && Transitive(comp) && Sorted(a, comp)
    requires |a| > 0 && comp(a[0], b0) < 0 && Equivalent(b0, k, comp)
    ensures Equivalents(a, k, comp) == []
  {
    forall i | 0 <= i < |a|
      ensures !Equivalent(a[i], k, comp)
    {
      OvertakenNotEquivalent(a, b0, k, comp, i);
    }
    EquivalentsNone(a, k, comp);
  }

  /** list_sort is stable: for every key, the values equivalent to it leave
      the sort in the order they entered it. */
  lemma {:induction false} SortStable<T(!new)>(l: seq<T>, comp: (T, T) -> int, k: T)
    requires Total(comp) && Transitive(comp)
    ensures Equivalents(ListSort(l, comp), k, comp) == Equivalents(l, k, comp)
    decreases |l|
  {
    if |l| > 1 {
      var halves := FrontBackSplit(l);
      SortStable(halves.0, comp, k);
      SortStable(halves.1, comp, k);
      SortIsSorted(halves.0, comp);
      SortIsSorted(halves.1, comp);
      MergeEquivalents(ListSort(halves.0, comp), ListSort(halves.1, comp), comp, k);
      EquivalentsConcat(halves.0, halves.1, k, comp);
    }
  }
}
