/**
 * The merge sort of `sorts<T>` instantiated for applicants, as the program
 * uses it: `T` is `enrollee` and `less` is its `operator<`, which compares
 * names only.
 */
module EnrolleeSort {
  import opened Enrollees
  import opened Sorts

  /**
   * `sorts<enrollee>::mergeSort(data, n)` (Lab1V16.cpp:148-151 with the
   * `operator<` of lines 31-39): `data[0..n)` ends up sorted by name and a
   * permutation of what it held, the rest of `data` is left alone, and an
   * array already sorted by name keeps its sequence of names.
   */
  method MergeSortByName(data: array<Enrollee>, n: int)
    requires 0 <= n <= data.Length
    modifies data
    ensures Sorted(data[..n])
    ensures multiset(data[..n]) == multiset(old(data[..n]))
    ensures data[n..] == old(data[n..])
    ensures Sorted(old(data[..n])) ==> Names(data[..n]) == Names(old(data[..n]))
  {
    ghost var s := data[..n];
    MergeSort(data, n, Less);
    SortSeqByName(s);
    if Sorted(s) {
      SortingSortedKeepsNames(s);
    }
  }

  /** `operator<` on applicants is a strict weak order, so the generic sortedness lemmas apply. */
  lemma LessIsStrictWeakOrder()
    ensures StrictWeakOrder(Less)
  {
    forall a: Enrollee
      ensures !Less(a, a)
    {
      LexLessIrreflexive(a.name);
    }
    forall a: Enrollee, b: Enrollee, c: Enrollee | Less(a, b) && Less(b, c)
      ensures Less(a, c)
    {
      LexLessTransitive(a.name, b.name, c.name);
    }
    forall a: Enrollee, b: Enrollee, c: Enrollee | !Less(a, b) && !Less(b, c)
      ensures !Less(a, c)
    {
      LessEqTransitive(c, b, a);
    }
  }

  lemma SortedByLess(s: seq<Enrollee>)
    ensures SortedBy(s, Less) <==> Sorted(s)
  {
  }

  lemma NamesConcat(u: seq<Enrollee>, v: seq<Enrollee>)
    ensures Names(u + v) == Names(u) + Names(v)
  {
  }

  /** Taking out the record at `p` takes its name out of the names. */
  lemma RemoveAt(b: seq<Enrollee>, p: int)
    requires 0 <= p < |b|
    ensures multiset(b) == multiset{b[p]} + multiset(b[..p] + b[p + 1..])
    ensures multiset(Names(b)) == multiset{b[p].name} + multiset(Names(b[..p] + b[p + 1..]))
  {
    var u, v := b[..p], b[p + 1..];
    assert b == u + [b[p]] + v;
    NamesConcat(u + [b[p]], v);
    NamesConcat(u, [b[p]]);
    NamesConcat(u, v);
  }

  lemma {:induction false} NamesMultiset(a: seq<Enrollee>, b: seq<Enrollee>)
    requires multiset(a) == multiset(b)
    ensures multiset(Names(a)) == multiset(Names(b))
    decreases |a|
  {
    if a == [] {
      assert b == [];
    } else {
      assert a[0] in multiset(b);
      var p :| 0 <= p < |b| && b[p] == a[0];
      RemoveAt(a, 0);
      RemoveAt(b, p);
      assert a[..0] + a[1..] == a[1..];
      var b' := b[..p] + b[p + 1..];
      MultisetCancel(a[0], multiset(a[1..]), multiset(b'));
      NamesMultiset(a[1..], b');
    }
  }

  /** Ascending names: no later name is lexicographically below an earlier one. */
  ghost predicate NamesAscending(a: seq<string>)
  {
    forall i, j :: 0 <= i < j < |a| ==> !LexLess(a[j], a[i])
  }

  lemma {:induction false} AscendingNamesUnique(a: seq<string>, b: seq<string>)
    requires NamesAscending(a) && NamesAscending(b) && multiset(a) == multiset(b)
    ensures a == b
    decreases |a|
  {
    if a == [] {
      assert |b| == |multiset(b)| == 0;
    } else {
      assert |b| == |multiset(b)| == |a|;
      assert a[0] in multiset(b) && b[0] in multiset(a);
      var p :| 0 <= p < |b| && b[p] == a[0];
      var q :| 0 <= q < |a| && a[q] == b[0];
      LexLessIrreflexive(a[0]);
      LexLessIrreflexive(b[0]);
      assert !LexLess(a[q], a[0]) && !LexLess(b[p], b[0]);
      LexLessConnected(a[0], b[0]);
      assert a[0] == b[0];
      MultisetSplit(a, [a[0]], a[1..]);
      MultisetSplit(b, [b[0]], b[1..]);
      MultisetCancel(a[0], multiset(a[1..]), multiset(b[1..]));
      AscendingNamesUnique(a[1..], b[1..]);
      assert a == [a[0]] + a[1..] && b == [b[0]] + b[1..];
    }
  }

  /** Sorting by name: the result is sorted by name and a permutation of the input. */
  lemma SortSeqByName(s: seq<Enrollee>)
    ensures Sorted(SortSeq(s, Less))
    ensures multiset(SortSeq(s, Less)) == multiset(s)
  {
    LessIsStrictWeakOrder();
    SortSeqSorted(s, Less);
    SortedByLess(SortSeq(s, Less));
    SortSeqPermutes(s, Less);
  }

  /** Sorting an array already sorted by name leaves the sequence of names as it was. */
  lemma SortingSortedKeepsNames(s: seq<Enrollee>)
    requires Sorted(s)
    ensures Names(SortSeq(s, Less)) == Names(s)
  {
    var t := SortSeq(s, Less);
    SortSeqByName(s);
    NamesMultiset(t, s);
    AscendingNamesUnique(Names(t), Names(s));
  }

  /** Two records with one name come out of the sort swapped. */
  lemma EqualNamesSwap(x: Enrollee, y: Enrollee)
    requires x.name == y.name
    ensures Sorted([x, y])
    ensures SortSeq([x, y], Less) == [y, x]
  {
    LexLessIrreflexive(x.name);
    assert [x, y][..1] == [x] && [x, y][1..] == [y];
    TieTakesRightFirst(x, y, Less);
  }

  /** Sorting twice gives the same sequence of names as sorting once. */
  lemma SortTwiceKeepsNames(s: seq<Enrollee>)
    ensures Names(SortSeq(SortSeq(s, Less), Less)) == Names(SortSeq(s, Less))
  {
    SortSeqByName(s);
    SortingSortedKeepsNames(SortSeq(s, Less));
  }

  /**
   * At the level of whole records, sorting twice is not sorting once: two
   * different records with one name swap on every pass.
   */
  lemma SortTwiceSwapsBack(x: Enrollee, y: Enrollee)
    requires x.name == y.name && x != y
    ensures SortSeq([x, y], Less) == [y, x]
    ensures SortSeq(SortSeq([x, y], Less), Less) == [x, y]
    ensures SortSeq(SortSeq([x, y], Less), Less) != SortSeq([x, y], Less)
  {
    EqualNamesSwap(x, y);
    EqualNamesSwap(y, x);
  }
}
