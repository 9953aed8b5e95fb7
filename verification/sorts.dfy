/**
 * The recursive merge sort of the class template `sorts<T>`, for any element
 * type and any `operator<` passed in as `less`.
 *
 * `nowMerge` splits the inclusive range `[start, end]` at `(start + end) / 2`,
 * sorts both halves and `merge`s them; `merge` fills a fresh buffer with three
 * loops and copies it back in place. The whole effect on the array is stated
 * through two functions on sequences: `MergeRuns` (what `merge` writes) and
 * `SortSeq` (what `nowMerge` leaves behind), whose own properties (permutation,
 * sortedness, the tie rule) are lemmas.
 */
module Sorts {

  /**
   * What the algorithm needs of `operator<`: irreflexive, transitive, and
   * with transitive incomparability (the usual strict weak order).
   */
  ghost predicate StrictWeakOrder<T(!new)>(less: (T, T) -> bool)
  {
    (forall a :: !less(a, a)) &&
    (forall a, b, c :: less(a, b) && less(b, c) ==> less(a, c)) &&
    (forall a, b, c :: !less(a, b) && !less(b, c) ==> !less(a, c))
  }

  /** Ascending: no later element is `<` an earlier one. */
  ghost predicate SortedBy<T>(s: seq<T>, less: (T, T) -> bool)
  {
    forall i, j :: 0 <= i < j < |s| ==> !less(s[j], s[i])
  }

  // ---------------------------------------------------------------------------
  // What `merge` computes

  /**
   * The sequence `merge` writes into its buffer: the left head is taken only
   * when it is strictly `<` the right head, otherwise the right head; once one
   * run is used up, the rest of the other follows.
   */
  function MergeRuns<T>(l: seq<T>, r: seq<T>, less: (T, T) -> bool): (m: seq<T>)
    ensures |m| == |l| + |r|
    decreases |l| + |r|
  {
    if l == [] then r
    else if r == [] then l
    else if less(l[0], r[0]) then [l[0]] + MergeRuns(l[1..], r, less)
    else [r[0]] + MergeRuns(l, r[1..], less)
  }

  /** Once one run is empty, the merge is the other run unchanged. */
  lemma MergeRunsExhausted<T>(l: seq<T>, r: seq<T>, less: (T, T) -> bool)
    requires l == [] || r == []
    ensures MergeRuns(l, r, less) == l + r
  {
  }

  /** Merging loses and invents nothing: the result is a permutation of the two runs. */
  lemma {:induction false} MergeRunsPermutes<T>(l: seq<T>, r: seq<T>, less: (T, T) -> bool)
    ensures multiset(MergeRuns(l, r, less)) == multiset(l) + multiset(r)
    decreases |l| + |r|
  {
    if l != [] && r != [] {
      var m := MergeRuns(l, r, less);
      if less(l[0], r[0]) {
        MergeRunsPermutes(l[1..], r, less);
        MultisetSplit(l, [l[0]], l[1..]);
        MultisetSplit(m, [l[0]], MergeRuns(l[1..], r, less));
      } else {
        MergeRunsPermutes(l, r[1..], less);
        MultisetSplit(r, [r[0]], r[1..]);
        MultisetSplit(m, [r[0]], MergeRuns(l, r[1..], less));
      }
    }
  }

  /** No element of `s` is `<` `x`. */
  ghost predicate NoneBelow<T>(x: T, s: seq<T>, less: (T, T) -> bool)
  {
    forall k :: 0 <= k < |s| ==> !less(s[k], x)
  }

  /** A lower bound of both runs is a lower bound of their merge. */
  lemma {:induction false} MergeRunsNoneBelow<T>(x: T, l: seq<T>, r: seq<T>, less: (T, T) -> bool)
    requires NoneBelow(x, l, less) && NoneBelow(x, r, less)
    ensures NoneBelow(x, MergeRuns(l, r, less), less)
    decreases |l| + |r|
  {
    if l != [] && r != [] {
      if less(l[0], r[0]) {
        MergeRunsNoneBelow(x, l[1..], r, less);
      } else {
        MergeRunsNoneBelow(x, l, r[1..], less);
      }
    }
  }

  lemma SortedByCons<T>(x: T, s: seq<T>, less: (T, T) -> bool)
    requires NoneBelow(x, s, less) && SortedBy(s, less)
    ensures SortedBy([x] + s, less)
  {
    var t := [x] + s;
    forall i, j | 0 <= i < j < |t|
      ensures !less(t[j], t[i])
    {
      if i > 0 {
        assert t[i] == s[i - 1] && t[j] == s[j - 1];
      }
    }
  }

  /** Merging two ascending runs gives an ascending sequence. */
  lemma {:induction false} MergeRunsSorted<T(!new)>(l: seq<T>, r: seq<T>, less: (T, T) -> bool)
    requires StrictWeakOrder(less) && SortedBy(l, less) && SortedBy(r, less)
    ensures SortedBy(MergeRuns(l, r, less), less)
    decreases |l| + |r|
  {
    if l != [] && r != [] {
      if less(l[0], r[0]) {
        MergeRunsSorted(l[1..], r, less);
        forall k | 0 <= k < |r|
          ensures !less(r[k], l[0])
        {
          if k > 0 {
            assert !less(r[k], r[0]);
          }
        }
        MergeRunsNoneBelow(l[0], l[1..], r, less);
        SortedByCons(l[0], MergeRuns(l[1..], r, less), less);
      } else {
        MergeRunsSorted(l, r[1..], less);
        forall k | 0 <= k < |l|
          ensures !less(l[k], r[0])
        {
          if k > 0 {
            assert !less(l[k], l[0]);
          }
        }
        MergeRunsNoneBelow(r[0], l, r[1..], less);
        SortedByCons(r[0], MergeRuns(l, r[1..], less), less);
      }
    }
  }

  /**
   * The tie rule of Lab1V16.cpp:190: when the left head is not strictly `<`
   * the right head, the right head is written first. Two equivalent elements
   * merged as one-element runs come out swapped, so the sort is not stable.
   */
  lemma TieTakesRightFirst<T>(x: T, y: T, less: (T, T) -> bool)
    requires !less(x, y)
    ensures MergeRuns([x], [y], less) == [y, x]
  {
    assert [x][1..] == [] && [y][1..] == [];
  }

  /**
   * The same rule for runs of any length: whenever the left head is not
   * strictly `<` the right head, the first element written is the right head,
   * and the left head is still to come after it.
   */
  lemma TieTakesRightHead<T>(l: seq<T>, r: seq<T>, less: (T, T) -> bool)
    requires l != [] && r != [] && !less(l[0], r[0])
    ensures MergeRuns(l, r, less)[0] == r[0]
    ensures l[0] in MergeRuns(l, r, less)[1..]
  {
    MergeRunsPermutes(l, r[1..], less);
    assert l[0] in multiset(l);
    assert MergeRuns(l, r, less)[1..] == MergeRuns(l, r[1..], less);
  }

  // ---------------------------------------------------------------------------
  // What `nowMerge` computes

  /**
   * The sequence `nowMerge` leaves in `data[start..end]`: a range of one
   * element is left alone, a longer one is split after its first
   * `(n - 1) / 2 + 1` elements (the split at `(start + end) / 2`), both halves
   * are sorted and the results merged.
   */
  function SortSeq<T>(s: seq<T>, less: (T, T) -> bool): (r: seq<T>)
    ensures |r| == |s|
    decreases |s|
  {
    if |s| <= 1 then s
    else
      var h := (|s| - 1) / 2 + 1;
      MergeRuns(SortSeq(s[..h], less), SortSeq(s[h..], less), less)
  }

  lemma SortSeqSplit<T>(s: seq<T>, a: seq<T>, b: seq<T>, less: (T, T) -> bool)
    requires |s| >= 2
    requires a == s[..(|s| - 1) / 2 + 1] && b == s[(|s| - 1) / 2 + 1..]
    ensures SortSeq(s, less) == MergeRuns(SortSeq(a, less), SortSeq(b, less), less)
  {
  }

  /** The split `nowMerge` makes at `(start + end) / 2` is the split `SortSeq` makes. */
  lemma MidpointHalves<T>(s: seq<T>, start: int, mid: int, end: int)
    requires 0 <= start <= mid < end < |s| && mid == (start + end) / 2
    ensures var S := s[start..end + 1];
      |S| >= 2 && S[..(|S| - 1) / 2 + 1] == s[start..mid + 1] && S[(|S| - 1) / 2 + 1..] == s[mid + 1..end + 1]
  {
  }

  /** Sorting loses and invents nothing: the result is a permutation of the input. */
  lemma {:induction false} SortSeqPermutes<T>(s: seq<T>, less: (T, T) -> bool)
    ensures multiset(SortSeq(s, less)) == multiset(s)
    decreases |s|
  {
    if |s| > 1 {
      var a, b := s[..(|s| - 1) / 2 + 1], s[(|s| - 1) / 2 + 1..];
      SortSeqPermutes(a, less);
      SortSeqPermutes(b, less);
      MergeRunsPermutes(SortSeq(a, less), SortSeq(b, less), less);
      MultisetSplit(s, a, b);
    }
  }

  /** Under a strict weak order the result is ascending. */
  lemma {:induction false} SortSeqSorted<T(!new)>(s: seq<T>, less: (T, T) -> bool)
    requires StrictWeakOrder(less)
    ensures SortedBy(SortSeq(s, less), less)
    decreases |s|
  {
    if |s| > 1 {
      var h := (|s| - 1) / 2 + 1;
      SortSeqSorted(s[..h], less);
      SortSeqSorted(s[h..], less);
      MergeRunsSorted(SortSeq(s[..h], less), SortSeq(s[h..], less), less);
    }
  }

  // ---------------------------------------------------------------------------
  // Overwriting a window of an array's contents

  /** `s` with `s[at..at + |t|)` overwritten by `t`. */
  function Splice<T>(s: seq<T>, at: int, t: seq<T>): (r: seq<T>)
    requires 0 <= at && at + |t| <= |s|
    ensures |r| == |s|
  {
    s[..at] + t + s[at + |t|..]
  }

  lemma SplicePointwise<T>(s: seq<T>, at: int, t: seq<T>, r: seq<T>)
    requires 0 <= at && at + |t| <= |s| == |r|
    requires forall q :: at <= q < at + |t| ==> r[q] == t[q - at]
    requires forall q :: 0 <= q < |s| && !(at <= q < at + |t|) ==> r[q] == s[q]
    ensures r == Splice(s, at, t)
  {
    var z := Splice(s, at, t);
    forall q | 0 <= q < |s|
      ensures r[q] == z[q]
    {
      if q < at {
        assert z[q] == (s[..at] + t)[q];
      } else if q < at + |t| {
        assert z[q] == (s[..at] + t)[q];
      }
    }
  }

  lemma SpliceInside<T>(s: seq<T>, at: int, t: seq<T>)
    requires 0 <= at && at + |t| <= |s|
    ensures Splice(s, at, t)[at..at + |t|] == t
  {
    var z := Splice(s, at, t);
    assert z[at..at + |t|] == (s[..at] + t)[at..];
  }

  lemma SpliceOutside<T>(s: seq<T>, at: int, t: seq<T>, a: int, b: int)
    requires 0 <= at && at + |t| <= |s| && 0 <= a <= b <= |s|
    requires b <= at || at + |t| <= a
    ensures Splice(s, at, t)[a..b] == s[a..b]
  {
    var z := Splice(s, at, t);
    forall q | a <= q < b
      ensures z[q] == s[q]
    {
      if q < at {
        assert z[q] == (s[..at] + t)[q];
      }
    }
  }

  lemma SplicePrefix<T>(s: seq<T>, at: int, t: seq<T>, a: int)
    requires 0 <= a <= at && at + |t| <= |s|
    ensures Splice(s, at, t)[..a] == s[..a]
  {
    assert Splice(s, at, t)[..a] == (s[..at] + t)[..at][..a];
  }

  lemma SpliceSuffix<T>(s: seq<T>, at: int, t: seq<T>, b: int)
    requires 0 <= at && at + |t| <= b <= |s|
    ensures Splice(s, at, t)[b..] == s[b..]
  {
    var z := Splice(s, at, t);
    assert z[at + |t|..] == s[at + |t|..];
    assert z[b..] == z[at + |t|..][b - at - |t|..];
  }

  lemma SpliceSameOutside<T>(s: seq<T>, s': seq<T>, at: int, t: seq<T>)
    requires 0 <= at && at + |t| <= |s| == |s'|
    requires s[..at] == s'[..at] && s[at + |t|..] == s'[at + |t|..]
    ensures Splice(s, at, t) == Splice(s', at, t)
  {
  }

  lemma SpliceUnchanged<T>(s: seq<T>, start: int, end: int)
    requires 0 <= start <= end + 1 <= |s|
    ensures Splice(s, start, s[start..end + 1]) == s
  {
  }

  /** Two adjacent windows overwritten, then one window covering both: only the last write shows. */
  lemma SpliceThree<T>(D0: seq<T>, D1: seq<T>, D2: seq<T>, D3: seq<T>, start: int, mid: int, end: int, a: seq<T>, b: seq<T>, m: seq<T>)
    requires 0 <= start <= mid < end < |D0|
    requires |a| == mid + 1 - start && |b| == end - mid && |m| == end + 1 - start
    requires D1 == Splice(D0, start, a) && D2 == Splice(D1, mid + 1, b) && D3 == Splice(D2, start, m)
    ensures D1[mid + 1..end + 1] == D0[mid + 1..end + 1]
    ensures D2[start..mid + 1] == a && D2[mid + 1..end + 1] == b
    ensures D3 == Splice(D0, start, m)
  {
    SpliceOutside(D0, start, a, mid + 1, end + 1);
    SpliceInside(D0, start, a);
    SpliceOutside(D1, mid + 1, b, start, mid + 1);
    SpliceInside(D1, mid + 1, b);
    SplicePrefix(D0, start, a, start);
    SplicePrefix(D1, mid + 1, b, start);
    SpliceSuffix(D0, start, a, end + 1);
    SpliceSuffix(D1, mid + 1, b, end + 1);
    SpliceSameOutside(D2, D0, start, m);
  }

  // ---------------------------------------------------------------------------
  // The array methods

  /**
   * `merge` (Lab1V16.cpp:179-220): merges `data[start..mid]` and
   * `data[mid+1..end]` (inclusive bounds) and writes the result over
   * `data[start..end]`; the rest of `data` is left as it was.
   */
  method Merge<T(0)>(data: array<T>, start: int, mid: int, end: int, less: (T, T) -> bool)
    requires 0 <= start <= mid + 1 <= end + 1 <= data.Length
    modifies data
    ensures data[..] == Splice(old(data[..]), start, MergeRuns(old(data[start..mid + 1]), old(data[mid + 1..end + 1]), less))
  {
    var temp := FillBuffer(data, start, mid, end, less);
    // line 218: copy the buffer back over data[start..end]
    CopyRun(temp, 0, temp.Length - 1, data, start);
    assert temp[0..temp.Length] == temp[..];
  }

  /**
   * The first part of `merge` (Lab1V16.cpp:181-216): a fresh buffer of
   * `end - start + 1` elements, filled by the merge loop and the two loops
   * that copy what is left of either run.
   */
  method FillBuffer<T(0)>(data: array<T>, start: int, mid: int, end: int, less: (T, T) -> bool) returns (temp: array<T>)
    requires 0 <= start <= mid + 1 <= end + 1 <= data.Length
    ensures fresh(temp)
    ensures temp[..] == MergeRuns(data[start..mid + 1], data[mid + 1..end + 1], less)
  {
    ghost var D := data[..];
    ghost var merged := MergeRuns(D[start..mid + 1], D[mid + 1..end + 1], less);
    temp := new T[end - start + 1];
    var i, j, k := MergeHeads(data, start, mid, end, temp, less);
    ghost var l, r := D[i..mid + 1], D[j..end + 1];
    MergeRunsExhausted(l, r, less);
    ghost var T0 := temp[..];
    assert T0[..k] + (l + r) == merged;
    // line 204: the rest of the left run
    CopyRun(data, i, mid, temp, k);
    ghost var T1 := temp[..];
    assert T1 == Splice(T0, k, l);
    // line 211: the rest of the right run
    CopyRun(data, j, end, temp, k + (mid + 1 - i));
    FillSteps(merged, T0, T1, temp[..], k, l, r);
  }

  lemma FillSteps<T>(merged: seq<T>, T0: seq<T>, T1: seq<T>, T2: seq<T>, k: int, l: seq<T>, r: seq<T>)
    requires 0 <= k && |T0| == k + |l| + |r|
    requires T0[..k] + (l + r) == merged
    requires T1 == Splice(T0, k, l) && T2 == Splice(T1, k + |l|, r)
    ensures T2 == merged
  {
    forall q | 0 <= q < |merged|
      ensures T2[q] == merged[q]
    {
      if q < k {
        assert T2[q] == T1[q] == T0[q] == T0[..k][q];
      } else if q < k + |l| {
        assert T2[q] == T1[q] == l[q - k] == (l + r)[q - k];
      } else {
        assert T2[q] == r[q - k - |l|] == (l + r)[q - k];
      }
    }
  }

  /** One turn of the merge loop: writing the head it picks keeps "written so far, then the merge of the rest" equal to the whole merge. */
  lemma TakeHead<T>(B: seq<T>, B': seq<T>, k: int, x: T, D: seq<T>, i0: int, j0: int, i: int, j: int, mid: int, end: int, merged: seq<T>, less: (T, T) -> bool)
    requires 0 <= k < |B| && B' == B[k := x]
    requires 0 <= i0 <= mid < j0 <= end < |D|
    requires B[..k] + MergeRuns(D[i0..mid + 1], D[j0..end + 1], less) == merged
    requires less(D[i0], D[j0]) ==> x == D[i0] && i == i0 + 1 && j == j0
    requires !less(D[i0], D[j0]) ==> x == D[j0] && i == i0 && j == j0 + 1
    ensures B'[..k + 1] + MergeRuns(D[i..mid + 1], D[j..end + 1], less) == merged
  {
    var l, r := D[i0..mid + 1], D[j0..end + 1];
    assert l[0] == D[i0] && r[0] == D[j0];
    assert D[i..mid + 1] == (if i == i0 then l else l[1..]);
    assert D[j..end + 1] == (if j == j0 then r else r[1..]);
    assert B'[..k + 1] == B[..k] + [x];
  }

  /**
   * The merge loop of `merge` (Lab1V16.cpp:188-202): while both runs are
   * non-empty, write the left head if it is strictly `<` the right head,
   * otherwise the right head. It returns the indices `i`, `j`, `k` it
   * stopped at: one run is used up, and the buffer's filled prefix
   * `temp[0..k)` followed by the merge of what is left is the whole merge.
   */
  method MergeHeads<T>(data: array<T>, start: int, mid: int, end: int, temp: array<T>, less: (T, T) -> bool) returns (i: int, j: int, k: int)
    requires 0 <= start <= mid + 1 <= end + 1 <= data.Length
    requires temp.Length == end - start + 1 && temp != data
    modifies temp
    ensures start <= i <= mid + 1 <= j <= end + 1 && (i == mid + 1 || j == end + 1)
    ensures k == (i - start) + (j - mid - 1)
    ensures temp[..k] + MergeRuns(old(data[i..mid + 1]), old(data[j..end + 1]), less) == MergeRuns(old(data[start..mid + 1]), old(data[mid + 1..end + 1]), less)
  {
    ghost var D := data[..];
    ghost var merged := MergeRuns(D[start..mid + 1], D[mid + 1..end + 1], less);
    i, j, k := start, mid + 1, 0;
    while i <= mid && j <= end
      invariant start <= i <= mid + 1 <= j <= end + 1
      invariant k == (i - start) + (j - mid - 1)
      invariant temp[..k] + MergeRuns(D[i..mid + 1], D[j..end + 1], less) == merged
    {
      ghost var B, i0, j0 := temp[..], i, j;
      var x;
      if less(data[i], data[j]) {
        x := data[i];
        i := i + 1;
      } else {
        x := data[j];
        j := j + 1;
      }
      temp[k] := x;
      TakeHead(B, temp[..], k, x, D, i0, j0, i, j, mid, end, merged, less);
      k := k + 1;
    }
  }

  /**
   * The copying loops of `merge` (Lab1V16.cpp:204-209, 211-216 and 218-219):
   * `src[from..to]` (inclusive bounds) is written over `dst` from index `at`
   * on; nothing else in `dst` changes.
   */
  method CopyRun<T>(src: array<T>, from: int, to: int, dst: array<T>, at: int)
    requires 0 <= from <= to + 1 <= src.Length && src != dst
    requires 0 <= at && at + (to + 1 - from) <= dst.Length
    modifies dst
    ensures dst[..] == Splice(old(dst[..]), at, src[from..to + 1])
  {
    var i, k := from, at;
    while i <= to
      invariant from <= i <= to + 1 && k == at + (i - from)
      invariant forall q :: at <= q < k ==> dst[q] == src[q - at + from]
      invariant forall q :: 0 <= q < dst.Length && !(at <= q < k) ==> dst[q] == old(dst[q])
    {
      dst[k] := src[i];
      i, k := i + 1, k + 1;
    }
    SplicePointwise(old(dst[..]), at, src[from..to + 1], dst[..]);
  }

  lemma NowMergeSteps<T>(D0: seq<T>, D1: seq<T>, D2: seq<T>, D3: seq<T>, start: int, mid: int, end: int, less: (T, T) -> bool)
    requires 0 <= start <= mid < end < |D0| && mid == (start + end) / 2
    requires D1 == Splice(D0, start, SortSeq(D0[start..mid + 1], less))
    requires D2 == Splice(D1, mid + 1, SortSeq(D1[mid + 1..end + 1], less))
    requires D3 == Splice(D2, start, MergeRuns(D2[start..mid + 1], D2[mid + 1..end + 1], less))
    ensures D3 == Splice(D0, start, SortSeq(D0[start..end + 1], less))
  {
    var a, b := SortSeq(D0[start..mid + 1], less), SortSeq(D1[mid + 1..end + 1], less);
    var m := MergeRuns(D2[start..mid + 1], D2[mid + 1..end + 1], less);
    SpliceThree(D0, D1, D2, D3, start, mid, end, a, b, m);
    assert b == SortSeq(D0[mid + 1..end + 1], less);
    assert m == MergeRuns(a, b, less);
    SortSeqHalves(D0, start, mid, end, less);
  }

  /** `nowMerge`'s result on `[start, end]` is the merge of its results on the two halves. */
  lemma SortSeqHalves<T>(D0: seq<T>, start: int, mid: int, end: int, less: (T, T) -> bool)
    requires 0 <= start <= mid < end < |D0| && mid == (start + end) / 2
    ensures SortSeq(D0[start..end + 1], less) == MergeRuns(SortSeq(D0[start..mid + 1], less), SortSeq(D0[mid + 1..end + 1], less), less)
  {
    MidpointHalves(D0, start, mid, end);
    SortSeqSplit(D0[start..end + 1], D0[start..mid + 1], D0[mid + 1..end + 1], less);
  }

  /**
   * `nowMerge` (Lab1V16.cpp:161-170) on a non-empty range `[start, end]`:
   * `data[start..end]` becomes `SortSeq` of what it held, the rest of `data`
   * is left as it was. The range shrinks on every call, so the recursion ends.
   */
  method NowMerge<T(0)>(data: array<T>, start: int, end: int, less: (T, T) -> bool)
    requires 0 <= start <= end < data.Length
    modifies data
    ensures data[..] == Splice(old(data[..]), start, SortSeq(old(data[start..end + 1]), less))
    decreases end - start
  {
    if start == end {
      SpliceUnchanged(data[..], start, end);
      return;
    }
    ghost var D0 := data[..];
    var mid := (start + end) / 2;
    NowMerge(data, start, mid, less);
    ghost var D1 := data[..];
    NowMerge(data, mid + 1, end, less);
    ghost var D2 := data[..];
    Merge(data, start, mid, end, less);
    NowMergeSteps(D0, D1, D2, data[..], start, mid, end, less);
  }

  lemma SortedPrefix<T(!new)>(D0: seq<T>, D1: seq<T>, n: int, less: (T, T) -> bool)
    requires 0 <= n <= |D0| && D1 == Splice(D0, 0, SortSeq(D0[..n], less))
    ensures D1[..n] == SortSeq(D0[..n], less) && D1[n..] == D0[n..]
    ensures multiset(D1[..n]) == multiset(D0[..n])
    ensures StrictWeakOrder(less) ==> SortedBy(D1[..n], less)
  {
    SpliceInside(D0, 0, SortSeq(D0[..n], less));
    assert D1[..n] == D1[0..n];
    SpliceSuffix(D0, 0, SortSeq(D0[..n], less), n);
    SortSeqPermutes(D0[..n], less);
    if StrictWeakOrder(less) {
      SortSeqSorted(D0[..n], less);
    }
  }

  /**
   * `mergeSort` (Lab1V16.cpp:148-151) with the empty array handled:
   * `data[0..n)` ends up ascending under `less` (when `less` is a strict
   * weak order) and a permutation of what it held, and `data[n..]` is left
   * alone. For `n == 0` nothing is done, where the source recurses forever.
   */
  method MergeSort<T(0,!new)>(data: array<T>, n: int, less: (T, T) -> bool)
    requires 0 <= n <= data.Length
    modifies data
    ensures data[..n] == SortSeq(old(data[..n]), less) && data[n..] == old(data[n..])
    ensures multiset(data[..n]) == multiset(old(data[..n]))
    ensures StrictWeakOrder(less) ==> SortedBy(data[..n], less)
  {
    ghost var D0 := data[..];
    if n > 0 {
      NowMerge(data, 0, n - 1, less);
      assert D0[0..n - 1 + 1] == D0[..n];
    } else {
      SpliceUnchanged(D0, 0, -1);
    }
    SortedPrefix(D0, data[..], n, less);
  }

  // ---------------------------------------------------------------------------
  // `mergeSort` on an empty array, as written

  /** `int` division by two as C++ does it: the quotient is truncated toward zero. */
  function CppHalf(x: int): (h: int)
    ensures x >= 0 ==> 0 <= x - 2 * h <= 1
    ensures x < 0 ==> 0 <= 2 * h - x <= 1
  {
    if x >= 0 then x / 2 else -((-x) / 2)
  }

  /**
   * The two recursive calls `nowMerge(start, end)` makes as written: none
   * when `start == end`, otherwise `(start, mid)` and `(mid + 1, end)` with
   * `mid == (start + end) / 2` in C++ arithmetic. Nothing else stops it.
   */
  function NowMergeCallsAsWritten(start: int, end: int): (calls: seq<(int, int)>)
    ensures start == end <==> calls == []
    ensures calls != [] ==> |calls| == 2 && calls[0].0 == start && calls[1].1 == end && calls[1].0 == calls[0].1 + 1
  {
    if start == end then []
    else
      var mid := CppHalf(start + end);
      [(start, mid), (mid + 1, end)]
  }

  /**
   * An empty range (`start > end`) always makes a call on another empty
   * range, so it never reaches the base case `start == end`.
   */
  lemma EmptyRangeSpawnsEmptyRange(start: int, end: int)
    requires start > end
    ensures var calls := NowMergeCallsAsWritten(start, end);
      |calls| == 2 && (calls[0].0 > calls[0].1 || calls[1].0 > calls[1].1)
  {
    var mid := CppHalf(start + end);
    if mid >= start {
      assert mid + 1 > end;
    }
  }

  /**
   * `mergeSort(data, 0)` calls `nowMerge(0, -1)`, whose second call is
   * `nowMerge(1, -1)`, whose first call is `nowMerge(1, 0)`, which calls
   * `nowMerge(1, 0)` again: the recursion never ends.
   */
  lemma MergeSortOfNothingRecursesForever()
    ensures NowMergeCallsAsWritten(0, -1)[1] == (1, -1)
    ensures NowMergeCallsAsWritten(1, -1)[0] == (1, 0)
    ensures NowMergeCallsAsWritten(1, 0)[0] == (1, 0)
  {
    assert CppHalf(-1) == 0 && CppHalf(0) == 0 && CppHalf(1) == 0;
  }

  // ---------------------------------------------------------------------------
  // Multiset helpers

  lemma MultisetSplit<T>(s: seq<T>, a: seq<T>, b: seq<T>)
    requires |a| <= |s| && a == s[..|a|] && b == s[|a|..]
    ensures multiset(s) == multiset(a) + multiset(b)
  {
    assert s == a + b;
  }

  lemma MultisetCancel<T>(x: T, A: multiset<T>, B: multiset<T>)
    requires multiset{x} + A == multiset{x} + B
    ensures A == B
  {
    forall e
      ensures A[e] == B[e]
    {
      assert (multiset{x} + A)[e] == (multiset{x} + B)[e];
    }
  }
}
