/**
 * The two searches over an array of applicants (`searches<enrollee>`): a full
 * linear scan, and a binary search over a name-sorted array that then widens
 * the match it found into the whole run of records with the same name.
 * Both return every index whose record is `==` to the target, ascending.
 */
module Searches {
  import opened Enrollees

  /**
   * The indices of `s` whose record is `==` to `b` (same name), in the order a
   * scan from the front meets them: the answer both searches must give.
   */
  function KeyMatches(s: seq<Enrollee>, b: Enrollee): seq<int>
  {
    if s == [] then []
    else
      var last := |s| - 1;
      KeyMatches(s[..last], b) + (if Equal(s[last], b) then [last] else [])
  }

  /** The matches are exactly the indices of records with the target's name, strictly ascending. */
  lemma {:induction false} KeyMatchesSpec(s: seq<Enrollee>, b: Enrollee)
    ensures forall k :: k in KeyMatches(s, b) <==> 0 <= k < |s| && s[k].name == b.name
    ensures forall p, q :: 0 <= p < q < |KeyMatches(s, b)| ==> KeyMatches(s, b)[p] < KeyMatches(s, b)[q]
  {
    if s != [] {
      var last := |s| - 1;
      var init := s[..last];
      KeyMatchesSpec(init, b);
      var front, tail := KeyMatches(init, b), if Equal(s[last], b) then [last] else [];
      assert KeyMatches(s, b) == front + tail;
      forall k
        ensures k in front + tail <==> 0 <= k < |s| && s[k].name == b.name
      {
        assert k in front + tail <==> k in front || k in tail;
        if 0 <= k < last { assert init[k] == s[k]; }
      }
      forall p, q | 0 <= p < q < |front + tail|
        ensures (front + tail)[p] < (front + tail)[q]
      {
        if q >= |front| {
          assert (front + tail)[p] == front[p] && front[p] in front;
        }
      }
    }
  }

  /** The contiguous ascending run of indices `lo, lo + 1, ..., hi - 1`. */
  function Run(lo: int, hi: int): (r: seq<int>)
    requires lo <= hi
    ensures |r| == hi - lo
    ensures forall p :: 0 <= p < |r| ==> r[p] == lo + p
    ensures forall k :: k in r <==> lo <= k < hi
    decreases hi - lo
  {
    if lo == hi then [] else Run(lo, hi - 1) + [hi - 1]
  }

  /** When the records with the target's name are exactly those in `[lo, hi)`, the matches are that run. */
  lemma {:induction false} KeyMatchesIsRun(s: seq<Enrollee>, b: Enrollee, lo: int, hi: int)
    requires 0 <= lo <= hi <= |s|
    requires forall k :: 0 <= k < |s| ==> (s[k].name == b.name <==> lo <= k < hi)
    ensures KeyMatches(s, b) == Run(lo, hi)
  {
    if s != [] {
      var last := |s| - 1;
      var init := s[..last];
      assert forall k :: 0 <= k < last ==> init[k] == s[k];
      if lo < hi && hi == |s| {
        KeyMatchesIsRun(init, b, lo, hi - 1);
        assert Run(lo, hi - 1) + [last] == Run(lo, hi);
      } else if lo < hi {
        KeyMatchesIsRun(init, b, lo, hi);
      } else {
        KeyMatchesIsRun(init, b, 0, 0);
      }
    }
  }

  /**
   * `linear_search` (Lab1V16.cpp:104-112): scans all of `data[0..size)` and
   * collects every index whose record has the target's name.
   */
  method LinearSearch(data: array<Enrollee>, size: nat, b: Enrollee) returns (result: seq<int>)
    requires size <= data.Length
    ensures result == KeyMatches(data[..size], b)
    ensures forall k :: k in result <==> 0 <= k < size && data[k].name == b.name
    ensures forall p, q :: 0 <= p < q < |result| ==> result[p] < result[q]
  {
    result := [];
    for i := 0 to size
      invariant result == KeyMatches(data[..i], b)
    {
      assert data[..i + 1][..i] == data[..i];
      if Equal(data[i], b) {
        result := result + [i];
      }
    }
    KeyMatchesSpec(data[..size], b);
  }

  /** The midpoint `(left + right) / 2` of a non-empty window; it stays inside the window. */
  function Midpoint(left: int, right: int): (m: int)
    requires 0 <= left <= right
    ensures left <= m <= right
  {
    (left + right) / 2
  }

  /** In a sorted sequence, everything up to a record below the target is below it too. */
  lemma BelowUpTo(s: seq<Enrollee>, b: Enrollee, j: int)
    requires Sorted(s) && 0 <= j < |s| && Less(s[j], b)
    ensures forall k :: 0 <= k <= j ==> Less(s[k], b)
  {
    forall k | 0 <= k < j
      ensures Less(s[k], b)
    {
      LessEqLessTransitive(s[k], s[j], b);
    }
  }

  /** In a sorted sequence, everything from a record above the target onwards is above it too. */
  lemma AboveFrom(s: seq<Enrollee>, b: Enrollee, j: int)
    requires Sorted(s) && 0 <= j < |s| && Greater(s[j], b)
    ensures forall k :: j <= k < |s| ==> Greater(s[k], b)
  {
    forall k | j < k < |s|
      ensures Greater(s[k], b)
    {
      LessLessEqTransitive(b, s[j], s[k]);
    }
  }

  /**
   * A maximal run of records with the target's name, in a sorted sequence,
   * holds all of them: the matches are exactly that run.
   */
  lemma MaximalRunIsAllMatches(s: seq<Enrollee>, b: Enrollee, lo: int, mid: int, hi: int)
    requires Sorted(s) && 0 <= lo <= mid < hi <= |s|
    requires s[mid].name == b.name
    requires forall k :: lo <= k < hi ==> s[k].name == b.name
    requires lo == 0 || s[lo - 1].name != b.name
    requires hi == |s| || s[hi].name != b.name
    ensures KeyMatches(s, b) == Run(lo, hi)
  {
    if lo > 0 {
      LessEqTotal(s[lo - 1], s[mid]);
      Trichotomy(s[lo - 1], b);
      BelowUpTo(s, b, lo - 1);
    }
    if hi < |s| {
      LessEqTotal(s[mid], s[hi]);
      Trichotomy(s[hi], b);
      AboveFrom(s, b, hi);
    }
    KeyMatchesIsRun(s, b, lo, hi);
  }

  /**
   * The narrowing loop of `binary_search` (Lab1V16.cpp:116-124): halves the
   * window `[left, right]` until its midpoint has the target's name or the
   * window is empty. Everything left of the window is below the target and
   * everything right of it above.
   */
  method Narrow(data: array<Enrollee>, size: nat, b: Enrollee) returns (left: int, right: int)
    requires size <= data.Length
    requires Sorted(data[..size])
    ensures 0 <= left <= right + 1 <= size
    ensures left <= right ==> data[Midpoint(left, right)].name == b.name
    ensures forall k :: 0 <= k < left ==> Less(data[k], b)
    ensures forall k :: right < k < size ==> Greater(data[k], b)
  {
    ghost var s := data[..size];
    left, right := 0, size - 1;
    while left <= right && !Equal(data[Midpoint(left, right)], b)
      invariant 0 <= left <= right + 1 <= size
      invariant forall k :: 0 <= k < left ==> Less(s[k], b)
      invariant forall k :: right < k < size ==> Greater(s[k], b)
      decreases right - left
    {
      var mid := Midpoint(left, right);
      if Greater(data[mid], b) {
        AboveFrom(s, b, mid);
        right := mid - 1;
      } else {
        Trichotomy(data[mid], b);
        BelowUpTo(s, b, mid);
        left := mid + 1;
      }
    }
  }

  /**
   * The two scans of `binary_search` (Lab1V16.cpp:127-131), stopped at the
   * ends of the array: from a match at `mid`, walk back to the record before
   * the run of equal names, then walk forward collecting the run.
   */
  method CollectRun(data: array<Enrollee>, size: nat, b: Enrollee, mid: nat) returns (result: seq<int>)
    requires size <= data.Length && mid < size
    requires Sorted(data[..size])
    requires data[mid].name == b.name
    ensures result == KeyMatches(data[..size], b)
    ensures mid in result
    ensures forall p :: 0 <= p < |result| ==> result[p] == result[0] + p
  {
    ghost var s := data[..size];
    // line 128: step back while the record still matches, never past index 0
    var i := mid - 1;
    while i >= 0 && Equal(data[i], b)
      invariant -1 <= i < mid
      invariant forall k :: i < k <= mid ==> s[k].name == b.name
    {
      i := i - 1;
    }
    ghost var lo := i + 1;
    // line 130: step forward collecting every match, never past index size - 1
    result := [];
    while i + 1 < size && Equal(data[i + 1], b)
      invariant lo - 1 <= i < size
      invariant result == Run(lo, i + 1)
      invariant forall k :: lo <= k <= i ==> s[k].name == b.name
    {
      i := i + 1;
      result := result + [i];
    }
    assert lo <= mid <= i && result[mid - lo] == mid;
    MaximalRunIsAllMatches(s, b, lo, mid, i + 1);
  }

  /**
   * `binary_search` (Lab1V16.cpp:114-133) with the two scans of lines 128 and
   * 130 stopped at the ends of the array. On a name-sorted array it returns
   * the same indices as the linear search, and they form one contiguous run.
   */
  method BinarySearch(data: array<Enrollee>, size: nat, b: Enrollee) returns (result: seq<int>)
    requires size <= data.Length
    requires Sorted(data[..size])
    ensures result == KeyMatches(data[..size], b)
    ensures forall k :: k in result <==> 0 <= k < size && data[k].name == b.name
    ensures forall p :: 0 <= p < |result| ==> result[p] == result[0] + p
  {
    ghost var s := data[..size];
    var left, right := Narrow(data, size, b);
    if left <= right {
      result := CollectRun(data, size, b, Midpoint(left, right));
    } else {
      result := [];
      assert forall k :: 0 <= k < size ==> s[k].name != b.name by {
        LexLessIrreflexive(b.name);
      }
      KeyMatchesIsRun(s, b, 0, 0);
    }
    KeyMatchesSpec(s, b);
  }

  /** Where a scan of the array as written stops: at a record that differs, or at a read outside `[0, size)`. */
  datatype Probe = Stop(at: int) | OutOfBounds(at: int)

  /**
   * The backward scan `while (data[--i] == b) { }` of line 128 exactly as
   * written: `i` is the index about to be read, and nothing stops it at 0.
   */
  function BackwardScanAsWritten(s: seq<Enrollee>, b: Enrollee, i: int): (p: Probe)
    ensures p.at <= i
    decreases if i < 0 then 0 else i + 1
  {
    if i < 0 || i >= |s| then OutOfBounds(i)
    else if Equal(s[i], b) then BackwardScanAsWritten(s, b, i - 1)
    else Stop(i)
  }

  /**
   * Where the forward scan `while (data[++i] == b) result.push_back(i);` of
   * line 130 stops, as written (the indices it pushes are not modelled here):
   * `i` is the index about to be read, and nothing stops it at `size - 1`.
   */
  function ForwardScanAsWritten(s: seq<Enrollee>, b: Enrollee, i: int): (p: Probe)
    ensures i <= p.at
    decreases |s| - i
  {
    if i < 0 || i >= |s| then OutOfBounds(i)
    else if Equal(s[i], b) then ForwardScanAsWritten(s, b, i + 1)
    else Stop(i)
  }

  /** When the run of matches reaches index 0, the unguarded backward scan reads `data[-1]`. */
  lemma {:induction false} BackwardScanReadsBeforeStart(s: seq<Enrollee>, b: Enrollee, mid: int)
    requires 0 <= mid < |s|
    requires forall k :: 0 <= k <= mid ==> s[k].name == b.name
    ensures BackwardScanAsWritten(s, b, mid - 1) == OutOfBounds(-1)
  {
    if mid > 0 {
      BackwardScanReadsBeforeStart(s, b, mid - 1);
    }
  }

  /** When the run of matches reaches the last index, the unguarded forward scan reads `data[size]`. */
  lemma {:induction false} ForwardScanReadsPastEnd(s: seq<Enrollee>, b: Enrollee, i: int)
    requires 0 <= i <= |s|
    requires forall k :: i <= k < |s| ==> s[k].name == b.name
    ensures ForwardScanAsWritten(s, b, i) == OutOfBounds(|s|)
    decreases |s| - i
  {
    if i < |s| {
      ForwardScanReadsPastEnd(s, b, i + 1);
    }
  }

  /**
   * The smallest witness: one record, searched for itself. The narrowing loop
   * stops at once on index 0, and the scan of line 128 then reads `data[-1]`.
   */
  lemma OneRecordReadsBeforeStart(x: Enrollee)
    ensures Equal([x][Midpoint(0, 0)], x)
    ensures BackwardScanAsWritten([x], x, Midpoint(0, 0) - 1) == OutOfBounds(-1)
  {
    BackwardScanReadsBeforeStart([x], x, 0);
  }

  /**
   * A witness for line 130 that line 128 does not pre-empt: two records with
   * names `x < y`, searched for `y`. The narrowing loop probes index 0 (below
   * `y`, so `left` becomes 1), then matches at index 1; the backward scan stops
   * at index 0 inside the array. The forward scan goes on from there: it reads
   * index 1, which matches and is pushed, and then reads `data[2]`, which is
   * `data[size]`.
   */
  lemma TwoRecordsReadPastEnd(x: Enrollee, y: Enrollee)
    requires LexLess(x.name, y.name)
    ensures Midpoint(0, 1) == 0 && Less([x, y][0], y)
    ensures Midpoint(1, 1) == 1 && Equal([x, y][1], y)
    ensures BackwardScanAsWritten([x, y], y, 0) == Stop(0)
    ensures ForwardScanAsWritten([x, y], y, BackwardScanAsWritten([x, y], y, 0).at + 1) == OutOfBounds(2)
  {
    LexLessIrreflexive(x.name);
    LastOfTwoMatches([x, y], y);
  }

  /** Two records of which only the second matches: line 128 stops at 0, line 130 pushes 1 and reads index 2. */
  lemma LastOfTwoMatches(s: seq<Enrollee>, b: Enrollee)
    requires |s| == 2 && !Equal(s[0], b) && Equal(s[1], b)
    ensures BackwardScanAsWritten(s, b, 0) == Stop(0)
    ensures ForwardScanAsWritten(s, b, BackwardScanAsWritten(s, b, 0).at + 1) == OutOfBounds(2)
  {
    assert ForwardScanAsWritten(s, b, 2) == OutOfBounds(2);
  }
}
