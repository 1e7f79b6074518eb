/** The non-recursive quicksort: median of three, unguarded scans, an explicit stack of 50 cells. */
module Quicksort {
  import opened Arithmetic
  import opened Rearrangement

  const INSERTION_THRESHOLD := 10
  const NSTACK := 50

  ghost predicate Ascending(s: seq<int>, lo: int, hi: int) {
    forall p, q :: 0 <= lo <= p < q < hi <= |s| ==> s[p] <= s[q]
  }

  ghost predicate StrictlyAscending(s: seq<int>, lo: int, hi: int) {
    forall p, q :: 0 <= lo <= p < q < hi <= |s| ==> s[p] < s[q]
  }

  method Swap(a: array<int>, i: nat, j: nat)
    requires i < a.Length && j < a.Length
    modifies a
    ensures a[..] == SwapAt(old(a[..]), i, j)
  {
    var temp := a[i];
    a[i] := a[j];
    a[j] := temp;
  }

  // Moving cell i down to cell j, the cells between shifting up by one.
  ghost predicate Inserted(s: seq<int>, t: seq<int>, j: nat, i: nat) {
    && j <= i < |s| == |t|
    && t[j] == s[i]
    && (forall k :: 0 <= k < j || i < k < |s| ==> t[k] == s[k])
    && (forall k :: j < k <= i ==> t[k] == s[k - 1])
  }

  lemma InsertedRearranges(s: seq<int>, t: seq<int>, j: nat, i: nat, lo: nat, hi: nat)
    requires Inserted(s, t, j, i) && lo <= j && i < hi <= |s|
    ensures Rearranged(s, t, lo, hi)
  {
    InsertedMoves(s, t, j, i, lo, hi);
    Rotated(s[lo..j], s[j..i], s[i], s[i + 1..hi]);
    assert s[..lo] == t[..lo];
    assert s[hi..] == t[hi..];
  }

  lemma InsertedMoves(s: seq<int>, t: seq<int>, j: nat, i: nat, lo: nat, hi: nat)
    requires Inserted(s, t, j, i) && lo <= j && i < hi <= |s|
    ensures s[lo..hi] == s[lo..j] + s[j..i] + [s[i]] + s[i + 1..hi]
    ensures t[lo..hi] == s[lo..j] + [s[i]] + s[j..i] + s[i + 1..hi]
  {
  }

  lemma Rotated(a: seq<int>, b: seq<int>, x: int, c: seq<int>)
    ensures multiset(a + b + [x] + c) == multiset(a + [x] + b + c)
  {
  }

  lemma InsertedAscends(s: seq<int>, t: seq<int>, j: nat, i: nat, lo: nat)
    requires Inserted(s, t, j, i) && lo <= j && Ascending(s, lo, i)
    requires j == lo || s[j - 1] <= s[i]
    requires forall k :: j <= k < i ==> s[i] < s[k]
    ensures Ascending(t, lo, i + 1)
  {
    forall p, q | lo <= p < q < i + 1 ensures t[p] <= t[q] {
      assert t[p] == if p < j then s[p] else if p == j then s[i] else s[p - 1];
      assert t[q] == if q < j then s[q] else if q == j then s[i] else s[q - 1];
    }
  }

  // One round of insertion sort: cell i sinks to cell j among the ascending cells below it.
  method Insert(a: array<int>, lo: nat, i: nat) returns (j: nat)
    requires lo < i < a.Length
    modifies a
    ensures lo <= j && Inserted(old(a[..]), a[..], j, i)
    ensures j == lo || old(a[j - 1] <= a[i])
    ensures forall k :: j <= k < i ==> old(a[i] < a[k])
  {
    ghost var s := a[..];
    var value := a[i];
    j := i;
    while value < a[j - 1]
      invariant lo < j <= i
      invariant forall k :: 0 <= k < j || i < k < a.Length ==> a[k] == s[k]
      invariant forall k :: j < k <= i ==> a[k] == s[k - 1]
      invariant forall k :: j <= k < i ==> value < s[k]
      decreases j
    {
      a[j] := a[j - 1];
      j := j - 1;
      if j == lo {
        break;
      }
    }
    a[j] := value;
  }

  lemma AtMostOneAscends(s: seq<int>, lo: nat)
    ensures Ascending(s, lo, lo) && Ascending(s, lo, lo + 1)
  {
  }

  method InsertionSort(a: array<int>, lo: nat, n: nat)
    requires lo + n <= a.Length
    modifies a
    ensures Rearranged(old(a[..]), a[..], lo, lo + n)
    ensures Ascending(a[..], lo, lo + n)
  {
    hide Rearranged, Ascending, Inserted;
    RearrangedReflexive(a[..], lo, lo + n);
    AtMostOneAscends(a[..], lo);
    var i := lo + 1;
    while i < lo + n
      invariant lo + 1 <= i && (i <= lo + n || n == 0)
      invariant Rearranged(old(a[..]), a[..], lo, lo + n)
      invariant if n == 0 then Ascending(a[..], lo, lo) else Ascending(a[..], lo, i)
    {
      ghost var s := a[..];
      var j := Insert(a, lo, i);
      InsertedRearranges(s, a[..], j, i, lo, lo + n);
      RearrangedTransitive(old(a[..]), s, a[..], lo, lo + n);
      InsertedAscends(s, a[..], j, i, lo);
      i := i + 1;
    }
  }

  // ---- Partitioning. As in the C code, l and r count cells from 1: the segment is a[l-1..r]. ----

  // Scan up past every element below the pivot. Nothing but the sentinel stops the scan.
  method ScanUp(a: array<int>, from: nat, pivot: int, ghost sentinel: nat) returns (i: nat)
    requires from <= sentinel < a.Length && pivot <= a[sentinel]
    ensures from < i <= sentinel + 1
    ensures pivot <= a[i - 1]
    ensures forall p :: from <= p < i - 1 ==> a[p] < pivot
  {
    i := from + 1;
    while a[i - 1] < pivot
      invariant from < i <= sentinel + 1
      invariant forall p :: from <= p < i - 1 ==> a[p] < pivot
      decreases sentinel + 1 - i
    {
      i := i + 1;
    }
  }

  // Scan down past every element above the pivot, likewise unguarded.
  method ScanDown(a: array<int>, from: nat, pivot: int, ghost sentinel: nat) returns (j: nat)
    requires sentinel + 1 < from <= a.Length + 1 && a[sentinel] <= pivot
    ensures sentinel < j < from
    ensures a[j - 1] <= pivot
    ensures forall p :: j <= p < from - 1 ==> pivot < a[p]
  {
    j := from - 1;
    while a[j - 1] > pivot
      invariant sentinel < j < from
      invariant forall p :: j <= p < from - 1 ==> pivot < a[p]
      decreases j
    {
      j := j - 1;
    }
  }

  method SwapIfGreater(a: array<int>, i: nat, j: nat)
    requires i < a.Length && j < a.Length
    modifies a
    ensures a[..] == Ordered2(old(a[..]), i, j)
  {
    if a[i] > a[j] {
      Swap(a, i, j);
    }
  }

  ghost function Ordered2(s: seq<int>, i: nat, j: nat): seq<int>
    requires i < |s| && j < |s|
  {
    if s[i] > s[j] then SwapAt(s, i, j) else s
  }

  lemma Ordered2Rearranges(s: seq<int>, t: seq<int>, i: nat, j: nat, lo: nat, hi: nat)
    requires Rearranged(s, t, lo, hi) && lo <= i < hi && lo <= j < hi
    ensures Rearranged(s, Ordered2(t, i, j), lo, hi)
  {
    if t[i] > t[j] {
      SwapRearranges(t, i, j, lo, hi);
      RearrangedTransitive(s, t, SwapAt(t, i, j), lo, hi);
    }
  }

  ghost function MedianArranged(s: seq<int>, l: nat, r: nat): seq<int>
    requires 1 <= l < r - 1 < |s|
  {
    Ordered2(Ordered2(Ordered2(SwapAt(s, (l + r) / 2 - 1, l), l - 1, r - 1), l, r - 1), l - 1, l)
  }

  lemma MedianRearranges(s: seq<int>, l: nat, r: nat)
    requires 1 <= l < r - 1 < |s|
    ensures Rearranged(s, MedianArranged(s, l, r), l - 1, r)
  {
    hide Rearranged, Ordered2, SwapAt;
    var s1 := SwapAt(s, (l + r) / 2 - 1, l);
    SwapRearranges(s, (l + r) / 2 - 1, l, l - 1, r);
    var s2 := Ordered2(s1, l - 1, r - 1);
    Ordered2Rearranges(s, s1, l - 1, r - 1, l - 1, r);
    Ordered2Rearranges(s, s2, l, r - 1, l - 1, r);
    Ordered2Rearranges(s, Ordered2(s2, l, r - 1), l - 1, l, l - 1, r);
  }

  lemma MedianOrders(s: seq<int>, l: nat, r: nat)
    requires 1 <= l < r - 1 < |s|
    ensures var t := MedianArranged(s, l, r); t[l - 1] <= t[l] <= t[r - 1]
  {
  }

  lemma MedianOfAscending(s: seq<int>, l: nat, r: nat)
    requires 1 <= l < r - 3 < |s| - 2 && StrictlyAscending(s, l - 1, r)
    ensures MedianArranged(s, l, r) == SwapAt(s, (l + r) / 2 - 1, l)
  {
    var t := SwapAt(s, (l + r) / 2 - 1, l);
    assert t[l - 1] < t[l] < t[r - 1];
  }

  // The median of the first, middle and last elements goes to cell l, the least to cell l - 1
  // and the greatest to cell r - 1, so that both scans have a sentinel.
  method MedianOfThree(a: array<int>, l: nat, r: nat)
    requires 1 <= l && r <= a.Length && r - l >= INSERTION_THRESHOLD
    modifies a
    ensures a[..] == MedianArranged(old(a[..]), l, r)
  {
    hide Ordered2, SwapAt;
    Swap(a, (l + r) / 2 - 1, l);
    SwapIfGreater(a, l - 1, r - 1);
    SwapIfGreater(a, l, r - 1);
    SwapIfGreater(a, l - 1, l);
  }

  ghost predicate Partitioned(s: seq<int>, l: nat, r: nat, i: nat, j: nat) {
    && 1 <= l < j < i <= r <= |s|
    && (forall p :: l - 1 <= p < j ==> s[p] <= s[j - 1])
    && (forall p :: j - 1 <= p < i - 1 ==> s[p] == s[j - 1])
    && (forall p :: j - 1 <= p < r ==> s[j - 1] <= s[p])
  }

  // What holds around the innermost loop: everything below i is at most the pivot, everything
  // from j - 1 up is at least the pivot, and a sentinel remains on either side.
  ghost predicate Scanning(s: seq<int>, l: nat, r: nat, i: nat, j: nat, pivot: int) {
    && 1 <= l < i <= j <= r <= |s|
    && (i == j ==> j < r && l + 1 < i)
    && s[l] == pivot
    && (forall p :: l - 1 <= p < i ==> s[p] <= pivot)
    && (forall p :: j - 1 <= p < r ==> pivot <= s[p])
  }

  // Where a pair of scans starting from i0 and j0 comes to rest: inside the segment.
  ghost predicate Stopped(s: seq<int>, l: nat, r: nat, i0: nat, j0: nat, i: nat, j: nat, pivot: int) {
    && 1 <= l < i0 < i <= r <= |s| && l < j < j0 <= r
    && s[j - 1] <= pivot <= s[i - 1]
    && (forall p :: i0 <= p < i - 1 ==> s[p] < pivot)
    && (forall p :: j <= p < j0 - 1 ==> pivot < s[p])
  }

  // What the scans leave on either side of where they stop.
  lemma ScannedSides(s: seq<int>, l: nat, r: nat, i0: nat, j0: nat, i: nat, j: nat, pivot: int)
    requires Scanning(s, l, r, i0, j0, pivot) && Stopped(s, l, r, i0, j0, i, j, pivot)
    ensures 1 <= l && l + 1 < i <= r <= |s| && l < j < r && s[l] == pivot && s[j - 1] <= pivot <= s[i - 1]
    ensures forall p :: l - 1 <= p < i - 1 ==> s[p] <= pivot
    ensures forall p :: j <= p < r ==> pivot <= s[p]
  {
  }

  lemma ScanningSwap(s: seq<int>, l: nat, r: nat, i0: nat, j0: nat, i: nat, j: nat, pivot: int)
    requires Scanning(s, l, r, i0, j0, pivot) && Stopped(s, l, r, i0, j0, i, j, pivot) && i <= j
    ensures Scanning(SwapAt(s, i - 1, j - 1), l, r, i, j, pivot)
    ensures SwapAt(s, i - 1, j - 1)[l] == pivot
    ensures Rearranged(s, SwapAt(s, i - 1, j - 1), l - 1, r)
  {
    hide Rearranged, Scanning, Stopped, SwapAt;
    ScannedSides(s, l, r, i0, j0, i, j, pivot);
    SwapRearranges(s, i - 1, j - 1, l - 1, r);
    SidesSwapped(s, l, r, i, j, pivot);
  }

  lemma SidesSwapped(s: seq<int>, l: nat, r: nat, i: nat, j: nat, pivot: int)
    requires 1 <= l && l + 1 < i <= j < r <= |s| && s[l] == pivot && s[j - 1] <= pivot <= s[i - 1]
    requires forall p :: l - 1 <= p < i - 1 ==> s[p] <= pivot
    requires forall p :: j <= p < r ==> pivot <= s[p]
    ensures Scanning(SwapAt(s, i - 1, j - 1), l, r, i, j, pivot)
    ensures SwapAt(s, i - 1, j - 1)[l] == pivot
  {
  }

  lemma ScanningCrossed(s: seq<int>, l: nat, r: nat, i0: nat, j0: nat, i: nat, j: nat, pivot: int)
    requires Scanning(s, l, r, i0, j0, pivot) && Stopped(s, l, r, i0, j0, i, j, pivot) && j < i
    ensures Partitioned(SwapAt(s, l, j - 1), l, r, i, j)
    ensures Rearranged(s, SwapAt(s, l, j - 1), l - 1, r)
  {
    hide Rearranged, Scanning, Stopped, Partitioned, SwapAt;
    ScannedSides(s, l, r, i0, j0, i, j, pivot);
    SwapRearranges(s, l, j - 1, l - 1, r);
    PivotPlaced(s, l, r, i, j, pivot);
  }

  lemma PivotPlaced(s: seq<int>, l: nat, r: nat, i: nat, j: nat, pivot: int)
    requires 1 <= l < j < i <= r <= |s| && s[l] == pivot && s[j - 1] <= pivot
    requires forall p :: l - 1 <= p < i - 1 ==> s[p] <= pivot
    requires forall p :: j <= p < r ==> pivot <= s[p]
    ensures Partitioned(SwapAt(s, l, j - 1), l, r, i, j)
  {
    SwapCells(s, l, j - 1);
    hide SwapAt;
  }

  lemma SwapCells(s: seq<int>, i: nat, j: nat)
    requires i < |s| && j < |s|
    ensures |SwapAt(s, i, j)| == |s|
    ensures forall p :: 0 <= p < |s| ==> SwapAt(s, i, j)[p] == if p == j then s[i] else if p == i then s[j] else s[p]
  {
  }

  // On strictly ascending cells the first pair of scans meets in the middle.
  lemma ScanningAscending(s: seq<int>, l: nat, r: nat, i: nat, j: nat)
    requires 1 <= l && l + INSERTION_THRESHOLD <= r <= |s| && StrictlyAscending(s, l - 1, r)
    requires var mid := (l + r) / 2 - 1;
             Stopped(SwapAt(s, mid, l), l, r, l + 1, r, i, j, s[mid])
    ensures j == (l + r) / 2 && i == j + 1
    ensures SwapAt(SwapAt(s, j - 1, l), l, j - 1) == s
  {
    var mid := (l + r) / 2 - 1;
    var t := SwapAt(s, mid, l);
    assert t[mid] == s[l] < s[mid];
    assert t[mid + 1] == s[mid + 1] > s[mid];
    assert forall p :: l < p < r ==> t[p] == if p == mid then s[l] else s[p];
  }

  // The state in which the innermost loop is entered.
  lemma MedianStarts(s: seq<int>, l: nat, r: nat)
    requires 1 <= l && l + INSERTION_THRESHOLD <= r <= |s|
    ensures var t := MedianArranged(s, l, r);
            && Rearranged(s, t, l - 1, r)
            && Scanning(t, l, r, l + 1, r, t[l])
            && (StrictlyAscending(s, l - 1, r) ==> MiddleMoved(s, t, l, r, t[l]))
  {
    MedianRearranges(s, l, r);
    MedianOrders(s, l, r);
    if StrictlyAscending(s, l - 1, r) {
      MedianOfAscending(s, l, r);
    }
    hide Rearranged, MedianArranged;
  }

  // Both unguarded scans of the innermost loop, which never leave the segment.
  method Scan(a: array<int>, l: nat, r: nat, i0: nat, j0: nat, pivot: int) returns (i: nat, j: nat)
    requires Scanning(a[..], l, r, i0, j0, pivot)
    ensures i0 < i <= r && l < j < j0
    ensures Stopped(a[..], l, r, i0, j0, i, j, pivot)
  {
    i := ScanUp(a, i0, pivot, if i0 < j0 then j0 - 1 else j0);
    j := ScanDown(a, j0, pivot, if i0 < j0 then i0 - 1 else i0 - 2);
  }

  method PlacePivot(a: array<int>, l: nat, j: nat, pivot: int)
    requires l < a.Length && 1 <= j <= a.Length && a[l] == pivot
    modifies a
    ensures a[..] == SwapAt(old(a[..]), l, j - 1)
  {
    a[l] := a[j - 1];
    a[j - 1] := pivot;
  }

  // Strictly ascending cells, of which only the middle one has traded places with cell l.
  ghost predicate MiddleMoved(s0: seq<int>, s: seq<int>, l: nat, r: nat, pivot: int) {
    && 1 <= l && l + INSERTION_THRESHOLD <= r <= |s0| && StrictlyAscending(s0, l - 1, r)
    && s == SwapAt(s0, (l + r) / 2 - 1, l)
    && pivot == s0[(l + r) / 2 - 1]
  }

  // One round of the innermost loop: scan, then either exchange two elements or, when the scans
  // have crossed, put the pivot in its place.
  method Round(a: array<int>, l: nat, r: nat, i0: nat, j0: nat, pivot: int, ghost s0: seq<int>)
    returns (i: nat, j: nat)
    requires 1 <= l && Rearranged(s0, a[..], l - 1, r) && Scanning(a[..], l, r, i0, j0, pivot)
    modifies a
    ensures i0 < i <= r && l < j < j0
    ensures Rearranged(s0, a[..], l - 1, r)
    ensures if i <= j then Scanning(a[..], l, r, i, j, pivot) else Partitioned(a[..], l, r, i, j)
    ensures i0 == l + 1 && j0 == r && MiddleMoved(s0, old(a[..]), l, r, pivot) ==>
              a[..] == s0 && j == (l + r) / 2 && i == j + 1
  {
    hide Rearranged, Stopped, Partitioned, SwapAt, StrictlyAscending;
    ghost var s := a[..];
    i, j := Scan(a, l, r, i0, j0, pivot);
    if i0 == l + 1 && j0 == r && MiddleMoved(s0, s, l, r, pivot) {
      ScanningAscending(s0, l, r, i, j);
    }
    if j < i {
      ScanningCrossed(s, l, r, i0, j0, i, j, pivot);
      PlacePivot(a, l, j, pivot);
    } else {
      ScanningSwap(s, l, r, i0, j0, i, j, pivot);
      Swap(a, i - 1, j - 1);
    }
    RearrangedTransitive(s0, s, a[..], l - 1, r);
  }

  // One partitioning pass. On strictly ascending cells it changes nothing and splits them evenly.
  method Partition(a: array<int>, l: nat, r: nat) returns (i: nat, j: nat)
    requires 1 <= l && r <= a.Length && r - l >= INSERTION_THRESHOLD
    modifies a
    ensures l < j < i <= r
    ensures Rearranged(old(a[..]), a[..], l - 1, r)
    ensures Partitioned(a[..], l, r, i, j)
    ensures old(StrictlyAscending(a[..], l - 1, r)) ==>
              a[..] == old(a[..]) && j == (l + r) / 2 && i == j + 1
  {
    ghost var s0 := a[..];
    MedianOfThree(a, l, r);
    i, j := l + 1, r;
    var pivot := a[l];
    MedianStarts(s0, l, r);
    hide Rearranged, Scanning, Partitioned, MiddleMoved, MedianArranged;
    i, j := Round(a, l, r, i, j, pivot, s0);
    while i <= j
      invariant Rearranged(s0, a[..], l - 1, r)
      invariant l < i <= r && l < j
      invariant if i <= j then Scanning(a[..], l, r, i, j, pivot) else Partitioned(a[..], l, r, i, j)
      invariant StrictlyAscending(s0, l - 1, r) ==> a[..] == s0 && j == (l + r) / 2 && i == j + 1
      decreases j
    {
      i, j := Round(a, l, r, i, j, pivot, s0);
    }
  }

  // ---- The pending segments ----

  // The cells l - 1, ..., r - 1.
  datatype Segment = Segment(l: nat, r: nat) {
    ghost predicate Within(n: nat) {
      1 <= l <= r + 1 && r <= n
    }

    ghost predicate Holds(p: int) {
      l - 1 <= p < r
    }

    ghost function Size(): int {
      r - l + 1
    }
  }

  ghost predicate Together(segs: seq<Segment>, p: int, q: int) {
    exists k :: 0 <= k < |segs| && segs[k].Holds(p) && segs[k].Holds(q)
  }

  // Elements are in order unless they still await sorting within a common segment.
  ghost predicate OrderedApart(s: seq<int>, n: nat, segs: seq<Segment>) {
    forall p, q :: 0 <= p < q < n <= |s| ==> s[p] <= s[q] || Together(segs, p, q)
  }

  ghost predicate Apart(segs: seq<Segment>, n: nat) {
    && (forall k :: 0 <= k < |segs| ==> segs[k].Within(n))
    && (forall k, m, p :: 0 <= k < m < |segs| && segs[k].Holds(p) ==> !segs[m].Holds(p))
  }

  // Sorting the last segment leaves only the others pending.
  lemma FinishSegment(s: seq<int>, t: seq<int>, n: nat, segs: seq<Segment>, c: Segment)
    requires n <= |s| && OrderedApart(s, n, segs + [c]) && Apart(segs + [c], n)
    requires 1 <= c.l && |s| == |t| && Rearranged(s, t, c.l - 1, c.r) && Ascending(t, c.l - 1, c.r)
    ensures OrderedApart(t, n, segs) && Apart(segs, n)
  {
    hide Rearranged;
    var all := segs + [c];
    assert all[|segs|] == c && c.Within(n);
    forall p, q | 0 <= p < q < n ensures t[p] <= t[q] || Together(segs, p, q) {
      if !(c.Holds(p) && c.Holds(q)) {
        OrderAcross(s, t, n, segs, c, p, q);
      }
    }
    assert forall k :: 0 <= k < |segs| ==> segs[k] == all[k];
  }

  lemma OrderAcross(s: seq<int>, t: seq<int>, n: nat, segs: seq<Segment>, c: Segment, p: int, q: int)
    requires n <= |s| && OrderedApart(s, n, segs + [c]) && Apart(segs + [c], n)
    requires 1 <= c.l && |s| == |t| && Rearranged(s, t, c.l - 1, c.r)
    requires 0 <= p < q < n && !(c.Holds(p) && c.Holds(q))
    ensures t[p] <= t[q] || Together(segs, p, q)
  {
    var all := segs + [c];
    assert all[|segs|] == c && c.Within(n);
    var p', q' := p, q;
    if c.Holds(p) {
      p' := RearrangedOrigin(s, t, c.l - 1, c.r, p);
    } else {
      RearrangedOutside(s, t, c.l - 1, c.r, p);
    }
    if c.Holds(q) {
      q' := RearrangedOrigin(s, t, c.l - 1, c.r, q);
    } else {
      RearrangedOutside(s, t, c.l - 1, c.r, q);
    }
    hide Rearranged;
    assert p' < q' && s[p'] == t[p] && s[q'] == t[q];
    if Together(all, p', q') {
      var k :| 0 <= k < |all| && all[k].Holds(p') && all[k].Holds(q');
      assert k < |segs|;
      assert !c.Holds(p') && !c.Holds(q');
      assert segs[k] == all[k];
    }
  }

  // Partitioning the last segment replaces it by its two sides.
  lemma SplitSegment(s: seq<int>, t: seq<int>, n: nat, segs: seq<Segment>, c: Segment, i: nat, j: nat,
                     d: Segment, e: Segment)
    requires n <= |s| && OrderedApart(s, n, segs + [c]) && Apart(segs + [c], n)
    requires 1 <= c.l && |s| == |t| && Rearranged(s, t, c.l - 1, c.r) && Partitioned(t, c.l, c.r, i, j)
    requires {d, e} == {Segment(c.l, j - 1), Segment(i, c.r)}
    ensures OrderedApart(t, n, segs + [d] + [e]) && Apart(segs + [d] + [e], n)
  {
    hide Rearranged;
    var all := segs + [d] + [e];
    forall p, q | 0 <= p < q < n ensures t[p] <= t[q] || Together(all, p, q) {
      if c.Holds(p) && c.Holds(q) {
        assert all[|segs|] == d && all[|segs| + 1] == e;
        if d.Holds(p) && d.Holds(q) {
        } else if e.Holds(p) && e.Holds(q) {
        } else {
          assert t[p] <= t[j - 1] <= t[q];
        }
      } else {
        OrderAcross(s, t, n, segs, c, p, q);
        assert forall k :: 0 <= k < |segs| ==> segs[k] == all[k];
      }
    }
    assert forall k :: 0 <= k < |segs| ==> all[k] == (segs + [c])[k];
    assert (segs + [c])[|segs|] == c;
  }

  // ---- How deep the stack gets ----

  // A segment pushed at depth k, like the one being worked on with k others pending, has at most
  // (n + 1) / 2^k - 1 cells.
  ghost predicate Shallow(segs: seq<Segment>, n: nat) {
    forall k :: 0 <= k < |segs| ==> (segs[k].Size() + 1) * Pow2(k) <= n + 1
  }

  // Of two sides that together have fewer cells than the whole, the smaller has at most half.
  lemma HalvingKeepsShallow(segs: seq<Segment>, c: Segment, larger: Segment, smaller: Segment, n: nat)
    requires Shallow(segs + [c], n) && -1 <= smaller.Size() <= larger.Size()
    requires smaller.Size() + larger.Size() < c.Size()
    ensures Shallow(segs + [larger] + [smaller], n)
  {
    var was, now := segs + [c], segs + [larger] + [smaller];
    forall k | 0 <= k < |now| ensures (now[k].Size() + 1) * Pow2(k) <= n + 1 {
      var d := |segs|;
      assert was[d] == c;
      Pow2Grows(0, d);
      if k < d {
        assert now[k] == was[k];
      } else if k == d {
        MulMonotone(larger.Size() + 1, c.Size() + 1, Pow2(d));
      } else {
        HalfFits(smaller.Size(), c.Size(), Pow2(d), n + 1);
      }
    }
  }

  lemma HalfFits(x: int, y: int, p: nat, m: int)
    requires 2 * (x + 1) <= y + 1 && (y + 1) * p <= m
    ensures (x + 1) * (2 * p) <= m
  {
    MulMonotone(2 * (x + 1), y + 1, p);
    assert (x + 1) * (2 * p) == 2 * (x + 1) * p;
  }

  lemma ShallowPop(segs: seq<Segment>, c: Segment, n: nat)
    requires Shallow(segs + [c], n)
    ensures Shallow(segs, n)
  {
    assert forall k :: 0 <= k < |segs| ==> segs[k] == (segs + [c])[k];
  }

  // The number of elements from which the pending segments may not fit on the stack.
  const OVERFLOW_SIZE: nat := 12 * 0x100_0000 - 1

  lemma Pow2Of24()
    ensures Pow2(24) == 0x100_0000
  {
    assert Pow2(8) == 256;
    assert Pow2(16) == 65536;
  }

  lemma RoomToPush(segs: seq<Segment>, c: Segment, n: nat)
    requires Shallow(segs + [c], n) && c.Size() > INSERTION_THRESHOLD && n < OVERFLOW_SIZE
    ensures |segs| < 24
  {
    var d := |segs|;
    assert (segs + [c])[d] == c;
    if d >= 24 {
      Pow2Grows(24, d);
      Pow2Of24();
      MulMonotone(12, c.Size() + 1, Pow2(d));
    }
  }

  ghost function Weight(segs: seq<Segment>): nat {
    if segs == [] then 0 else
      var size := segs[|segs| - 1].Size();
      Weight(segs[..|segs| - 1]) + 1 + 2 * (if size > 0 then size else 0)
  }

  lemma WeightPush(segs: seq<Segment>, c: Segment)
    ensures Weight(segs + [c]) == Weight(segs) + 1 + 2 * (if c.Size() > 0 then c.Size() else 0)
  {
    assert (segs + [c])[..|segs|] == segs;
  }

  // The cells of the C array that hold the pending segments: l below r, from index 1.
  ghost predicate Stacked(stack: seq<int>, sp: int, segs: seq<Segment>) {
    && sp == 2 * |segs| < |stack| == NSTACK
    && forall k :: 0 <= k < |segs| ==> stack[2 * k + 1] == segs[k].l && stack[2 * k + 2] == segs[k].r
  }

  lemma NothingStacked(stack: seq<int>)
    requires |stack| == NSTACK
    ensures Stacked(stack, 0, [])
  {
  }

  method Push(stack: array<int>, sp: nat, seg: Segment, ghost segs: seq<Segment>) returns (sp': nat)
    requires Stacked(stack[..], sp, segs) && sp + 2 < NSTACK
    modifies stack
    ensures sp' == sp + 2 && Stacked(stack[..], sp', segs + [seg])
  {
    sp' := sp + 2;
    stack[sp'] := seg.r;
    stack[sp' - 1] := seg.l;
  }

  method Pop(stack: array<int>, sp: nat, ghost segs: seq<Segment>) returns (sp': nat, l: nat, r: nat)
    requires Stacked(stack[..], sp, segs) && segs != []
    ensures sp' == sp - 2 && Stacked(stack[..], sp', segs[..|segs| - 1])
    ensures Segment(l, r) == segs[|segs| - 1]
  {
    ghost var top := segs[|segs| - 1];
    assert stack[sp] == top.r && stack[sp - 1] == top.l;
    r, sp' := stack[sp], sp - 1;
    l, sp' := stack[sp'], sp' - 1;
  }

  ghost predicate Pending(s0: seq<int>, s: seq<int>, n: nat, segs: seq<Segment>, c: Segment) {
    && n <= |s|
    && Rearranged(s0, s, 0, n)
    && OrderedApart(s, n, segs + [c])
    && Apart(segs + [c], n)
    && Shallow(segs + [c], n)
  }

  // On strictly ascending input, as long as each segment is halved exactly: the left half is next.
  ghost predicate Halving(s0: seq<int>, s: seq<int>, n: nat, d: nat, c: Segment) {
    s == s0 && c.l == 1 && c.r + 1 == (n + 1) / Pow2(d) && d <= 24
  }

  lemma FinishStep(s0: seq<int>, s: seq<int>, t: seq<int>, n: nat, segs: seq<Segment>, c: Segment)
    requires Pending(s0, s, n, segs, c) && 1 <= c.l && |s| == |t|
    requires Rearranged(s, t, c.l - 1, c.r) && Ascending(t, c.l - 1, c.r)
    ensures segs == [] ==> Rearranged(s0, t, 0, n) && Ascending(t, 0, n)
    ensures segs != [] ==> Pending(s0, t, n, segs[..|segs| - 1], segs[|segs| - 1])
    ensures Weight(segs) < Weight(segs + [c])
  {
    hide Rearranged, OrderedApart, Apart, Shallow, Ascending, Weight;
    PendingBounds(s0, s, n, segs, c);
    FinishSegment(s, t, n, segs, c);
    RearrangedWidens(s, t, c.l - 1, c.r, 0, n);
    RearrangedTransitive(s0, s, t, 0, n);
    ShallowPop(segs, c, n);
    WeightPush(segs, c);
    if segs == [] {
      NothingPending(t, n);
    } else {
      assert segs[..|segs| - 1] + [segs[|segs| - 1]] == segs;
    }
  }

  lemma PendingBounds(s0: seq<int>, s: seq<int>, n: nat, segs: seq<Segment>, c: Segment)
    requires Pending(s0, s, n, segs, c)
    ensures Rearranged(s0, s, 0, n)
    ensures 1 <= c.l <= c.r + 1 && c.r <= n <= |s|
    ensures c.r - c.l >= INSERTION_THRESHOLD && n < OVERFLOW_SIZE ==> |segs| < 24
  {
    assert (segs + [c])[|segs|] == c && c.Within(n);
    if c.Size() > INSERTION_THRESHOLD && n < OVERFLOW_SIZE {
      RoomToPush(segs, c, n);
    }
  }

  lemma NothingPending(t: seq<int>, n: nat)
    requires n <= |t| && OrderedApart(t, n, [])
    ensures Ascending(t, 0, n)
  {
  }

  lemma SplitStep(s0: seq<int>, s: seq<int>, t: seq<int>, n: nat, segs: seq<Segment>, c: Segment,
                  i: nat, j: nat, larger: Segment, smaller: Segment)
    requires Pending(s0, s, n, segs, c) && 1 <= c.l && |s| == |t|
    requires Rearranged(s, t, c.l - 1, c.r) && Partitioned(t, c.l, c.r, i, j)
    requires {larger, smaller} == {Segment(c.l, j - 1), Segment(i, c.r)} && smaller.Size() <= larger.Size()
    requires smaller.Size() + larger.Size() < c.Size()
    ensures Pending(s0, t, n, segs + [larger], smaller)
    ensures Weight(segs + [larger] + [smaller]) < Weight(segs + [c])
  {
    assert (segs + [c])[|segs|] == c;
    assert 1 <= j && smaller.Size() >= 0;
    hide Rearranged, OrderedApart, Apart, Shallow, Partitioned;
    SplitSegment(s, t, n, segs, c, i, j, larger, smaller);
    RearrangedWidens(s, t, c.l - 1, c.r, 0, n);
    RearrangedTransitive(s0, s, t, 0, n);
    HalvingKeepsShallow(segs, c, larger, smaller, n);
    WeightPush(segs, c);
    WeightPush(segs, larger);
    WeightPush(segs + [larger], smaller);
  }

  lemma DivideTwice(x: nat, p: nat)
    requires p > 0
    ensures x / (2 * p) == x / p / 2
  {
    var q := x / p;
    var h := q / 2;
    assert x == q * p + x % p;
    assert q * p == 2 * h * p + (q % 2) * p;
    assert x == h * (2 * p) + ((q % 2) * p + x % p);
    DivisionIsUnique(x, 2 * p, h, (q % 2) * p + x % p);
  }

  lemma HalvingStep(s0: seq<int>, s: seq<int>, n: nat, d: nat, c: Segment)
    requires Halving(s0, s, n, d, c) && n >= OVERFLOW_SIZE
    ensures s == s0 && d <= 24 && c.r - c.l >= INSERTION_THRESHOLD
    ensures d < 24 ==> Halving(s0, s, n, d + 1, Segment(1, (c.l + c.r) / 2 - 1))
  {
    assert Pow2(d + 1) == 2 * Pow2(d);
    DivideTwice(n + 1, Pow2(d));
    Pow2Grows(d, 24);
    Pow2Of24();
    hide Pow2;
    AtLeastTwelve(n + 1, Pow2(d));
  }

  lemma AtLeastTwelve(x: nat, p: nat)
    requires 1 <= p <= 0x100_0000 && x >= 12 * 0x100_0000
    ensures x / p >= 12
  {
    MulMonotone(x / p + 1, 12, p);
  }

  lemma PartOfAscending(s: seq<int>, n: nat, l: nat, r: nat)
    requires StrictlyAscending(s, 0, n) && 1 <= l && r <= n <= |s|
    ensures StrictlyAscending(s, l - 1, r)
  {
  }

  // Partitions the segment being worked on and tells which side is to be pushed on the stack and
  // which is next.
  method Divide(arr: array<int>, l: nat, r: nat, ghost s0: seq<int>, ghost n: nat, ghost segs: seq<Segment>)
    returns (larger: Segment, smaller: Segment)
    requires r - l >= INSERTION_THRESHOLD && Pending(s0, arr[..], n, segs, Segment(l, r))
    modifies arr
    ensures Pending(s0, arr[..], n, segs + [larger], smaller)
    ensures Weight(segs + [larger] + [smaller]) < Weight(segs + [Segment(l, r)])
    ensures n >= OVERFLOW_SIZE && StrictlyAscending(s0, 0, n) && |segs| < 24
            && Halving(s0, old(arr[..]), n, |segs|, Segment(l, r)) ==>
              Halving(s0, arr[..], n, |segs| + 1, smaller)
  {
    hide Pending, Rearranged, Partitioned, Pow2, Weight, StrictlyAscending;
    ghost var s := arr[..];
    PendingBounds(s0, s, n, segs, Segment(l, r));
    if StrictlyAscending(s0, 0, n) && s == s0 {
      PartOfAscending(s0, n, l, r);
    }
    var i, j := Partition(arr, l, r);
    var left, right := Segment(l, j - 1), Segment(i, r);
    if r - i + 1 >= j - l {
      larger, smaller := right, left;
    } else {
      larger, smaller := left, right;
    }
    SplitStep(s0, s, arr[..], n, segs, Segment(l, r), i, j, larger, smaller);
    if n >= OVERFLOW_SIZE && StrictlyAscending(s0, 0, n) && Halving(s0, s, n, |segs|, Segment(l, r)) {
      HalvingStep(s0, s, n, |segs|, Segment(l, r));
    }
  }

  // Insertion-sorts the segment being worked on.
  method Finish(arr: array<int>, l: nat, r: nat, ghost s0: seq<int>, ghost n: nat, ghost segs: seq<Segment>)
    requires Pending(s0, arr[..], n, segs, Segment(l, r))
    modifies arr
    ensures segs == [] ==> Rearranged(s0, arr[..], 0, n) && Ascending(arr[..], 0, n)
    ensures segs != [] ==> Pending(s0, arr[..], n, segs[..|segs| - 1], segs[|segs| - 1])
    ensures Weight(segs) < Weight(segs + [Segment(l, r)])
  {
    hide Pending, Weight, Rearranged, Ascending;
    PendingBounds(s0, arr[..], n, segs, Segment(l, r));
    ghost var s := arr[..];
    InsertionSort(arr, l - 1, r - l + 1);
    FinishStep(s0, s, arr[..], n, segs, Segment(l, r));
  }

  lemma SortedIs(s0: seq<int>, s: seq<int>, n: nat)
    requires n <= |s0| == |s|
    ensures Rearranged(s0, s, 0, n) ==> multiset(s[..n]) == multiset(s0[..n]) && s[n..] == s0[n..]
    ensures Ascending(s, 0, n) ==> forall p, q :: 0 <= p < q < n ==> s[p] <= s[q]
    ensures StrictlyAscending(s0, 0, n) <==> forall p, q :: 0 <= p < q < n ==> s0[p] < s0[q]
  {
    assert s[0..n] == s[..n] && s0[0..n] == s0[..n];
  }

  /** Sorts the first n elements of arr. The result says whether all pending segments fitted on
      the stack; when they would not, the C code writes past its end. */
  method Sort(arr: array<int>, n: nat) returns (fits: bool)
    requires n <= arr.Length
    modifies arr
    ensures multiset(arr[..n]) == old(multiset(arr[..n])) && arr[n..] == old(arr[n..])
    ensures fits ==> forall p, q :: 0 <= p < q < n ==> arr[p] <= arr[q]
    ensures n < 201_326_591 ==> fits
    ensures n >= 201_326_591 && old(forall p, q :: 0 <= p < q < n ==> arr[p] < arr[q]) ==> !fits
  {
    hide Pending, Halving, Weight, Stacked, StrictlyAscending, Rearranged, Ascending, Pow2;
    var l: nat, r: nat := 1, n;
    var stack := new int[NSTACK];
    var stackp := 0;
    ghost var s0 := arr[..];
    ghost var segs: seq<Segment> := [];
    ghost var doomed := n >= OVERFLOW_SIZE && StrictlyAscending(s0, 0, n);
    PendingStart(s0, n);
    NothingStacked(stack[..]);
    while true
      invariant stack.Length == NSTACK && stackp == 2 * |segs|
      invariant Stacked(stack[..], stackp, segs)
      invariant Pending(s0, arr[..], n, segs, Segment(l, r))
      invariant doomed ==> Halving(s0, arr[..], n, |segs|, Segment(l, r))
      decreases Weight(segs + [Segment(l, r)])
    {
      ghost var segs0 := segs;
      PendingBounds(s0, arr[..], n, segs, Segment(l, r));
      if doomed {
        HalvingStep(s0, arr[..], n, |segs|, Segment(l, r));
      }
      if r - l < INSERTION_THRESHOLD {
        Finish(arr, l, r, s0, n, segs);
        if stackp == 0 {
          SortedIs(s0, arr[..], n);
          return true;
        }
        stackp, l, r := Pop(stack, stackp, segs);
        segs := segs[..|segs| - 1];
        assert segs + [Segment(l, r)] == segs0;
      } else {
        var larger, smaller := Divide(arr, l, r, s0, n, segs);
        if stackp + 2 >= NSTACK {
          PendingBounds(s0, arr[..], n, segs + [larger], smaller);
          SortedIs(s0, arr[..], n);
          return false;
        }
        stackp := Push(stack, stackp, larger, segs);
        segs := segs + [larger];
        l, r := smaller.l, smaller.r;
      }
    }
  }

  lemma PendingStart(s: seq<int>, n: nat)
    requires n <= |s|
    ensures Pending(s, s, n, [], Segment(1, n))
    ensures Halving(s, s, n, 0, Segment(1, n))
  {
    assert ([] + [Segment(1, n)])[0].Holds(0) <==> n > 0;
    forall p, q | 0 <= p < q < n ensures Together([] + [Segment(1, n)], p, q) {
      assert ([] + [Segment(1, n)])[0].Holds(p);
    }
  }
}
