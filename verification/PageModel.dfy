/** The page descriptors: one byte per page, holding the flags Taken and Last. */
module PageModel {

  const PAGE_SIZE: nat := 4096

  const EMPTY: bv8 := 0
  const TAKEN: bv8 := 1
  const LAST: bv8 := 2

  predicate IsTaken(f: bv8) {
    f & TAKEN != 0
  }

  predicate IsLast(f: bv8) {
    f & LAST != 0
  }

  function SetFlag(f: bv8, flag: bv8): bv8 {
    f | flag
  }

  // ---- The descriptors as runs ----

  // The cells of a run of len pages: Taken, ..., Taken, Taken|Last.
  ghost predicate IsRun(d: seq<bv8>, i: nat, len: nat) {
    && 1 <= len && i + len <= |d|
    && (forall k :: i <= k < i + len - 1 ==> d[k] == TAKEN)
    && d[i + len - 1] == TAKEN | LAST
  }

  ghost predicate Inside(live: map<nat, nat>, k: int) {
    exists i :: i in live && i <= k < i + live[i]
  }

  // The descriptors hold exactly the runs in live, which maps first pages to lengths, and empty
  // cells between them.
  ghost predicate Represents(d: seq<bv8>, live: map<nat, nat>) {
    && (forall i :: i in live ==> IsRun(d, i, live[i]))
    && (forall i, j :: i in live && j in live && i < j ==> i + live[i] <= j)
    && (forall k :: 0 <= k < |d| && !Inside(live, k) ==> d[k] == EMPTY)
  }

  ghost predicate AllFree(d: seq<bv8>, i: nat, pages: nat) {
    i + pages <= |d| && forall k :: i <= k < i + pages ==> !IsTaken(d[k])
  }

  // The search of alloc, which never tries the last place, |d| - pages.
  ghost function Found(d: seq<bv8>, pages: nat, i: nat): nat
    requires pages <= |d|
    decreases |d| - i
  {
    if i >= |d| - pages || AllFree(d, i, pages) then i else Found(d, pages, i + 1)
  }

  ghost function Marked(d: seq<bv8>, i: nat, pages: nat): seq<bv8>
    requires 1 <= pages && i + pages <= |d|
  {
    seq(|d|, k requires 0 <= k < |d| =>
      if i <= k < i + pages - 1 then SetFlag(d[k], TAKEN)
      else if k == i + pages - 1 then SetFlag(SetFlag(d[k], TAKEN), LAST)
      else d[k])
  }

  ghost function Cleared(d: seq<bv8>, i: nat, len: nat): seq<bv8>
    requires i + len <= |d|
  {
    seq(|d|, k requires 0 <= k < |d| => if i <= k < i + len then EMPTY else d[k])
  }

  lemma {:induction false} FoundIsFirst(d: seq<bv8>, pages: nat, i: nat)
    requires 1 <= pages <= |d|
    ensures var r := Found(d, pages, i);
            && (r < |d| - pages ==> AllFree(d, r, pages))
            && (forall k :: i <= k < r && k < |d| - pages ==> !AllFree(d, k, pages))
            && i <= r && (i <= |d| - pages ==> r <= |d| - pages)
    decreases |d| - i
  {
    if !(i >= |d| - pages || AllFree(d, i, pages)) {
      FoundIsFirst(d, pages, i + 1);
    }
  }

  /** alloc finds room exactly if there is some before the last place, and takes the first. */
  lemma FoundIff(d: seq<bv8>, pages: nat)
    requires 1 <= pages <= |d|
    ensures Found(d, pages, 0) < |d| - pages <==> exists i :: 0 <= i < |d| - pages && AllFree(d, i, pages)
    ensures forall i :: 0 <= i < Found(d, pages, 0) ==> !AllFree(d, i, pages)
  {
    FoundIsFirst(d, pages, 0);
  }

  lemma FlagFacts()
    ensures !IsTaken(EMPTY) && IsTaken(TAKEN) && IsTaken(TAKEN | LAST)
    ensures !IsLast(EMPTY) && !IsLast(TAKEN) && IsLast(TAKEN | LAST)
    ensures SetFlag(EMPTY, TAKEN) == TAKEN && SetFlag(TAKEN, LAST) == TAKEN | LAST
  {
  }

  lemma RunCell(d: seq<bv8>, i: nat, len: nat, k: nat)
    requires IsRun(d, i, len) && i <= k < i + len
    ensures IsTaken(d[k])
  {
    FlagFacts();
    hide IsTaken, IsLast, SetFlag;
  }

  lemma CellOutside(d: seq<bv8>, live: map<nat, nat>, k: nat)
    requires Represents(d, live) && k < |d| && !Inside(live, k)
    ensures d[k] == EMPTY
  {
    hide Inside, IsRun;
  }

  lemma EmptyNotTaken()
    ensures !IsTaken(EMPTY)
  {
  }

  lemma FlagValues()
    ensures EMPTY == 0 && TAKEN == 1 && TAKEN | LAST == 3
  {
  }

  /** The byte of a page in a run is 1, of the last one 3. */
  lemma RunBytes(d: seq<bv8>, live: map<nat, nat>, i: nat, k: nat)
    requires Represents(d, live) && i in live && i <= k < i + live[i]
    ensures k < |d| && d[k] == if k == i + live[i] - 1 then 3 else 1
  {
    hide Represents;
    FlagValues();
    RepresentsRun(d, live, i);
  }

  /** The byte of any other page is 0. */
  lemma FreeByte(d: seq<bv8>, live: map<nat, nat>, k: nat)
    requires Represents(d, live) && k < |d| && forall i :: i in live ==> !(i <= k < i + live[i])
    ensures d[k] == 0
  {
    hide Represents;
    FlagValues();
    CellOutside(d, live, k);
  }

  lemma FreeCellsEmpty(d: seq<bv8>, live: map<nat, nat>, k: nat)
    requires Represents(d, live) && k < |d|
    ensures IsTaken(d[k]) <==> Inside(live, k)
    ensures !IsTaken(d[k]) ==> d[k] == EMPTY
  {
    hide IsTaken, IsRun, Represents;
    if Inside(live, k) {
      var i :| i in live && i <= k < i + live[i];
      RepresentsRun(d, live, i);
      RunCell(d, i, live[i], k);
    } else {
      CellOutside(d, live, k);
      EmptyNotTaken();
    }
  }

  lemma MarkedCells(d: seq<bv8>, i: nat, pages: nat)
    requires 1 <= pages && i + pages <= |d| && forall k :: i <= k < i + pages ==> d[k] == EMPTY
    ensures IsRun(Marked(d, i, pages), i, pages)
    ensures forall k :: 0 <= k < |d| && !(i <= k < i + pages) ==> Marked(d, i, pages)[k] == d[k]
  {
    FlagFacts();
    hide SetFlag;
  }

  lemma RunsApart(d: seq<bv8>, live: map<nat, nat>, i: nat, pages: nat, j: nat)
    requires Represents(d, live) && 1 <= pages && AllFree(d, i, pages) && j in live
    ensures j != i && (j + live[j] <= i || i + pages <= j)
  {
    hide IsTaken, Represents;
    RepresentsRun(d, live, j);
    if j + live[j] > i && i + pages > j {
      var k := if j < i then i else j;
      assert Inside(live, k);
      FreeCellsEmpty(d, live, k);
    }
  }

  lemma RepresentsRun(d: seq<bv8>, live: map<nat, nat>, j: nat)
    requires Represents(d, live) && j in live
    ensures IsRun(d, j, live[j]) && 1 <= live[j] && j + live[j] <= |d|
  {
  }

  lemma SameRun(d: seq<bv8>, d': seq<bv8>, i: nat, len: nat)
    requires IsRun(d, i, len) && |d| == |d'| && forall k :: i <= k < i + len ==> d'[k] == d[k]
    ensures IsRun(d', i, len)
  {
  }

  lemma AllocRepresents(d: seq<bv8>, live: map<nat, nat>, i: nat, pages: nat)
    requires Represents(d, live) && 1 <= pages && AllFree(d, i, pages)
    ensures i !in live && Represents(Marked(d, i, pages), live[i := pages])
  {
    hide IsTaken, IsLast, SetFlag, IsRun, Marked;
    var d', live' := Marked(d, i, pages), live[i := pages];
    forall k | i <= k < i + pages ensures d[k] == EMPTY {
      FreeCellsEmpty(d, live, k);
    }
    MarkedCells(d, i, pages);
    MarkedLength(d, i, pages);
    forall j | j in live ensures j != i && (j + live[j] <= i || i + pages <= j) {
      RunsApart(d, live, i, pages, j);
    }
    forall j | j in live' ensures IsRun(d', j, live'[j]) {
      if j != i {
        RepresentsRun(d, live, j);
        SameRun(d, d', j, live[j]);
      }
    }
    forall k | 0 <= k < |d'| && !Inside(live', k) ensures d'[k] == EMPTY {
      assert i in live';
      assert !Inside(live, k) by {
        NotInside(live, i, pages, k);
      }
    }
  }

  lemma NotInside(live: map<nat, nat>, i: nat, pages: nat, k: int)
    requires i !in live && !Inside(live[i := pages], k)
    ensures !Inside(live, k)
  {
    forall j | j in live ensures !(j <= k < j + live[j]) {
      assert j in live[i := pages];
    }
  }

  lemma MarkedLength(d: seq<bv8>, i: nat, pages: nat)
    requires 1 <= pages && i + pages <= |d|
    ensures |Marked(d, i, pages)| == |d|
  {
  }

  lemma DeallocRepresents(d: seq<bv8>, live: map<nat, nat>, i: nat)
    requires Represents(d, live) && i in live
    ensures i + live[i] <= |d| && Represents(Cleared(d, i, live[i]), live - {i})
  {
    hide IsRun;
    RepresentsRun(d, live, i);
    var d', live' := Cleared(d, i, live[i]), live - {i};
    forall j | j in live' ensures IsRun(d', j, live'[j]) {
      RepresentsRun(d, live, j);
      assert j + live[j] <= i || i + live[i] <= j;
      SameRun(d, d', j, live[j]);
    }
    forall k | 0 <= k < |d'| && !Inside(live', k) ensures d'[k] == EMPTY {
      if Inside(live, k) {
        var j :| j in live && j <= k < j + live[j];
        assert j == i || j in live';
      }
    }
  }

  /** Freeing what was just allocated restores every flag. */
  lemma AllocThenDealloc(d: seq<bv8>, live: map<nat, nat>, i: nat, pages: nat)
    requires Represents(d, live) && 1 <= pages && AllFree(d, i, pages)
    ensures i !in live && Cleared(Marked(d, i, pages), i, pages) == d && live[i := pages] - {i} == live
  {
    hide IsTaken, IsLast, SetFlag, IsRun, Represents;
    forall k | i <= k < i + pages ensures d[k] == EMPTY {
      FreeCellsEmpty(d, live, k);
    }
    AllocRepresents(d, live, i, pages);
  }

  // ---- The descriptors as a string over free cells and runs ----

  ghost predicate Parses(d: seq<bv8>, i: nat)
    decreases |d| - i
  {
    || i == |d|
    || (i < |d| && d[i] == EMPTY && Parses(d, i + 1))
    || exists len :: 1 <= len <= |d| - i && IsRun(d, i, len) && Parses(d, i + len)
  }

  /** The descriptors are a concatenation of free cells and runs. */
  lemma {:induction false} RepresentsParses(d: seq<bv8>, live: map<nat, nat>, i: nat)
    requires Represents(d, live) && i <= |d|
    requires forall j :: j in live && j < i ==> j + live[j] <= i
    ensures Parses(d, i)
    decreases |d| - i
  {
    hide IsRun;
    if i < |d| {
      if i in live {
        RepresentsRun(d, live, i);
        RepresentsParses(d, live, i + live[i]);
      } else {
        assert !Inside(live, i);
        RepresentsParses(d, live, i + 1);
      }
    }
  }

  // ---- Any run of calls ----

  datatype Call = Alloc(pages: nat) | Dealloc(page: nat)

  datatype Pages = Pages(d: seq<bv8>, live: map<nat, nat>)

  ghost predicate Allowed(s: Pages, c: Call) {
    match c
    case Alloc(pages) => 1 <= pages <= |s.d|
    case Dealloc(page) => page in s.live && page + s.live[page] <= |s.d|
  }

  // What one call does; an allocation that finds no room changes nothing.
  ghost function Step(s: Pages, c: Call): Pages
    requires Allowed(s, c)
  {
    match c
    case Alloc(pages) =>
      var i := Found(s.d, pages, 0);
      if i < |s.d| - pages then Pages(Marked(s.d, i, pages), s.live[i := pages]) else s
    case Dealloc(page) =>
      Pages(Cleared(s.d, page, s.live[page]), s.live - {page})
  }

  ghost predicate Legal(s: Pages, calls: seq<Call>)
    decreases calls
  {
    calls == [] || (Allowed(s, calls[0]) && Legal(Step(s, calls[0]), calls[1..]))
  }

  ghost function Run(s: Pages, calls: seq<Call>): Pages
    requires Legal(s, calls)
    decreases calls
  {
    if calls == [] then s else Run(Step(s, calls[0]), calls[1..])
  }

  // The last page is never handed out.
  ghost predicate Consistent(s: Pages) {
    && Represents(s.d, s.live)
    && forall i :: i in s.live ==> i + s.live[i] < |s.d|
  }

  lemma StepConsistent(s: Pages, c: Call)
    requires Consistent(s) && Allowed(s, c)
    ensures Consistent(Step(s, c)) && |Step(s, c).d| == |s.d|
  {
    hide Represents, Marked;
    match c
    case Alloc(pages) =>
      FoundIsFirst(s.d, pages, 0);
      var i := Found(s.d, pages, 0);
      if i < |s.d| - pages {
        AllocRepresents(s.d, s.live, i, pages);
        MarkedLength(s.d, i, pages);
      }
    case Dealloc(page) =>
      DeallocRepresents(s.d, s.live, page);
  }

  /** Whatever the calls, the descriptors hold exactly the live runs, which are disjoint and leave
      the last page alone. */
  lemma {:induction false} RunConsistent(s: Pages, calls: seq<Call>)
    requires Consistent(s) && Legal(s, calls)
    ensures Consistent(Run(s, calls)) && Parses(Run(s, calls).d, 0) && |Run(s, calls).d| == |s.d|
    decreases calls
  {
    hide Allowed, Step;
    if calls == [] {
      RepresentsParses(s.d, s.live, 0);
    } else {
      StepConsistent(s, calls[0]);
      RunConsistent(Step(s, calls[0]), calls[1..]);
    }
  }

  lemma StartConsistent(n: nat)
    ensures Consistent(Pages(seq(n, _ => EMPTY), map[]))
  {
  }

  // ---- Free pages ----

  // How many of the first m pages are free.
  ghost function FreeAmong(d: seq<bv8>, m: nat): nat
    requires m <= |d|
  {
    if m == 0 then 0 else FreeAmong(d, m - 1) + if IsTaken(d[m - 1]) then 0 else 1
  }

  // The pages that can still be handed out: all free ones but the last.
  ghost function FreePages(d: seq<bv8>): nat {
    if d == [] then 0 else FreeAmong(d, |d| - 1)
  }

  lemma {:induction false} FreeAmongSome(d: seq<bv8>, m: nat)
    requires m <= |d| && FreeAmong(d, m) > 0
    ensures exists i :: 0 <= i < m && AllFree(d, i, 1)
  {
    hide IsTaken;
    if !IsTaken(d[m - 1]) {
      assert AllFree(d, m - 1, 1);
    } else {
      FreeAmongSome(d, m - 1);
    }
  }

  lemma {:induction false} FreeAmongMarked(d: seq<bv8>, i: nat, m: nat)
    requires i < |d| && m <= |d| && !IsTaken(d[i])
    ensures |Marked(d, i, 1)| == |d|
    ensures FreeAmong(Marked(d, i, 1), m) + (if i < m then 1 else 0) == FreeAmong(d, m)
  {
    MarkedOne(d, i);
    hide IsTaken, Marked;
    if m > 0 {
      FreeAmongMarked(d, i, m - 1);
    }
  }

  lemma MarkedOne(d: seq<bv8>, i: nat)
    requires i < |d|
    ensures |Marked(d, i, 1)| == |d| && IsTaken(Marked(d, i, 1)[i])
    ensures forall k :: 0 <= k < |d| && k != i ==> Marked(d, i, 1)[k] == d[k]
  {
    SetTaken(d[i]);
    hide IsTaken, SetFlag;
  }

  lemma SetTaken(f: bv8)
    ensures IsTaken(SetFlag(SetFlag(f, TAKEN), LAST))
  {
  }

  /** A single page can be had while there are free pages, and takes one of them. */
  lemma SinglePage(d: seq<bv8>)
    requires FreePages(d) > 0
    ensures |d| > 1 && Found(d, 1, 0) < |d| - 1
    ensures FreePages(Marked(d, Found(d, 1, 0), 1)) == FreePages(d) - 1
  {
    hide IsTaken, Marked, Found;
    FreeAmongSome(d, |d| - 1);
    FoundIff(d, 1);
    FoundIsFirst(d, 1, 0);
    var i := Found(d, 1, 0);
    assert AllFree(d, i, 1);
    FreeAmongMarked(d, i, |d| - 1);
  }

  // ---- Addresses ----

  // Where the pages start: behind the descriptors, rounded up to a page.
  function AllocStart(heapStart: nat, numPages: nat): (a: nat)
    ensures a % PAGE_SIZE == 0
    ensures heapStart + numPages <= a < heapStart + numPages + PAGE_SIZE
  {
    (heapStart + numPages + PAGE_SIZE - 1) / PAGE_SIZE * PAGE_SIZE
  }

  // Where page i ends.
  function PageEnd(heapStart: nat, numPages: nat, i: nat): nat {
    AllocStart(heapStart, numPages) + PAGE_SIZE * (i + 1)
  }

  lemma StartsAt(a: nat, t: nat)
    ensures (a + PAGE_SIZE - 1) / PAGE_SIZE <= t <==> a <= PAGE_SIZE * t
  {
  }

  /** Every page that can be handed out, all but the last one, lies within the heap if and only if the start of the
      heap, within its page, and the descriptors take no more than one page, or two if what the heap lacks and exceeds
      whole pages by at its ends makes up another one. */
  lemma PagesWithinHeap(heapStart: nat, heapSize: nat)
    ensures var n, o := heapSize / PAGE_SIZE, heapStart % PAGE_SIZE;
            (forall i :: 0 <= i < n - 1 ==> PageEnd(heapStart, n, i) <= heapStart + heapSize) <==>
            n <= 1 || o + n <= PAGE_SIZE * (1 + (o + heapSize % PAGE_SIZE) / PAGE_SIZE)
  {
    var n, r := heapSize / PAGE_SIZE, heapSize % PAGE_SIZE;
    var q, o := heapStart / PAGE_SIZE, heapStart % PAGE_SIZE;
    var t := 1 + (o + r) / PAGE_SIZE;
    var start := (heapStart + n + PAGE_SIZE - 1) / PAGE_SIZE;
    StartsAt(heapStart + n, q + t);
    if n > 1 {
      assert forall i :: 0 <= i < n - 1 ==> PageEnd(heapStart, n, i) <= PageEnd(heapStart, n, n - 2);
      assert PageEnd(heapStart, n, n - 2) <= heapStart + heapSize <==>
             PAGE_SIZE * start <= PAGE_SIZE * q + PAGE_SIZE + (o + r);
      assert PAGE_SIZE * start <= PAGE_SIZE * q + PAGE_SIZE + (o + r) <==> start <= q + t;
    }
  }
}
