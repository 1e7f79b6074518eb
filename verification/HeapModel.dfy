/** What malloc, free and sbrk do to the blocks of the heap. */
module HeapModel {

  import opened Basics

  const WORD_LIMIT: nat := 0x1_0000_0000
  const CHUNK: nat := 8192

  // A free node or a live block: size counts the 8 bookkeeping bytes at addr.
  datatype Block = Block(addr: nat, size: nat) {
    ghost predicate Contains(x: int) {
      addr <= x < addr + size
    }
  }

  // free is in list order, live in order of allocation.
  datatype Heap = Heap(start: nat, end: nat, free: seq<Block>, live: seq<Block>)

  function RoundUp(num: U32): U32 {
    var rem := num % 8;
    if rem == 0 then num else (num + 8 - rem) % WORD_LIMIT
  }

  function DesiredSize(size: U32): U32 {
    (RoundUp(size) + 8) % WORD_LIMIT
  }

  lemma RoundedUp(num: U32)
    ensures num <= 0xffff_fff8 ==> RoundUp(num) % 8 == 0 && num <= RoundUp(num) < num + 8
    ensures num > 0xffff_fff8 ==> RoundUp(num) == 0
  {
  }

  /** The block has room for the request unless rounding up wraps around. */
  lemma DesiredSizeSuffices(size: U32)
    ensures DesiredSize(size) % 8 == 0
    ensures DesiredSize(size) >= size + 8 <==> size <= 0xffff_fff0
    ensures size <= 0xffff_fff0 ==> DesiredSize(size) < size + 16
    ensures DesiredSize(size) == 0 <==> 0xffff_fff0 < size <= 0xffff_fff8
    ensures size > 0xffff_fff8 ==> DesiredSize(size) == 8
  {
    hide RoundUp;
    RoundedUp(size);
  }

  // The first node that is large enough.
  function FirstFit(free: seq<Block>, desired: nat): (i: nat)
    ensures i <= |free|
    ensures forall k :: 0 <= k < i ==> free[k].size < desired
    ensures i < |free| ==> free[i].size >= desired
  {
    if free == [] || free[0].size >= desired then 0 else 1 + FirstFit(free[1..], desired)
  }

  function Without(s: seq<Block>, i: nat): seq<Block>
    requires i < |s|
  {
    s[..i] + s[i + 1..]
  }

  // How far the break moves when no node fits.
  function Grown(desired: nat): nat {
    if desired < CHUNK then CHUNK else desired
  }

  ghost predicate CanMalloc(h: Heap, size: U32) {
    FirstFit(h.free, DesiredSize(size)) == |h.free| ==> h.end + Grown(DesiredSize(size)) < WORD_LIMIT
  }

  // The heap afterwards; its last live block is the new one.
  ghost function Malloc(h: Heap, size: U32): Heap {
    var desired := DesiredSize(size);
    var i := FirstFit(h.free, desired);
    if i < |h.free| then
      var b := h.free[i];
      if b.size == desired then h.(free := Without(h.free, i), live := h.live + [b])
      else
        var rest := b.size - desired;
        h.(free := h.free[i := Block(b.addr, rest)], live := h.live + [Block(b.addr + rest, desired)])
    else if desired < CHUNK then
      Heap(h.start, h.end + CHUNK,
           [Block(h.end, CHUNK - desired)] + h.free,
           h.live + [Block(h.end + (CHUNK - desired), desired)])
    else h.(end := h.end + desired, live := h.live + [Block(h.end, desired)])
  }

  // Frees live block i.
  ghost function Free(h: Heap, i: nat): Heap
    requires i < |h.live|
  {
    h.(free := [h.live[i]] + h.free, live := Without(h.live, i))
  }

  // ---- The invariant ----

  ghost predicate WellPlaced(b: Block, start: nat, end: nat) {
    && b.addr % 8 == 0 && b.size % 8 == 0 && b.size >= 8
    && start <= b.addr && b.addr + b.size <= end
  }

  ghost predicate Disjoint(b: Block, c: Block) {
    b.addr + b.size <= c.addr || c.addr + c.size <= b.addr
  }

  ghost predicate AllPlaced(s: seq<Block>, start: nat, end: nat) {
    forall i :: 0 <= i < |s| ==> WellPlaced(s[i], start, end)
  }

  ghost predicate Apart(s: seq<Block>) {
    forall i, j :: 0 <= i < j < |s| ==> Disjoint(s[i], s[j])
  }

  ghost predicate ApartFrom(s: seq<Block>, t: seq<Block>) {
    forall i, j :: 0 <= i < |s| && 0 <= j < |t| ==> Disjoint(s[i], t[j])
  }

  ghost function Bytes(s: seq<Block>): nat {
    if s == [] then 0 else Bytes(s[..|s| - 1]) + s[|s| - 1].size
  }

  ghost predicate Covered(s: seq<Block>, x: int) {
    exists i :: 0 <= i < |s| && s[i].Contains(x)
  }

  ghost predicate AllCovered(s: seq<Block>, t: seq<Block>, start: nat, end: nat) {
    forall x :: start <= x < end ==> Covered(s, x) || Covered(t, x)
  }

  // Free nodes and live blocks tile the bytes from start to end.
  ghost predicate Tiled(h: Heap) {
    && h.start % 8 == 0 && h.end % 8 == 0 && 0 < h.start <= h.end
    && AllPlaced(h.free, h.start, h.end) && AllPlaced(h.live, h.start, h.end)
    && Apart(h.free) && Apart(h.live) && ApartFrom(h.free, h.live)
    && AllCovered(h.free, h.live, h.start, h.end)
    && Bytes(h.free) + Bytes(h.live) == h.end - h.start
  }

  lemma BytesAppend(s: seq<Block>, b: Block)
    ensures Bytes(s + [b]) == Bytes(s) + b.size
  {
    assert (s + [b])[..|s|] == s;
  }

  lemma {:induction false} BytesConcat(s: seq<Block>, t: seq<Block>)
    ensures Bytes(s + t) == Bytes(s) + Bytes(t)
  {
    if t == [] {
      assert s + t == s;
    } else {
      assert s + t == (s + t[..|t| - 1]) + [t[|t| - 1]];
      BytesConcat(s, t[..|t| - 1]);
      BytesAppend(s + t[..|t| - 1], t[|t| - 1]);
    }
  }

  lemma BytesPrepend(s: seq<Block>, b: Block)
    ensures Bytes([b] + s) == b.size + Bytes(s)
  {
    BytesConcat([b], s);
    assert Bytes([b]) == Bytes([]) + b.size;
  }

  lemma BytesWithout(s: seq<Block>, i: nat)
    requires i < |s|
    ensures Bytes(s) == Bytes(Without(s, i)) + s[i].size
  {
    hide Bytes;
    assert s == s[..i] + ([s[i]] + s[i + 1..]);
    BytesConcat(s[..i], [s[i]] + s[i + 1..]);
    BytesPrepend(s[i + 1..], s[i]);
    BytesConcat(s[..i], s[i + 1..]);
  }

  lemma BytesUpdate(s: seq<Block>, i: nat, b: Block)
    requires i < |s|
    ensures Bytes(s[i := b]) + s[i].size == Bytes(s) + b.size
  {
    BytesWithout(s, i);
    BytesWithout(s[i := b], i);
    assert Without(s, i) == Without(s[i := b], i);
  }

  lemma CoveredHolds(s: seq<Block>, i: nat, x: int)
    requires i < |s| && s[i].Contains(x)
    ensures Covered(s, x)
  {
  }

  // A block moved from one list to the other, or cut in two, still covers what it did.
  lemma CoverMoves(s: seq<Block>, t: seq<Block>, i: nat, s': seq<Block>, t': seq<Block>, x: int)
    requires i < |s| && (Covered(s, x) || Covered(t, x))
    requires forall k :: 0 <= k < |s| && k != i ==> s[k] in s'
    requires forall k :: 0 <= k < |t| ==> t[k] in t'
    requires s[i].Contains(x) ==> Covered(s', x) || Covered(t', x)
    ensures Covered(s', x) || Covered(t', x)
  {
    if Covered(s, x) {
      var k :| 0 <= k < |s| && s[k].Contains(x);
      if k != i {
        var m :| 0 <= m < |s'| && s'[m] == s[k];
      }
    } else {
      var k :| 0 <= k < |t| && t[k].Contains(x);
      var m :| 0 <= m < |t'| && t'[m] == t[k];
    }
  }

  lemma WithoutKeeps(s: seq<Block>, i: nat, k: nat)
    requires i < |s| && k < |s| && k != i
    ensures s[k] in Without(s, i)
  {
    assert s[k] == Without(s, i)[if k < i then k else k - 1];
  }

  lemma WithoutIndex(s: seq<Block>, i: nat)
    requires i < |s|
    ensures |Without(s, i)| == |s| - 1
    ensures forall k :: 0 <= k < |s| - 1 ==> Without(s, i)[k] == s[if k < i then k else k + 1]
  {
  }

  lemma MoveApart(s: seq<Block>, t: seq<Block>, i: nat)
    requires i < |s| && Apart(s) && Apart(t) && ApartFrom(s, t)
    ensures Apart(Without(s, i)) && Apart(t + [s[i]]) && ApartFrom(Without(s, i), t + [s[i]])
  {
    hide Without;
    WithoutIndex(s, i);
    var s', t' := Without(s, i), t + [s[i]];
    forall a, b | 0 <= a < |s'| && 0 <= b < |t'| ensures Disjoint(s'[a], t'[b]) {
      var a' := if a < i then a else a + 1;
      assert s'[a] == s[a'];
      if b == |t| {
        assert t'[b] == s[i];
        assert a' < i || i < a';
      } else {
        assert t'[b] == t[b];
      }
    }
  }

  lemma ExactFitTiles(h: Heap, i: nat)
    requires Tiled(h) && i < |h.free|
    ensures Tiled(h.(free := Without(h.free, i), live := h.live + [h.free[i]]))
  {
    var f', l' := Without(h.free, i), h.live + [h.free[i]];
    MoveApart(h.free, h.live, i);
    BytesWithout(h.free, i);
    BytesAppend(h.live, h.free[i]);
    forall x | h.start <= x < h.end ensures Covered(f', x) || Covered(l', x) {
      forall k | 0 <= k < |h.free| && k != i ensures h.free[k] in f' {
        WithoutKeeps(h.free, i, k);
      }
      assert l'[|h.live|] == h.free[i];
      assert forall k :: 0 <= k < |h.live| ==> l'[k] == h.live[k];
      CoverMoves(h.free, h.live, i, f', l', x);
    }
  }

  lemma CarveCovers(s: seq<Block>, t: seq<Block>, i: nat, low: Block, high: Block, start: nat, end: nat)
    requires i < |s| && AllCovered(s, t, start, end)
    requires low.addr == s[i].addr && high.addr == low.addr + low.size
    requires high.addr + high.size == s[i].addr + s[i].size
    ensures AllCovered(s[i := low], t + [high], start, end)
  {
    var s', t' := s[i := low], t + [high];
    forall x | start <= x < end ensures Covered(s', x) || Covered(t', x) {
      assert s'[i] == low && t'[|t|] == high;
      assert forall k :: 0 <= k < |s| && k != i ==> s'[k] == s[k];
      assert forall k :: 0 <= k < |t| ==> t'[k] == t[k];
      CoverMoves(s, t, i, s', t', x);
    }
  }

  lemma CarvePlaced(s: seq<Block>, t: seq<Block>, i: nat, rest: nat, start: nat, end: nat)
    requires i < |s| && AllPlaced(s, start, end) && AllPlaced(t, start, end)
    requires rest % 8 == 0 && 8 <= rest && rest + 8 <= s[i].size
    ensures AllPlaced(s[i := Block(s[i].addr, rest)], start, end)
    ensures AllPlaced(t + [Block(s[i].addr + rest, s[i].size - rest)], start, end)
  {
    assert WellPlaced(s[i], start, end);
  }

  // Cutting the last bytes off a node.
  lemma CarveTiles(h: Heap, i: nat, rest: nat)
    requires Tiled(h) && i < |h.free|
    requires rest % 8 == 0 && 8 <= rest && rest + 8 <= h.free[i].size
    ensures var b := h.free[i];
            Tiled(h.(free := h.free[i := Block(b.addr, rest)],
                     live := h.live + [Block(b.addr + rest, b.size - rest)]))
  {
    hide Bytes, Apart, ApartFrom, AllCovered, AllPlaced;
    var b := h.free[i];
    var low, high := Block(b.addr, rest), Block(b.addr + rest, b.size - rest);
    CarvePlaced(h.free, h.live, i, rest, h.start, h.end);
    BytesUpdate(h.free, i, low);
    BytesAppend(h.live, high);
    CarveApart(h.free, h.live, i, low, high);
    CarveCovers(h.free, h.live, i, low, high, h.start, h.end);
  }

  lemma CarveApart(s: seq<Block>, t: seq<Block>, i: nat, low: Block, high: Block)
    requires i < |s| && Apart(s) && Apart(t) && ApartFrom(s, t)
    requires low.addr == s[i].addr && high.addr == low.addr + low.size
    requires high.addr + high.size == s[i].addr + s[i].size
    ensures Apart(s[i := low]) && Apart(t + [high]) && ApartFrom(s[i := low], t + [high])
  {
    var s', t' := s[i := low], t + [high];
    forall a, b | 0 <= a < |s'| && 0 <= b < |t'| ensures Disjoint(s'[a], t'[b]) {
      if b == |t| {
        if a != i {
          assert Disjoint(s[a], s[i]) || Disjoint(s[i], s[a]);
        }
      } else {
        assert Disjoint(s[a], t[b]);
      }
    }
    forall a, b | 0 <= a < b < |s'| ensures Disjoint(s'[a], s'[b]) {
      assert Disjoint(s[a], s[b]);
    }
    forall a, b | 0 <= a < b < |t'| ensures Disjoint(t'[a], t'[b]) {
      if b == |t| {
        assert Disjoint(s[i], t[a]);
      }
    }
  }

  lemma GrowCovers(s: seq<Block>, t: seq<Block>, more: seq<Block>, high: Block, start: nat, end: nat)
    requires AllCovered(s, t, start, end)
    requires forall x :: end <= x < high.addr + high.size ==> Covered(more, x) || high.Contains(x)
    ensures AllCovered(more + s, t + [high], start, high.addr + high.size)
  {
    var s', t' := more + s, t + [high];
    forall x | start <= x < high.addr + high.size ensures Covered(s', x) || Covered(t', x) {
      assert t'[|t|] == high;
      assert forall k :: 0 <= k < |more| ==> s'[k] == more[k];
      assert forall k :: 0 <= k < |s| ==> s'[|more| + k] == s[k];
      assert forall k :: 0 <= k < |t| ==> t'[k] == t[k];
      if x < end {
        assert Covered(s, x) || Covered(t, x);
      }
    }
  }

  lemma GrowApart(s: seq<Block>, t: seq<Block>, more: seq<Block>, high: Block, start: nat, end: nat)
    requires AllPlaced(s, start, end) && AllPlaced(t, start, end)
    requires Apart(s) && Apart(t) && ApartFrom(s, t)
    requires end <= high.addr
    requires more == [] || (|more| == 1 && end <= more[0].addr && more[0].addr + more[0].size <= high.addr)
    ensures Apart(more + s) && Apart(t + [high]) && ApartFrom(more + s, t + [high])
  {
    forall i | 0 <= i < |s| ensures s[i].addr + s[i].size <= end {
      assert WellPlaced(s[i], start, end);
    }
    forall i | 0 <= i < |t| ensures t[i].addr + t[i].size <= end {
      assert WellPlaced(t[i], start, end);
    }
  }

  lemma PlacedWidens(s: seq<Block>, start: nat, end: nat, end': nat)
    requires AllPlaced(s, start, end) && end <= end'
    ensures AllPlaced(s, start, end')
  {
    forall i | 0 <= i < |s| ensures WellPlaced(s[i], start, end') {
      assert WellPlaced(s[i], start, end);
    }
  }

  lemma GrowPlaced(s: seq<Block>, b: Block, start: nat, end: nat, end': nat)
    requires AllPlaced(s, start, end) && start <= end <= b.addr && b.addr + b.size <= end'
    requires b.addr % 8 == 0 && b.size % 8 == 0 && b.size >= 8
    ensures AllPlaced([b] + s, start, end') && AllPlaced(s + [b], start, end')
  {
    PlacedWidens(s, start, end, end');
  }

  // Taking bytes behind the end: low for the free list and high for the caller.
  lemma GrowTiles(h: Heap, low: Block, high: Block)
    requires Tiled(h)
    requires low.addr == h.end && low.size % 8 == 0 && low.size >= 8
    requires high.addr == low.addr + low.size && high.size % 8 == 0 && high.size >= 8
    ensures Tiled(Heap(h.start, high.addr + high.size, [low] + h.free, h.live + [high]))
  {
    hide Bytes, Apart, ApartFrom, AllCovered, AllPlaced;
    BytesPrepend(h.free, low);
    BytesAppend(h.live, high);
    GrowPlaced(h.free, low, h.start, h.end, high.addr + high.size);
    GrowPlaced(h.live, high, h.start, h.end, high.addr + high.size);
    GrowApart(h.free, h.live, [low], high, h.start, h.end);
    forall x | low.Contains(x) ensures Covered([low], x) {
      CoveredHolds([low], 0, x);
    }
    GrowCovers(h.free, h.live, [low], high, h.start, h.end);
  }

  lemma ExtendTiles(h: Heap, high: Block)
    requires Tiled(h) && high.addr == h.end && high.size % 8 == 0 && high.size >= 8
    ensures Tiled(h.(end := high.addr + high.size, live := h.live + [high]))
  {
    hide Bytes, Apart, ApartFrom, AllCovered;
    BytesAppend(h.live, high);
    PlacedWidens(h.free, h.start, h.end, high.addr + high.size);
    PlacedWidens(h.live, h.start, h.end, high.addr + high.size);
    assert [] + h.free == h.free;
    GrowApart(h.free, h.live, [], high, h.start, h.end);
    GrowCovers(h.free, h.live, [], high, h.start, h.end);
  }

  /** Every call of malloc keeps the heap tiled, except in the one range of sizes that wraps
      around to a block without bytes. */
  lemma MallocTiles(h: Heap, size: U32)
    requires Tiled(h)
    ensures Tiled(Malloc(h, size)) <==> !(0xffff_fff0 < size <= 0xffff_fff8)
  {
    var desired := DesiredSize(size);
    DesiredSizeSuffices(size);
    hide Tiled, DesiredSize, FirstFit, Bytes;
    FirstFitTiles(h, size);
    if desired == 0 {
      EmptyBlockRefused(h, size);
    }
  }

  lemma EmptyBlockRefused(h: Heap, size: U32)
    requires DesiredSize(size) == 0
    ensures !Tiled(Malloc(h, size))
  {
    hide DesiredSize, FirstFit, Bytes;
    var h' := Malloc(h, size);
    assert h'.live[|h'.live| - 1].size == 0;
  }

  lemma FreeIsPlaced(h: Heap, i: nat)
    requires Tiled(h) && i < |h.free|
    ensures WellPlaced(h.free[i], h.start, h.end)
  {
  }

  lemma FirstFitTiles(h: Heap, size: U32)
    requires Tiled(h)
    ensures DesiredSize(size) != 0 ==> Tiled(Malloc(h, size))
  {
    hide Tiled, Bytes, DesiredSize, FirstFit;
    DesiredSizeSuffices(size);
    var desired := DesiredSize(size);
    var i := FirstFit(h.free, desired);
    if desired != 0 {
      if i < |h.free| {
        var b := h.free[i];
        FreeIsPlaced(h, i);
        if b.size == desired {
          ExactFitTiles(h, i);
        } else {
          CarveTiles(h, i, b.size - desired);
        }
      } else if desired < CHUNK {
        GrowTiles(h, Block(h.end, CHUNK - desired), Block(h.end + (CHUNK - desired), desired));
      } else {
        ExtendTiles(h, Block(h.end, desired));
      }
    }
  }

  lemma FreeApart(s: seq<Block>, t: seq<Block>, i: nat)
    requires i < |t| && Apart(s) && Apart(t) && ApartFrom(s, t)
    ensures Apart([t[i]] + s) && Apart(Without(t, i)) && ApartFrom([t[i]] + s, Without(t, i))
  {
    hide Without;
    WithoutIndex(t, i);
    var s', t' := [t[i]] + s, Without(t, i);
    forall a, b | 0 <= a < |s'| && 0 <= b < |t'| ensures Disjoint(s'[a], t'[b]) {
      var b' := if b < i then b else b + 1;
      assert t'[b] == t[b'];
      if a == 0 {
        assert Disjoint(t[b'], t[i]) || Disjoint(t[i], t[b']);
      } else {
        assert Disjoint(s[a - 1], t[b']);
      }
    }
    forall a, b | 0 <= a < b < |s'| ensures Disjoint(s'[a], s'[b]) {
      if a == 0 {
        assert Disjoint(s[b - 1], t[i]);
      } else {
        assert Disjoint(s[a - 1], s[b - 1]);
      }
    }
  }

  lemma FreePlaced(s: seq<Block>, t: seq<Block>, i: nat, start: nat, end: nat)
    requires i < |t| && AllPlaced(s, start, end) && AllPlaced(t, start, end)
    ensures AllPlaced([t[i]] + s, start, end) && AllPlaced(Without(t, i), start, end)
  {
    hide WellPlaced;
    WithoutIndex(t, i);
  }

  lemma FreeCovers(s: seq<Block>, t: seq<Block>, i: nat, start: nat, end: nat)
    requires i < |t| && AllCovered(s, t, start, end)
    ensures AllCovered([t[i]] + s, Without(t, i), start, end)
  {
    hide Without, Covered;
    var s', t' := [t[i]] + s, Without(t, i);
    forall k | 0 <= k < |t| && k != i ensures t[k] in t' {
      WithoutKeeps(t, i, k);
    }
    assert s'[0] == t[i];
    forall k | 0 <= k < |s| ensures s[k] in s' {
      assert s'[k + 1] == s[k];
    }
    forall x | start <= x < end ensures Covered(s', x) || Covered(t', x) {
      if t[i].Contains(x) {
        CoveredHolds(s', 0, x);
      }
      CoverMoves(t, s, i, t', s', x);
    }
  }

  lemma FreeTiles(h: Heap, i: nat)
    requires Tiled(h) && i < |h.live|
    ensures Tiled(Free(h, i))
  {
    hide Bytes, Apart, ApartFrom, AllCovered, AllPlaced;
    FreePlaced(h.free, h.live, i, h.start, h.end);
    FreeApart(h.free, h.live, i);
    FreeCovers(h.free, h.live, i, h.start, h.end);
    BytesWithout(h.live, i);
    BytesPrepend(h.free, h.live[i]);
  }

  // ---- First fit and reuse ----

  /** The break moves exactly when every free node is too small. */
  lemma BreakMovesOnlyIfNothingFits(h: Heap, size: U32)
    requires DesiredSize(size) != 0
    ensures Malloc(h, size).end != h.end <==> forall k :: 0 <= k < |h.free| ==> h.free[k].size < DesiredSize(size)
  {
    hide DesiredSize;
    assert FirstFit(h.free, DesiredSize(size)) < |h.free| ==>
           h.free[FirstFit(h.free, DesiredSize(size))].size >= DesiredSize(size);
  }

  /** Otherwise the new block is the end of the first node that fits, and no other node changes. */
  lemma ServedByFirstFit(h: Heap, size: U32, i: nat)
    requires i < |h.free| && h.free[i].size >= DesiredSize(size)
    requires forall k :: 0 <= k < i ==> h.free[k].size < DesiredSize(size)
    ensures var h' := Malloc(h, size);
            && h'.live == h.live + [Block(h.free[i].addr + (h.free[i].size - DesiredSize(size)), DesiredSize(size))]
            && h'.free[..i] == h.free[..i]
            && (if h.free[i].size == DesiredSize(size) then h'.free[i..] == h.free[i + 1..]
                else h'.free[i..] == [Block(h.free[i].addr, h.free[i].size - DesiredSize(size))] + h.free[i + 1..])
  {
    hide DesiredSize;
    assert FirstFit(h.free, DesiredSize(size)) == i;
  }

  /** If none fits, the block is the last part of 8192 new bytes, of which the rest becomes the first node, or all of
      what is new where 8192 bytes are too few. */
  lemma ServedByGrowing(h: Heap, size: U32)
    requires forall k :: 0 <= k < |h.free| ==> h.free[k].size < DesiredSize(size)
    ensures var h', n := Malloc(h, size), DesiredSize(size);
            if n < 8192
            then h'.end == h.end + 8192 && h'.live == h.live + [Block(h'.end - n, n)]
                && h'.free == [Block(h.end, 8192 - n)] + h.free
            else h'.end == h.end + n && h'.live == h.live + [Block(h.end, n)] && h'.free == h.free
  {
    hide DesiredSize;
    if FirstFit(h.free, DesiredSize(size)) < |h.free| {
      assert false;
    }
  }

  /** Freeing a block and asking for one of the same rounded size gives it back, and leaves the
      free list and the break as they were. */
  lemma FreeThenMalloc(h: Heap, i: nat, size: U32)
    requires i < |h.live| && h.live[i].size == DesiredSize(size)
    ensures Malloc(Free(h, i), size) == h.(live := Without(h.live, i) + [h.live[i]])
  {
    hide DesiredSize;
    var f := [h.live[i]] + h.free;
    assert FirstFit(f, DesiredSize(size)) == 0;
    assert Without(f, 0) == h.free;
  }

  // ---- Any run of calls ----

  datatype Call = Take(size: U32) | Give(ptr: nat)

  ghost predicate IsLive(h: Heap, ptr: nat, i: nat) {
    i < |h.live| && h.live[i].addr + 8 == ptr
  }

  ghost predicate Allowed(h: Heap, c: Call) {
    match c
    case Take(size) => CanMalloc(h, size) && DesiredSize(size) != 0
    case Give(ptr) => exists i :: IsLive(h, ptr, i)
  }

  ghost function Step(h: Heap, c: Call): Heap
    requires Allowed(h, c)
  {
    match c
    case Take(size) => Malloc(h, size)
    case Give(ptr) =>
      var i :| IsLive(h, ptr, i);
      Free(h, i)
  }

  ghost predicate Legal(h: Heap, calls: seq<Call>)
    decreases calls
  {
    calls == [] || (Allowed(h, calls[0]) && Legal(Step(h, calls[0]), calls[1..]))
  }

  ghost function Run(h: Heap, calls: seq<Call>): Heap
    requires Legal(h, calls)
    decreases calls
  {
    if calls == [] then h else Run(Step(h, calls[0]), calls[1..])
  }

  lemma StepTiles(h: Heap, c: Call)
    requires Tiled(h) && Allowed(h, c)
    ensures Tiled(Step(h, c))
  {
    hide Tiled, DesiredSize, Malloc, Free;
    match c
    case Take(size) =>
      FirstFitTiles(h, size);
    case Give(ptr) =>
      var i :| IsLive(h, ptr, i) && Step(h, c) == Free(h, i);
      FreeTiles(h, i);
  }

  /** Whatever the calls, free nodes and live blocks tile exactly what sbrk handed out. */
  lemma {:induction false} RunTiles(h: Heap, calls: seq<Call>)
    requires Tiled(h) && Legal(h, calls)
    ensures Tiled(Run(h, calls))
    decreases calls
  {
    hide Tiled, Allowed, Step;
    if calls != [] {
      StepTiles(h, calls[0]);
      RunTiles(Step(h, calls[0]), calls[1..]);
    }
  }

  lemma StartTiles(start: nat)
    requires start > 0 && start % 8 == 0
    ensures Tiled(Heap(start, start, [], []))
  {
  }

  lemma StepKeeps(h: Heap, c: Call, b: Block)
    requires Allowed(h, c) && b in h.live && c != Give(b.addr + 8)
    ensures b in Step(h, c).live
  {
    hide DesiredSize, FirstFit;
    match c
    case Take(size) =>
      var l' := Malloc(h, size).live;
      var k :| 0 <= k < |h.live| && h.live[k] == b;
      assert l'[k] == b;
    case Give(ptr) =>
      var i :| IsLive(h, ptr, i) && Step(h, c) == Free(h, i);
      var k :| 0 <= k < |h.live| && h.live[k] == b;
      WithoutKeeps(h.live, i, k);
  }

  /** A block stays live, at its address and with its size, until it is freed. */
  lemma {:induction false} RunKeeps(h: Heap, calls: seq<Call>, b: Block)
    requires Legal(h, calls) && b in h.live && Give(b.addr + 8) !in calls
    ensures b in Run(h, calls).live
    decreases calls
  {
    hide Allowed, Step;
    if calls != [] {
      assert calls[0] in calls;
      StepKeeps(h, calls[0], b);
      RunKeeps(Step(h, calls[0]), calls[1..], b);
    }
  }
}
