/** The allocator itself: nodes are words in memory, linked through the bytes they manage. */
module Malloc {
  import opened Basics
  import opened HeapModel
  import M = HeapModel

  type Memory = map<nat, U32>

  // The address of node i, or NULL behind the last.
  ghost function NodeAt(free: seq<Block>, i: nat): nat {
    if i < |free| then free[i].addr else 0
  }

  // At every node its size and, 4 bytes on, the address of the next.
  ghost predicate Linked(mem: Memory, free: seq<Block>) {
    forall i :: 0 <= i < |free| ==>
      && free[i].addr in mem && mem[free[i].addr] == free[i].size
      && free[i].addr + 4 in mem && mem[free[i].addr + 4] == NodeAt(free, i + 1)
  }

  // At every live block its size.
  ghost predicate Headed(mem: Memory, live: seq<Block>) {
    forall i :: 0 <= i < |live| ==> live[i].addr in mem && mem[live[i].addr] == live[i].size
  }

  // Memory changed in no bookkeeping word of the blocks in s.
  ghost predicate SameHeaders(mem: Memory, mem': Memory, s: seq<Block>) {
    forall i, a :: 0 <= i < |s| && (a == s[i].addr || a == s[i].addr + 4) && a in mem ==> a in mem' && mem'[a] == mem[a]
  }

  class Allocator {
    const base: nat  // &_end
    var mem: Memory
    var begin: nat
    var heapEnd: nat
    ghost var h: Heap

    ghost predicate Valid()
      reads this
    {
      && Tiled(h) && h.start == base && h.end < WORD_LIMIT
      && heapEnd == (if heapEnd == 0 then 0 else h.end)
      && (heapEnd == 0 ==> h.end == base)
      && begin == NodeAt(h.free, 0)
      && Linked(mem, h.free)
      && Headed(mem, h.live)
    }

    constructor (end: nat)
      requires 0 < end < WORD_LIMIT && end % 8 == 0
      ensures Valid() && h == Heap(end, end, [], [])
    {
      base := end;
      mem := map[];
      begin := 0;
      heapEnd := 0;
      h := Heap(end, end, [], []);
      new;
      StartTiles(end);
    }

    // sbrk: moves the break and yields where it was.
    method Sbrk(incr: nat) returns (previous: nat)
      requires (if heapEnd == 0 then base else heapEnd) + incr < WORD_LIMIT
      modifies this`heapEnd
      ensures previous == (if old(heapEnd) == 0 then base else old(heapEnd))
      ensures heapEnd == previous + incr
    {
      if heapEnd == 0 {
        heapEnd := base;
      }
      previous := heapEnd;
      heapEnd := heapEnd + incr;
    }

    // The search for the first node that is large enough, with the node before it.
    method Search(desired: nat) returns (prev: nat, curr: nat, ghost i: nat)
      requires Valid()
      ensures i == FirstFit(h.free, desired)
      ensures curr == NodeAt(h.free, FirstFit(h.free, desired))
      ensures prev == if FirstFit(h.free, desired) == 0 then 0 else h.free[FirstFit(h.free, desired) - 1].addr
    {
      hide Tiled, Headed, Linked, FirstFit;
      ghost var free := h.free;
      prev, curr, i := 0, begin, 0;
      NodesNotNull(h);
      if 0 < |free| {
        NodeWords(mem, free, 0);
      }
      while curr != 0 && mem[curr] < desired
        invariant 0 <= i <= |free|
        invariant curr == NodeAt(free, i)
        invariant prev == if i == 0 then 0 else free[i - 1].addr
        invariant forall k :: 0 <= k < i ==> free[k].size < desired
        invariant i < |free| ==>
                    && curr in mem && mem[curr] == free[i].size
                    && curr + 4 in mem && mem[curr + 4] == NodeAt(free, i + 1)
        decreases |free| - i
      {
        prev, curr, i := curr, mem[curr + 4], i + 1;
        if i < |free| {
          NodeWords(mem, free, i);
        }
      }
      FirstFitIs(free, desired, i);
    }

    // Takes the whole node, which the caller then owns.
    method Unlink(prev: nat, curr: nat, ghost i: nat)
      requires Valid() && i < |h.free| && curr == h.free[i].addr
      requires prev == if i == 0 then 0 else h.free[i - 1].addr
      modifies this`mem, this`begin, this`h
      ensures Valid() && h == old(h.(free := Without(h.free, i), live := h.live + [h.free[i]]))
      ensures SameHeaders(old(mem), mem, old(h.live))
    {
      hide Tiled, Linked, Headed, SameHeaders, Without;
      NodesNotNull(h);
      UnlinkLinks(mem, h, i);
      ExactFitTiles(h, i);
      NodeWords(mem, h.free, i);
      if prev == 0 {
        begin := mem[curr + 4];
      } else {
        mem := mem[prev + 4 := mem[curr + 4]];
      }
      h := h.(free := Without(h.free, i), live := h.live + [h.free[i]]);
    }

    // Cuts the block off the end of the node.
    method Carve(curr: nat, desired: nat, ghost i: nat) returns (temp: nat)
      requires Valid() && i < |h.free| && curr == h.free[i].addr
      requires desired % 8 == 0 && desired < h.free[i].size
      modifies this`mem, this`h
      ensures temp == old(h.free[i].addr + (h.free[i].size - desired))
      ensures temp < WORD_LIMIT && mem == old(mem)[curr := temp - curr][temp := desired]
      ensures h == old(h.(free := h.free[i := Block(h.free[i].addr, h.free[i].size - desired)],
                          live := h.live + [Block(h.free[i].addr + (h.free[i].size - desired), desired)]))
      ensures desired != 0 ==> Valid() && SameHeaders(old(mem), mem, old(h.live))
    {
      hide Tiled, Linked, Headed, SameHeaders;
      FreeIsPlaced(h, i);
      NodeWords(mem, h.free, i);
      if desired != 0 {
        CarveLinks(mem, h, i, h.free[i].size - desired);
        CarveTiles(h, i, h.free[i].size - desired);
      }
      var rest := mem[curr] - desired;
      mem := mem[curr := rest];
      temp := curr + rest;
      mem := mem[temp := desired];
      h := h.(free := h.free[i := Block(curr, rest)], live := h.live + [Block(temp, desired)]);
    }

    // The branch of malloc that asks for 8192 bytes and leaves what it does not need on the free list.
    method GrowByChunk(desired: nat) returns (newMemory: nat)
      requires Valid() && desired % 8 == 0 && desired < CHUNK && h.end + CHUNK < WORD_LIMIT
      modifies this
      ensures newMemory == old(h.end + (CHUNK - desired))
      ensures old(begin) < WORD_LIMIT
      ensures mem == old(mem[h.end := CHUNK - desired][h.end + 4 := begin][h.end + (CHUNK - desired) := desired])
      ensures begin == old(h.end) && heapEnd == old(h.end) + CHUNK
      ensures h == old(Heap(h.start, h.end + CHUNK, [Block(h.end, CHUNK - desired)] + h.free,
                            h.live + [Block(h.end + (CHUNK - desired), desired)]))
      ensures desired != 0 ==> Valid() && SameHeaders(old(mem), mem, old(h.live))
    {
      hide Tiled, Linked, Headed, SameHeaders;
      var freeSize := CHUNK - desired;
      BeginIsWord(h);
      GrowLinks(mem, h, freeSize, desired);
      if desired != 0 {
        GrowTiles(h, Block(h.end, freeSize), Block(h.end + freeSize, desired));
      }
      var temp := Sbrk(CHUNK);
      newMemory := temp + freeSize;
      mem := mem[temp := freeSize];
      mem := mem[temp + 4 := begin];
      begin := temp;
      mem := mem[newMemory := desired];
      h := Heap(h.start, h.end + CHUNK, [Block(h.end, freeSize)] + h.free, h.live + [Block(h.end + freeSize, desired)]);
    }

    // The branch of malloc that asks for no more than it needs.
    method GrowExactly(desired: U32) returns (temp: nat)
      requires Valid() && desired % 8 == 0 && 8 <= desired && h.end + desired < WORD_LIMIT
      modifies this
      ensures temp == old(h.end) && Valid() && SameHeaders(old(mem), mem, old(h.live))
      ensures h == old(h.(end := h.end + desired, live := h.live + [Block(h.end, desired)]))
    {
      hide Tiled, Linked, Headed, SameHeaders;
      ExtendLinks(mem, h, desired);
      ExtendTiles(h, Block(h.end, desired));
      temp := Sbrk(desired);
      mem := mem[temp := desired];
      h := h.(end := h.end + desired, live := h.live + [Block(h.end, desired)]);
    }

    /** Allocates size bytes, rounded up, behind 8 bytes of bookkeeping. If rounding up wraps to 0 it writes a header
        behind the end of the first node, or of the heap. */
    method Malloc(size: U32) returns (ptr: nat)
      requires Valid() && CanMalloc(h, size)
      modifies this
      ensures h == M.Malloc(old(h), size)
      ensures h.live != [] && ptr == h.live[|h.live| - 1].addr + 8
      ensures DesiredSize(size) != 0 ==> Valid() && SameHeaders(old(mem), mem, old(h.live))
      ensures DesiredSize(size) == 0 && old(h.free) != [] ==>
                && ptr == old(h.free[0].addr + h.free[0].size) + 8 && old(h.free[0].size) < WORD_LIMIT
                && mem == old(mem)[old(h.free[0].addr) := old(h.free[0].size)][ptr - 8 := 0]
                && begin == old(begin) && heapEnd == old(heapEnd)
      ensures DesiredSize(size) == 0 && old(h.free) == [] ==>
                && ptr == old(h.end) + CHUNK + 8 && old(begin) < WORD_LIMIT
                && mem == old(mem)[old(h.end) := CHUNK][old(h.end) + 4 := old(begin)][ptr - 8 := 0]
                && begin == old(h.end) && heapEnd == old(h.end) + CHUNK
    {
      hide Tiled, Linked, Headed, SameHeaders, DesiredSize, FirstFit, M.Malloc;
      DesiredSizeSuffices(size);
      MallocCases(h, size);
      var desired := DesiredSize(size);
      var prev, curr, i := Search(desired);
      NodesNotNull(h);
      FirstOfAll(h.free);
      if curr != 0 {
        NodeWords(mem, h.free, i);
        FreeIsPlaced(h, i);
        if mem[curr] == desired {
          Unlink(prev, curr, i);
          ptr := curr + 8;
        } else {
          var temp := Carve(curr, desired, i);
          ptr := temp + 8;
        }
      } else if desired < CHUNK {
        var newMemory := GrowByChunk(desired);
        ptr := newMemory + 8;
      } else {
        var temp := GrowExactly(desired);
        ptr := temp + 8;
      }
    }

    /** Frees a live block. */
    method Free(ptr: nat, ghost i: nat)
      requires Valid() && IsLive(h, ptr, i)
      modifies this`mem, this`begin, this`h
      ensures Valid() && h == M.Free(old(h), i)
      ensures SameHeaders(old(mem), mem, h.live)
    {
      hide Tiled, Linked, Headed, SameHeaders, Without;
      var temp := ptr - 8;
      LiveIsSmall(h, i);
      BeginIsWord(h);
      LinkPrepend(mem, h, i, begin);
      FreeTiles(h, i);
      mem := mem[temp + 4 := begin];
      begin := temp;
      h := M.Free(h, i);
    }

    /** A client writing into a block it owns leaves the allocator as it was. */
    method ClientWrite(a: nat, v: U32, ghost i: nat)
      requires Valid() && i < |h.live|
      requires h.live[i].addr + 8 <= a && a + 4 <= h.live[i].addr + h.live[i].size
      modifies this`mem
      ensures Valid() && SameHeaders(old(mem), mem, h.free) && SameHeaders(old(mem), mem, h.live)
      ensures mem == old(mem)[a := v]
    {
      hide Tiled, Linked, Headed, SameHeaders, Avoids;
      PayloadAvoids(h, i, a);
      WriteElsewhere(mem, a, v, h.free);
      WriteElsewhere(mem, a, v, h.live);
      mem := mem[a := v];
    }
  }

  // ---- Headers of different blocks are different words ----

  lemma MallocCases(h: Heap, size: U32)
    ensures var desired, i, h' := DesiredSize(size), FirstFit(h.free, DesiredSize(size)), M.Malloc(h, size);
            && (i < |h.free| && h.free[i].size == desired ==>
                  h' == h.(free := Without(h.free, i), live := h.live + [h.free[i]]))
            && (i < |h.free| && h.free[i].size > desired ==>
                  h' == h.(free := h.free[i := Block(h.free[i].addr, h.free[i].size - desired)],
                           live := h.live + [Block(h.free[i].addr + (h.free[i].size - desired), desired)]))
            && (i == |h.free| && desired < CHUNK ==>
                  h' == Heap(h.start, h.end + CHUNK, [Block(h.end, CHUNK - desired)] + h.free,
                             h.live + [Block(h.end + (CHUNK - desired), desired)]))
            && (i == |h.free| && desired >= CHUNK ==>
                  h' == h.(end := h.end + desired, live := h.live + [Block(h.end, desired)]))
  {
    hide FirstFit, DesiredSize;
  }

  lemma FirstOfAll(free: seq<Block>)
    ensures free != [] ==> FirstFit(free, 0) == 0
    ensures free == [] ==> FirstFit(free, 0) == |free|
  {
  }

  /** What a request that wraps to 0 does to a live block behind the first node: its header is gone. */
  lemma HeaderLost(mem: Memory, h: Heap, i: nat)
    requires h.free != [] && i < |h.live| && h.live[i].addr == h.free[0].addr + h.free[0].size && h.live[i].size > 0
    ensures !Headed(mem[h.live[i].addr := 0], h.live)
  {
    assert mem[h.live[i].addr := 0][h.live[i].addr] == 0;
  }

  lemma NodesNotNull(h: Heap)
    requires Tiled(h)
    ensures forall i :: 0 <= i < |h.free| ==> h.free[i].addr != 0
  {
    forall i | 0 <= i < |h.free| ensures h.free[i].addr != 0 {
      assert WellPlaced(h.free[i], h.start, h.end);
    }
  }

  lemma FirstFitIs(free: seq<Block>, desired: nat, i: nat)
    requires i <= |free| && (forall k :: 0 <= k < i ==> free[k].size < desired)
    requires i < |free| ==> free[i].size >= desired
    ensures i == FirstFit(free, desired)
  {
  }

  lemma LiveIsSmall(h: Heap, i: nat)
    requires Tiled(h) && i < |h.live|
    ensures 0 < h.live[i].addr && h.live[i].addr + 8 <= h.end
  {
    assert WellPlaced(h.live[i], h.start, h.end);
  }

  // Address a is no bookkeeping word of the blocks in s.
  ghost predicate Avoids(s: seq<Block>, a: nat) {
    forall k :: 0 <= k < |s| ==> s[k].addr != a && s[k].addr + 4 != a
  }

  // Neither word of a header at a, when it lies within block b, is a bookkeeping word of block c.
  lemma InsideAvoids(b: Block, c: Block, a: nat, start: nat, end: nat)
    requires WellPlaced(c, start, end) && (Disjoint(b, c) || Disjoint(c, b))
    requires a % 8 == 0 && b.addr <= a && a + 8 <= b.addr + b.size
    ensures c.addr != a && c.addr + 4 != a && c.addr != a + 4 && c.addr + 4 != a + 4
  {
  }

  lemma LiveAvoids(h: Heap, i: nat)
    requires Tiled(h) && i < |h.live|
    ensures Avoids(h.free, h.live[i].addr + 4) && Avoids(Without(h.live, i), h.live[i].addr + 4)
  {
    hide Bytes, AllCovered;
    var b := h.live[i];
    assert WellPlaced(b, h.start, h.end);
    forall k | 0 <= k < |h.free| ensures h.free[k].addr != b.addr + 4 && h.free[k].addr + 4 != b.addr + 4 {
      InsideAvoids(b, h.free[k], b.addr, h.start, h.end);
    }
    WithoutIndex(h.live, i);
    hide Without;
    var l := Without(h.live, i);
    forall k | 0 <= k < |l| ensures l[k].addr != b.addr + 4 && l[k].addr + 4 != b.addr + 4 {
      InsideAvoids(b, h.live[if k < i then k else k + 1], b.addr, h.start, h.end);
    }
  }

  lemma FreeAvoids(h: Heap, i: nat, a: nat)
    requires Tiled(h) && i < |h.free|
    requires a % 8 == 0 && h.free[i].addr <= a && a + 8 <= h.free[i].addr + h.free[i].size
    ensures forall k :: 0 <= k < |h.free| && k != i ==>
              h.free[k].addr != a && h.free[k].addr + 4 != a && h.free[k].addr != a + 4 && h.free[k].addr + 4 != a + 4
    ensures Avoids(h.live, a) && Avoids(h.live, a + 4)
  {
    hide Bytes, AllCovered;
    forall k | 0 <= k < |h.free| && k != i
      ensures h.free[k].addr != a && h.free[k].addr + 4 != a && h.free[k].addr != a + 4 && h.free[k].addr + 4 != a + 4
    {
      InsideAvoids(h.free[i], h.free[k], a, h.start, h.end);
    }
    forall k | 0 <= k < |h.live|
      ensures h.live[k].addr != a && h.live[k].addr + 4 != a && h.live[k].addr != a + 4 && h.live[k].addr + 4 != a + 4
    {
      InsideAvoids(h.free[i], h.live[k], a, h.start, h.end);
    }
  }

  lemma WriteElsewhere(mem: Memory, a: nat, v: U32, s: seq<Block>)
    requires Avoids(s, a)
    ensures Linked(mem, s) ==> Linked(mem[a := v], s)
    ensures Headed(mem, s) ==> Headed(mem[a := v], s)
    ensures SameHeaders(mem, mem[a := v], s)
  {
  }

  lemma SameHeadersTransitive(mem0: Memory, mem1: Memory, mem2: Memory, s: seq<Block>)
    requires SameHeaders(mem0, mem1, s) && SameHeaders(mem1, mem2, s)
    ensures SameHeaders(mem0, mem2, s)
  {
  }

  lemma HeadedWithout(mem: Memory, live: seq<Block>, i: nat)
    requires i < |live| && Headed(mem, live)
    ensures Headed(mem, Without(live, i))
  {
    WithoutIndex(live, i);
    hide Without;
  }

  lemma HeadedAppend(mem: Memory, live: seq<Block>, b: Block)
    requires Headed(mem, live) && b.addr in mem && mem[b.addr] == b.size
    ensures Headed(mem, live + [b])
  {
  }

  lemma LinkedPrepend(mem: Memory, b: Block, free: seq<Block>)
    requires Linked(mem, free) && b.addr in mem && mem[b.addr] == b.size
    requires b.addr + 4 in mem && mem[b.addr + 4] == NodeAt(free, 0)
    ensures Linked(mem, [b] + free)
  {
  }

  lemma LinkPrepend(mem: Memory, h: Heap, i: nat, begin: U32)
    requires Tiled(h) && i < |h.live| && begin == NodeAt(h.free, 0) && Linked(mem, h.free) && Headed(mem, h.live)
    ensures var mem' := mem[h.live[i].addr + 4 := begin];
            && Linked(mem', [h.live[i]] + h.free)
            && Headed(mem', Without(h.live, i))
            && SameHeaders(mem, mem', Without(h.live, i))
  {
    hide Tiled, Linked, Headed, SameHeaders, Avoids, Without;
    LiveAvoids(h, i);
    LiveHeader(mem, h.live, i);
    var b := h.live[i];
    HeadedWithout(mem, h.live, i);
    WriteElsewhere(mem, b.addr + 4, begin, h.free);
    WriteElsewhere(mem, b.addr + 4, begin, Without(h.live, i));
    LinkedPrepend(mem[b.addr + 4 := begin], b, h.free);
  }

  lemma LiveHeader(mem: Memory, live: seq<Block>, i: nat)
    requires i < |live| && Headed(mem, live)
    ensures live[i].addr in mem && mem[live[i].addr] == live[i].size
  {
  }

  // Node i leaves the list: the start of the list, or the node before it, skips it.
  lemma SkipFirst(mem: Memory, free: seq<Block>)
    requires free != [] && Linked(mem, free)
    ensures Linked(mem, Without(free, 0)) && NodeAt(Without(free, 0), 0) == NodeAt(free, 1)
  {
    WithoutIndex(free, 0);
    hide Without, Linked;
    var f' := Without(free, 0);
    forall k | 0 <= k < |f'|
      ensures && f'[k].addr in mem && mem[f'[k].addr] == f'[k].size
              && f'[k].addr + 4 in mem && mem[f'[k].addr + 4] == NodeAt(f', k + 1)
    {
      NodeWords(mem, free, k + 1);
    }
    LinkedIf(mem, f');
  }

  lemma SkipNode(mem: Memory, free: seq<Block>, i: nat, next: U32)
    requires 0 < i < |free| && Linked(mem, free) && next == NodeAt(free, i + 1)
    requires forall k :: 0 <= k < |free| && k != i - 1 ==>
               free[k].addr != free[i - 1].addr + 4 && free[k].addr + 4 != free[i - 1].addr + 4
    ensures Linked(mem[free[i - 1].addr + 4 := next], Without(free, i))
    ensures NodeAt(Without(free, i), 0) == NodeAt(free, 0)
  {
    hide Without, Linked;
    WithoutIndex(free, i);
    var mem', f' := mem[free[i - 1].addr + 4 := next], Without(free, i);
    forall k | 0 <= k < |f'|
      ensures && f'[k].addr in mem' && mem'[f'[k].addr] == f'[k].size
              && f'[k].addr + 4 in mem' && mem'[f'[k].addr + 4] == NodeAt(f', k + 1)
    {
      NodeWords(mem, free, if k < i then k else k + 1);
    }
    LinkedIf(mem', f');
  }

  lemma NodeWords(mem: Memory, free: seq<Block>, k: nat)
    requires k < |free| && Linked(mem, free)
    ensures free[k].addr in mem && mem[free[k].addr] == free[k].size
    ensures free[k].addr + 4 in mem && mem[free[k].addr + 4] == NodeAt(free, k + 1)
  {
  }

  lemma LinkedIf(mem: Memory, free: seq<Block>)
    requires forall k :: 0 <= k < |free| ==>
               && free[k].addr in mem && mem[free[k].addr] == free[k].size
               && free[k].addr + 4 in mem && mem[free[k].addr + 4] == NodeAt(free, k + 1)
    ensures Linked(mem, free)
  {
  }

  lemma SkipTiled(mem: Memory, h: Heap, i: nat, next: U32)
    requires 0 < i < |h.free| && Tiled(h) && Linked(mem, h.free) && next == NodeAt(h.free, i + 1)
    ensures Linked(mem[h.free[i - 1].addr + 4 := next], Without(h.free, i))
    ensures NodeAt(Without(h.free, i), 0) == NodeAt(h.free, 0)
    ensures Avoids(h.live, h.free[i - 1].addr + 4) && h.free[i].addr != h.free[i - 1].addr + 4
  {
    hide Tiled, Linked, Without;
    FreeIsPlaced(h, i - 1);
    FreeAvoids(h, i - 1, h.free[i - 1].addr);
    SkipNode(mem, h.free, i, next);
  }

  lemma UnlinkLinks(mem: Memory, h: Heap, i: nat)
    requires i < |h.free| && Tiled(h) && Linked(mem, h.free) && Headed(mem, h.live)
    ensures i == 0 ==>
              && Linked(mem, Without(h.free, 0)) && NodeAt(Without(h.free, 0), 0) == NodeAt(h.free, 1)
              && Headed(mem, h.live + [h.free[0]]) && SameHeaders(mem, mem, h.live)
    ensures i > 0 ==>
              && NodeAt(h.free, i + 1) < WORD_LIMIT
              && var mem' := mem[h.free[i - 1].addr + 4 := NodeAt(h.free, i + 1)];
                 && Linked(mem', Without(h.free, i)) && NodeAt(Without(h.free, i), 0) == NodeAt(h.free, 0)
                 && Headed(mem', h.live + [h.free[i]]) && SameHeaders(mem, mem', h.live)
  {
    hide Tiled, Linked, Headed, SameHeaders, Without, Avoids;
    NodeWords(mem, h.free, i);
    if i == 0 {
      SkipFirst(mem, h.free);
      HeadedAppend(mem, h.live, h.free[0]);
      SameHeadersReflexive(mem, h.live);
    } else {
      var a, next := h.free[i - 1].addr + 4, mem[h.free[i].addr + 4];
      SkipTiled(mem, h, i, next);
      WriteElsewhere(mem, a, next, h.live);
      HeadedAppend(mem[a := next], h.live, h.free[i]);
    }
  }

  lemma SameHeadersReflexive(mem: Memory, s: seq<Block>)
    ensures SameHeaders(mem, mem, s)
  {
  }

  lemma ResizeNode(mem: Memory, free: seq<Block>, i: nat, rest: U32)
    requires i < |free| && Linked(mem, free)
    requires forall k :: 0 <= k < |free| && k != i ==>
               free[k].addr != free[i].addr && free[k].addr + 4 != free[i].addr
    ensures Linked(mem[free[i].addr := rest], free[i := Block(free[i].addr, rest)])
  {
    hide Linked;
    var mem', f' := mem[free[i].addr := rest], free[i := Block(free[i].addr, rest)];
    forall k | 0 <= k < |f'|
      ensures && f'[k].addr in mem' && mem'[f'[k].addr] == f'[k].size
              && f'[k].addr + 4 in mem' && mem'[f'[k].addr + 4] == NodeAt(f', k + 1)
    {
      NodeWords(mem, free, k);
    }
    LinkedIf(mem', f');
  }

  lemma CarveLinks(mem: Memory, h: Heap, i: nat, rest: nat)
    requires i < |h.free| && Tiled(h) && Linked(mem, h.free) && Headed(mem, h.live)
    requires rest % 8 == 0 && 8 <= rest && rest + 8 <= h.free[i].size < WORD_LIMIT
    ensures var b := h.free[i];
            var mem' := mem[b.addr := rest][b.addr + rest := b.size - rest];
            && Linked(mem', h.free[i := Block(b.addr, rest)])
            && Headed(mem', h.live + [Block(b.addr + rest, b.size - rest)])
            && SameHeaders(mem, mem', h.live)
  {
    hide Tiled, Linked, Headed, SameHeaders;
    var b := h.free[i];
    var f' := h.free[i := Block(b.addr, rest)];
    var mem1 := mem[b.addr := rest];
    FreeIsPlaced(h, i);
    FreeAvoids(h, i, b.addr);
    FreeAvoids(h, i, b.addr + rest);
    ResizeNode(mem, h.free, i, rest);
    assert Avoids(f', b.addr + rest);
    WriteElsewhere(mem1, b.addr + rest, b.size - rest, f');
    WriteElsewhere(mem, b.addr, rest, h.live);
    WriteElsewhere(mem1, b.addr + rest, b.size - rest, h.live);
    HeadedAppend(mem1[b.addr + rest := b.size - rest], h.live, Block(b.addr + rest, b.size - rest));
    SameHeadersTransitive(mem, mem1, mem1[b.addr + rest := b.size - rest], h.live);
  }

  lemma EndAvoids(h: Heap, a: nat)
    requires Tiled(h) && a >= h.end
    ensures Avoids(h.free, a) && Avoids(h.live, a)
  {
    forall k | 0 <= k < |h.free| ensures h.free[k].addr + 8 <= h.end {
      assert WellPlaced(h.free[k], h.start, h.end);
    }
    forall k | 0 <= k < |h.live| ensures h.live[k].addr + 8 <= h.end {
      assert WellPlaced(h.live[k], h.start, h.end);
    }
  }

  lemma ExtendLinks(mem: Memory, h: Heap, desired: U32)
    requires Tiled(h) && Linked(mem, h.free) && Headed(mem, h.live)
    ensures var mem' := mem[h.end := desired];
            && Linked(mem', h.free)
            && Headed(mem', h.live + [Block(h.end, desired)])
            && SameHeaders(mem, mem', h.live)
  {
    hide Tiled, Linked, Headed, SameHeaders, Avoids;
    EndAvoids(h, h.end);
    WriteElsewhere(mem, h.end, desired, h.free);
    WriteElsewhere(mem, h.end, desired, h.live);
    HeadedAppend(mem[h.end := desired], h.live, Block(h.end, desired));
  }

  lemma GrowLinks(mem: Memory, h: Heap, freeSize: U32, desired: U32)
    requires Tiled(h) && Linked(mem, h.free) && Headed(mem, h.live)
    requires freeSize >= 8 && h.end < WORD_LIMIT
    ensures NodeAt(h.free, 0) < WORD_LIMIT
    ensures var mem' := mem[h.end := freeSize][h.end + 4 := NodeAt(h.free, 0)][h.end + freeSize := desired];
            && Linked(mem', [Block(h.end, freeSize)] + h.free)
            && Headed(mem', h.live + [Block(h.end + freeSize, desired)])
            && SameHeaders(mem, mem', h.live)
  {
    hide Tiled, Linked, Headed, SameHeaders, Avoids;
    BeginIsWord(h);
    EndAvoids(h, h.end);
    EndAvoids(h, h.end + 4);
    EndAvoids(h, h.end + freeSize);
    var mem1 := mem[h.end := freeSize];
    var mem2 := mem1[h.end + 4 := NodeAt(h.free, 0)];
    var mem3 := mem2[h.end + freeSize := desired];
    WriteElsewhere(mem, h.end, freeSize, h.free);
    WriteElsewhere(mem1, h.end + 4, NodeAt(h.free, 0), h.free);
    WriteElsewhere(mem2, h.end + freeSize, desired, h.free);
    LinkedPrepend(mem3, Block(h.end, freeSize), h.free);
    WriteElsewhere(mem, h.end, freeSize, h.live);
    WriteElsewhere(mem1, h.end + 4, NodeAt(h.free, 0), h.live);
    WriteElsewhere(mem2, h.end + freeSize, desired, h.live);
    HeadedAppend(mem3, h.live, Block(h.end + freeSize, desired));
    SameHeadersTransitive(mem, mem1, mem2, h.live);
    SameHeadersTransitive(mem, mem2, mem3, h.live);
  }

  lemma BeginIsWord(h: Heap)
    requires Tiled(h) && h.end < WORD_LIMIT
    ensures NodeAt(h.free, 0) < WORD_LIMIT
  {
    if h.free != [] {
      assert WellPlaced(h.free[0], h.start, h.end);
    }
  }

  lemma PayloadAvoids(h: Heap, i: nat, a: nat)
    requires Tiled(h) && i < |h.live|
    requires h.live[i].addr + 8 <= a && a + 4 <= h.live[i].addr + h.live[i].size
    ensures Avoids(h.free, a) && Avoids(h.live, a)
  {
    hide Bytes, AllCovered;
    var b := h.live[i];
    forall k | 0 <= k < |h.free| ensures h.free[k].addr != a && h.free[k].addr + 4 != a {
      assert WellPlaced(h.free[k], h.start, h.end) && Disjoint(h.free[k], b);
    }
    forall k | 0 <= k < |h.live| ensures h.live[k].addr != a && h.live[k].addr + 4 != a {
      assert WellPlaced(h.live[k], h.start, h.end);
      assert k == i || Disjoint(h.live[k], b) || Disjoint(b, h.live[k]);
    }
  }
}
