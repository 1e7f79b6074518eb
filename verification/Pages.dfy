/** The page allocator and the page tables built on it, in memory. */
module Pages {
  import opened Arithmetic
  import opened Basics
  import opened PageModel
  import opened TableModel
  import opened TableTree
  import opened Translation
  import P = PageModel

  // Tables are single allocated pages.
  ghost predicate OwnPages(live: map<nat, nat>, f: Forest) {
    forall p :: p in f.level ==> 0 <= p && p as nat in live && live[p as nat] == 1
  }

  class PageHeap {
    const heapStart: nat
    const numPages: nat
    const allocStart: nat
    const flags: array<bv8>
    const words: array<U64>  // the memory of the pages themselves
    ghost var live: map<nat, nat>
    ghost var forest: Forest

    ghost const base: nat := allocStart / PAGE_SIZE

    ghost predicate Shape()
      reads this
    {
      && flags.Length == numPages && words.Length == ENTRIES * numPages
      && allocStart == AllocStart(heapStart, numPages) > 0
      && allocStart + PAGE_SIZE * numPages < WORD
    }

    // What the allocator alone keeps.
    ghost predicate Allocating()
      reads this, flags
    {
      Shape() && Consistent(P.Pages(flags[..], live))
    }

    ghost predicate Valid()
      reads this, flags, words
    {
      && Allocating()
      && IsForest(words[..], base, forest)
      && OwnPages(live, forest)
    }

    // Divides a heap of this size into pages, all of them free.
    constructor (start: nat, heapSize: nat)
      requires start > 0
      requires AllocStart(start, heapSize / PAGE_SIZE) + heapSize < WORD
      ensures Valid() && heapStart == start && numPages == heapSize / 4096
      ensures allocStart % 4096 == 0 && start + numPages <= allocStart < start + numPages + 4096
      ensures live == map[] && forest == Forest(map[], map[])
      ensures fresh(flags) && fresh(words)
    {
      var n := heapSize / PAGE_SIZE;
      heapStart, numPages := start, n;
      allocStart := AllocStart(start, n);
      flags := new bv8[n];
      words := new U64[ENTRIES * n];
      live := map[];
      forest := Forest(map[], map[]);
      new;
      for i := 0 to n
        invariant live == map[] && forest == Forest(map[], map[])
        invariant forall k :: 0 <= k < i ==> flags[k] == EMPTY
      {
        flags[i] := EMPTY;
      }
      StartConsistent(n);
      assert flags[..] == seq(n, _ => EMPTY);
    }

    function Address(page: nat): nat
      reads this
    {
      allocStart + PAGE_SIZE * page
    }

    // Whether all of these pages are free.
    method IsFreeRun(i: nat, pages: nat) returns (found: bool)
      requires 1 <= pages && i + pages <= flags.Length
      ensures found <==> AllFree(flags[..], i, pages)
    {
      hide IsTaken;
      found := false;
      if !IsTaken(flags[i]) {
        found := true;
        var j := i;
        while j < i + pages
          invariant i <= j <= i + pages
          invariant forall k :: i <= k < j ==> !IsTaken(flags[k])
        {
          if IsTaken(flags[j]) {
            found := false;
            break;
          }
          j := j + 1;
        }
      }
    }

    method MarkRun(i: nat, pages: nat)
      requires 1 <= pages && i + pages <= flags.Length
      modifies flags
      ensures flags[..] == Marked(old(flags[..]), i, pages)
    {
      hide SetFlag;
      var k := i;
      while k < i + pages - 1
        invariant i <= k <= i + pages - 1
        invariant forall m :: 0 <= m < flags.Length ==>
                    flags[m] == if i <= m < k then SetFlag(old(flags[m]), TAKEN) else old(flags[m])
      {
        flags[k] := SetFlag(flags[k], TAKEN);
        k := k + 1;
      }
      flags[k] := SetFlag(flags[k], TAKEN);
      flags[k] := SetFlag(flags[k], LAST);
    }

    /** The first run of free pages, marked as taken; 0 if there is none before the last place. */
    method Alloc(pages: nat) returns (ptr: nat)
      requires Valid() && 1 <= pages <= numPages
      modifies this`live, flags
      ensures Valid()
      ensures var d, i := old(flags[..]), Found(old(flags[..]), pages, 0);
              if i < |d| - pages
              then ptr == allocStart + 4096 * i != 0 && i !in old(live) && live == old(live)[i := pages]
                  && flags[..] == Marked(d, i, pages)
              else ptr == 0 && live == old(live) && flags[..] == d
    {
      hide Marked, AllFree, Consistent, IsForest;
      ghost var d := flags[..];
      var i := 0;
      while i < numPages - pages
        invariant 0 <= i <= numPages - pages
        invariant flags[..] == d && live == old(live)
        invariant Found(d, pages, i) == Found(d, pages, 0)
        invariant Valid()
      {
        var found := IsFreeRun(i, pages);
        if found {
          AllocConsistent(P.Pages(d, live), i, pages);
          MarkRun(i, pages);
          OwnMore(live, forest, i, pages);
          live := live[i := pages];
          return Address(i);
        }
        i := i + 1;
      }
      return 0;
    }

    // Page number of an address handed out.
    function PageOf(ptr: nat): int
      reads this
    {
      (ptr - allocStart) / PAGE_SIZE
    }

    method ZeroWords(first: nat, size: nat)
      requires first + size <= words.Length
      modifies words
      ensures forall k :: 0 <= k < words.Length ==>
                words[k] == if first <= k < first + size then 0 else old(words[k])
    {
      for i := 0 to size
        invariant forall k :: 0 <= k < words.Length ==>
                    words[k] == if first <= k < first + i then 0 else old(words[k])
      {
        words[first + i] := 0;
      }
    }

    /** A free run of pages, cleared. Where alloc finds none, the code writes through a null pointer. */
    method Zalloc(pages: nat) returns (ptr: nat)
      requires Valid() && 1 <= pages <= numPages && Found(flags[..], pages, 0) < numPages - pages
      modifies this`live, flags, words
      ensures var i := Found(old(flags[..]), pages, 0);
              && ptr == allocStart + 4096 * i && i !in old(live) && live == old(live)[i := pages]
              && flags[..] == Marked(old(flags[..]), i, pages)
              && words[..] == ZeroedRun(old(words[..]), i, pages)
      ensures Valid() && SameAbove(old(words[..]), words[..], forest, -1)
    {
      hide Consistent, IsForest, Marked, Found;
      ghost var d, w, i := flags[..], words[..], Found(flags[..], pages, 0);
      FoundRun(P.Pages(d, live), pages);
      RunKeepsTables(P.Pages(d, live), forest, w, base, i, pages);
      ptr := Alloc(pages);
      PageOfAddress(allocStart, i);
      var size := PAGE_SIZE * pages / 8;
      var first := (ptr - allocStart) / 8;
      ZeroWords(first, size);
      assert words[..] == ZeroedRun(w, i, pages);
    }

    /** One page of zeros, as map asks for. */
    method ZallocPage() returns (ptr: nat)
      requires Valid() && FreePages(flags[..]) > 0
      modifies this`live, flags, words
      ensures Valid() && 0 <= PageOf(ptr) < numPages && ptr == Address(PageOf(ptr))
      ensures HasPage(old(words[..]), PageOf(ptr)) && words[..] == Zeroed(old(words[..]), PageOf(ptr))
      ensures PageOf(ptr) as nat !in old(live) && live == old(live)[PageOf(ptr) as nat := 1]
      ensures FreePages(flags[..]) == FreePages(old(flags[..])) - 1
    {
      hide Consistent, IsForest, Marked, Found, FreePages, ZeroedRun, Zeroed;
      SinglePage(flags[..]);
      ghost var w := words[..];
      ptr := Zalloc(1);
      PageOfAddress(allocStart, Found(old(flags[..]), 1, 0));
      OnePage(w, PageOf(ptr));
    }

    /** Frees the run that starts at this page. The tables stay what they are unless it is one of them. */
    method Dealloc(ptr: nat, ghost page: nat)
      requires Allocating() && page in live && ptr == Address(page)
      modifies this`live, flags
      ensures Allocating() && live == old(live) - {page}
      ensures page + old(live)[page] <= |old(flags[..])|
      ensures flags[..] == Cleared(old(flags[..]), page, old(live)[page])
      ensures old(Valid()) && page !in forest.level ==> Valid()
    {
      hide IsForest, Represents, IsTaken, IsLast;
      ghost var d, len := flags[..], live[page];
      RepresentsRun(d, live, page);
      FlagFacts();
      PageOfAddress(allocStart, page);
      var p := (ptr - allocStart) / PAGE_SIZE;
      while IsTaken(flags[p]) && !IsLast(flags[p])
        invariant page <= p < page + len
        invariant flags.Length == numPages && live == old(live)
        invariant forall k :: 0 <= k < numPages ==> flags[k] == if page <= k < p then EMPTY else d[k]
        decreases page + len - p
      {
        flags[p] := EMPTY;
        p := p + 1;
      }
      flags[p] := EMPTY;
      assert flags[..] == Cleared(d, page, len);
      DeallocConsistent(P.Pages(d, live), page);
      if OwnPages(live, forest) && page !in forest.level {
        OwnLess(live, forest, page);
      }
      live := live - {page};
    }

    ghost predicate IsRoot(ptr: nat)
      reads this
    {
      PageOf(ptr) in forest.level && forest.level[PageOf(ptr)] == 2 && ptr == allocStart + PAGE_SIZE * PageOf(ptr)
    }

    /** A zeroed page becomes a new, empty root; every other translation stays. */
    method NewRoot() returns (ptr: nat)
      requires Valid() && FreePages(flags[..]) > 0
      modifies this, flags, words
      ensures Valid() && IsRoot(ptr) && PageOf(ptr) !in old(forest.level)
      ensures forall r :: r in old(forest.level) ==> r in forest.level && forest.level[r] == old(forest.level[r])
      ensures SameTranslations(old(words[..]), words[..], base, old(forest))
      ensures HasPage(words[..], PageOf(ptr)) && PageMap(words[..], base, PageOf(ptr)) == map[]
    {
      hide Consistent, IsForest, FreePages, Zeroed, PageMap, SameTranslations;
      ghost var w := words[..];
      ptr := ZallocPage();
      ghost var c := PageOf(ptr);
      NotTable(old(live), forest, c);
      ZeroedSame(w, base, forest, c);
      NewRootForest(w, base, forest, c);
      EmptyMap(w, base, c);
      OwnMoreTables(live, forest, c, 2, forest.parent);
      forest := Forest(forest.level[c := 2], forest.parent);
    }

    // One level down: reads the entry for vaddr in table t, behind which a new table is put if it
    // is invalid.
    method Descend(ghost root: int, t: nat, vaddr: U64, i: nat, ghost level: nat) returns (next: nat)
      requires Valid() && 0 < i <= 2 && level < i
      requires root in forest.level && forest.level[root] == 2 && HasPage(words[..], root)
      requires TableFrom(words[..], base, root, 2, i, vaddr) == Some(t as int) && HasPage(words[..], t)
      requires NoLeafAbove(words[..], base, t, i, level, vaddr)
      requires FreePages(flags[..]) >= Missing(words[..], base, t, i, level, vaddr)
      modifies this, flags, words
      ensures Valid() && HasPage(words[..], root) && HasPage(words[..], next)
      ensures TableFrom(words[..], base, root, 2, i - 1, vaddr) == Some(next as int)
      ensures NoLeafAbove(words[..], base, next, i - 1, level, vaddr)
      ensures SameTranslations(old(words[..]), words[..], base, old(forest))
      ensures forall r :: r in old(forest.level) ==> r in forest.level && forest.level[r] == old(forest.level[r])
      ensures forall p :: p in old(live) ==> p in live && live[p] == old(live[p])
      ensures FreePages(flags[..]) + Missing(old(words[..]), base, t, i, level, vaddr) ==
              FreePages(old(flags[..])) + Missing(words[..], base, next, i - 1, level, vaddr)
    {
      hide Consistent, IsForest, FreePages, Zeroed, SameTranslations, TableFrom, Index, IsBranch, IsValid, IsLeaf,
           Written, Entry, Missing;
      ghost var w, f := words[..], forest;
      IndexInTable(vaddr, i);
      var v := ENTRIES * t + Index(vaddr, i);
      EntryAt(w, t, Index(vaddr, i));
      TableFromLevel(w, base, f, root, 2, i, vaddr);
      NextTable(w, base, f, t, vaddr, i, level);
      MissingStep(w, base, t, i, level, vaddr);
      if !IsValid(words[v]) {
        var p := ZallocPage();
        ghost var c := PageOf(p);
        NotTable(old(live), f, c);
        BranchInRange(allocStart, numPages, c);
        ZeroedLength(w, c);
        words[v] := p / 4 + 1;
        assert words[..] == Installed(w, base, c, t, Index(vaddr, i)) by {
          InstalledIs(w, base, c, t, Index(vaddr, i), words[..]);
        }
        InstallSame(w, base, f, c, t, Index(vaddr, i));
        InstallKeepsForest(w, base, f, c, t, Index(vaddr, i));
        InstallReaches(w, base, f, c, t, root, vaddr, i, level);
        OwnMoreTables(live, f, c, i - 1, f.parent[c := Edge(t, Index(vaddr, i))]);
        forest := Planted(f, c, t, Index(vaddr, i));
        InstalledChild(w, base, c, t, Index(vaddr, i));
        InstalledMissing(w, base, c, t, Index(vaddr, i), i - 1, level, vaddr);
      } else {
        SameReflexive(w, base, f);
        TableFromExtends(w, base, root, 2, i, vaddr);
      }
      // (entry & ~0x3ff) << 2, an address
      next := Ppn(words[v]) - allocStart / PAGE_SIZE;
    }

    /** Maps the region of vaddr at this level to that of paddr, building the tables it needs. The entry is written
        in any case; it is no leaf if bits allow neither reading nor writing nor executing, of which the code
        only warns. */
    method Map(root: nat, vaddr: U64, paddr: U64, bits: nat, level: nat)
      requires Valid() && IsRoot(root) && level <= 2 && bits < 1024
      requires HasPage(words[..], PageOf(root)) && NoLeafAbove(words[..], base, PageOf(root), 2, level, vaddr)
      requires FreePages(flags[..]) >= Missing(words[..], base, PageOf(root), 2, level, vaddr)
      modifies this, flags, words
      ensures Allocating() && IsRoot(root) && |words[..]| == |old(words[..])|
      ensures var t := TableFrom(words[..], base, PageOf(root), 2, level, vaddr);
              t.Some? && HasPage(words[..], t.value) && Index(vaddr, level) < ENTRIES
              && var e := Entry(words[..], t.value, Index(vaddr, level));
              && e == LeafEntry(paddr, bits) && e / 1024 == paddr % 0x80_0000_0000 / 0x1000
              && forall k :: 0 <= k < 10 ==>
                   (e / Pow2(k) % 2 == 1 <==> bits / Pow2(k) % 2 == 1 || k == 0 || k == 6 || k == 7)
      ensures bits / 2 % 8 != 0 ==>
                && Valid()
                && PageMap(words[..], base, PageOf(root)) ==
                   PageMap(old(words[..]), base, PageOf(root)) + Region(vaddr, paddr, level)
      ensures bits / 2 % 8 != 0 ==>
                forall r :: r in old(forest.level) && old(forest.level[r]) == 2 && r != PageOf(root) ==>
                  && HasPage(old(words[..]), r) && r in forest.level && forest.level[r] == 2
                  && PageMap(words[..], base, r) == PageMap(old(words[..]), base, r)
      ensures forall p :: p in old(live) ==> p in live && live[p] == old(live[p])
      ensures FreePages(flags[..]) ==
              FreePages(old(flags[..])) - old(Missing(words[..], base, PageOf(root), 2, level, vaddr))
    {
      hide Consistent, IsForest, FreePages, SameTranslations, PageMap, Region, Index, Written, LeafEntry, IsBranch,
           NoLeafAbove, Missing, Pow2;
      ghost var w0, f0, rp := words[..], forest, PageOf(root);
      SameReflexive(w0, base, f0);
      var t: nat := (root - allocStart) / PAGE_SIZE;
      var i := 2;
      while i > level
        invariant level <= i <= 2 && Valid() && HasPage(words[..], rp) && HasPage(words[..], t)
        invariant forall r :: r in f0.level ==> r in forest.level && forest.level[r] == f0.level[r]
        invariant TableFrom(words[..], base, rp, 2, i, vaddr) == Some(t as int)
        invariant NoLeafAbove(words[..], base, t, i, level, vaddr)
        invariant FreePages(flags[..]) ==
                  FreePages(old(flags[..])) - Missing(w0, base, rp, 2, level, vaddr)
                  + Missing(words[..], base, t, i, level, vaddr)
        invariant SameTranslations(w0, words[..], base, f0)
        invariant forall p :: p in old(live) ==> p in live && live[p] == old(live[p])
      {
        ghost var w, f := words[..], forest;
        t := Descend(rp, t, vaddr, i, level);
        SameTransitive(w0, w, words[..], base, f0, f);
        i := i - 1;
      }
      ghost var w := words[..];
      NoneMissing(w, base, t, level, vaddr);
      LeafTarget(paddr, bits, vaddr, level);
      AllFields(paddr, bits);
      IndexInTable(vaddr, level);
      TableFromLevel(w, base, forest, rp, 2, level, vaddr);
      if bits / 2 % 8 != 0 {
        LeafIsNoBranch(paddr, bits);
        LeafKeepsForest(w, base, forest, t, Index(vaddr, level), LeafEntry(paddr, bits));
        MapResult(w0, w, base, f0, forest, rp, vaddr, level, t, paddr, bits);
      }
      WrittenIs(w, t, Index(vaddr, level), LeafEntry(paddr, bits));
      WrittenReached(w, base, forest, rp, vaddr, level, t, LeafEntry(paddr, bits));
      words[ENTRIES * t + Index(vaddr, level)] := LeafEntry(paddr, bits);
      assert words[..] == Written(w, t, Index(vaddr, level), LeafEntry(paddr, bits));
    }

    /** The address vaddr translates to, 0 if it is not mapped. */
    method VirtToPhys(root: nat, vaddr: U64) returns (addr: nat)
      requires Valid() && IsRoot(root)
      ensures HasPage(words[..], PageOf(root))
      ensures var m, n := PageMap(words[..], base, PageOf(root)), PageNumber(vaddr);
              addr == if n in m then m[n] + vaddr % 0x1000 else 0
    {
      hide Consistent, IsForest, PageMap, Index, IsBranch, IsValid, IsLeaf, Entry, Target, PageNumber;
      ghost var w, rp := words[..], PageOf(root);
      ForestPage(w, base, forest, rp);
      WalkInMap(w, base, rp, vaddr);
      var t: nat := (root - allocStart) / PAGE_SIZE;
      var i := 2;
      while true
        invariant 0 <= i <= 2 && HasPage(w, t) && t in forest.level && forest.level[t] == i
        invariant Walk(w, base, t, i, vaddr) == Walk(w, base, rp, 2, vaddr)
        decreases i
      {
        IndexInTable(vaddr, i);
        EntryAt(w, t, Index(vaddr, i));
        var e := words[ENTRIES * t + Index(vaddr, i)];
        if !IsValid(e) {
          return 0;
        } else if IsLeaf(e) {
          return Target(e, vaddr, i);
        }
        BranchDef(e);
        BranchLeadsDown(w, base, forest, t, Index(vaddr, i));
        t := Ppn(e) - allocStart / PAGE_SIZE;
        i := i - 1;
      }
    }
  }

  lemma AllFields(paddr: U64, bits: nat)
    requires bits < 1024
    ensures var e := LeafEntry(paddr, bits);
            && e / 1024 == paddr % 0x80_0000_0000 / 0x1000
            && forall k :: 0 <= k < 10 ==>
                 (e / Pow2(k) % 2 == 1 <==> bits / Pow2(k) % 2 == 1 || k == 0 || k == 6 || k == 7)
  {
    hide LeafEntry, Pow2;
    LeafFields(paddr, bits, 0);
    forall k | 0 <= k < 10
      ensures LeafEntry(paddr, bits) / Pow2(k) % 2 == 1 <==>
              bits / Pow2(k) % 2 == 1 || k == 0 || k == 6 || k == 7
    {
      LeafFields(paddr, bits, k);
    }
  }

  // The entry written is where the walk arrives.
  lemma WrittenReached(w: seq<U64>, base: nat, f: Forest, root: int, v: U64, level: nat, t: int, e: U64)
    requires IsForest(w, base, f) && level <= 2 && HasPage(w, root) && HasPage(w, t)
    requires root in f.level && f.level[root] == 2 && t in f.level && f.level[t] == level
    requires TableFrom(w, base, root, 2, level, v) == Some(t)
    ensures Index(v, level) < ENTRIES
    ensures var w' := Written(w, t, Index(v, level), e);
            && HasPage(w', root) && HasPage(w', t)
            && TableFrom(w', base, root, 2, level, v) == Some(t)
            && Entry(w', t, Index(v, level)) == e
  {
    hide IsForest, Written, TableFrom, Entry, Index;
    IndexInTable(v, level);
    var k := Index(v, level);
    WrittenLength(w, t, k, e);
    WrittenTables(w, base, f, t, k, e);
    TableFromSame(w, Written(w, t, k, e), base, f, root, 2, level, v);
    WrittenEntry(w, t, k, e, t, k);
  }

  ghost function ZeroedRun(w: seq<U64>, i: nat, pages: nat): seq<U64> {
    seq(|w|, k requires 0 <= k < |w| => if ENTRIES * i <= k < ENTRIES * (i + pages) then 0 else w[k])
  }

  lemma OnePage(w: seq<U64>, c: int)
    requires HasPage(w, c)
    ensures ZeroedRun(w, c, 1) == Zeroed(w, c)
  {
  }

  lemma FoundRun(s: P.Pages, pages: nat)
    requires 1 <= pages <= |s.d| && Found(s.d, pages, 0) < |s.d| - pages
    ensures AllFree(s.d, Found(s.d, pages, 0), pages)
  {
    FoundIsFirst(s.d, pages, 0);
  }

  lemma RunKeepsTables(s: P.Pages, f: Forest, w: seq<U64>, base: nat, i: nat, pages: nat)
    requires Consistent(s) && OwnPages(s.live, f) && IsForest(w, base, f) && 1 <= pages && AllFree(s.d, i, pages)
    ensures SameAbove(w, ZeroedRun(w, i, pages), f, -1)
    ensures IsForest(ZeroedRun(w, i, pages), base, f)
  {
    hide IsForest, Represents, AllFree;
    forall q | q in f.level ensures HasPage(w, q) && SameTable(w, ZeroedRun(w, i, pages), q) {
      ForestPage(w, base, f, q);
      RunsApart(s.d, s.live, i, pages, q as nat);
    }
    SameKeepsForest(w, ZeroedRun(w, i, pages), base, f);
  }

  lemma MissingStep(w: seq<U64>, base: nat, t: int, i: nat, level: nat, v: U64)
    requires HasPage(w, t) && level < i
    ensures Index(v, i) < ENTRIES
    ensures var e := Entry(w, t, Index(v, i));
            Missing(w, base, t, i, level, v) ==
            if !IsValid(e) then i - level
            else if HasPage(w, Child(e, base)) then Missing(w, base, Child(e, base), i - 1, level, v) else 0
  {
    hide Entry, IsValid;
    IndexInTable(v, i);
  }

  lemma NoneMissing(w: seq<U64>, base: nat, t: int, level: nat, v: U64)
    requires HasPage(w, t)
    ensures Missing(w, base, t, level, level, v) == 0
  {
  }

  lemma ZeroedSame(w: seq<U64>, base: nat, f: Forest, c: int)
    requires IsForest(w, base, f) && HasPage(w, c) && c !in f.level
    ensures SameTranslations(w, Zeroed(w, c), base, f)
  {
    hide IsForest, Zeroed, Walk;
    ZeroedLength(w, c);
    forall r | r in f.level && f.level[r] == 2 ensures HasPage(w, r) && HasPage(Zeroed(w, c), r) {
      ForestPage(w, base, f, r);
    }
    forall r, u: U64 | r in f.level && f.level[r] == 2
      ensures HasPage(w, r) && HasPage(Zeroed(w, c), r)
      ensures Walk(Zeroed(w, c), base, r, 2, u) == Walk(w, base, r, 2, u)
    {
      ForestPage(w, base, f, r);
      ZeroedKeepsWalk(w, base, f, c, r, u);
    }
  }

  lemma SameReflexive(w: seq<U64>, base: nat, f: Forest)
    requires IsForest(w, base, f)
    ensures SameTranslations(w, w, base, f)
  {
    hide Walk;
  }

  lemma NewRootForest(w: seq<U64>, base: nat, f: Forest, c: int)
    requires IsForest(w, base, f) && HasPage(w, c) && c !in f.level
    ensures IsForest(Zeroed(w, c), base, Forest(f.level[c := 2], f.parent))
  {
    hide Zeroed, Entry, IsForest, IsBranch;
    var w', f' := Zeroed(w, c), Forest(f.level[c := 2], f.parent);
    ZeroedLength(w, c);
    ZeroIsInvalid();
    forall q, i | q in f'.level && 0 <= i < ENTRIES ensures HasPage(w', q) && EntryInForest(w', base, f', q, i) {
      if q == c {
        ZeroedEntry(w, c, c, i);
      } else {
        ForestPage(w, base, f, q);
        ZeroedEntry(w, c, q, i);
        ForestEntry(w, base, f, q, i);
      }
    }
    forall q | q in f'.level ensures HasPage(w', q) && f'.level[q] <= 2 {
      if q != c {
        ForestPage(w, base, f, q);
      }
    }
    ForestIf(w', base, f');
  }

  lemma ForestEntry(w: seq<U64>, base: nat, f: Forest, q: int, i: nat)
    requires IsForest(w, base, f) && q in f.level && i < ENTRIES
    ensures HasPage(w, q) && EntryInForest(w, base, f, q, i)
  {
  }

  lemma ForestIf(w: seq<U64>, base: nat, f: Forest)
    requires forall p :: p in f.level ==> HasPage(w, p) && f.level[p] <= 2
    requires forall p, k :: p in f.level && 0 <= k < ENTRIES ==> EntryInForest(w, base, f, p, k)
    ensures IsForest(w, base, f)
  {
  }

  lemma ZeroIsInvalid()
    ensures !IsValid(0) && !IsBranch(0)
  {
  }

  lemma EmptyMap(w: seq<U64>, base: nat, c: int)
    requires HasPage(w, c)
    ensures HasPage(Zeroed(w, c), c) && PageMap(Zeroed(w, c), base, c) == map[]
  {
    hide Zeroed, Entry, Index, IsValid;
    ZeroedLength(w, c);
    ZeroIsInvalid();
    forall n | 0 <= n < VPNS ensures Walk(Zeroed(w, c), base, c, 2, PageAddress(n)) == None {
      IndexInTable(PageAddress(n), 2);
      ZeroedEntry(w, c, c, Index(PageAddress(n), 2));
    }
  }

  lemma OwnMoreTables(live: map<nat, nat>, f: Forest, c: int, level: nat, parent: map<int, Edge>)
    requires OwnPages(live, f) && 0 <= c && c as nat in live && live[c as nat] == 1
    ensures OwnPages(live, Forest(f.level[c := level], parent))
  {
  }

  lemma EntryAt(w: seq<U64>, t: int, k: nat)
    requires HasPage(w, t) && k < ENTRIES
    ensures 0 <= ENTRIES * t + k < |w| && w[ENTRIES * t + k] == Entry(w, t, k)
  {
  }

  // Behind an entry that is neither invalid nor a leaf there is a table.
  lemma NextTable(w: seq<U64>, base: nat, f: Forest, t: int, v: U64, i: nat, level: nat)
    requires IsForest(w, base, f) && t in f.level && f.level[t] == i && level < i && HasPage(w, t)
    requires NoLeafAbove(w, base, t, i, level, v)
    ensures Index(v, i) < ENTRIES
    ensures var e := Entry(w, t, Index(v, i));
            IsValid(e) ==>
              && IsBranch(e) && HasPage(w, Child(e, base)) && Child(e, base) in f.level
              && NoLeafAbove(w, base, Child(e, base), i - 1, level, v)
  {
    hide IsForest, Entry, Index;
    IndexInTable(v, i);
    if IsBranch(Entry(w, t, Index(v, i))) {
      BranchLeadsDown(w, base, f, t, Index(v, i));
    }
  }

  lemma BranchInRange(start: nat, pages: nat, c: nat)
    requires start % PAGE_SIZE == 0 && start + PAGE_SIZE * pages < WORD && c < pages
    ensures BranchTo(start / PAGE_SIZE + c) < WORD
    ensures (start + PAGE_SIZE * c) / 4 + 1 == BranchTo(start / PAGE_SIZE + c)
  {
  }

  lemma InstalledIs(w: seq<U64>, base: nat, c: int, p: int, k: nat, w': seq<U64>)
    requires HasPage(w, c) && HasPage(w, p) && k < ENTRIES && BranchTo(base + c) < WORD
    requires |Zeroed(w, c)| == |w| && w' == Zeroed(w, c)[ENTRIES * p + k := BranchTo(base + c)]
    ensures w' == Installed(w, base, c, p, k)
  {
  }

  lemma InstalledChild(w: seq<U64>, base: nat, c: int, p: int, k: nat)
    requires HasPage(w, c) && HasPage(w, p) && k < ENTRIES && BranchTo(base + c) < WORD && p != c
    ensures |Installed(w, base, c, p, k)| == |w|
    ensures Ppn(Installed(w, base, c, p, k)[ENTRIES * p + k]) == base + c
  {
    hide Installed, BranchTo;
    InstalledEntry(w, base, c, p, k, p, k);
    EntryAt(Installed(w, base, c, p, k), p, k);
    BranchToIsBranch(base + c);
  }

  lemma LeafIsNoBranch(paddr: U64, bits: nat)
    requires bits < 1024 && bits / 2 % 8 != 0
    ensures LeafEntry(paddr, bits) < WORD && !IsBranch(LeafEntry(paddr, bits))
  {
    hide LeafEntry;
    LeafTarget(paddr, bits, 0, 0);
  }

  lemma WrittenIs(w: seq<U64>, p: int, k: nat, e: U64)
    requires HasPage(w, p) && k < ENTRIES
    ensures 0 <= ENTRIES * p + k < |w| && Written(w, p, k, e) == w[ENTRIES * p + k := e]
  {
  }

  lemma MapResult(w0: seq<U64>, w: seq<U64>, base: nat, f0: Forest, f: Forest, root: int, v: U64, level: nat, p: int,
                  paddr: U64, bits: nat)
    requires IsForest(w, base, f) && level <= 2 && HasPage(w, root) && HasPage(w, p) && |w0| == |w|
    requires SameTranslations(w0, w, base, f0)
    requires forall r :: r in f0.level ==> r in f.level && f.level[r] == f0.level[r]
    requires root in f0.level && f0.level[root] == 2
    requires TableFrom(w, base, root, 2, level, v) == Some(p)
    requires bits < 1024 && bits / 2 % 8 != 0 && LeafEntry(paddr, bits) < WORD
    ensures Index(v, level) < ENTRIES
    ensures var w' := Written(w, p, Index(v, level), LeafEntry(paddr, bits));
            forall r :: r in f0.level && f0.level[r] == 2 ==>
              && HasPage(w0, r) && HasPage(w', r)
              && PageMap(w', base, r) ==
                 if r == root then PageMap(w0, base, r) + Region(v, paddr, level) else PageMap(w0, base, r)
  {
    hide IsForest, SameTranslations, PageMap, Region, Index, Written, LeafEntry, TableFrom;
    IndexInTable(v, level);
    WrittenLength(w, p, Index(v, level), LeafEntry(paddr, bits));
    forall r | r in f0.level && f0.level[r] == 2
      ensures HasPage(w0, r) && HasPage(Written(w, p, Index(v, level), LeafEntry(paddr, bits)), r)
      ensures PageMap(Written(w, p, Index(v, level), LeafEntry(paddr, bits)), base, r) ==
              if r == root then PageMap(w0, base, r) + Region(v, paddr, level) else PageMap(w0, base, r)
    {
      ForestPage(w, base, f, r);
      SamePageMap(w0, w, base, f0, r);
      LeafOverrides(w, base, f, root, v, level, p, paddr, bits, r);
    }
  }

  lemma WalkInMap(w: seq<U64>, base: nat, root: int, v: U64)
    requires HasPage(w, root)
    ensures var m, n := PageMap(w, base, root), PageNumber(v);
            Walk(w, base, root, 2, v) == if n in m then Some(m[n] + v % 0x1000) else None
  {
    hide Walk, PageAddress;
    WalkOfPage(w, base, root, 2, v);
  }

  lemma DeallocConsistent(s: P.Pages, page: nat)
    requires Consistent(s) && page in s.live
    ensures page + s.live[page] <= |s.d| && Consistent(P.Pages(Cleared(s.d, page, s.live[page]), s.live - {page}))
  {
    hide Represents;
    DeallocRepresents(s.d, s.live, page);
  }

  lemma OwnLess(live: map<nat, nat>, f: Forest, page: nat)
    requires OwnPages(live, f) && page !in f.level
    ensures OwnPages(live - {page}, f)
  {
  }

  lemma NotTable(live: map<nat, nat>, f: Forest, page: int)
    requires OwnPages(live, f) && 0 <= page && page as nat !in live
    ensures page !in f.level
  {
  }

  lemma PageOfAddress(start: nat, page: nat)
    ensures (start + PAGE_SIZE * page - start) / PAGE_SIZE == page
    ensures (start + PAGE_SIZE * page - start) / 8 == ENTRIES * page
  {
  }

  lemma AllocConsistent(s: P.Pages, i: nat, pages: nat)
    requires Consistent(s) && 1 <= pages && i + pages < |s.d| && AllFree(s.d, i, pages)
    ensures i !in s.live && Consistent(P.Pages(Marked(s.d, i, pages), s.live[i := pages]))
  {
    hide Represents, Marked, AllFree;
    AllocRepresents(s.d, s.live, i, pages);
    MarkedLength(s.d, i, pages);
  }

  lemma OwnMore(live: map<nat, nat>, f: Forest, i: nat, pages: nat)
    requires OwnPages(live, f) && i !in live
    ensures OwnPages(live[i := pages], f)
  {
  }
}
