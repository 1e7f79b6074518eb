/** The translation as a finite map from virtual page numbers to physical addresses, and how the
    steps of building a mapping change it. */
module Translation {
  import opened Arithmetic
  import opened Basics
  import opened TableModel
  import opened TableTree

  const VPNS: nat := 0x800_0000  // 27 bits

  // The number of the virtual page of v, of which bits above the 39th do not count.
  function PageNumber(v: U64): (n: nat)
    ensures n < VPNS
  {
    v / 0x1000 % VPNS
  }

  function PageAddress(n: nat): (v: U64)
    requires n < VPNS
  {
    n * 0x1000
  }

  // Virtual page numbers to the addresses their first bytes translate to.
  ghost function PageMap(w: seq<U64>, base: nat, root: int): map<nat, nat>
    requires HasPage(w, root)
  {
    map n | 0 <= n < VPNS && Walk(w, base, root, 2, PageAddress(n)).Some? ::
      Walk(w, base, root, 2, PageAddress(n)).value
  }

  lemma SameIndex(v: U64, level: nat)
    requires level <= 2
    ensures Index(PageAddress(PageNumber(v)), level) == Index(v, level)
  {
    hide Index;
    PageIndices(v);
    PageIndices(PageAddress(PageNumber(v)));
    ModTwice(v / 0x1000);
  }

  lemma ModTwice(p: nat)
    ensures p % VPNS % 512 == p % 512
    ensures p % VPNS / 512 % 512 == p / 512 % 512
    ensures p % VPNS / 512 / 512 % 512 == p / 512 / 512 % 512
  {
    var q := p / VPNS;
    assert p == VPNS * q + p % VPNS;
    assert p / 512 == VPNS / 512 * q + p % VPNS / 512;
    assert p / 512 / 512 == VPNS / 512 / 512 * q + p % VPNS / 512 / 512;
  }

  lemma OffsetOfPage(v: nat, level: nat)
    requires level <= 2
    ensures v % Size(level) == v / 0x1000 % (Size(level) / 0x1000) * 0x1000 + v % 0x1000
  {
    var p := v / 0x1000;
    if level == 1 {
      assert v == 0x20_0000 * (p / 512) + (p % 512 * 0x1000 + v % 0x1000);
    } else if level == 2 {
      assert v == 0x4000_0000 * (p / 0x4_0000) + (p % 0x4_0000 * 0x1000 + v % 0x1000);
    }
  }

  lemma OffsetSplits(v: U64, level: nat)
    requires level <= 2
    ensures v % Size(level) == PageAddress(PageNumber(v)) % Size(level) + v % 0x1000
  {
    OffsetOfPage(v, level);
    OffsetOfPage(PageAddress(PageNumber(v)), level);
    SizeInPages(level);
    hide Size;
    if level > 0 {
      ModBelow(v / 0x1000, Size(level) / 0x1000);
    }
  }

  lemma SizeInPages(level: nat)
    ensures Size(level) / 0x1000 == if level == 0 then 1 else if level == 1 then 512 else 0x4_0000
  {
  }

  lemma ModBelow(p: nat, m: nat)
    requires m == 512 || m == 0x4_0000
    ensures p % VPNS % m == p % m
  {
    ModSplits(p, 512, 0x4_0000);
    ModSplits(p, 0x4_0000, 512);
    BelowModulus(p / 512 % 0x4_0000, p % 512, 512);
    BelowModulus(p / 0x4_0000 % 512, p % 0x4_0000, 0x4_0000);
  }

  lemma BelowModulus(q: int, r: int, m: int)
    requires 0 <= r < m
    ensures (q * m + r) % m == r
  {
    DivisionIsUnique(q * m + r, m, q, r);
  }

  lemma TargetSplits(e: U64, v: U64, level: nat)
    requires level <= 2
    ensures Target(e, v, level) == Target(e, PageAddress(PageNumber(v)), level) + v % 0x1000
  {
    hide Size;
    OffsetSplits(v, level);
  }

  /** The walk of any address is that of its page, plus the offset within the page. */
  lemma {:induction false} WalkOfPage(w: seq<U64>, base: nat, p: int, level: nat, v: U64)
    requires HasPage(w, p) && level <= 2
    ensures var r, s := Walk(w, base, p, level, v), Walk(w, base, p, level, PageAddress(PageNumber(v)));
            if s == None then r == None else r == Some(s.value + v % 0x1000)
    decreases level
  {
    hide Index, Entry, HasPage, IsValid, IsLeaf, PageNumber, PageAddress, Target;
    SameIndex(v, level);
    IndexInTable(v, level);
    var e := Entry(w, p, Index(v, level));
    TargetSplits(e, v, level);
    if level > 0 && HasPage(w, Child(e, base)) {
      WalkOfPage(w, base, Child(e, base), level - 1, v);
    }
  }

  // ---- The region of one entry ----

  // paddr rounded down to the size of the region, without the bits above the 39th.
  ghost function Rounded(paddr: U64, level: nat): (r: nat)
    ensures r == paddr % 0x80_0000_0000 / Size(level) * Size(level)
  {
    var q, s := paddr % 0x80_0000_0000, Size(level);
    assert q / s >= 0;
    q / s * s
  }

  // The pages in the region of v at this level, mapped in order from the address paddr, of which
  // the bits below the size of the region and above the 39th do not count.
  ghost function Region(v: U64, paddr: U64, level: nat): map<nat, nat> {
    map n | 0 <= n < VPNS && SameRegion(PageAddress(n), v, level) ::
      Rounded(paddr, level) + PageAddress(n) % Size(level)
  }

  lemma DigitsAgree(i: nat, k: nat, m: nat, j: nat, l: nat, n: nat)
    requires k < 512 && l < 512 && m < 512 && n < 512
    ensures i * 512 + k == j * 512 + l <==> i == j && k == l
    ensures i * 0x4_0000 + k * 512 + m == j * 0x4_0000 + l * 512 + n <==> i == j && k == l && m == n
  {
  }

  lemma RegionIndices(u: U64, v: U64)
    ensures SameRegion(u, v, 2) <==> Index(u, 2) == Index(v, 2)
    ensures SameRegion(u, v, 1) <==> Index(u, 1) == Index(v, 1) && Index(u, 2) == Index(v, 2)
    ensures SameRegion(u, v, 0) <==>
            Index(u, 0) == Index(v, 0) && Index(u, 1) == Index(v, 1) && Index(u, 2) == Index(v, 2)
  {
    hide Index;
  }

  /** The region of v at a level is the aligned stretch of that size around it. */
  lemma RegionIsStretch(u: U64, v: U64, level: nat)
    requires level <= 2
    ensures SameRegion(u, v, level) <==> u % 0x80_0000_0000 / Size(level) == v % 0x80_0000_0000 / Size(level)
  {
    hide Index, Size, SameRegion;
    RegionNumber(u, level);
    RegionNumber(v, level);
    RegionIndices(u, v);
    IndexInTable(u, 0);
    IndexInTable(u, 1);
    IndexInTable(v, 0);
    IndexInTable(v, 1);
    DigitsAgree(Index(u, 2), Index(u, 1), Index(u, 0), Index(v, 2), Index(v, 1), Index(v, 0));
  }

  lemma RegionNumber(u: U64, level: nat)
    requires level <= 2
    ensures u % 0x80_0000_0000 / Size(level) ==
            if level == 2 then Index(u, 2)
            else if level == 1 then Index(u, 2) * 512 + Index(u, 1)
            else Index(u, 2) * 0x4_0000 + Index(u, 1) * 512 + Index(u, 0)
  {
    hide Index;
    PageIndices(u);
    LowAddress(u);
    var p := u / 0x1000;
    ThreeDigits(p);
    var a := u % 0x80_0000_0000;
    assert a / 0x1000 == p % VPNS;
    assert a / 0x20_0000 == p % VPNS / 512;
    assert a / 0x4000_0000 == p % VPNS / 512 / 512;
  }

  /** Every address around v in the stretch translates to paddr, rounded down, plus its own offset;
      no other address is in the region. */
  lemma RegionTranslates(u: U64, v: U64, paddr: U64, level: nat)
    requires level <= 2
    ensures PageNumber(u) in Region(v, paddr, level) <==> SameRegion(u, v, level)
    ensures SameRegion(u, v, level) ==>
              Region(v, paddr, level)[PageNumber(u)] + u % 0x1000 == Rounded(paddr, level) + u % Size(level)
  {
    hide Index, Size, PageNumber, PageAddress;
    SameIndex(u, 0);
    SameIndex(u, 1);
    SameIndex(u, 2);
    OffsetSplits(u, level);
  }

  /** With sizes in bytes: where the map m, overridden on the region of v, takes the address u. */
  lemma MappedAddress(m: map<nat, nat>, u: U64, v: U64, paddr: U64, level: nat)
    requires level <= 2
    ensures var size := if level == 0 then 0x1000 else if level == 1 then 0x20_0000 else 0x4000_0000;
            var n, after := u / 0x1000 % 0x800_0000, m + Region(v, paddr, level);
            if u % 0x80_0000_0000 / size == v % 0x80_0000_0000 / size
            then n in after && after[n] + u % 0x1000 == paddr % 0x80_0000_0000 / size * size + u % size
            else (n in after <==> n in m) && (n in m ==> after[n] == m[n])
  {
    hide Region, SameRegion, Rounded;
    RegionTranslates(u, v, paddr, level);
    RegionIsStretch(u, v, level);
  }

  // ---- Whole mappings ----

  ghost predicate SameTranslations(w: seq<U64>, w': seq<U64>, base: nat, f: Forest) {
    && |w| == |w'|
    && (forall r :: r in f.level && f.level[r] == 2 ==> HasPage(w, r) && HasPage(w', r))
    && forall r, u: U64 :: r in f.level && f.level[r] == 2 ==>
         Walk(w', base, r, 2, u) == Walk(w, base, r, 2, u)
  }

  lemma InstallSame(w: seq<U64>, base: nat, f: Forest, c: int, p: int, k: nat)
    requires IsForest(w, base, f) && HasPage(w, c) && c !in f.level && BranchTo(base + c) < WORD
    requires p in f.level && f.level[p] > 0 && HasPage(w, p) && k < ENTRIES && !IsValid(Entry(w, p, k))
    ensures SameTranslations(w, Installed(w, base, c, p, k), base, f)
  {
    hide IsForest, Entry, Installed, Walk, BranchTo;
    ForestPage(w, base, f, p);
    InstalledEntry(w, base, c, p, k, p, k);
    forall r | r in f.level && f.level[r] == 2
      ensures HasPage(w, r) && HasPage(Installed(w, base, c, p, k), r)
    {
      ForestPage(w, base, f, r);
    }
    forall r, u: U64 | r in f.level && f.level[r] == 2
      ensures HasPage(w, r) && HasPage(Installed(w, base, c, p, k), r)
      ensures Walk(Installed(w, base, c, p, k), base, r, 2, u) == Walk(w, base, r, 2, u)
    {
      ForestPage(w, base, f, r);
      InstallKeepsWalk(w, base, f, c, p, k, r, u);
    }
  }

  lemma SameTransitive(w0: seq<U64>, w1: seq<U64>, w2: seq<U64>, base: nat, f0: Forest, f1: Forest)
    requires SameTranslations(w0, w1, base, f0) && SameTranslations(w1, w2, base, f1)
    requires forall r :: r in f0.level ==> r in f1.level && f1.level[r] == f0.level[r]
    ensures SameTranslations(w0, w2, base, f0)
  {
    hide Walk;
    forall r, u: U64 | r in f0.level && f0.level[r] == 2
      ensures HasPage(w0, r) && HasPage(w2, r) && Walk(w2, base, r, 2, u) == Walk(w0, base, r, 2, u)
    {
      SameTranslationAt(w0, w1, base, f0, r, u);
      SameTranslationAt(w1, w2, base, f1, r, u);
    }
  }

  lemma SameTranslationAt(w: seq<U64>, w': seq<U64>, base: nat, f: Forest, r: int, u: U64)
    requires SameTranslations(w, w', base, f) && r in f.level && f.level[r] == 2
    ensures HasPage(w, r) && HasPage(w', r) && Walk(w', base, r, 2, u) == Walk(w, base, r, 2, u)
  {
  }

  lemma SamePageMap(w: seq<U64>, w': seq<U64>, base: nat, f: Forest, r: int)
    requires SameTranslations(w, w', base, f) && r in f.level && f.level[r] == 2
    ensures HasPage(w, r) && HasPage(w', r) && PageMap(w', base, r) == PageMap(w, base, r)
  {
    hide Walk, SameTranslations, PageAddress;
    SameTranslationAt(w, w', base, f, r, 0);
    forall n | 0 <= n < VPNS ensures Walk(w', base, r, 2, PageAddress(n)) == Walk(w, base, r, 2, PageAddress(n)) {
      SameTranslationAt(w, w', base, f, r, PageAddress(n));
    }
  }

  /** Writing the leaf: the map of its root is overridden on the region, every other map stays. */
  lemma LeafOverrides(w: seq<U64>, base: nat, f: Forest, root: int, v: U64, level: nat, p: int, paddr: U64,
                      bits: nat, r: int)
    requires IsForest(w, base, f) && level <= 2 && HasPage(w, root) && HasPage(w, r) && HasPage(w, p)
    requires root in f.level && f.level[root] == 2 && r in f.level && f.level[r] == 2
    requires TableFrom(w, base, root, 2, level, v) == Some(p)
    requires bits < 1024 && bits / 2 % 8 != 0 && LeafEntry(paddr, bits) < WORD
    ensures var w' := Written(w, p, Index(v, level), LeafEntry(paddr, bits));
            && HasPage(w', r)
            && PageMap(w', base, r) ==
               if r == root then PageMap(w, base, r) + Region(v, paddr, level) else PageMap(w, base, r)
  {
    hide IsForest, Index, Entry, Written, Walk, TableFrom, SameRegion, LeafEntry, Target, IsValid, IsLeaf,
         PageAddress, Size;
    var e := LeafEntry(paddr, bits);
    var w' := Written(w, p, Index(v, level), e);
    LeafTarget(paddr, bits, v, level);
    IndexInTable(v, level);
    WrittenLength(w, p, Index(v, level), e);
    forall n | 0 <= n < VPNS
      ensures Walk(w', base, r, 2, PageAddress(n)) ==
              if r == root && SameRegion(PageAddress(n), v, level)
              then Some(paddr % 0x80_0000_0000 / Size(level) * Size(level) + PageAddress(n) % Size(level))
              else Walk(w, base, r, 2, PageAddress(n))
    {
      SetLeaf(w, base, f, root, v, level, p, e, r, PageAddress(n));
      LeafTarget(paddr, bits, PageAddress(n), level);
    }
  }

  // ---- Descending ----

  lemma {:induction false} TableFromExtends(w: seq<U64>, base: nat, p: int, level: nat, low: nat, v: U64)
    requires HasPage(w, p) && 0 < low <= level && TableFrom(w, base, p, level, low, v).Some?
    requires var t := TableFrom(w, base, p, level, low, v).value;
             HasPage(w, t) && IsBranch(Entry(w, t, Index(v, low)))
                 && HasPage(w, Child(Entry(w, t, Index(v, low)), base))
    ensures TableFrom(w, base, p, level, low - 1, v) ==
            Some(Child(Entry(w, TableFrom(w, base, p, level, low, v).value, Index(v, low)), base))
    decreases level
  {
    if level > low {
      TableFromExtends(w, base, Child(Entry(w, p, Index(v, level)), base), level - 1, low, v);
    }
  }

  // No valid leaf in the way of a mapping at this level.
  ghost predicate NoLeafAbove(w: seq<U64>, base: nat, p: int, from: nat, level: nat, v: U64)
    requires HasPage(w, p)
    decreases from
  {
    from <= level ||
    var e := Entry(w, p, Index(v, from));
    && !(IsValid(e) && IsLeaf(e))
    && (IsBranch(e) && HasPage(w, Child(e, base)) ==> NoLeafAbove(w, base, Child(e, base), from - 1, level, v))
  }

  lemma InstalledAbove(w: seq<U64>, base: nat, f: Forest, c: int, p: int, k: nat)
    requires IsForest(w, base, f) && HasPage(w, c) && c !in f.level && BranchTo(base + c) < WORD
    requires p in f.level && HasPage(w, p) && k < ENTRIES
    ensures SameAbove(w, Installed(w, base, c, p, k), f, f.level[p])
  {
    hide IsForest, Entry, Installed, BranchTo;
    InstalledEntry(w, base, c, p, k, p, k);
    forall q | q in f.level && f.level[q] > f.level[p]
      ensures HasPage(w, q) && SameTable(w, Installed(w, base, c, p, k), q)
    {
      ForestPage(w, base, f, q);
      forall i | 0 <= i < ENTRIES ensures Entry(Installed(w, base, c, p, k), q, i) == Entry(w, q, i) {
        InstalledEntry(w, base, c, p, k, q, i);
      }
    }
  }

  // The walk now reaches the new table, in which nothing is in the way.
  lemma InstallReaches(w: seq<U64>, base: nat, f: Forest, c: int, p: int, root: int, v: U64, level: nat, low: nat)
    requires low < level && IsForest(w, base, f) && HasPage(w, c) && c !in f.level && BranchTo(base + c) < WORD
    requires root in f.level && f.level[root] == 2 && HasPage(w, root) && 0 < level <= 2
    requires TableFrom(w, base, root, 2, level, v) == Some(p) && HasPage(w, p)
    ensures var w' := Installed(w, base, c, p, Index(v, level));
            && |w'| == |w|
            && TableFrom(w', base, root, 2, level - 1, v) == Some(c)
            && NoLeafAbove(w', base, c, level - 1, low, v)
  {
    hide IsForest, Entry, Installed, BranchTo, TableFrom;
    var k := Index(v, level);
    var w' := Installed(w, base, c, p, k);
    TableFromLevel(w, base, f, root, 2, level, v);
    InstalledEntry(w, base, c, p, k, p, k);
    InstalledAbove(w, base, f, c, p, k);
    TableFromSame(w, w', base, f, root, 2, level, v);
    InstalledBranch(base, c);
    TableFromExtends(w', base, root, 2, level, v);
    InstalledEntry(w, base, c, p, k, c, Index(v, level - 1));
  }

  // How many tables are missing on the way from table p at level from down to this level.
  ghost function Missing(w: seq<U64>, base: nat, p: int, from: nat, level: nat, v: U64): nat
    requires HasPage(w, p)
    decreases from
  {
    if from <= level then 0
    else
      var e := Entry(w, p, Index(v, from));
      if !IsValid(e) then from - level
      else if HasPage(w, Child(e, base)) then Missing(w, base, Child(e, base), from - 1, level, v) else 0
  }

  lemma {:induction false} MissingAtMost(w: seq<U64>, base: nat, p: int, from: nat, level: nat, v: U64)
    requires HasPage(w, p) && level <= from
    ensures Missing(w, base, p, from, level, v) <= from - level
    decreases from
  {
    hide Entry, Index, IsValid;
    if from > level {
      var e := Entry(w, p, Index(v, from));
      if IsValid(e) && HasPage(w, Child(e, base)) {
        MissingAtMost(w, base, Child(e, base), from - 1, level, v);
      }
    }
  }

  // Behind a table that has just been hung in, all the others are missing.
  lemma InstalledMissing(w: seq<U64>, base: nat, c: int, p: int, k: nat, from: nat, level: nat, v: U64)
    requires HasPage(w, c) && HasPage(w, p) && k < ENTRIES && BranchTo(base + c) < WORD && p != c && level <= from
    ensures |Installed(w, base, c, p, k)| == |w|
    ensures Missing(Installed(w, base, c, p, k), base, c, from, level, v) == from - level
  {
    hide Installed, Entry, Index, Zeroed;
    IndexInTable(v, from);
    InstalledEntry(w, base, c, p, k, c, Index(v, from));
  }
}
