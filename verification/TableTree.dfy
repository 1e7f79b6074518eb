/** Trees of page tables in memory, and what writing one entry does to the translation. */
module TableTree {
  import opened Basics
  import opened TableModel

  // Memory is a sequence of words; page p is words 512 p, ..., 512 p + 511, and base is the page
  // number of page 0.
  ghost predicate HasPage(w: seq<U64>, p: int) {
    0 <= p && ENTRIES * p + ENTRIES <= |w|
  }

  ghost function Entry(w: seq<U64>, p: int, k: nat): U64
    requires HasPage(w, p) && k < ENTRIES
  {
    w[ENTRIES * p + k]
  }

  ghost function Child(e: U64, base: nat): int {
    Ppn(e) - base
  }

  // What virt_to_phys computes, from table p at this level on.
  ghost function Walk(w: seq<U64>, base: nat, p: int, level: nat, v: U64): Option<nat>
    requires HasPage(w, p)
    decreases level
  {
    var e := Entry(w, p, Index(v, level));
    if !IsValid(e) then None
    else if IsLeaf(e) then Some(Target(e, v, level))
    else if level == 0 || !HasPage(w, Child(e, base)) then None
    else Walk(w, base, Child(e, base), level - 1, v)
  }

  // The table at level low that the walk of v passes through, if it gets there.
  ghost function TableFrom(w: seq<U64>, base: nat, p: int, level: nat, low: nat, v: U64): Option<int>
    requires HasPage(w, p) && low <= level
    decreases level
  {
    if level == low then Some(p) else
      var e := Entry(w, p, Index(v, level));
      if IsBranch(e) && HasPage(w, Child(e, base)) then TableFrom(w, base, Child(e, base), level - 1, low, v)
      else None
  }

  lemma {:induction false} TableFromPage(w: seq<U64>, base: nat, p: int, level: nat, low: nat, v: U64)
    requires HasPage(w, p) && low <= level
    ensures TableFrom(w, base, p, level, low, v).Some? ==> HasPage(w, TableFrom(w, base, p, level, low, v).value)
    decreases level
  {
    if level > low {
      var e := Entry(w, p, Index(v, level));
      if IsBranch(e) && HasPage(w, Child(e, base)) {
        TableFromPage(w, base, Child(e, base), level - 1, low, v);
      }
    }
  }

  datatype Edge = Edge(table: int, index: nat)

  // The pages used as tables, each with its level and, unless it is a root, the entry that points
  // to it.
  datatype Forest = Forest(level: map<int, nat>, parent: map<int, Edge>)

  ghost predicate EntryInForest(w: seq<U64>, base: nat, f: Forest, p: int, k: nat)
    requires HasPage(w, p) && k < ENTRIES && p in f.level
  {
    var e := Entry(w, p, k);
    IsBranch(e) ==>
      var c := Child(e, base);
      && c in f.level && f.level[c] + 1 == f.level[p]
      && c in f.parent && f.parent[c] == Edge(p, k)
  }

  // Tables form trees of distinct pages: every branch leads one level down, to a page that no
  // other entry leads to.
  ghost predicate IsForest(w: seq<U64>, base: nat, f: Forest) {
    && (forall p :: p in f.level ==> HasPage(w, p) && f.level[p] <= 2)
    && (forall p, k :: p in f.level && 0 <= k < ENTRIES ==> EntryInForest(w, base, f, p, k))
  }

  lemma BranchLeadsDown(w: seq<U64>, base: nat, f: Forest, p: int, k: nat)
    requires IsForest(w, base, f) && p in f.level && k < ENTRIES && IsBranch(Entry(w, p, k))
    ensures var c := Child(Entry(w, p, k), base);
            && HasPage(w, c) && c in f.level && f.level[c] + 1 == f.level[p]
            && c in f.parent && f.parent[c] == Edge(p, k)
  {
    assert EntryInForest(w, base, f, p, k);
  }

  lemma {:induction false} TableFromLevel(w: seq<U64>, base: nat, f: Forest, p: int, level: nat, low: nat, v: U64)
    requires IsForest(w, base, f) && p in f.level && f.level[p] == level && low <= level
    ensures HasPage(w, p)
    ensures var t := TableFrom(w, base, p, level, low, v);
            t.Some? ==> t.value in f.level && f.level[t.value] == low
    decreases level
  {
    ForestPage(w, base, f, p);
    hide IsForest, HasPage, IsBranch, Index;
    IndexInTable(v, level);
    if level > low {
      var e := Entry(w, p, Index(v, level));
      if IsBranch(e) {
        BranchLeadsDown(w, base, f, p, Index(v, level));
        TableFromLevel(w, base, f, Child(e, base), level - 1, low, v);
      }
    }
  }

  lemma IndexInTable(v: U64, level: nat)
    ensures Index(v, level) < ENTRIES
  {
  }

  lemma ForestPage(w: seq<U64>, base: nat, f: Forest, p: int)
    requires IsForest(w, base, f) && p in f.level
    ensures HasPage(w, p) && f.level[p] <= 2
  {
  }

  // The virtual addresses that share all indices above low.
  ghost predicate Agree(u: U64, v: U64, low: nat, level: nat) {
    forall k :: low < k <= level ==> Index(u, k) == Index(v, k)
  }

  /** A table is reached from one root only, and only by addresses that agree above its level. */
  lemma {:induction false} TableFromUnique(w: seq<U64>, base: nat, f: Forest, p: int, q: int, level: nat, low: nat,
                                           u: U64, v: U64)
    requires IsForest(w, base, f) && low <= level
    requires p in f.level && f.level[p] == level && q in f.level && f.level[q] == level
    requires HasPage(w, p) && HasPage(w, q)
    requires TableFrom(w, base, p, level, low, u).Some?
    requires TableFrom(w, base, p, level, low, u) == TableFrom(w, base, q, level, low, v)
    ensures p == q && Agree(u, v, low, level)
    decreases level
  {
    hide IsForest, HasPage, IsBranch, Index;
    IndexInTable(u, level);
    IndexInTable(v, level);
    if level > low {
      BranchLeadsDown(w, base, f, p, Index(u, level));
      BranchLeadsDown(w, base, f, q, Index(v, level));
      var c, d := Child(Entry(w, p, Index(u, level)), base), Child(Entry(w, q, Index(v, level)), base);
      TableFromUnique(w, base, f, c, d, level - 1, low, u, v);
    }
  }

  lemma {:induction false} TableFromAgree(w: seq<U64>, base: nat, p: int, level: nat, low: nat, u: U64, v: U64)
    requires HasPage(w, p) && low <= level && Agree(u, v, low, level)
    ensures TableFrom(w, base, p, level, low, u) == TableFrom(w, base, p, level, low, v)
    decreases level
  {
    if level > low {
      var e := Entry(w, p, Index(v, level));
      if IsBranch(e) && HasPage(w, Child(e, base)) {
        TableFromAgree(w, base, Child(e, base), level - 1, low, u, v);
      }
    }
  }

  // The walk passes through the table it reaches.
  lemma {:induction false} WalkThrough(w: seq<U64>, base: nat, p: int, level: nat, low: nat, v: U64)
    requires HasPage(w, p) && low <= level && TableFrom(w, base, p, level, low, v).Some?
    ensures HasPage(w, TableFrom(w, base, p, level, low, v).value)
    ensures Walk(w, base, p, level, v) == Walk(w, base, TableFrom(w, base, p, level, low, v).value, low, v)
    decreases level
  {
    if level > low {
      WalkThrough(w, base, Child(Entry(w, p, Index(v, level)), base), level - 1, low, v);
    }
  }

  // ---- Memories with the same tables ----

  ghost predicate SameTable(w: seq<U64>, w': seq<U64>, p: int)
    requires HasPage(w, p) && |w'| == |w|
  {
    forall k :: 0 <= k < ENTRIES ==> Entry(w', p, k) == Entry(w, p, k)
  }

  // The tables of a level above low are the same in both memories.
  ghost predicate SameAbove(w: seq<U64>, w': seq<U64>, f: Forest, low: int) {
    && |w| == |w'|
    && forall p :: p in f.level && f.level[p] > low ==> HasPage(w, p) && SameTable(w, w', p)
  }

  lemma {:induction false} TableFromSame(w: seq<U64>, w': seq<U64>, base: nat, f: Forest, p: int, level: nat,
                                         low: nat, v: U64)
    requires IsForest(w, base, f) && SameAbove(w, w', f, low)
    requires p in f.level && f.level[p] == level && low <= level && HasPage(w, p)
    ensures TableFrom(w', base, p, level, low, v) == TableFrom(w, base, p, level, low, v)
    decreases level
  {
    hide IsForest, IsBranch, Index;
    IndexInTable(v, level);
    if level > low {
      var e := Entry(w, p, Index(v, level));
      assert SameTable(w, w', p);
      assert Entry(w', p, Index(v, level)) == e;
      if IsBranch(e) {
        BranchLeadsDown(w, base, f, p, Index(v, level));
        TableFromSame(w, w', base, f, Child(e, base), level - 1, low, v);
      }
    }
  }

  // A walk over tables that are the same yields the same.
  lemma {:induction false} WalkSame(w: seq<U64>, w': seq<U64>, base: nat, f: Forest, p: int, level: nat, v: U64)
    requires IsForest(w, base, f) && |w| == |w'|
    requires p in f.level && f.level[p] == level && HasPage(w, p)
    requires forall q :: q in f.level && f.level[q] <= level ==> HasPage(w, q)
    requires forall q :: q in f.level && f.level[q] <= level ==> SameTable(w, w', q)
    ensures Walk(w', base, p, level, v) == Walk(w, base, p, level, v)
    decreases level
  {
    hide IsForest, IsBranch, Index;
    IndexInTable(v, level);
    var e := Entry(w, p, Index(v, level));
    assert SameTable(w, w', p);
    assert Entry(w', p, Index(v, level)) == e;
    BranchDef(e);
    if IsBranch(e) && level > 0 {
      BranchLeadsDown(w, base, f, p, Index(v, level));
      WalkSame(w, w', base, f, Child(e, base), level - 1, v);
    }
  }

  lemma BranchDef(e: U64)
    ensures IsBranch(e) <==> IsValid(e) && !IsLeaf(e)
  {
  }

  // ---- Writing one entry ----

  ghost function Written(w: seq<U64>, p: int, k: nat, e: U64): seq<U64>
    requires HasPage(w, p) && k < ENTRIES
  {
    w[ENTRIES * p + k := e]
  }

  lemma WrittenEntry(w: seq<U64>, p: int, k: nat, e: U64, q: int, i: nat)
    requires HasPage(w, p) && k < ENTRIES && HasPage(w, q) && i < ENTRIES
    ensures HasPage(Written(w, p, k, e), q)
    ensures Entry(Written(w, p, k, e), q, i) == if q == p && i == k then e else Entry(w, q, i)
  {
  }

  lemma WrittenTables(w: seq<U64>, base: nat, f: Forest, p: int, k: nat, e: U64)
    requires IsForest(w, base, f) && p in f.level && HasPage(w, p) && k < ENTRIES
    ensures SameAbove(w, Written(w, p, k, e), f, f.level[p])
    ensures forall q :: q in f.level && f.level[q] < f.level[p] ==>
              HasPage(w, q) && SameTable(w, Written(w, p, k, e), q)
  {
    hide Written, Entry;
    forall q | q in f.level && f.level[q] != f.level[p]
      ensures HasPage(w, q) && |Written(w, p, k, e)| == |w| && SameTable(w, Written(w, p, k, e), q)
    {
      WrittenLength(w, p, k, e);
      ForestPage(w, base, f, q);
      forall i | 0 <= i < ENTRIES ensures Entry(Written(w, p, k, e), q, i) == Entry(w, q, i) {
        WrittenEntry(w, p, k, e, q, i);
      }
    }
    WrittenLength(w, p, k, e);
  }

  lemma WrittenLength(w: seq<U64>, p: int, k: nat, e: U64)
    requires HasPage(w, p) && k < ENTRIES
    ensures |Written(w, p, k, e)| == |w|
  {
  }

  // A walk that stops above level low does not see what is below.
  lemma {:induction false} WalkStops(w: seq<U64>, w': seq<U64>, base: nat, f: Forest, p: int, level: nat, low: nat,
                                     v: U64)
    requires IsForest(w, base, f) && SameAbove(w, w', f, low)
    requires p in f.level && f.level[p] == level && low <= level && HasPage(w, p)
    requires TableFrom(w, base, p, level, low, v) == None
    ensures Walk(w', base, p, level, v) == Walk(w, base, p, level, v)
    decreases level
  {
    hide IsForest, IsBranch, Index;
    IndexInTable(v, level);
    if level > low {
      var e := Entry(w, p, Index(v, level));
      assert SameTable(w, w', p);
      assert Entry(w', p, Index(v, level)) == e;
      BranchDef(e);
      if IsBranch(e) {
        BranchLeadsDown(w, base, f, p, Index(v, level));
        WalkStops(w, w', base, f, Child(e, base), level - 1, low, v);
      }
    }
  }

  // One step of the walk in a table whose entry for v is not the one written.
  lemma WalkPast(w: seq<U64>, base: nat, f: Forest, p: int, k: nat, e: U64, q: int, v: U64)
    requires IsForest(w, base, f) && p in f.level && HasPage(w, p) && k < ENTRIES
    requires q in f.level && f.level[q] == f.level[p] && HasPage(w, q)
    requires q != p || Index(v, f.level[p]) != k
    ensures HasPage(Written(w, p, k, e), q)
    ensures Walk(Written(w, p, k, e), base, q, f.level[p], v) == Walk(w, base, q, f.level[p], v)
  {
    hide IsForest, IsBranch, Index, Entry, Written, SameTable;
    var w', level := Written(w, p, k, e), f.level[p];
    IndexInTable(v, level);
    WrittenEntry(w, p, k, e, q, Index(v, level));
    WrittenTables(w, base, f, p, k, e);
    WrittenLength(w, p, k, e);
    var d := Entry(w, q, Index(v, level));
    BranchDef(d);
    if IsBranch(d) && level > 0 {
      BranchLeadsDown(w, base, f, q, Index(v, level));
      WalkSame(w, w', base, f, Child(d, base), level - 1, v);
    }
  }

  // Whether the walk of v from table r reads entry k of table p, which has this level.
  ghost predicate Hits(w: seq<U64>, base: nat, f: Forest, r: int, p: int, k: nat, v: U64)
    requires HasPage(w, r) && r in f.level && p in f.level && f.level[p] <= f.level[r]
  {
    TableFrom(w, base, r, f.level[r], f.level[p], v) == Some(p) && Index(v, f.level[p]) == k
  }

  lemma WalkMiss(w: seq<U64>, base: nat, f: Forest, r: int, p: int, k: nat, e: U64, v: U64)
    requires IsForest(w, base, f) && p in f.level && HasPage(w, p) && k < ENTRIES
    requires r in f.level && HasPage(w, r) && f.level[p] <= f.level[r] && !Hits(w, base, f, r, p, k, v)
    ensures HasPage(Written(w, p, k, e), r)
    ensures Walk(Written(w, p, k, e), base, r, f.level[r], v) == Walk(w, base, r, f.level[r], v)
  {
    hide IsForest, IsBranch, Index, Entry, Written, SameTable, Walk, TableFrom;
    var w', level, low := Written(w, p, k, e), f.level[r], f.level[p];
    WrittenTables(w, base, f, p, k, e);
    WrittenLength(w, p, k, e);
    if TableFrom(w, base, r, level, low, v) == None {
      WalkStops(w, w', base, f, r, level, low, v);
    } else {
      var q := TableFrom(w, base, r, level, low, v).value;
      TableFromLevel(w, base, f, r, level, low, v);
      TableFromSame(w, w', base, f, r, level, low, v);
      WalkThrough(w, base, r, level, low, v);
      WalkThrough(w', base, r, level, low, v);
      WalkPast(w, base, f, p, k, e, q, v);
    }
  }

  lemma WalkHit(w: seq<U64>, base: nat, f: Forest, r: int, p: int, k: nat, e: U64, v: U64)
    requires IsForest(w, base, f) && p in f.level && HasPage(w, p) && k < ENTRIES
    requires r in f.level && HasPage(w, r) && f.level[p] <= f.level[r] && Hits(w, base, f, r, p, k, v)
    ensures HasPage(Written(w, p, k, e), r) && HasPage(Written(w, p, k, e), p)
    ensures Walk(w, base, r, f.level[r], v) == Walk(w, base, p, f.level[p], v)
    ensures Walk(Written(w, p, k, e), base, r, f.level[r], v) == Walk(Written(w, p, k, e), base, p, f.level[p], v)
  {
    hide IsForest, IsBranch, Index, Entry, Written, SameTable, Walk, TableFrom;
    var w', level, low := Written(w, p, k, e), f.level[r], f.level[p];
    WrittenTables(w, base, f, p, k, e);
    WrittenLength(w, p, k, e);
    TableFromSame(w, w', base, f, r, level, low, v);
    WalkThrough(w, base, r, level, low, v);
    WalkThrough(w', base, r, level, low, v);
  }

  // ---- Setting a leaf ----

  lemma LeafKeepsForest(w: seq<U64>, base: nat, f: Forest, p: int, k: nat, e: U64)
    requires IsForest(w, base, f) && p in f.level && HasPage(w, p) && k < ENTRIES && !IsBranch(e)
    ensures IsForest(Written(w, p, k, e), base, f)
  {
    hide Written, Entry, IsBranch;
    var w' := Written(w, p, k, e);
    WrittenLength(w, p, k, e);
    forall q, i | q in f.level && 0 <= i < ENTRIES ensures HasPage(w', q) && EntryInForest(w', base, f, q, i) {
      ForestPage(w, base, f, q);
      WrittenEntry(w, p, k, e, q, i);
      assert EntryInForest(w, base, f, q, i);
    }
    forall q | q in f.level ensures HasPage(w', q) && f.level[q] <= 2 {
      ForestPage(w, base, f, q);
    }
  }

  // The addresses in the same region of this level as v.
  ghost predicate SameRegion(u: U64, v: U64, level: nat) {
    Index(u, level) == Index(v, level) && Agree(u, v, level, 2)
  }

  /** Setting the leaf for v at a level maps the region of v and leaves every other translation, from
      this or any other root, as it was. */
  lemma SetLeaf(w: seq<U64>, base: nat, f: Forest, root: int, v: U64, level: nat, p: int, e: U64, r: int, u: U64)
    requires IsForest(w, base, f) && level <= 2 && HasPage(w, root) && HasPage(w, r) && HasPage(w, p)
    requires root in f.level && f.level[root] == 2 && r in f.level && f.level[r] == 2
    requires TableFrom(w, base, root, 2, level, v) == Some(p)
    requires IsValid(e) && IsLeaf(e)
    ensures var w' := Written(w, p, Index(v, level), e);
            && HasPage(w', r)
            && Walk(w', base, r, 2, u) ==
               if r == root && SameRegion(u, v, level) then Some(Target(e, u, level)) else Walk(w, base, r, 2, u)
  {
    hide IsForest, Index, Entry, Written, Walk, TableFrom, Agree;
    var k := Index(v, level);
    IndexInTable(v, level);
    TableFromLevel(w, base, f, root, 2, level, v);
    WrittenLength(w, p, k, e);
    if Hits(w, base, f, r, p, k, u) {
      TableFromUnique(w, base, f, r, root, 2, level, u, v);
      WalkHit(w, base, f, r, p, k, e, u);
      WalkAtLeaf(w, base, p, level, k, e, u);
    } else {
      WalkMiss(w, base, f, r, p, k, e, u);
      if r == root && SameRegion(u, v, level) {
        TableFromAgree(w, base, root, 2, level, u, v);
      }
    }
  }

  lemma WalkAtLeaf(w: seq<U64>, base: nat, p: int, level: nat, k: nat, e: U64, u: U64)
    requires HasPage(w, p) && k == Index(u, level) && IsValid(e) && IsLeaf(e)
    ensures HasPage(Written(w, p, k, e), p)
    ensures Walk(Written(w, p, k, e), base, p, level, u) == Some(Target(e, u, level))
  {
    hide Entry, Written, Index;
    IndexInTable(u, level);
    WrittenEntry(w, p, k, e, p, k);
  }

  // ---- Installing a new table ----

  ghost function Zeroed(w: seq<U64>, c: int): seq<U64>
    requires HasPage(w, c)
  {
    seq(|w|, i requires 0 <= i < |w| => if ENTRIES * c <= i < ENTRIES * c + ENTRIES then 0 else w[i])
  }

  lemma ZeroedEntry(w: seq<U64>, c: int, q: int, i: nat)
    requires HasPage(w, c) && HasPage(w, q) && i < ENTRIES
    ensures |Zeroed(w, c)| == |w|
    ensures Entry(Zeroed(w, c), q, i) == if q == c then 0 else Entry(w, q, i)
  {
  }

  lemma ZeroedLength(w: seq<U64>, c: int)
    requires HasPage(w, c)
    ensures |Zeroed(w, c)| == |w|
  {
  }

  lemma ZeroedTable(w: seq<U64>, c: int, q: int)
    requires HasPage(w, c) && HasPage(w, q) && q != c
    ensures |Zeroed(w, c)| == |w| && SameTable(w, Zeroed(w, c), q)
  {
    hide Zeroed, Entry;
    ZeroedLength(w, c);
    forall i | 0 <= i < ENTRIES ensures Entry(Zeroed(w, c), q, i) == Entry(w, q, i) {
      ZeroedEntry(w, c, q, i);
    }
  }

  lemma ZeroedKeepsForest(w: seq<U64>, base: nat, f: Forest, c: int)
    requires IsForest(w, base, f) && HasPage(w, c) && c !in f.level
    ensures IsForest(Zeroed(w, c), base, f)
  {
    hide Zeroed, Entry, IsBranch;
    ZeroedLength(w, c);
    forall q, i | q in f.level && 0 <= i < ENTRIES
      ensures HasPage(Zeroed(w, c), q) && EntryInForest(Zeroed(w, c), base, f, q, i)
    {
      ForestPage(w, base, f, q);
      ZeroedEntry(w, c, q, i);
      assert EntryInForest(w, base, f, q, i);
    }
    forall q | q in f.level ensures HasPage(Zeroed(w, c), q) && f.level[q] <= 2 {
      ForestPage(w, base, f, q);
    }
  }

  lemma ZeroedKeepsWalk(w: seq<U64>, base: nat, f: Forest, c: int, r: int, u: U64)
    requires IsForest(w, base, f) && HasPage(w, c) && c !in f.level && r in f.level && HasPage(w, r)
    ensures HasPage(Zeroed(w, c), r) && Walk(Zeroed(w, c), base, r, f.level[r], u) == Walk(w, base, r, f.level[r], u)
  {
    hide Zeroed, Entry, Walk, IsForest, SameTable;
    ZeroedLength(w, c);
    forall q | q in f.level ensures HasPage(w, q) && SameTable(w, Zeroed(w, c), q) {
      ForestPage(w, base, f, q);
      ZeroedTable(w, c, q);
    }
    WalkSame(w, Zeroed(w, c), base, f, r, f.level[r], u);
  }

  // Any change outside the tables keeps the forest.
  lemma SameKeepsForest(w: seq<U64>, w': seq<U64>, base: nat, f: Forest)
    requires IsForest(w, base, f) && SameAbove(w, w', f, -1)
    ensures IsForest(w', base, f)
  {
    hide Entry, IsBranch;
    forall q, i | q in f.level && 0 <= i < ENTRIES
      ensures HasPage(w', q) && EntryInForest(w', base, f, q, i)
    {
      ForestPage(w, base, f, q);
      assert SameTable(w, w', q);
      assert EntryInForest(w, base, f, q, i);
    }
    forall q | q in f.level ensures HasPage(w', q) && f.level[q] <= 2 {
      ForestPage(w, base, f, q);
    }
  }

  // The page c, zeroed, becomes the table behind entry k of table p.
  ghost function Installed(w: seq<U64>, base: nat, c: int, p: int, k: nat): seq<U64>
    requires HasPage(w, c) && HasPage(w, p) && k < ENTRIES && BranchTo(base + c) < WORD
  {
    ZeroedLength(w, c);
    Written(Zeroed(w, c), p, k, BranchTo(base + c))
  }

  ghost function Planted(f: Forest, c: int, p: int, k: nat): Forest
    requires p in f.level && f.level[p] > 0
  {
    Forest(f.level[c := f.level[p] - 1], f.parent[c := Edge(p, k)])
  }

  lemma InstalledEntry(w: seq<U64>, base: nat, c: int, p: int, k: nat, q: int, i: nat)
    requires HasPage(w, c) && HasPage(w, p) && k < ENTRIES && BranchTo(base + c) < WORD
    requires HasPage(w, q) && i < ENTRIES && p != c
    ensures |Installed(w, base, c, p, k)| == |w|
    ensures Entry(Installed(w, base, c, p, k), q, i) ==
            if q == p && i == k then BranchTo(base + c) else if q == c then 0 else Entry(w, q, i)
  {
    hide Zeroed, Entry, Written;
    ZeroedLength(w, c);
    WrittenLength(Zeroed(w, c), p, k, BranchTo(base + c));
    WrittenEntry(Zeroed(w, c), p, k, BranchTo(base + c), q, i);
    ZeroedEntry(w, c, q, i);
  }

  lemma InstallKeepsForest(w: seq<U64>, base: nat, f: Forest, c: int, p: int, k: nat)
    requires IsForest(w, base, f) && HasPage(w, c) && c !in f.level && BranchTo(base + c) < WORD
    requires p in f.level && f.level[p] > 0 && HasPage(w, p) && k < ENTRIES
    ensures IsForest(Installed(w, base, c, p, k), base, Planted(f, c, p, k))
  {
    hide Installed, Entry, IsBranch, BranchTo;
    var w', f' := Installed(w, base, c, p, k), Planted(f, c, p, k);
    InstalledEntry(w, base, c, p, k, p, k);
    InstalledBranch(base, c);
    ForestPage(w, base, f, p);
    forall q, i | q in f'.level && 0 <= i < ENTRIES ensures HasPage(w', q) && EntryInForest(w', base, f', q, i) {
      if q == c {
        InstalledEntry(w, base, c, p, k, c, i);
      } else {
        ForestPage(w, base, f, q);
        InstalledEntry(w, base, c, p, k, q, i);
        assert EntryInForest(w, base, f, q, i);
      }
    }
    forall q | q in f'.level ensures HasPage(w', q) && f'.level[q] <= 2 {
      if q != c {
        ForestPage(w, base, f, q);
      }
    }
  }

  lemma InstalledBranch(base: nat, c: int)
    requires base + c >= 0 && BranchTo(base + c) < WORD
    ensures IsBranch(BranchTo(base + c)) && Child(BranchTo(base + c), base) == c
    ensures !IsBranch(0)
  {
    BranchToIsBranch(base + c);
  }

  /** A new, empty table behind an invalid entry changes no translation from any root. */
  lemma InstallKeepsWalk(w: seq<U64>, base: nat, f: Forest, c: int, p: int, k: nat, r: int, u: U64)
    requires IsForest(w, base, f) && HasPage(w, c) && c !in f.level && BranchTo(base + c) < WORD
    requires p in f.level && f.level[p] > 0 && HasPage(w, p) && k < ENTRIES && !IsValid(Entry(w, p, k))
    requires r in f.level && HasPage(w, r) && f.level[p] <= f.level[r]
    ensures HasPage(Installed(w, base, c, p, k), r)
    ensures Walk(Installed(w, base, c, p, k), base, r, f.level[r], u) == Walk(w, base, r, f.level[r], u)
  {
    hide Entry, Walk, IsForest, Zeroed, Written, Hits, BranchTo;
    var w1, e := Zeroed(w, c), BranchTo(base + c);
    ZeroedLength(w, c);
    ZeroedKeepsForest(w, base, f, c);
    ZeroedKeepsWalk(w, base, f, c, r, u);
    if Hits(w1, base, f, r, p, k, u) {
      WalkHit(w1, base, f, r, p, k, e, u);
      WalkIntoEmpty(w, base, c, p, k, f.level[p], u);
      HitsIndex(w1, base, f, r, p, k, u);
    } else {
      WalkMiss(w1, base, f, r, p, k, e, u);
    }
  }

  lemma HitsIndex(w: seq<U64>, base: nat, f: Forest, r: int, p: int, k: nat, v: U64)
    requires HasPage(w, r) && r in f.level && p in f.level && f.level[p] <= f.level[r] && Hits(w, base, f, r, p, k, v)
    ensures Index(v, f.level[p]) == k
  {
  }

  lemma WalkIntoEmpty(w: seq<U64>, base: nat, c: int, p: int, k: nat, level: nat, u: U64)
    requires HasPage(w, c) && HasPage(w, p) && k < ENTRIES && p != c && level > 0
    requires BranchTo(base + c) < WORD && !IsValid(Entry(w, p, k))
    ensures |Zeroed(w, c)| == |w| && |Installed(w, base, c, p, k)| == |w|
    ensures Index(u, level) == k ==>
              Walk(Zeroed(w, c), base, p, level, u) == None == Walk(Installed(w, base, c, p, k), base, p, level, u)
  {
    hide Entry, Installed, Zeroed, Index, BranchTo;
    IndexInTable(u, level - 1);
    ZeroedEntry(w, c, p, k);
    InstalledEntry(w, base, c, p, k, p, k);
    InstalledEntry(w, base, c, p, k, c, Index(u, level - 1));
    InstalledBranch(base, c);
  }
}
