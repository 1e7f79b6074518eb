/** Three-level page tables (RISC-V Privileged Architecture, section 4.4), kept in pages of 512
    words, and the translation they define. */
module TableModel {
  import opened Basics
  import opened Arithmetic

  const ENTRIES: nat := 512
  const WORD: nat := 0x1_0000_0000_0000_0000

  type U64 = x: int | 0 <= x < WORD

  // ---- Addresses and entries ----

  // The bytes that one entry of a table at this level covers.
  function Size(level: nat): (s: nat)
    ensures s > 0
  {
    if level == 0 then 0x1000 else if level == 1 then 0x20_0000 else 0x4000_0000
  }

  // vpn[level] or ppn[level]
  function Index(a: U64, level: nat): (i: nat)
    ensures i < ENTRIES
  {
    a / Size(level) % ENTRIES
  }

  predicate IsValid(e: U64) {
    e % 2 == 1
  }

  // Any of the bits Read, Write, Execute
  predicate IsLeaf(e: U64) {
    e / 2 % 8 != 0
  }

  predicate IsBranch(e: U64) {
    IsValid(e) && !IsLeaf(e)
  }

  function Ppn(e: U64): nat {
    e / 1024
  }

  // (p >> 2) | Valid, for the address p of a page
  function BranchTo(ppn: nat): nat {
    1024 * ppn + 1
  }

  lemma BranchToIsBranch(ppn: nat)
    requires BranchTo(ppn) < WORD
    ensures IsBranch(BranchTo(ppn)) && Ppn(BranchTo(ppn)) == ppn
    ensures BranchTo(ppn) % 1024 == 1 && BranchTo(ppn) / 1024 == ppn
  {
    DivisionIsUnique(BranchTo(ppn), 1024, ppn, 1);
    DivisionIsUnique(BranchTo(ppn), 2, 512 * ppn, 1);
    DivisionIsUnique(512 * ppn, 8, 64 * ppn, 0);
  }

  function WithBit(x: nat, bit: nat): nat
    requires bit > 0
  {
    if x / bit % 2 == 1 then x else x + bit
  }

  // bits | Valid | Dirty | Access
  function Flags(bits: nat): nat {
    WithBit(WithBit(WithBit(bits, 1), 128), 64)
  }

  // ---- Bit k of x, as x / Pow2(k) % 2 ----

  lemma HalvesFirst(x: nat, p: nat)
    requires p > 0
    ensures x / (2 * p) == x / 2 / p
  {
    DividesTwice(x, 2, p);
  }

  lemma WithBitHalves(x: nat, p: nat)
    requires p > 0
    ensures WithBit(x, 2 * p) == 2 * WithBit(x / 2, p) + x % 2
  {
    HalvesFirst(x, p);
  }

  lemma PowerUnfolds(k: nat)
    ensures Pow2(0) == 1
    ensures k > 0 ==> Pow2(k) == 2 * Pow2(k - 1)
  {
  }

  lemma {:induction false} WithBitSets(x: nat, j: nat, k: nat)
    ensures WithBit(x, Pow2(j)) / Pow2(k) % 2 == if j == k then 1 else x / Pow2(k) % 2
    decreases k
  {
    hide WithBit, Pow2;
    PowerUnfolds(j);
    PowerUnfolds(k);
    LowestBit(x, j);
    if k > 0 {
      HalvesFirst(WithBit(x, Pow2(j)), Pow2(k - 1));
      HalvesFirst(x, Pow2(k - 1));
      if j > 0 {
        WithBitSets(x / 2, j - 1, k - 1);
      }
    }
  }

  // The lowest bit, and the number without it.
  lemma LowestBit(x: nat, j: nat)
    ensures WithBit(x, Pow2(j)) % 2 == if j == 0 then 1 else x % 2
    ensures WithBit(x, Pow2(j)) / 2 == if j == 0 then x / 2 else WithBit(x / 2, Pow2(j - 1))
  {
    if j > 0 {
      hide WithBit, Pow2;
      PowerUnfolds(j);
      WithBitHalves(x, Pow2(j - 1));
    }
  }

  lemma {:induction false} WithBitFits(x: nat, j: nat, m: nat)
    requires x < Pow2(m) && j < m
    ensures WithBit(x, Pow2(j)) < Pow2(m)
    decreases m
  {
    if j > 0 {
      hide WithBit;
      WithBitHalves(x, Pow2(j - 1));
      WithBitFits(x / 2, j - 1, m - 1);
    } else {
      assert Pow2(m) == 2 * Pow2(m - 1);
    }
  }

  lemma HalvesSum(t: nat, f: nat)
    ensures (2 * t + f) % 2 == f % 2 && (2 * t + f) / 2 == t + f / 2
  {
  }

  lemma Doubled(n: nat, p: nat)
    ensures n * (2 * p) == 2 * (n * p)
  {
  }

  // What is above bit m does not matter to the bits below it.
  lemma {:induction false} HighIgnored(n: nat, f: nat, m: nat, k: nat)
    requires k < m
    ensures (n * Pow2(m) + f) / Pow2(k) % 2 == f / Pow2(k) % 2
    decreases k
  {
    hide Pow2;
    PowerUnfolds(m);
    PowerUnfolds(k);
    Doubled(n, Pow2(m - 1));
    HalvesSum(n * Pow2(m - 1), f);
    if k > 0 {
      HalvesFirst(n * Pow2(m) + f, Pow2(k - 1));
      HalvesFirst(f, Pow2(k - 1));
      HighIgnored(n, f / 2, m - 1, k - 1);
    }
  }

  lemma Powers()
    ensures Pow2(0) == 1 && Pow2(1) == 2 && Pow2(2) == 4 && Pow2(3) == 8 && Pow2(4) == 16 && Pow2(5) == 32
    ensures Pow2(6) == 64 && Pow2(7) == 128 && Pow2(10) == 1024
  {
    assert Pow2(3) == 8 && Pow2(6) == 64 && Pow2(9) == 512;
  }

  lemma FlagsSet(bits: nat, k: nat)
    ensures Flags(bits) / Pow2(k) % 2 == if k == 0 || k == 6 || k == 7 then 1 else bits / Pow2(k) % 2
    ensures bits < 1024 ==> Flags(bits) < 1024
  {
    hide WithBit, Pow2;
    Powers();
    var x := WithBit(bits, 1);
    var y := WithBit(x, 128);
    WithBitSets(bits, 0, k);
    WithBitSets(x, 7, k);
    WithBitSets(y, 6, k);
    if bits < 1024 {
      WithBitFits(bits, 0, 10);
      WithBitFits(x, 7, 10);
      WithBitFits(y, 6, 10);
    }
  }

  function LeafEntry(paddr: U64, bits: nat): nat {
    Index(paddr, 2) * 0x1000_0000 + Index(paddr, 1) * 0x8_0000 + Index(paddr, 0) * 0x400 + Flags(bits)
  }

  // The address that leaf e at this level gives to vaddr.
  function Target(e: U64, vaddr: U64, level: nat): nat {
    4 * e % WORD / Size(level) * Size(level) + vaddr % Size(level)
  }

  lemma PageIndices(a: U64)
    ensures Index(a, 0) == a / 0x1000 % 512
    ensures Index(a, 1) == a / 0x1000 / 512 % 512
    ensures Index(a, 2) == a / 0x1000 / 512 / 512 % 512
  {
    assert a / 0x20_0000 == a / 0x1000 / 512;
    assert a / 0x4000_0000 == a / 0x20_0000 / 512;
  }

  lemma ThreeDigits(p: nat)
    ensures p / 512 / 512 % 512 * 0x4_0000 + p / 512 % 512 * 512 + p % 512 == p % 0x800_0000
  {
    var q := p / 512;
    var r := q / 512;
    assert p == 512 * q + p % 512 && q == 512 * r + q % 512 && r == 512 * (r / 512) + r % 512;
    assert p == 0x800_0000 * (r / 512) + (r % 512 * 0x4_0000 + q % 512 * 512 + p % 512);
  }

  lemma LowAddress(a: nat)
    ensures a % 0x80_0000_0000 / 0x1000 == a / 0x1000 % 0x800_0000
  {
    var p, o := a / 0x1000, a % 0x1000;
    var h, l := p / 0x800_0000, p % 0x800_0000;
    assert a == 0x1000 * p + o && p == 0x800_0000 * h + l;
    Splits(a, 0x80_0000_0000, h, 0x1000 * l + o);
    Splits(0x1000 * l + o, 0x1000, l, o);
  }

  lemma Splits(a: int, m: int, q: int, r: int)
    requires m == 0x80_0000_0000 || m == 0x1000
    requires 0 <= r < m && a == m * q + r
    ensures a % m == r && a / m == q
  {
  }

  lemma IndicesCompose(a: U64)
    ensures Index(a, 2) * 0x4000_0000 + Index(a, 1) * 0x20_0000 + Index(a, 0) * 0x1000 ==
            a % 0x80_0000_0000 / 0x1000 * 0x1000
  {
    hide Index;
    PageIndices(a);
    ThreeDigits(a / 0x1000);
    LowAddress(a);
  }

  // The entry is the number of the page, and below it the flags.
  lemma LeafParts(paddr: U64, bits: nat)
    ensures var n := paddr % 0x80_0000_0000 / 0x1000;
            n < 0x800_0000 && LeafEntry(paddr, bits) == n * 1024 + Flags(bits)
  {
    hide Index, Flags;
    IndicesCompose(paddr);
  }

  /** The low bits of the entry are those given, and Valid, Accessed and Dirty; above the ten lowest is the page
      number. */
  lemma LeafFields(paddr: U64, bits: nat, k: nat)
    requires bits < 1024 && k < 10
    ensures var e := LeafEntry(paddr, bits);
            && (e / Pow2(k) % 2 == 1 <==> bits / Pow2(k) % 2 == 1 || k == 0 || k == 6 || k == 7)
            && e / 1024 == paddr % 0x80_0000_0000 / 0x1000 && 4 * e < WORD
  {
    hide LeafEntry, Flags, Pow2;
    Powers();
    FlagsSet(bits, k);
    LeafParts(paddr, bits);
    HighIgnored(paddr % 0x80_0000_0000 / 0x1000, Flags(bits), 10, k);
  }

  /** Read, Write, Execute, User and Global come through unchanged; Valid, Accessed and Dirty are set. */
  lemma LeafPermissions(paddr: U64, bits: nat)
    requires bits < 1024
    ensures var e := LeafEntry(paddr, bits);
            && e / 2 % 2 == bits / 2 % 2 && e / 4 % 2 == bits / 4 % 2 && e / 8 % 2 == bits / 8 % 2
            && e / 16 % 2 == bits / 16 % 2 && e / 32 % 2 == bits / 32 % 2
            && e % 2 == 1 && e / 64 % 2 == 1 && e / 128 % 2 == 1
    ensures LeafEntry(paddr, bits) / 2 % 8 == bits / 2 % 8
  {
    hide LeafEntry, Pow2;
    Powers();
    LeafFields(paddr, bits, 0);
    LeafFields(paddr, bits, 1);
    LeafFields(paddr, bits, 2);
    LeafFields(paddr, bits, 3);
    LeafFields(paddr, bits, 4);
    LeafFields(paddr, bits, 5);
    LeafFields(paddr, bits, 6);
    LeafFields(paddr, bits, 7);
    ThreeBits(bits);
    ThreeBits(LeafEntry(paddr, bits));
  }

  lemma ThreeBits(x: nat)
    ensures x / 2 % 8 == x / 2 % 2 + 2 * (x / 4 % 2) + 4 * (x / 8 % 2)
  {
    HalvesFirst(x, 2);
    HalvesFirst(x, 4);
    HalvesFirst(x / 2, 2);
  }

  lemma TargetIs(e: U64, q: nat, low: nat, vaddr: U64, level: nat)
    requires 4 * e < WORD && 4 * e == q / 0x1000 * 0x1000 + low && low < 0x1000 && level <= 2
    ensures Target(e, vaddr, level) == q / Size(level) * Size(level) + vaddr % Size(level)
  {
    RoundDown(q, low, level);
    hide Size;
    assert 4 * e % WORD == 4 * e;
  }

  /** A leaf for paddr maps vaddr to paddr, its low bits replaced by those of vaddr. Of paddr only
      the low 39 bits count. */
  lemma LeafTarget(paddr: U64, bits: nat, vaddr: U64, level: nat)
    requires bits < 1024 && level <= 2
    ensures LeafEntry(paddr, bits) < WORD
    ensures IsValid(LeafEntry(paddr, bits))
    ensures IsLeaf(LeafEntry(paddr, bits)) <==> bits / 2 % 8 != 0
    ensures Target(LeafEntry(paddr, bits), vaddr, level) ==
            paddr % 0x80_0000_0000 / Size(level) * Size(level) + vaddr % Size(level)
  {
    hide Flags, Size, LeafEntry, Pow2, Target;
    LeafPermissions(paddr, bits);
    LeafFields(paddr, bits, 0);
    LeafParts(paddr, bits);
    FlagsSet(bits, 0);
    TargetIs(LeafEntry(paddr, bits), paddr % 0x80_0000_0000, 4 * Flags(bits), vaddr, level);
  }

  lemma RoundDown(q: nat, low: nat, level: nat)
    requires low < 0x1000 && level <= 2
    ensures (q / 0x1000 * 0x1000 + low) / Size(level) == q / Size(level)
  {
    var p := q / 0x1000;
    assert (p * 0x1000 + low) / 0x1000 == p;
    if level == 1 {
      assert (p * 0x1000 + low) / 0x20_0000 == p / 512 == q / 0x20_0000;
    } else if level == 2 {
      assert (p * 0x1000 + low) / 0x4000_0000 == p / 0x4_0000 == q / 0x4000_0000;
    }
  }
}
