/** Least-significant-digit radix sort of 32-bit words: four counting passes over bytes. */
module RadixSort {
  import opened Arithmetic
  import opened Basics


  const BASE: nat := 256


  // 256^k, so that shifting right by 8k bits divides by it.
  function Pow256(k: nat): (p: nat)
    ensures p > 0
  {
    if k == 0 then 1 else BASE * Pow256(k - 1)
  }

  function Digit(x: U32, k: nat): (d: nat)
    ensures d < BASE
  {
    x / Pow256(k) % BASE
  }

  // ---- The reference: distribute into buckets, keeping the order within each ----

  ghost function Bucket(s: seq<U32>, k: nat, d: nat): seq<U32> {
    if s == [] then [] else
      Bucket(s[..|s| - 1], k, d) + if Digit(s[|s| - 1], k) == d then [s[|s| - 1]] else []
  }

  ghost function Buckets(s: seq<U32>, k: nat, d: nat): seq<U32> {
    if d == 0 then [] else Buckets(s, k, d - 1) + Bucket(s, k, d - 1)
  }

  ghost function Pass(s: seq<U32>, k: nat): seq<U32> {
    Buckets(s, k, BASE)
  }

  lemma BucketAppend(s: seq<U32>, x: U32, k: nat, d: nat)
    ensures Bucket(s + [x], k, d) == Bucket(s, k, d) + if Digit(x, k) == d then [x] else []
  {
    assert (s + [x])[..|s|] == s;
  }

  lemma {:induction false} BucketConcat(s: seq<U32>, t: seq<U32>, k: nat, d: nat)
    ensures Bucket(s + t, k, d) == Bucket(s, k, d) + Bucket(t, k, d)
  {
    if t == [] {
      assert s + t == s;
    } else {
      var u, x := t[..|t| - 1], t[|t| - 1];
      assert s + t == (s + u) + [x];
      BucketAppend(s + u, x, k, d);
      BucketConcat(s, u, k, d);
    }
  }

  lemma {:induction false} BucketDigits(s: seq<U32>, k: nat, d: nat)
    ensures forall x :: x in Bucket(s, k, d) ==> Digit(x, k) == d
  {
    if s != [] {
      BucketDigits(s[..|s| - 1], k, d);
    }
  }

  lemma {:induction false} BucketsLength(s: seq<U32>, k: nat, d: nat, e: nat)
    requires d <= e
    ensures |Buckets(s, k, d)| <= |Buckets(s, k, e)|
    ensures Buckets(s, k, d) == Buckets(s, k, e)[..|Buckets(s, k, d)|]
  {
    if d < e {
      BucketsLength(s, k, d, e - 1);
    }
  }

  // ---- What a pass does: a stable permutation, in order of the digit ----

  lemma JoinsPermute(u: seq<U32>, v: seq<U32>, u': seq<U32>, v': seq<U32>, x: U32, m: multiset<U32>, y: seq<U32>)
    requires multiset(u') == multiset(u) + m && v' == v + y
    ensures multiset(u' + v') == multiset(u + v) + m + multiset(y)
  {
  }

  lemma {:induction false} BucketsPermute(s: seq<U32>, x: U32, k: nat, d: nat)
    ensures multiset(Buckets(s + [x], k, d)) ==
            multiset(Buckets(s, k, d)) + if Digit(x, k) < d then multiset{x} else multiset{}
  {
    hide Digit, Bucket;
    if d > 0 {
      var dx := Digit(x, k);
      BucketsPermute(s, x, k, d - 1);
      BucketAppend(s, x, k, d - 1);
      JoinsPermute(Buckets(s, k, d - 1), Bucket(s, k, d - 1), Buckets(s + [x], k, d - 1), Bucket(s + [x], k, d - 1), x,
                   if dx < d - 1 then multiset{x} else multiset{}, if dx == d - 1 then [x] else []);
    }
  }

  lemma {:induction false} BucketsOfEmpty(k: nat, d: nat)
    ensures Buckets([], k, d) == []
  {
    if d > 0 {
      BucketsOfEmpty(k, d - 1);
    }
  }

  lemma {:induction false} PassPermutes(s: seq<U32>, k: nat)
    ensures multiset(Pass(s, k)) == multiset(s) && |Pass(s, k)| == |s|
  {
    if s == [] {
      BucketsOfEmpty(k, BASE);
    } else {
      var u, x := s[..|s| - 1], s[|s| - 1];
      assert s == u + [x];
      PassPermutes(u, k);
      BucketsPermute(u, x, k, BASE);
      assert multiset(Pass(s, k)) == multiset(u) + multiset{x} == multiset(s);
    }
    assert |Pass(s, k)| == |multiset(Pass(s, k))| == |multiset(s)| == |s|;
  }

  lemma {:induction false} BucketOfUniform(s: seq<U32>, k: nat, d: nat, e: nat)
    requires forall x :: x in s ==> Digit(x, k) == e
    ensures Bucket(s, k, d) == if d == e then s else []
  {
    if s != [] {
      assert s[|s| - 1] in s;
      BucketOfUniform(s[..|s| - 1], k, d, e);
    }
  }

  lemma BucketOfJoin(u: seq<U32>, v: seq<U32>, k: nat, d: nat, e: nat, whole: seq<U32>)
    requires Bucket(u, k, d) == if d < e then whole else []
    requires forall x :: x in v ==> Digit(x, k) == e
    requires d == e ==> v == whole
    ensures Bucket(u + v, k, d) == if d <= e then whole else []
  {
    hide Digit, Bucket;
    BucketConcat(u, v, k, d);
    BucketOfUniform(v, k, d, e);
    assert u + [] == u && [] + v == v;
    assert Bucket(u, k, d) + [] == Bucket(u, k, d) && [] + whole == whole;
  }

  lemma {:induction false} BucketOfBuckets(s: seq<U32>, k: nat, d: nat, e: nat)
    ensures Bucket(Buckets(s, k, e), k, d) == if d < e then Bucket(s, k, d) else []
  {
    hide *;
    BucketsUnfold(s, k, e);
    if e == 0 {
      BucketOfUniform([], k, d, d + 1);
    } else {
      BucketOfBuckets(s, k, d, e - 1);
      BucketDigits(s, k, e - 1);
      BucketOfJoin(Buckets(s, k, e - 1), Bucket(s, k, e - 1), k, d, e - 1, Bucket(s, k, d));
    }
  }

  /** Stability: elements with equal digits keep their relative order. */
  lemma PassIsStable(s: seq<U32>, k: nat, d: nat)
    requires d < BASE
    ensures Bucket(Pass(s, k), k, d) == Bucket(s, k, d)
  {
    BucketOfBuckets(s, k, d, BASE);
  }

  // ---- Why least-significant digit first works ----

  ghost predicate OrderedLow(s: seq<U32>, k: nat) {
    forall i, j :: 0 <= i < j < |s| ==> s[i] % Pow256(k) <= s[j] % Pow256(k)
  }

  lemma Pow256Values()
    ensures Pow256(0) == 1 && Pow256(1) == 0x100 && Pow256(2) == 0x1_0000
    ensures Pow256(3) == 0x100_0000 && Pow256(4) == 0x1_0000_0000
  {
    assert Pow256(2) == 0x1_0000;
    assert Pow256(3) == 0x100_0000;
  }

  lemma SplitBytes(x: U32)
    ensures x / 1 == x
    ensures x % 0x1_0000 == x / 0x100 % 0x100 * 0x100 + x % 0x100
    ensures x % 0x100_0000 == x / 0x1_0000 % 0x100 * 0x1_0000 + x % 0x1_0000
    ensures x % 0x1_0000_0000 == x / 0x100_0000 % 0x100 * 0x100_0000 + x % 0x100_0000
  {
    ModSplits(x, 0x100, 0x100);
    ModSplits(x, 0x1_0000, 0x100);
    ModSplits(x, 0x100_0000, 0x100);
  }

  lemma DigitSplits(x: U32, k: nat)
    requires k < 4
    ensures x % Pow256(k + 1) == Digit(x, k) * Pow256(k) + x % Pow256(k)
  {
    Pow256Values();
    hide Pow256;
    SplitBytes(x);
  }

  lemma DigitDominates(x: U32, y: U32, k: nat)
    requires k < 4 && Digit(x, k) < Digit(y, k)
    ensures x % Pow256(k + 1) <= y % Pow256(k + 1)
  {
    DigitSplits(x, k);
    DigitSplits(y, k);
    hide Digit;
    Dominates(Digit(x, k), Digit(y, k), x % Pow256(k), y % Pow256(k), Pow256(k));
  }

  lemma Dominates(d: int, e: int, x: int, y: int, p: int)
    requires d < e && 0 <= x < p && 0 <= y
    ensures d * p + x <= e * p + y
  {
    assert (d + 1) * p <= e * p;
  }

  // Ordered on the digits below the k-th: each bucket still is.
  lemma {:induction false} BucketOrdered(s: seq<U32>, k: nat, d: nat)
    requires OrderedLow(s, k)
    ensures OrderedLow(Bucket(s, k, d), k)
  {
    if s != [] {
      var u, x := s[..|s| - 1], s[|s| - 1];
      BucketOrdered(u, k, d);
      var b := Bucket(u, k, d);
      forall i | 0 <= i < |b| ensures b[i] % Pow256(k) <= x % Pow256(k) {
        BucketSubset(u, k, d, b[i]);
        var j :| 0 <= j < |u| && u[j] == b[i];
      }
    }
  }

  lemma {:induction false} BucketSubset(s: seq<U32>, k: nat, d: nat, x: U32)
    requires x in Bucket(s, k, d)
    ensures x in s
  {
    if s != [] && x in Bucket(s[..|s| - 1], k, d) {
      BucketSubset(s[..|s| - 1], k, d, x);
    }
  }

  lemma {:induction false} BucketsOrdered(s: seq<U32>, k: nat, d: nat)
    requires k < 4 && OrderedLow(s, k)
    ensures OrderedLow(Buckets(s, k, d), k + 1)
    ensures forall x :: x in Buckets(s, k, d) ==> Digit(x, k) < d
  {
    if d > 0 {
      var u, v := Buckets(s, k, d - 1), Bucket(s, k, d - 1);
      BucketsOrdered(s, k, d - 1);
      BucketOrdered(s, k, d - 1);
      BucketDigits(s, k, d - 1);
      JoinOrdered(u, v, k, d - 1);
    }
  }

  lemma JoinOrdered(u: seq<U32>, v: seq<U32>, k: nat, d: nat)
    requires k < 4 && OrderedLow(u, k + 1) && OrderedLow(v, k)
    requires forall x :: x in u ==> Digit(x, k) < d
    requires forall x :: x in v ==> Digit(x, k) == d
    ensures OrderedLow(u + v, k + 1)
  {
    hide Digit, Pow256;
    var w := u + v;
    forall i, j | 0 <= i < j < |w| ensures w[i] % Pow256(k + 1) <= w[j] % Pow256(k + 1) {
      if i < |u| <= j {
        assert w[i] in u && w[j] in v;
        DigitDominates(w[i], w[j], k);
      } else if |u| <= i {
        assert w[i] == v[i - |u|] && w[j] == v[j - |u|];
        assert w[i] in v && w[j] in v;
        DigitSplits(w[i], k);
        DigitSplits(w[j], k);
      }
    }
  }

  /** One more pass: what was in order of the low 8k bits is now in order of the low 8(k+1). */
  lemma PassOrders(s: seq<U32>, k: nat)
    requires k < 4 && OrderedLow(s, k)
    ensures OrderedLow(Pass(s, k), k + 1)
  {
    BucketsOrdered(s, k, BASE);
  }

  ghost function Passes(s: seq<U32>, k: nat): seq<U32> {
    if k == 0 then s else Pass(Passes(s, k - 1), k - 1)
  }

  ghost predicate Sorted(s: seq<U32>) {
    forall i, j :: 0 <= i < j < |s| ==> s[i] <= s[j]
  }

  lemma {:induction false} PassesOrder(s: seq<U32>, k: nat)
    requires k <= 4
    ensures OrderedLow(Passes(s, k), k)
    ensures multiset(Passes(s, k)) == multiset(s) && |Passes(s, k)| == |s|
  {
    if k > 0 {
      PassesOrder(s, k - 1);
      PassOrders(Passes(s, k - 1), k - 1);
      PassPermutes(Passes(s, k - 1), k - 1);
    } else {
      assert forall x: U32 :: x % Pow256(0) == 0;
    }
  }

  /** Four passes sort. */
  lemma PassesSort(s: seq<U32>)
    ensures Sorted(Passes(s, 4)) && multiset(Passes(s, 4)) == multiset(s)
  {
    PassesOrder(s, 4);
    Pow256Values();
    hide Pow256, Passes;
    var t := Passes(s, 4);
    assert forall i :: 0 <= i < |t| ==> t[i] % Pow256(4) == t[i];
  }

  // ---- Counting ----

  // What the macro fetch_add does: bump the cell, yield its former value.
  method FetchAdd(bucket: array<U32>, d: nat, inc: int) returns (was: U32)
    requires d < bucket.Length && 0 <= bucket[d] + inc < 0x1_0000_0000
    modifies bucket
    ensures was == old(bucket[d])
    ensures bucket[..] == old(bucket[..])[d := was + inc]
  {
    bucket[d] := bucket[d] + inc;
    was := bucket[d] - inc;
  }

  // Cell d counts the elements of s whose digit is d.
  ghost predicate Counted(b: seq<U32>, s: seq<U32>, k: nat) {
    |b| == BASE && forall d :: 0 <= d < BASE ==> b[d] == |Bucket(s, k, d)|
  }

  lemma CountNext(b: seq<U32>, s: seq<U32>, k: nat, p: nat)
    requires p < |s| < 0x1_0000_0000 && Counted(b, s[..p], k)
    ensures b[Digit(s[p], k)] < 0xFFFF_FFFF
    ensures Counted(b[Digit(s[p], k) := b[Digit(s[p], k)] + 1], s[..p + 1], k)
  {
    hide Bucket, Digit;
    assert s[..p + 1] == s[..p] + [s[p]];
    BucketLength(s[..p], k, Digit(s[p], k));
    forall d | 0 <= d < BASE
      ensures |Bucket(s[..p + 1], k, d)| == |Bucket(s[..p], k, d)| + if Digit(s[p], k) == d then 1 else 0
    {
      BucketAppend(s[..p], s[p], k, d);
    }
  }

  lemma {:induction false} BucketLength(s: seq<U32>, k: nat, d: nat)
    ensures |Bucket(s, k, d)| <= |s|
  {
    if s != [] {
      BucketLength(s[..|s| - 1], k, d);
    }
  }

  // Counts the digit of element p, by fetch_add or by an increment.
  method Tally(bucket: array<U32>, x: U32, k: nat, ghost s: seq<U32>, ghost p: nat)
    requires p < |s| < 0x1_0000_0000 && x == s[p]
    requires bucket.Length == BASE && Counted(bucket[..], s[..p], k)
    modifies bucket
    ensures Counted(bucket[..], s[..p + 1], k)
  {
    hide Counted, Digit;
    CountNext(bucket[..], s, k, p);
    var _ := FetchAdd(bucket, Digit(x, k), 1);
  }

  method CountDigits(n: U32, arr: array<U32>, bucket: array<U32>, k: nat)
    requires n <= arr.Length && bucket.Length == BASE && arr != bucket
    modifies bucket
    ensures Counted(bucket[..], arr[..n], k)
  {
    for b := 0 to BASE
      invariant forall d :: 0 <= d < b ==> bucket[d] == 0
    {
      bucket[b] := 0;
    }
    var p := 0;
    ghost var s := arr[..n];
    assert Counted(bucket[..], s[..0], k);
    hide Counted, Digit;
    while p < n - 3
      invariant 0 <= p <= n
      invariant Counted(bucket[..], s[..p], k)
    {
      var a0, a1, a2, a3 := arr[p], arr[p + 1], arr[p + 2], arr[p + 3];
      Tally(bucket, a0, k, s, p);
      Tally(bucket, a1, k, s, p + 1);
      Tally(bucket, a2, k, s, p + 2);
      Tally(bucket, a3, k, s, p + 3);
      p := p + 4;
    }
    while p < n
      invariant 0 <= p <= n
      invariant Counted(bucket[..], s[..p], k)
    {
      Tally(bucket, arr[p], k, s, p);
      p := p + 1;
    }
    assert s[..p] == s;
  }

  // ---- Prefix sums ----

  // Cells below d hold the number of elements with at most that digit, the rest still counts.
  ghost predicate Summed(b: seq<U32>, s: seq<U32>, k: nat, d: nat) {
    && |b| == BASE
    && (forall e :: 0 <= e < BASE && e < d ==> b[e] == |Buckets(s, k, e + 1)|)
    && (forall e :: d <= e < BASE ==> b[e] == |Bucket(s, k, e)|)
  }

  lemma SumNext(b: seq<U32>, s: seq<U32>, k: nat, d: nat, prev: U32)
    requires d < BASE && |s| < 0x1_0000_0000 && Summed(b, s, k, d) && prev == |Buckets(s, k, d)|
    ensures b[d] + prev < 0x1_0000_0000 && b[d] + prev == |Buckets(s, k, d + 1)|
    ensures Summed(b[d := b[d] + prev], s, k, d + 1)
  {
    assert |Buckets(s, k, d + 1)| == |Buckets(s, k, d)| + |Bucket(s, k, d)|;
    assert |Buckets(s, k, d + 1)| <= |s| by {
      BucketsLength(s, k, d + 1, BASE);
      PassPermutes(s, k);
    }
    hide Bucket, Buckets;
  }

  // The statement prev += fetch_add(&bucket[d], prev).
  method AddPrev(bucket: array<U32>, d: nat, prev: U32, ghost s: seq<U32>, ghost k: nat) returns (next: U32)
    requires d < BASE && |s| < 0x1_0000_0000
    requires Summed(bucket[..], s, k, d) && prev == |Buckets(s, k, d)|
    modifies bucket
    ensures Summed(bucket[..], s, k, d + 1) && next == |Buckets(s, k, d + 1)|
  {
    assert bucket.Length == BASE;
    hide Summed, Buckets;
    SumNext(bucket[..], s, k, d, prev);
    var was := FetchAdd(bucket, d, prev);
    next := prev + was;
  }

  lemma SumStarts(b: seq<U32>, s: seq<U32>, k: nat)
    requires Counted(b, s, k)
    ensures Summed(b, s, k, 1) && |b| == BASE && b[0] == |Buckets(s, k, 1)|
  {
    assert Buckets(s, k, 1) == Buckets(s, k, 0) + Bucket(s, k, 0);
  }

  method PrefixSums(bucket: array<U32>, ghost s: seq<U32>, ghost k: nat)
    requires |s| < 0x1_0000_0000 && Counted(bucket[..], s, k)
    modifies bucket
    ensures Summed(bucket[..], s, k, BASE)
  {
    hide Summed, Buckets, Counted;
    SumStarts(bucket[..], s, k);
    var prev := bucket[0];
    prev := AddPrev(bucket, 1, prev, s, k);
    var b := 2;
    while b < BASE
      invariant 2 <= b <= BASE && b % 2 == 0
      invariant Summed(bucket[..], s, k, b) && prev == |Buckets(s, k, b)|
    {
      prev := AddPrev(bucket, b, prev, s, k);
      prev := AddPrev(bucket, b + 1, prev, s, k);
      b := b + 2;
    }
  }

  // ---- Scattering ----

  // Where element r of bucket d belongs in the result of the pass.
  ghost function Slot(s: seq<U32>, k: nat, d: nat, r: nat): nat {
    |Buckets(s, k, d)| + r
  }

  lemma SlotInRange(s: seq<U32>, k: nat, d: nat, r: nat)
    requires d < BASE && r < |Bucket(s, k, d)|
    ensures Slot(s, k, d, r) < |Buckets(s, k, d + 1)| <= |s| == |Pass(s, k)|
    ensures Pass(s, k)[..|Buckets(s, k, d + 1)|] == Buckets(s, k, d + 1)
  {
    BucketsLength(s, k, d + 1, BASE);
    PassPermutes(s, k);
  }

  // Bucket cell d points just past the slot of the last of the elements before p with digit d;
  // the elements from p on are in their slots.
  ghost predicate Scattered(b: seq<U32>, t: seq<U32>, s: seq<U32>, k: nat, p: nat) {
    && p <= |s| <= |t| && |b| == BASE
    && (forall d :: 0 <= d < BASE ==> b[d] == Slot(s, k, d, |Bucket(s[..p], k, d)|))
    && (forall d, r :: 0 <= d < BASE && |Bucket(s[..p], k, d)| <= r < |Bucket(s, k, d)| ==>
          Slot(s, k, d, r) < |t| && t[Slot(s, k, d, r)] == Bucket(s, k, d)[r])
  }

  lemma {:induction false} BucketPrefix(s: seq<U32>, p: nat, k: nat, d: nat)
    requires p < |s|
    ensures Bucket(s[..p + 1], k, d) == Bucket(s[..p], k, d) + if Digit(s[p], k) == d then [s[p]] else []
    ensures |Bucket(s[..p + 1], k, d)| <= |Bucket(s, k, d)|
    ensures Digit(s[p], k) == d ==> Bucket(s, k, d)[|Bucket(s[..p], k, d)|] == s[p]
  {
    assert s[..p + 1] == s[..p] + [s[p]];
    BucketAppend(s[..p], s[p], k, d);
    assert s == s[..p + 1] + s[p + 1..];
    BucketConcat(s[..p + 1], s[p + 1..], k, d);
  }

  // Two slots in different buckets differ.
  lemma SlotsApart(s: seq<U32>, k: nat, d: nat, r: nat, e: nat, q: nat)
    requires d != e && r < |Bucket(s, k, d)| && q < |Bucket(s, k, e)|
    ensures Slot(s, k, d, r) != Slot(s, k, e, q)
  {
    if d < e {
      BucketsLength(s, k, d + 1, e);
    } else {
      BucketsLength(s, k, e + 1, d);
    }
  }

  // The cell that the element before p goes to.
  ghost function Target(b: seq<U32>, x: U32, k: nat): int
    requires |b| == BASE
  {
    (b[Digit(x, k)] as int) - 1
  }

  lemma ScatterNext(b: seq<U32>, t: seq<U32>, s: seq<U32>, k: nat, p: nat)
    requires p < |s| && Scattered(b, t, s, k, p + 1)
    ensures 0 <= Target(b, s[p], k) < |s|
    ensures Scattered(b[Digit(s[p], k) := Target(b, s[p], k)], t[Target(b, s[p], k) := s[p]], s, k, p)
  {
    hide Bucket, Digit;
    var x, d := s[p], Digit(s[p], k);
    var r := |Bucket(s[..p], k, d)|;
    forall e | 0 <= e < BASE
      ensures |Bucket(s[..p + 1], k, e)| == |Bucket(s[..p], k, e)| + if d == e then 1 else 0
    {
      BucketPrefix(s, p, k, e);
    }
    BucketPrefix(s, p, k, d);
    SlotInRange(s, k, d, r);
    var q := Slot(s, k, d, r);
    assert Target(b, x, k) == q;
    var t' := t[q := x];
    forall e, m | 0 <= e < BASE && |Bucket(s[..p], k, e)| <= m < |Bucket(s, k, e)|
      ensures Slot(s, k, e, m) < |t'| && t'[Slot(s, k, e, m)] == Bucket(s, k, e)[m]
    {
      if e != d {
        SlotsApart(s, k, d, r, e, m);
      }
    }
  }

  // The m-th element of bucket d is in its slot, for every d and m.
  ghost predicate InSlots(t: seq<U32>, s: seq<U32>, k: nat) {
    forall d, m :: 0 <= d < BASE && 0 <= m < |Bucket(s, k, d)| ==>
      Slot(s, k, d, m) < |t| && t[Slot(s, k, d, m)] == Bucket(s, k, d)[m]
  }

  lemma ScatterEnds(b: seq<U32>, t: seq<U32>, s: seq<U32>, k: nat)
    requires Scattered(b, t, s, k, 0)
    ensures t[..|s|] == Pass(s, k)
  {
    assert s[..0] == [];
    assert forall d :: Bucket([], k, d) == [];
    assert InSlots(t, s, k);
    PassPermutes(s, k);
    InSlotsIsPass(t, s, k, BASE);
  }

  lemma BucketsFit(s: seq<U32>, k: nat, d: nat)
    requires d <= BASE
    ensures |Buckets(s, k, d)| <= |s|
  {
    BucketsLength(s, k, d, BASE);
    PassPermutes(s, k);
  }

  lemma BucketsUnfold(s: seq<U32>, k: nat, d: nat)
    ensures Buckets(s, k, d) == if d == 0 then [] else Buckets(s, k, d - 1) + Bucket(s, k, d - 1)
  {
  }

  lemma {:induction false} InSlotsIsPass(t: seq<U32>, s: seq<U32>, k: nat, d: nat)
    requires InSlots(t, s, k) && d <= BASE && |s| <= |t|
    ensures |Buckets(s, k, d)| <= |s| && t[..|Buckets(s, k, d)|] == Buckets(s, k, d)
  {
    hide *;
    BucketsFit(s, k, d);
    BucketsUnfold(s, k, d);
    if d > 0 {
      InSlotsIsPass(t, s, k, d - 1);
      InSlotsBucket(t, s, k, d - 1);
      JoinPrefix(t, Buckets(s, k, d - 1), Bucket(s, k, d - 1));
    }
  }

  lemma InSlotsBucket(t: seq<U32>, s: seq<U32>, k: nat, d: nat)
    requires InSlots(t, s, k) && d < BASE && |Buckets(s, k, d)| + |Bucket(s, k, d)| <= |t|
    ensures forall m :: 0 <= m < |Bucket(s, k, d)| ==> t[|Buckets(s, k, d)| + m] == Bucket(s, k, d)[m]
  {
    hide Bucket, Buckets;
    forall m | 0 <= m < |Bucket(s, k, d)| ensures t[|Buckets(s, k, d)| + m] == Bucket(s, k, d)[m] {
      assert Slot(s, k, d, m) == |Buckets(s, k, d)| + m;
    }
  }

  lemma JoinPrefix(t: seq<U32>, u: seq<U32>, v: seq<U32>)
    requires |u| + |v| <= |t| && t[..|u|] == u
    requires forall m :: 0 <= m < |v| ==> t[|u| + m] == v[m]
    ensures t[..|u + v|] == u + v
  {
    assert forall m :: 0 <= m < |u| ==> t[m] == u[m] by {
      assert forall m :: 0 <= m < |u| ==> t[..|u|][m] == t[m];
    }
  }

  lemma ScatterStarts(b: seq<U32>, t: seq<U32>, s: seq<U32>, k: nat)
    requires Summed(b, s, k, BASE) && |s| <= |t|
    ensures Scattered(b, t, s, k, |s|)
  {
    assert s[..|s|] == s;
    forall d | 0 <= d < BASE ensures b[d] == Slot(s, k, d, |Bucket(s, k, d)|) {
      assert |Buckets(s, k, d + 1)| == |Buckets(s, k, d)| + |Bucket(s, k, d)|;
    }
  }

  // The slot of element i of s: behind the smaller digits and the earlier elements with its own.
  ghost function SlotOf(s: seq<U32>, k: nat, i: nat): nat
    requires i < |s|
  {
    Slot(s, k, Digit(s[i], k), |Bucket(s[..i], k, Digit(s[i], k))|)
  }

  lemma SlotOfInRange(s: seq<U32>, k: nat, i: nat)
    requires i < |s|
    ensures |Bucket(s[..i], k, Digit(s[i], k))| < |Bucket(s, k, Digit(s[i], k))|
    ensures SlotOf(s, k, i) < |s|
  {
    BucketPrefix(s, i, k, Digit(s[i], k));
    SlotInRange(s, k, Digit(s[i], k), |Bucket(s[..i], k, Digit(s[i], k))|);
  }

  lemma SlotOfDistinct(s: seq<U32>, k: nat, i: nat, j: nat)
    requires i < j < |s|
    ensures SlotOf(s, k, i) != SlotOf(s, k, j)
  {
    var d, e := Digit(s[i], k), Digit(s[j], k);
    SlotOfInRange(s, k, i);
    SlotOfInRange(s, k, j);
    if d == e {
      BucketPrefix(s[..j], i, k, d);
      assert s[..j][..i] == s[..i] && s[..j][..i + 1] == s[..i + 1];
    } else {
      SlotsApart(s, k, d, |Bucket(s[..i], k, d)|, e, |Bucket(s[..j], k, e)|);
    }
  }

  ghost predicate Distinct(f: seq<nat>) {
    forall i, j :: 0 <= i < j < |f| ==> f[i] != f[j]
  }

  ghost function Below(n: nat): (r: set<nat>)
    ensures |r| == n && forall q: nat :: q in r <==> q < n
  {
    if n == 0 then {} else Below(n - 1) + {n - 1}
  }

  ghost function Elements(f: seq<nat>): (r: set<nat>)
    ensures forall x :: x in r <==> x in f
  {
    if f == [] then {} else Elements(f[..|f| - 1]) + {f[|f| - 1]}
  }

  lemma {:induction false} DistinctCount(f: seq<nat>)
    requires Distinct(f)
    ensures |Elements(f)| == |f|
  {
    if f != [] {
      DistinctCount(f[..|f| - 1]);
    }
  }

  lemma DistinctCoversRange(f: seq<nat>, q: nat)
    requires Distinct(f) && (forall x :: x in f ==> x < |f|) && q < |f|
    ensures q in f
  {
    DistinctCount(f);
    if q !in f {
      SubsetSize(Elements(f), Below(|f|) - {q});
    }
  }

  lemma {:induction false} SubsetSize(a: set<nat>, b: set<nat>)
    requires a <= b
    ensures |a| <= |b|
  {
    if a != {} {
      var x :| x in a;
      SubsetSize(a - {x}, b - {x});
      assert |a - {x}| == |a| - 1 && |b - {x}| == |b| - 1;
    }
  }

  /** The slots written during a pass, last element first: each of 0, ..., n - 1 exactly once. */
  lemma SlotsWrittenOnce(s: seq<U32>, k: nat, slots: seq<nat>)
    requires |slots| == |s| && forall m :: 0 <= m < |s| ==> slots[m] == SlotOf(s, k, |s| - 1 - m)
    ensures Distinct(slots) && forall q :: 0 <= q < |s| <==> q in slots
  {
    hide SlotOf;
    forall i, j | 0 <= i < j < |slots| ensures slots[i] != slots[j] {
      SlotOfDistinct(s, k, |s| - 1 - j, |s| - 1 - i);
    }
    forall x | x in slots ensures x < |s| {
      var m :| 0 <= m < |slots| && slots[m] == x;
      SlotOfInRange(s, k, |s| - 1 - m);
    }
    forall q | 0 <= q < |s| ensures q in slots {
      DistinctCoversRange(slots, q);
    }
  }

  // Takes the slot of element p off its bucket; t is what scratch holds once earlier claims are
  // stored.
  method Claim(bucket: array<U32>, x: U32, k: nat, ghost s: seq<U32>, ghost p: nat, ghost t: seq<U32>)
    returns (slot: nat)
    requires p < |s| && x == s[p] && bucket.Length == BASE && Scattered(bucket[..], t, s, k, p + 1)
    modifies bucket
    ensures slot == SlotOf(s, k, p) < |s| <= |t|
    ensures Scattered(bucket[..], t[slot := x], s, k, p)
  {
    ClaimSlot(bucket[..], t, s, k, p);
    hide *;
    ScatterNext(bucket[..], t, s, k, p);
    var was := FetchAdd(bucket, Digit(x, k), -1);
    slot := was - 1;
  }

  lemma ClaimSlot(b: seq<U32>, t: seq<U32>, s: seq<U32>, k: nat, p: nat)
    requires p < |s| && Scattered(b, t, s, k, p + 1)
    ensures Target(b, s[p], k) == SlotOf(s, k, p) == (b[Digit(s[p], k)] as int) - 1
    ensures |s| <= |t|
  {
    BucketPrefix(s, p, k, Digit(s[p], k));
  }

  method Scatter(n: U32, arr: array<U32>, scratch: array<U32>, bucket: array<U32>, k: nat)
    returns (ghost slots: seq<nat>)
    requires n <= arr.Length && n <= scratch.Length && bucket.Length == BASE
    requires arr != scratch && arr != bucket && scratch != bucket
    requires Summed(bucket[..], arr[..n], k, BASE)
    modifies scratch, bucket
    ensures scratch[..n] == Pass(arr[..n], k)
    ensures scratch[n..] == old(scratch[n..])
    ensures |slots| == n && forall m :: 0 <= m < n ==> slots[m] == SlotOf(arr[..n], k, n - 1 - m)
  {
    hide *;
    ghost var s := arr[..n];
    ghost var rest := scratch[n..];
    ScatterStarts(bucket[..], scratch[..], s, k);
    assert s[..n] == s;
    slots := [];
    var p := n - 1;
    while p >= 3
      invariant -1 <= p < n && arr[..n] == s && scratch[n..] == rest
      invariant Scattered(bucket[..], scratch[..], s, k, p + 1)
      invariant |slots| == n - 1 - p && forall m :: 0 <= m < |slots| ==> slots[m] == SlotOf(s, k, n - 1 - m)
    {
      var a0, a1, a2, a3 := arr[p], arr[p - 1], arr[p - 2], arr[p - 3];
      ghost var t := scratch[..];
      var s0 := Claim(bucket, a0, k, s, p, t);
      var s1 := Claim(bucket, a1, k, s, p - 1, t[s0 := a0]);
      var s2 := Claim(bucket, a2, k, s, p - 2, t[s0 := a0][s1 := a1]);
      var s3 := Claim(bucket, a3, k, s, p - 3, t[s0 := a0][s1 := a1][s2 := a2]);
      scratch[s0] := a0;
      scratch[s1] := a1;
      scratch[s2] := a2;
      scratch[s3] := a3;
      slots := slots + [s0] + [s1] + [s2] + [s3];
      p := p - 4;
    }
    while p >= 0
      invariant -1 <= p < n && arr[..n] == s && scratch[n..] == rest
      invariant Scattered(bucket[..], scratch[..], s, k, p + 1)
      invariant |slots| == n - 1 - p && forall m :: 0 <= m < |slots| ==> slots[m] == SlotOf(s, k, n - 1 - m)
    {
      var slot := Claim(bucket, arr[p], k, s, p, scratch[..]);
      scratch[slot] := arr[p];
      slots := slots + [slot];
      p := p - 1;
    }
    ScatterEnds(bucket[..], scratch[..], s, k);
  }

  method CountingPass(n: U32, arr: array<U32>, scratch: array<U32>, bucket: array<U32>, k: nat)
    requires n <= arr.Length && n <= scratch.Length && bucket.Length == BASE
    requires arr != scratch && arr != bucket && scratch != bucket
    modifies scratch, bucket
    ensures scratch[..n] == Pass(arr[..n], k)
    ensures scratch[n..] == old(scratch[n..])
  {
    hide *;
    ghost var s := arr[..n];
    CountDigits(n, arr, bucket, k);
    PrefixSums(bucket, s, k);
    assert arr[..n] == s;
    ghost var slots := Scatter(n, arr, scratch, bucket, k);
  }

  /** Sorts the first n words of arrIn as unsigned numbers, using as many words of scratchIn. */
  method Sort(n: U32, arrIn: array<U32>, scratchIn: array<U32>)
    requires n <= arrIn.Length && n <= scratchIn.Length && arrIn != scratchIn
    modifies arrIn, scratchIn
    ensures forall i, j :: 0 <= i < j < n ==> arrIn[i] <= arrIn[j]
    ensures multiset(arrIn[..n]) == old(multiset(arrIn[..n]))
    ensures arrIn[n..] == old(arrIn[n..]) && scratchIn[n..] == old(scratchIn[n..])
  {
    hide *;
    var bucket := new U32[BASE];
    var arr, scratch := arrIn, scratchIn;
    ghost var s := arr[..n];
    var k := 0;
    PassesStart(s);
    while k < 4
      invariant 0 <= k <= 4 && fresh(bucket)
      invariant if k % 2 == 0 then arr == arrIn && scratch == scratchIn else arr == scratchIn && scratch == arrIn
      invariant arr[..n] == Passes(s, k)
      invariant arrIn[n..] == old(arrIn[n..]) && scratchIn[n..] == old(scratchIn[n..])
    {
      CountingPass(n, arr, scratch, bucket, k);
      arr, scratch := scratch, arr;
      k := k + 1;
      PassesNext(s, k);
    }
    assert arr == arrIn;  // so the final copy never happens
    PassesSort(s);
    SortedCells(arrIn[..n]);
  }

  lemma SortedCells(s: seq<U32>)
    requires Sorted(s)
    ensures forall i, j :: 0 <= i < j < |s| ==> s[i] <= s[j]
  {
  }

  lemma PassesStart(s: seq<U32>)
    ensures Passes(s, 0) == s
  {
  }

  lemma PassesNext(s: seq<U32>, k: nat)
    requires k > 0
    ensures Passes(s, k) == Pass(Passes(s, k - 1), k - 1)
  {
  }
}
