/** The AES key expansion (FIPS 197, section 5.2), which the C code does on packed 32-bit words. */
module KeySchedule {
  import opened Arithmetic
  import opened Basics
  import opened GaloisField
  import opened Sboxes
  import opened RoundConstants
  import opened Aes

  // ---- Operations on packed words ----

  function Pack(b0: bv8, b1: bv8, b2: bv8, b3: bv8): bv32 {
    ((b0 as bv32) << 24) | ((b1 as bv32) << 16) | ((b2 as bv32) << 8) | (b3 as bv32)
  }

  function Xor(v: bv32, w: bv32): bv32 {
    v ^ w
  }

  function Nibbles(hi: bv32, lo: bv32): bv8
    requires hi < 16 && lo < 16
  {
    SboxAt(hi as bv8, lo as bv8)
  }

  function SubWord(w: bv32): bv32 {
    Pack(Nibbles(w >> 28, (w << 4) >> 28), Nibbles((w << 8) >> 28, (w << 12) >> 28),
         Nibbles((w << 16) >> 28, (w << 20) >> 28), Nibbles((w << 24) >> 28, (w << 28) >> 28))
  }

  function RotWord(w: bv32): bv32 {
    (w >> 24) | (w << 8)
  }

  lemma Byte0OfPack(b0: bv8, b1: bv8, b2: bv8, b3: bv8)
    ensures KeyByte(Pack(b0, b1, b2, b3), 0) == b0
  {
  }

  lemma Byte1OfPack(b0: bv8, b1: bv8, b2: bv8, b3: bv8)
    ensures KeyByte(Pack(b0, b1, b2, b3), 1) == b1
  {
  }

  lemma Byte2OfPack(b0: bv8, b1: bv8, b2: bv8, b3: bv8)
    ensures KeyByte(Pack(b0, b1, b2, b3), 2) == b2
  {
  }

  lemma Byte3OfPack(b0: bv8, b1: bv8, b2: bv8, b3: bv8)
    ensures KeyByte(Pack(b0, b1, b2, b3), 3) == b3
  {
  }

  lemma ByteOfPack(b0: bv8, b1: bv8, b2: bv8, b3: bv8, r: nat)
    requires r < 4
    ensures KeyByte(Pack(b0, b1, b2, b3), r) == [b0, b1, b2, b3][r]
  {
    hide Pack, KeyByte;
    Byte0OfPack(b0, b1, b2, b3);
    Byte1OfPack(b0, b1, b2, b3);
    Byte2OfPack(b0, b1, b2, b3);
    Byte3OfPack(b0, b1, b2, b3);
  }

  lemma XorByte(v: bv32, w: bv32, r: nat)
    requires r < 4
    ensures KeyByte(Xor(v, w), r) == FfAdd(KeyByte(v, r), KeyByte(w, r))
  {
    if r == 0 {
    } else if r == 1 {
    } else if r == 2 {
    }
  }

  lemma RotByte(w: bv32, r: nat)
    requires r < 4
    ensures KeyByte(RotWord(w), r) == KeyByte(w, (r + 1) % 4)
  {
  }

  lemma NibblesAreByte(b: bv8, hi: bv32, lo: bv32)
    requires hi == (b >> 4) as bv32 && lo == (b & 0x0f) as bv32
    ensures hi < 16 && lo < 16
    ensures Nibbles(hi, lo) == Sbox(b)
  {
  }

  lemma SubByte0(w: bv32)
    ensures Nibbles(w >> 28, (w << 4) >> 28) == Sbox(KeyByte(w, 0))
  {
    hide Nibbles, Sbox;
    NibblesAreByte(KeyByte(w, 0), w >> 28, (w << 4) >> 28);
  }

  lemma SubByte1(w: bv32)
    ensures Nibbles((w << 8) >> 28, (w << 12) >> 28) == Sbox(KeyByte(w, 1))
  {
    hide Nibbles, Sbox;
    NibblesAreByte(KeyByte(w, 1), (w << 8) >> 28, (w << 12) >> 28);
  }

  lemma SubByte2(w: bv32)
    ensures Nibbles((w << 16) >> 28, (w << 20) >> 28) == Sbox(KeyByte(w, 2))
  {
    hide Nibbles, Sbox;
    NibblesAreByte(KeyByte(w, 2), (w << 16) >> 28, (w << 20) >> 28);
  }

  lemma SubByte3(w: bv32)
    ensures Nibbles((w << 24) >> 28, (w << 28) >> 28) == Sbox(KeyByte(w, 3))
  {
    hide Nibbles, Sbox;
    NibblesAreByte(KeyByte(w, 3), (w << 24) >> 28, (w << 28) >> 28);
  }

  lemma SubByte(w: bv32, r: nat)
    requires r < 4
    ensures KeyByte(SubWord(w), r) == Sbox(KeyByte(w, r))
  {
    hide Nibbles, Sbox, Pack, KeyByte;
    SubByte0(w);
    SubByte1(w);
    SubByte2(w);
    SubByte3(w);
    ByteOfPack(Sbox(KeyByte(w, 0)), Sbox(KeyByte(w, 1)), Sbox(KeyByte(w, 2)), Sbox(KeyByte(w, 3)), r);
  }

  lemma TopByte(b: bv8, r: nat)
    requires r < 4
    ensures KeyByte((b as bv32) << 24, r) == if r == 0 then b else 0
  {
  }

  lemma ByteIndex(i: nat)
    requires i < ROUND_CONSTANTS
    ensures (i as bv8) as nat == i
  {
  }

  lemma SmallIndex(n: bv8)
    requires 1 <= n as nat < ROUND_CONSTANTS
    ensures 1 <= n < 52
  {
  }

  lemma RconBytes(i: nat, r: nat)
    requires 1 <= i < ROUND_CONSTANTS && r < 4
    ensures KeyByte(Rcon(i as bv8), r) == if r == 0 then XtimePower(1, i - 1) else 0
  {
    hide XtimePower, KeyByte, RconByte;
    var n := i as bv8;
    ByteIndex(i);
    SmallIndex(n);
    RconIsPower(n);
    TopByte(RconByte(n), r);
  }

  lemma AtLeastOne(i: nat, n: nat)
    requires 0 < n <= i
    ensures i / n >= 1
  {
  }

  // ---- The expansion ----

  lemma RotatedByte(temp: bv32, n: nat, r: nat)
    requires 1 <= n < ROUND_CONSTANTS && r < 4
    ensures KeyByte(Xor(SubWord(RotWord(temp)), Rcon(n as bv8)), r) ==
            FfAdd(Sbox(KeyByte(temp, (r + 1) % 4)), if r == 0 then XtimePower(1, n - 1) else 0)
  {
    hide KeyByte, XtimePower, Rcon, SubWord, RotWord, Xor, Sbox, FfAdd;
    RotByte(temp, r);
    SubByte(RotWord(temp), r);
    RconBytes(n, r);
    XorByte(SubWord(RotWord(temp)), Rcon(n as bv8), r);
  }

  method FeedbackWord(temp: bv32, i: nat, nk: nat) returns (t: bv32)
    requires 0 < nk <= i && i / nk < ROUND_CONSTANTS
    ensures i / nk >= 1
    ensures forall r :: 0 <= r < 4 ==>
              KeyByte(t, r) ==
              if i % nk == 0 then
                FfAdd(Sbox(KeyByte(temp, (r + 1) % 4)), if r == 0 then XtimePower(1, i / nk - 1) else 0)
              else if nk > 6 && i % nk == 4 then Sbox(KeyByte(temp, r))
              else KeyByte(temp, r)
  {
    hide KeyByte, XtimePower, Rcon, SubWord, RotWord, Xor, Sbox, FfAdd;
    AtLeastOne(i, nk);
    t := temp;
    if i % nk == 0 {
      t := Xor(SubWord(RotWord(temp)), Rcon((i / nk) as bv8));
      forall r | 0 <= r < 4
        ensures KeyByte(t, r) ==
                FfAdd(Sbox(KeyByte(temp, (r + 1) % 4)), if r == 0 then XtimePower(1, i / nk - 1) else 0)
      {
        RotatedByte(temp, i / nk, r);
      }
    } else if nk > 6 && i % nk == 4 {
      t := SubWord(temp);
      forall r | 0 <= r < 4
        ensures KeyByte(t, r) == Sbox(KeyByte(temp, r))
      {
        SubByte(temp, r);
      }
    }
  }

  // Word i of the schedule comes from the word temp before it and the word back that is nk words before it.
  ghost predicate Follows(temp: bv32, back: bv32, word: bv32, i: nat, nk: nat)
    requires 0 < nk <= i
  {
    i / nk >= 1 && forall r :: 0 <= r < 4 ==>
      FfAdd(KeyByte(word, r), KeyByte(back, r)) ==
      if i % nk == 0 then
        FfAdd(Sbox(KeyByte(temp, (r + 1) % 4)), if r == 0 then XtimePower(1, i / nk - 1) else 0)
      else if nk > 6 && i % nk == 4 then Sbox(KeyByte(temp, r))
      else KeyByte(temp, r)
  }

  ghost predicate Holds(word: bv32, b0: bv8, b1: bv8, b2: bv8, b3: bv8) {
    KeyByte(word, 0) == b0 && KeyByte(word, 1) == b1 && KeyByte(word, 2) == b2 && KeyByte(word, 3) == b3
  }

  // Word i is the one the standard asks for, given the words before it.
  ghost predicate Scheduled(w: seq<bv32>, key: seq<bv8>, nk: nat, i: nat)
    requires 0 < nk && |key| >= 4 * nk && i < |w|
  {
    if i < nk then Holds(w[i], key[4 * i], key[4 * i + 1], key[4 * i + 2], key[4 * i + 3])
    else Follows(w[i - 1], w[i - nk], w[i], i, nk)
  }

  // The first m words are those of the schedule.
  ghost predicate Expanded(w: seq<bv32>, m: nat, key: seq<bv8>, nk: nat)
    requires 0 < nk && |key| >= 4 * nk
  {
    m <= |w| && forall i :: 0 <= i < m ==> Scheduled(w, key, nk, i)
  }

  lemma SameWords(w: seq<bv32>, v: seq<bv32>, key: seq<bv8>, nk: nat, i: nat)
    requires 0 < nk && |key| >= 4 * nk && i < |w| && i < |v| && w[..i + 1] == v[..i + 1]
    ensures Scheduled(w, key, nk, i) == Scheduled(v, key, nk, i)
  {
    hide Holds, Follows;
    assert w[..i + 1][i] == v[..i + 1][i];
    if i >= nk {
      assert w[..i + 1][i - 1] == v[..i + 1][i - 1] && w[..i + 1][i - nk] == v[..i + 1][i - nk];
    }
  }

  lemma OneMore(w: seq<bv32>, m: nat, word: bv32, key: seq<bv8>, nk: nat)
    requires 0 < nk && |key| >= 4 * nk && Expanded(w, m, key, nk) && m < |w|
    requires Scheduled(w[m := word], key, nk, m)
    ensures Expanded(w[m := word], m + 1, key, nk)
  {
    hide Scheduled;
    var v := w[m := word];
    forall i | 0 <= i < m
      ensures Scheduled(v, key, nk, i)
    {
      assert w[..i + 1] == v[..i + 1];
      SameWords(w, v, key, nk, i);
    }
  }

  lemma KeyWordScheduled(w: seq<bv32>, m: nat, word: bv32, key: seq<bv8>, nk: nat)
    requires 0 < nk && |key| >= 4 * nk && m < nk && m < |w| && Expanded(w, m, key, nk)
    requires Holds(word, key[4 * m], key[4 * m + 1], key[4 * m + 2], key[4 * m + 3])
    ensures Expanded(w[m := word], m + 1, key, nk)
  {
    hide Holds, Expanded;
    OneMore(w, m, word, key, nk);
  }

  lemma NextWordScheduled(w: seq<bv32>, m: nat, word: bv32, key: seq<bv8>, nk: nat)
    requires 0 < nk && |key| >= 4 * nk && nk <= m < |w| && Expanded(w, m, key, nk)
    requires Follows(w[m - 1], w[m - nk], word, m, nk)
    ensures Expanded(w[m := word], m + 1, key, nk)
  {
    hide Follows, Expanded;
    OneMore(w, m, word, key, nk);
  }

  lemma AddedBack(a: bv8, b: bv8)
    ensures FfAdd(FfAdd(a, b), a) == b
  {
  }

  lemma PackHolds(b0: bv8, b1: bv8, b2: bv8, b3: bv8)
    ensures Holds(Pack(b0, b1, b2, b3), b0, b1, b2, b3)
  {
    hide Pack, KeyByte;
    Byte0OfPack(b0, b1, b2, b3);
    Byte1OfPack(b0, b1, b2, b3);
    Byte2OfPack(b0, b1, b2, b3);
    Byte3OfPack(b0, b1, b2, b3);
  }

  method NextWord(temp: bv32, back: bv32, i: nat, nk: nat) returns (word: bv32)
    requires 0 < nk <= i && i / nk < ROUND_CONSTANTS
    ensures Follows(temp, back, word, i, nk)
  {
    hide KeyByte, XtimePower, Xor, Sbox, FfAdd;
    var t := FeedbackWord(temp, i, nk);
    word := Xor(back, t);
    forall r | 0 <= r < 4
      ensures FfAdd(KeyByte(word, r), KeyByte(back, r)) == KeyByte(t, r)
    {
      XorByte(back, t, r);
      AddedBack(KeyByte(back, r), KeyByte(t, r));
    }
  }

  /** Expands a key of nk words into the 4 * (nr + 1) words of the schedule. */
  method KeyExpansion(key: array<bv8>, w: array<bv32>, nk: nat, nr: nat)
    requires 0 < nk && key.Length >= 4 * nk && nk <= w.Length && 4 * (nr + 1) <= w.Length
    requires nk <= 4 * (nr + 1) ==> (4 * (nr + 1) - 1) / nk < ROUND_CONSTANTS
    modifies w
    ensures Expanded(w[..], Max(nk, 4 * (nr + 1)), key[..], nk)
  {
    hide Holds, Follows, Pack, Scheduled;
    var i := 0;
    while i < nk
      invariant 0 <= i <= nk
      invariant Expanded(w[..], i, key[..], nk)
    {
      var b0, b1, b2, b3 := key[4 * i], key[4 * i + 1], key[4 * i + 2], key[4 * i + 3];
      var word := Pack(b0, b1, b2, b3);
      PackHolds(b0, b1, b2, b3);
      KeyWordScheduled(w[..], i, word, key[..], nk);
      w[i] := word;
      i := i + 1;
    }
    while i < 4 * (nr + 1)
      invariant nk <= i && i <= Max(nk, 4 * (nr + 1))
      invariant Expanded(w[..], i, key[..], nk)
    {
      QuotientMonotone(i, 4 * (nr + 1) - 1, nk);
      var word := NextWord(w[i - 1], w[i - nk], i, nk);
      NextWordScheduled(w[..], i, word, key[..], nk);
      w[i] := word;
      i := i + 1;
    }
  }

  // ---- The schedule byte by byte ----

  /** The first words are the key, each with its first byte on top. */
  lemma KeyBytes(w: seq<bv32>, m: nat, key: seq<bv8>, nk: nat, i: nat, r: nat)
    requires 0 < nk && |key| >= 4 * nk && Expanded(w, m, key, nk)
    requires i < m && i < nk && r < 4
    ensures KeyByte(w[i], r) == key[4 * i + r]
  {
    hide KeyByte, Follows;
    assert Scheduled(w, key, nk, i);
  }

  /** Every later word is the one nk words before it plus the word before it: rotated by a byte, substituted and
      with a power of x on top at each multiple of nk, substituted four words after it under long keys. */
  lemma ScheduleBytes(w: seq<bv32>, m: nat, key: seq<bv8>, nk: nat, i: nat, r: nat)
    requires 0 < nk && |key| >= 4 * nk && Expanded(w, m, key, nk)
    requires nk <= i < m && r < 4
    ensures i / nk >= 1
    ensures FfAdd(KeyByte(w[i], r), KeyByte(w[i - nk], r)) ==
            if i % nk == 0 then
              FfAdd(Sbox(KeyByte(w[i - 1], (r + 1) % 4)), if r == 0 then XtimePower(1, i / nk - 1) else 0)
            else if nk > 6 && i % nk == 4 then Sbox(KeyByte(w[i - 1], r))
            else KeyByte(w[i - 1], r)
  {
    hide KeyByte, Sbox, FfAdd, XtimePower, Holds;
    assert Scheduled(w, key, nk, i);
  }
}
