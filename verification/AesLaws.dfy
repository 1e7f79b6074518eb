/** What encryption computes, byte by byte, and how it depends on the block and on every word of the schedule. */
module AesLaws {
  import opened GaloisField
  import opened Sboxes
  import opened Aes
  import opened AesCipher

  // ---- Encryption byte by byte (FIPS 197, section 5.1) ----

  lemma KeyAdded(s: Block, w: seq<bv32>, rounds: nat, i: nat, r: nat, c: nat)
    requires Covers(w, rounds) && i <= rounds && r < 4 && c < 4
    ensures 4 * i % 256 + c < |w|
    ensures At(AddKey(s, w, rounds, i), r, c) == FfAdd(At(s, r, c), KeyByte(w[4 * i % 256 + c], r))
  {
    hide At, FfAdd, KeyByte, AddRoundKey;
    KeyInSchedule(w, rounds, i);
    AddRoundKeyAt(s, w, KeyStart(i), r, c);
  }

  lemma ShiftedAt(s: Block, r: nat, c: nat)
    requires r < 4 && c < 4
    ensures At(ShiftRows(SubBytes(s)), r, c) == Sbox(At(s, r, (c + r) % 4))
  {
    hide Sbox, ShiftRows, SubColumn, ByteOf;
    ShiftRowsAt(SubBytes(s), r, c);
    SubColumnAt(ColumnOf(s, (c + r) % 4), r);
  }

  lemma MixedAt(s: Block, r: nat, c: nat)
    requires r < 4 && c < 4
    ensures At(MixColumns(s), r, c) ==
            FfAdd(FfAdd(FfAdd(FfMul(2, At(s, r, c)), FfMul(3, At(s, (r + 1) % 4, c))),
                        At(s, (r + 2) % 4, c)), At(s, (r + 3) % 4, c))
  {
    hide FfAdd, FfMul, MixColumn, ByteOf;
    MixColumnAt(ColumnOf(s, c), r);
  }

  // Row r of column c once the substituted and shifted State is mixed.
  function Mixed(s: Block, r: nat, c: nat): bv8
    requires r < 4 && c < 4
  {
    FfAdd(FfAdd(FfAdd(FfMul(2, Sbox(At(s, r, (c + r) % 4))),
                      FfMul(3, Sbox(At(s, (r + 1) % 4, (c + r + 1) % 4)))),
                Sbox(At(s, (r + 2) % 4, (c + r + 2) % 4))),
          Sbox(At(s, (r + 3) % 4, (c + r + 3) % 4)))
  }

  lemma WrapsAround(c: nat, r: nat, k: nat)
    ensures (c + (r + k) % 4) % 4 == (c + r + k) % 4
  {
  }

  lemma ShiftedBelow(s: Block, r: nat, c: nat, k: nat)
    requires r < 4 && c < 4
    ensures At(ShiftRows(SubBytes(s)), (r + k) % 4, c) == Sbox(At(s, (r + k) % 4, (c + r + k) % 4))
  {
    hide At, Sbox, ShiftRows, SubBytes;
    WrapsAround(c, r, k);
    ShiftedAt(s, (r + k) % 4, c);
  }

  lemma RoundAt(s: Block, r: nat, c: nat)
    requires r < 4 && c < 4
    ensures At(MixColumns(ShiftRows(SubBytes(s))), r, c) == Mixed(s, r, c)
  {
    hide At, Sbox, FfAdd, FfMul, MixColumns, ShiftRows, SubBytes;
    MixedAt(ShiftRows(SubBytes(s)), r, c);
    ShiftedAt(s, r, c);
    ShiftedBelow(s, r, c, 1);
    ShiftedBelow(s, r, c, 2);
    ShiftedBelow(s, r, c, 3);
  }

  /** The first State is the block under the first four words. */
  lemma FirstBytes(s: Block, w: seq<bv32>, rounds: nat, r: nat, c: nat)
    requires Covers(w, rounds) && r < 4 && c < 4
    ensures c < |w|
    ensures At(AfterRounds(s, w, rounds, 0), r, c) == FfAdd(At(s, r, c), KeyByte(w[c], r))
  {
    hide At, FfAdd, KeyByte, AddKey;
    KeyAdded(s, w, rounds, 0, r, c);
  }

  lemma NextState(s: Block, w: seq<bv32>, rounds: nat, i: nat, r: nat, c: nat)
    requires Covers(w, rounds) && 0 < i <= rounds && r < 4 && c < 4
    ensures 4 * i % 256 + c < |w|
    ensures At(AfterRounds(s, w, rounds, i), r, c) ==
            FfAdd(Mixed(AfterRounds(s, w, rounds, i - 1), r, c), KeyByte(w[4 * i % 256 + c], r))
  {
    hide At, FfAdd, KeyByte, AddKey, MixColumns, ShiftRows, SubBytes, Mixed;
    var t := AfterRounds(s, w, rounds, i - 1);
    RoundAt(t, r, c);
    KeyAdded(MixColumns(ShiftRows(SubBytes(t))), w, rounds, i, r, c);
  }

  /** Each later State substitutes the bytes of the one before, takes row r from r columns further on, mixes
      the columns and adds byte r of word 4i + c, whose index is reduced modulo 256. */
  lemma RoundBytes(s: Block, w: seq<bv32>, rounds: nat, i: nat, r: nat, c: nat)
    requires Covers(w, rounds) && 0 < i <= rounds && r < 4 && c < 4
    ensures 4 * i % 256 + c < |w|
    ensures var t := AfterRounds(s, w, rounds, i - 1);
            At(AfterRounds(s, w, rounds, i), r, c) ==
            FfAdd(FfAdd(FfAdd(FfAdd(FfMul(2, Sbox(At(t, r, (c + r) % 4))),
                                    FfMul(3, Sbox(At(t, (r + 1) % 4, (c + r + 1) % 4)))),
                              Sbox(At(t, (r + 2) % 4, (c + r + 2) % 4))),
                        Sbox(At(t, (r + 3) % 4, (c + r + 3) % 4))),
                  KeyByte(w[4 * i % 256 + c], r))
  {
    hide At, FfAdd, FfMul, KeyByte, Sbox, AfterRounds;
    NextState(s, w, rounds, i, r, c);
  }

  /** The last step is a round without the mixing. */
  lemma LastBytes(s: Block, w: seq<bv32>, rounds: nat, r: nat, c: nat)
    requires Covers(w, rounds) && 0 < rounds && r < 4 && c < 4
    ensures 4 * rounds % 256 + c < |w|
    ensures At(Encrypt(s, w, rounds), r, c) ==
            FfAdd(Sbox(At(AfterRounds(s, w, rounds, rounds - 1), r, (c + r) % 4)),
                  KeyByte(w[4 * rounds % 256 + c], r))
  {
    hide At, FfAdd, KeyByte, AddKey, MixColumns, ShiftRows, SubBytes, Sbox, AfterRounds;
    var t := AfterRounds(s, w, rounds, rounds - 1);
    ShiftedAt(t, r, c);
    KeyAdded(ShiftRows(SubBytes(t)), w, rounds, rounds, r, c);
  }

  lemma LoadedColumn(b: seq<bv8>, c: nat)
    requires |b| >= 16 && c < 4
    ensures ColumnOf(Loaded(b), c) == Column(b[4 * c], b[4 * c + 1], b[4 * c + 2], b[4 * c + 3])
  {
  }

  /** Byte n of a buffer is in row n % 4, column n / 4. */
  lemma LoadedAt(b: seq<bv8>, r: nat, c: nat)
    requires |b| >= 16 && r < 4 && c < 4
    ensures At(Loaded(b), r, c) == b[r + 4 * c]
  {
    hide Loaded, ColumnOf;
    LoadedColumn(b, c);
  }

  // ---- Encryption undoes decryption as well ----

  lemma SubBytesRedone(s: Block)
    ensures SubBytes(InvSubBytes(s)) == s
  {
    hide SubColumn, InvSubColumn;
    SubRedone(s.c0);
    SubRedone(s.c1);
    SubRedone(s.c2);
    SubRedone(s.c3);
  }

  lemma MixColumnsRedone(s: Block)
    ensures MixColumns(InvMixColumns(s)) == s
  {
    hide MixColumn, InvMixColumn;
    MixRedone(s.c0);
    MixRedone(s.c1);
    MixRedone(s.c2);
    MixRedone(s.c3);
  }

  lemma {:induction false} RoundsRedone(s: Block, w: seq<bv32>, rounds: nat, i: nat)
    requires Covers(w, rounds) && i <= rounds
    ensures ShiftRows(SubBytes(AfterRounds(UndoRounds(s, w, rounds, i), w, rounds, i))) == s
    decreases i
  {
    hide AddKey, SubBytes, InvSubBytes, ShiftRows, InvShiftRows, MixColumns, InvMixColumns, Covers;
    var t := AddKey(InvSubBytes(InvShiftRows(s)), w, rounds, i);
    ShiftUndone(s);
    SubBytesRedone(InvShiftRows(s));
    AddKeyUndone(InvSubBytes(InvShiftRows(s)), w, rounds, i);
    if i > 0 {
      MixColumnsRedone(t);
      RoundsRedone(InvMixColumns(t), w, rounds, i - 1);
    }
  }

  lemma EncryptDecrypt(s: Block, w: seq<bv32>, rounds: nat)
    requires Covers(w, rounds) && rounds > 0
    ensures Encrypt(Decrypt(s, w, rounds), w, rounds) == s
  {
    hide AddKey, SubBytes, ShiftRows, AfterRounds, UndoRounds, Covers;
    AddKeyUndone(s, w, rounds, rounds);
    RoundsRedone(AddKey(s, w, rounds, rounds), w, rounds, rounds - 1);
  }

  // ---- Every word of the schedule matters ----

  predicate OnlyWord(w: seq<bv32>, v: seq<bv32>, j: nat) {
    j < |w| == |v| && w[j] != v[j] && forall k :: 0 <= k < |w| && k != j ==> w[k] == v[k]
  }

  lemma SameKey(s: Block, w: seq<bv32>, v: seq<bv32>, j: nat, rounds: nat, i: nat)
    requires OnlyWord(w, v, j) && Covers(w, rounds) && i <= rounds < 64 && j / 4 != i
    ensures AddKey(s, w, rounds, i) == AddKey(s, v, rounds, i)
  {
    hide AddColumn, KeyColumn;
    KeyInSchedule(w, rounds, i);
  }

  lemma OtherWord(w: bv32, v: bv32)
    requires w != v
    ensures KeyColumn(w) != KeyColumn(v)
  {
    hide KeyByte;
    WordOfBytes(w);
    WordOfBytes(v);
  }

  lemma OtherColumn(c: Column, d: Column, e: Column)
    requires d != e
    ensures AddColumn(c, d) != AddColumn(c, e)
  {
    hide FfAdd;
    AddTwice(d.b0, c.b0);
    AddTwice(e.b0, c.b0);
    AddTwice(d.b1, c.b1);
    AddTwice(e.b1, c.b1);
    AddTwice(d.b2, c.b2);
    AddTwice(e.b2, c.b2);
    AddTwice(d.b3, c.b3);
    AddTwice(e.b3, c.b3);
    AddCommutes(c.b0, d.b0);
    AddCommutes(c.b0, e.b0);
    AddCommutes(c.b1, d.b1);
    AddCommutes(c.b1, e.b1);
    AddCommutes(c.b2, d.b2);
    AddCommutes(c.b2, e.b2);
    AddCommutes(c.b3, d.b3);
    AddCommutes(c.b3, e.b3);
  }

  lemma OtherKey(s: Block, w: seq<bv32>, v: seq<bv32>, j: nat, rounds: nat)
    requires OnlyWord(w, v, j) && Covers(w, rounds) && j < 4 * (rounds + 1) && rounds < 64
    ensures AddKey(s, w, rounds, j / 4) != AddKey(s, v, rounds, j / 4)
  {
    hide AddColumn, KeyColumn;
    KeyInSchedule(w, rounds, j / 4);
    OtherWord(w[j], v[j]);
    OtherColumn(ColumnOf(s, j % 4), KeyColumn(w[j]), KeyColumn(v[j]));
  }

  lemma KeyKeepsApart(s: Block, t: Block, w: seq<bv32>, rounds: nat, i: nat)
    requires Covers(w, rounds) && i <= rounds && s != t
    ensures AddKey(s, w, rounds, i) != AddKey(t, w, rounds, i)
  {
    hide AddKey, Covers;
    AddKeyUndone(s, w, rounds, i);
    AddKeyUndone(t, w, rounds, i);
  }

  lemma ShiftKeepsApart(s: Block, t: Block)
    requires s != t
    ensures ShiftRows(SubBytes(s)) != ShiftRows(SubBytes(t))
  {
    hide SubBytes, InvSubBytes, ShiftRows, InvShiftRows;
    ShiftUndone(SubBytes(s));
    ShiftUndone(SubBytes(t));
    SubBytesUndone(s);
    SubBytesUndone(t);
  }

  lemma MixKeepsApart(s: Block, t: Block)
    requires s != t
    ensures MixColumns(s) != MixColumns(t)
  {
    hide MixColumns, InvMixColumns;
    MixColumnsUndone(s);
    MixColumnsUndone(t);
  }

  lemma {:induction false} RoundsAgree(s: Block, w: seq<bv32>, v: seq<bv32>, j: nat, rounds: nat, i: nat)
    requires OnlyWord(w, v, j) && Covers(w, rounds) && i <= rounds < 64 && i < j / 4
    ensures AfterRounds(s, w, rounds, i) == AfterRounds(s, v, rounds, i)
    decreases i
  {
    hide AddKey, SubBytes, ShiftRows, MixColumns, OnlyWord;
    if i == 0 {
      SameLength(w, v, j);
      SameKey(s, w, v, j, rounds, 0);
    } else {
      RoundsAgree(s, w, v, j, rounds, i - 1);
      SameKey(MixColumns(ShiftRows(SubBytes(AfterRounds(s, w, rounds, i - 1)))), w, v, j, rounds, i);
    }
  }

  lemma SameLength(w: seq<bv32>, v: seq<bv32>, j: nat)
    requires OnlyWord(w, v, j)
    ensures |w| == |v|
  {
  }

  lemma {:induction false} RoundsDiffer(s: Block, w: seq<bv32>, v: seq<bv32>, j: nat, rounds: nat, i: nat)
    requires OnlyWord(w, v, j) && Covers(w, rounds) && j / 4 <= i <= rounds < 64
    ensures AfterRounds(s, w, rounds, i) != AfterRounds(s, v, rounds, i)
    decreases i
  {
    hide AddKey, SubBytes, ShiftRows, MixColumns, OnlyWord;
    SameLength(w, v, j);
    if i == 0 {
      OtherKey(s, w, v, j, rounds);
    } else {
      var t, u := AfterRounds(s, w, rounds, i - 1), AfterRounds(s, v, rounds, i - 1);
      if i == j / 4 {
        RoundsAgree(s, w, v, j, rounds, i - 1);
        OtherKey(MixColumns(ShiftRows(SubBytes(t))), w, v, j, rounds);
      } else {
        RoundsDiffer(s, w, v, j, rounds, i - 1);
        ShiftKeepsApart(t, u);
        MixKeepsApart(ShiftRows(SubBytes(t)), ShiftRows(SubBytes(u)));
        KeyKeepsApart(MixColumns(ShiftRows(SubBytes(t))), MixColumns(ShiftRows(SubBytes(u))), w, rounds, i);
        SameKey(MixColumns(ShiftRows(SubBytes(u))), w, v, j, rounds, i);
      }
    }
  }

  /** Two schedules that differ in one of their words encrypt every block differently. */
  lemma EveryWordMatters(s: Block, w: seq<bv32>, v: seq<bv32>, j: nat, rounds: nat)
    requires 0 < rounds < 64 && |w| == |v| >= 4 * (rounds + 1) && j < 4 * (rounds + 1)
    requires w[j] != v[j] && forall k :: 0 <= k < |w| && k != j ==> w[k] == v[k]
    ensures Encrypt(s, w, rounds) != Encrypt(s, v, rounds)
  {
    hide AddKey, SubBytes, ShiftRows, MixColumns, AfterRounds;
    var t, u := AfterRounds(s, w, rounds, rounds - 1), AfterRounds(s, v, rounds, rounds - 1);
    if j / 4 == rounds {
      RoundsAgree(s, w, v, j, rounds, rounds - 1);
      OtherKey(ShiftRows(SubBytes(t)), w, v, j, rounds);
    } else {
      RoundsDiffer(s, w, v, j, rounds, rounds - 1);
      ShiftKeepsApart(t, u);
      KeyKeepsApart(ShiftRows(SubBytes(t)), ShiftRows(SubBytes(u)), w, rounds, rounds);
      SameKey(ShiftRows(SubBytes(u)), w, v, j, rounds, rounds);
    }
  }
}
