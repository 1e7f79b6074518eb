/** Whole encryptions and decryptions: any number of rounds, any key schedule. */
module AesCipher {
  import opened Basics
  import opened GaloisField
  import opened Sboxes
  import opened Aes

  // The word index is an unsigned char, so it wraps around after 64 rounds.
  function KeyStart(round: nat): (start: nat)
    ensures start <= 252
  {
    4 * round % 256
  }

  predicate Covers(w: seq<bv32>, rounds: nat) {
    |w| >= 256 || |w| >= 4 * (rounds + 1)
  }

  lemma KeyInSchedule(w: seq<bv32>, rounds: nat, round: nat)
    requires Covers(w, rounds) && round <= rounds
    ensures KeyStart(round) + 4 <= |w|
  {
  }

  function AddKey(s: Block, w: seq<bv32>, rounds: nat, round: nat): Block
    requires Covers(w, rounds) && round <= rounds
  {
    KeyInSchedule(w, rounds, round);
    AddRoundKey(s, w, KeyStart(round))
  }

  function SubBytes(s: Block): Block {
    Block(SubColumn(s.c0), SubColumn(s.c1), SubColumn(s.c2), SubColumn(s.c3))
  }

  function InvSubBytes(s: Block): Block {
    Block(InvSubColumn(s.c0), InvSubColumn(s.c1), InvSubColumn(s.c2), InvSubColumn(s.c3))
  }

  function MixColumns(s: Block): Block {
    Block(MixColumn(s.c0), MixColumn(s.c1), MixColumn(s.c2), MixColumn(s.c3))
  }

  function InvMixColumns(s: Block): Block {
    Block(InvMixColumn(s.c0), InvMixColumn(s.c1), InvMixColumn(s.c2), InvMixColumn(s.c3))
  }

  // The State after the initial key addition and the first i full rounds.
  function AfterRounds(s: Block, w: seq<bv32>, rounds: nat, i: nat): Block
    requires Covers(w, rounds) && i <= rounds
    decreases i
  {
    if i == 0 then AddKey(s, w, rounds, 0)
    else AddKey(MixColumns(ShiftRows(SubBytes(AfterRounds(s, w, rounds, i - 1)))), w, rounds, i)
  }

  function Encrypt(s: Block, w: seq<bv32>, rounds: nat): Block
    requires Covers(w, rounds) && rounds > 0
  {
    AddKey(ShiftRows(SubBytes(AfterRounds(s, w, rounds, rounds - 1))), w, rounds, rounds)
  }

  // The inverse rounds i, ..., 1 and the final one.
  function UndoRounds(s: Block, w: seq<bv32>, rounds: nat, i: nat): Block
    requires Covers(w, rounds) && i <= rounds
    decreases i
  {
    var t := AddKey(InvSubBytes(InvShiftRows(s)), w, rounds, i);
    if i == 0 then t else UndoRounds(InvMixColumns(t), w, rounds, i - 1)
  }

  function Decrypt(s: Block, w: seq<bv32>, rounds: nat): Block
    requires Covers(w, rounds) && rounds > 0
  {
    UndoRounds(AddKey(s, w, rounds, rounds), w, rounds, rounds - 1)
  }

  // ---- Decryption undoes encryption ----

  lemma AddKeyUndone(s: Block, w: seq<bv32>, rounds: nat, round: nat)
    requires Covers(w, rounds) && round <= rounds
    ensures AddKey(AddKey(s, w, rounds, round), w, rounds, round) == s
  {
    hide AddRoundKey;
    AddRoundKeyUndone(s, w, KeyStart(round));
  }

  lemma SubBytesUndone(s: Block)
    ensures InvSubBytes(SubBytes(s)) == s
  {
    hide SubColumn, InvSubColumn;
    SubUndone(s.c0);
    SubUndone(s.c1);
    SubUndone(s.c2);
    SubUndone(s.c3);
  }

  lemma MixColumnsUndone(s: Block)
    ensures InvMixColumns(MixColumns(s)) == s
  {
    hide MixColumn, InvMixColumn;
    MixUndone(s.c0);
    MixUndone(s.c1);
    MixUndone(s.c2);
    MixUndone(s.c3);
  }

  lemma {:induction false} RoundsUndone(s: Block, w: seq<bv32>, rounds: nat, i: nat)
    requires Covers(w, rounds) && i <= rounds
    ensures UndoRounds(ShiftRows(SubBytes(AfterRounds(s, w, rounds, i))), w, rounds, i) == s
    decreases i
  {
    hide AddKey, SubBytes, InvSubBytes, ShiftRows, InvShiftRows, MixColumns, InvMixColumns, Covers;
    var t := AfterRounds(s, w, rounds, i);
    ShiftUndone(SubBytes(t));
    SubBytesUndone(t);
    if i == 0 {
      AddKeyUndone(s, w, rounds, 0);
    } else {
      var u := ShiftRows(SubBytes(AfterRounds(s, w, rounds, i - 1)));
      AddKeyUndone(MixColumns(u), w, rounds, i);
      MixColumnsUndone(u);
      RoundsUndone(s, w, rounds, i - 1);
    }
  }

  /** FIPS 197, sections 5.1 and 5.3, for every block, every key schedule and every number of
      rounds but none. */
  lemma DecryptEncrypt(s: Block, w: seq<bv32>, rounds: nat)
    requires Covers(w, rounds) && rounds > 0
    ensures Decrypt(Encrypt(s, w, rounds), w, rounds) == s
  {
    hide AddKey, SubBytes, ShiftRows, AfterRounds, UndoRounds, Covers;
    AddKeyUndone(ShiftRows(SubBytes(AfterRounds(s, w, rounds, rounds - 1))), w, rounds, rounds);
    RoundsUndone(s, w, rounds, rounds - 1);
  }

  // ---- The State array ----

  predicate IsState(state: array2<bv8>) {
    state.Length0 == 4 && state.Length1 == 4
  }

  ghost function Col(state: array2<bv8>, c: nat): Column
    requires IsState(state) && c < 4
    reads state
  {
    Column(state[0, c], state[1, c], state[2, c], state[3, c])
  }

  ghost function Contents(state: array2<bv8>): Block
    requires IsState(state)
    reads state
  {
    Block(Col(state, 0), Col(state, 1), Col(state, 2), Col(state, 3))
  }

  method SubBytesInPlace(state: array2<bv8>)
    requires IsState(state)
    modifies state
    ensures Contents(state) == SubBytes(old(Contents(state)))
  {
    hide Sbox;
    for r := 0 to 4
      invariant forall i, j :: 0 <= i < 4 && 0 <= j < 4 ==>
                  state[i, j] == if i < r then Sbox(old(state[i, j])) else old(state[i, j])
    {
      for c := 0 to 4
        invariant forall i, j :: 0 <= i < 4 && 0 <= j < 4 ==>
                    state[i, j] == if i < r || (i == r && j < c) then Sbox(old(state[i, j])) else old(state[i, j])
      {
        state[r, c] := Sbox(state[r, c]);
      }
    }
  }

  method InvSubBytesInPlace(state: array2<bv8>)
    requires IsState(state)
    modifies state
    ensures Contents(state) == InvSubBytes(old(Contents(state)))
  {
    hide InvSbox;
    for r := 0 to 4
      invariant forall i, j :: 0 <= i < 4 && 0 <= j < 4 ==>
                  state[i, j] == if i < r then InvSbox(old(state[i, j])) else old(state[i, j])
    {
      for c := 0 to 4
        invariant forall i, j :: 0 <= i < 4 && 0 <= j < 4 ==>
                    state[i, j] == if i < r || (i == r && j < c) then InvSbox(old(state[i, j])) else old(state[i, j])
      {
        state[r, c] := InvSbox(state[r, c]);
      }
    }
  }

  twostate predicate OnlyRow(state: array2<bv8>, r: nat)
    requires IsState(state)
    reads state
  {
    forall i, j :: 0 <= i < 4 && 0 <= j < 4 && i != r ==> state[i, j] == old(state[i, j])
  }

  method RotateLeft(state: array2<bv8>, r: nat)
    requires IsState(state) && r < 4
    modifies state
    ensures OnlyRow(state, r)
    ensures state[r, 0] == old(state[r, 1]) && state[r, 1] == old(state[r, 2])
    ensures state[r, 2] == old(state[r, 3]) && state[r, 3] == old(state[r, 0])
  {
    var temp := state[r, 0];
    state[r, 0] := state[r, 1];
    state[r, 1] := state[r, 2];
    state[r, 2] := state[r, 3];
    state[r, 3] := temp;
  }

  method RotateRight(state: array2<bv8>, r: nat)
    requires IsState(state) && r < 4
    modifies state
    ensures OnlyRow(state, r)
    ensures state[r, 0] == old(state[r, 3]) && state[r, 1] == old(state[r, 0])
    ensures state[r, 2] == old(state[r, 1]) && state[r, 3] == old(state[r, 2])
  {
    var temp := state[r, 3];
    state[r, 3] := state[r, 2];
    state[r, 2] := state[r, 1];
    state[r, 1] := state[r, 0];
    state[r, 0] := temp;
  }

  method RotateHalf(state: array2<bv8>, r: nat)
    requires IsState(state) && r < 4
    modifies state
    ensures OnlyRow(state, r)
    ensures state[r, 0] == old(state[r, 2]) && state[r, 1] == old(state[r, 3])
    ensures state[r, 2] == old(state[r, 0]) && state[r, 3] == old(state[r, 1])
  {
    var temp := state[r, 0];
    state[r, 0] := state[r, 2];
    state[r, 2] := temp;
    temp := state[r, 1];
    state[r, 1] := state[r, 3];
    state[r, 3] := temp;
  }

  method ShiftRowsInPlace(state: array2<bv8>)
    requires IsState(state)
    modifies state
    ensures Contents(state) == ShiftRows(old(Contents(state)))
  {
    RotateLeft(state, 1);
    RotateHalf(state, 2);
    RotateRight(state, 3);
  }

  method InvShiftRowsInPlace(state: array2<bv8>)
    requires IsState(state)
    modifies state
    ensures Contents(state) == InvShiftRows(old(Contents(state)))
  {
    RotateRight(state, 1);
    RotateHalf(state, 2);
    RotateLeft(state, 3);
  }

  twostate predicate OnlyColumn(state: array2<bv8>, c: nat)
    requires IsState(state)
    reads state
  {
    forall d :: 0 <= d < 4 && d != c ==> Col(state, d) == old(Col(state, d))
  }

  method MixColumnInPlace(state: array2<bv8>, c: nat)
    requires IsState(state) && c < 4
    modifies state
    ensures Col(state, c) == MixColumn(old(Col(state, c))) && OnlyColumn(state, c)
  {
    hide FfAdd, FfMul, Xtime;
    var b0, b1, b2, b3 := state[0, c], state[1, c], state[2, c], state[3, c];
    var m := FfMultiply(0x03, b1);
    state[0, c] := FfAdd(FfAdd(FfAdd(Xtime(b0), m), b2), b3);
    m := FfMultiply(0x03, b2);
    state[1, c] := FfAdd(FfAdd(FfAdd(b0, Xtime(b1)), m), b3);
    m := FfMultiply(0x03, b3);
    state[2, c] := FfAdd(FfAdd(FfAdd(b0, b1), Xtime(b2)), m);
    m := FfMultiply(0x03, b0);
    state[3, c] := FfAdd(FfAdd(FfAdd(m, b1), b2), Xtime(b3));
  }

  method MixColumnsInPlace(state: array2<bv8>)
    requires IsState(state)
    modifies state
    ensures Contents(state) == MixColumns(old(Contents(state)))
  {
    hide MixColumn;
    for c := 0 to 4
      invariant forall d :: 0 <= d < 4 ==>
                  Col(state, d) == if d < c then MixColumn(old(Col(state, d))) else old(Col(state, d))
    {
      MixColumnInPlace(state, c);
    }
  }

  // One byte of the inverse matrix product.
  method Dot4(k: Column, b0: bv8, b1: bv8, b2: bv8, b3: bv8) returns (r: bv8)
    ensures r == Dot(k, Column(b0, b1, b2, b3))
  {
    hide FfAdd, FfMul;
    r := FfMultiply(k.b0, b0);
    var m := FfMultiply(k.b1, b1);
    r := FfAdd(r, m);
    m := FfMultiply(k.b2, b2);
    r := FfAdd(r, m);
    m := FfMultiply(k.b3, b3);
    r := FfAdd(r, m);
  }

  method InvMixColumnInPlace(state: array2<bv8>, c: nat)
    requires IsState(state) && c < 4
    modifies state
    ensures Col(state, c) == InvMixColumn(old(Col(state, c))) && OnlyColumn(state, c)
  {
    hide Dot;
    var b0, b1, b2, b3 := state[0, c], state[1, c], state[2, c], state[3, c];
    state[0, c] := Dot4(Column(0x0e, 0x0b, 0x0d, 0x09), b0, b1, b2, b3);
    state[1, c] := Dot4(Column(0x09, 0x0e, 0x0b, 0x0d), b0, b1, b2, b3);
    state[2, c] := Dot4(Column(0x0d, 0x09, 0x0e, 0x0b), b0, b1, b2, b3);
    state[3, c] := Dot4(Column(0x0b, 0x0d, 0x09, 0x0e), b0, b1, b2, b3);
  }

  method InvMixColumnsInPlace(state: array2<bv8>)
    requires IsState(state)
    modifies state
    ensures Contents(state) == InvMixColumns(old(Contents(state)))
  {
    hide InvMixColumn;
    for c := 0 to 4
      invariant forall d :: 0 <= d < 4 ==>
                  Col(state, d) == if d < c then InvMixColumn(old(Col(state, d))) else old(Col(state, d))
    {
      InvMixColumnInPlace(state, c);
    }
  }

  method AddWord(state: array2<bv8>, c: nat, word: bv32)
    requires IsState(state) && c < 4
    modifies state
    ensures Col(state, c) == AddColumn(old(Col(state, c)), KeyColumn(word)) && OnlyColumn(state, c)
  {
    hide FfAdd, KeyByte;
    state[0, c] := FfAdd(state[0, c], KeyByte(word, 0));
    state[1, c] := FfAdd(state[1, c], KeyByte(word, 1));
    state[2, c] := FfAdd(state[2, c], KeyByte(word, 2));
    state[3, c] := FfAdd(state[3, c], KeyByte(word, 3));
  }

  // Adds the words start, ..., start + 3 to the columns.
  method AddRoundKeyInPlace(state: array2<bv8>, w: array<bv32>, start: nat)
    requires IsState(state) && start + 4 <= w.Length
    modifies state
    ensures Contents(state) == AddRoundKey(old(Contents(state)), w[..], start)
  {
    hide AddColumn, KeyColumn;
    var c := 0;
    for i := start to start + 4
      invariant c == i - start
      invariant forall d :: 0 <= d < 4 ==>
                  Col(state, d) ==
                  if d < c then AddColumn(old(Col(state, d)), KeyColumn(w[start + d])) else old(Col(state, d))
    {
      AddWord(state, c, w[i]);
      c := c + 1;
    }
  }

  // ---- Cipher and InvCipher ----

  // Byte r + 4c of the buffer is in row r, column c.
  function Loaded(b: seq<bv8>): Block
    requires |b| >= 16
  {
    Block(Column(b[0], b[1], b[2], b[3]), Column(b[4], b[5], b[6], b[7]),
          Column(b[8], b[9], b[10], b[11]), Column(b[12], b[13], b[14], b[15]))
  }

  method Load(input: array<bv8>) returns (state: array2<bv8>)
    requires input.Length >= 16
    ensures fresh(state) && IsState(state) && Contents(state) == Loaded(input[..])
  {
    state := new bv8[4, 4];
    for r := 0 to 4
      invariant forall i, j :: 0 <= i < r && 0 <= j < 4 ==> state[i, j] == input[i + 4 * j]
    {
      for c := 0 to 4
        invariant forall i, j :: 0 <= i < r && 0 <= j < 4 ==> state[i, j] == input[i + 4 * j]
        invariant forall j :: 0 <= j < c ==> state[r, j] == input[r + 4 * j]
      {
        state[r, c] := input[r + 4 * c];
      }
    }
  }

  method Store(state: array2<bv8>, output: array<bv8>)
    requires IsState(state) && output.Length >= 16
    modifies output
    ensures Loaded(output[..]) == Contents(state)
    ensures output[16..] == old(output[16..])
  {
    for r := 0 to 4
      invariant forall i, j :: 0 <= i < r && 0 <= j < 4 ==> output[i + 4 * j] == state[i, j]
      invariant output[16..] == old(output[16..])
    {
      for c := 0 to 4
        invariant forall i, j :: 0 <= i < r && 0 <= j < 4 ==> output[i + 4 * j] == state[i, j]
        invariant forall j :: 0 <= j < c ==> output[r + 4 * j] == state[r, j]
        invariant output[16..] == old(output[16..])
      {
        output[r + 4 * c] := state[r, c];
      }
    }
  }

  /** Encrypts the 16 bytes of input. */
  method Cipher(input: array<bv8>, output: array<bv8>, w: array<bv32>, nr: U8)
    requires input.Length >= 16 && output.Length >= 16
    requires nr > 0 && Covers(w[..], nr)
    modifies output
    ensures Loaded(output[..]) == Encrypt(old(Loaded(input[..])), w[..], nr)
    ensures output[16..] == old(output[16..])
  {
    hide SubBytes, ShiftRows, MixColumns, AddRoundKey, Loaded, Contents, Covers;
    ghost var s, rest := Loaded(input[..]), output[16..];
    var state := Load(input);
    KeyInSchedule(w[..], nr, 0);
    AddRoundKeyInPlace(state, w, 0);
    var i := 1;
    while i <= nr - 1
      invariant 1 <= i <= nr && fresh(state) && IsState(state) && output[16..] == rest
      invariant Contents(state) == AfterRounds(s, w[..], nr, i - 1)
    {
      SubBytesInPlace(state);
      ShiftRowsInPlace(state);
      MixColumnsInPlace(state);
      KeyInSchedule(w[..], nr, i);
      AddRoundKeyInPlace(state, w, 4 * i % 256);
      i := i + 1;
    }
    SubBytesInPlace(state);
    ShiftRowsInPlace(state);
    KeyInSchedule(w[..], nr, nr);
    AddRoundKeyInPlace(state, w, 4 * nr % 256);
    Store(state, output);
  }

  /** Decrypts the 16 bytes of input. */
  method InvCipher(input: array<bv8>, output: array<bv8>, w: array<bv32>, nr: U8)
    requires input.Length >= 16 && output.Length >= 16
    requires nr > 0 && Covers(w[..], nr)
    modifies output
    ensures Loaded(output[..]) == Decrypt(old(Loaded(input[..])), w[..], nr)
    ensures output[16..] == old(output[16..])
  {
    hide InvSubBytes, InvShiftRows, InvMixColumns, AddRoundKey, Loaded, Contents, Covers;
    ghost var s, rest := Loaded(input[..]), output[16..];
    var state := Load(input);
    KeyInSchedule(w[..], nr, nr);
    AddRoundKeyInPlace(state, w, 4 * nr % 256);
    var i := nr - 1;
    while i > 0
      invariant 0 <= i < nr && fresh(state) && IsState(state) && output[16..] == rest
      invariant UndoRounds(Contents(state), w[..], nr, i) == Decrypt(s, w[..], nr)
    {
      InvShiftRowsInPlace(state);
      InvSubBytesInPlace(state);
      KeyInSchedule(w[..], nr, i);
      AddRoundKeyInPlace(state, w, 4 * i % 256);
      InvMixColumnsInPlace(state);
      i := i - 1;
    }
    InvShiftRowsInPlace(state);
    InvSubBytesInPlace(state);
    KeyInSchedule(w[..], nr, 0);
    AddRoundKeyInPlace(state, w, 0);
    Store(state, output);
  }

  /** The two calls in a row give the plaintext back, whatever the schedule holds. */
  method RoundTrip(plain: array<bv8>, w: array<bv32>, nr: U8) returns (again: array<bv8>)
    requires plain.Length == 16 && nr > 0 && Covers(w[..], nr)
    ensures again[..] == plain[..]
  {
    hide Encrypt, Decrypt, Loaded, Covers;
    var cipher := new bv8[16];
    again := new bv8[16];
    Cipher(plain, cipher, w, nr);
    InvCipher(cipher, again, w, nr);
    DecryptEncrypt(Loaded(plain[..]), w[..], nr);
    LoadedInjective(again[..], plain[..]);
  }

  lemma LoadedInjective(a: seq<bv8>, b: seq<bv8>)
    requires |a| == |b| == 16 && Loaded(a) == Loaded(b)
    ensures a == b
  {
  }
}
