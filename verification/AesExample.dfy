/** The encryption that the program runs, and two key schedules, worked out (FIPS 197, appendices A.1 and C.1). */
module AesExample {
  import opened GaloisField
  import opened Sboxes
  import opened RoundConstants
  import opened Aes
  import opened AesCipher
  import opened KeySchedule

  // Four words of a schedule.
  datatype RoundKey = RoundKey(k0: bv32, k1: bv32, k2: bv32, k3: bv32)

  // The four words after k in the schedule of a key of four words.
  function NextKey(k: RoundKey, rcon: bv32): RoundKey {
    var q0 := Xor(k.k0, Xor(SubWord(RotWord(k.k3)), rcon));
    var q1 := Xor(k.k1, q0);
    var q2 := Xor(k.k2, q1);
    RoundKey(q0, q1, q2, Xor(k.k3, q2))
  }

  predicate IsAt(k: RoundKey, w: seq<bv32>, n: nat) {
    4 * n + 4 <= |w| && w[4 * n] == k.k0 && w[4 * n + 1] == k.k1 && w[4 * n + 2] == k.k2 && w[4 * n + 3] == k.k3
  }

  // ---- A schedule of a key of four words, round key by round key ----

  lemma SameBytes(v: bv32, w: bv32)
    requires forall r :: 0 <= r < 4 ==> KeyByte(v, r) == KeyByte(w, r)
    ensures v == w
  {
    hide KeyByte;
    WordOfBytes(v);
    WordOfBytes(w);
  }

  lemma Difference(a: bv8, b: bv8, c: bv8)
    requires FfAdd(a, b) == c
    ensures a == FfAdd(b, c)
  {
  }

  // What Follows says of a byte.
  lemma FollowingByte(temp: bv32, back: bv32, word: bv32, i: nat, r: nat)
    requires 4 <= i && r < 4 && Follows(temp, back, word, i, 4)
    ensures FfAdd(KeyByte(word, r), KeyByte(back, r)) ==
            if i % 4 == 0 then
              FfAdd(Sbox(KeyByte(temp, (r + 1) % 4)), if r == 0 then XtimePower(1, i / 4 - 1) else 0)
            else KeyByte(temp, r)
  {
    hide KeyByte, Sbox, FfAdd, XtimePower;
  }

  lemma FirstOfFour(temp: bv32, back: bv32, word: bv32, n: nat)
    requires 1 <= n < ROUND_CONSTANTS && Follows(temp, back, word, 4 * n, 4)
    ensures word == Xor(back, Xor(SubWord(RotWord(temp)), Rcon(n as bv8)))
  {
    hide KeyByte, Sbox, FfAdd, XtimePower, Xor, SubWord, RotWord, Rcon, Follows;
    var t := Xor(SubWord(RotWord(temp)), Rcon(n as bv8));
    forall r | 0 <= r < 4
      ensures KeyByte(word, r) == KeyByte(Xor(back, t), r)
    {
      FollowingByte(temp, back, word, 4 * n, r);
      RotatedByte(temp, n, r);
      XorByte(back, t, r);
      Difference(KeyByte(word, r), KeyByte(back, r), KeyByte(t, r));
    }
    SameBytes(word, Xor(back, t));
  }

  lemma OtherOfFour(temp: bv32, back: bv32, word: bv32, i: nat)
    requires 4 <= i && i % 4 != 0 && Follows(temp, back, word, i, 4)
    ensures word == Xor(back, temp)
  {
    hide KeyByte, Sbox, FfAdd, XtimePower, Xor, Follows;
    forall r | 0 <= r < 4
      ensures KeyByte(word, r) == KeyByte(Xor(back, temp), r)
    {
      FollowingByte(temp, back, word, i, r);
      XorByte(back, temp, r);
      Difference(KeyByte(word, r), KeyByte(back, r), KeyByte(temp, r));
    }
    SameBytes(word, Xor(back, temp));
  }

  lemma FollowsAt(w: seq<bv32>, m: nat, key: seq<bv8>, i: nat)
    requires |key| >= 16 && Expanded(w, m, key, 4) && 4 <= i < m
    ensures Follows(w[i - 1], w[i - 4], w[i], i, 4)
  {
    hide Follows;
    assert Scheduled(w, key, 4, i);
  }

  lemma NextKeyAt(w: seq<bv32>, m: nat, key: seq<bv8>, n: nat, k: RoundKey)
    requires |key| >= 16 && Expanded(w, m, key, 4) && 4 * n + 8 <= m && n + 1 < ROUND_CONSTANTS
    requires IsAt(k, w, n)
    ensures IsAt(NextKey(k, Rcon((n + 1) as bv8)), w, n + 1)
  {
    hide Xor, SubWord, RotWord, Rcon, Follows;
    FollowsAt(w, m, key, 4 * n + 4);
    FollowsAt(w, m, key, 4 * n + 5);
    FollowsAt(w, m, key, 4 * n + 6);
    FollowsAt(w, m, key, 4 * n + 7);
    FirstOfFour(w[4 * n + 3], w[4 * n], w[4 * n + 4], n + 1);
    OtherOfFour(w[4 * n + 4], w[4 * n + 1], w[4 * n + 5], 4 * n + 5);
    OtherOfFour(w[4 * n + 5], w[4 * n + 2], w[4 * n + 6], 4 * n + 6);
    OtherOfFour(w[4 * n + 6], w[4 * n + 3], w[4 * n + 7], 4 * n + 7);
  }

  lemma HoldsIs(word: bv32, b0: bv8, b1: bv8, b2: bv8, b3: bv8)
    requires Holds(word, b0, b1, b2, b3)
    ensures word == Pack(b0, b1, b2, b3)
  {
    hide KeyByte;
    WordOfBytes(word);
  }

  lemma KeyWordIs(w: seq<bv32>, m: nat, key: seq<bv8>, nk: nat, i: nat)
    requires 0 < nk && |key| >= 4 * nk && Expanded(w, m, key, nk) && i < m && i < nk
    ensures w[i] == Pack(key[4 * i], key[4 * i + 1], key[4 * i + 2], key[4 * i + 3])
  {
    hide Holds, Pack, Follows;
    assert Scheduled(w, key, nk, i);
    HoldsIs(w[i], key[4 * i], key[4 * i + 1], key[4 * i + 2], key[4 * i + 3]);
  }

  // ---- The key 00 01 ... 0f ----

  const EXAMPLE_KEY: seq<bv8> :=
    [0x00, 0x01, 0x02, 0x03, 0x04, 0x05, 0x06, 0x07, 0x08, 0x09, 0x0a, 0x0b, 0x0c, 0x0d, 0x0e, 0x0f]

  const K0 := RoundKey(0x00010203, 0x04050607, 0x08090a0b, 0x0c0d0e0f)
  const K1 := RoundKey(0xd6aa74fd, 0xd2af72fa, 0xdaa678f1, 0xd6ab76fe)
  const K2 := RoundKey(0xb692cf0b, 0x643dbdf1, 0xbe9bc500, 0x6830b3fe)
  const K3 := RoundKey(0xb6ff744e, 0xd2c2c9bf, 0x6c590cbf, 0x0469bf41)
  const K4 := RoundKey(0x47f7f7bc, 0x95353e03, 0xf96c32bc, 0xfd058dfd)
  const K5 := RoundKey(0x3caaa3e8, 0xa99f9deb, 0x50f3af57, 0xadf622aa)
  const K6 := RoundKey(0x5e390f7d, 0xf7a69296, 0xa7553dc1, 0x0aa31f6b)
  const K7 := RoundKey(0x14f9701a, 0xe35fe28c, 0x440adf4d, 0x4ea9c026)
  const K8 := RoundKey(0x47438735, 0xa41c65b9, 0xe016baf4, 0xaebf7ad2)
  const K9 := RoundKey(0x549932d1, 0xf0855768, 0x1093ed9c, 0xbe2c974e)
  const K10 := RoundKey(0x13111d7f, 0xe3944a17, 0xf307a78b, 0x4d2b30c5)

  lemma K1Next()
    ensures NextKey(K0, Rcon(1)) == K1
  {
  }

  lemma K2Next()
    ensures NextKey(K1, Rcon(2)) == K2
  {
  }

  lemma K3Next()
    ensures NextKey(K2, Rcon(3)) == K3
  {
  }

  lemma K4Next()
    ensures NextKey(K3, Rcon(4)) == K4
  {
  }

  lemma K5Next()
    ensures NextKey(K4, Rcon(5)) == K5
  {
  }

  lemma K6Next()
    ensures NextKey(K5, Rcon(6)) == K6
  {
  }

  lemma K7Next()
    ensures NextKey(K6, Rcon(7)) == K7
  {
  }

  lemma K8Next()
    ensures NextKey(K7, Rcon(8)) == K8
  {
  }

  lemma K9Next()
    ensures NextKey(K8, Rcon(9)) == K9
  {
  }

  lemma K10Next()
    ensures NextKey(K9, Rcon(10)) == K10
  {
  }

  lemma ExampleScheduleStart(w: seq<bv32>)
    requires Expanded(w, 44, EXAMPLE_KEY, 4)
    ensures IsAt(K0, w, 0)
  {
    hide Scheduled, Pack;
    KeyWordIs(w, 44, EXAMPLE_KEY, 4, 0);
    KeyWordIs(w, 44, EXAMPLE_KEY, 4, 1);
    KeyWordIs(w, 44, EXAMPLE_KEY, 4, 2);
    KeyWordIs(w, 44, EXAMPLE_KEY, 4, 3);
    K0Packed();
  }

  lemma K0Packed()
    ensures Pack(0x00, 0x01, 0x02, 0x03) == 0x00010203
    ensures Pack(0x04, 0x05, 0x06, 0x07) == 0x04050607
    ensures Pack(0x08, 0x09, 0x0a, 0x0b) == 0x08090a0b
    ensures Pack(0x0c, 0x0d, 0x0e, 0x0f) == 0x0c0d0e0f
  {
  }

  /** The schedule of the key that the program expands (FIPS 197, appendix C.1). */
  lemma ExampleSchedule(w: seq<bv32>)
    requires Expanded(w, 44, EXAMPLE_KEY, 4)
    ensures IsAt(K0, w, 0)
    ensures IsAt(K1, w, 1)
    ensures IsAt(K2, w, 2)
    ensures IsAt(K3, w, 3)
    ensures IsAt(K4, w, 4)
    ensures IsAt(K5, w, 5)
    ensures IsAt(K6, w, 6)
    ensures IsAt(K7, w, 7)
    ensures IsAt(K8, w, 8)
    ensures IsAt(K9, w, 9)
    ensures IsAt(K10, w, 10)
  {
    hide Expanded, NextKey, IsAt, Rcon;
    ExampleScheduleStart(w);
    K1Next();
    NextKeyAt(w, 44, EXAMPLE_KEY, 0, K0);
    K2Next();
    NextKeyAt(w, 44, EXAMPLE_KEY, 1, K1);
    K3Next();
    NextKeyAt(w, 44, EXAMPLE_KEY, 2, K2);
    K4Next();
    NextKeyAt(w, 44, EXAMPLE_KEY, 3, K3);
    K5Next();
    NextKeyAt(w, 44, EXAMPLE_KEY, 4, K4);
    K6Next();
    NextKeyAt(w, 44, EXAMPLE_KEY, 5, K5);
    K7Next();
    NextKeyAt(w, 44, EXAMPLE_KEY, 6, K6);
    K8Next();
    NextKeyAt(w, 44, EXAMPLE_KEY, 7, K7);
    K9Next();
    NextKeyAt(w, 44, EXAMPLE_KEY, 8, K8);
    K10Next();
    NextKeyAt(w, 44, EXAMPLE_KEY, 9, K9);
  }

  // ---- The key 2b 7e ... 3c ----

  const STANDARD_KEY: seq<bv8> :=
    [0x2b, 0x7e, 0x15, 0x16, 0x28, 0xae, 0xd2, 0xa6, 0xab, 0xf7, 0x15, 0x88, 0x09, 0xcf, 0x4f, 0x3c]

  const A0 := RoundKey(0x2b7e1516, 0x28aed2a6, 0xabf71588, 0x09cf4f3c)
  const A1 := RoundKey(0xa0fafe17, 0x88542cb1, 0x23a33939, 0x2a6c7605)
  const A2 := RoundKey(0xf2c295f2, 0x7a96b943, 0x5935807a, 0x7359f67f)
  const A3 := RoundKey(0x3d80477d, 0x4716fe3e, 0x1e237e44, 0x6d7a883b)
  const A4 := RoundKey(0xef44a541, 0xa8525b7f, 0xb671253b, 0xdb0bad00)
  const A5 := RoundKey(0xd4d1c6f8, 0x7c839d87, 0xcaf2b8bc, 0x11f915bc)
  const A6 := RoundKey(0x6d88a37a, 0x110b3efd, 0xdbf98641, 0xca0093fd)
  const A7 := RoundKey(0x4e54f70e, 0x5f5fc9f3, 0x84a64fb2, 0x4ea6dc4f)
  const A8 := RoundKey(0xead27321, 0xb58dbad2, 0x312bf560, 0x7f8d292f)
  const A9 := RoundKey(0xac7766f3, 0x19fadc21, 0x28d12941, 0x575c006e)
  const A10 := RoundKey(0xd014f9a8, 0xc9ee2589, 0xe13f0cc8, 0xb6630ca6)

  lemma A1Next()
    ensures NextKey(A0, Rcon(1)) == A1
  {
  }

  lemma A2Next()
    ensures NextKey(A1, Rcon(2)) == A2
  {
  }

  lemma A3Next()
    ensures NextKey(A2, Rcon(3)) == A3
  {
  }

  lemma A4Next()
    ensures NextKey(A3, Rcon(4)) == A4
  {
  }

  lemma A5Next()
    ensures NextKey(A4, Rcon(5)) == A5
  {
  }

  lemma A6Next()
    ensures NextKey(A5, Rcon(6)) == A6
  {
  }

  lemma A7Next()
    ensures NextKey(A6, Rcon(7)) == A7
  {
  }

  lemma A8Next()
    ensures NextKey(A7, Rcon(8)) == A8
  {
  }

  lemma A9Next()
    ensures NextKey(A8, Rcon(9)) == A9
  {
  }

  lemma A10Next()
    ensures NextKey(A9, Rcon(10)) == A10
  {
  }

  lemma StandardScheduleStart(w: seq<bv32>)
    requires Expanded(w, 44, STANDARD_KEY, 4)
    ensures IsAt(A0, w, 0)
  {
    hide Scheduled, Pack;
    KeyWordIs(w, 44, STANDARD_KEY, 4, 0);
    KeyWordIs(w, 44, STANDARD_KEY, 4, 1);
    KeyWordIs(w, 44, STANDARD_KEY, 4, 2);
    KeyWordIs(w, 44, STANDARD_KEY, 4, 3);
    A0Packed();
  }

  lemma A0Packed()
    ensures Pack(0x2b, 0x7e, 0x15, 0x16) == 0x2b7e1516
    ensures Pack(0x28, 0xae, 0xd2, 0xa6) == 0x28aed2a6
    ensures Pack(0xab, 0xf7, 0x15, 0x88) == 0xabf71588
    ensures Pack(0x09, 0xcf, 0x4f, 0x3c) == 0x09cf4f3c
  {
  }

  /** The schedule of FIPS 197, appendix A.1. */
  lemma StandardSchedule(w: seq<bv32>)
    requires Expanded(w, 44, STANDARD_KEY, 4)
    ensures IsAt(A0, w, 0)
    ensures IsAt(A1, w, 1)
    ensures IsAt(A2, w, 2)
    ensures IsAt(A3, w, 3)
    ensures IsAt(A4, w, 4)
    ensures IsAt(A5, w, 5)
    ensures IsAt(A6, w, 6)
    ensures IsAt(A7, w, 7)
    ensures IsAt(A8, w, 8)
    ensures IsAt(A9, w, 9)
    ensures IsAt(A10, w, 10)
  {
    hide Expanded, NextKey, IsAt, Rcon;
    StandardScheduleStart(w);
    A1Next();
    NextKeyAt(w, 44, STANDARD_KEY, 0, A0);
    A2Next();
    NextKeyAt(w, 44, STANDARD_KEY, 1, A1);
    A3Next();
    NextKeyAt(w, 44, STANDARD_KEY, 2, A2);
    A4Next();
    NextKeyAt(w, 44, STANDARD_KEY, 3, A3);
    A5Next();
    NextKeyAt(w, 44, STANDARD_KEY, 4, A4);
    A6Next();
    NextKeyAt(w, 44, STANDARD_KEY, 5, A5);
    A7Next();
    NextKeyAt(w, 44, STANDARD_KEY, 6, A6);
    A8Next();
    NextKeyAt(w, 44, STANDARD_KEY, 7, A7);
    A9Next();
    NextKeyAt(w, 44, STANDARD_KEY, 8, A8);
    A10Next();
    NextKeyAt(w, 44, STANDARD_KEY, 9, A9);
  }

  // ---- The block 00 11 ... ff under the first key ----

  function AddFour(s: Block, k: RoundKey): Block {
    Block(AddColumn(s.c0, KeyColumn(k.k0)), AddColumn(s.c1, KeyColumn(k.k1)),
          AddColumn(s.c2, KeyColumn(k.k2)), AddColumn(s.c3, KeyColumn(k.k3)))
  }

  lemma AddFourIs(s: Block, k: RoundKey, w: seq<bv32>, rounds: nat, n: nat)
    requires IsAt(k, w, n) && Covers(w, rounds) && n <= rounds < 64
    ensures AddKey(s, w, rounds, n) == AddFour(s, k)
  {
    hide AddColumn, KeyColumn;
    KeyInSchedule(w, rounds, n);
  }

  // Mixing a column without multiplications.
  function MixByDoubling(c: Column): Column {
    Column(FfAdd(FfAdd(FfAdd(Xtime(c.b0), FfAdd(Xtime(c.b1), c.b1)), c.b2), c.b3),
           FfAdd(FfAdd(FfAdd(c.b0, Xtime(c.b1)), FfAdd(Xtime(c.b2), c.b2)), c.b3),
           FfAdd(FfAdd(FfAdd(c.b0, c.b1), Xtime(c.b2)), FfAdd(Xtime(c.b3), c.b3)),
           FfAdd(FfAdd(FfAdd(FfAdd(Xtime(c.b0), c.b0), c.b1), c.b2), Xtime(c.b3)))
  }

  lemma MulThree(a: bv8)
    ensures FfMul(3, a) == FfAdd(Xtime(a), a)
  {
    hide FfMul, Xtime, FfAdd;
    TwoAndOne();
    MulDistributesLeft(2, 1, a);
    MulTwo(a);
    MulOne(a);
  }

  lemma TwoAndOne()
    ensures FfAdd(2, 1) == 3
  {
  }

  lemma MixIsByDoubling(c: Column)
    ensures MixColumn(c) == MixByDoubling(c)
  {
    hide FfMul, Xtime, FfAdd;
    MulThree(c.b0);
    MulThree(c.b1);
    MulThree(c.b2);
    MulThree(c.b3);
  }

  function MixFour(s: Block): Block {
    Block(MixByDoubling(s.c0), MixByDoubling(s.c1), MixByDoubling(s.c2), MixByDoubling(s.c3))
  }

  // The States after each full round (FIPS 197, appendix C.1).
  const S0 := Block(Column(0x00, 0x10, 0x20, 0x30), Column(0x40, 0x50, 0x60, 0x70),
                    Column(0x80, 0x90, 0xa0, 0xb0), Column(0xc0, 0xd0, 0xe0, 0xf0))
  const S1 := Block(Column(0x89, 0xd8, 0x10, 0xe8), Column(0x85, 0x5a, 0xce, 0x68),
                    Column(0x2d, 0x18, 0x43, 0xd8), Column(0xcb, 0x12, 0x8f, 0xe4))
  const S2 := Block(Column(0x49, 0x15, 0x59, 0x8f), Column(0x55, 0xe5, 0xd7, 0xa0),
                    Column(0xda, 0xca, 0x94, 0xfa), Column(0x1f, 0x0a, 0x63, 0xf7))
  const S3 := Block(Column(0xfa, 0x63, 0x6a, 0x28), Column(0x25, 0xb3, 0x39, 0xc9),
                    Column(0x40, 0x66, 0x8a, 0x31), Column(0x57, 0x24, 0x4d, 0x17))
  const S4 := Block(Column(0x24, 0x72, 0x40, 0x23), Column(0x69, 0x66, 0xb3, 0xfa),
                    Column(0x6e, 0xd2, 0x75, 0x32), Column(0x88, 0x42, 0x5b, 0x6c))
  const S5 := Block(Column(0xc8, 0x16, 0x77, 0xbc), Column(0x9b, 0x7a, 0xc9, 0x3b),
                    Column(0x25, 0x02, 0x79, 0x92), Column(0xb0, 0x26, 0x19, 0x96))
  const S6 := Block(Column(0xc6, 0x2f, 0xe1, 0x09), Column(0xf7, 0x5e, 0xed, 0xc3),
                    Column(0xcc, 0x79, 0x39, 0x5d), Column(0x84, 0xf9, 0xcf, 0x5d))
  const S7 := Block(Column(0xd1, 0x87, 0x6c, 0x0f), Column(0x79, 0xc4, 0x30, 0x0a),
                    Column(0xb4, 0x55, 0x94, 0xad), Column(0xd6, 0x6f, 0xf4, 0x1f))
  const S8 := Block(Column(0xfd, 0xe3, 0xba, 0xd2), Column(0x05, 0xe5, 0xd0, 0xd7),
                    Column(0x35, 0x47, 0x96, 0x4e), Column(0xf1, 0xfe, 0x37, 0xf1))
  const S9 := Block(Column(0xbd, 0x6e, 0x7c, 0x3d), Column(0xf2, 0xb5, 0x77, 0x9e),
                    Column(0x0b, 0x61, 0x21, 0x6e), Column(0x8b, 0x10, 0xb6, 0x89))

  // The same States substituted and shifted.
  const T0 := Block(Column(0x63, 0x53, 0xe0, 0x8c), Column(0x09, 0x60, 0xe1, 0x04),
                    Column(0xcd, 0x70, 0xb7, 0x51), Column(0xba, 0xca, 0xd0, 0xe7))
  const T1 := Block(Column(0xa7, 0xbe, 0x1a, 0x69), Column(0x97, 0xad, 0x73, 0x9b),
                    Column(0xd8, 0xc9, 0xca, 0x45), Column(0x1f, 0x61, 0x8b, 0x61))
  const T2 := Block(Column(0x3b, 0xd9, 0x22, 0x68), Column(0xfc, 0x74, 0xfb, 0x73),
                    Column(0x57, 0x67, 0xcb, 0xe0), Column(0xc0, 0x59, 0x0e, 0x2d))
  const T3 := Block(Column(0x2d, 0x6d, 0x7e, 0xf0), Column(0x3f, 0x33, 0xe3, 0x34),
                    Column(0x09, 0x36, 0x02, 0xdd), Column(0x5b, 0xfb, 0x12, 0xc7))
  const T4 := Block(Column(0x36, 0x33, 0x9d, 0x50), Column(0xf9, 0xb5, 0x39, 0x26),
                    Column(0x9f, 0x2c, 0x09, 0x2d), Column(0xc4, 0x40, 0x6d, 0x23))
  const T5 := Block(Column(0xe8, 0xda, 0xb6, 0x90), Column(0x14, 0x77, 0xd4, 0x65),
                    Column(0x3f, 0xf7, 0xf5, 0xe2), Column(0xe7, 0x47, 0xdd, 0x4f))
  const T6 := Block(Column(0xb4, 0x58, 0x12, 0x4c), Column(0x68, 0xb6, 0x8a, 0x01),
                    Column(0x4b, 0x99, 0xf8, 0x2e), Column(0x5f, 0x15, 0x55, 0x4c))
  const T7 := Block(Column(0x3e, 0x1c, 0x22, 0xc0), Column(0xb6, 0xfc, 0xbf, 0x76),
                    Column(0x8d, 0xa8, 0x50, 0x67), Column(0xf6, 0x17, 0x04, 0x95))
  const T8 := Block(Column(0x54, 0xd9, 0x90, 0xa1), Column(0x6b, 0xa0, 0x9a, 0xb5),
                    Column(0x96, 0xbb, 0xf4, 0x0e), Column(0xa1, 0x11, 0x70, 0x2f))
  const T9 := Block(Column(0x7a, 0xd5, 0xfd, 0xa7), Column(0x89, 0xef, 0x4e, 0x27),
                    Column(0x2b, 0xca, 0x10, 0x0b), Column(0x3d, 0x9f, 0xf5, 0x9f))

  lemma S0Bytes()
    ensures Sbox(0x00) == 0x63 && Sbox(0x10) == 0xca && Sbox(0x20) == 0xb7 && Sbox(0x30) == 0x04
    ensures Sbox(0x40) == 0x09 && Sbox(0x50) == 0x53 && Sbox(0x60) == 0xd0 && Sbox(0x70) == 0x51
    ensures Sbox(0x80) == 0xcd && Sbox(0x90) == 0x60 && Sbox(0xa0) == 0xe0 && Sbox(0xb0) == 0xe7
    ensures Sbox(0xc0) == 0xba && Sbox(0xd0) == 0x70 && Sbox(0xe0) == 0xe1 && Sbox(0xf0) == 0x8c
  {
  }

  lemma S0Shifted()
    ensures ShiftRows(SubBytes(S0)) == T0
  {
    hide Sbox;
    S0Bytes();
  }

  lemma S1Bytes()
    ensures Sbox(0x89) == 0xa7 && Sbox(0xd8) == 0x61 && Sbox(0x10) == 0xca && Sbox(0xe8) == 0x9b
    ensures Sbox(0x85) == 0x97 && Sbox(0x5a) == 0xbe && Sbox(0xce) == 0x8b && Sbox(0x68) == 0x45
    ensures Sbox(0x2d) == 0xd8 && Sbox(0x18) == 0xad && Sbox(0x43) == 0x1a && Sbox(0xd8) == 0x61
    ensures Sbox(0xcb) == 0x1f && Sbox(0x12) == 0xc9 && Sbox(0x8f) == 0x73 && Sbox(0xe4) == 0x69
  {
  }

  lemma S1Shifted()
    ensures ShiftRows(SubBytes(S1)) == T1
  {
    hide Sbox;
    S1Bytes();
  }

  lemma S2Bytes()
    ensures Sbox(0x49) == 0x3b && Sbox(0x15) == 0x59 && Sbox(0x59) == 0xcb && Sbox(0x8f) == 0x73
    ensures Sbox(0x55) == 0xfc && Sbox(0xe5) == 0xd9 && Sbox(0xd7) == 0x0e && Sbox(0xa0) == 0xe0
    ensures Sbox(0xda) == 0x57 && Sbox(0xca) == 0x74 && Sbox(0x94) == 0x22 && Sbox(0xfa) == 0x2d
    ensures Sbox(0x1f) == 0xc0 && Sbox(0x0a) == 0x67 && Sbox(0x63) == 0xfb && Sbox(0xf7) == 0x68
  {
  }

  lemma S2Shifted()
    ensures ShiftRows(SubBytes(S2)) == T2
  {
    hide Sbox;
    S2Bytes();
  }

  lemma S3Bytes()
    ensures Sbox(0xfa) == 0x2d && Sbox(0x63) == 0xfb && Sbox(0x6a) == 0x02 && Sbox(0x28) == 0x34
    ensures Sbox(0x25) == 0x3f && Sbox(0xb3) == 0x6d && Sbox(0x39) == 0x12 && Sbox(0xc9) == 0xdd
    ensures Sbox(0x40) == 0x09 && Sbox(0x66) == 0x33 && Sbox(0x8a) == 0x7e && Sbox(0x31) == 0xc7
    ensures Sbox(0x57) == 0x5b && Sbox(0x24) == 0x36 && Sbox(0x4d) == 0xe3 && Sbox(0x17) == 0xf0
  {
  }

  lemma S3Shifted()
    ensures ShiftRows(SubBytes(S3)) == T3
  {
    hide Sbox;
    S3Bytes();
  }

  lemma S4Bytes()
    ensures Sbox(0x24) == 0x36 && Sbox(0x72) == 0x40 && Sbox(0x40) == 0x09 && Sbox(0x23) == 0x26
    ensures Sbox(0x69) == 0xf9 && Sbox(0x66) == 0x33 && Sbox(0xb3) == 0x6d && Sbox(0xfa) == 0x2d
    ensures Sbox(0x6e) == 0x9f && Sbox(0xd2) == 0xb5 && Sbox(0x75) == 0x9d && Sbox(0x32) == 0x23
    ensures Sbox(0x88) == 0xc4 && Sbox(0x42) == 0x2c && Sbox(0x5b) == 0x39 && Sbox(0x6c) == 0x50
  {
  }

  lemma S4Shifted()
    ensures ShiftRows(SubBytes(S4)) == T4
  {
    hide Sbox;
    S4Bytes();
  }

  lemma S5Bytes()
    ensures Sbox(0xc8) == 0xe8 && Sbox(0x16) == 0x47 && Sbox(0x77) == 0xf5 && Sbox(0xbc) == 0x65
    ensures Sbox(0x9b) == 0x14 && Sbox(0x7a) == 0xda && Sbox(0xc9) == 0xdd && Sbox(0x3b) == 0xe2
    ensures Sbox(0x25) == 0x3f && Sbox(0x02) == 0x77 && Sbox(0x79) == 0xb6 && Sbox(0x92) == 0x4f
    ensures Sbox(0xb0) == 0xe7 && Sbox(0x26) == 0xf7 && Sbox(0x19) == 0xd4 && Sbox(0x96) == 0x90
  {
  }

  lemma S5Shifted()
    ensures ShiftRows(SubBytes(S5)) == T5
  {
    hide Sbox;
    S5Bytes();
  }

  lemma S6Bytes()
    ensures Sbox(0xc6) == 0xb4 && Sbox(0x2f) == 0x15 && Sbox(0xe1) == 0xf8 && Sbox(0x09) == 0x01
    ensures Sbox(0xf7) == 0x68 && Sbox(0x5e) == 0x58 && Sbox(0xed) == 0x55 && Sbox(0xc3) == 0x2e
    ensures Sbox(0xcc) == 0x4b && Sbox(0x79) == 0xb6 && Sbox(0x39) == 0x12 && Sbox(0x5d) == 0x4c
    ensures Sbox(0x84) == 0x5f && Sbox(0xf9) == 0x99 && Sbox(0xcf) == 0x8a && Sbox(0x5d) == 0x4c
  {
  }

  lemma S6Shifted()
    ensures ShiftRows(SubBytes(S6)) == T6
  {
    hide Sbox;
    S6Bytes();
  }

  lemma S7Bytes()
    ensures Sbox(0xd1) == 0x3e && Sbox(0x87) == 0x17 && Sbox(0x6c) == 0x50 && Sbox(0x0f) == 0x76
    ensures Sbox(0x79) == 0xb6 && Sbox(0xc4) == 0x1c && Sbox(0x30) == 0x04 && Sbox(0x0a) == 0x67
    ensures Sbox(0xb4) == 0x8d && Sbox(0x55) == 0xfc && Sbox(0x94) == 0x22 && Sbox(0xad) == 0x95
    ensures Sbox(0xd6) == 0xf6 && Sbox(0x6f) == 0xa8 && Sbox(0xf4) == 0xbf && Sbox(0x1f) == 0xc0
  {
  }

  lemma S7Shifted()
    ensures ShiftRows(SubBytes(S7)) == T7
  {
    hide Sbox;
    S7Bytes();
  }

  lemma S8Bytes()
    ensures Sbox(0xfd) == 0x54 && Sbox(0xe3) == 0x11 && Sbox(0xba) == 0xf4 && Sbox(0xd2) == 0xb5
    ensures Sbox(0x05) == 0x6b && Sbox(0xe5) == 0xd9 && Sbox(0xd0) == 0x70 && Sbox(0xd7) == 0x0e
    ensures Sbox(0x35) == 0x96 && Sbox(0x47) == 0xa0 && Sbox(0x96) == 0x90 && Sbox(0x4e) == 0x2f
    ensures Sbox(0xf1) == 0xa1 && Sbox(0xfe) == 0xbb && Sbox(0x37) == 0x9a && Sbox(0xf1) == 0xa1
  {
  }

  lemma S8Shifted()
    ensures ShiftRows(SubBytes(S8)) == T8
  {
    hide Sbox;
    S8Bytes();
  }

  lemma S9Bytes()
    ensures Sbox(0xbd) == 0x7a && Sbox(0x6e) == 0x9f && Sbox(0x7c) == 0x10 && Sbox(0x3d) == 0x27
    ensures Sbox(0xf2) == 0x89 && Sbox(0xb5) == 0xd5 && Sbox(0x77) == 0xf5 && Sbox(0x9e) == 0x0b
    ensures Sbox(0x0b) == 0x2b && Sbox(0x61) == 0xef && Sbox(0x21) == 0xfd && Sbox(0x6e) == 0x9f
    ensures Sbox(0x8b) == 0x3d && Sbox(0x10) == 0xca && Sbox(0xb6) == 0x4e && Sbox(0x89) == 0xa7
  {
  }

  lemma S9Shifted()
    ensures ShiftRows(SubBytes(S9)) == T9
  {
    hide Sbox;
    S9Bytes();
  }

  lemma T0Mixed()
    ensures AddFour(MixFour(T0), K1) == S1
  {
  }

  lemma T1Mixed()
    ensures AddFour(MixFour(T1), K2) == S2
  {
  }

  lemma T2Mixed()
    ensures AddFour(MixFour(T2), K3) == S3
  {
  }

  lemma T3Mixed()
    ensures AddFour(MixFour(T3), K4) == S4
  {
  }

  lemma T4Mixed()
    ensures AddFour(MixFour(T4), K5) == S5
  {
  }

  lemma T5Mixed()
    ensures AddFour(MixFour(T5), K6) == S6
  {
  }

  lemma T6Mixed()
    ensures AddFour(MixFour(T6), K7) == S7
  {
  }

  lemma T7Mixed()
    ensures AddFour(MixFour(T7), K8) == S8
  {
  }

  lemma T8Mixed()
    ensures AddFour(MixFour(T8), K9) == S9
  {
  }

  // ---- The whole encryption ----

  const PLAINTEXT: seq<bv8> :=
    [0x00, 0x11, 0x22, 0x33, 0x44, 0x55, 0x66, 0x77, 0x88, 0x99, 0xaa, 0xbb, 0xcc, 0xdd, 0xee, 0xff]

  lemma PlaintextAdded()
    ensures AddFour(Loaded(PLAINTEXT), K0) == S0
  {
  }

  lemma LastAdded()
    ensures AddFour(T9, K10) ==
            Block(Column(0x69, 0xc4, 0xe0, 0xd8), Column(0x6a, 0x7b, 0x04, 0x30),
                  Column(0xd8, 0xcd, 0xb7, 0x80), Column(0x70, 0xb4, 0xc5, 0x5a))
  {
  }

  // One full round, from State s to State u.
  lemma RoundIs(b: Block, w: seq<bv32>, i: nat, s: Block, t: Block, k: RoundKey, u: Block)
    requires |w| >= 44 && i < 9 && AfterRounds(b, w, 10, i) == s && ShiftRows(SubBytes(s)) == t
    requires IsAt(k, w, i + 1) && AddFour(MixFour(t), k) == u
    ensures AfterRounds(b, w, 10, i + 1) == u
  {
    hide ShiftRows, SubBytes, MixColumn, MixByDoubling, AddKey, AddFour, IsAt;
    MixIsByDoubling(t.c0);
    MixIsByDoubling(t.c1);
    MixIsByDoubling(t.c2);
    MixIsByDoubling(t.c3);
    AddFourIs(MixFour(t), k, w, 10, i + 1);
  }

  lemma FirstRounds(w: seq<bv32>)
    requires |w| >= 44 && Expanded(w, 44, EXAMPLE_KEY, 4)
    ensures AfterRounds(Loaded(PLAINTEXT), w, 10, 3) == S3
  {
    hide ShiftRows, SubBytes, AddFour, MixFour, IsAt, Expanded, AddKey, Loaded;
    var b := Loaded(PLAINTEXT);
    ExampleSchedule(w);
    AddFourIs(b, K0, w, 10, 0);
    PlaintextAdded();
    S0Shifted();
    T0Mixed();
    RoundIs(b, w, 0, S0, T0, K1, S1);
    S1Shifted();
    T1Mixed();
    RoundIs(b, w, 1, S1, T1, K2, S2);
    S2Shifted();
    T2Mixed();
    RoundIs(b, w, 2, S2, T2, K3, S3);
  }

  lemma SixRounds(w: seq<bv32>)
    requires |w| >= 44 && Expanded(w, 44, EXAMPLE_KEY, 4)
    ensures AfterRounds(Loaded(PLAINTEXT), w, 10, 6) == S6
  {
    hide ShiftRows, SubBytes, AddFour, MixFour, IsAt, Expanded, AddKey, Loaded, AfterRounds;
    var b := Loaded(PLAINTEXT);
    ExampleSchedule(w);
    FirstRounds(w);
    S3Shifted();
    T3Mixed();
    RoundIs(b, w, 3, S3, T3, K4, S4);
    S4Shifted();
    T4Mixed();
    RoundIs(b, w, 4, S4, T4, K5, S5);
    S5Shifted();
    T5Mixed();
    RoundIs(b, w, 5, S5, T5, K6, S6);
  }

  lemma AllRounds(w: seq<bv32>)
    requires |w| >= 44 && Expanded(w, 44, EXAMPLE_KEY, 4)
    ensures AfterRounds(Loaded(PLAINTEXT), w, 10, 9) == S9
  {
    hide ShiftRows, SubBytes, AddFour, MixFour, IsAt, Expanded, AddKey, Loaded, AfterRounds;
    var b := Loaded(PLAINTEXT);
    ExampleSchedule(w);
    SixRounds(w);
    S6Shifted();
    T6Mixed();
    RoundIs(b, w, 6, S6, T6, K7, S7);
    S7Shifted();
    T7Mixed();
    RoundIs(b, w, 7, S7, T7, K8, S8);
    S8Shifted();
    T8Mixed();
    RoundIs(b, w, 8, S8, T8, K9, S9);
  }

  lemma ExampleEncrypted(w: seq<bv32>)
    requires |w| >= 44 && Expanded(w, 44, EXAMPLE_KEY, 4)
    ensures Encrypt(Loaded(PLAINTEXT), w, 10) ==
            Block(Column(0x69, 0xc4, 0xe0, 0xd8), Column(0x6a, 0x7b, 0x04, 0x30),
                  Column(0xd8, 0xcd, 0xb7, 0x80), Column(0x70, 0xb4, 0xc5, 0x5a))
  {
    hide ShiftRows, SubBytes, AddFour, IsAt, Expanded, AddKey, AfterRounds, Loaded;
    ExampleSchedule(w);
    AllRounds(w);
    S9Shifted();
    AddFourIs(T9, K10, w, 10, 10);
    LastAdded();
  }

  /** What the program encrypts, up to its printing (FIPS 197, appendix C.1). */
  method ExampleCipher() returns (ciphertext: array<bv8>)
    ensures ciphertext[..] ==
            [0x69, 0xc4, 0xe0, 0xd8, 0x6a, 0x7b, 0x04, 0x30,
             0xd8, 0xcd, 0xb7, 0x80, 0x70, 0xb4, 0xc5, 0x5a]
  {
    hide Encrypt, Expanded;
    var plaintext := new bv8[16](i requires 0 <= i < 16 => PLAINTEXT[i]);
    var key := new bv8[16](i requires 0 <= i < 16 => EXAMPLE_KEY[i]);
    ciphertext := new bv8[16];
    var w := new bv32[44];
    assert plaintext[..] == PLAINTEXT && key[..] == EXAMPLE_KEY;
    KeyExpansion(key, w, 4, 10);
    Cipher(plaintext, ciphertext, w, 10);
    ExampleEncrypted(w[..]);
    BytesOfCipher(ciphertext[..]);
  }

  lemma BytesOfCipher(b: seq<bv8>)
    requires |b| == 16
    requires Loaded(b) ==
             Block(Column(0x69, 0xc4, 0xe0, 0xd8), Column(0x6a, 0x7b, 0x04, 0x30),
                   Column(0xd8, 0xcd, 0xb7, 0x80), Column(0x70, 0xb4, 0xc5, 0x5a))
    ensures b ==
            [0x69, 0xc4, 0xe0, 0xd8, 0x6a, 0x7b, 0x04, 0x30,
             0xd8, 0xcd, 0xb7, 0x80, 0x70, 0xb4, 0xc5, 0x5a]
  {
  }
}
