/** Rows of the tables of AES. */
module Tables {
  // Entry n of a row of sixteen.
  function Select(n: bv8, v0: bv8, v1: bv8, v2: bv8, v3: bv8, v4: bv8, v5: bv8, v6: bv8, v7: bv8,
                  v8: bv8, v9: bv8, v10: bv8, v11: bv8, v12: bv8, v13: bv8, v14: bv8, v15: bv8): bv8 {
    if n & 8 == 0 then
      if n & 4 == 0 then
        if n & 2 == 0 then if n & 1 == 0 then v0 else v1 else if n & 1 == 0 then v2 else v3
      else
        if n & 2 == 0 then if n & 1 == 0 then v4 else v5 else if n & 1 == 0 then v6 else v7
    else
      if n & 4 == 0 then
        if n & 2 == 0 then if n & 1 == 0 then v8 else v9 else if n & 1 == 0 then v10 else v11
      else
        if n & 2 == 0 then if n & 1 == 0 then v12 else v13 else if n & 1 == 0 then v14 else v15
  }
}

/** The substitution tables of AES (FIPS 197, sections 5.1.1 and 5.3.2). */
module Sboxes {
  import opened GaloisField
  import opened Tables

  // Row hi, column lo.
  function SboxAt(hi: bv8, lo: bv8): bv8 {
    Select(hi,
      Select(lo, 0x63, 0x7c, 0x77, 0x7b, 0xf2, 0x6b, 0x6f, 0xc5, 0x30, 0x01, 0x67, 0x2b, 0xfe, 0xd7, 0xab, 0x76),
      Select(lo, 0xca, 0x82, 0xc9, 0x7d, 0xfa, 0x59, 0x47, 0xf0, 0xad, 0xd4, 0xa2, 0xaf, 0x9c, 0xa4, 0x72, 0xc0),
      Select(lo, 0xb7, 0xfd, 0x93, 0x26, 0x36, 0x3f, 0xf7, 0xcc, 0x34, 0xa5, 0xe5, 0xf1, 0x71, 0xd8, 0x31, 0x15),
      Select(lo, 0x04, 0xc7, 0x23, 0xc3, 0x18, 0x96, 0x05, 0x9a, 0x07, 0x12, 0x80, 0xe2, 0xeb, 0x27, 0xb2, 0x75),
      Select(lo, 0x09, 0x83, 0x2c, 0x1a, 0x1b, 0x6e, 0x5a, 0xa0, 0x52, 0x3b, 0xd6, 0xb3, 0x29, 0xe3, 0x2f, 0x84),
      Select(lo, 0x53, 0xd1, 0x00, 0xed, 0x20, 0xfc, 0xb1, 0x5b, 0x6a, 0xcb, 0xbe, 0x39, 0x4a, 0x4c, 0x58, 0xcf),
      Select(lo, 0xd0, 0xef, 0xaa, 0xfb, 0x43, 0x4d, 0x33, 0x85, 0x45, 0xf9, 0x02, 0x7f, 0x50, 0x3c, 0x9f, 0xa8),
      Select(lo, 0x51, 0xa3, 0x40, 0x8f, 0x92, 0x9d, 0x38, 0xf5, 0xbc, 0xb6, 0xda, 0x21, 0x10, 0xff, 0xf3, 0xd2),
      Select(lo, 0xcd, 0x0c, 0x13, 0xec, 0x5f, 0x97, 0x44, 0x17, 0xc4, 0xa7, 0x7e, 0x3d, 0x64, 0x5d, 0x19, 0x73),
      Select(lo, 0x60, 0x81, 0x4f, 0xdc, 0x22, 0x2a, 0x90, 0x88, 0x46, 0xee, 0xb8, 0x14, 0xde, 0x5e, 0x0b, 0xdb),
      Select(lo, 0xe0, 0x32, 0x3a, 0x0a, 0x49, 0x06, 0x24, 0x5c, 0xc2, 0xd3, 0xac, 0x62, 0x91, 0x95, 0xe4, 0x79),
      Select(lo, 0xe7, 0xc8, 0x37, 0x6d, 0x8d, 0xd5, 0x4e, 0xa9, 0x6c, 0x56, 0xf4, 0xea, 0x65, 0x7a, 0xae, 0x08),
      Select(lo, 0xba, 0x78, 0x25, 0x2e, 0x1c, 0xa6, 0xb4, 0xc6, 0xe8, 0xdd, 0x74, 0x1f, 0x4b, 0xbd, 0x8b, 0x8a),
      Select(lo, 0x70, 0x3e, 0xb5, 0x66, 0x48, 0x03, 0xf6, 0x0e, 0x61, 0x35, 0x57, 0xb9, 0x86, 0xc1, 0x1d, 0x9e),
      Select(lo, 0xe1, 0xf8, 0x98, 0x11, 0x69, 0xd9, 0x8e, 0x94, 0x9b, 0x1e, 0x87, 0xe9, 0xce, 0x55, 0x28, 0xdf),
      Select(lo, 0x8c, 0xa1, 0x89, 0x0d, 0xbf, 0xe6, 0x42, 0x68, 0x41, 0x99, 0x2d, 0x0f, 0xb0, 0x54, 0xbb, 0x16))
  }

  function InvSboxAt(hi: bv8, lo: bv8): bv8 {
    Select(hi,
      Select(lo, 0x52, 0x09, 0x6a, 0xd5, 0x30, 0x36, 0xa5, 0x38, 0xbf, 0x40, 0xa3, 0x9e, 0x81, 0xf3, 0xd7, 0xfb),
      Select(lo, 0x7c, 0xe3, 0x39, 0x82, 0x9b, 0x2f, 0xff, 0x87, 0x34, 0x8e, 0x43, 0x44, 0xc4, 0xde, 0xe9, 0xcb),
      Select(lo, 0x54, 0x7b, 0x94, 0x32, 0xa6, 0xc2, 0x23, 0x3d, 0xee, 0x4c, 0x95, 0x0b, 0x42, 0xfa, 0xc3, 0x4e),
      Select(lo, 0x08, 0x2e, 0xa1, 0x66, 0x28, 0xd9, 0x24, 0xb2, 0x76, 0x5b, 0xa2, 0x49, 0x6d, 0x8b, 0xd1, 0x25),
      Select(lo, 0x72, 0xf8, 0xf6, 0x64, 0x86, 0x68, 0x98, 0x16, 0xd4, 0xa4, 0x5c, 0xcc, 0x5d, 0x65, 0xb6, 0x92),
      Select(lo, 0x6c, 0x70, 0x48, 0x50, 0xfd, 0xed, 0xb9, 0xda, 0x5e, 0x15, 0x46, 0x57, 0xa7, 0x8d, 0x9d, 0x84),
      Select(lo, 0x90, 0xd8, 0xab, 0x00, 0x8c, 0xbc, 0xd3, 0x0a, 0xf7, 0xe4, 0x58, 0x05, 0xb8, 0xb3, 0x45, 0x06),
      Select(lo, 0xd0, 0x2c, 0x1e, 0x8f, 0xca, 0x3f, 0x0f, 0x02, 0xc1, 0xaf, 0xbd, 0x03, 0x01, 0x13, 0x8a, 0x6b),
      Select(lo, 0x3a, 0x91, 0x11, 0x41, 0x4f, 0x67, 0xdc, 0xea, 0x97, 0xf2, 0xcf, 0xce, 0xf0, 0xb4, 0xe6, 0x73),
      Select(lo, 0x96, 0xac, 0x74, 0x22, 0xe7, 0xad, 0x35, 0x85, 0xe2, 0xf9, 0x37, 0xe8, 0x1c, 0x75, 0xdf, 0x6e),
      Select(lo, 0x47, 0xf1, 0x1a, 0x71, 0x1d, 0x29, 0xc5, 0x89, 0x6f, 0xb7, 0x62, 0x0e, 0xaa, 0x18, 0xbe, 0x1b),
      Select(lo, 0xfc, 0x56, 0x3e, 0x4b, 0xc6, 0xd2, 0x79, 0x20, 0x9a, 0xdb, 0xc0, 0xfe, 0x78, 0xcd, 0x5a, 0xf4),
      Select(lo, 0x1f, 0xdd, 0xa8, 0x33, 0x88, 0x07, 0xc7, 0x31, 0xb1, 0x12, 0x10, 0x59, 0x27, 0x80, 0xec, 0x5f),
      Select(lo, 0x60, 0x51, 0x7f, 0xa9, 0x19, 0xb5, 0x4a, 0x0d, 0x2d, 0xe5, 0x7a, 0x9f, 0x93, 0xc9, 0x9c, 0xef),
      Select(lo, 0xa0, 0xe0, 0x3b, 0x4d, 0xae, 0x2a, 0xf5, 0xb0, 0xc8, 0xeb, 0xbb, 0x3c, 0x83, 0x53, 0x99, 0x61),
      Select(lo, 0x17, 0x2b, 0x04, 0x7e, 0xba, 0x77, 0xd6, 0x26, 0xe1, 0x69, 0x14, 0x63, 0x55, 0x21, 0x0c, 0x7d))
  }

  function Sbox(b: bv8): bv8 {
    SboxAt(b >> 4, b & 0x0f)
  }

  function InvSbox(b: bv8): bv8 {
    InvSboxAt(b >> 4, b & 0x0f)
  }

  // ---- Each table undoes the other ----

  lemma LowUndone(b: bv8)
    requires b & 0x80 == 0
    ensures InvSbox(Sbox(b)) == b
  {
  }

  lemma HighUndone(b: bv8)
    requires b & 0x80 != 0
    ensures InvSbox(Sbox(b)) == b
  {
  }

  lemma LowRedone(b: bv8)
    requires b & 0x80 == 0
    ensures Sbox(InvSbox(b)) == b
  {
  }

  lemma HighRedone(b: bv8)
    requires b & 0x80 != 0
    ensures Sbox(InvSbox(b)) == b
  {
  }

  lemma InvSboxUndoesSbox(b: bv8)
    ensures InvSbox(Sbox(b)) == b
  {
    hide Sbox, InvSbox;
    if b & 0x80 == 0 {
      LowUndone(b);
    } else {
      HighUndone(b);
    }
  }

  lemma SboxUndoesInvSbox(b: bv8)
    ensures Sbox(InvSbox(b)) == b
  {
    hide Sbox, InvSbox;
    if b & 0x80 == 0 {
      LowRedone(b);
    } else {
      HighRedone(b);
    }
  }

  // ---- What the table is for ----

  ghost predicate IsInverse(b: bv8, x: bv8) {
    if b == 0 then x == 0 else FfMul(b, x) == 1
  }

  function Rotated(b: bv8, n: bv8): bv8
    requires n <= 8
  {
    (b << n) | (b >> (8 - n))
  }

  // The affine map of section 5.1.1, and the way back.
  function Affine(b: bv8): bv8 {
    b ^ Rotated(b, 1) ^ Rotated(b, 2) ^ Rotated(b, 3) ^ Rotated(b, 4) ^ 0x63
  }

  function InvAffine(b: bv8): bv8 {
    Rotated(b, 1) ^ Rotated(b, 3) ^ Rotated(b, 6) ^ 0x05
  }

  lemma AffineUndone(b: bv8)
    ensures InvAffine(Affine(b)) == b
  {
  }

  lemma AffineRedone(b: bv8)
    ensures Affine(InvAffine(b)) == b
  {
  }

  // The product of a and b, its eight terms written out.
  function Product(a: bv8, b: bv8): bv8 {
    var a1, b1 := Xtime(a), Half(b);
    var a2, b2 := Xtime(a1), Half(b1);
    var a3, b3 := Xtime(a2), Half(b2);
    var a4, b4 := Xtime(a3), Half(b3);
    var a5, b5 := Xtime(a4), Half(b4);
    var a6, b6 := Xtime(a5), Half(b5);
    var a7, b7 := Xtime(a6), Half(b6);
    FfAdd(Pick(b, a), FfAdd(Pick(b1, a1), FfAdd(Pick(b2, a2), FfAdd(Pick(b3, a3),
    FfAdd(Pick(b4, a4), FfAdd(Pick(b5, a5), FfAdd(Pick(b6, a6), FfAdd(Pick(b7, a7), 0))))))))
  }

  lemma Product0(b: bv8)
    requires b & 0xc0 == 0x00 && b != 0
    ensures Product(b, InvAffine(Sbox(b))) == 1
  {
    if b & 0x20 == 0 {
      if b & 1 == 0 {
      } else {
      }
    } else {
      if b & 1 == 0 {
      } else {
      }
    }
  }

  lemma Product1(b: bv8)
    requires b & 0xc0 == 0x40
    ensures Product(b, InvAffine(Sbox(b))) == 1
  {
    if b & 0x20 == 0 {
      if b & 1 == 0 {
      } else {
      }
    } else {
      if b & 1 == 0 {
      } else {
      }
    }
  }

  lemma Product2(b: bv8)
    requires b & 0xc0 == 0x80
    ensures Product(b, InvAffine(Sbox(b))) == 1
  {
    if b & 0x20 == 0 {
      if b & 1 == 0 {
      } else {
      }
    } else {
      if b & 1 == 0 {
      } else {
      }
    }
  }

  lemma Product3(b: bv8)
    requires b & 0xc0 == 0xc0
    ensures Product(b, InvAffine(Sbox(b))) == 1
  {
    if b & 0x20 == 0 {
      if b & 1 == 0 {
      } else {
      }
    } else {
      if b & 1 == 0 {
      } else {
      }
    }
  }

  lemma ZeroEntry()
    ensures InvAffine(Sbox(0)) == 0
  {
  }

  lemma ShiftAddTwice(t: bv8, b: bv8, n: nat)
    ensures ShiftAdd(t, b, n + 2) ==
            FfAdd(Pick(b, t), FfAdd(Pick(Half(b), Xtime(t)), ShiftAdd(Xtime(Xtime(t)), Half(Half(b)), n)))
  {
    hide FfAdd, Pick, Xtime, Half, ShiftAdd;
    ShiftAddUnfolds(t, b, n + 2);
    ShiftAddUnfolds(Xtime(t), Half(b), n + 1);
  }

  lemma MulIsProduct(a: bv8, b: bv8)
    ensures FfMul(a, b) == Product(a, b)
  {
    hide FfAdd, Pick, Xtime, Half, ShiftAdd;
    ShiftAddTwice(a, b, 6);
    ShiftAddTwice(Xtime(Xtime(a)), Half(Half(b)), 4);
    ShiftAddTwice(Xtime(Xtime(Xtime(Xtime(a)))), Half(Half(Half(Half(b)))), 2);
    ShiftAddTwice(Xtime(Xtime(Xtime(Xtime(Xtime(Xtime(a)))))), Half(Half(Half(Half(Half(Half(b)))))), 0);
    var a6, b6 := Xtime(Xtime(Xtime(Xtime(Xtime(Xtime(a)))))), Half(Half(Half(Half(Half(Half(b))))));
    NoTerms(Xtime(Xtime(a6)), Half(Half(b6)));
  }

  lemma InverseOfEntry(b: bv8)
    ensures IsInverse(b, InvAffine(Sbox(b)))
  {
    hide Sbox, InvAffine, Product, FfMul;
    if b == 0 {
      ZeroEntry();
    } else {
      MulIsProduct(b, InvAffine(Sbox(b)));
      if b & 0xc0 == 0x00 {
        Product0(b);
      } else if b & 0xc0 == 0x40 {
        Product1(b);
      } else if b & 0xc0 == 0x80 {
        Product2(b);
      } else {
        Product3(b);
      }
    }
  }

  lemma InverseUnique(b: bv8, x: bv8, y: bv8)
    requires IsInverse(b, x) && IsInverse(b, y)
    ensures x == y
  {
    hide FfMul;
    if b != 0 {
      MulAssociates(x, b, y);
      MulCommutes(x, b);
      MulCommutes(x, 1);
      MulOne(x);
      MulCommutes(1, y);
      MulOne(y);
    }
  }

  /** The table holds what section 5.1.1 defines: the affine map of the inverse in the field, and no other byte's. */
  lemma SboxIsAffineInverse(b: bv8, x: bv8)
    ensures IsInverse(b, x) <==> Sbox(b) == Affine(x)
  {
    hide IsInverse, Sbox, Affine, InvAffine;
    InverseOfEntry(b);
    AffineRedone(Sbox(b));
    AffineUndone(x);
    if IsInverse(b, x) {
      InverseUnique(b, x, InvAffine(Sbox(b)));
    }
  }
}

/** The round constants of the key expansion (FIPS 197, section 5.2). */
module RoundConstants {
  import opened GaloisField
  import opened Tables

  const ROUND_CONSTANTS := 52

  // The top byte of entry n, for n < 52.
  function RconByte(n: bv8): bv8 {
    if n & 0x30 == 0x00 then
      Select(n & 0x0f, 0x00, 0x01, 0x02, 0x04, 0x08, 0x10, 0x20, 0x40,
             0x80, 0x1b, 0x36, 0x6c, 0xd8, 0xab, 0x4d, 0x9a)
    else if n & 0x30 == 0x10 then
      Select(n & 0x0f, 0x2f, 0x5e, 0xbc, 0x63, 0xc6, 0x97, 0x35, 0x6a,
             0xd4, 0xb3, 0x7d, 0xfa, 0xef, 0xc5, 0x91, 0x39)
    else if n & 0x30 == 0x20 then
      Select(n & 0x0f, 0x72, 0xe4, 0xd3, 0xbd, 0x61, 0xc2, 0x9f, 0x25,
             0x4a, 0x94, 0x33, 0x66, 0xcc, 0x83, 0x1d, 0x3a)
    else
      Select(n & 0x0f, 0x74, 0xe8, 0xcb, 0x8d, 0x00, 0x00, 0x00, 0x00,
             0x00, 0x00, 0x00, 0x00, 0x00, 0x00, 0x00, 0x00)
  }

  // Entry n of the table: its other bytes are 0.
  function Rcon(n: bv8): bv32 {
    (RconByte(n) as bv32) << 24
  }

  lemma RconStep(n: bv8)
    requires 1 <= n < 51
    ensures RconByte(n + 1) == Xtime(RconByte(n))
  {
    if n & 0x30 == 0x10 {
    } else if n & 0x30 == 0x20 {
    } else {
    }
  }

  /** The constants start at 1, and each is x times the one before it. */
  lemma RconDoubles(n: bv8)
    requires 1 <= n < 51
    ensures RconByte(1) == 1 && RconByte(n + 1) == FfMul(2, RconByte(n))
  {
    hide FfMul, Xtime, RconByte;
    FirstConstant();
    RconStep(n);
    MulTwo(RconByte(n));
  }

  // a times x^i
  function XtimePower(a: bv8, i: nat): bv8 {
    if i == 0 then a else Xtime(XtimePower(a, i - 1))
  }

  lemma Predecessor(n: bv8)
    requires n > 0
    ensures (n - 1) as nat == n as nat - 1
  {
  }

  /** Section 5.2: round constant n is x^(n - 1). */
  lemma {:induction false} RconIsPower(n: bv8)
    requires 1 <= n < 52
    ensures n as nat >= 1 && RconByte(n) == XtimePower(1, n as nat - 1)
    decreases n
  {
    hide RconByte, Xtime;
    Predecessor(n);
    if n == 1 {
      FirstConstant();
    } else {
      RconIsPower(n - 1);
      RconStep(n - 1);
    }
  }

  lemma FirstConstant()
    ensures RconByte(1) == 1
  {
  }
}
