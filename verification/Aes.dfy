/** The AES block cipher and its inverse (FIPS 197, sections 5.1 and 5.3), on 16-byte blocks. */
module Aes {
  import opened GaloisField
  import opened Sboxes

  // One column of the State, and the four of them.
  datatype Column = Column(b0: bv8, b1: bv8, b2: bv8, b3: bv8)

  datatype Block = Block(c0: Column, c1: Column, c2: Column, c3: Column)

  function ByteOf(c: Column, r: nat): bv8
    requires r < 4
  {
    if r == 0 then c.b0 else if r == 1 then c.b1 else if r == 2 then c.b2 else c.b3
  }

  function ColumnOf(s: Block, c: nat): Column
    requires c < 4
  {
    if c == 0 then s.c0 else if c == 1 then s.c1 else if c == 2 then s.c2 else s.c3
  }

  // The byte in row r, column c.
  function At(s: Block, r: nat, c: nat): bv8
    requires r < 4 && c < 4
  {
    ByteOf(ColumnOf(s, c), r)
  }

  // ---- The transformations of a round, and their inverses ----

  function SubColumn(c: Column): Column {
    Column(Sbox(c.b0), Sbox(c.b1), Sbox(c.b2), Sbox(c.b3))
  }

  function InvSubColumn(c: Column): Column {
    Column(InvSbox(c.b0), InvSbox(c.b1), InvSbox(c.b2), InvSbox(c.b3))
  }

  function MixColumn(c: Column): Column {
    Column(FfAdd(FfAdd(FfAdd(Xtime(c.b0), FfMul(0x03, c.b1)), c.b2), c.b3),
           FfAdd(FfAdd(FfAdd(c.b0, Xtime(c.b1)), FfMul(0x03, c.b2)), c.b3),
           FfAdd(FfAdd(FfAdd(c.b0, c.b1), Xtime(c.b2)), FfMul(0x03, c.b3)),
           FfAdd(FfAdd(FfAdd(FfMul(0x03, c.b0), c.b1), c.b2), Xtime(c.b3)))
  }

  function InvMixColumn(c: Column): Column {
    Column(Dot(Column(0x0e, 0x0b, 0x0d, 0x09), c),
           Dot(Column(0x09, 0x0e, 0x0b, 0x0d), c),
           Dot(Column(0x0d, 0x09, 0x0e, 0x0b), c),
           Dot(Column(0x0b, 0x0d, 0x09, 0x0e), c))
  }

  function Dot(k: Column, c: Column): bv8 {
    FfAdd(FfAdd(FfAdd(FfMul(k.b0, c.b0), FfMul(k.b1, c.b1)), FfMul(k.b2, c.b2)), FfMul(k.b3, c.b3))
  }

  function ShiftRows(s: Block): Block {
    Block(Column(s.c0.b0, s.c1.b1, s.c2.b2, s.c3.b3),
          Column(s.c1.b0, s.c2.b1, s.c3.b2, s.c0.b3),
          Column(s.c2.b0, s.c3.b1, s.c0.b2, s.c1.b3),
          Column(s.c3.b0, s.c0.b1, s.c1.b2, s.c2.b3))
  }

  function InvShiftRows(s: Block): Block {
    Block(Column(s.c0.b0, s.c3.b1, s.c2.b2, s.c1.b3),
          Column(s.c1.b0, s.c0.b1, s.c3.b2, s.c2.b3),
          Column(s.c2.b0, s.c1.b1, s.c0.b2, s.c3.b3),
          Column(s.c3.b0, s.c2.b1, s.c1.b2, s.c0.b3))
  }

  // The byte of a key word that is added to row r of the State.
  function KeyByte(w: bv32, r: nat): bv8
    requires r < 4
  {
    if r == 0 then (w >> 24) as bv8
    else if r == 1 then ((w >> 16) & 0xff) as bv8
    else if r == 2 then ((w >> 8) & 0xff) as bv8
    else (w & 0xff) as bv8
  }

  function KeyColumn(w: bv32): Column {
    Column(KeyByte(w, 0), KeyByte(w, 1), KeyByte(w, 2), KeyByte(w, 3))
  }

  function AddColumn(c: Column, d: Column): Column {
    Column(FfAdd(c.b0, d.b0), FfAdd(c.b1, d.b1), FfAdd(c.b2, d.b2), FfAdd(c.b3, d.b3))
  }

  function AddRoundKey(s: Block, w: seq<bv32>, start: nat): Block
    requires start + 4 <= |w|
  {
    Block(AddColumn(s.c0, KeyColumn(w[start])), AddColumn(s.c1, KeyColumn(w[start + 1])),
          AddColumn(s.c2, KeyColumn(w[start + 2])), AddColumn(s.c3, KeyColumn(w[start + 3])))
  }

  // ---- What the transformations make of each byte ----

  // A word is its four bytes, the highest one first.
  lemma WordOfBytes(w: bv32)
    ensures w == ((KeyByte(w, 0) as bv32) << 24) | ((KeyByte(w, 1) as bv32) << 16) |
                 ((KeyByte(w, 2) as bv32) << 8) | (KeyByte(w, 3) as bv32)
  {
  }

  lemma SubColumnAt(c: Column, r: nat)
    requires r < 4
    ensures ByteOf(SubColumn(c), r) == Sbox(ByteOf(c, r))
  {
    hide Sbox;
  }

  /** Row r moves left by r places. */
  lemma ShiftRowsAt(s: Block, r: nat, c: nat)
    requires r < 4 && c < 4
    ensures At(ShiftRows(s), r, c) == At(s, r, (c + r) % 4)
  {
  }

  lemma AddInTurn(a: bv8, b: bv8, c: bv8, d: bv8)
    ensures FfAdd(FfAdd(FfAdd(a, b), c), d) == FfAdd(FfAdd(FfAdd(b, c), d), a)
  {
  }

  /** Byte r of a mixed column (FIPS 197, section 5.1.3). */
  lemma MixColumnAt(c: Column, r: nat)
    requires r < 4
    ensures ByteOf(MixColumn(c), r) ==
            FfAdd(FfAdd(FfAdd(FfMul(2, ByteOf(c, r)), FfMul(3, ByteOf(c, (r + 1) % 4))),
                        ByteOf(c, (r + 2) % 4)), ByteOf(c, (r + 3) % 4))
  {
    hide FfAdd, FfMul, Xtime;
    MulTwo(ByteOf(c, r));
    if r == 1 {
      AddInTurn(c.b0, Xtime(c.b1), FfMul(3, c.b2), c.b3);
    } else if r == 2 {
      AddInTurn(c.b0, c.b1, Xtime(c.b2), FfMul(3, c.b3));
      AddInTurn(c.b1, Xtime(c.b2), FfMul(3, c.b3), c.b0);
    } else if r == 3 {
      AddInTurn(Xtime(c.b3), FfMul(3, c.b0), c.b1, c.b2);
    }
  }

  lemma AddRoundKeyAt(s: Block, w: seq<bv32>, start: nat, r: nat, c: nat)
    requires start + 4 <= |w| && r < 4 && c < 4
    ensures At(AddRoundKey(s, w, start), r, c) == FfAdd(At(s, r, c), KeyByte(w[start + c], r))
  {
    hide FfAdd, KeyByte;
  }

  // ---- Each inverse undoes its transformation ----

  lemma SubUndone(c: Column)
    ensures InvSubColumn(SubColumn(c)) == c
  {
    hide Sbox, InvSbox;
    InvSboxUndoesSbox(c.b0);
    InvSboxUndoesSbox(c.b1);
    InvSboxUndoesSbox(c.b2);
    InvSboxUndoesSbox(c.b3);
  }

  lemma SubRedone(c: Column)
    ensures SubColumn(InvSubColumn(c)) == c
  {
    hide Sbox, InvSbox;
    SboxUndoesInvSbox(c.b0);
    SboxUndoesInvSbox(c.b1);
    SboxUndoesInvSbox(c.b2);
    SboxUndoesInvSbox(c.b3);
  }

  lemma ShiftUndone(s: Block)
    ensures InvShiftRows(ShiftRows(s)) == s && ShiftRows(InvShiftRows(s)) == s
  {
  }

  lemma AddUndone(c: Column, d: Column)
    ensures AddColumn(AddColumn(c, d), d) == c
  {
    hide FfAdd;
    AddTwice(c.b0, d.b0);
    AddTwice(c.b1, d.b1);
    AddTwice(c.b2, d.b2);
    AddTwice(c.b3, d.b3);
  }

  lemma AddTwice(a: bv8, b: bv8)
    ensures FfAdd(FfAdd(a, b), b) == a
  {
  }

  lemma AddRoundKeyUndone(s: Block, w: seq<bv32>, start: nat)
    requires start + 4 <= |w|
    ensures AddRoundKey(AddRoundKey(s, w, start), w, start) == s
  {
    hide AddColumn, KeyColumn;
    AddUndone(s.c0, KeyColumn(w[start]));
    AddUndone(s.c1, KeyColumn(w[start + 1]));
    AddUndone(s.c2, KeyColumn(w[start + 2]));
    AddUndone(s.c3, KeyColumn(w[start + 3]));
  }

  // ---- Mixing columns is a matrix product; its inverse is the inverse matrix ----

  function Scale(a: bv8, k: Column): Column {
    Column(FfMul(a, k.b0), FfMul(a, k.b1), FfMul(a, k.b2), FfMul(a, k.b3))
  }

  lemma DotAdds(k: Column, m: Column, c: Column)
    ensures Dot(AddColumn(k, m), c) == FfAdd(Dot(k, c), Dot(m, c))
  {
    hide FfAdd, FfMul;
    MulDistributesLeft(k.b0, m.b0, c.b0);
    MulDistributesLeft(k.b1, m.b1, c.b1);
    MulDistributesLeft(k.b2, m.b2, c.b2);
    MulDistributesLeft(k.b3, m.b3, c.b3);
    AddFours(FfMul(k.b0, c.b0), FfMul(m.b0, c.b0), FfMul(k.b1, c.b1), FfMul(m.b1, c.b1),
             FfMul(k.b2, c.b2), FfMul(m.b2, c.b2), FfMul(k.b3, c.b3), FfMul(m.b3, c.b3));
  }

  lemma AddFours(x0: bv8, y0: bv8, x1: bv8, y1: bv8, x2: bv8, y2: bv8, x3: bv8, y3: bv8)
    ensures FfAdd(FfAdd(FfAdd(FfAdd(x0, y0), FfAdd(x1, y1)), FfAdd(x2, y2)), FfAdd(x3, y3)) ==
            FfAdd(FfAdd(FfAdd(FfAdd(x0, x1), x2), x3), FfAdd(FfAdd(FfAdd(y0, y1), y2), y3))
  {
    hide FfAdd;
    AddSwaps(x0, y0, x1, y1);
    AddSwaps(FfAdd(x0, x1), FfAdd(y0, y1), x2, y2);
    AddSwaps(FfAdd(FfAdd(x0, x1), x2), FfAdd(FfAdd(y0, y1), y2), x3, y3);
  }

  lemma DotScales(a: bv8, k: Column, c: Column)
    ensures Dot(Scale(a, k), c) == FfMul(a, Dot(k, c))
  {
    hide FfAdd, FfMul;
    MulAssociates(a, k.b0, c.b0);
    MulAssociates(a, k.b1, c.b1);
    MulAssociates(a, k.b2, c.b2);
    MulAssociates(a, k.b3, c.b3);
    var x0, x1, x2, x3 := FfMul(k.b0, c.b0), FfMul(k.b1, c.b1), FfMul(k.b2, c.b2), FfMul(k.b3, c.b3);
    MulDistributesRight(a, x0, x1);
    MulDistributesRight(a, FfAdd(x0, x1), x2);
    MulDistributesRight(a, FfAdd(FfAdd(x0, x1), x2), x3);
  }

  // The rows m0, ..., m3 combined with the coefficients k.
  function Combine(k: Column, m0: Column, m1: Column, m2: Column, m3: Column): Column {
    AddColumn(AddColumn(AddColumn(Scale(k.b0, m0), Scale(k.b1, m1)), Scale(k.b2, m2)), Scale(k.b3, m3))
  }

  lemma DotOfDots(k: Column, m0: Column, m1: Column, m2: Column, m3: Column, c: Column)
    ensures Dot(k, Column(Dot(m0, c), Dot(m1, c), Dot(m2, c), Dot(m3, c))) == Dot(Combine(k, m0, m1, m2, m3), c)
  {
    DotUnfolds(k, Column(Dot(m0, c), Dot(m1, c), Dot(m2, c), Dot(m3, c)));
    hide Dot, AddColumn, Scale, FfAdd, FfMul;
    DotScales(k.b0, m0, c);
    DotScales(k.b1, m1, c);
    DotScales(k.b2, m2, c);
    DotScales(k.b3, m3, c);
    var s0, s1, s2, s3 := Scale(k.b0, m0), Scale(k.b1, m1), Scale(k.b2, m2), Scale(k.b3, m3);
    DotAdds(s0, s1, c);
    DotAdds(AddColumn(s0, s1), s2, c);
    DotAdds(AddColumn(AddColumn(s0, s1), s2), s3, c);
  }

  lemma DotUnfolds(k: Column, c: Column)
    ensures Dot(k, c) ==
            FfAdd(FfAdd(FfAdd(FfMul(k.b0, c.b0), FfMul(k.b1, c.b1)), FfMul(k.b2, c.b2)), FfMul(k.b3, c.b3))
  {
  }

  lemma MixIsMatrix(c: Column)
    ensures MixColumn(c) ==
            Column(Dot(Column(2, 3, 1, 1), c), Dot(Column(1, 2, 3, 1), c),
                   Dot(Column(1, 1, 2, 3), c), Dot(Column(3, 1, 1, 2), c))
  {
    hide FfAdd, FfMul, Xtime;
    MulTwo(c.b0);
    MulTwo(c.b1);
    MulTwo(c.b2);
    MulTwo(c.b3);
    MulOne(c.b0);
    MulOne(c.b1);
    MulOne(c.b2);
    MulOne(c.b3);
  }

  function InverseRow(k: Column): Column {
    Combine(k, Column(2, 3, 1, 1), Column(1, 2, 3, 1), Column(1, 1, 2, 3), Column(3, 1, 1, 2))
  }

  function MixedRow(k: Column): Column {
    Combine(k, Column(0x0e, 0x0b, 0x0d, 0x09), Column(0x09, 0x0e, 0x0b, 0x0d),
            Column(0x0d, 0x09, 0x0e, 0x0b), Column(0x0b, 0x0d, 0x09, 0x0e))
  }

  lemma Products(k: bv8, twice: bv8, thrice: bv8)
    requires Xtime(k) == twice && FfAdd(k, twice) == thrice
    ensures FfMul(k, 1) == k && FfMul(k, 2) == twice && FfMul(k, 3) == thrice
    ensures FfMul(1, k) == k && FfMul(2, k) == twice && FfMul(3, k) == thrice
  {
    hide FfMul, Xtime, FfAdd;
    MulOne(k);
    MulCommutes(k, 1);
    MulTwo(k);
    MulCommutes(k, 2);
    Three();
    MulDistributesRight(k, 1, 2);
    MulCommutes(k, 3);
  }

  // The products in the two matrices.
  lemma AllProducts()
    ensures FfMul(0x0e, 1) == 0x0e && FfMul(0x0e, 2) == 0x1c && FfMul(0x0e, 3) == 0x12
    ensures FfMul(0x0b, 1) == 0x0b && FfMul(0x0b, 2) == 0x16 && FfMul(0x0b, 3) == 0x1d
    ensures FfMul(0x0d, 1) == 0x0d && FfMul(0x0d, 2) == 0x1a && FfMul(0x0d, 3) == 0x17
    ensures FfMul(0x09, 1) == 0x09 && FfMul(0x09, 2) == 0x12 && FfMul(0x09, 3) == 0x1b
    ensures FfMul(1, 0x0e) == 0x0e && FfMul(2, 0x0e) == 0x1c && FfMul(3, 0x0e) == 0x12
    ensures FfMul(1, 0x0b) == 0x0b && FfMul(2, 0x0b) == 0x16 && FfMul(3, 0x0b) == 0x1d
    ensures FfMul(1, 0x0d) == 0x0d && FfMul(2, 0x0d) == 0x1a && FfMul(3, 0x0d) == 0x17
    ensures FfMul(1, 0x09) == 0x09 && FfMul(2, 0x09) == 0x12 && FfMul(3, 0x09) == 0x1b
  {
    hide FfMul;
    Products(0x0e, 0x1c, 0x12);
    Products(0x0b, 0x16, 0x1d);
    Products(0x0d, 0x1a, 0x17);
    Products(0x09, 0x12, 0x1b);
  }

  lemma Three()
    ensures FfAdd(1, 2) == 3
  {
  }

  lemma InverseRow0()
    ensures InverseRow(Column(0x0e, 0x0b, 0x0d, 0x09)) == Column(1, 0, 0, 0)
  {
    hide FfMul;
    AllProducts();
  }

  lemma InverseRow1()
    ensures InverseRow(Column(0x09, 0x0e, 0x0b, 0x0d)) == Column(0, 1, 0, 0)
  {
    hide FfMul;
    AllProducts();
  }

  lemma InverseRow2()
    ensures InverseRow(Column(0x0d, 0x09, 0x0e, 0x0b)) == Column(0, 0, 1, 0)
  {
    hide FfMul;
    AllProducts();
  }

  lemma InverseRow3()
    ensures InverseRow(Column(0x0b, 0x0d, 0x09, 0x0e)) == Column(0, 0, 0, 1)
  {
    hide FfMul;
    AllProducts();
  }

  lemma MixedRow0()
    ensures MixedRow(Column(2, 3, 1, 1)) == Column(1, 0, 0, 0)
  {
    hide FfMul;
    AllProducts();
  }

  lemma MixedRow1()
    ensures MixedRow(Column(1, 2, 3, 1)) == Column(0, 1, 0, 0)
  {
    hide FfMul;
    AllProducts();
  }

  lemma MixedRow2()
    ensures MixedRow(Column(1, 1, 2, 3)) == Column(0, 0, 1, 0)
  {
    hide FfMul;
    AllProducts();
  }

  lemma MixedRow3()
    ensures MixedRow(Column(3, 1, 1, 2)) == Column(0, 0, 0, 1)
  {
    hide FfMul;
    AllProducts();
  }

  lemma DotUnits(c: Column)
    ensures Dot(Column(1, 0, 0, 0), c) == c.b0 && Dot(Column(0, 1, 0, 0), c) == c.b1
    ensures Dot(Column(0, 0, 1, 0), c) == c.b2 && Dot(Column(0, 0, 0, 1), c) == c.b3
  {
    hide FfAdd, FfMul;
    MulOne(c.b0);
    MulOne(c.b1);
    MulOne(c.b2);
    MulOne(c.b3);
    MulZero(c.b0);
    MulZero(c.b1);
    MulZero(c.b2);
    MulZero(c.b3);
    AddZero(0);
    AddZero(c.b0);
    AddZero(c.b1);
    AddZero(c.b2);
    AddZero(c.b3);
  }

  lemma InvMixUnfolds(c: Column)
    ensures InvMixColumn(c) ==
            Column(Dot(Column(0x0e, 0x0b, 0x0d, 0x09), c), Dot(Column(0x09, 0x0e, 0x0b, 0x0d), c),
                   Dot(Column(0x0d, 0x09, 0x0e, 0x0b), c), Dot(Column(0x0b, 0x0d, 0x09, 0x0e), c))
  {
    hide Dot;
  }

  lemma MixUndoneAt(k: Column, c: Column)
    ensures Dot(k, MixColumn(c)) == Dot(InverseRow(k), c)
  {
    hide Dot, Combine, MixColumn;
    MixIsMatrix(c);
    DotOfDots(k, Column(2, 3, 1, 1), Column(1, 2, 3, 1), Column(1, 1, 2, 3), Column(3, 1, 1, 2), c);
  }

  /** FIPS 197, sections 5.1.3 and 5.3.3. */
  lemma MixUndone(c: Column)
    ensures InvMixColumn(MixColumn(c)) == c
  {
    hide Dot, InverseRow, MixColumn, InvMixColumn;
    InvMixUnfolds(MixColumn(c));
    MixUndoneAt(Column(0x0e, 0x0b, 0x0d, 0x09), c);
    MixUndoneAt(Column(0x09, 0x0e, 0x0b, 0x0d), c);
    MixUndoneAt(Column(0x0d, 0x09, 0x0e, 0x0b), c);
    MixUndoneAt(Column(0x0b, 0x0d, 0x09, 0x0e), c);
    InverseRow0();
    InverseRow1();
    InverseRow2();
    InverseRow3();
    DotUnits(c);
  }

  lemma MixRedoneAt(k: Column, c: Column)
    ensures Dot(k, InvMixColumn(c)) == Dot(MixedRow(k), c)
  {
    hide Dot, Combine, InvMixColumn;
    InvMixUnfolds(c);
    DotOfDots(k, Column(0x0e, 0x0b, 0x0d, 0x09), Column(0x09, 0x0e, 0x0b, 0x0d),
              Column(0x0d, 0x09, 0x0e, 0x0b), Column(0x0b, 0x0d, 0x09, 0x0e), c);
  }

  lemma MixRedone(c: Column)
    ensures MixColumn(InvMixColumn(c)) == c
  {
    hide Dot, MixedRow, MixColumn, InvMixColumn;
    MixIsMatrix(InvMixColumn(c));
    MixRedoneAt(Column(2, 3, 1, 1), c);
    MixRedoneAt(Column(1, 2, 3, 1), c);
    MixRedoneAt(Column(1, 1, 2, 3), c);
    MixRedoneAt(Column(3, 1, 1, 2), c);
    MixedRow0();
    MixedRow1();
    MixedRow2();
    MixedRow3();
    DotUnits(c);
  }
}
