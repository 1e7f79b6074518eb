/** The software multiplication and division of the RISC-V run time: 32-bit words, shifts and adds. */
module SoftArithmetic {
  import opened Arithmetic
  import opened Basics

  const SPAN := 0x1_0000_0000
  const HALF := 0x8000_0000

  type I32 = x: int | -HALF <= x < HALF

  function AsUnsigned(x: I32): U32 {
    if x < 0 then x + SPAN else x
  }

  // What 32 bits keep of x, as a signed number.
  function Wrap(x: int): I32 {
    AsSigned(x, SPAN)
  }

  // ---- Multiplication ----

  lemma ShiftedMod(x: int, k: int)
    ensures (x + SPAN * k) % SPAN == x % SPAN
  {
    var q, r := x / SPAN, x % SPAN;
    assert x + SPAN * k == SPAN * (q + k) + r;
  }

  // What r will be once the bits of a are used up.
  ghost function Accumulated(r: int, a: int, b: int): U32 {
    (r + a * b) % SPAN
  }

  // One bit of a moved into r.
  lemma MultiplyStep(r: int, a: int, b: int)
    ensures Accumulated((r + a % 2 * b) % SPAN, a / 2, 2 * b % SPAN) == Accumulated(r, a, b)
    ensures Accumulated(r % SPAN, a / 2, 2 * b % SPAN) == Accumulated(r, a / 2, 2 * b)
  {
    Reduced(r + a % 2 * b, a / 2, 2 * b);
    Reduced(r, a / 2, 2 * b);
    HalvesOf(a, b);
  }

  lemma Reduced(s: int, h: int, d: int)
    ensures Accumulated(s % SPAN, h, d % SPAN) == Accumulated(s, h, d)
  {
    var i, j := s / SPAN, d / SPAN;
    assert s % SPAN == s - SPAN * i && d % SPAN == d - SPAN * j;
    Distribute(h, d, j);
    ShiftedMod(s + h * d, -(i + h * j));
  }

  lemma Distribute(h: int, d: int, q: int)
    ensures h * (d - SPAN * q) == h * d - SPAN * (h * q)
  {
  }

  lemma HalvesOf(a: int, b: int)
    ensures a % 2 * b + a / 2 * (2 * b) == a * b
  {
    var h, p := a / 2, a % 2;
    assert a == 2 * h + p;
    calc {
      a * b;
      (2 * h + p) * b;
      2 * h * b + p * b;
    }
  }

  lemma AccumulatedEnds(r: U32, a: int, b: int)
    ensures Accumulated(r, 0, b) == r && Accumulated(0, a, b) == a * b % SPAN
  {
  }

  lemma WrapOfMod(x: int)
    ensures Wrap(x % SPAN) == Wrap(x)
  {
  }

  // The signed word that agrees with x on the low 32 bits.
  lemma WrapIs(x: int)
    ensures (Wrap(x) - x) % 0x1_0000_0000 == 0
    ensures Wrap(x) < 0 <==> x % 0x1_0000_0000 >= 0x8000_0000
  {
    var q, r := x / SPAN, x % SPAN;
    DivisionIsUnique(r - x, SPAN, 0 - q, 0);
    DivisionIsUnique(r - SPAN - x, SPAN, 0 - q - 1, 0);
  }

  /** Shift and add: the product modulo 2^32. */
  method Multiply(a0: U32, b0: U32) returns (p: I32)
    ensures p == Wrap(a0 * b0) && (p - a0 * b0) % 0x1_0000_0000 == 0
  {
    hide Accumulated, Wrap;
    var r: U32, a: U32, b: U32 := 0, a0, b0;
    AccumulatedEnds(r, a, b);
    while a != 0
      invariant Accumulated(r, a, b) == Accumulated(0, a0, b0)
    {
      MultiplyStep(r, a, b);
      if a % 2 == 1 {
        r := (r + b) % SPAN;
      }
      a, b := a / 2, 2 * b % SPAN;
    }
    AccumulatedEnds(r, a, b);
    WrapOfMod(a0 * b0);
    WrapIs(a0 * b0);
    p := Wrap(r);
  }

  // Signed arguments are multiplied as if they were unsigned, to the same effect.
  lemma SignedProduct(x: I32, y: I32)
    ensures Wrap(AsUnsigned(x) * AsUnsigned(y)) == Wrap(x * y)
  {
    var i, j := if x < 0 then 1 else 0, if y < 0 then 1 else 0;
    calc {
      AsUnsigned(x) * AsUnsigned(y);
      (x + SPAN * i) * (y + SPAN * j);
      x * y + SPAN * (i * y + j * x + SPAN * i * j);
    }
    ShiftedMod(x * y, i * y + j * x + SPAN * i * j);
  }

  // ---- Division ----

  // The first of y, 2y, 4y, ... above x.
  function Doubled(x: nat, y: nat): nat
    requires y > 0
    decreases x - y
  {
    if y <= x then Doubled(x, 2 * y) else y
  }

  // The divisor can be doubled past the dividend within 31 bits.
  predicate Settles(x: int, y: int) {
    y == 0 || Doubled(Abs(x), Abs(y)) < HALF
  }

  // The sign that divide goes by: that of the wrapped product.
  function ProductSign(x: int, y: int): int {
    if Wrap(x * y) < 0 then -1 else 1
  }

  function Quotient(x: int, y: int): int {
    if y == 0 then 0 else ProductSign(x, y) * (Abs(x) / Abs(y))
  }

  function Remainder(x: int, y: int): int {
    if y == 0 then 0 else (if x < 0 then -1 else 1) * (Abs(x) % Abs(y))
  }

  lemma {:induction false} DoubledBounds(x: nat, y: nat)
    requires y > 0
    ensures Doubled(x, y) > x
    ensures if y <= x then Doubled(x, y) <= 2 * x else Doubled(x, y) == y
    decreases x - y
  {
    if y <= x {
      DoubledBounds(x, 2 * y);
    }
  }

  lemma {:induction false} DoubledAtMost(x: nat, y: nat, k: nat)
    requires y > 0 && x < y * Pow2(k)
    ensures Doubled(x, y) <= y * Pow2(k)
    decreases k
  {
    if k == 0 {
      assert y * Pow2(k) == y;
    } else if y <= x {
      assert y * Pow2(k) == 2 * y * Pow2(k - 1);
      DoubledAtMost(x, 2 * y, k - 1);
    } else {
      assert y * 1 <= y * Pow2(k);
    }
  }

  lemma DoublePower(y: nat, k: nat)
    requires k > 0
    ensures y * Pow2(k) == 2 * y * Pow2(k - 1)
  {
    assert y * (2 * Pow2(k - 1)) == 2 * y * Pow2(k - 1);
  }

  lemma {:induction false} DoubledIs(x: nat, y: nat) returns (k: nat)
    requires y > 0
    ensures Doubled(x, y) == y * Pow2(k) && x < y * Pow2(k)
    ensures k > 0 ==> y * Pow2(k - 1) <= x
    ensures k == 0 ==> Doubled(x, y) == y
    decreases x - y
  {
    if y <= x {
      k := DoubledIs(x, 2 * y);
      hide Pow2, Doubled;
      DoublePower(y, k + 1);
      if k > 0 {
        DoublePower(y, k);
      } else {
        FirstPower(y);
      }
      k := k + 1;
    } else {
      k := 0;
      FirstPower(y);
    }
  }

  lemma FirstPower(y: nat)
    ensures y * Pow2(0) == y
  {
  }

  /** The doubling settles exactly if some multiple of the divisor by a power of two lies above the dividend
      and below 2^31. */
  lemma SettlesIff(x: int, y: int)
    requires y != 0
    ensures Settles(x, y) <==> exists k: nat :: Abs(x) < Abs(y) * Pow2(k) < HALF
  {
    hide Doubled;
    var k := DoubledIs(Abs(x), Abs(y));
    if j: nat :| Abs(x) < Abs(y) * Pow2(j) < HALF {
      DoubledAtMost(Abs(x), Abs(y), j);
    }
  }

  /** If it does not, the loop goes on from a multiple whose double is no signed word. */
  lemma OtherwiseOverflows(x: int, y: int) returns (k: nat)
    requires y != 0 && Abs(y) < HALF && !Settles(x, y)
    ensures Abs(y) * Pow2(k) <= Abs(x) && 2 * (Abs(y) * Pow2(k)) >= HALF
  {
    hide Doubled;
    var j := DoubledIs(Abs(x), Abs(y));
    assert j != 0;
    k := j - 1;
    DoublePower(Abs(y), j);
    assert 2 * Abs(y) * Pow2(k) == 2 * (Abs(y) * Pow2(k));
  }

  /** No dividend below 2^30 makes the doubling overflow. */
  lemma SmallSettles(x: int, y: int)
    requires Abs(x) < HALF / 2 && Abs(y) < HALF
    ensures Settles(x, y)
  {
    if y != 0 {
      DoubledBounds(Abs(x), Abs(y));
    }
  }

  // y after n shifts to the left.
  function ShiftedLeft(y: I32, n: nat): I32 {
    if n == 0 then y else Wrap(2 * ShiftedLeft(y, n - 1))
  }

  lemma WrappedTwice(p: nat)
    requires p <= HALF / 2
    ensures Wrap(2 * p) == if p < HALF / 2 then 2 * p else -HALF
    ensures Wrap(2 * -HALF) == 0 && Wrap(0) == 0
  {
  }

  lemma {:induction false} ShiftsOfOne(n: nat)
    ensures ShiftedLeft(1, n) == if n < 31 then Pow2(n) else if n == 31 then -HALF else 0
    ensures n < 31 ==> Pow2(n) <= HALF / 2
    ensures n < 30 ==> Pow2(n) < HALF / 2
  {
    hide Wrap;
    ThirtiethPower();
    if n < 31 {
      Pow2Grows(n, 30);
    }
    if n > 0 {
      ShiftsOfOne(n - 1);
      WrappedTwice(if n < 31 then Pow2(n - 1) else HALF / 2);
    }
  }

  lemma ThirtiethPower()
    ensures Pow2(30) == HALF / 2
  {
    assert Pow2(10) == 1024 && Pow2(20) == 1024 * Pow2(10) && Pow2(30) == 1024 * Pow2(20);
  }

  /** From 2^30 on the doubling of 1 never passes the dividend: the loop does not end. */
  lemma OneNeverSettles(x: I32, n: nat)
    requires x >= HALF / 2
    ensures ShiftedLeft(1, n) <= x
  {
    ShiftsOfOne(n);
  }

  ghost function Scaled(y: int, m: int): int {
    y * m
  }

  lemma ScaledTwice(y: int, m: int)
    requires y >= 1 && m >= 0
    ensures Scaled(y, 2 * m) == 2 * Scaled(y, m) && m <= Scaled(y, m) && Scaled(y, 1) == y
  {
    ProductBound(y, m);
  }

  lemma WrapKeeps(x: I32)
    ensures Wrap(x) == x
  {
  }

  // The common first loop of divide and modulo.
  method Double(x: I32, y0: I32) returns (y: I32, mask: U32, ghost k: nat)
    requires 0 <= x && 0 < y0 && Doubled(x, y0) < HALF
    ensures y == Doubled(x, y0) == Scaled(y0, mask) && mask == Pow2(k) && x < y
  {
    hide Scaled, Wrap;
    y, mask, k := y0, 1, 0;
    ScaledTwice(y0, 1);
    while y <= x
      invariant 0 < y && y == Scaled(y0, mask) && mask == Pow2(k)
      invariant Doubled(x, y) == Doubled(x, y0)
      decreases x - y
    {
      DoubledBounds(x, 2 * y);
      ScaledTwice(y0, mask);
      WrapKeeps(2 * y);
      y, mask, k := Wrap(2 * y), 2 * mask % SPAN, k + 1;
    }
  }

  // Setting the bit of a power of two.
  function SetBit(q: U32, mask: U32): U32
    requires mask > 0 && q + mask < SPAN
  {
    if q / mask % 2 == 1 then q else q + mask
  }

  // Halfway through a long division: x is what the multiple q of mask leaves of x0.
  ghost predicate Dividing(x0: int, y0: int, x: int, y: int, mask: int, q: int, t: int) {
    && y0 > 0 && mask > 0 && t >= 0
    && 0 <= x < y && y == Scaled(y0, mask) && q == Scaled(t, mask) && x0 == x + Scaled(q, y0)
  }

  lemma DividingStarts(x0: nat, y0: nat, y: int, mask: int)
    requires y0 > 0 && mask > 0 && x0 < y && y == Scaled(y0, mask)
    ensures Dividing(x0, y0, x0, y, mask, 0, 0)
  {
  }

  lemma DividingEnds(x0: nat, y0: nat, x: int, y: int, q: int, t: int)
    requires Dividing(x0, y0, x, y, 1, q, t)
    ensures q == x0 / y0 && x == x0 % y0 && q <= x0
  {
    ProductBound(y0, q);
    DivisionIsUnique(x0, y0, q, x);
  }

  lemma ScaledHalves(y: int, h: int)
    ensures Scaled(y, 2 * h) == 2 * Scaled(y, h) == Scaled(2 * y, h)
    ensures Scaled(2 * y + 1, h) == Scaled(2 * y, h) + h
  {
  }

  lemma ScaledSum(q: int, h: int, y: int)
    ensures Scaled(q + h, y) == Scaled(q, y) + Scaled(y, h)
  {
  }

  lemma ScaledBound(y: int, m: int)
    ensures Scaled(y, m) == Scaled(m, y)
    ensures y >= 1 && m >= 0 ==> m <= Scaled(y, m)
    ensures y >= 0 && m >= 0 ==> 0 <= Scaled(y, m)
  {
    if y >= 1 && m >= 0 {
      ProductBound(y, m);
    }
  }

  lemma DividingHalves(x0: int, y0: int, x: int, y: int, h: int, q: int, t: int)
    requires Dividing(x0, y0, x, y, 2 * h, q, t)
    ensures h > 0 && q >= 0 && y / 2 > 0
    ensures x < y / 2 ==> Dividing(x0, y0, x, y / 2, h, q, 2 * t)
    ensures x >= y / 2 ==> Dividing(x0, y0, x - y / 2, y / 2, h, q + h, 2 * t + 1) && q + h <= x0
  {
    hide Scaled;
    ScaledHalves(y0, h);
    ScaledHalves(t, h);
    ScaledSum(q, h, y0);
    ScaledBound(h, 2 * t);
    ScaledBound(y0, h);
    ScaledBound(y0, q + h);
  }

  lemma SetsClearBit(x0: int, y0: int, x: int, y: int, h: int, q: int, t: int)
    requires Dividing(x0, y0, x, y, 2 * h, q, t) && 0 < h && q >= 0 && q + h < SPAN
    ensures SetBit(q, h) == q + h
  {
    assert q == 2 * t * h by { assert t * (2 * h) == 2 * t * h; }
    DivisionIsUnique(q, h, 2 * t, 0);
  }

  // A magnitude given its sign.
  lemma SignTimes(sign: int, m: int)
    requires (sign == 1 || sign == -1) && 0 <= m < HALF
    ensures Wrap(sign * m) == sign * m
  {
  }

  lemma QuotientIs(x: int, y: int)
    requires y != 0
    ensures Abs(Quotient(x, y)) == Abs(x) / Abs(y)
    ensures Quotient(x, y) == 0 || (Quotient(x, y) < 0 <==> x * y % 0x1_0000_0000 >= 0x8000_0000)
  {
    hide Wrap;
    DivisionSplits(Abs(x), Abs(y));
    WrapIs(x * y);
  }

  lemma RemainderIs(x: int, y: int)
    requires y != 0
    ensures Abs(Remainder(x, y)) == Abs(x) % Abs(y)
    ensures Remainder(x, y) == 0 || (Remainder(x, y) < 0 <==> x < 0)
  {
    DivisionSplits(Abs(x), Abs(y));
  }

  /** Long division of magnitudes, under the sign of the wrapped product. */
  method Divide(x0: I32, y0: I32) returns (d: I32)
    requires Settles(x0, y0)
    ensures d == Quotient(x0, y0)
    ensures y0 == 0 ==> d == 0
    ensures y0 != 0 ==>
              && Abs(d) == Abs(x0) / Abs(y0)
              && (d == 0 || (d < 0 <==> x0 * y0 % 0x1_0000_0000 >= 0x8000_0000))
  {
    hide Wrap, Doubled;
    if y0 == 0 {
      return 0;
    }
    QuotientIs(x0, y0);
    DoubledBounds(Abs(x0), Abs(y0));
    var sign: I32 := 1;
    SignedProduct(x0, y0);
    var p := Multiply(AsUnsigned(x0), AsUnsigned(y0));
    if p < 0 {
      sign := -1;
    }
    var q := DivideMagnitudes(Abs(x0), Abs(y0));
    SignedProduct(sign, q);
    SignTimes(sign, q);
    d := Multiply(AsUnsigned(sign), q);
  }

  method DivideMagnitudes(x0: I32, y0: I32) returns (quotient: U32)
    requires 0 <= x0 && 0 < y0 && Doubled(x0, y0) < HALF
    ensures quotient == x0 / y0 && quotient < HALF
  {
    hide Doubled, Dividing, SetBit, Scaled;
    var y, mask, k := Double(x0, y0);
    var x := x0;
    quotient := 0;
    ghost var t := 0;
    DividingStarts(x0, y0, y, mask);
    while mask > 1
      invariant mask == Pow2(k) && 0 <= x && Dividing(x0, y0, x, y, mask, quotient, t)
      decreases mask
    {
      k := k - 1;
      DividingHalves(x0, y0, x, y, Pow2(k), quotient, t);
      ghost var doubled := y;
      y, mask := y / 2, mask / 2;
      if x >= y {
        SetsClearBit(x0, y0, x, doubled, mask, quotient, t);
        x := x - y;
        quotient := SetBit(quotient, mask);
        t := 2 * t + 1;
      } else {
        t := 2 * t;
      }
    }
    DividingEnds(x0, y0, x, y, quotient, t);
  }

  /** What long division leaves over, under the sign of the dividend. */
  method Modulo(x0: I32, y0: I32) returns (m: I32)
    requires Settles(x0, y0)
    ensures m == Remainder(x0, y0)
    ensures y0 == 0 ==> m == 0
    ensures y0 != 0 ==> Abs(m) == Abs(x0) % Abs(y0) && (m == 0 || (m < 0 <==> x0 < 0))
  {
    hide Wrap, Doubled;
    if y0 == 0 {
      return 0;
    }
    RemainderIs(x0, y0);
    DoubledBounds(Abs(x0), Abs(y0));
    var sign: I32 := 1;
    if x0 < 0 {
      sign := -1;
    }
    var x := ModuloMagnitudes(Abs(x0), Abs(y0));
    SignedProduct(sign, x);
    SignTimes(sign, x);
    DivisionSplits(Abs(x0), Abs(y0));
    m := Multiply(AsUnsigned(sign), x);
  }

  method ModuloMagnitudes(x0: I32, y0: I32) returns (x: I32)
    requires 0 <= x0 && 0 < y0 && Doubled(x0, y0) < HALF
    ensures x == x0 % y0
  {
    hide Doubled, Dividing, Scaled;
    var y, mask, k := Double(x0, y0);
    x := x0;
    ghost var q, t := 0, 0;
    DividingStarts(x0, y0, y, mask);
    while mask > 1
      invariant mask == Pow2(k) && 0 <= x && Dividing(x0, y0, x, y, mask, q, t)
      decreases mask
    {
      k := k - 1;
      DividingHalves(x0, y0, x, y, Pow2(k), q, t);
      y, mask := y / 2, mask / 2;
      if x >= y {
        x, q, t := x - y, q + mask, 2 * t + 1;
      } else {
        t := 2 * t;
      }
    }
    DividingEnds(x0, y0, x, y, q, t);
  }

  // ---- What divide and modulo promise together ----

  lemma SignRule(x: int, y: int)
    ensures x * y < 0 <==> (x < 0 < y || y < 0 < x)
  {
    if x < 0 {
      assert x * y == -(-x * y);
    }
    var m, n := Abs(x), Abs(y);
    if m > 0 && n > 0 {
      ProductBound(m, n);
    }
    if y < 0 {
      assert m * n == -(m * y);
    }
  }

  // Which sign makes up the dividend.
  lemma IdentityUnder(x: int, y: int, sign: int)
    requires y != 0 && (sign == 1 || sign == -1)
    ensures x == sign * (Abs(x) / Abs(y)) * y + Remainder(x, y) <==>
            (Abs(x) < Abs(y) || (sign == -1 <==> (x < 0 < y || y < 0 < x)))
  {
    DivisionSplits(Abs(x), Abs(y));
    var q := Abs(x) / Abs(y);
    MultipleOfMagnitude(q, y, sign);
    ProductBound(Abs(y), q);
  }

  lemma MultipleOfMagnitude(q: nat, y: int, sign: int)
    requires sign == 1 || sign == -1
    ensures sign * q * y == if (sign == 1) == (y >= 0) then q * Abs(y) else -(q * Abs(y))
    ensures q * Abs(y) == Abs(y) * q
  {
    assert q * -y == -(q * y);
    assert (0 - q) * y == -(q * y);
  }

  /** The C11 identity (section 6.5.5) holds exactly if the wrapped product has the right sign, or the
      quotient is 0 anyway. */
  lemma DivisionIdentity(x: int, y: int)
    requires y != 0
    ensures x == Quotient(x, y) * y + Remainder(x, y) <==> (Abs(x) < Abs(y) || (Wrap(x * y) < 0 <==> x * y < 0))
    ensures Abs(Remainder(x, y)) < Abs(y)
    ensures Remainder(x, y) == 0 || (Remainder(x, y) < 0 <==> x < 0)
  {
    hide Wrap;
    SignRule(x, y);
    IdentityUnder(x, y, ProductSign(x, y));
    DivisionSplits(Abs(x), Abs(y));
  }

  lemma NarrowProduct(x: int, y: int)
    requires Abs(x * y) < HALF
    ensures Wrap(x * y) == x * y
  {
  }

  /** Within 2^30, and as long as the product fits, divide and modulo end and make up the dividend. */
  lemma DivisionWorks(x: I32, y: I32)
    requires y != 0 && y != -HALF && Abs(x) < HALF / 2 && Abs(x * y) < HALF
    ensures Settles(x, y)
    ensures x == Quotient(x, y) * y + Remainder(x, y)
    ensures Abs(Remainder(x, y)) < Abs(y)
    ensures Remainder(x, y) == 0 || (Remainder(x, y) < 0 <==> x < 0)
  {
    SmallSettles(x, y);
    NarrowProduct(x, y);
    DivisionIdentity(x, y);
  }

  /** A product that wraps turns the quotient around: 50000 / 50000 is -1. */
  lemma WrappedProductFails()
    ensures Settles(50000, 50000) && Quotient(50000, 50000) == -1 && Remainder(50000, 50000) == 0
  {
    SmallSettles(50000, 50000);
    assert 50000 * 50000 == 2_500_000_000;
  }
}
