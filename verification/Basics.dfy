/** What the other modules share: words, options and facts of arithmetic. */
module Basics {
  datatype Option<+T> = None | Some(value: T)

  type U8 = x: int | 0 <= x < 0x100
  type U32 = x: int | 0 <= x < 0x1_0000_0000

  function Abs(x: int): nat {
    if x < 0 then -x else x
  }

  function Max(a: int, b: int): int {
    if a > b then a else b
  }

  function Min(a: int, b: int): int {
    if a < b then a else b
  }

  // The signed number that the low bits of i stand for.
  function AsSigned(i: int, span: nat): (v: int)
    requires span > 0
    ensures 0 <= 2 * v + span < 2 * span
  {
    var u: int := i % span;
    if 2 * u < span then u else u - span
  }

  // Digits of the bases up to 16.
  function DigitChar(d: nat, upper: bool): char
    requires d < 16
  {
    if d < 10 then '0' + d as char
    else (if upper then 'A' else 'a') + (d - 10) as char
  }

  function CharDigit(c: char): int {
    if '0' <= c <= '9' then c as int - '0' as int
    else if 'a' <= c <= 'f' then c as int - 'a' as int + 10
    else if 'A' <= c <= 'F' then c as int - 'A' as int + 10
    else -1
  }

  lemma DigitReads(d: nat, upper: bool)
    requires d < 16
    ensures CharDigit(DigitChar(d, upper)) == d && DigitChar(d, upper) != '\n'
  {
  }
}

module Arithmetic {
  function Pow2(k: nat): (p: nat)
    ensures p >= 1
  {
    if k == 0 then 1 else 2 * Pow2(k - 1)
  }

  lemma {:induction false} Pow2Grows(m: nat, n: nat)
    requires m <= n
    ensures Pow2(m) <= Pow2(n) && (m < n ==> Pow2(m) < Pow2(n))
    decreases n
  {
    if m < n {
      Pow2Grows(m, n - 1);
    }
  }

  lemma MulMonotone(x: int, y: int, n: nat)
    ensures x <= y ==> x * n <= y * n
  {
  }

  lemma ProductBound(y: int, m: int)
    requires y >= 1 && m >= 0
    ensures m <= y * m
  {
    MulMonotone(1, y, m);
  }

  lemma SmallMultiple(d: int, y: int)
    requires y > 0 && 0 - y < d * y < y
    ensures d == 0
  {
    MulMonotone(1, d, y);
    MulMonotone(1, -d, y);
    assert -d * y == -(d * y);
  }

  lemma DivisionIsUnique(x: int, y: int, q: int, r: int)
    requires y > 0 && x == q * y + r && 0 <= r < y
    ensures q == x / y && r == x % y
  {
    var d := q - x / y;
    assert x == x / y * y + x % y;
    assert d * y == q * y - x / y * y;
    SmallMultiple(d, y);
  }

  lemma DivisionSplits(x: int, y: int)
    requires y > 0
    ensures x == x / y * y + x % y && 0 <= x % y < y
    ensures 0 <= x ==> (0 <= x / y && (x / y == 0 <==> x < y))
  {
    if 0 <= x < y {
      DivisionIsUnique(x, y, 0, x);
    } else if x >= y {
      MulMonotone(x / y, 0, y);
    }
  }

  lemma QuotientMonotone(x: int, z: int, y: int)
    requires 0 < y && x <= z
    ensures x / y <= z / y
  {
    DivisionSplits(x, y);
    DivisionSplits(z, y);
    MulMonotone(z / y + 1, x / y, y);
  }

  lemma DividesTwice(x: nat, a: nat, b: nat)
    requires a > 0 && b > 0
    ensures a * b > 0 && x / (a * b) == x / a / b
  {
    var q := x / a / b;
    DivisionSplits(x, a);
    DivisionSplits(x / a, b);
    ProductBound(a, b);
    Distributes(q, b, x / a % b, a);
    MulMonotone(x / a % b + 1, b, a);
    DivisionIsUnique(x, a * b, q, x / a % b * a + x % a);
  }

  // The lowest digit in base b, and the others.
  lemma ModSplits(x: int, b: int, p: int)
    requires b >= 1 && p >= 1
    ensures b * p >= 1
    ensures x % (b * p) == x / b % p * b + x % b
  {
    var q, d := x / b, x % b;
    var h, r := q / p, q % p;
    DivisionSplits(x, b);
    DivisionSplits(q, p);
    MulMonotone(r + 1, p, b);
    ProductBound(b, p);
    Distributes(h, p, r, b);
    DivisionIsUnique(x, b * p, h, r * b + d);
  }

  lemma Distributes(h: int, p: int, r: int, b: int)
    ensures (h * p + r) * b == h * (b * p) + r * b
    ensures (r + 1) * b == r * b + b
    ensures p * b == b * p
  {
  }
}
