/** The adder and subtracter whose gates are configured by a key (add_sub_chaos.sv and its gate).
    Bit 0 is the lowest. */
module ChaosAdder {
  import opened Arithmetic

  // ---- The gate ----

  // What the gate yields for x = 0, 1, 2 and 3.
  datatype Row = Row(y0: nat, y1: nat, y2: nat, y3: nat)

  // A row for every key: those below 32, and the others.
  const LOW_ROWS: seq<Row> := [
    Row(1, 1, 0, 0), Row(0, 0, 1, 1), Row(0, 0, 0, 0), Row(1, 1, 0, 1), Row(0, 0, 1, 0), Row(1, 1, 0, 1),
    Row(0, 0, 1, 0), Row(0, 0, 0, 0), Row(1, 1, 0, 0), Row(0, 0, 1, 1), Row(0, 1, 0, 0), Row(1, 0, 0, 1),
    Row(0, 1, 1, 0), Row(1, 0, 0, 0), Row(0, 1, 1, 0), Row(0, 0, 0, 1), Row(1, 1, 0, 0), Row(0, 0, 1, 1),
    Row(0, 1, 0, 0), Row(1, 0, 0, 1), Row(0, 0, 1, 0), Row(1, 1, 0, 0), Row(0, 0, 1, 1), Row(0, 1, 0, 0),
    Row(1, 0, 0, 0), Row(0, 1, 1, 0), Row(0, 0, 0, 1), Row(1, 0, 0, 0), Row(0, 1, 0, 1), Row(1, 0, 0, 0),
    Row(0, 1, 1, 0), Row(0, 0, 0, 0)
  ]

  const HIGH_ROWS: seq<Row> := [
    Row(1, 1, 0, 0), Row(0, 0, 1, 1), Row(0, 0, 0, 0), Row(1, 1, 0, 1), Row(0, 0, 1, 0), Row(1, 1, 0, 1),
    Row(0, 0, 1, 0), Row(1, 0, 0, 0), Row(1, 1, 0, 0), Row(0, 0, 1, 1), Row(0, 1, 0, 0), Row(1, 0, 0, 1),
    Row(0, 1, 1, 0), Row(1, 0, 0, 0), Row(0, 1, 1, 1), Row(1, 0, 0, 0), Row(1, 0, 0, 0), Row(0, 0, 1, 1),
    Row(0, 1, 0, 0), Row(1, 0, 0, 1), Row(0, 0, 1, 0), Row(1, 1, 0, 0), Row(0, 0, 1, 1), Row(1, 1, 0, 0),
    Row(1, 0, 0, 0), Row(0, 1, 1, 0), Row(0, 0, 0, 1), Row(1, 0, 0, 0), Row(0, 1, 1, 1), Row(1, 0, 0, 0),
    Row(0, 1, 1, 1), Row(1, 0, 0, 0)
  ]

  type Key = k: int | 0 <= k < 64

  function RowOf(key: Key): Row {
    if key < 32 then LOW_ROWS[key] else HIGH_ROWS[key - 32]
  }

  // chao_2x1, with inputs x[0] and x[1].
  function Gate(key: Key, x0: bool, x1: bool): bool {
    var t := RowOf(key);
    (if x1 then (if x0 then t.y3 else t.y2) else if x0 then t.y1 else t.y0) == 1
  }

  predicate IsXor(key: Key) {
    forall x0, x1 :: Gate(key, x0, x1) == (x0 != x1)
  }

  // The row of an exclusive or.
  predicate XorRow(key: Key) {
    var t := RowOf(key);
    t.y0 != 1 && t.y1 == 1 && t.y2 == 1 && t.y3 != 1
  }

  lemma XorIsRow(key: Key)
    ensures IsXor(key) <==> XorRow(key)
  {
    var t := RowOf(key);
    assert Gate(key, false, false) == (t.y0 == 1) && Gate(key, true, false) == (t.y1 == 1);
    assert Gate(key, false, true) == (t.y2 == 1) && Gate(key, true, true) == (t.y3 == 1);
  }

  lemma XorRows0(key: Key)
    requires 0 <= key < 16
    ensures IsXor(key) <==> key in {12, 14}
  {
    hide IsXor;
    XorIsRow(key);
    match key {
      case 0 => case 1 => case 2 => case 3 => case 4 => case 5 => case 6 => case 7 =>
      case 8 => case 9 => case 10 => case 11 => case 12 => case 13 => case 14 =>
      case _ =>
    }
  }

  lemma XorRows16(key: Key)
    requires 16 <= key < 32
    ensures IsXor(key) <==> key in {25, 30}
  {
    hide IsXor;
    XorIsRow(key);
    match key {
      case 16 => case 17 => case 18 => case 19 => case 20 => case 21 => case 22 => case 23 =>
      case 24 => case 25 => case 26 => case 27 => case 28 => case 29 => case 30 =>
      case _ =>
    }
  }

  lemma XorRows32(key: Key)
    requires 32 <= key < 48
    ensures IsXor(key) <==> key in {44}
  {
    hide IsXor;
    XorIsRow(key);
    match key {
      case 32 => case 33 => case 34 => case 35 => case 36 => case 37 => case 38 => case 39 =>
      case 40 => case 41 => case 42 => case 43 => case 44 => case 45 => case 46 =>
      case _ =>
    }
  }

  lemma XorRows48(key: Key)
    requires 48 <= key < 64
    ensures IsXor(key) <==> key in {57}
  {
    hide IsXor;
    XorIsRow(key);
    match key {
      case 48 => case 49 => case 50 => case 51 => case 52 => case 53 => case 54 => case 55 =>
      case 56 => case 57 => case 58 => case 59 => case 60 => case 61 => case 62 =>
      case _ =>
    }
  }

  /** The gate is an exclusive or under six of the 64 keys. */
  lemma XorKeys(key: Key)
    ensures IsXor(key) <==> key in {12, 14, 25, 30, 44, 57}
  {
    hide IsXor;
    if key < 32 {
      if key < 16 { XorRows0(key); } else { XorRows16(key); }
    } else {
      if key < 48 { XorRows32(key); } else { XorRows48(key); }
    }
  }

  // ---- The adder ----

  // adder_chaos
  function FullAdder(a: bool, b: bool, carry: bool, key: Key): (bool, bool) {
    var n1 := Gate(key, a, b);
    var n2 := n1 && carry;
    var n3 := a && b;
    (n1 != carry, n2 || n3)
  }

  // The key half that bit i of width bits is built with.
  function BitKey(i: nat, width: nat, low: Key, high: Key): Key {
    if i == 0 then low
    else if i >= width - 1 then high
    else if i < width / 2 then low
    else high
  }

  // The sum bits from bit i on.
  function Ripple(a: seq<bool>, b: seq<bool>, sub: bool, carry: bool, i: nat, low: Key, high: Key): (sum: seq<bool>)
    requires |a| == |b| && i <= |a|
    ensures |sum| == |a| - i
    decreases |a| - i
  {
    if i == |a| then [] else
      var (s, c) := FullAdder(a[i], sub != b[i], carry, BitKey(i, |a|, low, high));
      [s] + Ripple(a, b, sub, c, i + 1, low, high)
  }

  // add_sub_chaos: the key is twelve bits, c_in is sub.
  function AddSub(a: seq<bool>, b: seq<bool>, sub: bool, key: nat): seq<bool>
    requires |a| == |b| >= 2 && key < 64 * 64
  {
    Ripple(a, b, sub, sub, 0, key % 64, key / 64)
  }

  // ---- What it should do ----

  function Bit(b: bool): nat {
    if b then 1 else 0
  }

  function Value(bits: seq<bool>): nat {
    if bits == [] then 0 else Bit(bits[0]) + 2 * Value(bits[1..])
  }

  // The value of the bits, or of their complement.
  function ValueOf(bits: seq<bool>, complement: bool): int {
    if complement then Pow2(|bits|) - 1 - Value(bits) else Value(bits)
  }

  predicate Right(a: seq<bool>, b: seq<bool>, sub: bool, sum: seq<bool>)
    requires |a| == |b|
  {
    Value(sum) == (if sub then Value(a) - Value(b) else Value(a) + Value(b)) % Pow2(|a|)
  }

  ghost predicate AlwaysRight(width: nat, sub: bool, key: nat)
    requires width >= 2 && key < 64 * 64
  {
    forall a, b :: |a| == |b| == width ==> Right(a, b, sub, AddSub(a, b, sub, key))
  }

  // ---- Exclusive or makes it right ----

  lemma ModOfDouble(s: nat, x: int, p: int)
    requires s < 2 && p > 0
    ensures s + 2 * (x % p) == (s + 2 * x) % (2 * p)
  {
    var q, r := x / p, x % p;
    assert x == q * p + r && 0 <= r < p;
    assert q * (2 * p) == 2 * (q * p);
    DivisionIsUnique(s + 2 * x, 2 * p, q, s + 2 * r);
  }

  lemma ModAgain(x: int, p: int)
    requires p > 0
    ensures (x + p) % p == x % p
  {
    var q, r := x / p, x % p;
    assert x == q * p + r && 0 <= r < p;
    assert (q + 1) * p == q * p + p;
    DivisionIsUnique(x + p, p, q + 1, r);
  }

  lemma FullAdderAdds(a: bool, b: bool, carry: bool, key: Key)
    requires IsXor(key)
    ensures var (s, c) := FullAdder(a, b, carry, key); Bit(s) + 2 * Bit(c) == Bit(a) + Bit(b) + Bit(carry)
  {
    hide Gate;
    assert Gate(key, a, b) == (a != b);
  }

  lemma ValueUnfold(bits: seq<bool>, i: nat, complement: bool)
    requires i < |bits|
    ensures ValueOf(bits[i..], complement) == Bit(complement != bits[i]) + 2 * ValueOf(bits[i + 1..], complement)
  {
    assert bits[i..][1..] == bits[i + 1..];
  }

  lemma KeyIsHalf(i: nat, width: nat, low: Key, high: Key)
    ensures BitKey(i, width, low, high) in {low, high}
  {
  }

  lemma {:induction false} RippleAdds(a: seq<bool>, b: seq<bool>, sub: bool, carry: bool, i: nat, low: Key, high: Key)
    requires |a| == |b| && i <= |a| && IsXor(low) && IsXor(high)
    ensures Value(Ripple(a, b, sub, carry, i, low, high)) ==
            (ValueOf(a[i..], false) + ValueOf(b[i..], sub) + Bit(carry)) % Pow2(|a| - i)
    decreases |a| - i
  {
    hide IsXor, FullAdder, ValueOf, Value, BitKey;
    if i == |a| {
      NoBits(a[i..], b[i..], sub, Bit(carry));
      assert Ripple(a, b, sub, carry, i, low, high) == a[i..];
    } else {
      var key := BitKey(i, |a|, low, high);
      var (s, c) := FullAdder(a[i], sub != b[i], carry, key);
      KeyIsHalf(i, |a|, low, high);
      FullAdderAdds(a[i], sub != b[i], carry, key);
      RippleAdds(a, b, sub, c, i + 1, low, high);
      ValueUnfold(a, i, false);
      ValueUnfold(b, i, sub);
      RippleValue(s, Ripple(a, b, sub, c, i + 1, low, high));
      ModOfDouble(Bit(s), ValueOf(a[i + 1..], false) + ValueOf(b[i + 1..], sub) + Bit(c), Pow2(|a| - i - 1));
    }
  }

  lemma RippleValue(s: bool, rest: seq<bool>)
    ensures Value([s] + rest) == Bit(s) + 2 * Value(rest)
  {
    assert ([s] + rest)[1..] == rest;
  }

  lemma NoBits(a: seq<bool>, b: seq<bool>, sub: bool, c: int)
    requires a == [] && b == []
    ensures (ValueOf(a, false) + ValueOf(b, sub) + c) % Pow2(0) == Value(a)
  {
  }

  lemma XorAdds(a: seq<bool>, b: seq<bool>, sub: bool, low: Key, high: Key)
    requires |a| == |b| && IsXor(low) && IsXor(high)
    ensures Right(a, b, sub, Ripple(a, b, sub, sub, 0, low, high))
  {
    hide IsXor, Ripple;
    RippleAdds(a, b, sub, sub, 0, low, high);
    assert a[0..] == a && b[0..] == b;
    if sub {
      ModAgain(Value(a) - Value(b), Pow2(|a|));
    }
  }

  // ---- Nothing else does ----

  lemma {:induction false} ValueInjective(s: seq<bool>, t: seq<bool>)
    requires |s| == |t| && Value(s) == Value(t)
    ensures s == t
  {
    if s != [] {
      ValueInjective(s[1..], t[1..]);
      assert s == [s[0]] + s[1..] && t == [t[0]] + t[1..];
    }
  }

  // Two adders agree up to the first bit whose gate is no exclusive or, and differ there.
  lemma {:induction false} Differs(a: seq<bool>, b: seq<bool>, sub: bool, carry: bool, i: nat, low: Key, high: Key,
                                   x: Key, pos: nat)
    requires |a| == |b| && i <= pos < |a| && IsXor(x)
    requires forall j :: i <= j < pos ==> IsXor(BitKey(j, |a|, low, high))
    requires Gate(BitKey(pos, |a|, low, high), a[pos], sub != b[pos]) != (a[pos] != (sub != b[pos]))
    ensures Ripple(a, b, sub, carry, i, low, high) != Ripple(a, b, sub, carry, i, x, x)
    decreases pos - i
  {
    hide Gate, BitKey;
    OneKey(i, |a|, x);
    var s, t := Ripple(a, b, sub, carry, i, low, high), Ripple(a, b, sub, carry, i, x, x);
    assert Gate(x, a[i], sub != b[i]) == (a[i] != (sub != b[i]));
    if i < pos {
      assert Gate(BitKey(i, |a|, low, high), a[i], sub != b[i]) == (a[i] != (sub != b[i]));
      var (_, c) := FullAdder(a[i], sub != b[i], carry, x);
      Differs(a, b, sub, c, i + 1, low, high, x, pos);
      assert s[1..] != t[1..];
    } else {
      assert s[0] != t[0];
    }
  }

  lemma OneKey(i: nat, width: nat, x: Key)
    ensures BitKey(i, width, x, x) == x
  {
  }

  // Inputs that show the first wrong gate.
  lemma WrongAt(width: nat, sub: bool, key: nat, pos: nat)
    requires width >= 2 && key < 64 * 64 && pos < width
    requires forall j :: 0 <= j < pos ==> IsXor(BitKey(j, width, key % 64, key / 64))
    requires !IsXor(BitKey(pos, width, key % 64, key / 64))
    ensures !AlwaysRight(width, sub, key)
  {
    hide Gate, BitKey, Ripple, Value;
    var x0, x1 :| Gate(BitKey(pos, width, key % 64, key / 64), x0, x1) != (x0 != x1);
    var a := seq(width, _ => x0);
    var b := seq(width, _ => sub != x1);
    XorKeys(12);
    Differs(a, b, sub, sub, 0, key % 64, key / 64, 12, pos);
    XorAdds(a, b, sub, 12, 12);
    if AlwaysRight(width, sub, key) {
      assert Right(a, b, sub, AddSub(a, b, sub, key));
      ValueInjective(AddSub(a, b, sub, key), Ripple(a, b, sub, sub, 0, 12, 12));
    }
  }

  /** At every width from two bits on, the adder adds (and the subtracter subtracts) modulo 2^width on all inputs
      if and only if both halves of the key make the gate an exclusive or. */
  lemma RightUnderXorKeys(width: nat, sub: bool, key: nat)
    requires width >= 2 && key < 64 * 64
    ensures AlwaysRight(width, sub, key) <==> IsXor(key % 64) && IsXor(key / 64)
  {
    hide IsXor, Right, Ripple;
    if IsXor(key % 64) && IsXor(key / 64) {
      forall a: seq<bool>, b: seq<bool> | |a| == |b| == width
        ensures Right(a, b, sub, AddSub(a, b, sub, key))
      {
        XorAdds(a, b, sub, key % 64, key / 64);
      }
    } else if !IsXor(key % 64) {
      WrongAt(width, sub, key, 0);
    } else {
      WrongAt(width, sub, key, width / 2);
    }
  }
}
