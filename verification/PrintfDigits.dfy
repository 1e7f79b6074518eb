/** A printed integer, character by character, and the value it reads back as. */
module PrintfDigits {
  import opened Arithmetic
  import opened Basics
  import opened PrintfModel

  // ---- Digits of a number ----

  ghost function Power(base: nat, n: nat): (p: nat)
    ensures base >= 1 ==> p >= 1
  {
    if n == 0 then 1 else base * Power(base, n - 1)
  }

  // Digit k of value, counted from its end.
  ghost function DigitOf(value: nat, base: nat, k: nat): (d: nat)
    requires base >= 2
    ensures d < base
  {
    value / Power(base, k) % base
  }

  // How many digits value has; 0 has one.
  ghost function NumDigits(value: nat, base: nat): nat
    requires base >= 2
  {
    if value / base == 0 then 1 else 1 + NumDigits(value / base, base)
  }

  lemma PowerUnfolds(base: nat, n: nat)
    ensures Power(base, 0) == 1
    ensures n > 0 ==> Power(base, n) == base * Power(base, n - 1)
  {
  }

  lemma ProductRegroups(a: int, b: int, c: int)
    ensures a * b * c == a * (b * c)
  {
  }

  lemma {:induction false} PowerAdds(base: nat, m: nat, n: nat)
    ensures Power(base, m + n) == Power(base, m) * Power(base, n)
  {
    hide Power;
    PowerUnfolds(base, m);
    PowerUnfolds(base, m + n);
    if m > 0 {
      PowerAdds(base, m - 1, n);
      ProductRegroups(base, Power(base, m - 1), Power(base, n));
    }
  }

  lemma NumDigitsUnfolds(value: nat, base: nat)
    requires base >= 2
    ensures value / base >= 0
    ensures NumDigits(value, base) == if value / base == 0 then 1 else 1 + NumDigits(value / base, base)
  {
  }

  lemma DigitOfNext(value: nat, base: nat, k: nat)
    requires base >= 2
    ensures value / base >= 0
    ensures DigitOf(value, base, 0) == value % base
    ensures k > 0 ==> DigitOf(value, base, k) == DigitOf(value / base, base, k - 1)
  {
    hide Power;
    PowerUnfolds(base, k);
    if k > 0 {
      DividesTwice(value, base, Power(base, k - 1));
    }
  }

  lemma BelowQuotient(value: nat, base: nat, p: nat)
    requires base > 0
    ensures 0 <= value / base && (value < base * p <==> value / base < p)
  {
    DivisionSplits(value, base);
    MulMonotone(p, value / base, base);
    MulMonotone(value / base + 1, p, base);
  }

  /** A number is below base^n exactly if it has at most n digits, or is 0. */
  lemma {:induction false} NumDigitsIs(value: nat, base: nat, n: nat)
    requires base >= 2
    ensures value < Power(base, n) <==> NumDigits(value, base) <= n || value == 0
    ensures NumDigits(value, base) >= 1
    decreases value
  {
    hide Power, NumDigits;
    PowerUnfolds(base, n);
    NumDigitsUnfolds(value, base);
    DivisionSplits(value, base);
    if value / base != 0 {
      MulMonotone(2, base, value / base);
      NumDigitsIs(value / base, base, if n == 0 then 0 else n - 1);
    }
    if n > 0 {
      BelowQuotient(value, base, Power(base, n - 1));
    }
  }

  lemma {:induction false} NoDigitBeyond(value: nat, base: nat, k: nat)
    requires base >= 2 && (NumDigits(value, base) <= k || value == 0)
    ensures DigitOf(value, base, k) == 0
  {
    hide Power;
    NumDigitsIs(value, base, k);
    DivisionSplits(value, Power(base, k));
  }

  // ---- What is in the buffer, lowest digit first ----

  ghost predicate Stores(buf: string, value: nat, base: nat, upper: bool)
    requires 2 <= base <= 16
  {
    forall k :: 0 <= k < |buf| ==> buf[k] == DigitChar(DigitOf(value, base, k), upper)
  }

  // Nothing but zeros would follow, as far as there is room.
  ghost predicate Complete(buf: string, value: nat, base: nat)
    requires 2 <= base <= 16
  {
    forall k :: |buf| <= k < NTOA_BUFFER_SIZE ==> DigitOf(value, base, k) == 0
  }

  lemma {:induction false} DigitsStore(value: nat, base: nat, upper: bool, room: nat)
    requires 2 <= base <= 16
    ensures Stores(Digits(value, base, upper, room), value, base, upper)
    ensures |Digits(value, base, upper, room)| == Min(NumDigits(value, base), room)
    decreases room
  {
    hide DigitChar, DigitOf, NumDigits;
    var s := Digits(value, base, upper, room);
    NumDigitsUnfolds(value, base);
    NumDigitsIs(value, base, 0);
    if room > 0 {
      var q := value / base;
      DigitOfNext(value, base, 0);
      if q != 0 {
        DigitsStore(q, base, upper, room - 1);
        NumDigitsIs(q, base, 0);
        forall k | 1 <= k < |s|
          ensures s[k] == DigitChar(DigitOf(value, base, k), upper)
        {
          DigitOfNext(value, base, k);
        }
      }
    }
  }

  lemma NtoaDigitsStore(value: nat, base: nat, f: Flags)
    requires 2 <= base <= 16
    ensures Stores(NtoaDigits(value, base, f), value, base, f.upper)
    ensures Complete(NtoaDigits(value, base, f), value, base)
    ensures |NtoaDigits(value, base, f)| ==
            Min(if f.precision && value == 0 then 0 else NumDigits(value, base), NTOA_BUFFER_SIZE)
  {
    hide DigitChar, DigitOf, Digits, NumDigits;
    DigitsStore(value, base, f.upper, NTOA_BUFFER_SIZE);
    var s := NtoaDigits(value, base, f);
    forall k | |s| <= k < NTOA_BUFFER_SIZE
      ensures DigitOf(value, base, k) == 0
    {
      NoDigitBeyond(value, base, k);
    }
  }

  lemma {:induction false} ZeroFillStores(buf: string, n: nat, value: nat, base: nat, upper: bool)
    requires 2 <= base <= 16 && |buf| <= NTOA_BUFFER_SIZE
    requires Stores(buf, value, base, upper) && Complete(buf, value, base)
    ensures Stores(ZeroFill(buf, n), value, base, upper) && Complete(ZeroFill(buf, n), value, base)
    ensures |ZeroFill(buf, n)| == Max(|buf|, Min(n, NTOA_BUFFER_SIZE))
    decreases n - |buf|
  {
    hide DigitOf;
    if |buf| < n && |buf| < NTOA_BUFFER_SIZE {
      ZeroFillStores(buf + "0", n, value, base, upper);
    }
  }

  // The number of digits asked for, zeros in front included.
  ghost function DigitCount(value: nat, negative: bool, base: nat, prec: nat, width: nat, f: Flags): nat
    requires 2 <= base <= 16
  {
    var n := if f.precision && value == 0 then 0 else NumDigits(value, base);
    if f.left then n
    else if f.zeropad then Max(Max(n, prec), ZeroWidth(width, negative, f))
    else Max(n, prec)
  }

  lemma PaddedStores(value: nat, negative: bool, base: nat, prec: nat, width: nat, f: Flags)
    requires 2 <= base <= 16
    ensures var buf := Padded(NtoaDigits(value, base, f), negative, prec, width, f);
            && Stores(buf, value, base, f.upper)
            && |buf| == Min(DigitCount(value, negative, base, prec, width, f), NTOA_BUFFER_SIZE)
  {
    hide NtoaDigits, ZeroFill, ZeroWidth, Stores, Complete, NumDigits;
    var buf := NtoaDigits(value, base, f);
    NtoaDigitsStore(value, base, f);
    ZeroFillStores(buf, prec, value, base, f.upper);
    ZeroFillStores(ZeroFill(buf, prec), ZeroWidth(width, negative, f), value, base, f.upper);
  }

  // ---- Reading the digits ----

  lemma ReadStep(rest: string, d: nat, base: nat, upper: bool, low: nat)
    requires 2 <= base <= 16 && d < base && Read(Reverse(rest), base) == low
    ensures Read(Reverse([DigitChar(d, upper)] + rest), base) == low * base + d
  {
    hide DigitChar, CharDigit, Read, Reverse;
    DigitReads(d, upper);
    ReverseCons(DigitChar(d, upper), rest);
    ReadAppend(Reverse(rest), DigitChar(d, upper), base);
  }

  lemma NothingReads(base: nat)
    ensures Read("", base) == 0 && Reverse("") == ""
  {
  }

  lemma StoresTail(buf: string, value: nat, base: nat, upper: bool)
    requires 2 <= base <= 16 && buf != "" && Stores(buf, value, base, upper)
    ensures buf[0] == DigitChar(value % base, upper)
    ensures value / base >= 0 && Stores(buf[1..], value / base, base, upper)
  {
    hide DigitChar, DigitOf;
    DigitOfNext(value, base, 0);
    forall k | 0 <= k < |buf| - 1
      ensures buf[1..][k] == DigitChar(DigitOf(value / base, base, k), upper)
    {
      DigitOfNext(value, base, k + 1);
    }
  }

  /** Digits stored lowest first, reversed, spell the value as far as they go. */
  lemma {:induction false} StoredReads(buf: string, value: nat, base: nat, upper: bool)
    requires 2 <= base <= 16 && Stores(buf, value, base, upper)
    ensures Read(Reverse(buf), base) == value % Power(base, |buf|)
    decreases |buf|
  {
    hide DigitChar, Read, Reverse, Power, Stores;
    PowerUnfolds(base, |buf|);
    if buf == "" {
      NothingReads(base);
    } else {
      StoresTail(buf, value, base, upper);
      StoredReads(buf[1..], value / base, base, upper);
      ModSplits(value, base, Power(base, |buf| - 1));
      ReadStep(buf[1..], value % base, base, upper, value / base % Power(base, |buf| - 1));
      assert [DigitChar(value % base, upper)] + buf[1..] == buf;
    }
  }

  lemma ModSame(x: nat, m: nat)
    requires m > 0
    ensures x % m == x <==> x < m
  {
  }

  /** The digits that the conversion writes read back exactly if the value is below base^32. */
  lemma ReadsBackIff(value: nat, base: nat, upper: bool)
    requires 2 <= base <= 16
    ensures Read(Reverse(Digits(value, base, upper, 32)), base) == value <==> value < Power(base, 32)
  {
    hide Digits, Read, Reverse, Power, NumDigits, Stores;
    DigitsStore(value, base, upper, 32);
    var s := Digits(value, base, upper, 32);
    StoredReads(s, value, base, upper);
    ModSame(value, Power(base, |s|));
    NumDigitsIs(value, base, 32);
    NumDigitsIs(value, base, |s|);
  }

  // ---- The printed integer ----

  lemma {:induction false} ReverseConcat(s: string, t: string)
    ensures Reverse(s + t) == Reverse(t) + Reverse(s)
  {
    if s == "" {
      assert s + t == t;
    } else {
      assert (s + t)[1..] == s[1..] + t;
      ReverseConcat(s[1..], t);
    }
  }

  lemma {:induction false} SpacesAre(n: int)
    ensures Spaces(n) == seq(Max(n, 0), _ => ' ')
  {
    if n > 0 {
      SpacesAre(n - 1);
    }
  }

  // The digits left of n once the prefix has taken the place of some.
  ghost function Shortened(n: nat, base: nat, prec: nat, width: nat, f: Flags): (m: nat)
    ensures m <= n
  {
    if f.hash && !f.precision && n > 0 && (n == prec || n == width) then
      if n > 1 && base == 16 then n - 2 else n - 1
    else n
  }

  // The prefix, of which the front is left out where the digits leave no room.
  ghost function PrefixFor(n: nat, base: nat, f: Flags): string
    requires n <= NTOA_BUFFER_SIZE
  {
    if !f.hash then "" else
      var whole := if base == 16 then if f.upper then "0X" else "0x" else if base == 2 then "0b" else "0";
      if n + |whole| <= NTOA_BUFFER_SIZE then whole else whole[n + |whole| - NTOA_BUFFER_SIZE..]
  }

  lemma ReverseShort(a: char, b: char)
    ensures Reverse("") == "" && Reverse([a]) == [a] && Reverse([a, b]) == [b, a]
  {
    assert [a, b][1..] == [b] && [b][1..] == "";
    assert Reverse([b]) == [b];
  }

  lemma PrefixedIs(buf: string, base: nat, prec: nat, width: nat, f: Flags) returns (pre: string)
    requires |buf| <= NTOA_BUFFER_SIZE
    ensures Prefixed(buf, base, prec, width, f) == buf[..Shortened(|buf|, base, prec, width, f)] + pre
    ensures Reverse(pre) == PrefixFor(Shortened(|buf|, base, prec, width, f), base, f)
  {
    hide Reverse;
    var m := Shortened(|buf|, base, prec, width, f);
    var c := if base == 16 then if f.upper then 'X' else 'x' else 'b';
    ReverseShort(c, '0');
    ReverseShort('0', '0');
    pre := if !f.hash || m == NTOA_BUFFER_SIZE then ""
           else if base != 16 && base != 2 then "0"
           else if m + 1 == NTOA_BUFFER_SIZE then [c] else [c, '0'];
    assert buf[..|buf|] == buf;
  }

  lemma ReversedIs(digits: string, pre: string, sign: string, w: nat, f: Flags) returns (before: nat, after: nat)
    requires |sign| <= 1
    ensures Reversed(digits + pre + sign, w, f) ==
            seq(before, _ => ' ') + sign + Reverse(pre) + Reverse(digits) + seq(after, _ => ' ')
    ensures var all := |sign| + |pre| + |digits|;
            && before == (if f.left || f.zeropad then 0 else Max(0, w - all))
            && after == if f.left then Max(0, w - all) else 0
  {
    hide Reverse, Spaces;
    var buf := digits + pre + sign;
    ReverseConcat(digits + pre, sign);
    ReverseConcat(digits, pre);
    if sign == "" {
      NothingReads(10);
    } else {
      ReverseShort(sign[0], sign[0]);
      assert sign == [sign[0]];
    }
    SpacesAre(w - |buf|);
    before := if f.left || f.zeropad then 0 else Max(0, w - |buf|);
    after := if f.left then Max(0, w - |buf|) else 0;
    assert Reverse(buf) == sign + Reverse(pre) + Reverse(digits);
  }

  // The last digits of value, in upper or lower case.
  ghost predicate Spells(s: string, value: nat, base: nat, upper: bool)
    requires 2 <= base <= 16
  {
    forall k :: 0 <= k < |s| ==> s[k] == DigitChar(DigitOf(value, base, |s| - 1 - k), upper)
  }

  lemma StoredSpells(buf: string, value: nat, base: nat, upper: bool)
    requires 2 <= base <= 16 && Stores(buf, value, base, upper)
    ensures Spells(Reverse(buf), value, base, upper)
  {
    hide Reverse, DigitOf, DigitChar;
    ReverseLength(buf);
    forall k | 0 <= k < |buf|
      ensures Reverse(buf)[k] == DigitChar(DigitOf(value, base, |buf| - 1 - k), upper)
    {
      ReverseAt(buf, k);
    }
  }

  /** Place by place: digit k from the right is that of value / base^k. */
  lemma DigitAt(s: string, value: nat, base: nat, upper: bool, k: nat)
    requires 2 <= base <= 16 && Spells(s, value, base, upper) && k < |s|
    ensures s[|s| - 1 - k] ==
            (if upper then "0123456789ABCDEF" else "0123456789abcdef")[value / Power(base, k) % base]
  {
    hide Power, DigitChar;
    var j := |s| - 1 - k;
    assert s[j] == DigitChar(DigitOf(value, base, |s| - 1 - j), upper);
    DigitIs(DigitOf(value, base, k), upper);
  }

  lemma DigitIs(d: nat, upper: bool)
    requires d < 16
    ensures DigitChar(d, upper) == (if upper then "0123456789ABCDEF" else "0123456789abcdef")[d]
  {
  }

  lemma WholeIff(value: nat, base: nat, n: nat)
    requires base >= 2
    ensures value % Power(base, n) == value <==> value < Power(base, n)
  {
    hide Power;
    ModSame(value, Power(base, n));
  }

  // The flags without #.
  ghost function HashFor(value: nat, f: Flags): Flags {
    if value == 0 then f.(hash := false) else f
  }

  lemma NtoaIsReversed(value: nat, negative: bool, base: nat, prec: nat, width: nat, f: Flags)
    requires 2 <= base <= 16
    ensures var g, w := HashFor(value, f), ZeroWidth(width, negative, f);
            Ntoa(value, negative, base, prec, width, f) ==
            Reversed(Signed(Prefixed(Padded(NtoaDigits(value, base, f), negative, prec, width, f), base, prec, w, g),
                            negative, f), w, f)
  {
    hide Digits, ZeroFill, Prefixed, Reverse, Spaces;
  }

  // What goes into the buffer before the prefix.
  lemma CutStores(buf: string, m: nat, value: nat, base: nat, upper: bool)
    requires 2 <= base <= 16 && Stores(buf, value, base, upper) && m <= |buf|
    ensures Stores(buf[..m], value, base, upper)
  {
    hide DigitOf, DigitChar;
  }

  // Blanks, sign, prefix, digits and blanks, for every value and all flags, widths and precisions.
  lemma NtoaPrints(value: nat, negative: bool, base: nat, prec: nat, width: nat, f: Flags)
    returns (sign: string, prefix: string, digits: string, before: nat, after: nat)
    requires 2 <= base <= 16
    ensures Ntoa(value, negative, base, prec, width, f) ==
            seq(before, _ => ' ') + sign + prefix + digits + seq(after, _ => ' ')
    ensures |digits| <= NTOA_BUFFER_SIZE
    ensures Spells(digits, value, base, f.upper)
    ensures Read(digits, base) >= 0 && (Read(digits, base) == value <==> value < Power(base, |digits|))
    ensures var n := Min(DigitCount(value, negative, base, prec, width, f), NTOA_BUFFER_SIZE);
            && |digits| == Shortened(n, base, prec, ZeroWidth(width, negative, f), HashFor(value, f))
            && prefix == PrefixFor(|digits|, base, HashFor(value, f))
    ensures sign == if |digits| + |prefix| < NTOA_BUFFER_SIZE then SignChars(negative, f) else ""
    ensures var w, all := ZeroWidth(width, negative, f), |sign| + |prefix| + |digits|;
            && before == (if f.left || f.zeropad then 0 else Max(0, w - all))
            && after == if f.left then Max(0, w - all) else 0
  {
    hide Read, Reverse, Power, DigitCount, Ntoa, NtoaDigits, Padded, Prefixed, Reversed, ZeroWidth, Stores, DigitChar,
         DigitOf, Shortened, PrefixFor, HashFor, Spells;
    var g, w := HashFor(value, f), ZeroWidth(width, negative, f);
    NtoaIsReversed(value, negative, base, prec, width, f);
    PaddedStores(value, negative, base, prec, width, f);
    var buf := Padded(NtoaDigits(value, base, f), negative, prec, width, f);
    var pre := PrefixedIs(buf, base, prec, w, g);
    var low := buf[..Shortened(|buf|, base, prec, w, g)];
    CutStores(buf, |low|, value, base, f.upper);
    StoredReads(low, value, base, f.upper);
    WholeIff(value, base, |low|);
    ReverseLength(low);
    ReverseLength(pre);
    sign := if |low + pre| < NTOA_BUFFER_SIZE then SignChars(negative, f) else "";
    prefix, digits := Reverse(pre), Reverse(low);
    assert low + pre + "" == low + pre;
    before, after := ReversedIs(low, pre, sign, w, f);
    StoredSpells(low, value, base, f.upper);
  }
}
