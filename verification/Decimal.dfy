/** Decimal digits: counting them with the software division, and printing them. */
module Decimal {
  import opened Arithmetic
  import opened Basics
  import opened SoftArithmetic

  const BILLION := 1_000_000_000

  // ---- Decimal text ----

  function Digits(a: nat): (s: string)
    ensures s != ""
  {
    if a < 10 then [DigitChar(a, false)] else Digits(a / 10) + [DigitChar(a % 10, false)]
  }

  // What itoa is to write.
  function Text(a: int): (s: string)
    ensures s != ""
  {
    if a < 0 then "-" + Digits(-a) else Digits(a)
  }

  // How many digits a has; 0 has none.
  function Places(a: nat): nat {
    if a == 0 then 0 else 1 + Places(a / 10)
  }

  function Pow10(k: nat): (p: nat)
    ensures p >= 1
  {
    if k == 0 then 1 else 10 * Pow10(k - 1)
  }

  // The number a text of digits spells, or -1.
  ghost function ReadDigits(s: string): int {
    if s == "" then 0 else
      var high, c := ReadDigits(s[..|s| - 1]), s[|s| - 1];
      if high < 0 || !('0' <= c <= '9') then -1 else 10 * high + (c as int - '0' as int)
  }

  ghost function ReadText(s: string): int {
    if s != "" && s[0] == '-' then -ReadDigits(s[1..]) else ReadDigits(s)
  }

  lemma {:induction false} DigitsRead(a: nat)
    ensures ReadDigits(Digits(a)) == a
    ensures '0' <= Digits(a)[0] <= '9' && (a > 0 ==> Digits(a)[0] != '0')
    ensures |Digits(a)| == if a == 0 then 1 else Places(a)
  {
    if a >= 10 {
      DigitsRead(a / 10);
      assert Digits(a)[..|Digits(a)| - 1] == Digits(a / 10);
    } else {
      assert Digits(a)[..0] == "";
    }
  }

  /** The text decodes to the number, without a leading zero, in as many characters as count_digits says. */
  lemma TextReads(a: int)
    ensures ReadText(Text(a)) == a
    ensures a > 0 ==> Text(a)[0] != '0' && |Text(a)| == Places(a)
    ensures a < 0 ==> Text(a)[0] == '-' && Text(a)[1] != '0' && |Text(a)| == 1 + Places(-a)
    ensures a == 0 ==> Text(a) == "0"
  {
    DigitsRead(Abs(a));
    if a < 0 {
      assert Text(a)[1..] == Digits(-a);
    }
  }

  // ---- count_digits ----

  /** The doubling of 10 stays within 31 bits exactly for numbers below 10 * 2^27. */
  lemma TenSettles(n: int)
    ensures Settles(n, 10) <==> Abs(n) < 1_342_177_280
  {
    assert Pow2(9) == 512 && Pow2(18) == 512 * Pow2(9) && Pow2(27) == 512 * Pow2(18);
    if Abs(n) < 1_342_177_280 {
      DoubledAtMost(Abs(n), 10, 27);
    } else {
      var k := DoubledIs(Abs(n), 10);
      if k <= 27 {
        Pow2Grows(k, 27);
        assert false;
      }
      Pow2Grows(28, k);
    }
  }

  lemma QuotientMagnitude(n: int)
    ensures Abs(Quotient(n, 10)) == Abs(n) / 10
  {
  }

  /** Counts the digits of either sign, also where the quotient comes out with the wrong sign. */
  method CountDigits(n0: I32) returns (count: nat)
    requires Abs(n0) < 1_342_177_280
    ensures count == Places(Abs(n0))
  {
    hide Settles, Quotient;
    var n := n0;
    count := 0;
    while n != 0
      invariant Abs(n) < 1_342_177_280 && count + Places(Abs(n)) == Places(Abs(n0))
      decreases Abs(n)
    {
      TenSettles(n);
      QuotientMagnitude(n);
      n := Divide(n, 10);
      count := count + 1;
    }
  }

  // ---- itoa ----

  lemma {:induction false} PowersOfTenGrow(m: nat, n: nat)
    requires m <= n
    ensures Pow10(m) <= Pow10(n) && (m < n ==> 10 * Pow10(m) <= Pow10(n))
    decreases n
  {
    if m < n {
      PowersOfTenGrow(m, n - 1);
    }
  }

  lemma NinthPower()
    ensures Pow10(9) == BILLION
  {
    assert Pow10(3) == 1000 && Pow10(6) == 1000 * Pow10(3) && Pow10(9) == 1000 * Pow10(6);
  }

  // The next place of a number below 10^9 does not overflow.
  lemma NextPlace(a: nat, k: nat)
    requires Pow10(k) <= a < BILLION
    ensures k < 9 && 10 * Pow10(k) <= BILLION
  {
    NinthPower();
    if k >= 9 {
      PowersOfTenGrow(9, k);
    } else {
      PowersOfTenGrow(k, 9);
    }
  }

  // C's / and %, which truncate. Dividing by 0, which C leaves undefined, is what the RISC-V instructions do.
  function Div(x: int, y: int): int {
    if y == 0 then -1 else if (x < 0) == (y < 0) then Abs(x) / Abs(y) else -(Abs(x) / Abs(y))
  }

  function Rem(x: int, y: int): int {
    if y == 0 then x else if x < 0 then -(Abs(x) % Abs(y)) else Abs(x) % Abs(y)
  }

  lemma NaturalDiv(x: nat, y: nat)
    requires y > 0
    ensures Div(x, y) == x / y && Rem(x, y) == x % y
  {
  }

  lemma DividesOrNot(a: nat, p: nat)
    requires p > 0
    ensures Div(a, p) > 0 <==> p <= a
  {
    DivisionSplits(a, p);
  }

  lemma {:induction false} PlacesBound(a: nat, k: nat)
    requires a > 0 && (k > 0 ==> Pow10(k - 1) <= a) && a < Pow10(k)
    ensures k == Places(a)
  {
    if k > 1 {
      PlacesBound(a / 10, k - 1);
    }
  }

  lemma {:induction false} PlacesPower(a: nat)
    requires a > 0
    ensures Pow10(Places(a) - 1) <= a < Pow10(Places(a))
  {
    if a >= 10 {
      PlacesPower(a / 10);
    }
  }

  // Dividing by ten times p is dividing by ten and then by p.
  lemma DivTenTimes(a: nat, p: nat)
    requires p > 0
    ensures a / (10 * p) == a / 10 / p
  {
    var t, u := a / 10, a % 10;
    DivisionSplits(t, p);
    var v, w := t / p, t % p;
    Spread(v, p);
    DivisionIsUnique(a, 10 * p, v, 10 * w + u);
  }

  lemma ModTenTimes(a: nat, p: nat)
    requires p > 0
    ensures a % (10 * p) / p == a / p % 10
  {
    ModSplits(a, p, 10);
    DivisionSplits(a, p);
    DivisionIsUnique(a % (p * 10), p, a / p % 10, a % p);
  }

  lemma Spread(q: int, p: int)
    ensures q * (10 * p) == 10 * q * p == 10 * (q * p)
  {
  }

  // The digit k places before the end.
  function PlaceDigit(a: nat, k: nat): nat {
    a % Pow10(k + 1) / Pow10(k)
  }

  lemma PlaceDigitDown(a: nat, k: nat)
    ensures PlaceDigit(a, k) < 10
    ensures k == 0 ==> PlaceDigit(a, k) == a % 10
    ensures k > 0 ==> PlaceDigit(a, k) == PlaceDigit(a / 10, k - 1)
  {
    ModTenTimes(a, Pow10(k));
    if k > 0 {
      DivTenTimes(a, Pow10(k - 1));
      ModTenTimes(a / 10, Pow10(k - 1));
    }
  }

  lemma {:induction false} DigitAt(a: nat, k: nat)
    requires k < |Digits(a)|
    ensures PlaceDigit(a, k) < 10
    ensures Digits(a)[|Digits(a)| - 1 - k] == DigitChar(PlaceDigit(a, k), false)
  {
    hide DigitChar, PlaceDigit;
    PlaceDigitDown(a, k);
    if k > 0 {
      DigitAt(a / 10, k - 1);
    }
  }

  lemma PowerTenth(k: nat)
    requires k > 0
    ensures Pow10(k) == 10 * Pow10(k - 1) && Pow10(k) / 10 == Pow10(k - 1) && Pow10(0) == 1
    ensures Pow10(k - 1) == 1 <==> k == 1
  {
  }

  // ---- What the loops of itoa write, for every word ----

  // The place after k rounds of the first loop.
  function Place(k: nat): I32 {
    if k == 0 then 1 else Wrap(10 * Place(k - 1))
  }

  lemma Places9(k: nat)
    requires k <= 9
    ensures Place(k) == Pow10(k) && 1 <= Pow10(k) <= BILLION
  {
    NinthPower();
    PowersOfTenGrow(k, 9);
    PlaceIsPower(k);
  }

  lemma {:induction false} PlaceIsPower(k: nat)
    requires k <= 9
    ensures Place(k) == Pow10(k)
  {
    hide Wrap;
    if k > 0 {
      PlaceIsPower(k - 1);
      NinthPower();
      PowersOfTenGrow(k, 9);
      WrapKeeps(Pow10(k));
    }
  }

  lemma WrappedPlaces()
    ensures Wrap(10_000_000_000) == 1_410_065_408
    ensures Wrap(14_100_654_080) == 1_215_752_192
    ensures Wrap(12_157_521_920) == -727_379_968
  {
  }

  lemma LatePlaces()
    ensures Place(9) == BILLION && Place(10) == 1_410_065_408 && Place(11) == 1_215_752_192 && Place(12) == -727_379_968
  {
    hide Place, Wrap, Pow10;
    Places9(9);
    NinthPower();
    PlaceAfter(9);
    PlaceAfter(10);
    PlaceAfter(11);
    WrappedPlaces();
  }

  lemma PlaceAfter(k: nat)
    ensures Place(k + 1) == Wrap(10 * Place(k))
  {
  }

  // Where the first loop stops: after twelve rounds at the latest.
  function PlaceFrom(a: I32, k: nat): I32
    requires k <= 12
    decreases 12 - k
  {
    if k < 12 && Div(a, Place(k)) > 0 then PlaceFrom(a, k + 1) else Place(k)
  }

  lemma LastPlace(a: I32)
    requires a > 0
    ensures Div(a, Place(12)) <= 0
  {
    hide Place;
    LatePlaces();
  }

  function CharOf(n: int): char {
    ((n + '0' as int) % 256) as char
  }

  // What the second loop writes from position idx on.
  function DigitsFrom(a: I32, p1: int, p2: int, idx: nat): (s: string)
    requires idx < 12
    ensures s != ""
    decreases 12 - idx
  {
    [CharOf(Div(Rem(a, p1), p2))] +
    if p2 == 1 || idx + 1 == 12 then "" else DigitsFrom(a, Div(p1, 10), Div(p2, 10), idx + 1)
  }

  function SignText(a: I32): string {
    if a < 0 then "-" else ""
  }

  function Magnitude(a: I32): I32 {
    if a < 0 then Wrap(-(a as int)) else a
  }

  function ItoaText(a: I32): string {
    var m := Magnitude(a);
    SignText(a) +
    if m < 10 then [CharOf(m)] else DigitsFrom(m, PlaceFrom(m, 0), Div(PlaceFrom(m, 0), 10), |SignText(a)|)
  }

  method FindPlace(a: I32) returns (p1: I32)
    requires a >= 10
    ensures p1 == PlaceFrom(a, 0)
  {
    hide Div, Wrap;
    p1 := 1;
    ghost var k := 0;
    LastPlace(a);
    while Div(a, p1) > 0
      invariant k <= 12 && p1 == Place(k) && PlaceFrom(a, k) == PlaceFrom(a, 0)
      decreases 12 - k
    {
      p1, k := Wrap(p1 * 10), k + 1;
    }
  }

  // The first idx characters of text are in place and nothing behind the text has changed.
  ghost predicate Written(c: seq<char>, before: seq<char>, text: string, idx: nat) {
    && |c| == |before| >= |text| && idx <= |text|
    && (forall k :: 0 <= k < idx ==> c[k] == text[k])
    && forall k :: |text| <= k < |c| ==> c[k] == before[k]
  }

  lemma WrittenNext(c: seq<char>, before: seq<char>, text: string, idx: nat)
    requires Written(c, before, text, idx) && idx < |text|
    ensures Written(c[idx := text[idx]], before, text, idx + 1)
  {
  }

  lemma WrittenEnds(c: seq<char>, before: seq<char>, text: string)
    requires |c| == |before| >= |text|
    ensures Written(c, c, text, 0)
    ensures Written(c, before, text, |text|) ==> c[..|text|] == text && c[|text|..] == before[|text|..]
  {
  }

  lemma WrittenLengths(c: seq<char>, before: seq<char>, text: string, idx: nat)
    requires Written(c, before, text, idx)
    ensures idx <= |text| <= |c|
  {
  }

  lemma TextStarts(a: I32)
    ensures |SignText(a)| < |ItoaText(a)| && |SignText(a)| == (if a < 0 then 1 else 0)
    ensures a < 0 ==> ItoaText(a)[0] == '-'
    ensures var m := Magnitude(a);
            ItoaText(a)[|SignText(a)|..] ==
            if m < 10 then [CharOf(m)] else DigitsFrom(m, PlaceFrom(m, 0), Div(PlaceFrom(m, 0), 10), |SignText(a)|)
  {
    hide Magnitude, CharOf, DigitsFrom, PlaceFrom;
  }

  /** Writes that text and nothing behind it. */
  method Itoa(a0: I32, c: array<char>)
    requires |ItoaText(a0)| <= c.Length
    modifies c
    ensures c[..|ItoaText(a0)|] == ItoaText(a0)
    ensures c[|ItoaText(a0)|..] == old(c[|ItoaText(a0)|..])
  {
    hide Wrap, ItoaText, CharOf, Written, DigitsFrom, PlaceFrom, Div;
    ghost var before, text := c[..], ItoaText(a0);
    var a, idx := a0, 0;
    TextStarts(a0);
    WrittenEnds(before, before, text);
    if a < 0 {
      WrittenNext(c[..], before, text, idx);
      c[idx] := '-';
      a := Wrap(-(a as int));
      idx := idx + 1;
    }
    if a < 10 {
      assert text[idx] == text[idx..][0];
      WrittenNext(c[..], before, text, idx);
      c[idx] := CharOf(a);
    } else {
      ItoaDigits(a, c, idx, before, text);
    }
    WrittenEnds(c[..], before, text);
  }

  // The loops of itoa, for a number of several digits.
  method ItoaDigits(a: I32, c: array<char>, start: nat, ghost before: seq<char>, ghost text: string)
    requires a >= 10 && start <= 1 && start <= |text|
    requires text[start..] == DigitsFrom(a, PlaceFrom(a, 0), Div(PlaceFrom(a, 0), 10), start)
    requires Written(c[..], before, text, start)
    modifies c
    ensures Written(c[..], before, text, |text|)
  {
    hide Div, Rem, CharOf, PlaceFrom, Written;
    WrittenLengths(c[..], before, text, start);
    var idx := start;
    var p1: int := FindPlace(a);
    var p2 := Div(p1, 10);
    while true
      invariant idx < 12 && idx < |text| <= c.Length && text[idx..] == DigitsFrom(a, p1, p2, idx)
      invariant Written(c[..], before, text, idx)
      decreases 12 - idx
    {
      var tmp := Div(Rem(a, p1), p2);
      assert text[idx] == text[idx..][0];
      assert text[idx..][1..] == text[idx + 1..];
      WrittenNext(c[..], before, text, idx);
      c[idx] := CharOf(tmp);
      idx := idx + 1;
      if p2 == 1 || idx == 12 {
        return;
      }
      p2 := Div(p2, 10);
      p1 := Div(p1, 10);
    }
  }

  // ---- When that is the decimal text ----

  lemma {:induction false} PlaceOfNumber(a: I32, k: nat)
    requires 0 < a < BILLION && k <= 9 && (k > 0 ==> Pow10(k - 1) <= a)
    ensures PlaceFrom(a, k) == Pow10(Places(a))
    decreases 9 - k
  {
    hide Div, Place, Pow10, Places;
    Places9(k);
    DividesOrNot(a, Pow10(k));
    if Pow10(k) <= a {
      NextPlace(a, k);
      PlaceOfNumber(a, k + 1);
    } else {
      PlacesBound(a, k);
    }
  }

  lemma {:induction false} DigitsFromNumber(a: I32, n: nat, j: nat, idx: nat)
    requires 10 <= a < BILLION && n == Places(a) == |Digits(a)| <= 9 && j < n && idx <= j + 1
    ensures DigitsFrom(a, Pow10(n - j), Pow10(n - j - 1), idx) == Digits(a)[j..]
    decreases n - j
  {
    hide Pow10, Places, Digits, Div, Rem, CharOf, DigitChar;
    var k := n - j - 1;
    var p1, p2 := Pow10(k + 1), Pow10(k);
    DigitAt(a, k);
    TruncatedDigit(a, k);
    PowerTenth(k + 1);
    NaturalDiv(p1, 10);
    NaturalDiv(p2, 10);
    assert Digits(a)[j..] == [Digits(a)[j]] + Digits(a)[j + 1..];
    if j + 1 < n {
      PowerTenth(k);
      DigitsFromNumber(a, n, j + 1, idx + 1);
    }
  }

  lemma TruncatedDigit(a: nat, k: nat)
    requires PlaceDigit(a, k) < 10
    ensures CharOf(Div(Rem(a, Pow10(k + 1)), Pow10(k))) == DigitChar(PlaceDigit(a, k), false)
  {
    hide Pow10;
    var p1, p2 := Pow10(k + 1), Pow10(k);
    NaturalDiv(a, p1);
    DivisionSplits(a, p1);
    NaturalDiv(a % p1, p2);
    hide Div, Rem;
  }

  lemma PlacesOfDigits(a: nat)
    requires 10 <= a < BILLION
    ensures |Digits(a)| == Places(a) && 2 <= Places(a) <= 9
  {
    DigitsRead(a);
    PlacesBelowTen(a);
    assert Places(a) == 1 + Places(a / 10) && Places(a / 10) == 1 + Places(a / 10 / 10);
  }

  lemma PlacesBelowTen(a: nat)
    requires 0 < a < BILLION
    ensures Places(a) <= 9
  {
    NinthPower();
    PlacesPower(a);
    if Places(a) > 9 {
      PowersOfTenGrow(9, Places(a) - 1);
    }
  }

  lemma SmallText(a: I32)
    requires Abs(a) < BILLION
    ensures ItoaText(a) == Text(a)
  {
    hide Pow10, Places, Digits, Div, DigitsFrom, PlaceFrom;
    var m := Abs(a);
    SmallMagnitude(a);
    if m < 10 {
      OneDigit(m);
    } else {
      PlacesOfDigits(m);
      PlaceOfNumber(m, 0);
      PowerTenth(Places(m));
      NaturalDiv(Pow10(Places(m)), 10);
      DigitsFromNumber(m, Places(m), 0, |SignText(a)|);
      assert Digits(m)[0..] == Digits(m);
    }
  }

  lemma SmallMagnitude(a: I32)
    requires a != -HALF
    ensures Magnitude(a) == Abs(a)
  {
  }

  lemma OneDigit(m: nat)
    requires m < 10
    ensures [CharOf(m)] == Digits(m)
  {
  }

  // The first loop goes past 10^9.
  lemma {:induction false} PastBillion(a: I32, k: nat)
    requires a >= BILLION && k <= 10
    ensures PlaceFrom(a, k) == PlaceFrom(a, 10)
    decreases 10 - k
  {
    hide Div, Place, Pow10;
    if k < 10 {
      Places9(k);
      DividesOrNot(a, Pow10(k));
      PastBillion(a, k + 1);
    }
  }

  lemma OverflowedPlace(a: I32)
    requires a >= BILLION
    ensures PlaceFrom(a, 0) == if a < 1_410_065_408 then 1_410_065_408 else -727_379_968
  {
    hide Place;
    LatePlaces();
    PastBillion(a, 0);
    assert PlaceFrom(a, 12) == Place(12);
  }

  lemma LatePlacesTenth()
    ensures Div(1_410_065_408, 10) == 141_006_540 && Div(-727_379_968, 10) == -72_737_996
  {
  }

  lemma LowPlace(a: I32)
    requires BILLION <= a < 1_410_065_408
    ensures 7 <= Div(Rem(a, 1_410_065_408), 141_006_540) <= 10
  {
  }

  lemma HighPlace(a: I32)
    requires a >= 1_410_065_408
    ensures -10 <= Div(Rem(a, -727_379_968), -72_737_996) <= 0
  {
    var r := a % 727_379_968;
    assert Rem(a, -727_379_968) == r && 0 <= r < 727_379_968;
    assert Div(r, -72_737_996) == -(r / 72_737_996);
  }

  lemma CharsOf(n: int)
    ensures 7 <= n <= 10 ==> CharOf(n) != '1'
    ensures -10 <= n <= 0 ==> CharOf(n) <= '0'
  {
  }

  // The first character is no leading digit of a.
  lemma FirstDigitWrong(a: I32)
    requires a >= BILLION
    ensures var p1 := PlaceFrom(a, 0);
            CharOf(Div(Rem(a, p1), Div(p1, 10))) != Digits(a)[0]
  {
    hide PlaceFrom, Div, Rem, CharOf, Digits;
    OverflowedPlace(a);
    LatePlacesTenth();
    DigitsRead(a);
    var p1 := PlaceFrom(a, 0);
    CharsOf(Div(Rem(a, p1), Div(p1, 10)));
    if a < 1_410_065_408 {
      LowPlace(a);
      LeadingDigit(a);
    } else {
      HighPlace(a);
    }
  }

  lemma LeadingDigit(a: I32)
    requires BILLION <= a < 2 * BILLION
    ensures Digits(a)[0] == '1'
  {
    hide Digits, Pow10, Places;
    NinthPower();
    PowerTenth(10);
    PlacesBound(a, 10);
    DigitsRead(a);
    DigitAt(a, 9);
  }

  lemma LargeText(a: I32)
    requires Abs(a) >= BILLION && a != -HALF
    ensures ItoaText(a) != Text(a)
  {
    hide PlaceFrom, Digits, CharOf, Div, Rem;
    var m := Abs(a);
    SmallMagnitude(a);
    FirstDigitWrong(m);
    var s := SignText(a);
    assert ItoaText(a)[|s|] != Text(a)[|s|];
  }

  lemma LeastWord()
    ensures Magnitude(-HALF) == -HALF && CharOf(-HALF) == '0'
  {
  }

  lemma LeastText()
    ensures ItoaText(-HALF) == "-0" && Text(-HALF) != "-0"
  {
    hide Magnitude, CharOf, Text, Digits, Places;
    LeastWord();
    TextReads(-HALF);
  }

  /** itoa writes the decimal text exactly for the numbers between -10^9 and 10^9. Beyond them the place
      overflows and already the first digit comes out wrong. */
  lemma ItoaRight(a: I32)
    ensures ItoaText(a) == Text(a) <==> Abs(a) < BILLION
  {
    hide ItoaText, Text;
    if Abs(a) < BILLION {
      SmallText(a);
    } else if a == -HALF {
      LeastText();
    } else {
      LargeText(a);
    }
  }
}
