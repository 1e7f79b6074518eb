/** How the printf engine reads a format: %[flags][width][.precision][length]conversion, on a target
    with 32-bit int, long, size_t and pointers, 64-bit long long and intmax_t, unsigned char. */
module PrintfFormat {
  import opened Arithmetic
  import opened Basics
  import opened PrintfDigits
  import opened PrintfModel

  const INT_SPAN: nat := 0x1_0000_0000
  const LONG_LONG_SPAN: nat := 0x1_0000_0000_0000_0000

  function CharAt(format: string, i: nat): char {
    if i < |format| then format[i] else '\0'
  }

  predicate IsDigit(c: char) {
    '0' <= c <= '9'
  }

  // A flag character, and the flags with it set.
  function WithFlag(f: Flags, c: char): Option<Flags> {
    if c == '0' then Some(f.(zeropad := true))
    else if c == '-' then Some(f.(left := true))
    else if c == '+' then Some(f.(plus := true))
    else if c == ' ' then Some(f.(space := true))
    else if c == '#' then Some(f.(hash := true))
    else None
  }

  // A directive read so far, with the positions in format and arguments where to go on.
  datatype Directive = Directive(f: Flags, width: nat, precision: nat, i: nat, a: nat)

  function ReadFlags(format: string, d: Directive): (r: Directive)
    ensures r.i >= d.i && r.a == d.a && r.width == d.width && r.precision == d.precision
    decreases |format| - d.i
  {
    match WithFlag(d.f, CharAt(format, d.i))
    case Some(g) => if d.i < |format| then ReadFlags(format, d.(f := g, i := d.i + 1)) else d
    case None => d
  }

  // _atoi: the number from i on, modulo 2^32, and the position behind it.
  function Atoi(format: string, i: nat, value: nat): (r: (nat, nat))
    ensures r.1 >= i
    decreases |format| - i
  {
    if i < |format| && IsDigit(format[i]) then
      Atoi(format, i + 1, (value * 10 + (format[i] as int - '0' as int)) % INT_SPAN)
    else (value, i)
  }

  function IntAt(args: seq<Arg>, a: nat): Option<int> {
    if a < |args| && args[a].Int? then Some(args[a].i) else None
  }

  function ReadWidth(format: string, args: seq<Arg>, d: Directive): (r: Option<Directive>)
    ensures r.Some? ==> r.value.i >= d.i
  {
    if IsDigit(CharAt(format, d.i)) then
      var (n, i) := Atoi(format, d.i, 0);
      Some(d.(width := n, i := i))
    else if CharAt(format, d.i) == '*' then
      match IntAt(args, d.a)
      case None => None
      case Some(n) =>
        var w := AsSigned(n, INT_SPAN);
        var e := d.(i := d.i + 1, a := d.a + 1);
        Some(if w < 0 then e.(f := e.f.(left := true), width := -w) else e.(width := w))
    else Some(d)
  }

  function ReadPrecision(format: string, args: seq<Arg>, d: Directive): (r: Option<Directive>)
    ensures r.Some? ==> r.value.i >= d.i
  {
    if CharAt(format, d.i) != '.' then Some(d) else
      var e := d.(f := d.f.(precision := true), i := d.i + 1);
      if IsDigit(CharAt(format, e.i)) then
        var (n, i) := Atoi(format, e.i, 0);
        Some(e.(precision := n, i := i))
      else if CharAt(format, e.i) == '*' then
        match IntAt(args, e.a)
        case None => None
        case Some(n) => Some(e.(precision := Max(AsSigned(n, INT_SPAN), 0), i := e.i + 1, a := e.a + 1))
      else Some(e)
  }

  function ReadLength(format: string, d: Directive): (r: Directive)
    ensures r.i >= d.i
  {
    var c := CharAt(format, d.i);
    if c == 'l' then
      if CharAt(format, d.i + 1) == 'l' then d.(f := d.f.(long := true, longLong := true), i := d.i + 2)
      else d.(f := d.f.(long := true), i := d.i + 1)
    else if c == 'h' then
      if CharAt(format, d.i + 1) == 'h' then d.(f := d.f.(short := true, chr := true), i := d.i + 2)
      else d.(f := d.f.(short := true), i := d.i + 1)
    else if c == 't' || c == 'z' then d.(f := d.f.(long := true), i := d.i + 1)
    else if c == 'j' then d.(f := d.f.(longLong := true), i := d.i + 1)
    else d
  }

  // ---- Conversions ----

  predicate IsInteger(c: char) {
    c == 'd' || c == 'i' || c == 'u' || c == 'x' || c == 'X' || c == 'o' || c == 'b'
  }

  predicate IsSignedInteger(c: char) {
    c == 'd' || c == 'i'
  }

  function BaseOf(c: char): (b: nat)
    ensures 2 <= b <= 16
  {
    if c == 'x' || c == 'X' then 16 else if c == 'o' then 8 else if c == 'b' then 2 else 10
  }

  // No # for decimals.
  function HashStep(f: Flags, c: char): Flags {
    if BaseOf(c) == 10 then f.(hash := false) else f
  }

  function CaseStep(f: Flags, c: char): Flags {
    if c == 'X' then f.(upper := true) else f
  }

  // Neither + nor blank for unsigned numbers.
  function SignStep(f: Flags, c: char): Flags {
    if IsSignedInteger(c) then f else f.(plus := false, space := false)
  }

  // No zeros under a precision.
  function ZeroStep(f: Flags): Flags {
    if f.precision then f.(zeropad := false) else f
  }

  // The flags that an integer conversion goes by.
  function IntegerFlags(f: Flags, c: char): Flags {
    ZeroStep(SignStep(CaseStep(HashStep(f, c), c), c))
  }

  // The value an integer conversion takes from its argument.
  function IntegerValue(n: int, f: Flags, c: char): int {
    if IsSignedInteger(c) then
      if f.longLong then AsSigned(n, LONG_LONG_SPAN)
      else if f.long then AsSigned(n, INT_SPAN)
      else if f.chr then n % 256
      else if f.short then AsSigned(n, 65536)
      else AsSigned(n, INT_SPAN)
    else
      if f.longLong then n % LONG_LONG_SPAN
      else if f.long then n % INT_SPAN
      else if f.chr then n % 256
      else if f.short then n % 65536
      else n % INT_SPAN
  }

  function IntegerText(n: int, d: Directive, c: char): string {
    var v := IntegerValue(n, d.f, c);
    Ntoa(Abs(v), v < 0, BaseOf(c), d.precision, d.width, IntegerFlags(d.f, c))
  }

  // ---- Integers read back ----

  lemma SquarePowers(base: nat, b4: nat)
    requires base * base * base * base == b4
    ensures Power(base, 32) == b4 * b4 * (b4 * b4) * (b4 * b4 * (b4 * b4))
  {
    assert Power(base, 1) == base && Power(base, 2) == base * Power(base, 1);
    PowerAdds(base, 2, 2);
    PowerAdds(base, 4, 4);
    PowerAdds(base, 8, 8);
    PowerAdds(base, 16, 16);
  }

  lemma BufferHolds(base: nat)
    requires base == 2 || base == 8 || base == 10 || base == 16
    ensures if base == 2 then Power(base, 32) == INT_SPAN else Power(base, 32) >= LONG_LONG_SPAN
  {
    hide Power;
    SquarePowers(2, 16);
    SquarePowers(8, 4096);
    SquarePowers(10, 10000);
    SquarePowers(16, 65536);
  }

  /** An integer conversion takes from its argument the number that agrees with it on the bits of its length
      modifier, as a signed number for d and i, except that char is unsigned. */
  lemma IntegerRange(n: int, f: Flags, c: char)
    ensures var v := IntegerValue(n, f, c);
            var m := if f.longLong then 0x1_0000_0000_0000_0000 else if f.long then 0x1_0000_0000
                     else if f.chr then 0x100 else if f.short then 0x1_0000 else 0x1_0000_0000;
            && v % m == n % m
            && if (c == 'd' || c == 'i') && m > 0x100 then 0 <= 2 * v + m < 2 * m else 0 <= v < m
    ensures Abs(IntegerValue(n, f, c)) < LONG_LONG_SPAN
    ensures !f.longLong ==> Abs(IntegerValue(n, f, c)) < INT_SPAN
    ensures !IsSignedInteger(c) ==> IntegerValue(n, f, c) >= 0
  {
    hide AsSigned;
    SignedIs(n, LONG_LONG_SPAN);
    SignedIs(n, INT_SPAN);
    SignedIs(n, 65536);
  }

  lemma SignedIs(n: int, m: nat)
    requires m > 0
    ensures AsSigned(n, m) % m == n % m && 0 <= 2 * AsSigned(n, m) + m < 2 * m
    ensures 0 <= n % m < m && n % m % m == n % m
  {
    DivisionSplits(n, m);
    var q, r := n / m, n % m;
    DivisionIsUnique(r, m, 0, r);
    DivisionIsUnique(r - m, m, -1, r);
  }

  lemma HashStepIs(f: Flags, c: char)
    ensures var g := HashStep(f, c);
            && g.zeropad == f.zeropad && g.left == f.left && g.plus == f.plus && g.space == f.space
            && g.hash == (f.hash && BaseOf(c) != 10) && g.upper == f.upper && g.precision == f.precision
  {
    hide BaseOf, IsSignedInteger;
  }

  lemma CaseStepIs(f: Flags, c: char)
    ensures var g := CaseStep(f, c);
            && g.zeropad == f.zeropad && g.left == f.left && g.plus == f.plus && g.space == f.space
            && g.hash == f.hash && g.upper == (f.upper || c == 'X') && g.precision == f.precision
  {
    hide BaseOf, IsSignedInteger;
  }

  lemma SignStepIs(f: Flags, c: char)
    ensures var g := SignStep(f, c);
            && g.zeropad == f.zeropad && g.left == f.left
            && g.plus == (f.plus && IsSignedInteger(c)) && g.space == (f.space && IsSignedInteger(c))
            && g.hash == f.hash && g.upper == f.upper && g.precision == f.precision
  {
    hide BaseOf, IsSignedInteger;
  }

  lemma ZeroStepIs(f: Flags)
    ensures var g := ZeroStep(f);
            && g.zeropad == (f.zeropad && !f.precision) && g.left == f.left && g.plus == f.plus && g.space == f.space
            && g.hash == f.hash && g.upper == f.upper && g.precision == f.precision
  {
    hide BaseOf, IsSignedInteger;
  }

  lemma FlagsOf(f: Flags, c: char)
    ensures var g := IntegerFlags(f, c);
            && g.left == f.left && g.precision == f.precision && g.zeropad == (f.zeropad && !f.precision)
            && g.plus == (f.plus && IsSignedInteger(c)) && g.space == (f.space && IsSignedInteger(c))
            && g.hash == (f.hash && BaseOf(c) != 10) && g.upper == (f.upper || c == 'X')
  {
    hide BaseOf, IsSignedInteger, HashStep, CaseStep, SignStep, ZeroStep;
    HashStepIs(f, c);
    CaseStepIs(HashStep(f, c), c);
    SignStepIs(CaseStep(HashStep(f, c), c), c);
    ZeroStepIs(SignStep(CaseStep(HashStep(f, c), c), c));
  }

  lemma MinusIff(room: bool, negative: bool, plus: bool, space: bool)
    ensures var sign := if !room then "" else if negative then "-" else if plus then "+" else if space then " " else "";
            sign == "-" <==> room && negative
  {
    assert "+"[0] != '-' && " "[0] != '-' && "-"[0] == '-';
  }

  // Only binary long longs from 2^32 on have more than 32 digits.
  lemma WholeUnlessBinary(n: int, f: Flags, c: char)
    requires IsInteger(c)
    ensures Abs(IntegerValue(n, f, c)) < Power(BaseOf(c), NTOA_BUFFER_SIZE) <==>
            !(c == 'b' && f.longLong && IntegerValue(n, f, c) >= INT_SPAN)
  {
    hide Power, IntegerValue;
    IntegerRange(n, f, c);
    BufferHolds(BaseOf(c));
  }

  lemma BaseIs(c: char)
    ensures BaseOf(c) == if c == 'x' || c == 'X' then 16 else if c == 'o' then 8 else if c == 'b' then 2 else 10
  {
  }

  // The layout that the flags of the conversion give, in terms of those of the directive.
  lemma CountOf(v: int, d: Directive, c: char)
    requires v < 0 ==> IsSignedInteger(c)
    ensures var g, m, base := IntegerFlags(d.f, c), Abs(v), BaseOf(c);
            var signed, zeros := c == 'd' || c == 'i', d.f.zeropad && !d.f.left && !d.f.precision;
            var w := if zeros && d.width > 0 && (v < 0 || (signed && (d.f.plus || d.f.space))) then d.width - 1
                     else d.width;
            var own := if d.f.precision && v == 0 then 0 else NumDigits(m, base);
            && ZeroWidth(d.width, v < 0, g) == w
            && DigitCount(m, v < 0, base, d.precision, d.width, g) ==
               if d.f.left then own else if zeros then Max(Max(own, d.precision), w) else Max(own, d.precision)
  {
    hide NumDigits, IntegerFlags, BaseOf;
    FlagsOf(d.f, c);
  }

  lemma PrefixOf(v: int, d: Directive, c: char, count: nat, w: nat, n: nat)
    requires n <= 32
    ensures var g, m, base := HashFor(Abs(v), IntegerFlags(d.f, c)), Abs(v), BaseOf(c);
            var hash := d.f.hash && base != 10 && v != 0;
            var whole := if base == 16 then if c == 'X' || d.f.upper then "0X" else "0x"
                         else if base == 2 then "0b" else "0";
            && Shortened(count, base, d.precision, w, g) ==
               (if hash && !d.f.precision && count > 0 && (count == d.precision || count == w) then
                  if count > 1 && base == 16 then count - 2 else count - 1
                else count)
            && PrefixFor(n, base, g) ==
               if !hash then "" else if n + |whole| <= 32 then whole else whole[n + |whole| - 32..]
  {
    hide IntegerFlags, BaseOf;
    FlagsOf(d.f, c);
  }

  lemma SignOf(v: int, d: Directive, c: char)
    ensures SignChars(v < 0, IntegerFlags(d.f, c)) ==
            if v < 0 then "-" else if (c == 'd' || c == 'i') && d.f.plus then "+"
            else if (c == 'd' || c == 'i') && d.f.space then " " else ""
  {
    hide IntegerFlags, BaseOf;
    FlagsOf(d.f, c);
  }

  lemma SignedReads(v: int, base: nat, digits: string, sign: string, room: bool, plus: bool, space: bool)
    requires Read(digits, base) >= 0 && (Read(digits, base) == Abs(v) <==> Abs(v) < Power(base, |digits|))
    requires sign == if !room then "" else if v < 0 then "-" else if plus then "+" else if space then " " else ""
    ensures (if sign == "-" then 0 - Read(digits, base) else Read(digits, base)) == v <==>
            Abs(v) < Power(base, |digits|) && (v >= 0 || room)
  {
    hide Power, Read;
    MinusIff(room, v < 0, plus, space);
  }

  lemma DigitsHold(n: int, f: Flags, c: char, count: nat)
    requires IsInteger(c)
    ensures var v, base := IntegerValue(n, f, c), BaseOf(c);
            && (Abs(v) < Power(base, count) <==> NumDigits(Abs(v), base) <= count || v == 0)
            && (NumDigits(Abs(v), base) <= 32 || v == 0 <==> !(c == 'b' && f.longLong && v >= 0x1_0000_0000))
  {
    hide Power, NumDigits, IntegerValue;
    WholeUnlessBinary(n, f, c);
    NumDigitsIs(Abs(IntegerValue(n, f, c)), BaseOf(c), count);
    NumDigitsIs(Abs(IntegerValue(n, f, c)), BaseOf(c), 32);
  }

  /** Every integer conversion, for all arguments, flags, widths and precisions, character by character. The digits
      are those of the value, as far as 32 places go; zeros fill the field exactly under 0 without - and without a
      precision; the prefix takes the place of up to two digits if they just fill the width or the precision; prefix
      and sign come in the places that are left; blanks fill the rest. */
  lemma IntegerLayout(n: int, d: Directive, c: char)
    returns (sign: string, prefix: string, digits: string, before: nat, after: nat)
    requires IsInteger(c)
    ensures IntegerText(n, d, c) == seq(before, _ => ' ') + sign + prefix + digits + seq(after, _ => ' ')
    ensures var v := IntegerValue(n, d.f, c);
            var m := if v < 0 then 0 - v else v;
            var base := if c == 'x' || c == 'X' then 16 else if c == 'o' then 8 else if c == 'b' then 2 else 10;
            && |digits| <= 32 && Spells(digits, m, base, c == 'X' || d.f.upper)
            && Read(digits, base) >= 0 && (Read(digits, base) == m <==> m < Power(base, |digits|))
    ensures var v := IntegerValue(n, d.f, c);
            var m := if v < 0 then 0 - v else v;
            var base := if c == 'x' || c == 'X' then 16 else if c == 'o' then 8 else if c == 'b' then 2 else 10;
            var signed, zeros := c == 'd' || c == 'i', d.f.zeropad && !d.f.left && !d.f.precision;
            var w := if zeros && d.width > 0 && (v < 0 || (signed && (d.f.plus || d.f.space))) then d.width - 1
                     else d.width;
            var own := if d.f.precision && v == 0 then 0 else NumDigits(m, base);
            var asked := if d.f.left then own else if zeros then Max(Max(own, d.precision), w)
                         else Max(own, d.precision);
            var count := Min(asked, 32);
            var hash := d.f.hash && base != 10 && v != 0;
            var whole := if base == 16 then if c == 'X' || d.f.upper then "0X" else "0x"
                         else if base == 2 then "0b" else "0";
            && |digits| == (if hash && !d.f.precision && count > 0 && (count == d.precision || count == w) then
                              if count > 1 && base == 16 then count - 2 else count - 1
                            else count)
            && prefix == (if !hash then "" else if |digits| + |whole| <= 32 then whole
                          else whole[|digits| + |whole| - 32..])
            && sign == (if |digits| + |prefix| >= 32 then "" else if v < 0 then "-"
                        else if signed && d.f.plus then "+" else if signed && d.f.space then " " else "")
    ensures var all := |sign| + |prefix| + |digits|;
            && before == (if d.f.left || (d.f.zeropad && !d.f.precision) then 0 else Max(0, d.width - all))
            && after == if d.f.left then Max(0, d.width - all) else 0
  {
    hide Power, NumDigits, Ntoa, Read, IntegerValue, IntegerFlags, DigitCount, ZeroWidth, Shortened, PrefixFor,
         SignChars, HashFor, BaseOf, IsInteger, Spells;
    var v, g := IntegerValue(n, d.f, c), IntegerFlags(d.f, c);
    BaseIs(c);
    FlagsOf(d.f, c);
    IntegerRange(n, d.f, c);
    CountOf(v, d, c);
    SignOf(v, d, c);
    var w := ZeroWidth(d.width, v < 0, g);
    var count := Min(DigitCount(Abs(v), v < 0, BaseOf(c), d.precision, d.width, g), 32);
    sign, prefix, digits, before, after := NtoaPrints(Abs(v), v < 0, BaseOf(c), d.precision, d.width, g);
    PrefixOf(v, d, c, count, w, |digits|);
  }

  /** Sign and digits read back as the value exactly if no digit of it and no minus sign has been left out; without #
      all digits are there but those of binary long longs from 2^32 on. */
  lemma IntegerReadsBack(n: int, d: Directive, c: char)
    returns (sign: string, prefix: string, digits: string, before: nat, after: nat)
    requires IsInteger(c)
    ensures IntegerText(n, d, c) == seq(before, _ => ' ') + sign + prefix + digits + seq(after, _ => ' ')
    ensures var v := IntegerValue(n, d.f, c);
            var m := if v < 0 then 0 - v else v;
            var base := if c == 'x' || c == 'X' then 16 else if c == 'o' then 8 else if c == 'b' then 2 else 10;
            && (v < 0 ==> prefix == "" && sign == if |digits| < 32 then "-" else "")
            && (v >= 0 ==> sign != "-")
            && ((if sign == "-" then 0 - Read(digits, base) else Read(digits, base)) == v <==>
                m < Power(base, |digits|) && (v >= 0 || |digits| < 32))
            && (m < Power(base, |digits|) <==> NumDigits(m, base) <= |digits| || v == 0)
            && (!d.f.hash || base == 10 ==>
                  (m < Power(base, |digits|) <==> !(c == 'b' && d.f.longLong && v >= 0x1_0000_0000)))
  {
    hide Power, NumDigits, Read, IntegerText, IntegerValue, Spells, BaseOf, IsInteger;
    var v := IntegerValue(n, d.f, c);
    BaseIs(c);
    IntegerRange(n, d.f, c);
    sign, prefix, digits, before, after := IntegerLayout(n, d, c);
    SignedReads(v, BaseOf(c), digits, sign, |digits| + |prefix| < 32, (c == 'd' || c == 'i') && d.f.plus,
                (c == 'd' || c == 'i') && d.f.space);
    DigitsHold(n, d.f, c, |digits|);
  }

  lemma FourDigits()
    ensures NumDigits(0x1234, 16) == 4 && Power(16, 0) == 1 && Power(16, 1) == 16
  {
    assert NumDigits(0x12, 16) == 2;
  }

  /** Where the digits just fill the width the prefix takes the place of two of them: "%#4x" prints 0x1234 as 0x34. */
  lemma PrefixLosesDigits(i: nat, a: nat)
    ensures IntegerText(0x1234, Directive(NO_FLAGS.(hash := true), 4, 0, i, a), 'x') == "0x34"
  {
    hide IntegerText, Power, NumDigits, Read, Spells;
    FourDigits();
    var d := Directive(NO_FLAGS.(hash := true), 4, 0, i, a);
    assert IntegerValue(0x1234, d.f, 'x') == 0x1234;
    var sign, prefix, digits, before, after := IntegerLayout(0x1234, d, 'x');
    assert |digits| == 2 && prefix == "0x" && sign == "" && before == 0 && after == 0;
    DigitAt(digits, 0x1234, 16, false, 0);
    DigitAt(digits, 0x1234, 16, false, 1);
    assert digits == "34";
  }

  // A text in a field of this width.
  function Field(text: string, width: nat, left: bool): string {
    if left then text + Spaces(width - |text|) else Spaces(width - |text|) + text
  }

  /** The text stands at the left or at the right end of its field; everything else there is blank. */
  lemma FieldAt(text: string, width: nat, left: bool)
    ensures var s, start := Field(text, width, left), if left then 0 else Max(0, width - |text|);
            && |s| == Max(width, |text|) && s[start..start + |text|] == text
            && forall k :: 0 <= k < |s| && !(start <= k < start + |text|) ==> s[k] == ' '
  {
    hide Spaces;
    SpacesAre(width - |text|);
  }

  function Clip(s: string, d: Directive): string {
    if d.f.precision && d.precision < |s| then s[..d.precision] else s
  }

  function PointerText(n: int, d: Directive): string {
    Ntoa(n % INT_SPAN, false, 16, d.precision, 8, d.f.(zeropad := true, upper := true))
  }

  lemma SixteensBelow(m: nat)
    requires m < INT_SPAN
    ensures m < Power(16, 8)
  {
    assert Power(16, 2) == 256 && Power(16, 4) == 65536 && Power(16, 6) == 0x100_0000;
    assert Power(16, 8) == 0x1_0000_0000;
  }

  /** A pointer is printed as its eight upper-case hexadecimal digits, unless - or # or a sign or a precision above 8
      is asked for. */
  lemma PointerReadsBack(n: int, d: Directive)
    requires !d.f.left && !d.f.hash && !d.f.plus && !d.f.space && d.precision <= 8
    ensures |PointerText(n, d)| == 8
    ensures forall k :: 0 <= k < 8 ==>
              PointerText(n, d)[k] == "0123456789ABCDEF"[n % 0x1_0000_0000 / Power(16, 7 - k) % 16]
    ensures Read(PointerText(n, d), 16) == n % 0x1_0000_0000
  {
    hide Power, NumDigits, Ntoa, Read, Spells;
    var m := n % INT_SPAN;
    var f := d.f.(zeropad := true, upper := true);
    SixteensBelow(m);
    NumDigitsIs(m, 16, 8);
    NumDigitsUnfolds(m, 16);
    var sign, prefix, digits, before, after := NtoaPrints(m, false, 16, d.precision, 8, f);
    assert |digits| == 8 && sign == "" && prefix == "";
    assert PointerText(n, d) == digits;
    forall k | 0 <= k < 8
      ensures digits[k] == "0123456789ABCDEF"[m / Power(16, 7 - k) % 16]
    {
      DigitAt(digits, m, 16, true, 7 - k);
    }
  }

  // What the conversion prints, and whether it takes an argument; None if that is missing or of
  // the wrong kind, or the format ends before the conversion.
  function Convert(format: string, args: seq<Arg>, d: Directive): Option<(string, nat)> {
    var c := CharAt(format, d.i);
    if d.i >= |format| then None
    else if IsInteger(c) then
      match IntAt(args, d.a)
      case None => None
      case Some(n) => Some((IntegerText(n, d, c), d.a + 1))
    else if c == 'c' then
      match IntAt(args, d.a)
      case None => None
      case Some(n) => Some((Field([(n % 256) as char], d.width, d.f.left), d.a + 1))
    else if c == 's' then
      if d.a < |args| && args[d.a].Str? then Some((Field(Clip(args[d.a].s, d), d.width, d.f.left), d.a + 1)) else None
    else if c == 'p' then
      match IntAt(args, d.a)
      case None => None
      case Some(n) => Some((PointerText(n, d), d.a + 1))
    else Some(([c], d.a))
  }

  // The directive behind a percent sign at i - 1, up to its conversion.
  function ReadDirective(format: string, args: seq<Arg>, i: nat, a: nat): (r: Option<Directive>)
    ensures r.Some? ==> r.value.i >= i
  {
    match ReadWidth(format, args, ReadFlags(format, Directive(NO_FLAGS, 0, 0, i, a)))
    case None => None
    case Some(d) =>
      match ReadPrecision(format, args, d)
      case None => None
      case Some(e) => Some(ReadLength(format, e))
  }

  function ReadAndConvert(format: string, args: seq<Arg>, i: nat, a: nat): (r: Option<(string, nat, nat)>)
    ensures r.Some? ==> r.value.1 > i
  {
    match ReadDirective(format, args, i, a)
    case None => None
    case Some(d) =>
      match Convert(format, args, d)
      case None => None
      case Some((text, b)) => Some((text, d.i + 1, b))
  }

  /** All that the format from i on prints; None if it ends within a directive or the arguments do
      not fit. */
  function Render(format: string, i: nat, args: seq<Arg>, a: nat): Option<string>
    decreases |format| - i
  {
    if i >= |format| then Some("")
    else if format[i] != '%' then
      match Render(format, i + 1, args, a)
      case None => None
      case Some(text) => Some([format[i]] + text)
    else
      match ReadAndConvert(format, args, i + 1, a)
      case None => None
      case Some((s, j, b)) =>
        match Render(format, j, args, b)
        case None => None
        case Some(text) => Some(s + text)
  }
}
