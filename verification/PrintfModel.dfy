/** What the printf engine prints, as a function of format and arguments. */
module PrintfModel {
  import opened Arithmetic
  import opened Basics

  const NTOA_BUFFER_SIZE: nat := 32

  datatype Flags = Flags(zeropad: bool, left: bool, plus: bool, space: bool, hash: bool, upper: bool,
                         chr: bool, short: bool, long: bool, longLong: bool, precision: bool)

  const NO_FLAGS := Flags(false, false, false, false, false, false, false, false, false, false, false)

  // An argument: an integer, of which each conversion takes the bits it wants, or a string.
  datatype Arg = Int(i: int) | Str(s: string)

  function Spaces(n: int): string {
    if n <= 0 then "" else Spaces(n - 1) + " "
  }

  function Reverse(s: string): string {
    if s == "" then "" else Reverse(s[1..]) + [s[0]]
  }

  // ---- One integer ----

  // The digits of value, lowest first, at most room of them.
  function Digits(value: nat, base: nat, upper: bool, room: nat): (s: string)
    requires 2 <= base <= 16
    ensures |s| <= room
    decreases room
  {
    if room == 0 then ""
    else
      [DigitChar(value % base, upper)] +
      if value / base == 0 then "" else Digits(value / base, base, upper, room - 1)
  }

  // Zeros appended up to length n, or to the end of the buffer.
  function ZeroFill(buf: string, n: nat): (s: string)
    requires |buf| <= NTOA_BUFFER_SIZE
    ensures |s| <= NTOA_BUFFER_SIZE
    decreases n - |buf|
  {
    if |buf| < n && |buf| < NTOA_BUFFER_SIZE then ZeroFill(buf + "0", n) else buf
  }

  function Append(buf: string, c: char): (s: string)
    requires |buf| <= NTOA_BUFFER_SIZE
    ensures |s| <= NTOA_BUFFER_SIZE
  {
    if |buf| < NTOA_BUFFER_SIZE then buf + [c] else buf
  }

  // The width left for zeros when a sign comes in front of them.
  function ZeroWidth(width: nat, negative: bool, f: Flags): nat {
    if !f.left && width > 0 && f.zeropad && (negative || f.plus || f.space) then width - 1 else width
  }

  function Padded(buf: string, negative: bool, prec: nat, width: nat, f: Flags): (s: string)
    requires |buf| <= NTOA_BUFFER_SIZE
    ensures |s| <= NTOA_BUFFER_SIZE
  {
    if f.left then buf else
      var b := ZeroFill(buf, prec);
      if f.zeropad then ZeroFill(b, ZeroWidth(width, negative, f)) else b
  }

  // The prefix of the # flag, which takes the place of up to two padding digits.
  function Prefixed(buf: string, base: nat, prec: nat, width: nat, f: Flags): (s: string)
    requires |buf| <= NTOA_BUFFER_SIZE
    ensures |s| <= NTOA_BUFFER_SIZE
  {
    if !f.hash then buf else
      var b :=
        if !f.precision && |buf| > 0 && (|buf| == prec || |buf| == width) then
          if |buf| > 1 && base == 16 then buf[..|buf| - 2] else buf[..|buf| - 1]
        else buf;
      var c :=
        if base == 16 then Append(b, if f.upper then 'X' else 'x')
        else if base == 2 then Append(b, 'b')
        else b;
      Append(c, '0')
  }

  function SignChars(negative: bool, f: Flags): string {
    if negative then "-" else if f.plus then "+" else if f.space then " " else ""
  }

  function Signed(buf: string, negative: bool, f: Flags): (s: string)
    requires |buf| <= NTOA_BUFFER_SIZE
    ensures |s| <= NTOA_BUFFER_SIZE
  {
    if |buf| < NTOA_BUFFER_SIZE then buf + SignChars(negative, f) else buf
  }

  // What _out_rev prints.
  function Reversed(buf: string, width: nat, f: Flags): string {
    (if !f.left && !f.zeropad then Spaces(width - |buf|) else "") +
    Reverse(buf) +
    (if f.left then Spaces(width - |buf|) else "")
  }

  // What _ntoa_format prints.
  function Format(buf: string, negative: bool, base: nat, prec: nat, width: nat, f: Flags): string
    requires |buf| <= NTOA_BUFFER_SIZE
  {
    var w := ZeroWidth(width, negative, f);
    Reversed(Signed(Prefixed(Padded(buf, negative, prec, width, f), base, prec, w, f), negative, f), w, f)
  }

  function NtoaDigits(value: nat, base: nat, f: Flags): (s: string)
    requires 2 <= base <= 16
    ensures |s| <= NTOA_BUFFER_SIZE
  {
    if f.precision && value == 0 then "" else Digits(value, base, f.upper, NTOA_BUFFER_SIZE)
  }

  // What _ntoa_long and _ntoa_long_long print.
  function Ntoa(value: nat, negative: bool, base: nat, prec: nat, width: nat, f: Flags): string
    requires 2 <= base <= 16
  {
    var g := if value == 0 then f.(hash := false) else f;
    Format(NtoaDigits(value, base, g), negative, base, prec, width, g)
  }

  // ---- Reading it back ----

  // The number that digits spell, most significant first, or -1 if they are not digits of the base.
  ghost function Read(s: string, base: nat): int {
    if s == "" then 0 else
      var high, d := Read(s[..|s| - 1], base), CharDigit(s[|s| - 1]);
      if high < 0 || d < 0 || d >= base then -1 else high * base + d
  }

  lemma {:induction false} ReverseAppend(s: string, c: char)
    ensures Reverse(s + [c]) == [c] + Reverse(s)
  {
    if s != "" {
      assert (s + [c])[1..] == s[1..] + [c];
      ReverseAppend(s[1..], c);
    }
  }

  lemma {:induction false} ReverseLength(s: string)
    ensures |Reverse(s)| == |s|
  {
    if s != "" {
      ReverseLength(s[1..]);
    }
  }

  lemma {:induction false} ReverseAt(s: string, k: nat)
    requires k < |s|
    ensures |Reverse(s)| == |s| && Reverse(s)[k] == s[|s| - 1 - k]
  {
    ReverseLength(s);
    ReverseLength(s[1..]);
    if k < |s| - 1 {
      ReverseAt(s[1..], k);
    }
  }

  lemma ReverseCons(c: char, s: string)
    ensures Reverse([c] + s) == Reverse(s) + [c]
  {
    assert ([c] + s)[1..] == s;
  }

  lemma ReadAppend(s: string, c: char, base: nat)
    ensures Read(s + [c], base) ==
            if Read(s, base) < 0 || CharDigit(c) < 0 || CharDigit(c) >= base then -1
            else Read(s, base) * base + CharDigit(c)
  {
    assert (s + [c])[..|s|] == s;
  }
}
