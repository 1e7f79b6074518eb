/** What reading a directive yields: the flags, numbers and length modifier that were written. */
module PrintfDirectives {
  import opened Basics
  import opened PrintfFormat
  import opened PrintfModel

  // ---- Numbers ----

  ghost predicate AllDigits(s: string) {
    forall k :: 0 <= k < |s| ==> IsDigit(s[k])
  }

  lemma ReadDigit(s: string, c: char)
    requires IsDigit(c) && Read(s, 10) >= 0
    ensures Read(s + [c], 10) == Read(s, 10) * 10 + (c as int - '0' as int)
  {
    ReadAppend(s, c, 10);
  }

  lemma {:induction false} DigitsSpell(s: string)
    requires AllDigits(s)
    ensures Read(s, 10) >= 0
  {
    if s != "" {
      DigitsSpell(s[..|s| - 1]);
      ReadDigit(s[..|s| - 1], s[|s| - 1]);
      assert s[..|s| - 1] + [s[|s| - 1]] == s;
    }
  }

  lemma NextDigit(value: int, d: int)
    ensures (value % INT_SPAN * 10 + d) % INT_SPAN == (value * 10 + d) % INT_SPAN
  {
  }

  // The digits from i0 to i have been read.
  lemma {:induction false} AtoiFrom(format: string, i0: nat, i: nat)
    requires i0 <= i <= |format| && AllDigits(format[i0..i])
    ensures Read(format[i0..i], 10) >= 0
    ensures var (value, j) := Atoi(format, i, Read(format[i0..i], 10) % INT_SPAN);
            && i <= j <= |format| && AllDigits(format[i0..j]) && !IsDigit(CharAt(format, j))
            && Read(format[i0..j], 10) >= 0 && value == Read(format[i0..j], 10) % INT_SPAN
    decreases |format| - i
  {
    hide Read;
    DigitsSpell(format[i0..i]);
    if i < |format| && IsDigit(format[i]) {
      var s, c := format[i0..i], format[i];
      assert format[i0..i + 1] == s + [c];
      ReadDigit(s, c);
      NextDigit(Read(s, 10), c as int - '0' as int);
      AtoiFrom(format, i0, i + 1);
    }
  }

  /** _atoi takes all the digits there are and yields the number they spell, modulo 2^32. */
  lemma AtoiReads(format: string, i: nat)
    requires i <= |format|
    ensures var (value, j) := Atoi(format, i, 0);
            && i <= j <= |format| && AllDigits(format[i..j]) && !IsDigit(CharAt(format, j))
            && Read(format[i..j], 10) >= 0 && value == Read(format[i..j], 10) % INT_SPAN
  {
    hide Atoi;
    assert format[i..i] == "";
    assert Read("", 10) == 0;
    AtoiFrom(format, i, i);
  }

  // ---- Flags ----

  predicate IsFlag(c: char) {
    c == '0' || c == '-' || c == '+' || c == ' ' || c == '#'
  }

  ghost predicate AllFlags(s: string) {
    forall k :: 0 <= k < |s| ==> IsFlag(s[k])
  }

  function SetFlags(f: Flags, zeropad: bool, left: bool, plus: bool, space: bool, hash: bool): Flags {
    Flags(f.zeropad || zeropad, f.left || left, f.plus || plus, f.space || space, f.hash || hash, f.upper,
          f.chr, f.short, f.long, f.longLong, f.precision)
  }

  function AddFlags(f: Flags, s: string): Flags {
    SetFlags(f, '0' in s, '-' in s, '+' in s, ' ' in s, '#' in s)
  }

  lemma SetTwice(f: Flags, z: bool, l: bool, p: bool, s: bool, h: bool, z': bool, l': bool, p': bool, s': bool,
                 h': bool)
    ensures SetFlags(SetFlags(f, z, l, p, s, h), z', l', p', s', h') ==
            SetFlags(f, z || z', l || l', p || p', s || s', h || h')
  {
  }

  lemma SetOne(f: Flags, c: char)
    requires IsFlag(c)
    ensures WithFlag(f, c) == Some(SetFlags(f, c == '0', c == '-', c == '+', c == ' ', c == '#'))
  {
  }

  lemma AddFlag(f: Flags, c: char, s: string)
    ensures IsFlag(c) <==> WithFlag(f, c).Some?
    ensures IsFlag(c) ==> AddFlags(WithFlag(f, c).value, s) == AddFlags(f, [c] + s)
  {
    hide SetFlags;
    if IsFlag(c) {
      SetOne(f, c);
      SetTwice(f, c == '0', c == '-', c == '+', c == ' ', c == '#', '0' in s, '-' in s, '+' in s, ' ' in s, '#' in s);
      InCons('0', c, s);
      InCons('-', c, s);
      InCons('+', c, s);
      InCons(' ', c, s);
      InCons('#', c, s);
    }
  }

  lemma InCons(x: char, c: char, s: string)
    ensures x in [c] + s <==> x == c || x in s
  {
  }

  lemma AddNoFlags(f: Flags)
    ensures AddFlags(f, "") == f
  {
  }

  /** The flag loop stops at the first character that is no flag, and sets a flag exactly if its character
      occurs before that. */
  lemma {:induction false} FlagsRead(format: string, d: Directive)
    requires d.i <= |format|
    ensures var r := ReadFlags(format, d);
            && d.i <= r.i <= |format| && AllFlags(format[d.i..r.i]) && !IsFlag(CharAt(format, r.i))
            && r == d.(f := AddFlags(d.f, format[d.i..r.i]), i := r.i)
    decreases |format| - d.i
  {
    hide WithFlag, AddFlags;
    AddNoFlags(d.f);
    AddFlag(d.f, CharAt(format, d.i), "");
    if d.i < |format| && IsFlag(format[d.i]) {
      var c := format[d.i];
      var e := d.(f := WithFlag(d.f, c).value, i := d.i + 1);
      FlagsRead(format, e);
      var r := ReadFlags(format, e);
      assert format[d.i..r.i] == [c] + format[e.i..r.i];
      AddFlag(d.f, c, format[e.i..r.i]);
    } else {
      assert format[d.i..d.i] == "";
    }
  }

  // ---- A written directive ----

  datatype Amount = Omitted | Number(digits: string) | FromArgument

  datatype Written = Written(flags: string, width: Amount, point: bool, precision: Amount, length: string,
                             conversion: char)

  predicate IsLength(s: string) {
    s == "" || s == "l" || s == "ll" || s == "h" || s == "hh" || s == "t" || s == "j" || s == "z"
  }

  // A character at which the reading of a directive ends.
  predicate Ends(c: char) {
    !IsFlag(c) && !IsDigit(c) && c != '*' && c != '.' && c != 'l' && c != 'h' && c != 't' && c != 'j' && c != 'z'
  }

  ghost predicate Valid(w: Written) {
    && AllFlags(w.flags)
    && (w.width.Number? ==> w.width.digits != "" && AllDigits(w.width.digits) && w.width.digits[0] != '0')
    && (w.precision.Number? ==> w.precision.digits != "" && AllDigits(w.precision.digits))
    && (w.point || w.precision.Omitted?)
    && IsLength(w.length) && Ends(w.conversion)
  }

  function AmountText(a: Amount): string {
    match a
    case Omitted => ""
    case Number(digits) => digits
    case FromArgument => "*"
  }

  function Tail(w: Written): string {
    w.length + [w.conversion]
  }

  function PrecisionText(w: Written): string {
    if w.point then "." + AmountText(w.precision) else ""
  }

  function PrecisionTail(w: Written): string {
    PrecisionText(w) + Tail(w)
  }

  function WidthTail(w: Written): string {
    AmountText(w.width) + PrecisionTail(w)
  }

  // The directive, behind its percent sign.
  function Text(w: Written): string {
    w.flags + WidthTail(w)
  }

  // ---- What it stands for ----

  function Taken(a: Amount): nat {
    if a.FromArgument? then 1 else 0
  }

  ghost predicate Given(a: Amount, args: seq<Arg>, k: nat) {
    a.FromArgument? ==> IntAt(args, k).Some?
  }

  ghost function Amounts(a: Amount, args: seq<Arg>, k: nat): int
    requires Given(a, args, k)
  {
    match a
    case Omitted => 0
    case Number(digits) => Read(digits, 10) % INT_SPAN
    case FromArgument => AsSigned(args[k].i, INT_SPAN)
  }

  // A negative width means left.
  ghost function AddWidth(d: Directive, width: int): Directive {
    d.(f := d.f.(left := d.f.left || width < 0), width := Abs(width))
  }

  ghost function AddPrecision(d: Directive, point: bool, precision: int): Directive {
    if point then d.(f := d.f.(precision := true), precision := Max(precision, 0)) else d
  }

  function AddLength(f: Flags, length: string): Flags {
    f.(long := length == "l" || length == "ll" || length == "t" || length == "z",
       longLong := length == "ll" || length == "j",
       short := length == "h" || length == "hh",
       chr := length == "hh")
  }

  ghost predicate AllGiven(w: Written, args: seq<Arg>, a: nat) {
    Given(w.width, args, a) && Given(w.precision, args, a + Taken(w.width))
  }

  ghost function Meaning(w: Written, args: seq<Arg>, i: nat, a: nat): Directive
    requires AllGiven(w, args, a)
  {
    var d := Directive(AddFlags(NO_FLAGS, w.flags), 0, 0, i, a + Taken(w.width) + Taken(w.precision));
    var e := AddWidth(d, Amounts(w.width, args, a));
    var g := AddPrecision(e, w.point, Amounts(w.precision, args, a + Taken(w.width)));
    g.(f := AddLength(g.f, w.length))
  }

  // ---- Reading it ----

  ghost predicate At(format: string, i: nat, s: string) {
    i + |s| <= |format| && format[i..i + |s|] == s
  }

  lemma AtSplits(format: string, i: nat, s: string, t: string)
    requires At(format, i, s + t)
    ensures At(format, i, s) && At(format, i + |s|, t)
    ensures t != "" ==> CharAt(format, i + |s|) == t[0]
  {
    var u := format[i..i + |s + t|];
    assert u[..|s|] == s && u[|s|..] == t;
    assert format[i..i + |s|] == u[..|s|];
    assert format[i + |s|..i + |s| + |t|] == u[|s|..];
  }

  lemma AtChars(format: string, i: nat, s: string)
    requires At(format, i, s)
    ensures forall k :: 0 <= k < |s| ==> s[k] == CharAt(format, i + k)
  {
    var u := format[i..i + |s|];
    assert forall k :: 0 <= k < |u| ==> u[k] == CharAt(format, i + k);
  }

  lemma FlagsTaken(format: string, d: Directive, s: string)
    requires At(format, d.i, s) && AllFlags(s) && !IsFlag(CharAt(format, d.i + |s|))
    ensures ReadFlags(format, d) == d.(f := AddFlags(d.f, s), i := d.i + |s|)
  {
    hide ReadFlags, AddFlags, IsFlag;
    FlagsRead(format, d);
    var r := ReadFlags(format, d);
    AtChars(format, d.i, s);
    AtChars(format, d.i, format[d.i..r.i]);
    assert r.i - d.i == |s|;
  }

  lemma NumberTaken(format: string, i: nat, s: string)
    requires At(format, i, s) && AllDigits(s) && !IsDigit(CharAt(format, i + |s|))
    ensures Read(s, 10) >= 0 && Atoi(format, i, 0) == (Read(s, 10) % INT_SPAN, i + |s|)
  {
    hide Atoi, Read, IsDigit;
    AtoiReads(format, i);
    var j := Atoi(format, i, 0).1;
    AtChars(format, i, s);
    AtChars(format, i, format[i..j]);
    assert j - i == |s|;
  }

  lemma WidthTaken(format: string, args: seq<Arg>, d: Directive, a: Amount)
    requires At(format, d.i, AmountText(a)) && (a.Number? ==> a.digits != "" && AllDigits(a.digits))
    requires !IsDigit(CharAt(format, d.i + |AmountText(a)|)) && CharAt(format, d.i + |AmountText(a)|) != '*'
    requires d.width == 0
    ensures ReadWidth(format, args, d) ==
            if Given(a, args, d.a) then
              Some(AddWidth(d, Amounts(a, args, d.a)).(i := d.i + |AmountText(a)|, a := d.a + Taken(a)))
            else None
  {
    hide Atoi, Read, AsSigned;
    match a {
      case Omitted =>
      case Number(digits) =>
        NumberTaken(format, d.i, digits);
        assert CharAt(format, d.i) == digits[0];
      case FromArgument =>
        assert CharAt(format, d.i) == '*';
    }
  }

  lemma PrecisionTaken(format: string, args: seq<Arg>, d: Directive, a: Amount)
    requires At(format, d.i, "." + AmountText(a)) && (a.Number? ==> a.digits != "" && AllDigits(a.digits))
    requires var n := CharAt(format, d.i + 1 + |AmountText(a)|); !IsDigit(n) && n != '*'
    requires d.precision == 0
    ensures ReadPrecision(format, args, d) ==
            if Given(a, args, d.a) then
              Some(AddPrecision(d, true, Amounts(a, args, d.a)).(i := d.i + 1 + |AmountText(a)|, a := d.a + Taken(a)))
            else None
  {
    hide Atoi, Read, AsSigned;
    AtSplits(format, d.i, ".", AmountText(a));
    assert CharAt(format, d.i) == '.';
    match a {
      case Omitted =>
      case Number(digits) =>
        NumberTaken(format, d.i + 1, digits);
        assert CharAt(format, d.i + 1) == digits[0];
      case FromArgument =>
        assert CharAt(format, d.i + 1) == '*';
    }
  }

  lemma LengthTaken(format: string, d: Directive, length: string)
    requires At(format, d.i, length) && IsLength(length) && Ends(CharAt(format, d.i + |length|))
    requires !d.f.long && !d.f.longLong && !d.f.short && !d.f.chr
    ensures ReadLength(format, d) == d.(f := AddLength(d.f, length), i := d.i + |length|)
  {
    if length != "" {
      assert CharAt(format, d.i) == length[0];
      if |length| == 2 {
        assert CharAt(format, d.i + 1) == length[1];
      }
    }
  }

  // What comes next is no part of what was read.
  lemma TailsStart(w: Written)
    requires Valid(w)
    ensures Tail(w) != "" && PrecisionTail(w) != "" && WidthTail(w) != ""
    ensures !IsFlag(Tail(w)[0]) && !IsDigit(Tail(w)[0]) && Tail(w)[0] != '*' && Tail(w)[0] != '.'
    ensures !IsFlag(PrecisionTail(w)[0]) && !IsDigit(PrecisionTail(w)[0]) && PrecisionTail(w)[0] != '*'
    ensures PrecisionTail(w)[0] == '.' <==> w.point
    ensures !IsFlag(WidthTail(w)[0])
  {
  }

  lemma FlagsStage(format: string, w: Written, i: nat, a: nat)
    requires Valid(w) && At(format, i, Text(w))
    ensures ReadFlags(format, Directive(NO_FLAGS, 0, 0, i, a)) ==
            Directive(AddFlags(NO_FLAGS, w.flags), 0, 0, i + |w.flags|, a)
    ensures At(format, i + |w.flags|, WidthTail(w))
  {
    hide AddFlags, ReadFlags, IsFlag, IsDigit, WidthTail;
    TailsStart(w);
    AtSplits(format, i, w.flags, WidthTail(w));
    FlagsTaken(format, Directive(NO_FLAGS, 0, 0, i, a), w.flags);
  }

  lemma WidthStage(format: string, args: seq<Arg>, d: Directive, w: Written)
    requires Valid(w) && At(format, d.i, WidthTail(w)) && d.width == 0
    ensures ReadWidth(format, args, d) ==
            if Given(w.width, args, d.a) then
              Some(AddWidth(d, Amounts(w.width, args, d.a)).
                   (i := d.i + |AmountText(w.width)|, a := d.a + Taken(w.width)))
            else None
    ensures At(format, d.i + |AmountText(w.width)|, PrecisionTail(w))
  {
    hide ReadWidth, IsFlag, IsDigit, PrecisionTail, AmountText, AddWidth, Amounts;
    TailsStart(w);
    AtSplits(format, d.i, AmountText(w.width), PrecisionTail(w));
    WidthTaken(format, args, d, w.width);
  }

  lemma PrecisionStage(format: string, args: seq<Arg>, d: Directive, w: Written)
    requires Valid(w) && At(format, d.i, PrecisionTail(w)) && d.precision == 0
    ensures ReadPrecision(format, args, d) ==
            if Given(w.precision, args, d.a) then
              Some(AddPrecision(d, w.point, Amounts(w.precision, args, d.a)).
                   (i := d.i + |PrecisionText(w)|, a := d.a + Taken(w.precision)))
            else None
    ensures At(format, d.i + |PrecisionText(w)|, Tail(w))
  {
    hide IsFlag, IsDigit, Tail, AmountText, Amounts;
    TailsStart(w);
    AtSplits(format, d.i, PrecisionText(w), Tail(w));
    if w.point {
      hide ReadPrecision;
      PrecisionTaken(format, args, d, w.precision);
    } else {
      AtSplits(format, d.i, "", PrecisionTail(w));
    }
  }

  lemma LengthStage(format: string, d: Directive, w: Written)
    requires Valid(w) && At(format, d.i, Tail(w))
    requires !d.f.long && !d.f.longLong && !d.f.short && !d.f.chr
    ensures ReadLength(format, d) == d.(f := AddLength(d.f, w.length), i := d.i + |w.length|)
    ensures CharAt(format, d.i + |w.length|) == w.conversion
  {
    hide ReadLength, Ends, IsLength, AddLength;
    AtSplits(format, d.i, w.length, [w.conversion]);
    LengthTaken(format, d, w.length);
  }

  lemma NoLengthYet(s: string)
    ensures var f := AddFlags(NO_FLAGS, s); !f.long && !f.longLong && !f.short && !f.chr
  {
  }

  // Where the reading stands does not matter to what the numbers mean.
  lemma AmountsMove(d: Directive, width: int, point: bool, precision: int, i: nat, a: nat)
    requires !d.f.long && !d.f.longLong && !d.f.short && !d.f.chr && d.precision == 0
    ensures var e := AddWidth(d, width);
            && e.precision == 0 && e.i == d.i && e.a == d.a
            && !e.f.long && !e.f.longLong && !e.f.short && !e.f.chr
    ensures var e := AddWidth(d.(i := i, a := a), width);
            e == AddWidth(d, width).(i := i, a := a)
    ensures var e := AddPrecision(d, point, precision);
            && e.i == d.i && e.a == d.a
            && !e.f.long && !e.f.longLong && !e.f.short && !e.f.chr
    ensures AddPrecision(d.(i := i, a := a), point, precision) == AddPrecision(d, point, precision).(i := i, a := a)
  {
  }

  lemma {:induction false} ReadsBackAt(format: string, i: nat, w: Written, args: seq<Arg>, a: nat)
    requires Valid(w) && At(format, i, Text(w))
    ensures CharAt(format, i + |Text(w)| - 1) == w.conversion
    ensures ReadDirective(format, args, i, a) ==
            if AllGiven(w, args, a) then Some(Meaning(w, args, i + |Text(w)| - 1, a)) else None
  {
    hide AddFlags, ReadFlags, ReadWidth, ReadPrecision, ReadLength, AddWidth, AddPrecision, AddLength, Amounts, At,
         Valid, Given;
    EndsAt(format, i, w);
    var d := Directive(AddFlags(NO_FLAGS, w.flags), 0, 0, i + |w.flags|, a);
    FlagsStage(format, w, i, a);
    NoLengthYet(w.flags);
    WidthStage(format, args, d, w);
    if Given(w.width, args, a) {
      var width := Amounts(w.width, args, a);
      var j, b := d.i + |AmountText(w.width)|, a + Taken(w.width);
      var e := AddWidth(d, width);
      AmountsMove(d, width, false, 0, j, b);
      PrecisionStage(format, args, e.(i := j, a := b), w);
      if Given(w.precision, args, b) {
        var precision := Amounts(w.precision, args, b);
        var k, c, end := j + |PrecisionText(w)|, b + Taken(w.precision), i + |Text(w)| - 1;
        var g := AddPrecision(e, w.point, precision);
        AmountsMove(e, 0, w.point, precision, j, b);
        LengthStage(format, g.(i := k, a := c), w);
        AmountsMove(d, width, w.point, precision, end, c);
        AmountsMove(e, 0, w.point, precision, end, c);
      }
    }
  }

  lemma EndsAt(format: string, i: nat, w: Written)
    requires At(format, i, Text(w))
    ensures CharAt(format, i + |Text(w)| - 1) == w.conversion
  {
    hide AmountText;
    assert Text(w)[|Text(w)| - 1] == w.conversion;
  }

  lemma Middle(before: string, s: string, after: string)
    ensures At(before + s + after, |before|, s)
  {
  }

  lemma TextNotEmpty(w: Written)
    ensures |Text(w)| >= 1
  {
  }

  lemma FlagsMean(w: Written, args: seq<Arg>, i: nat, a: nat)
    requires AllGiven(w, args, a)
    ensures var d := Meaning(w, args, i, a);
            && d.f.zeropad == ('0' in w.flags) && d.f.plus == ('+' in w.flags)
            && d.f.space == (' ' in w.flags) && d.f.hash == ('#' in w.flags)
            && d.f.left == ('-' in w.flags || Amounts(w.width, args, a) < 0)
            && d.f.precision == w.point && !d.f.upper && d.i == i
            && d.a == a + Taken(w.width) + Taken(w.precision)
  {
    hide Amounts;
  }

  lemma LengthMeans(w: Written, args: seq<Arg>, i: nat, a: nat)
    requires AllGiven(w, args, a)
    ensures var f, l := Meaning(w, args, i, a).f, w.length;
            && f.long == (l == "l" || l == "ll" || l == "t" || l == "z") && f.longLong == (l == "ll" || l == "j")
            && f.short == (l == "h" || l == "hh") && f.chr == (l == "hh")
  {
    hide Amounts, AddFlags, AddWidth, AddPrecision;
  }

  lemma NumbersMean(w: Written, args: seq<Arg>, i: nat, a: nat)
    requires AllGiven(w, args, a)
    ensures var d := Meaning(w, args, i, a);
            && d.width == Abs(Amounts(w.width, args, a))
            && d.precision == if w.point then Max(Amounts(w.precision, args, a + Taken(w.width)), 0) else 0
  {
    hide Amounts, AddFlags, AddLength;
  }

  /** A written directive reads back as it was meant, up to its conversion; it fails exactly if an argument
      that it takes is missing. */
  lemma DirectiveReadsBack(before: string, w: Written, after: string, args: seq<Arg>, a: nat)
    requires Valid(w)
    ensures var r := ReadDirective(before + Text(w) + after, args, |before|, a);
            var b := if w.width.FromArgument? then a + 1 else a;
            (r.Some? <==> (w.width.FromArgument? ==> a < |args| && args[a].Int?) &&
                          (w.precision.FromArgument? ==> b < |args| && args[b].Int?))
            && (r.Some? ==>
                  var d, l := r.value, w.length;
                  var width := match w.width
                    case Omitted => 0
                    case Number(digits) => Read(digits, 10) % 0x1_0000_0000
                    case FromArgument => AsSigned(args[a].i, 0x1_0000_0000);
                  var precision := match w.precision
                    case Omitted => 0
                    case Number(digits) => Read(digits, 10) % 0x1_0000_0000
                    case FromArgument => AsSigned(args[b].i, 0x1_0000_0000);
                  && d.i == |before| + |Text(w)| - 1 && CharAt(before + Text(w) + after, d.i) == w.conversion
                  && d.a == (if w.precision.FromArgument? then b + 1 else b)
                  && d.f.zeropad == ('0' in w.flags) && d.f.plus == ('+' in w.flags)
                  && d.f.space == (' ' in w.flags) && d.f.hash == ('#' in w.flags)
                  && d.f.left == ('-' in w.flags || width < 0) && d.width == Abs(width)
                  && d.f.precision == w.point && d.precision == (if w.point then Max(precision, 0) else 0)
                  && d.f.long == (l == "l" || l == "ll" || l == "t" || l == "z")
                  && d.f.longLong == (l == "ll" || l == "j") && d.f.short == (l == "h" || l == "hh")
                  && d.f.chr == (l == "hh") && !d.f.upper)
  {
    hide Text, ReadDirective, Meaning, Valid, Read, AsSigned;
    TextNotEmpty(w);
    Middle(before, Text(w), after);
    ReadsBackAt(before + Text(w) + after, |before|, w, args, a);
    if AllGiven(w, args, a) {
      var end := |before| + |Text(w)| - 1;
      FlagsMean(w, args, end, a);
      LengthMeans(w, args, end, a);
      NumbersMean(w, args, end, a);
    }
  }

  // ---- The whole format ----

  // A text, and behind it what the rest of the format prints.
  function Joined(s: string, rest: Option<string>): Option<string> {
    match rest
    case None => None
    case Some(text) => Some(s + text)
  }

  /** What is no percent sign is printed as it is. */
  lemma {:induction false} PlainCopied(format: string, i: nat, j: nat, args: seq<Arg>, a: nat)
    requires i <= j <= |format| && '%' !in format[i..j]
    ensures Render(format, i, args, a) == Joined(format[i..j], Render(format, j, args, a))
    decreases j - i
  {
    hide ReadAndConvert;
    if i < j {
      assert format[i..j] == [format[i]] + format[i + 1..j];
      PlainCopied(format, i + 1, j, args, a);
      PrependsTwice([format[i]], format[i + 1..j], Render(format, j, args, a));
    } else {
      assert format[i..j] == "";
      JoinsNothing(Render(format, j, args, a));
    }
  }

  lemma PrependsTwice(s: string, t: string, rest: Option<string>)
    ensures Joined(s, Joined(t, rest)) == Joined(s + t, rest)
  {
    if rest.Some? {
      assert s + (t + rest.value) == s + t + rest.value;
    }
  }

  lemma JoinsNothing(rest: Option<string>)
    ensures Joined("", rest) == rest
  {
    if rest.Some? {
      assert "" + rest.value == rest.value;
    }
  }

  /** A directive prints what its conversion makes of the argument behind those of width and precision; a character
      that is no conversion, a second percent sign among them, prints itself and takes no argument. */
  lemma DirectivePrints(before: string, w: Written, after: string, args: seq<Arg>, a: nat, d: Directive)
    requires Valid(w) && ReadDirective(before + "%" + Text(w) + after, args, |before| + 1, a) == Some(d)
    ensures var format, c, next := before + "%" + Text(w) + after, w.conversion, |before| + 1 + |Text(w)|;
            var printed := Render(format, |before|, args, a);
            && (c in "diuxXob" ==>
                  printed ==
                  if d.a < |args| && args[d.a].Int?
                  then Joined(IntegerText(args[d.a].i, d, c), Render(format, next, args, d.a + 1)) else None)
            && (c == 'c' ==>
                  printed ==
                  if d.a < |args| && args[d.a].Int?
                  then Joined(Field([(args[d.a].i % 256) as char], d.width, d.f.left),
                              Render(format, next, args, d.a + 1)) else None)
            && (c == 's' ==>
                  printed ==
                  if d.a < |args| && args[d.a].Str?
                  then var s := args[d.a].s;
                       var n := if d.f.precision then Min(d.precision, |s|) else |s|;
                       Joined(Field(s[..n], d.width, d.f.left), Render(format, next, args, d.a + 1)) else None)
            && (c == 'p' ==>
                  printed ==
                  if d.a < |args| && args[d.a].Int?
                  then Joined(PointerText(args[d.a].i, d), Render(format, next, args, d.a + 1)) else None)
            && (c !in "diuxXobcsp" ==> printed == Joined([c], Render(format, next, args, d.a)))
  {
    hide Text, ReadDirective, Valid, IntegerText, PointerText, Field;
    var format := before + "%" + Text(w) + after;
    assert format == (before + "%") + Text(w) + after;
    DirectiveReadsBack(before + "%", w, after, args, a);
    assert format[|before|] == '%';
    if d.a < |args| && args[d.a].Str? {
      assert args[d.a].s[..|args[d.a].s|] == args[d.a].s;
    }
  }
}
