/** The printf engine, writing into a buffer of maxlen characters. */
module Printf {
  import opened Basics
  import opened PrintfModel
  import opened PrintfFormat

  // The buffer with s written from idx on, as far as maxlen.
  ghost function Put(b: seq<char>, idx: nat, s: string, maxlen: nat): seq<char> {
    seq(|b|, k requires 0 <= k < |b| => if idx <= k < idx + |s| && k < maxlen then s[k - idx] else b[k])
  }

  lemma PutNothing(b: seq<char>, idx: nat, maxlen: nat)
    ensures Put(b, idx, "", maxlen) == b
  {
  }

  lemma PutTwice(b: seq<char>, idx: nat, s: string, t: string, maxlen: nat)
    ensures Put(Put(b, idx, s, maxlen), idx + |s|, t, maxlen) == Put(b, idx, s + t, maxlen)
  {
  }

  // _out_buffer
  method OutBuffer(c: char, buffer: array<char>, idx: nat, maxlen: nat)
    requires maxlen <= buffer.Length
    modifies buffer
    ensures buffer[..] == Put(old(buffer[..]), idx, [c], maxlen)
  {
    if idx < maxlen {
      buffer[idx] := c;
    }
  }

  // Blanks until i reaches width.
  method Pad(buffer: array<char>, idx: nat, maxlen: nat, i: nat, width: nat) returns (next: nat)
    requires maxlen <= buffer.Length
    modifies buffer
    ensures next == idx + |Spaces(width - i)|
    ensures buffer[..] == Put(old(buffer[..]), idx, Spaces(width - i), maxlen)
  {
    hide Put, Spaces;
    ghost var b := buffer[..];
    next := idx;
    var l := i;
    SpacesUnfold(0);
    PutNothing(b, idx, maxlen);
    while l < width
      invariant i <= l && (l <= width || l == i)
      invariant next == idx + |Spaces(l - i)|
      invariant buffer[..] == Put(b, idx, Spaces(l - i), maxlen)
      decreases width - l
    {
      SpacesUnfold(l + 1 - i);
      PutTwice(b, idx, Spaces(l - i), " ", maxlen);
      OutBuffer(' ', buffer, next, maxlen);
      next := next + 1;
      l := l + 1;
    }
    if width < i {
      SpacesUnfold(width - i);
    }
  }

  lemma SpacesUnfold(n: int)
    ensures Spaces(n) == if n <= 0 then "" else Spaces(n - 1) + " "
  {
  }

  // _out_rev
  method OutRev(buffer: array<char>, idx: nat, maxlen: nat, buf: array<char>, len: nat, width: nat,
                f: Flags)
    returns (next: nat)
    requires maxlen <= buffer.Length && len <= buf.Length && buf != buffer
    modifies buffer
    ensures next == idx + |Reversed(buf[..len], width, f)|
    ensures buffer[..] == Put(old(buffer[..]), idx, Reversed(buf[..len], width, f), maxlen)
  {
    hide Put, Spaces, Reverse;
    ghost var b, s := buffer[..], buf[..len];
    ghost var lead := if !f.left && !f.zeropad then Spaces(width - len) else "";
    next := idx;
    PutNothing(b, idx, maxlen);
    if !f.left && !f.zeropad {
      next := Pad(buffer, idx, maxlen, len, width);
    }
    var l := len;
    ReverseUnfold(s[len..]);
    assert lead + Reverse(s[len..]) == lead;
    while l > 0
      invariant l <= len && buf[..len] == s
      invariant next == idx + |lead + Reverse(s[l..])|
      invariant buffer[..] == Put(b, idx, lead + Reverse(s[l..]), maxlen)
    {
      l := l - 1;
      ReverseUnfold(s[l..]);
      assert s[l..][1..] == s[l + 1..];
      PutTwice(b, idx, lead + Reverse(s[l + 1..]), [s[l]], maxlen);
      assert lead + Reverse(s[l..]) == lead + Reverse(s[l + 1..]) + [s[l]];
      OutBuffer(buf[l], buffer, next, maxlen);
      next := next + 1;
    }
    assert s[0..] == s;
    ReverseLength(s);
    if f.left {
      PutTwice(b, idx, lead + Reverse(s), Spaces(width - len), maxlen);
      next := Pad(buffer, next, maxlen, next - idx, width);
    } else {
      assert lead + Reverse(s) + "" == lead + Reverse(s);
    }
    assert Reversed(s, width, f) == lead + Reverse(s) + if f.left then Spaces(width - len) else "";
  }

  lemma ReverseUnfold(s: string)
    ensures Reverse(s) == if s == "" then "" else Reverse(s[1..]) + [s[0]]
  {
  }

  // Zeros up to length n, as long as they fit.
  method FillZeros(buf: array<char>, len: nat, n: nat) returns (len': nat)
    requires buf.Length == NTOA_BUFFER_SIZE && len <= NTOA_BUFFER_SIZE
    modifies buf
    ensures len' <= NTOA_BUFFER_SIZE && buf[..len'] == ZeroFill(old(buf[..len]), n)
  {
    len' := len;
    while len' < n && len' < NTOA_BUFFER_SIZE
      invariant len <= len' <= NTOA_BUFFER_SIZE
      invariant ZeroFill(buf[..len'], n) == ZeroFill(old(buf[..len]), n)
    {
      ghost var b := buf[..len'];
      buf[len'] := '0';
      assert buf[..len' + 1] == b + "0";
      len' := len' + 1;
    }
  }

  method AppendChar(buf: array<char>, len: nat, c: char) returns (len': nat)
    requires buf.Length == NTOA_BUFFER_SIZE && len <= NTOA_BUFFER_SIZE
    modifies buf
    ensures len' <= NTOA_BUFFER_SIZE && buf[..len'] == Append(old(buf[..len]), c)
  {
    len' := len;
    if len < NTOA_BUFFER_SIZE {
      buf[len] := c;
      len' := len + 1;
    }
  }

  // The # prefix.
  method AddPrefix(buf: array<char>, len: nat, base: nat, prec: nat, width: nat, f: Flags) returns (len': nat)
    requires buf.Length == NTOA_BUFFER_SIZE && len <= NTOA_BUFFER_SIZE
    modifies buf
    ensures len' <= NTOA_BUFFER_SIZE && buf[..len'] == Prefixed(old(buf[..len]), base, prec, width, f)
  {
    hide Append;
    len' := len;
    if f.hash {
      ghost var b := buf[..len];
      if !f.precision && len' > 0 && (len' == prec || len' == width) {
        len' := len' - 1;
        if len' > 0 && base == 16 {
          len' := len' - 1;
        }
      }
      assert buf[..len'] == b[..len'];
      if base == 16 && !f.upper {
        len' := AppendChar(buf, len', 'x');
      } else if base == 16 && f.upper {
        len' := AppendChar(buf, len', 'X');
      } else if base == 2 {
        len' := AppendChar(buf, len', 'b');
      }
      len' := AppendChar(buf, len', '0');
    }
  }

  method AddSign(buf: array<char>, len: nat, negative: bool, f: Flags) returns (len': nat)
    requires buf.Length == NTOA_BUFFER_SIZE && len <= NTOA_BUFFER_SIZE
    modifies buf
    ensures len' <= NTOA_BUFFER_SIZE && buf[..len'] == Signed(old(buf[..len]), negative, f)
  {
    len' := len;
    if len < NTOA_BUFFER_SIZE {
      if negative {
        buf[len'] := '-';
        len' := len' + 1;
      } else if f.plus {
        buf[len'] := '+';
        len' := len' + 1;
      } else if f.space {
        buf[len'] := ' ';
        len' := len' + 1;
      }
    }
  }

  // _ntoa_format
  method NtoaFormat(buffer: array<char>, idx: nat, maxlen: nat, buf: array<char>, len: nat, negative: bool,
                    base: nat, prec: nat, width: nat, f: Flags) returns (next: nat)
    requires maxlen <= buffer.Length && buf.Length == NTOA_BUFFER_SIZE && len <= NTOA_BUFFER_SIZE && buf != buffer
    modifies buffer, buf
    ensures var s := Format(old(buf[..len]), negative, base, prec, width, f);
            next == idx + |s| && buffer[..] == Put(old(buffer[..]), idx, s, maxlen)
  {
    hide Put, Reversed, Signed, Prefixed, ZeroFill;
    ghost var b, digits := buffer[..], buf[..len];
    var w, l := width, len;
    if !f.left {
      if w > 0 && f.zeropad && (negative || f.plus || f.space) {
        w := w - 1;
      }
      l := FillZeros(buf, l, prec);
      if f.zeropad {
        l := FillZeros(buf, l, w);
      }
    }
    assert w == ZeroWidth(width, negative, f);
    assert buf[..l] == Padded(digits, negative, prec, width, f);
    l := AddPrefix(buf, l, base, prec, w, f);
    l := AddSign(buf, l, negative, f);
    assert buffer[..] == b;
    next := OutRev(buffer, idx, maxlen, buf, l, w, f);
  }

  // _ntoa_long and _ntoa_long_long
  method NtoaLong(buffer: array<char>, idx: nat, maxlen: nat, value: nat, negative: bool,
                  base: nat, prec: nat, width: nat, f: Flags) returns (next: nat)
    requires maxlen <= buffer.Length && 2 <= base <= 16
    modifies buffer
    ensures var s := Ntoa(value, negative, base, prec, width, f);
            next == idx + |s| && buffer[..] == Put(old(buffer[..]), idx, s, maxlen)
  {
    hide Put, Format, Digits, DigitChar;
    var g := if value == 0 then f.(hash := false) else f;
    var buf := new char[NTOA_BUFFER_SIZE];
    var len := 0;
    if !g.precision || value != 0 {
      len := WriteDigits(buf, value, base, g.upper);
    }
    assert buf[..len] == NtoaDigits(value, base, g);
    next := NtoaFormat(buffer, idx, maxlen, buf, len, negative, base, prec, width, g);
  }

  // What is printed of value once room characters are left, value 0 having been printed already.
  ghost function Rest(value: nat, base: nat, upper: bool, room: nat): string
    requires 2 <= base <= 16
  {
    if value == 0 then "" else Digits(value, base, upper, room)
  }

  method WriteDigits(buf: array<char>, value0: nat, base: nat, upper: bool) returns (len: nat)
    requires buf.Length == NTOA_BUFFER_SIZE && 2 <= base <= 16
    modifies buf
    ensures len <= NTOA_BUFFER_SIZE && buf[..len] == Digits(value0, base, upper, NTOA_BUFFER_SIZE)
  {
    hide Digits, Rest;
    ghost var digits := Digits(value0, base, upper, NTOA_BUFFER_SIZE);
    var value: nat := WriteDigit(buf, 0, value0, base, upper);
    len := 1;
    while value != 0 && len < NTOA_BUFFER_SIZE
      invariant 1 <= len <= NTOA_BUFFER_SIZE
      invariant digits == buf[..len] + Rest(value, base, upper, NTOA_BUFFER_SIZE - len)
      decreases NTOA_BUFFER_SIZE - len
    {
      RestIsDigits(value, base, upper, NTOA_BUFFER_SIZE - len);
      value := WriteDigit(buf, len, value, base, upper);
      len := len + 1;
    }
    NoRest(value, base, upper, NTOA_BUFFER_SIZE - len);
  }

  // Writes the last digit of value and yields the number left.
  method WriteDigit(buf: array<char>, len: nat, value: nat, base: nat, upper: bool) returns (value': nat)
    requires buf.Length == NTOA_BUFFER_SIZE && len < NTOA_BUFFER_SIZE && 2 <= base <= 16
    modifies buf
    ensures old(buf[..len]) + Digits(value, base, upper, NTOA_BUFFER_SIZE - len) ==
            buf[..len + 1] + Rest(value', base, upper, NTOA_BUFFER_SIZE - (len + 1))
  {
    hide Digits, DigitChar, Rest;
    DivisionFits(value, base);
    DigitsIsDigitAndRest(value, base, upper, NTOA_BUFFER_SIZE - len);
    ghost var b := buf[..len];
    buf[len] := DigitChar(value % base, upper);
    value' := value / base;
    assert buf[..len + 1] == b + [DigitChar(value % base, upper)];
  }

  lemma DigitsIsDigitAndRest(value: nat, base: nat, upper: bool, room: nat)
    requires 2 <= base <= 16 && room > 0 && value / base >= 0 && 0 <= value % base < base
    ensures Digits(value, base, upper, room) ==
            [DigitChar(value % base, upper)] + Rest(value / base, base, upper, room - 1)
  {
    hide DigitChar;
  }

  lemma RestIsDigits(value: nat, base: nat, upper: bool, room: nat)
    requires 2 <= base <= 16 && value != 0
    ensures Rest(value, base, upper, room) == Digits(value, base, upper, room)
  {
    hide Digits;
  }

  lemma NoRest(value: nat, base: nat, upper: bool, room: nat)
    requires 2 <= base <= 16 && (value == 0 || room == 0)
    ensures Rest(value, base, upper, room) == ""
  {
  }

  lemma DivisionFits(x: nat, base: nat)
    requires base > 0
    ensures x / base >= 0 && 0 <= x % base < base
  {
  }

  // ---- Reading a directive ----

  method EvalFlags(format: string, i0: nat, ghost a: nat) returns (f: Flags, i: nat)
    ensures Directive(f, 0, 0, i, a) == ReadFlags(format, Directive(NO_FLAGS, 0, 0, i0, a))
  {
    hide WithFlag;
    NulIsNoFlag();
    f, i := NO_FLAGS, i0;
    while true
      invariant ReadFlags(format, Directive(f, 0, 0, i, a)) == ReadFlags(format, Directive(NO_FLAGS, 0, 0, i0, a))
      decreases |format| - i
    {
      match WithFlag(f, CharAt(format, i)) {
        case Some(g) =>
          FlagInside(format, f, i);
          f, i := g, i + 1;
        case None =>
          return;
      }
    }
  }

  lemma NulIsNoFlag()
    ensures forall f :: WithFlag(f, '\0') == None
  {
  }

  lemma FlagInside(format: string, f: Flags, i: nat)
    requires WithFlag(f, CharAt(format, i)).Some?
    ensures i < |format|
  {
  }

  // _atoi
  method EvalAtoi(format: string, i0: nat) returns (value: nat, i: nat)
    ensures (value, i) == Atoi(format, i0, 0)
  {
    value, i := 0, i0;
    while i < |format| && IsDigit(format[i])
      invariant Atoi(format, i, value) == Atoi(format, i0, 0)
      decreases |format| - i
    {
      value, i := (value * 10 + (format[i] as int - '0' as int)) % INT_SPAN, i + 1;
    }
  }

  method EvalWidth(format: string, args: seq<Arg>, d0: Directive) returns (d: Directive)
    requires ReadWidth(format, args, d0).Some?
    ensures d == ReadWidth(format, args, d0).value
  {
    hide Atoi, AsSigned;
    d := d0;
    if IsDigit(CharAt(format, d.i)) {
      var n, i := EvalAtoi(format, d.i);
      d := d.(width := n, i := i);
    } else if CharAt(format, d.i) == '*' {
      var w := AsSigned(args[d.a].i, INT_SPAN);
      if w < 0 {
        d := d.(f := d.f.(left := true), width := -w);
      } else {
        d := d.(width := w);
      }
      d := d.(i := d.i + 1, a := d.a + 1);
    }
  }

  method EvalPrecision(format: string, args: seq<Arg>, d0: Directive) returns (d: Directive)
    requires ReadPrecision(format, args, d0).Some?
    ensures d == ReadPrecision(format, args, d0).value
  {
    hide Atoi, AsSigned;
    d := d0;
    if CharAt(format, d.i) == '.' {
      d := d.(f := d.f.(precision := true), i := d.i + 1);
      if IsDigit(CharAt(format, d.i)) {
        var n, i := EvalAtoi(format, d.i);
        d := d.(precision := n, i := i);
      } else if CharAt(format, d.i) == '*' {
        var prec := AsSigned(args[d.a].i, INT_SPAN);
        d := d.(precision := if prec > 0 then prec else 0, i := d.i + 1, a := d.a + 1);
      }
    }
  }

  method EvalLength(format: string, d0: Directive) returns (d: Directive)
    ensures d == ReadLength(format, d0)
  {
    d := d0;
    match CharAt(format, d.i) {
      case 'l' =>
        d := d.(f := d.f.(long := true), i := d.i + 1);
        if CharAt(format, d.i) == 'l' {
          d := d.(f := d.f.(longLong := true), i := d.i + 1);
        }
      case 'h' =>
        d := d.(f := d.f.(short := true), i := d.i + 1);
        if CharAt(format, d.i) == 'h' {
          d := d.(f := d.f.(chr := true), i := d.i + 1);
        }
      case 't' => d := d.(f := d.f.(long := true), i := d.i + 1);
      case 'j' => d := d.(f := d.f.(longLong := true), i := d.i + 1);
      case 'z' => d := d.(f := d.f.(long := true), i := d.i + 1);
      case _ =>
    }
  }

  method EvalDirective(format: string, args: seq<Arg>, i0: nat, a0: nat) returns (d: Directive)
    requires ReadDirective(format, args, i0, a0).Some?
    ensures d == ReadDirective(format, args, i0, a0).value
  {
    hide ReadFlags, ReadWidth, ReadPrecision, ReadLength;
    var f, i := EvalFlags(format, i0, a0);
    d := Directive(f, 0, 0, i, a0);
    d := EvalWidth(format, args, d);
    d := EvalPrecision(format, args, d);
    d := EvalLength(format, d);
  }

  // ---- Converting ----

  method OutChars(s: string, buffer: array<char>, idx: nat, maxlen: nat) returns (next: nat)
    requires maxlen <= buffer.Length
    modifies buffer
    ensures next == idx + |s| && buffer[..] == Put(old(buffer[..]), idx, s, maxlen)
  {
    hide Put;
    ghost var b := buffer[..];
    PutNothing(b, idx, maxlen);
    next := idx;
    var k := 0;
    while k < |s|
      invariant 0 <= k <= |s| && next == idx + k
      invariant buffer[..] == Put(b, idx, s[..k], maxlen)
    {
      PutTwice(b, idx, s[..k], [s[k]], maxlen);
      assert s[..k + 1] == s[..k] + [s[k]];
      OutBuffer(s[k], buffer, next, maxlen);
      next, k := next + 1, k + 1;
    }
    assert s[..k] == s;
  }

  // A text of length l in its field, as for %c and %s.
  method OutField(text: string, width: nat, left: bool, buffer: array<char>, idx: nat, maxlen: nat) returns (next: nat)
    requires maxlen <= buffer.Length
    modifies buffer
    ensures next == idx + |Field(text, width, left)|
    ensures buffer[..] == Put(old(buffer[..]), idx, Field(text, width, left), maxlen)
  {
    hide Put, Spaces;
    ghost var b := buffer[..];
    next := idx;
    if !left {
      next := Pad(buffer, next, maxlen, |text|, width);
      PutTwice(b, idx, Spaces(width - |text|), text, maxlen);
    }
    next := OutChars(text, buffer, next, maxlen);
    if left {
      PutTwice(b, idx, text, Spaces(width - |text|), maxlen);
      next := Pad(buffer, next, maxlen, |text|, width);
    }
  }

  // What va_arg and the casts make of the argument.
  method TakeInteger(n: int, f: Flags, c: char) returns (value: int)
    requires IsInteger(c)
    ensures value == IntegerValue(n, f, c)
  {
    hide AsSigned;
    if c == 'i' || c == 'd' {
      if f.longLong {
        value := AsSigned(n, LONG_LONG_SPAN);
      } else if f.long {
        value := AsSigned(n, INT_SPAN);
      } else {
        value := if f.chr then n % 256 else if f.short then AsSigned(n, 65536) else AsSigned(n, INT_SPAN);
      }
    } else {
      if f.longLong {
        value := n % LONG_LONG_SPAN;
      } else if f.long {
        value := n % INT_SPAN;
      } else {
        value := if f.chr then n % 256 else if f.short then n % 65536 else n % INT_SPAN;
      }
    }
  }

  method OutInteger(n: int, d: Directive, c: char, buffer: array<char>, idx: nat, maxlen: nat) returns (next: nat)
    requires maxlen <= buffer.Length && IsInteger(c)
    modifies buffer
    ensures next == idx + |IntegerText(n, d, c)|
    ensures buffer[..] == Put(old(buffer[..]), idx, IntegerText(n, d, c), maxlen)
  {
    hide Put, Ntoa, IntegerValue;
    var base := if c == 'x' || c == 'X' then 16 else if c == 'o' then 8 else if c == 'b' then 2 else 10;
    var f := if base == 10 then d.f.(hash := false) else d.f;
    f := if c == 'X' then f.(upper := true) else f;
    f := if c == 'i' || c == 'd' then f else f.(plus := false, space := false);
    f := if f.precision then f.(zeropad := false) else f;
    var value := TakeInteger(n, d.f, c);
    var magnitude := if value > 0 then value else 0 - value;
    next := NtoaLong(buffer, idx, maxlen, magnitude, value < 0, base, d.precision, d.width, f);
  }

  method OutConversion(format: string, args: seq<Arg>, d: Directive, buffer: array<char>, idx: nat, maxlen: nat)
    returns (next: nat, a: nat)
    requires maxlen <= buffer.Length && Convert(format, args, d).Some?
    modifies buffer
    ensures var (text, b) := Convert(format, args, d).value;
            next == idx + |text| && a == b && buffer[..] == Put(old(buffer[..]), idx, text, maxlen)
  {
    hide Put, IntegerText, PointerText, Field;
    var c := CharAt(format, d.i);
    a := d.a;
    if IsInteger(c) {
      next := OutInteger(args[a].i, d, c, buffer, idx, maxlen);
      a := a + 1;
    } else if c == 'c' {
      next := OutField([(args[a].i % 256) as char], d.width, d.f.left, buffer, idx, maxlen);
      a := a + 1;
    } else if c == 's' {
      next := OutField(Clip(args[a].s, d), d.width, d.f.left, buffer, idx, maxlen);
      a := a + 1;
    } else if c == 'p' {
      next := OutPointer(args[a].i, d, buffer, idx, maxlen);
      a := a + 1;
    } else {
      OutBuffer(c, buffer, idx, maxlen);
      next := idx + 1;
    }
  }

  method OutPointer(n: int, d: Directive, buffer: array<char>, idx: nat, maxlen: nat) returns (next: nat)
    requires maxlen <= buffer.Length
    modifies buffer
    ensures next == idx + |PointerText(n, d)|
    ensures buffer[..] == Put(old(buffer[..]), idx, PointerText(n, d), maxlen)
  {
    hide Put, Ntoa;
    var f := d.f.(zeropad := true, upper := true);
    next := NtoaLong(buffer, idx, maxlen, n % INT_SPAN, false, 16, d.precision, 8, f);
  }

  // ---- The engine ----

  /** Prints the format into the first count characters of buffer and yields how many characters the
      whole text has. What ends up in the buffer is a prefix of that text and a NUL. */
  method Vsnprintf(buffer: array<char>, count: nat, format: string, args: seq<Arg>) returns (n: nat)
    requires count <= buffer.Length && Render(format, 0, args, 0).Some?
    requires '\0' !in format && forall a :: a in args && a.Str? ==> '\0' !in a.s
    modifies buffer
    ensures var text := Render(format, 0, args, 0).value;
            && n == |text|
            && (count > 0 ==>
                  var m := if n < count then n else count - 1;
                  && buffer[..m] == text[..m] && buffer[m] == '\0'
                  && forall k :: m < k < buffer.Length ==> buffer[k] == old(buffer[k]))
            && (count == 0 ==> buffer[..] == old(buffer[..]))
  {
    hide Put, Render, ReadAndConvert, Convert, ReadDirective;
    ghost var b, text := buffer[..], Render(format, 0, args, 0).value;
    ghost var done := "";
    var i, a, idx := 0, 0, 0;
    PutNothing(b, 0, count);
    while i < |format|
      invariant Render(format, i, args, a).Some? && text == done + Render(format, i, args, a).value
      invariant idx == |done| && buffer[..] == Put(b, 0, done, count)
      decreases |format| - i
    {
      if format[i] != '%' {
        RenderPlain(format, i, args, a);
        PutTwice(b, 0, done, [format[i]], count);
        OutBuffer(format[i], buffer, idx, count);
        done := done + [format[i]];
        idx, i := idx + 1, i + 1;
      } else {
        RenderDirective(format, i, args, a);
        var d := EvalDirective(format, args, i + 1, a);
        ghost var s := Convert(format, args, d).value.0;
        PutTwice(b, 0, done, s, count);
        idx, a := OutConversion(format, args, d, buffer, idx, count);
        done := done + s;
        i := d.i + 1;
      }
    }
    RenderEnd(format, i, args, a);
    assert done == text;
    PutEnd(b, text, count);
    if count > 0 {
      OutBuffer('\0', buffer, if idx < count then idx else count - 1, count);
    }
    n := idx;
  }

  lemma RenderPlain(format: string, i: nat, args: seq<Arg>, a: nat)
    requires i < |format| && format[i] != '%' && Render(format, i, args, a).Some?
    ensures Render(format, i + 1, args, a).Some?
    ensures Render(format, i, args, a).value == [format[i]] + Render(format, i + 1, args, a).value
  {
  }

  lemma RenderDirective(format: string, i: nat, args: seq<Arg>, a: nat)
    requires i < |format| && format[i] == '%' && Render(format, i, args, a).Some?
    ensures ReadDirective(format, args, i + 1, a).Some?
    ensures var d := ReadDirective(format, args, i + 1, a).value;
            && d.i >= i + 1 && Convert(format, args, d).Some?
            && Render(format, d.i + 1, args, Convert(format, args, d).value.1).Some?
            && Render(format, i, args, a).value ==
               Convert(format, args, d).value.0 + Render(format, d.i + 1, args, Convert(format, args, d).value.1).value
  {
    hide ReadDirective, Convert;
  }

  lemma RenderEnd(format: string, i: nat, args: seq<Arg>, a: nat)
    requires i >= |format|
    ensures Render(format, i, args, a) == Some("")
  {
  }

  // The buffer holds the text as far as it goes, and ends in a NUL.
  lemma PutEnd(b: seq<char>, text: string, count: nat)
    requires count <= |b|
    ensures count == 0 ==> Put(b, 0, text, count) == b
    ensures count > 0 ==>
              var m := if |text| < count then |text| else count - 1;
              var p := Put(Put(b, 0, text, count), m, "\0", count);
              |p| == |b| && p[..m] == text[..m] && p[m] == '\0' && forall k :: m < k < |b| ==> p[k] == b[k]
  {
    if count > 0 {
      var m := if |text| < count then |text| else count - 1;
      var p := Put(Put(b, 0, text, count), m, "\0", count);
      assert p[..m] == text[..m];
    }
  }
}
