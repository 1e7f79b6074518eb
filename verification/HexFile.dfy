/** The hex file of a program image: writing it (pycompile.py) and sending it (reprogram.py). */
module HexFile {
  import opened Basics

  type Byte = U8

  // What has been sent, and whether sending went on to the end.
  datatype Sent = Sent(bytes: seq<Byte>, ok: bool) {
    function Then(s: Sent): Sent {
      if ok then Sent(bytes + s.bytes, s.ok) else this
    }
  }

  // ---- Hex digits ----

  function Hex(b: Byte): (s: string)
    ensures |s| == 2
  {
    [DigitChar(b / 16, false), DigitChar(b % 16, false)]
  }

  // binascii.unhexlify, for the at most two characters it is given.
  function Unhexlify(tx: string): Sent {
    if |tx| == 0 then Sent([], true)
    else if |tx| != 2 || CharDigit(tx[0]) < 0 || CharDigit(tx[1]) < 0 then Sent([], false)
    else Sent([16 * CharDigit(tx[0]) + CharDigit(tx[1])], true)
  }

  lemma HexRead(b: Byte)
    ensures Unhexlify(Hex(b)) == Sent([b], true)
    ensures Hex(b)[0] != '\n' && Hex(b)[1] != '\n'
  {
    DigitReads(b / 16, false);
    DigitReads(b % 16, false);
  }

  // ---- The file ----

  // The bytes of a word, the last one first.
  function HexWord(bs: seq<Byte>): string {
    if bs == [] then "" else HexWord(bs[1..]) + Hex(bs[0])
  }

  function HexLines(image: seq<Byte>): string {
    if image == [] then "" else
      var n := Min(4, |image|);
      HexWord(image[..n]) + "\n" + HexLines(image[n..])
  }

  const COE_HEADER := "memory_initialization_radix=16;\nmemory_initialization_vector=\n"

  lemma {:induction false} HexWordAppend(bs: seq<Byte>, t: Byte)
    ensures HexWord(bs + [t]) == Hex(t) + HexWord(bs)
  {
    if bs == [] {
      assert (bs + [t])[1..] == [];
    } else {
      assert (bs + [t])[1..] == bs[1..] + [t];
      HexWordAppend(bs[1..], t);
    }
  }

  // The inner loop of prep_hex.
  method PrepWord(btmp: seq<Byte>) returns (hexstr: string)
    ensures hexstr == HexWord(btmp)
  {
    hide Hex;
    hexstr := "";
    var k := 0;
    while k < |btmp|
      invariant 0 <= k <= |btmp| && hexstr == HexWord(btmp[..k])
    {
      HexWordAppend(btmp[..k], btmp[k]);
      assert btmp[..k + 1] == btmp[..k] + [btmp[k]];
      hexstr, k := Hex(btmp[k]) + hexstr, k + 1;
    }
    assert btmp[..k] == btmp;
  }

  // The lines of the file.
  method PrepLines(image: seq<Byte>, header: string) returns (text: string)
    ensures text == header + HexLines(image)
  {
    hide HexWord;
    text := header;
    var i := 0;
    while i < |image|
      invariant 0 <= i && header + HexLines(image) == text + HexLines(image[Min(i, |image|)..])
    {
      ghost var rest := image[i..];
      var btmp := image[i..Min(i + 4, |image|)];
      assert btmp == rest[..Min(4, |rest|)];
      assert image[Min(i + 4, |image|)..] == rest[Min(4, |rest|)..];
      var hexstr := PrepWord(btmp);
      text, i := text + (hexstr + "\n"), i + 4;
    }
    assert image[Min(i, |image|)..] == [];
    assert text + "" == text;
  }

  lemma DigitIs(d: nat)
    requires d < 16
    ensures DigitChar(d, false) == "0123456789abcdef"[d]
  {
  }

  lemma {:induction false} HexWordAt(bs: seq<Byte>, i: nat)
    requires i < |bs|
    ensures |HexWord(bs)| == 2 * |bs|
    ensures HexWord(bs)[2 * (|bs| - 1 - i)] == "0123456789abcdef"[bs[i] / 16]
    ensures HexWord(bs)[2 * (|bs| - 1 - i) + 1] == "0123456789abcdef"[bs[i] % 16]
  {
    HexWordPlain(bs);
    HexWordPlain(bs[1..]);
    if i == 0 {
      DigitIs(bs[0] / 16);
      DigitIs(bs[0] % 16);
    } else {
      HexWordAt(bs[1..], i - 1);
    }
  }

  // ---- Sending ----

  // The characters sent for position i: l[i-1:i+1], where a start of -1 counts from the end of l.
  function Slice(l: string, i: nat): string
    requires i < |l|
  {
    if i > 0 then l[i - 1..i + 1] else if |l| == 1 then l else ""
  }

  // What is sent of the first n characters of a line: pairs, from the end on.
  function LineSent(l: string, n: nat): Sent
    requires n <= |l|
  {
    if n == 0 then Sent([], true)
    else Unhexlify(Slice(l, n - 1)).Then(LineSent(l, if n == 1 then 0 else n - 2))
  }

  lemma ThenAssociates(a: Sent, b: Sent, c: Sent)
    ensures a.Then(b).Then(c) == a.Then(b.Then(c))
    ensures a.Then(Sent([], true)) == a
    ensures Sent([], true).Then(a) == a
    ensures !a.ok ==> a.Then(b) == a
  {
  }

  method SendLine(l: string, before: Sent) returns (sent: Sent)
    requires before.ok
    ensures sent == before.Then(LineSent(l, |l|))
  {
    hide Unhexlify, Slice;
    sent := before;
    var i := |l| - 1;
    while i >= 0
      invariant -2 <= i < |l| && sent.ok
      invariant before.Then(LineSent(l, |l|)) == sent.Then(if i < 0 then Sent([], true) else LineSent(l, i + 1))
    {
      ThenAssociates(sent, Unhexlify(Slice(l, i)), LineSent(l, if i == 0 then 0 else i - 1));
      sent := sent.Then(Unhexlify(Slice(l, i)));
      if !sent.ok {
        return;
      }
      i := i - 2;
    }
  }

  // f.readlines(): every line with its newline.
  function LineLength(text: string): (n: nat)
    ensures n <= |text| && (text != "" ==> n > 0)
  {
    if text == "" then 0 else if text[0] == '\n' then 1 else 1 + LineLength(text[1..])
  }

  function ReadLines(text: string): seq<string> {
    if text == "" then [] else [text[..LineLength(text)]] + ReadLines(text[LineLength(text)..])
  }

  // l[:-1]
  function Chop(l: string): string {
    if l == "" then "" else l[..|l| - 1]
  }

  function LinesSent(lines: seq<string>): Sent {
    if lines == [] then Sent([], true)
    else LineSent(Chop(lines[0]), |Chop(lines[0])|).Then(LinesSent(lines[1..]))
  }

  const DEADBEEF := "deadbeef"

  function FileSent(text: string): Sent {
    LineSent(DEADBEEF, 8).Then(LinesSent(ReadLines(text))).Then(LineSent(DEADBEEF, 8))
  }

  method SendLines(ins: seq<string>, before: Sent) returns (sent: Sent)
    requires before.ok
    ensures sent == before.Then(LinesSent(ins))
  {
    hide LineSent, Chop, Sent.Then;
    sent := before;
    assert ins[0..] == ins;
    var k := 0;
    while k < |ins|
      invariant 0 <= k <= |ins| && sent.ok
      invariant before.Then(LinesSent(ins)) == sent.Then(LinesSent(ins[k..]))
    {
      var l := Chop(ins[k]);
      ThenAssociates(sent, LineSent(l, |l|), LinesSent(ins[k + 1..]));
      assert ins[k..][1..] == ins[k + 1..];
      sent := SendLine(l, sent);
      if !sent.ok {
        ThenAssociates(sent, LinesSent(ins[k + 1..]), sent);
        return;
      }
      k := k + 1;
    }
    assert ins[k..] == [];
    ThenAssociates(sent, sent, sent);
  }

  /** Sends the magic word, the lines of the file and the magic word. A line that is not hex ends it. */
  method Send(text: string) returns (sent: Sent)
    ensures sent == FileSent(text)
  {
    hide LineSent, ReadLines, Sent.Then;
    var ins := ReadLines(text);
    assert |DEADBEEF| == 8;
    MagicSent();
    sent := SendLine(DEADBEEF, Sent([], true));
    ThenAssociates(LineSent(DEADBEEF, 8), sent, sent);
    sent := SendLines(ins, sent);
    if !sent.ok {
      ThenAssociates(sent, LineSent(DEADBEEF, 8), sent);
      return;
    }
    sent := SendLine(DEADBEEF, sent);
  }

  lemma MagicSent()
    ensures LineSent(DEADBEEF, 8) == Sent([0xef, 0xbe, 0xad, 0xde], true)
  {
    assert LineSent(DEADBEEF, 2) == Sent([0xde], true);
    assert LineSent(DEADBEEF, 4) == Sent([0xad, 0xde], true);
    assert LineSent(DEADBEEF, 6) == Sent([0xbe, 0xad, 0xde], true);
  }

  // ---- Sending undoes writing ----

  lemma {:induction false} HexWordPlain(bs: seq<Byte>)
    ensures |HexWord(bs)| == 2 * |bs| && '\n' !in HexWord(bs)
  {
    if bs != [] {
      HexWordPlain(bs[1..]);
      HexRead(bs[0]);
    }
  }

  lemma {:induction false} WordSent(l: string, bs: seq<Byte>)
    requires 2 * |bs| <= |l| && l[..2 * |bs|] == HexWord(bs)
    ensures LineSent(l, 2 * |bs|) == Sent(bs, true)
  {
    hide Hex, Unhexlify;
    if bs != [] {
      var n := 2 * |bs|;
      HexWordPlain(bs[1..]);
      assert l[..n - 2] == HexWord(bs)[..n - 2] == HexWord(bs[1..]);
      WordSent(l, bs[1..]);
      assert Slice(l, n - 1) == l[..n][n - 2..] == Hex(bs[0]);
      HexRead(bs[0]);
      assert [bs[0]] + bs[1..] == bs;
    }
  }

  lemma {:induction false} LineLengthOf(l: string, rest: string)
    requires '\n' !in l
    ensures LineLength(l + "\n" + rest) == |l| + 1
  {
    if l == "" {
      assert l + "\n" + rest == "\n" + rest;
    } else {
      assert (l + "\n" + rest)[1..] == l[1..] + "\n" + rest;
      LineLengthOf(l[1..], rest);
    }
  }

  lemma ReadLinesOf(l: string, rest: string)
    requires '\n' !in l
    ensures ReadLines(l + "\n" + rest) == [l + "\n"] + ReadLines(rest)
  {
    LineLengthOf(l, rest);
    var text := l + "\n" + rest;
    assert text[..|l| + 1] == l + "\n" && text[|l| + 1..] == rest;
  }

  lemma {:induction false} LinesSentBack(image: seq<Byte>)
    ensures LinesSent(ReadLines(HexLines(image))) == Sent(image, true)
  {
    hide HexWord, LineSent, LineLength;
    if image != [] {
      var n := Min(4, |image|);
      var word, rest := HexWord(image[..n]), HexLines(image[n..]);
      HexWordPlain(image[..n]);
      ReadLinesOf(word, rest);
      LinesSentBack(image[n..]);
      assert Chop(word + "\n") == word;
      WordSent(word, image[..n]);
      var lines := ReadLines(HexLines(image));
      assert lines[0] == word + "\n" && lines[1..] == ReadLines(rest);
      assert image[..n] + image[n..] == image;
    }
  }

  const MAGIC_BYTES: seq<Byte> := [0xef, 0xbe, 0xad, 0xde]

  // An image between two magic words.
  function Framed(image: seq<Byte>): seq<Byte> {
    MAGIC_BYTES + (image + MAGIC_BYTES)
  }

  lemma Associate<T>(a: seq<T>, b: seq<T>, c: seq<T>)
    ensures a + b + c == a + (b + c)
  {
  }

  /** What is sent of a file whose lines hold an image is that image between two magic words. */
  lemma FileSentBack(text: string, image: seq<Byte>)
    requires LinesSent(ReadLines(text)) == Sent(image, true)
    ensures FileSent(text) == Sent([0xef, 0xbe, 0xad, 0xde] + image + [0xef, 0xbe, 0xad, 0xde], true)
    ensures Framed(image) == [0xef, 0xbe, 0xad, 0xde] + image + [0xef, 0xbe, 0xad, 0xde]
  {
    hide LineSent, LinesSent, ReadLines;
    MagicSent();
    Associate(MAGIC_BYTES, image, MAGIC_BYTES);
  }

  const COE_RADIX := "memory_initialization_radix=16;"
  const COE_VECTOR := "memory_initialization_vector=\n"

  lemma HeaderNotHex(header: string)
    requires |header| == 31 && header[29] == '6' && header[30] == ';'
    ensures LineSent(header, 31) == Sent([], false)
  {
    assert Slice(header, 30) == "6;";
  }

  lemma HeaderSplits(body: string)
    ensures COE_HEADER + body == COE_RADIX + "\n" + (COE_VECTOR + body)
  {
    assert COE_HEADER == COE_RADIX + "\n" + COE_VECTOR;
    Associate(COE_RADIX + "\n", COE_VECTOR, body);
  }

  /** Whatever comes after it, the header of a .coe file is not sent: nothing but the first magic word leaves. */
  lemma CoeFileRefused(body: string)
    ensures FileSent("memory_initialization_radix=16;\nmemory_initialization_vector=\n" + body) ==
            Sent([0xef, 0xbe, 0xad, 0xde], false)
  {
    hide LineSent, ReadLines;
    HeaderSplits(body);
    ReadLinesOf(COE_RADIX, COE_VECTOR + body);
    assert Chop(COE_RADIX + "\n") == COE_RADIX;
    HeaderNotHex(COE_RADIX);
    MagicSent();
  }

  // ---- The whole file ----

  lemma FirstLine(image: seq<Byte>)
    requires image != []
    ensures var n := Min(4, |image|);
            ReadLines(HexLines(image)) == [HexWord(image[..n]) + "\n"] + ReadLines(HexLines(image[n..]))
  {
    hide HexWord, ReadLines;
    var n := Min(4, |image|);
    HexWordPlain(image[..n]);
    ReadLinesOf(HexWord(image[..n]), HexLines(image[n..]));
  }

  lemma WordDigits(bs: seq<Byte>, j: nat)
    requires j < |bs|
    ensures var l := HexWord(bs) + "\n";
            && |l| == 2 * |bs| + 1
            && l[|l| - 3 - 2 * j] == "0123456789abcdef"[bs[j] / 16]
            && l[|l| - 2 - 2 * j] == "0123456789abcdef"[bs[j] % 16]
  {
    hide HexWord;
    HexWordAt(bs, j);
    assert |HexWord(bs) + "\n"| - 3 - 2 * j == 2 * (|bs| - 1 - j);
  }

  lemma FourLess(n: nat, i: nat)
    requires 4 <= i < n
    ensures (i - 4) / 4 == i / 4 - 1 && (i - 4) % 4 == i % 4 && n - 4 - (i - 4) / 4 * 4 == n - i / 4 * 4
  {
  }

  // The digits of byte i stand in line i / 4, counted from the end of the line.
  lemma {:induction false} LineDigits(image: seq<Byte>, i: nat)
    requires i < |image|
    ensures i / 4 < |ReadLines(HexLines(image))|
    ensures var l := ReadLines(HexLines(image))[i / 4];
            && |l| == 2 * Min(4, |image| - i / 4 * 4) + 1
            && l[|l| - 3 - 2 * (i % 4)] == "0123456789abcdef"[image[i] / 16]
            && l[|l| - 2 - 2 * (i % 4)] == "0123456789abcdef"[image[i] % 16]
    decreases |image|
  {
    hide HexWord, ReadLines, HexLines;
    FirstLine(image);
    if i < 4 {
      WordDigits(image[..Min(4, |image|)], i);
    } else {
      FourLess(|image|, i);
      LineDigits(image[4..], i - 4);
    }
  }

  lemma {:induction false} LineCount(image: seq<Byte>)
    ensures |ReadLines(HexLines(image))| == (|image| + 3) / 4
  {
    if image != [] {
      hide HexWord, LineLength;
      FirstLine(image);
      LineCount(image[Min(4, |image|)..]);
    }
  }

  /** Writes the file: after the header of a .coe file a line for every four bytes, the last of them first, in
      lower-case digits. Sending the lines gives the image back. */
  method PrepHex(image: seq<Byte>, coe: bool) returns (text: string, ghost body: string)
    ensures text == if coe then "memory_initialization_radix=16;\nmemory_initialization_vector=\n" + body + ";"
                    else body
    ensures LinesSent(ReadLines(body)) == Sent(image, true)
    ensures |ReadLines(body)| == (|image| + 3) / 4
    ensures forall i :: 0 <= i < |image| ==>
              var l := ReadLines(body)[i / 4];
              && |l| == 2 * Min(4, |image| - i / 4 * 4) + 1
              && l[|l| - 3 - 2 * (i % 4)] == "0123456789abcdef"[image[i] / 16]
              && l[|l| - 2 - 2 * (i % 4)] == "0123456789abcdef"[image[i] % 16]
  {
    hide HexLines, ReadLines, LinesSent;
    body := HexLines(image);
    LinesSentBack(image);
    LineCount(image);
    forall i | 0 <= i < |image|
      ensures var l := ReadLines(body)[i / 4];
              && |l| == 2 * Min(4, |image| - i / 4 * 4) + 1
              && l[|l| - 3 - 2 * (i % 4)] == "0123456789abcdef"[image[i] / 16]
              && l[|l| - 2 - 2 * (i % 4)] == "0123456789abcdef"[image[i] % 16]
    {
      LineDigits(image, i);
    }
    text := PrepLines(image, if coe then COE_HEADER else "");
    assert "" + body == body;
    if coe {
      text := text + ";";
    }
  }

  // ---- Reading lines ----

  function Concat(lines: seq<string>): string {
    if lines == [] then "" else lines[0] + Concat(lines[1..])
  }

  lemma {:induction false} LineEnds(text: string)
    requires text != ""
    ensures var n := LineLength(text);
            && '\n' !in text[..n - 1] && (n < |text| ==> text[n - 1] == '\n')
  {
    if text[0] != '\n' && |text| > 1 {
      LineEnds(text[1..]);
      var n := LineLength(text);
      assert text[..n - 1] == [text[0]] + text[1..][..n - 2];
    }
  }

  /** The lines make up the text. */
  lemma {:induction false} LinesMakeUp(text: string)
    ensures Concat(ReadLines(text)) == text
    decreases |text|
  {
    hide LineLength;
    if text != "" {
      var n := LineLength(text);
      LinesMakeUp(text[n..]);
      assert ReadLines(text) == [text[..n]] + ReadLines(text[n..]);
      assert text[..n] + text[n..] == text;
    }
  }

  /** A newline ends each line, but perhaps the last, and is nowhere else in it. */
  lemma {:induction false} LineShape(text: string, k: nat)
    requires k < |ReadLines(text)|
    ensures var l := ReadLines(text)[k];
            l != "" && '\n' !in l[..|l| - 1] && (k < |ReadLines(text)| - 1 ==> l[|l| - 1] == '\n')
    decreases |text|
  {
    hide LineLength;
    var n := LineLength(text);
    assert ReadLines(text) == [text[..n]] + ReadLines(text[n..]);
    if k == 0 {
      LineEnds(text);
      assert text[..n][..n - 1] == text[..n - 1];
    } else {
      LineShape(text[n..], k - 1);
    }
  }
}
