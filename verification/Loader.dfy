/** The kernel that loads a program from the serial line (kernel.c), and the whole load path. */
module Loader {
  import opened Basics
  import opened HexFile

  const BASE_ADDR := 0x10000
  const MEM_END := 65536
  const MAGIC := 0xdeadbeef
  const CAPACITY := 16384

  // ---- Words ----

  // Four bytes as a word, the lowest byte first.
  function Word(b: seq<Byte>): U32
    requires |b| >= 4
  {
    b[0] as int + 0x100 * (b[1] as int) + 0x1_0000 * (b[2] as int) + 0x100_0000 * (b[3] as int)
  }

  function WordBytes(w: U32): (b: seq<Byte>)
    ensures |b| == 4
  {
    [w % 0x100, w / 0x100 % 0x100, w / 0x1_0000 % 0x100, w / 0x100_0000]
  }

  lemma BytesOfWord(b: seq<Byte>)
    requires |b| == 4
    ensures WordBytes(Word(b)) == b
  {
    var w := Word(b);
    assert w / 0x1_0000 == b[2] as int + 0x100 * (b[3] as int);
    assert w / 0x100 == b[1] as int + 0x100 * (b[2] as int + 0x100 * (b[3] as int));
  }

  // The words that a stream of bytes makes.
  function Words(b: seq<Byte>): seq<U32> {
    if |b| < 4 then [] else [Word(b[..4])] + Words(b[4..])
  }

  // ---- The protocol, on words ----

  // Waiting: the kernel still waits for a word. stored is the number of words it has put into memory.
  datatype Outcome = Refused | Waiting(stored: nat) | Loaded(stored: nat) | TooLarge(stored: nat)

  function Receive(ws: seq<U32>, stored: nat): Outcome
    requires stored <= CAPACITY
  {
    if stored == CAPACITY then TooLarge(stored)
    else if ws == [] then Waiting(stored)
    else if ws[0] == MAGIC then Loaded(stored)
    else Receive(ws[1..], stored + 1)
  }

  function Load(ws: seq<U32>): Outcome {
    if ws == [] then Waiting(0)
    else if ws[0] != MAGIC then Refused
    else Receive(ws[1..], 0)
  }

  function Stored(o: Outcome): nat {
    if o.Refused? then 0 else o.stored
  }

  // What load_program returns, None while it waits.
  function Answer(o: Outcome): Option<U32> {
    match o
    case Waiting(_) => None
    case Loaded(_) => Some(BASE_ADDR)
    case _ => Some(0)
  }

  // Memory with the bytes put at the base address.
  function WithProgram(mem: seq<Byte>, bytes: seq<Byte>): seq<Byte>
    requires BASE_ADDR + |bytes| <= |mem|
  {
    mem[..BASE_ADDR] + bytes + mem[BASE_ADDR + |bytes|..]
  }

  // ---- The kernel ----

  lemma WordsUnfold(b: seq<Byte>)
    requires |b| >= 4
    ensures Words(b) == [Word(b[..4])] + Words(b[4..])
  {
  }

  lemma {:induction false} ReceiveStored(b: seq<Byte>, stored: nat)
    requires stored <= CAPACITY
    ensures var o := Receive(Words(b), stored);
            !o.Refused? && stored <= o.stored <= CAPACITY && 4 * (o.stored - stored) <= |b|
    decreases |b|
  {
    if stored < CAPACITY && |b| >= 4 {
      ReceiveStored(b[4..], stored + 1);
      WordsUnfold(b);
    }
  }

  lemma ReceiveStep(b: seq<Byte>, stored: nat)
    requires stored < CAPACITY
    ensures Receive(Words(b), stored) ==
            if |b| < 4 then Waiting(stored)
            else if Word(b[..4]) == MAGIC then Loaded(stored)
            else Receive(Words(b[4..]), stored + 1)
  {
    hide Word;
    if |b| >= 4 {
      WordsUnfold(b);
    }
  }

  lemma LoadStep(b: seq<Byte>)
    ensures Load(Words(b)) ==
            if |b| < 4 then Waiting(0)
            else if Word(b[..4]) != MAGIC then Refused
            else Receive(Words(b[4..]), 0)
    ensures 4 + 4 * Stored(Load(Words(b))) <= |b| || Stored(Load(Words(b))) == 0
    ensures Stored(Load(Words(b))) <= CAPACITY
  {
    hide Word, Receive;
    if |b| >= 4 {
      WordsUnfold(b);
      ReceiveStored(b[4..], 0);
    }
  }

  // The bytes of b that the outcome has put into memory.
  function Program(b: seq<Byte>): seq<Byte> {
    LoadStep(b);
    var n := Stored(Load(Words(b)));
    if n == 0 then [] else b[4..4 + 4 * n]
  }

  lemma NothingStored(mem: seq<Byte>)
    requires BASE_ADDR <= |mem|
    ensures WithProgram(mem, []) == mem
  {
  }

  // The next four bytes of a stream after the first w of a program.
  lemma NextFour(b: seq<Byte>, w: nat)
    requires 8 + w <= |b|
    ensures b[4 + w..][4..] == b[8 + w..]
    ensures b[4..4 + w] + b[4 + w..][..4] == b[4..8 + w]
  {
  }

  // The word starts with the lowest byte.
  lemma IsMagic(b: seq<Byte>)
    requires |b| == 4
    ensures Word(b) == 0xdeadbeef <==> b == [0xef, 0xbe, 0xad, 0xde]
  {
    if Word(b) == 0xdeadbeef {
      BytesOfWord(b);
    }
  }

  lemma NotStarted(b: seq<Byte>)
    ensures |b| < 4 ==> Answer(Load(Words(b))) == None && Program(b) == []
    ensures |b| >= 4 && b[..4] != [0xef, 0xbe, 0xad, 0xde] ==> Answer(Load(Words(b))) == Some(0) && Program(b) == []
  {
    hide Word, Words, Load;
    LoadStep(b);
    if |b| >= 4 {
      IsMagic(b[..4]);
    }
  }

  class Kernel {
    const mem: array<Byte>
    // The bytes that arrive on the serial line and have not been read.
    var input: seq<Byte>

    constructor (mem: array<Byte>, input: seq<Byte>)
      ensures this.mem == mem && this.input == input
    {
      this.mem, this.input := mem, input;
    }

    // uart_read_word
    method ReadWord() returns (w: Option<U32>)
      modifies this`input
      ensures |old(input)| < 4 ==> w == None && input == []
      ensures |old(input)| >= 4 ==> w == Some(Word(old(input)[..4])) && input == old(input)[4..]
    {
      hide Word;
      var buf := [];
      var i := 0;
      while i < 4
        invariant 0 <= i <= 4 && |buf| == i && buf + input == old(input)
      {
        if input == [] {
          return None;
        }
        buf, input, i := buf + [input[0]], input[1..], i + 1;
      }
      assert buf == old(input)[..4];
      w := Some(Word(buf));
    }

    // *(uint *)a = w
    method Store(a: nat, w: U32)
      requires a + 4 <= mem.Length
      modifies mem
      ensures mem[..] == old(mem[..a]) + WordBytes(w) + old(mem[a + 4..])
    {
      hide WordBytes;
      var b := WordBytes(w);
      mem[a], mem[a + 1], mem[a + 2], mem[a + 3] := b[0], b[1], b[2], b[3];
    }

    // The same, behind the bytes put there so far.
    method StoreNext(w: nat, word: U32, ghost was: seq<Byte>, ghost bytes: seq<Byte>, ghost next: seq<Byte>)
      requires |next| == 4 && word == Word(next) && w == |bytes| && BASE_ADDR + w + 4 <= mem.Length == |was|
      requires mem[..] == WithProgram(was, bytes)
      modifies mem
      ensures mem[..] == WithProgram(was, bytes + next)
    {
      hide Word, WordBytes;
      BytesOfWord(next);
      Store(BASE_ADDR + w, word);
    }

    /** Stores what comes between two magic words at the base address. The answer depends on nothing but
        the words received, and so does the memory. */
    method LoadProgram() returns (r: Option<U32>)
      requires mem.Length >= BASE_ADDR + MEM_END
      modifies this`input, mem
      ensures r == Answer(Load(Words(old(input))))
      ensures |Program(old(input))| <= MEM_END
      ensures mem[..] == WithProgram(old(mem[..]), Program(old(input)))
      ensures |old(input)| < 4 ==> r == None && mem[..] == old(mem[..])
      ensures |old(input)| >= 4 && old(input)[..4] != [0xef, 0xbe, 0xad, 0xde] ==>
                r == Some(0) && mem[..] == old(mem[..])
    {
      hide Word, Words, WordBytes, Receive, Load, WithProgram;
      ghost var was, stream := mem[..], input;
      NotStarted(stream);
      LoadStep(stream);
      NothingStored(was);
      var buf := ReadWord();
      if buf == None {
        return None;
      }
      if buf.value != MAGIC {
        return Some(0);
      }
      assert stream[4..4] == [];
      var w := 0;
      ghost var n := 0;
      while w < MEM_END
        invariant w == 4 * n && 0 <= n <= CAPACITY && 4 + w <= |stream| && input == stream[4 + w..]
        invariant mem[..] == WithProgram(was, stream[4..4 + w])
        invariant Receive(Words(input), n) == Load(Words(stream))
      {
        ReceiveStep(input, n);
        buf := ReadWord();
        if buf == None {
          return None;
        }
        if buf.value == MAGIC {
          return Some(BASE_ADDR);
        }
        NextFour(stream, w);
        StoreNext(w, buf.value, was, stream[4..4 + w], stream[4 + w..][..4]);
        w, n := w + 4, n + 1;
      }
      ReceiveFull(input);
      r := Some(0);
    }
  }

  lemma ReceiveFull(b: seq<Byte>)
    ensures Receive(Words(b), CAPACITY) == TooLarge(CAPACITY)
  {
  }

  // ---- Images ----

  lemma {:induction false} WordsAppend(a: seq<Byte>, b: seq<Byte>)
    requires |a| % 4 == 0
    ensures Words(a + b) == Words(a) + Words(b)
    ensures |Words(a)| == |a| / 4
    decreases |a|
  {
    hide Word;
    if a == [] {
      assert a + b == b;
    } else {
      WordsAppend(a[4..], b);
      assert (a + b)[4..] == a[4..] + b && (a + b)[..4] == a[..4];
    }
  }

  lemma {:induction false} ReceiveAll(ws: seq<U32>, tail: seq<U32>, stored: nat)
    requires stored <= CAPACITY && MAGIC !in ws
    ensures Receive(ws + tail, stored) ==
            if stored + |ws| <= CAPACITY then Receive(tail, stored + |ws|) else TooLarge(CAPACITY)
    decreases |ws|
  {
    if ws == [] {
      assert ws + tail == tail;
    } else if stored < CAPACITY {
      assert (ws + tail)[1..] == ws[1..] + tail;
      ReceiveAll(ws[1..], tail, stored + 1);
    }
  }

  // A program ends at the first magic word.
  lemma {:induction false} LoadedAtMagic(ws: seq<U32>, stored: nat)
    requires stored <= CAPACITY && Receive(ws, stored).Loaded?
    ensures var n := Receive(ws, stored).stored - stored;
            stored + n < CAPACITY && 0 <= n < |ws| && ws[n] == MAGIC && MAGIC !in ws[..n]
    decreases |ws|
  {
    if ws[0] != MAGIC {
      LoadedAtMagic(ws[1..], stored + 1);
      var n := Receive(ws, stored).stored - stored;
      assert ws[..n] == [ws[0]] + ws[1..][..n - 1];
    }
  }

  lemma MagicWord()
    ensures Words(MAGIC_BYTES) == [MAGIC] && Word(MAGIC_BYTES) == MAGIC
  {
  }

  // An image between two copies of a word, in words.
  lemma WordsBetween(m: seq<Byte>, image: seq<Byte>)
    requires |m| == 4
    ensures Words(m + (image + m)) == Words(m) + Words(image + m)
    ensures |image| % 4 == 0 ==> Words(image + m) == Words(image) + Words(m) && |Words(image)| == |image| / 4
  {
    hide Word, Words;
    WordsAppend(m, image + m);
    if |image| % 4 == 0 {
      WordsAppend(image, m);
    }
  }

  // What a sent image is, in words.
  lemma SentWords(image: seq<Byte>)
    ensures Load(Words(Framed(image))) == Receive(Words(image + MAGIC_BYTES), 0)
    ensures |image| % 4 == 0 ==> Words(image + MAGIC_BYTES) == Words(image) + [MAGIC] && |Words(image)| == |image| / 4
  {
    hide Word, Words, Receive, Load;
    MagicWord();
    WordsBetween(MAGIC_BYTES, image);
    LoadMagic(Words(image + MAGIC_BYTES));
  }

  lemma LoadMagic(ws: seq<U32>)
    ensures Load([MAGIC] + ws) == Receive(ws, 0)
  {
    assert ([MAGIC] + ws)[1..] == ws;
  }

  lemma {:induction false} RaggedWords(image: seq<Byte>)
    requires |image| % 4 != 0
    ensures var b := Words(image + MAGIC_BYTES);
            |b| == |image| / 4 + 1 && b[..|image| / 4] == Words(image) && b[|image| / 4] != MAGIC
    decreases |image|
  {
    if |image| < 4 {
      var b := image + MAGIC_BYTES;
      assert |b[4..]| < 4;
      assert b[0] == image[0] && b[|image|] == 0xef && b[|image| + 1] == 0xbe;
    } else {
      hide Word;
      RaggedWords(image[4..]);
      assert (image + MAGIC_BYTES)[4..] == image[4..] + MAGIC_BYTES;
      assert (image + MAGIC_BYTES)[..4] == image[..4];
    }
  }

  lemma ReceivesWhole(ws: seq<U32>)
    ensures Receive(ws + [MAGIC], 0) == Loaded(|ws|) <==> MAGIC !in ws && |ws| < CAPACITY
  {
    if MAGIC !in ws {
      ReceiveAll(ws, [MAGIC], 0);
    }
    if Receive(ws + [MAGIC], 0) == Loaded(|ws|) {
      LoadedAtMagic(ws + [MAGIC], 0);
      assert (ws + [MAGIC])[..|ws|] == ws;
    }
  }

  /** An image is loaded whole if and only if it is made of words, none of them the magic word, and there are
      at most 16383 of them. */
  lemma LoadsWhole(image: seq<Byte>)
    ensures var o := Load(Words(Framed(image)));
            o.Loaded? && 4 * o.stored == |image| <==>
            |image| % 4 == 0 && MAGIC !in Words(image) && |image| / 4 < CAPACITY
  {
    hide Words, Load, Receive, Framed;
    SentWords(image);
    ReceivesWhole(Words(image));
  }

  /** The first magic word after the program ends it; what comes behind is not looked at. */
  lemma StopsAtMagic(body: seq<Byte>, rest: seq<Byte>)
    requires |body| % 4 == 0 && MAGIC !in Words(body) && |body| / 4 < 16384
    ensures var magic: seq<Byte> := [0xef, 0xbe, 0xad, 0xde];
            var b := magic + (body + (magic + rest));
            Answer(Load(Words(b))) == Some(0x10000) && Program(b) == body
  {
    hide Word, Words, Receive, Load;
    var tail := MAGIC_BYTES + rest;
    var b := MAGIC_BYTES + (body + tail);
    MagicWord();
    WordsAppend(MAGIC_BYTES, body + tail);
    WordsAppend(body, tail);
    WordsAppend(MAGIC_BYTES, rest);
    LoadMagic(Words(body + tail));
    ReceiveAll(Words(body), Words(tail), 0);
    AtMagic(Words(rest), |body| / 4);
    assert b[4..][..|body|] == body && b[4..4 + |body|] == b[4..][..|body|];
  }

  lemma AtMagic(ws: seq<U32>, stored: nat)
    requires stored < CAPACITY
    ensures Receive([MAGIC] + ws, stored) == Loaded(stored)
  {
  }

  /** Too large an image is stored as far as it fits, and refused. */
  lemma TooLargeImage(image: seq<Byte>)
    requires |image| % 4 == 0 && MAGIC !in Words(image) && |image| / 4 >= CAPACITY
    ensures Load(Words(Framed(image))) == TooLarge(CAPACITY)
  {
    SentWords(image);
    ReceiveAll(Words(image), [MAGIC], 0);
  }

  /** A last line of less than four bytes swallows the start of the final magic word: the kernel goes on waiting. */
  lemma RaggedImage(image: seq<Byte>)
    requires |image| % 4 != 0 && MAGIC !in Words(image)
    ensures Load(Words(Framed(image))) ==
            if |image| / 4 + 1 < CAPACITY then Waiting(|image| / 4 + 1) else TooLarge(CAPACITY)
    ensures Answer(Load(Words(Framed(image)))) == if |image| / 4 + 1 < 16384 then None else Some(0)
  {
    hide Words;
    SentWords(image);
    RaggedWords(image);
    var ws := Words(image + MAGIC_BYTES);
    assert ws == Words(image) + [ws[|image| / 4]];
    assert ws + [] == ws;
    ReceiveAll(ws, [], 0);
  }

  /** The whole path: an image is written to a hex file, sent and loaded. */
  method LoadImage(image: seq<Byte>, mem: array<Byte>) returns (r: Option<U32>)
    requires mem.Length >= BASE_ADDR + MEM_END
    requires |image| % 4 == 0 && MAGIC !in Words(image)
    modifies mem
    ensures |image| / 4 < 16384 ==>
              && r == Some(0x10000)
              && mem[..] == old(mem[..0x10000]) + image + old(mem[0x10000 + |image|..])
    ensures |image| / 4 >= 16384 ==>
              && r == Some(0)
              && mem[..] == old(mem[..0x10000]) + image[..0x10000] + old(mem[0x20000..])
  {
    hide Words, Load, FileSent;
    var text, _ := PrepHex(image, false);
    var sent := Send(text);
    FileSentBack(text, image);
    var kernel := new Kernel(mem, sent.bytes);
    LoadsWhole(image);
    SentProgram(image);
    r := kernel.LoadProgram();
  }

  lemma SentProgram(image: seq<Byte>)
    requires |image| % 4 == 0 && MAGIC !in Words(image)
    ensures var b := Framed(image);
            if |image| / 4 < CAPACITY then Answer(Load(Words(b))) == Some(BASE_ADDR) && Program(b) == image
            else Answer(Load(Words(b))) == Some(0) && Program(b) == image[..MEM_END]
  {
    hide Words, Load;
    var b := Framed(image);
    assert |MAGIC_BYTES| == 4;
    assert forall n :: 0 <= n <= |image| ==> b[4..4 + n] == image[..n];
    if |image| / 4 < CAPACITY {
      LoadsWhole(image);
    } else {
      TooLargeImage(image);
    }
  }
}
