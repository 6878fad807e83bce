/**
 The stub of utils/i386-stub.c over its serial line: `getpacket`, `putpacket`
 and the register and memory commands of `handle_exception`. The line is the
 characters not yet read and those already sent; reading past the end of the
 input, where the code would spin for ever, makes a method return `ok == false`.
 */
module GdbStub {
  import opened Words
  import opened ByteMemory
  import opened HexCodec
  import opened HexNumbers
  import opened Packets
  import opened PacketText

  const NUMREGBYTES: nat := 64
  const COMMA: byte := 0x2c
  const OK: seq<byte> := [0x4f, 0x4b]
  const E01: seq<byte> := [0x45, 0x30, 0x31]
  const E02: seq<byte> := [0x45, 0x30, 0x32]
  const E03: seq<byte> := [0x45, 0x30, 0x33]

  /** `AA..AA,LLLL` of a memory command. */
  datatype Args = BadArgs | Args(addr: nat, length: int, next: nat)

  function ParseArgs(s: seq<byte>, i: nat): Args
    requires i <= |s|
  {
    var (j, a) := Scan(s, i, 0);
    ScanBounds(s, i, 0);
    if j == i || j == |s| || s[j] != COMMA then BadArgs
    else
      ScanBounds(s, j + 1, 0);
      var (k, l) := Scan(s, j + 1, 0);
      if k == j + 1 || l >= TWO32 then BadArgs else Args(a, Signed(l), k)
  }

  lemma {:induction false} ScanBounds(s: seq<byte>, i: nat, acc: nat)
    requires i <= |s|
    ensures i <= Scan(s, i, acc).0 <= |s|
    ensures acc < TWO32 ==> Scan(s, i, acc).1 < TWO32
    decreases |s| - i
  {
    if i < |s| && Hex(s[i]) >= 0 {
      if acc < TWO32 {
        ShiftOr(acc, Hex(s[i]));
      }
      ScanBounds(s, i + 1, Or(Wrap(acc * 16), Hex(s[i])));
    }
  }

  function Count(a: Args): nat
    requires a.Args?
  {
    if a.length > 0 then a.length else 0
  }

  /** What a memory command comes to: a reply, or an access behind one of the buffers, which the code does not check. */
  datatype Outcome = Outside | Replies(text: seq<byte>)

  function ReplyFor(how: Transfer, text: seq<byte>): Outcome {
    match how
    case Done => Replies(text)
    case Fault => Replies(E03)
    case Overrun => Outside
  }

  /** Outcome of `m`. */
  function ReadReply(s: seq<byte>, i: nat, mem: seq<byte>): Outcome
    requires i <= |s|
  {
    var a := ParseArgs(s, i);
    if a.BadArgs? then Replies(E01)
    else
      var avail := Present(a.addr, |mem|);
      ReplyFor(EncodeEnd(Count(a), avail, BUFMAX), HexOf(Block(mem, a.addr, Converted(Count(a), avail, BUFMAX))))
  }

  /** Memory and outcome of `M`. */
  function WriteReply(s: seq<byte>, i: nat, mem: seq<byte>): (seq<byte>, Outcome)
    requires i <= |s|
  {
    var a := ParseArgs(s, i);
    if a.BadArgs? || a.next >= |s| || s[a.next] != COLON then (mem, Replies(E02))
    else
      var k, avail := a.next + 1, Present(a.addr, |mem|);
      var n := Converted(Count(a), avail, |s| - k);
      (Stored(mem, a.addr, BytesOf(s[k..k + 2 * n])), ReplyFor(DecodeEnd(Count(a), avail, |s| - k), OK))
  }

  /** For memory that exists the digits and the NUL of an `m` stay inside the buffer exactly for less than 200 bytes. */
  lemma ReadInside(s: seq<byte>, i: nat, mem: seq<byte>)
    requires i <= |s| && ParseArgs(s, i).Args?
    ensures var a := ParseArgs(s, i);
            a.addr + Count(a) <= |mem| ==> (ReadReply(s, i, mem).Replies? <==> 2 * a.length < BUFMAX)
  {
    hide ParseArgs, HexOf, Block;
  }

  /** An instance: `m0,c8` asks for 200 bytes, which need 401 characters. */
  lemma TwoHundredBytesOverrun(mem: seq<byte>)
    requires |mem| >= 200
    ensures var s: seq<byte> := [0x6d, 0x30, COMMA, 0x63, 0x38, 0];
            ParseArgs(s, 1) == Args(0, 200, 5) && ReadReply(s, 1, mem) == Outside
  {
    var s: seq<byte> := [0x6d, 0x30, COMMA, 0x63, 0x38, 0];
    var a: seq<byte>, l: seq<byte> := [0x30], [0x63, 0x38];
    hide ReadReply, ParseArgs;
    assert l[..1] == [0x63] && HexValue([0x63]) == 12;
    assert HexValue(a) == 0 && HexValue(l) == 200;
    assert s[1..5] == a + [COMMA] + l;
    ArgsParsed(s, 1, a, 0, l, 200);
    ReadInside(s, 1, mem);
  }

  /**
   `M` replies OK exactly if the memory exists and all digits are inside the input
   buffer; whatever the outcome, no byte outside the named range changes.
   */
  lemma WriteInside(s: seq<byte>, i: nat, mem: seq<byte>)
    requires i <= |s| && ParseArgs(s, i).Args?
    requires var a := ParseArgs(s, i);
             a.length > 0 && a.next < |s| && s[a.next] == COLON
    ensures var a, (m, o) := ParseArgs(s, i), WriteReply(s, i, mem);
            && (o == Replies(OK) <==> a.addr + a.length <= |mem| && a.next + 1 + 2 * a.length <= |s|)
            && (o == Outside ==> a.next + 1 + 2 * a.length > |s|)
            && |m| == |mem| && forall k :: 0 <= k < |mem| && !(a.addr <= k < a.addr + a.length) ==> m[k] == mem[k]
  {
    hide ParseArgs, BytesOf;
  }

  /** Text that is a hexadecimal number, of any length, which is `v` modulo 2^32. */
  ghost predicate Number(t: seq<byte>, v: nat) {
    t != [] && AllHex(t) && v == Wrap(HexValue(t))
  }

  lemma ScanNumber(s: seq<byte>, i: nat, t: seq<byte>, v: nat)
    requires Number(t, v) && i + |t| < |s| && s[i..i + |t|] == t && Hex(s[i + |t|]) < 0
    ensures Scan(s, i, 0) == (i + |t|, v)
  {
    var r := s[i..];
    assert r[..|t|] == t && r[|t|] == s[i + |t|] && r[..0] == [];
    ScanReads(r, 0, |t|, 0);
    ScanSuffix(s, i, 0, 0);
  }

  lemma {:induction false} ScanSuffix(s: seq<byte>, i: nat, j: nat, acc: nat)
    requires i + j <= |s|
    ensures var (k, v) := Scan(s[i..], j, acc);
            Scan(s, i + j, acc) == (i + k, v)
    decreases |s| - i - j
  {
    var r := s[i..];
    if j < |r| {
      assert r[j] == s[i + j];
      if Hex(r[j]) >= 0 {
        ScanSuffix(s, i, j + 1, Or(Wrap(acc * 16), Hex(r[j])));
      }
    }
  }

  /** The text `a,l` followed by a non-digit parses to the two numbers. */
  lemma ArgsParsed(s: seq<byte>, i: nat, a: seq<byte>, addr: nat, l: seq<byte>, length: nat)
    requires Number(a, addr) && Number(l, length)
    requires i + |a| + 1 + |l| < |s| && s[i..i + |a| + 1 + |l|] == a + [COMMA] + l
    requires Hex(s[i + |a| + 1 + |l|]) < 0
    ensures ParseArgs(s, i) == Args(addr, Signed(length), i + |a| + 1 + |l|)
  {
    var t := s[i..i + |a| + 1 + |l|];
    assert s[i..i + |a|] == t[..|a|] == a;
    assert s[i + |a|] == t[|a|] == COMMA;
    assert s[i + |a| + 1..i + |a| + 1 + |l|] == t[|a| + 1..] == l;
    ScanNumber(s, i, a, addr);
    ScanNumber(s, i + |a| + 1, l, length);
  }

  /** `x` and its length are what the operands at `i` announce: `a,l` and then the text. */
  ghost predicate Operands(s: seq<byte>, i: nat, a: seq<byte>, addr: nat, l: seq<byte>, length: nat) {
    && Number(a, addr) && Number(l, length)
    && i + |a| + 1 + |l| < |s| && s[i..i + |a| + 1 + |l|] == a + [COMMA] + l
  }

  /** A well-formed `M` stores the decoded bytes at the address and nothing else. */
  lemma WriteStores(s: seq<byte>, i: nat, mem: seq<byte>, a: seq<byte>, addr: nat, l: seq<byte>, length: nat,
                    x: seq<byte>)
    requires Operands(s, i, a, addr, l, length) && s[i + |a| + 1 + |l|] == COLON
    requires |x| == 2 * length && 0 < length < 0x8000_0000 && addr + length <= |mem|
    requires var k := i + |a| + 2 + |l|;
             k + |x| <= |s| && s[k..k + |x|] == x
    ensures WriteReply(s, i, mem) == (mem[..addr] + BytesOf(x) + mem[addr + length..], Replies(OK))
  {
    ArgsParsed(s, i, a, addr, l, length);
    hide ParseArgs, BytesOf, Operands;
  }

  /** A well-formed `m` replies with the lower-case digits of the bytes at the address. */
  lemma ReadReplies(s: seq<byte>, i: nat, mem: seq<byte>, a: seq<byte>, addr: nat, l: seq<byte>, length: nat)
    requires Operands(s, i, a, addr, l, length) && Hex(s[i + |a| + 1 + |l|]) < 0
    requires 0 < length && addr + length <= |mem| && 2 * length < BUFMAX
    ensures ReadReply(s, i, mem) == Replies(HexOf(mem[addr..addr + length]))
  {
    ArgsParsed(s, i, a, addr, l, length);
    hide ParseArgs, HexOf, Operands;
  }

  /**
   `m` after `M` returns what was written, lower-cased, whatever numerals name the
   place, as long as the reply fits the buffer; memory outside it is unchanged.
   */
  lemma ReadAfterWrite(s: seq<byte>, i: nat, s': seq<byte>, i': nat, mem: seq<byte>, addr: nat, length: nat,
                       a: seq<byte>, l: seq<byte>, x: seq<byte>, a': seq<byte>, l': seq<byte>)
    requires Operands(s, i, a, addr, l, length) && s[i + |a| + 1 + |l|] == COLON
    requires Operands(s', i', a', addr, l', length) && s'[i' + |a'| + 1 + |l'|] == 0
    requires AllHex(x) && |x| == 2 * length < BUFMAX && 0 < length && addr + length <= |mem|
    requires var k := i + |a| + 2 + |l|;
             k + |x| <= |s| && s[k..k + |x|] == x
    ensures var w := WriteReply(s, i, mem);
            && w.1 == Replies(OK) && |w.0| == |mem| && ReadReply(s', i', w.0) == Replies(Lower(x))
            && forall k :: 0 <= k < |mem| && !(addr <= k < addr + length) ==> w.0[k] == mem[k]
  {
    WriteStores(s, i, mem, a, addr, l, length, x);
    var w := WriteReply(s, i, mem).0;
    hide Operands, BytesOf, HexOf, AllHex, WriteReply;
    ReadReplies(s', i', w, a', addr, l', length);
    assert w[addr..addr + length] == BytesOf(x);
    EncodeDecode(x);
  }

  /**
   Replaying a `g` reply: the packet `G` followed by the register digits arrives
   unchanged behind any legal segments, and decoding its digits gives the registers.
   */
  lemma RegistersReplayed(gs: seq<Segment>, regs: seq<byte>, rest: seq<byte>, buf: seq<byte>, sent: seq<byte>)
    requires |buf| == BUFMAX && Legal(gs) && |regs| == NUMREGBYTES
    ensures var p := [0x47] + HexOf(regs);
            var r := Hunt(RenderAll(gs) + FrameOf(p) + rest, buf, sent);
            && r.Received? && r.start == 0 && r.rest == rest && r.sent == sent + Naks(gs) + [PLUS]
            && |r.buf| == BUFMAX && r.buf[0] == 0x47
            && BytesOf(r.buf[1..1 + 2 * NUMREGBYTES]) == regs
  {
    var p := [0x47] + HexOf(regs);
    RegisterTextIsClean(regs);
    FrameOfIsGood(p);
    GoodPacketReceived(gs, p, DigitChar(Checksum(p) as int / 16), DigitChar(Checksum(p) as int % 16), rest, buf, sent);
    hide Hunt, FrameOf, RenderAll, BufAfter, Naks, Checksum, DigitChar;
    var b := Terminated(BufAfter(gs, buf), p);
    assert b[0] == p[0] && b[2] == p[2];
    assert b[1..1 + 2 * NUMREGBYTES] == p[1..] == HexOf(regs);
    DecodeEncode(regs);
  }

  lemma RegisterTextIsClean(regs: seq<byte>)
    requires |regs| == NUMREGBYTES
    ensures Clean([0x47] + HexOf(regs)) && HexOf(regs)[1] != COLON
  {
    forall k | 0 <= k < 2 * |regs|
      ensures HexOf(regs)[k] != DOLLAR && HexOf(regs)[k] != HASH && HexOf(regs)[k] != COLON
    {
      HexTextIsLower(regs, k);
    }
  }

  // ------------------------------------------------------------------ errors

  /** From `i` on there are digits up to a comma at `j`, and more digits from there to `k`. */
  ghost predicate TwoNumbers(s: seq<byte>, i: nat, j: nat, k: nat) {
    && i < j && j + 1 < k <= |s| && s[j] as char == ','
    && AllHex(s[i..j]) && AllHex(s[j + 1..k])
  }

  /** Two numbers with a colon behind them. */
  ghost predicate TwoNumbersColon(s: seq<byte>, i: nat, j: nat, k: nat) {
    TwoNumbers(s, i, j, k) && k < |s| && s[k] as char == ':'
  }

  /** A scan goes over digits and stops at the first other character. */
  lemma {:induction false} ScanRun(s: seq<byte>, i: nat, acc: nat)
    requires i <= |s|
    ensures var j := Scan(s, i, acc).0;
            && i <= j <= |s| && (forall n :: i <= n < j ==> Hex(s[n]) >= 0) && (j == |s| || Hex(s[j]) < 0)
    decreases |s| - i
  {
    if i < |s| && Hex(s[i]) >= 0 {
      ScanRun(s, i + 1, Or(Wrap(acc * 16), Hex(s[i])));
    }
  }

  lemma HexRun(s: seq<byte>, i: nat, j: nat)
    requires i <= j <= |s|
    ensures AllHex(s[i..j]) <==> forall n :: i <= n < j ==> Hex(s[n]) >= 0
  {
    if AllHex(s[i..j]) {
      forall n | i <= n < j
        ensures Hex(s[n]) >= 0
      {
        assert s[i..j][n - i] == s[n];
      }
    }
  }

  /** Operands are accepted exactly if two numbers stand there, and the colon looked for is the one behind them. */
  lemma ParseArgsIff(s: seq<byte>, i: nat)
    requires i <= |s|
    ensures ParseArgs(s, i).Args? <==> exists j: nat, k: nat :: TwoNumbers(s, i, j, k)
    ensures ParseArgs(s, i).Args? && ParseArgs(s, i).next < |s| && s[ParseArgs(s, i).next] as char == ':'
            <==> exists j: nat, k: nat :: TwoNumbersColon(s, i, j, k)
  {
    hide Scan, Hex, AllHex;
    var a := ParseArgs(s, i);
    ScanRun(s, i, 0);
    var j := Scan(s, i, 0).0;
    if j < |s| {
      ScanRun(s, j + 1, 0);
      ScanBounds(s, j + 1, 0);
    }
    if a.Args? {
      HexRun(s, i, j);
      HexRun(s, j + 1, a.next);
      assert TwoNumbers(s, i, j, a.next);
      assert a.next < |s| && s[a.next] as char == ':' ==> TwoNumbersColon(s, i, j, a.next);
    }
    forall j': nat, k: nat | TwoNumbers(s, i, j', k)
      ensures j' == j && a.Args? && (k < |s| && s[k] as char == ':' ==> k == a.next)
    {
      HexRun(s, i, j');
      HexRun(s, j' + 1, k);
      NoDigits();
    }
  }

  lemma NoDigits()
    ensures forall ch: byte :: ch as char == ',' || ch as char == ':' ==> Hex(ch) < 0
  {
  }

  lemma ReplyTexts()
    ensures OK == Ascii("OK") && E01 == Ascii("E01") && E02 == Ascii("E02") && E03 == Ascii("E03")
    ensures |OK| == 2 && |E01| == 3 && |E02| == 3 && |E03| == 3 && E01 != E03 && E02 != E03
  {
  }

  /** `m` replies E01 exactly if no two numbers with a comma between them stand at its operand. */
  lemma ReadErrors(s: seq<byte>, i: nat, mem: seq<byte>)
    requires i <= |s|
    ensures ReadReply(s, i, mem) == Replies(Ascii("E01")) <==> !exists j: nat, k: nat :: TwoNumbers(s, i, j, k)
  {
    ParseArgsIff(s, i);
    ReplyTexts();
    hide ParseArgs, TwoNumbers, Block, Converted;
  }

  /** `M` replies E02 exactly if no such numbers followed by a colon stand there, and then stores nothing. */
  lemma WriteErrors(s: seq<byte>, i: nat, mem: seq<byte>)
    requires i <= |s|
    ensures var (m, o) := WriteReply(s, i, mem);
            && (o == Replies(Ascii("E02")) <==> !exists j: nat, k: nat :: TwoNumbersColon(s, i, j, k))
            && (o == Replies(Ascii("E02")) ==> m == mem)
  {
    ParseArgsIff(s, i);
    ReplyTexts();
    assert [COLON] == Ascii(":");
    hide ParseArgs, TwoNumbersColon, BytesOf, Stored, Converted;
  }

  /** How many of the bytes at an address there are. */
  ghost predicate PresentAt(mem: seq<byte>, addr: nat, n: nat) {
    if addr < |mem| then n == |mem| - addr else n == 0
  }

  /**
   The outcome of `m` on well-formed operands, `n` bytes being there: the digits
   if all bytes are there and digits and NUL fit the 400 characters, E03 if the first
   missing byte comes up before the digits fill the buffer.
   */
  lemma ReadOutcome(s: seq<byte>, i: nat, mem: seq<byte>, a: seq<byte>, addr: nat, l: seq<byte>, length: nat, n: nat)
    requires Operands(s, i, a, addr, l, length) && Hex(s[i + |a| + 1 + |l|]) < 0
    requires 0 < length < 0x8000_0000 && PresentAt(mem, addr, n)
    ensures ReadReply(s, i, mem)
            == if length <= n && length < 200 then Replies(HexOf(mem[addr..addr + length]))
               else if n < length && n <= 200 then Replies(Ascii("E03"))
               else Outside
  {
    ArgsParsed(s, i, a, addr, l, length);
    ReplyTexts();
    hide ParseArgs, HexOf, Operands;
  }

  /**
   The outcome of `M` on well-formed operands, `n` bytes being there and `x` the
   rest of the buffer: OK if all bytes are there and their digits are inside, E03
   with exactly the `n` bytes stored if the digits of the first missing byte still are.
   */
  lemma WriteOutcome(s: seq<byte>, i: nat, mem: seq<byte>, a: seq<byte>, addr: nat, l: seq<byte>, length: nat,
                     n: nat, x: seq<byte>)
    requires Operands(s, i, a, addr, l, length) && s[i + |a| + 1 + |l|] as char == ':'
    requires 0 < length < 0x8000_0000 && PresentAt(mem, addr, n) && x == s[i + |a| + 2 + |l|..]
    ensures var (m, o) := WriteReply(s, i, mem);
            if length <= n && 2 * length <= |x| then
              o == Replies(Ascii("OK")) && m == mem[..addr] + BytesOf(x[..2 * length]) + mem[addr + length..]
            else if n < length && 2 * n + 2 <= |x| then
              o == Replies(Ascii("E03")) && m == if n == 0 then mem else mem[..addr] + BytesOf(x[..2 * n])
            else o == Outside
  {
    hide ParseArgs, BytesOf, Number, Hex, Ascii;
    NoDigits();
    ArgsParsed(s, i, a, addr, l, length);
    ReplyTexts();
    var k, stored := i + |a| + 2 + |l|, Converted(length, n, |x|);
    assert Present(addr, |mem|) == n && s[k - 1] == COLON;
    assert s[k..k + 2 * stored] == x[..2 * stored];
  }

  /** A length that is 0, or negative as a 32-bit number, moves nothing. */
  lemma NothingMoved(s: seq<byte>, i: nat, mem: seq<byte>, a: seq<byte>, addr: nat, l: seq<byte>, length: nat)
    requires Operands(s, i, a, addr, l, length) && Hex(s[i + |a| + 1 + |l|]) < 0
    requires length == 0 || length >= 0x8000_0000
    ensures ReadReply(s, i, mem) == Replies([])
    ensures s[i + |a| + 1 + |l|] as char == ':' ==> WriteReply(s, i, mem) == (mem, Replies(Ascii("OK")))
  {
    ArgsParsed(s, i, a, addr, l, length);
    ReplyTexts();
    hide ParseArgs, Operands;
  }

  lemma OneMoreDigit(t: seq<byte>, v: nat, ch: byte)
    requires Number(t, v) && Hex(ch) >= 0 && 16 * v + Hex(ch) < TWO32
    ensures Number(t + [ch], 16 * v + Hex(ch))
  {
    assert (t + [ch])[..|t|] == t;
    WrapStep(HexValue(t), Hex(ch));
    hide Hex;
  }

  lemma OneDigit(ch: byte)
    requires Hex(ch) >= 0
    ensures Number([ch], Hex(ch))
  {
    assert [ch][..0] == [];
  }

  lemma ExampleNumbers()
    ensures Number(Ascii("0"), 0) && Number(Ascii("2"), 2) && Number(Ascii("4"), 4)
    ensures Number(Ascii("100"), 0x100) && Number(Ascii("2000"), 0x2000)
  {
    OneDigit(0x30);
    OneDigit(0x31);
    OneDigit(0x32);
    OneDigit(0x34);
    assert [0x31] + [0x30] == [0x31, 0x30] && [0x32] + [0x30] == [0x32, 0x30];
    assert [0x32, 0x30] + [0x30] == [0x32, 0x30, 0x30];
    OneMoreDigit([0x31], 1, 0x30);
    OneMoreDigit([0x31, 0x30], 0x10, 0x30);
    OneMoreDigit([0x32], 2, 0x30);
    OneMoreDigit([0x32, 0x30], 0x20, 0x30);
    OneMoreDigit([0x32, 0x30, 0x30], 0x200, 0x30);
    hide Number;
    assert Ascii("0") == [0x30] && Ascii("2") == [0x32] && Ascii("4") == [0x34];
    assert Ascii("100") == [0x31, 0x30] + [0x30] && Ascii("2000") == [0x32, 0x30, 0x30] + [0x30];
  }

  /** Instances of errors: memory that ends at 0x1000, and a colon that is missing. */
  lemma ErrorExamples(mem: seq<byte>)
    requires |mem| == 0x1000
    ensures ReadReply(Ascii("m2000,4") + [0], 1, mem) == Replies(Ascii("E03"))
    ensures WriteReply(Ascii("M100,4") + [0], 1, mem) == (mem, Replies(Ascii("E02")))
  {
    hide ReadReply, Hex, Number;
    ExampleNumbers();
    EndOfText();
    ReplyTexts();
    var s, t := Ascii("m2000,4") + [0], Ascii("M100,4") + [0];
    assert s[1..7] == Ascii("2000") + [COMMA] + Ascii("4");
    assert t[1..6] == Ascii("100") + [COMMA] + Ascii("4");
    ReadOutcome(s, 1, mem, Ascii("2000"), 0x2000, Ascii("4"), 4, 0);
    ArgsParsed(t, 1, Ascii("100"), 0x100, Ascii("4"), 4);
    hide ParseArgs;
  }

  lemma EndOfText()
    ensures Hex(0) < 0 && Hex(0x3a) < 0
  {
  }

  /** Instances that move two bytes: digits of either case are read, lower case is written, high digit first. */
  lemma TransferExamples(mem: seq<byte>)
    requires |mem| >= 2
    ensures var (m, o) := WriteReply(Ascii("M0,2:1FA0") + [0], 1, mem);
            o == Replies(Ascii("OK")) && m == [0x1f, 0xa0] + mem[2..]
    ensures mem[..2] == [0x1f, 0xa0] ==> ReadReply(Ascii("m0,2") + [0], 1, mem) == Replies(Ascii("1fa0"))
  {
    hide ReadReply, WriteReply, Number, HexOf, BytesOf, Hex;
    ExampleNumbers();
    EndOfText();
    ExampleEncoded();
    ExampleDecoded();
    var s, t := Ascii("M0,2:1FA0") + [0], Ascii("m0,2") + [0];
    assert s[1..4] == Ascii("0") + [COMMA] + Ascii("2") == t[1..4];
    WriteOutcome(s, 1, mem, Ascii("0"), 0, Ascii("2"), 2, |mem|, s[5..]);
    ReadOutcome(t, 1, mem, Ascii("0"), 0, Ascii("2"), 2, |mem|);
    assert s[5..][..4] == Ascii("1FA0") && mem[..0] + [0x1f, 0xa0] == [0x1f, 0xa0] && mem[0..2] == mem[..2];
  }

  lemma ExampleEncoded()
    ensures HexOf([0x1f, 0xa0]) == Ascii("1fa0")
  {
    hide Hex;
    var b: seq<byte>, t := [0x1f, 0xa0], HexOf([0x1f, 0xa0]);
    assert t[0] == DigitChar(1) && t[1] == DigitChar(15) && t[2] == DigitChar(10) && t[3] == DigitChar(0);
  }

  lemma ExampleDecoded()
    ensures BytesOf(Ascii("1FA0")) == [0x1f, 0xa0]
  {
    var t := Ascii("1FA0");
    assert t == [0x31, 0x46, 0x41, 0x30];
    HexByteTruncates(t[0], t[1]);
    HexByteTruncates(t[2], t[3]);
    assert Hex(0x31) == 1 && Hex(0x46) == 15 && Hex(0x41) == 10 && Hex(0x30) == 0;
    hide Hex, HexByte, Ascii;
    assert BytesOf(t)[0] == 0x1f && BytesOf(t)[1] == 0xa0;
  }

  lemma ChecksumAppend(p: seq<byte>, c: byte)
    ensures Checksum(p + [c]) == ((Checksum(p) as int + c as int) % 0x100) as byte
  {
    assert (p + [c])[..|p|] == p;
  }

  lemma FrameBytes(p: seq<byte>, sent: seq<byte>)
    ensures var c := Checksum(p) as int;
            sent + FrameOf(p) == sent + [DOLLAR] + p + [HASH] + [DigitChar(c / 16)] + [DigitChar(c % 16)]
  {
  }

  class Stub {
    /** `remcomInBuffer` and `remcomOutBuffer` */
    const inBuf: array<byte>
    const outBuf: array<byte>
    const registers: array<byte>
    const memory: array<byte>
    /** Characters not yet read from the line, and characters sent. */
    var input: seq<byte>
    var output: seq<byte>

    ghost predicate Valid()
      reads this
    {
      && inBuf.Length == BUFMAX && outBuf.Length == BUFMAX && registers.Length == NUMREGBYTES
      && inBuf != outBuf && inBuf != registers && inBuf != memory
      && outBuf != registers && outBuf != memory && registers != memory
    }

    /** The static buffers, whose contents are arbitrary here, and a line with the characters to come. */
    constructor (memory: array<byte>, line: seq<byte>)
      ensures Valid() && this.memory == memory && input == line && output == []
      ensures inBuf.Length == 400 && outBuf.Length == 400 && registers.Length == 64
      ensures fresh(inBuf) && fresh(outBuf) && fresh(registers)
    {
      inBuf, outBuf, registers := new byte[BUFMAX], new byte[BUFMAX], new byte[NUMREGBYTES];
      this.memory, input, output := memory, line, [];
    }

    method GetDebugChar() returns (ok: bool, ch: byte)
      modifies `input
      ensures ok <==> old(input) != []
      ensures ok ==> ch == old(input)[0] && input == old(input)[1..]
      ensures !ok ==> input == []
    {
      if input == [] {
        return false, 0;
      }
      ok, ch, input := true, input[0], input[1..];
    }

    method PutDebugChar(ch: byte)
      modifies `output
      ensures output == old(output) + [ch]
    {
      output := output + [ch];
    }

    /** The call has come to what the stream function says. */
    ghost predicate ComesTo(r: Reception, ok: bool, start: nat)
      reads this, inBuf
    {
      && inBuf[..] == r.buf && output == r.sent
      && ok == r.Received? && (if r.Received? then start == r.start && input == r.rest else input == [])
    }

    /** `getpacket`: `start` is the offset of the returned pointer in the buffer. */
    method GetPacket() returns (ok: bool, start: nat)
      requires Valid()
      modifies `input, `output, inBuf
      ensures ComesTo(Hunt(old(input), old(inBuf[..]), old(output)), ok, start)
    {
      ghost var goal := Hunt(input, inBuf[..], output);
      start := 0;
      while true
        invariant Hunt(input, inBuf[..], output) == goal
        decreases |input|
      {
        ok := FindDollar();
        if !ok {
          return;
        }
        var count, checksum, hash;
        ok, count, checksum, hash := ReadBody();
        if !ok {
          return;
        }
        if hash {
          var good;
          ok, good := ReadTrailer(count, checksum);
          if !ok {
            return;
          }
          if good {
            PutDebugChar(PLUS);
            // a sequence character is echoed
            if inBuf[2] == COLON {
              PutDebugChar(inBuf[0]);
              PutDebugChar(inBuf[1]);
              start := 3;
            }
            return;
          }
          PutDebugChar(MINUS);
        }
      }
    }

    /** Skips characters up to and including the start character. */
    method FindDollar() returns (ok: bool)
      requires Valid()
      modifies `input
      ensures var r := Hunt(old(input), inBuf[..], output);
              if ok then |input| < |old(input)| && Body(input, 0, inBuf[..], output) == r
              else input == [] && r == Waiting(inBuf[..], output)
    {
      ghost var goal := Hunt(input, inBuf[..], output);
      var ch;
      ok, ch := GetDebugChar();
      while ok && ch != DOLLAR
        invariant |input| <= |old(input)| && (ok ==> |input| < |old(input)|)
        invariant ok ==>
                    goal == if ch == DOLLAR then Body(input, 0, inBuf[..], output)
                            else Hunt(input, inBuf[..], output)
        invariant !ok ==> input == [] && goal == Waiting(inBuf[..], output)
        decreases |input|, ok
      {
        ok, ch := GetDebugChar();
      }
    }

    /**
     Stores characters up to `#` or until the buffer is full, starting over at
     each `$`, and terminates the text. `hash` tells which of the two ended it.
     */
    method ReadBody() returns (ok: bool, count: nat, checksum: byte, hash: bool)
      requires Valid()
      modifies `input, inBuf
      ensures var r := Body(old(input), 0, old(inBuf[..]), output);
              if !ok then input == [] && r == Waiting(inBuf[..], output)
              else
                && count < BUFMAX && |input| <= |old(input)| && checksum == Checksum(inBuf[..count])
                && r == if hash then Trailer(input, count, inBuf[..], output) else Hunt(input, inBuf[..], output)
    {
      ghost var goal := Body(input, 0, inBuf[..], output);
      var ch: byte := DOLLAR;
      count, checksum, hash := 0, 0, false;
      while count < BUFMAX - 1
        invariant count < BUFMAX && ch != HASH && |input| <= |old(input)|
        invariant Body(input, count, inBuf[..], output) == goal && checksum == Checksum(inBuf[..count])
        decreases |input|
      {
        ok, ch := GetDebugChar();
        if !ok {
          return;
        }
        if ch == DOLLAR {
          count, checksum := 0, 0;
          continue;
        }
        if ch == HASH {
          break;
        }
        ghost var before := inBuf[..];
        inBuf[count] := ch;
        assert inBuf[..] == before[count := ch] && inBuf[..count + 1] == before[..count] + [ch];
        ChecksumAppend(before[..count], ch);
        checksum := ((checksum as int + ch as int) % 0x100) as byte;
        count := count + 1;
      }
      ghost var before := inBuf[..];
      inBuf[count] := 0;
      assert inBuf[..] == before[count := 0] && inBuf[..count] == before[..count];
      ok, hash := true, ch == HASH;
    }

    /** Reads the two checksum characters and compares. */
    method ReadTrailer(ghost count: nat, checksum: byte) returns (ok: bool, good: bool)
      requires Valid() && count < BUFMAX && checksum == Checksum(inBuf[..count])
      modifies `input
      ensures var r := Trailer(old(input), count, inBuf[..], output);
              if !ok then input == [] && r == Waiting(inBuf[..], output)
              else
                && |input| <= |old(input)|
                && r == if good then Accept(count, inBuf[..], input, output)
                        else Hunt(input, inBuf[..], output + [MINUS])
    {
      good := false;
      var ch, low;
      ok, ch := GetDebugChar();
      if !ok {
        return;
      }
      var xmitcsum := (Hex(ch) * 16 % 0x100) as byte;
      ok, low := GetDebugChar();
      if !ok {
        return;
      }
      xmitcsum := ((xmitcsum as int + Hex(low) % 0x100) % 0x100) as byte;
      good := checksum == xmitcsum;
    }

    /** `putpacket` for the string in the output buffer. */
    method PutPacket() returns (acked: bool)
      requires Valid() && 0 in outBuf[..]
      modifies `input, `output
      ensures (acked, input, output) == Put(CString(outBuf[..], 0), old(input), old(output))
    {
      ghost var p, goal := CString(outBuf[..], 0), Put(CString(outBuf[..], 0), input, output);
      while true
        invariant Put(p, input, output) == goal
        decreases |input|
      {
        SendFrame(p);
        var ok, ch := GetDebugChar();
        if !ok {
          return false;
        }
        if ch == PLUS {
          return true;
        }
      }
    }

    /** One transmission. */
    method SendFrame(ghost p: seq<byte>)
      requires Valid() && 0 in outBuf[..] && p == CString(outBuf[..], 0)
      modifies `output
      ensures output == old(output) + FrameOf(p)
    {
      FrameBytes(p, output);
      hide FrameOf, DigitChar, Checksum, CString;
      PutDebugChar(DOLLAR);
      var checksum := SendText(p);
      PutDebugChar(HASH);
      PutDebugChar(DigitChar(checksum as int / 16));
      PutDebugChar(DigitChar(checksum as int % 16));
    }

    /** Sends the characters up to the NUL and sums them up. */
    method SendText(ghost p: seq<byte>) returns (checksum: byte)
      requires Valid() && 0 in outBuf[..] && p == CString(outBuf[..], 0)
      modifies `output
      ensures output == old(output) + p && checksum == Checksum(p)
    {
      ghost var z :| 0 <= z < BUFMAX && outBuf[z] == 0;
      CStringEnds(outBuf[..], 0, z);
      ghost var n := |p|;
      assert forall i :: 0 <= i < n ==> p[i] == outBuf[i] && p[i] != 0;
      hide CString;
      checksum := 0;
      var count := 0;
      while outBuf[count] != 0
        invariant count <= n && checksum == Checksum(p[..count])
        invariant output == old(output) + p[..count]
        decreases n - count
      {
        var ch := outBuf[count];
        assert p[..count + 1] == p[..count] + [ch];
        ChecksumAppend(p[..count], ch);
        PutDebugChar(ch);
        checksum := ((checksum as int + ch as int) % 0x100) as byte;
        count := count + 1;
      }
      assert p[..count] == p;
    }

    /** `scopy` of a constant reply into the output buffer. */
    method Reply(t: seq<byte>)
      requires Valid() && NoNul(t) && |t| < BUFMAX
      modifies outBuf
      ensures CString(outBuf[..], 0) == t
    {
      for i := 0 to |t|
        invariant outBuf[..i] == t[..i]
      {
        outBuf[i] := t[i];
      }
      outBuf[|t|] := 0;
      CStringIs(outBuf[..], 0, t);
    }

    /** Command `g` */
    method ReadRegisters()
      requires Valid()
      modifies outBuf
      ensures CString(outBuf[..], 0) == HexOf(registers[..])
    {
      var how, end := Mem2Hex(registers, 0, outBuf, 0, NUMREGBYTES, false);
      HexOfHasNoNul(registers[..]);
      CStringIs(outBuf[..], 0, HexOf(registers[..]));
    }

    /** Command `G`, its digits starting at `ptr` */
    method WriteRegisters(ptr: nat)
      requires Valid() && ptr + 2 * NUMREGBYTES <= BUFMAX
      modifies registers, outBuf
      ensures registers[..] == BytesOf(inBuf[ptr..ptr + 2 * NUMREGBYTES])
      ensures CString(outBuf[..], 0) == OK
    {
      hide BytesOf, CString, Stored, DecodeEnd, Hex;
      var how, end := Hex2Mem(inBuf, ptr, registers, 0, NUMREGBYTES, false);
      StoredWhole(old(registers[..]), BytesOf(inBuf[ptr..ptr + 2 * NUMREGBYTES]));
      Reply(OK);
    }

    /** The operands of `m` and `M`: `ok` is false for text of another form. */
    method ReadArgs(ptr: nat) returns (ok: bool, addr: nat, length: int, next: nat)
      requires Valid() && exists z :: ptr <= z < BUFMAX && inBuf[z] == 0
      ensures if ok then ParseArgs(inBuf[..], ptr) == Args(addr, length, next) else ParseArgs(inBuf[..], ptr) == BadArgs
      ensures ok ==> next < BUFMAX
    {
      ScanBounds(inBuf[..], ptr, 0);
      ok, length := false, 0;
      var digits, word;
      next, digits, addr := HexToInt(inBuf, ptr);
      if digits == 0 || inBuf[next] != COMMA {
        return;
      }
      ScanBounds(inBuf[..], next + 1, 0);
      assert exists z :: next + 1 <= z < BUFMAX && inBuf[z] == 0 by {
        ScanStopsAtNul(inBuf[..], ptr);
      }
      next, digits, word := HexToInt(inBuf, next + 1);
      ok, length := digits != 0, Signed(word);
    }

    /** Command `m`; `inside` is false where it leaves the output buffer. */
    method ReadMemory(ptr: nat) returns (inside: bool)
      requires Valid() && exists z :: ptr <= z < BUFMAX && inBuf[z] == 0
      modifies outBuf
      ensures var r := ReadReply(inBuf[..], ptr, memory[..]);
              inside == r.Replies? && (inside ==> CString(outBuf[..], 0) == r.text)
    {
      hide ParseArgs, HexOf, CString, Block, Converted, EncodeEnd, Present;
      var ok, addr, length, next := ReadArgs(ptr);
      if !ok {
        Reply(E01);
        return true;
      }
      inside := SendMemory(addr, if length > 0 then length else 0);
    }

    /** The reply to a well-formed `m`. */
    method SendMemory(addr: nat, count: nat) returns (inside: bool)
      requires Valid()
      modifies outBuf
      ensures var avail := Present(addr, memory.Length);
              var r := ReplyFor(EncodeEnd(count, avail, BUFMAX),
                                 HexOf(Block(memory[..], addr, Converted(count, avail, BUFMAX))));
              inside == r.Replies? && (inside ==> CString(outBuf[..], 0) == r.text)
    {
      hide HexOf, CString, Block;
      var how, end := Mem2Hex(memory, addr, outBuf, 0, count, true);
      ghost var t := HexOf(Block(memory[..], addr, Converted(count, Present(addr, memory.Length), BUFMAX)));
      if how == Fault {
        Reply(E03);
      } else if how == Done {
        HexOfHasNoNul(Block(memory[..], addr, Converted(count, Present(addr, memory.Length), BUFMAX)));
        CStringIs(outBuf[..], 0, t);
      }
      inside := how != Overrun;
    }

    /** Command `M`; `inside` is false where it reads behind the input buffer. */
    method WriteMemory(ptr: nat) returns (inside: bool)
      requires Valid() && exists z :: ptr <= z < BUFMAX && inBuf[z] == 0
      modifies memory, outBuf
      ensures var (m, r) := WriteReply(inBuf[..], ptr, old(memory[..]));
              memory[..] == m && inside == r.Replies? && (inside ==> CString(outBuf[..], 0) == r.text)
    {
      hide ParseArgs, BytesOf, CString, Stored, Converted, DecodeEnd, Present;
      var ok, addr, length, next := ReadArgs(ptr);
      if !ok || inBuf[next] != COLON {
        Reply(E02);
        return true;
      }
      inside := StoreMemory(next + 1, addr, if length > 0 then length else 0);
    }

    /** Storing and replying to a well-formed `M` whose digits start at `at`. */
    method StoreMemory(at: nat, addr: nat, count: nat) returns (inside: bool)
      requires Valid() && at <= BUFMAX
      modifies memory, outBuf
      ensures var avail, room := Present(addr, memory.Length), BUFMAX - at;
              var n, r := Converted(count, avail, room), ReplyFor(DecodeEnd(count, avail, room), OK);
              && memory[..] == Stored(old(memory[..]), addr, BytesOf(inBuf[at..at + 2 * n]))
              && inside == r.Replies? && (inside ==> CString(outBuf[..], 0) == r.text)
    {
      hide BytesOf, CString, Stored, Converted, DecodeEnd, Present;
      var how, end := Hex2Mem(inBuf, at, memory, addr, count, true);
      if how == Fault {
        Reply(E03);
      } else if how == Done {
        Reply(OK);
      }
      inside := how != Overrun;
    }
  }

  lemma HexOfHasNoNul(bytes: seq<byte>)
    ensures NoNul(HexOf(bytes))
  {
    forall k | 0 <= k < 2 * |bytes|
      ensures HexOf(bytes)[k] != 0
    {
      HexTextIsLower(bytes, k);
    }
  }

  /** A scan never runs over a NUL, so a character where it stops that is not NUL leaves the NUL ahead. */
  lemma ScanStopsAtNul(s: seq<byte>, i: nat)
    requires exists z :: i <= z < |s| && s[z] == 0
    ensures var j := Scan(s, i, 0).0;
            j < |s| && (s[j] != 0 ==> exists z :: j + 1 <= z < |s| && s[z] == 0)
  {
    var z :| i <= z < |s| && s[z] == 0;
    ScanNotPast(s, i, 0, z);
  }

  lemma {:induction false} ScanNotPast(s: seq<byte>, i: nat, acc: nat, z: nat)
    requires i <= z < |s| && s[z] == 0
    ensures i <= Scan(s, i, acc).0 <= z
    decreases z - i
  {
    if Hex(s[i]) >= 0 {
      ScanNotPast(s, i + 1, Or(Wrap(acc * 16), Hex(s[i])), z);
    }
  }
}
