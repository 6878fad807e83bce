/** The hexadecimal codecs of utils/i386-stub.c on byte strings. */
module HexCodec {
  import opened Words
  import opened ByteMemory

  /** `hex`: the value of a digit, -1 for any other character. */
  function Hex(ch: byte): (v: int)
    ensures -1 <= v < 16
  {
    if 0x61 <= ch <= 0x66 then ch as int - 0x61 + 10
    else if 0x30 <= ch <= 0x39 then ch as int - 0x30
    else if 0x41 <= ch <= 0x46 then ch as int - 0x41 + 10
    else -1
  }

  /** The digit with value `d`, lower case; below 16 that is `hexchars[d]`. */
  function DigitChar(d: int): (ch: byte)
    requires 0 <= d < 36
    ensures d < 16 ==> Hex(ch) == d
  {
    if d < 10 then (0x30 + d) as byte else (0x61 + d - 10) as byte
  }

  /** The byte two characters stand for, with the code's 8-bit truncation of -1 for non-digits. */
  function HexByte(high: byte, low: byte): byte {
    ((Hex(high) * 16 % 0x100 + Hex(low) % 0x100) % 0x100) as byte
  }

  /** `mem2hex`: two lower-case digits for each byte. */
  function HexOf(bytes: seq<byte>): (t: seq<byte>)
    ensures |t| == 2 * |bytes|
  {
    seq(2 * |bytes|, k requires 0 <= k < 2 * |bytes| =>
      if k % 2 == 0 then DigitChar(bytes[k / 2] as int / 16) else DigitChar(bytes[k / 2] as int % 16))
  }

  /** `hex2mem`: one byte for each pair of characters. */
  function BytesOf(t: seq<byte>): (bytes: seq<byte>)
    ensures |bytes| == |t| / 2
  {
    seq(|t| / 2, i requires 0 <= i < |t| / 2 => HexByte(t[2 * i], t[2 * i + 1]))
  }

  ghost predicate AllHex(t: seq<byte>) {
    forall i :: 0 <= i < |t| ==> Hex(t[i]) >= 0
  }

  function LowerChar(ch: byte): byte {
    if 0x41 <= ch <= 0x5a then ch + 0x20 else ch
  }

  function Lower(t: seq<byte>): (r: seq<byte>)
    ensures |r| == |t|
  {
    seq(|t|, i requires 0 <= i < |t| => LowerChar(t[i]))
  }

  lemma HexByteValue(high: byte, low: byte)
    requires Hex(high) >= 0 && Hex(low) >= 0
    ensures HexByte(high, low) as int == 16 * Hex(high) + Hex(low)
  {
    hide Hex;
  }

  /** For all characters: -1 is computed with like a digit, modulo 2^8. */
  lemma HexByteTruncates(high: byte, low: byte)
    ensures HexByte(high, low) as int == (16 * Hex(high) + Hex(low)) % 0x100
  {
    hide Hex;
  }

  /** The digits are those of C, in either case, and no other character is one. */
  lemma HexDigits(ch: byte)
    ensures Hex(ch) >= 0 <==> ch as char in "0123456789abcdefABCDEF"
    ensures Hex(ch) >= 0 ==> ch as char == "0123456789abcdef"[Hex(ch)] || ch as char == "0123456789ABCDEF"[Hex(ch)]
    ensures Hex(ch) < 0 ==> Hex(ch) == -1
  {
  }

  /** `hexchars`, and the upper half of the digit table of `itoa`. */
  lemma DigitChars(d: int)
    requires 0 <= d < 36
    ensures DigitChar(d) as char == "0123456789abcdefghijklmnopqrstuvwxyz"[d]
  {
  }

  lemma HexByteOfDigits(v: int)
    requires 0 <= v < 0x100
    ensures HexByte(DigitChar(v / 16), DigitChar(v % 16)) as int == v
  {
    hide Hex, HexByte;
    HexByteValue(DigitChar(v / 16), DigitChar(v % 16));
  }

  /** Decoding undoes encoding on every byte block. */
  lemma DecodeEncode(bytes: seq<byte>)
    ensures BytesOf(HexOf(bytes)) == bytes
  {
    hide Hex, HexByte, DigitChar;
    forall i | 0 <= i < |bytes|
      ensures BytesOf(HexOf(bytes))[i] == bytes[i]
    {
      assert (2 * i) / 2 == i && (2 * i + 1) / 2 == i && (2 * i + 1) % 2 == 1;
      HexByteOfDigits(bytes[i] as int);
    }
  }

  lemma DigitCharOfHex(ch: byte)
    requires Hex(ch) >= 0
    ensures DigitChar(Hex(ch)) == LowerChar(ch)
  {
  }

  lemma EncodeDigits(high: byte, low: byte)
    requires Hex(high) >= 0 && Hex(low) >= 0
    ensures DigitChar(HexByte(high, low) as int / 16) == LowerChar(high)
    ensures DigitChar(HexByte(high, low) as int % 16) == LowerChar(low)
  {
    HexByteValue(high, low);
    DigitCharOfHex(high);
    DigitCharOfHex(low);
    hide Hex, HexByte, DigitChar;
    var v := HexByte(high, low) as int;
    assert v / 16 == Hex(high) && v % 16 == Hex(low);
  }

  lemma HexTextIsLower(bytes: seq<byte>, k: nat)
    requires k < 2 * |bytes|
    ensures Hex(HexOf(bytes)[k]) >= 0
  {
  }

  /** Encoding what has been decoded lower-cases the text, exactly when the text was hexadecimal. */
  lemma EncodeDecode(t: seq<byte>)
    requires |t| % 2 == 0
    ensures HexOf(BytesOf(t)) == Lower(t) <==> AllHex(t)
  {
    var r := HexOf(BytesOf(t));
    if AllHex(t) {
      forall k | 0 <= k < |t|
        ensures r[k] == Lower(t)[k]
      {
        EncodeDigits(t[k / 2 * 2], t[k / 2 * 2 + 1]);
      }
    }
    if r == Lower(t) {
      forall k | 0 <= k < |t|
        ensures Hex(t[k]) >= 0
      {
        HexTextIsLower(BytesOf(t), k);
        assert Hex(LowerChar(t[k])) >= 0;
      }
    }
  }

  // ------------------------------------------------------------------ on memory

  /**
   How a conversion ends: completely, at an address that faults, or at the end of
   the text buffer, which the code does not check.
   */
  datatype Transfer = Done | Fault | Overrun

  function Min(a: nat, b: nat): nat {
    if a < b then a else b
  }

  /** Number of bytes from `from` on in a memory of `size` bytes; the addresses behind it fault. */
  function Present(from: nat, size: nat): nat {
    if from < size then size - from else 0
  }

  /** Bytes converted if `count` are asked for, `avail` are there and the text has room for `room` characters. */
  function Converted(count: nat, avail: nat, room: nat): (n: nat)
    ensures n <= count && n <= avail && 2 * n <= room
  {
    Min(Min(count, avail), room / 2)
  }

  /** How `mem2hex` ends, which writes a NUL behind the digits. */
  function EncodeEnd(count: nat, avail: nat, room: nat): Transfer {
    var n := Min(count, avail);
    if 2 * n > room || (n == count && 2 * n == room) then Overrun else if n < count then Fault else Done
  }

  /** How `hex2mem` ends, which reads the characters of a byte before it stores it. */
  function DecodeEnd(count: nat, avail: nat, room: nat): Transfer {
    if count <= avail && 2 * count <= room then Done else if room / 2 <= avail then Overrun else Fault
  }

  function Block(m: seq<byte>, from: nat, n: nat): (b: seq<byte>)
    requires n <= Present(from, |m|)
    ensures |b| == n
  {
    if n == 0 then [] else m[from..from + n]
  }

  function Stored(m: seq<byte>, to: nat, x: seq<byte>): (r: seq<byte>)
    requires |x| <= Present(to, |m|)
    ensures |r| == |m|
  {
    if x == [] then m else m[..to] + x + m[to + |x|..]
  }

  /** The text `t + u` has been stored at `at`. */
  lemma StoredAt(before: seq<byte>, after: seq<byte>, at: nat, t: seq<byte>, u: seq<byte>)
    requires |after| == |before| && |t + u| <= Present(at, |after|)
    requires forall k :: 0 <= k < |t| ==> after[at + k] == t[k]
    requires forall k :: 0 <= k < |u| ==> after[at + |t| + k] == u[k]
    requires forall k :: 0 <= k < |after| && (k < at || at + |t| + |u| <= k) ==> after[k] == before[k]
    ensures after == Stored(before, at, t + u)
  {
    var x := t + u;
    forall k | 0 <= k < |after|
      ensures after[k] == Stored(before, at, x)[k]
    {
      if at <= k < at + |t| {
        assert after[at + (k - at)] == t[k - at];
      } else if at + |t| <= k < at + |x| {
        assert after[at + |t| + (k - at - |t|)] == u[k - at - |t|];
      }
    }
  }

  lemma StoredWhole(m: seq<byte>, x: seq<byte>)
    requires |x| == |m|
    ensures Stored(m, 0, x) == x
  {
  }

  /** Where the loop of `mem2hex` has stopped behind `i` bytes. */
  lemma EncodeStops(count: nat, avail: nat, room: nat, i: nat, how: Transfer)
    requires i <= count && i <= avail && 2 * i <= room
    requires how == Done ==> i == count && 2 * i < room
    requires how == Fault ==> i < count && i == avail
    requires how == Overrun ==> if i == count then 2 * i == room else i < avail && room < 2 * i + 2
    ensures how == EncodeEnd(count, avail, room) && i == Converted(count, avail, room)
  {
  }

  lemma DecodeStops(count: nat, avail: nat, room: nat, i: nat, how: Transfer)
    requires i <= count && i <= avail && 2 * i <= room
    requires how == Done ==> i == count
    requires how == Fault ==> i < count && i == avail && 2 * i + 2 <= room
    requires how == Overrun ==> i < count && room < 2 * i + 2
    ensures how == DecodeEnd(count, avail, room) && i == Converted(count, avail, room)
  {
  }

  lemma NextDigits(mem: seq<byte>, from: nat, n: nat, i: nat)
    requires i < n <= Present(from, |mem|)
    ensures var t := HexOf(Block(mem, from, n));
            t[2 * i] == DigitChar(mem[from + i] as int / 16) && t[2 * i + 1] == DigitChar(mem[from + i] as int % 16)
  {
    assert (2 * i) / 2 == i && (2 * i + 1) / 2 == i && (2 * i + 1) % 2 == 1;
  }

  lemma NextByte(buf: seq<byte>, at: nat, n: nat, i: nat)
    requires i < n && at + 2 * n <= |buf|
    ensures BytesOf(buf[at..at + 2 * n])[i] as int
            == (Hex(buf[at + 2 * i]) * 16 % 0x100 + Hex(buf[at + 2 * i + 1]) % 0x100) % 0x100
  {
    var text := buf[at..at + 2 * n];
    assert text[2 * i] == buf[at + 2 * i] && text[2 * i + 1] == buf[at + 2 * i + 1];
  }

  /**
   `mem2hex` from `mem[from..]` into `buf[at..]`. With `mayFault` an address
   behind the memory ends it without the NUL; where it would write behind the
   buffer the model stops.
   */
  method Mem2Hex(mem: array<byte>, from: nat, buf: array<byte>, at: nat, count: nat, mayFault: bool)
    returns (how: Transfer, end: nat)
    requires mem != buf && at <= buf.Length && (mayFault || from + count <= mem.Length)
    modifies buf
    ensures how == EncodeEnd(count, Present(from, mem.Length), buf.Length - at)
    ensures var n := Converted(count, Present(from, mem.Length), buf.Length - at);
            && end == at + 2 * n && (how == Done ==> end < buf.Length)
            && buf[..] == Stored(old(buf[..]), at, HexOf(Block(mem[..], from, n)) + if how == Done then [0] else [])
  {
    hide Hex, DigitChar, Block, HexOf, EncodeEnd, Converted, Stored;
    ghost var avail, room, before := Present(from, mem.Length), buf.Length - at, buf[..];
    ghost var n := Converted(count, avail, room);
    ghost var t := HexOf(Block(mem[..], from, n));
    end, how := at, Done;
    var i := 0;
    while i < count
      invariant i <= count && end == at + 2 * i <= buf.Length && i <= avail && how == Done
      invariant forall k :: 0 <= k < 2 * i && k < 2 * n ==> buf[at + k] == t[k]
      invariant forall k :: 0 <= k < buf.Length && (k < at || end <= k) ==> buf[k] == before[k]
    {
      if from + i >= mem.Length {
        how := Fault;
        break;
      }
      var ch := mem[from + i];
      if end + 1 >= buf.Length {
        how := Overrun;
        break;
      }
      if i < n {
        NextDigits(mem[..], from, n, i);
      }
      buf[end] := DigitChar(ch as int / 16);
      buf[end + 1] := DigitChar(ch as int % 16);
      end, i := end + 2, i + 1;
    }
    if how == Done {
      if end >= buf.Length {
        how := Overrun;
      } else {
        buf[end] := 0;
      }
    }
    EncodeStops(count, avail, room, i, how);
    StoredAt(before, buf[..], at, t, if how == Done then [0] else []);
  }

  /**
   `hex2mem` from `buf[at..]` into `mem[to..]`; an address behind the memory ends
   it, the bytes below being stored.
   */
  method Hex2Mem(buf: array<byte>, at: nat, mem: array<byte>, to: nat, count: nat, mayFault: bool)
    returns (how: Transfer, end: nat)
    requires mem != buf && at <= buf.Length && (mayFault || to + count <= mem.Length)
    modifies mem
    ensures how == DecodeEnd(count, Present(to, mem.Length), buf.Length - at)
    ensures var n := Converted(count, Present(to, mem.Length), buf.Length - at);
            && end == to + n + (if how == Fault then 1 else 0)
            && mem[..] == Stored(old(mem[..]), to, BytesOf(buf[at..at + 2 * n]))
  {
    hide Hex, HexByte, BytesOf, DecodeEnd, Converted, Stored;
    ghost var avail, room, before := Present(to, mem.Length), buf.Length - at, mem[..];
    ghost var n := Converted(count, avail, room);
    ghost var x := BytesOf(buf[at..at + 2 * n]);
    end, how := to, Done;
    var i := 0;
    while i < count
      invariant i <= count && end == to + i && i <= avail && 2 * i <= room && how == Done
      invariant forall k :: 0 <= k < i && k < n ==> mem[to + k] == x[k]
      invariant forall k :: 0 <= k < mem.Length && (k < to || end <= k) ==> mem[k] == before[k]
    {
      if at + 2 * i + 1 >= buf.Length {
        how := Overrun;
        break;
      }
      var ch := (Hex(buf[at + 2 * i]) * 16 % 0x100) as byte;
      ch := ((ch as int + Hex(buf[at + 2 * i + 1]) % 0x100) % 0x100) as byte;
      end := end + 1;
      if to + i >= mem.Length {
        how := Fault;
        break;
      }
      if i < n {
        NextByte(buf[..], at, n, i);
      }
      mem[to + i] := ch;
      i := i + 1;
    }
    DecodeStops(count, avail, room, i, how);
    assert x + [] == x;
    StoredAt(before, mem[..], to, x, []);
  }
}
