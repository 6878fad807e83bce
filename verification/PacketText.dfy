/** Packets as the two ends see them: what `putpacket` emits, and the text `getpacket` hands out. */
module PacketText {
  import opened ByteMemory
  import opened HexCodec
  import opened Packets

  /** The NUL-terminated string at `buf[at]`. */
  function CString(buf: seq<byte>, at: nat): seq<byte>
    decreases |buf| - at
  {
    if at >= |buf| || buf[at] == 0 then [] else [buf[at]] + CString(buf, at + 1)
  }

  ghost predicate NoNul(p: seq<byte>) {
    forall i :: 0 <= i < |p| ==> p[i] != 0
  }

  lemma {:induction false} CStringIs(buf: seq<byte>, at: nat, p: seq<byte>)
    requires at + |p| < |buf| && buf[at..at + |p|] == p && NoNul(p) && buf[at + |p|] == 0
    ensures CString(buf, at) == p
    decreases |p|
  {
    if p != [] {
      assert buf[at] == p[0] && buf[at + 1..at + 1 + |p[1..]|] == p[1..];
      CStringIs(buf, at + 1, p[1..]);
    }
  }

  lemma {:induction false} CStringEnds(buf: seq<byte>, at: nat, z: nat)
    requires at <= z < |buf| && buf[z] == 0
    ensures at + |CString(buf, at)| <= z && buf[at + |CString(buf, at)|] == 0
    ensures NoNul(CString(buf, at)) && buf[at..at + |CString(buf, at)|] == CString(buf, at)
    decreases z - at
  {
    if buf[at] != 0 {
      CStringEnds(buf, at + 1, z);
    }
  }

  /** The bytes of one transmission of `p` by `putpacket`. */
  function FrameOf(p: seq<byte>): seq<byte> {
    Frame(p, DigitChar(Checksum(p) as int / 16), DigitChar(Checksum(p) as int % 16))
  }

  lemma FrameOfIsGood(p: seq<byte>)
    requires Clean(p) && |p| <= BUFMAX - 2
    ensures Good(p, DigitChar(Checksum(p) as int / 16), DigitChar(Checksum(p) as int % 16))
  {
    HexByteOfDigits(Checksum(p) as int);
  }

  // ------------------------------------------------------------------ on the wire

  /** A transmission: `$`, the text, `#`, and the sum of the text modulo 256 in two lower-case digits. */
  lemma FrameSent(p: seq<byte>)
    ensures var c := Sum(p) % 0x100;
            && |FrameOf(p)| == |p| + 4 && FrameOf(p)[..|p| + 1] == Ascii("$") + p
            && FrameOf(p)[|p| + 1] as char == '#'
            && FrameOf(p)[|p| + 2] as char == "0123456789abcdef"[c / 16]
            && FrameOf(p)[|p| + 3] as char == "0123456789abcdef"[c % 16]
  {
    ChecksumIsSum(p);
    DigitChars(Sum(p) % 0x100 / 16);
    DigitChars(Sum(p) % 0x100 % 16);
    hide Checksum, Sum, DigitChar;
  }

  /**
   What decides about a packet that fits the buffer: with the sum of its characters
   modulo 256 in the two characters behind `#` it is received and answered by `+`,
   otherwise it is answered by `-` and the stub goes on waiting.
   */
  lemma SumDecides(p: seq<byte>, c1: byte, c2: byte, rest: seq<byte>, buf: seq<byte>, sent: seq<byte>)
    requires |buf| == 400 && |p| <= 398 && forall i :: 0 <= i < |p| ==> p[i] as char != '$' && p[i] as char != '#'
    ensures var r := Hunt(Ascii("$") + p + Ascii("#") + [c1, c2] + rest, buf, sent);
            if Sum(p) % 0x100 == (16 * Hex(c1) + Hex(c2)) % 0x100 then
              && r.Received? && r.count == |p| && r.rest == rest && |r.buf| == 400
              && r.buf[..|p|] == p && r.buf[|p|] == 0 && sent + Ascii("+") <= r.sent
            else
              r == Hunt(rest, Terminated(buf, p), sent + Ascii("-"))
  {
    hide Checksum, Sum, Hex, HexByte, Hunt, Ascii;
    ChecksumIsSum(p);
    HexByteTruncates(c1, c2);
    FrameOnWire(p, c1, c2, rest);
    PacketDecided(p, c1, c2, rest, buf, sent);
  }

  lemma FrameOnWire(p: seq<byte>, c1: byte, c2: byte, rest: seq<byte>)
    ensures Ascii("$") + p + Ascii("#") + [c1, c2] + rest == Frame(p, c1, c2) + rest
    ensures Ascii("+") == [PLUS] && Ascii("-") == [MINUS]
  {
    assert Ascii("$") == [DOLLAR] && Ascii("#") == [HASH];
    hide Ascii;
    assert [DOLLAR] + p + [HASH] + [c1, c2] + rest == Frame(p, c1, c2) + rest;
  }

  /**
   What gets no reply and leaves no trace but in the buffer: characters in front
   of a `$`, a packet cut short by the next `$`, and one of 399 characters or more.
   */
  lemma DroppedSilently(c: byte, p: seq<byte>, s: seq<byte>, buf: seq<byte>, sent: seq<byte>)
    requires |buf| == 400 && |p| <= 399 && forall i :: 0 <= i < |p| ==> p[i] as char != '$' && p[i] as char != '#'
    ensures c as char != '$' ==> Hunt([c] + s, buf, sent) == Hunt(s, buf, sent)
    ensures |p| < 399 ==> Hunt(Ascii("$") + p + (Ascii("$") + s), buf, sent)
                          == Hunt(Ascii("$") + s, Written(buf, p), sent)
    ensures |p| == 399 ==> Hunt(Ascii("$") + p + s, buf, sent) == Hunt(s, Terminated(buf, p), sent)
  {
    assert sent + [] == sent && Ascii("$") == [DOLLAR];
    hide Hunt;
    if c != DOLLAR {
      SegmentSkipped(Skip(c), s, buf, sent);
    }
    if |p| < 399 {
      SegmentSkipped(Aborted(p), [DOLLAR] + s, buf, sent);
    } else {
      SegmentSkipped(Overlong(p), s, buf, sent);
    }
  }

  /** Instances: the packet `g` with its sum and with another one. */
  lemma CommandReceived(buf: seq<byte>, sent: seq<byte>)
    requires |buf| == 400 && buf[2] as char != ':'
    ensures var r := Hunt(Ascii("$g#67"), buf, sent);
            r.Received? && r.count == 1 && Text(r) == Ascii("g") && r.rest == [] && r.sent == sent + Ascii("+")
    ensures Hunt(Ascii("$g#8b"), buf, sent) == Waiting(Terminated(buf, Ascii("g")), sent + Ascii("-"))
  {
    var p := Ascii("g");
    GFrames();
    hide Hunt, HexByte, Hex, Checksum;
    assert Ascii("+") == [PLUS] && Ascii("-") == [MINUS] && p == [0x67] && NoNul(p);
    PacketDecided(p, 0x36, 0x37, [], buf, sent);
    PacketDecided(p, 0x38, 0x62, [], buf, sent);
    AcceptedText(p, buf, [], sent);
    assert Hunt([], Terminated(buf, p), sent + [MINUS]) == Waiting(Terminated(buf, p), sent + [MINUS]) by {
      WaitsAtEnd(Terminated(buf, p), sent + [MINUS]);
    }
  }

  lemma GFrames()
    ensures var p := Ascii("g");
            && Ascii("$g#67") == Frame(p, 0x36, 0x37) + [] && Ascii("$g#8b") == Frame(p, 0x38, 0x62) + []
            && Checksum(p) == HexByte(0x36, 0x37) && Checksum(p) != HexByte(0x38, 0x62)
  {
    var p := Ascii("g");
    ChecksumIsSum(p);
    assert Sum(p) == 0x67;
  }

  lemma WaitsAtEnd(buf: seq<byte>, sent: seq<byte>)
    requires |buf| == BUFMAX
    ensures Hunt([], buf, sent) == Waiting(buf, sent)
  {
  }

  /** An instance: the reply `OK`. */
  lemma ReplySent()
    ensures FrameOf(Ascii("OK")) == Ascii("$OK#9a")
  {
    var p := Ascii("OK");
    ChecksumIsSum(p);
    assert p[1..][1..] == [] && Sum(p[1..]) == 0x4b;
    assert Sum(p) == 0x9a;
  }

  /** `putpacket`: transmit until a `+` arrives; false if the input ends first. */
  function Put(p: seq<byte>, s: seq<byte>, sent: seq<byte>): (bool, seq<byte>, seq<byte>) {
    var sent' := sent + FrameOf(p);
    if s == [] then (false, [], sent')
    else if s[0] == PLUS then (true, s[1..], sent')
    else Put(p, s[1..], sent')
  }

  function Text(r: Reception): seq<byte>
    requires r.Received?
  {
    CString(r.buf, r.start)
  }

  /** The text handed out for a good packet, including the effect of a `:` in third place. */
  lemma AcceptedText(p: seq<byte>, buf: seq<byte>, rest: seq<byte>, sent: seq<byte>)
    requires |buf| == BUFMAX && NoNul(p) && |p| <= BUFMAX - 2
    ensures var r := Accept(|p|, Terminated(buf, p), rest, sent);
            && (|p| >= 3 ==> Text(r) == if p[2] == COLON then p[3..] else p)
            && (|p| == 2 ==> Text(r) == p)
            && (|p| < 2 ==> Text(r) == if buf[2] == COLON then CString(buf, 3) else p)
  {
    var b := Terminated(buf, p);
    CStringIs(b, 0, p);
    if |p| >= 3 {
      assert b[3..|p|] == p[3..];
      CStringIs(b, 3, p[3..]);
    } else if |p| < 2 {
      assert forall i :: 2 <= i < BUFMAX ==> b[i] == buf[i];
      CStringAgree(b, buf, 3);
    }
  }

  lemma {:induction false} CStringAgree(b: seq<byte>, c: seq<byte>, at: nat)
    requires |b| == |c| && forall i :: at <= i < |b| ==> b[i] == c[i]
    ensures CString(b, at) == CString(c, at)
    decreases |b| - at
  {
    if at < |b| {
      CStringAgree(b, c, at + 1);
    }
  }

  /**
   What `putpacket` transmits, `getpacket` receives, behind any legal segments:
   the reply ends in `+` (and the sequence id), and the text is `p` itself exactly
   if no `:` stands in the third place of the buffer, or the leftover text there is `p`.
   */
  lemma TransmittedIsReceived(gs: seq<Segment>, p: seq<byte>, rest: seq<byte>, buf: seq<byte>, sent: seq<byte>)
    requires |buf| == BUFMAX && Legal(gs) && Clean(p) && NoNul(p) && |p| <= BUFMAX - 2
    ensures var r := Hunt(RenderAll(gs) + FrameOf(p) + rest, buf, sent);
            var b := Terminated(BufAfter(gs, buf), p);
            && r.Received? && r.count == |p| && r.rest == rest
            && r.sent == sent + Naks(gs) + [PLUS] + (if b[2] == COLON then b[..2] else [])
            && (Text(r) == p <==> b[2] != COLON || (|p| < 2 && CString(b, 3) == p))
            && (|p| >= 2 ==> (b[2] == COLON <==> |p| >= 3 && p[2] == COLON))
  {
    FrameOfIsGood(p);
    GoodPacketReceived(gs, p, DigitChar(Checksum(p) as int / 16), DigitChar(Checksum(p) as int % 16), rest, buf, sent);
    hide Hunt, FrameOf, Checksum, DigitChar, RenderAll, BufAfter, Naks, CString, Legal, Clean, Text;
    AcceptedIff(p, BufAfter(gs, buf), rest, sent + Naks(gs));
  }

  lemma AcceptedIff(p: seq<byte>, buf: seq<byte>, rest: seq<byte>, sent: seq<byte>)
    requires |buf| == BUFMAX && NoNul(p) && |p| <= BUFMAX - 2
    ensures var r, b := Accept(|p|, Terminated(buf, p), rest, sent), Terminated(buf, p);
            && r.sent == sent + [PLUS] + (if b[2] == COLON then b[..2] else [])
            && (Text(r) == p <==> b[2] != COLON || (|p| < 2 && CString(b, 3) == p))
            && (|p| >= 2 ==> (b[2] == COLON <==> |p| >= 3 && p[2] == COLON))
  {
    var b := Terminated(buf, p);
    AcceptedText(p, buf, rest, sent);
    if |p| < 2 {
      CStringAgree(b, buf, 3);
    }
    assert b[..2] == [b[0]] + [b[1]];
  }

  /** A transmission is understood exactly if its text is free of `$` and `#` and fits the buffer. */
  lemma UnderstoodIff(p: seq<byte>, rest: seq<byte>, buf: seq<byte>, sent: seq<byte>)
    requires |buf| == BUFMAX
    ensures var r := Hunt(FrameOf(p) + rest, buf, sent);
            (r.Received? && r.count <= |r.buf| && r.buf[..r.count] == p && r.rest == rest)
            <==> Clean(p) && |p| <= 398
  {
    var s := FrameOf(p) + rest;
    var r := Hunt(s, buf, sent);
    if Clean(p) && |p| <= BUFMAX - 2 {
      FrameOfIsGood(p);
      PacketDecided(p, DigitChar(Checksum(p) as int / 16), DigitChar(Checksum(p) as int % 16), rest, buf, sent);
    } else if r.Received? {
      var w := HuntSound(s, buf, sent);
      GoodPacketReceived(w.gs, w.p, w.c1, w.c2, r.rest, buf, sent);
      assert r.buf[..r.count] == w.p;
    }
  }

  // ------------------------------------------------------------------ a packet left over in the buffer

  /**
   The exception that `TransmittedIsReceived` leaves, on a line without faults:
   after a packet with sequence id, `ab:x`, a packet `g` is handed out as `x`.
   */
  lemma OldColonIsRead(buf: seq<byte>, sent: seq<byte>)
    requires |buf| == BUFMAX
    ensures var p: seq<byte> := [0x61, 0x62, COLON, 0x78];
            var r := Hunt(FrameOf(p) + FrameOf([0x67]), buf, sent);
            && r.Received? && Text(r) == [0x78] && r.rest == FrameOf([0x67]) && |r.buf| == BUFMAX
            && var r' := Hunt(r.rest, r.buf, r.sent);
               r'.Received? && r'.count == 1 && Text(r') == [0x78]
  {
    var p: seq<byte> := [0x61, 0x62, COLON, 0x78];
    var g: seq<byte> := [0x67];
    hide Hunt, FrameOf, Checksum, DigitChar, Accept, Text, CString, BufAfter, Naks, Good;
    assert RenderAll([]) + FrameOf(p) + FrameOf(g) == FrameOf(p) + FrameOf(g);
    CleanReceived(p, FrameOf(g), buf, sent);
    var b := Terminated(buf, p);
    AcceptedText(p, buf, FrameOf(g), sent);
    assert p[3..] == [0x78];
    CleanReceived(g, [], b, Accept(4, b, FrameOf(g), sent).sent);
    assert FrameOf(g) + [] == FrameOf(g);
    AcceptedText(g, b, [], Accept(4, b, FrameOf(g), sent).sent);
    CStringIs(b, 3, [0x78]);
  }

  lemma CleanReceived(p: seq<byte>, rest: seq<byte>, buf: seq<byte>, sent: seq<byte>)
    requires |buf| == BUFMAX && Clean(p) && |p| <= BUFMAX - 2
    ensures Hunt(FrameOf(p) + rest, buf, sent) == Accept(|p|, Terminated(buf, p), rest, sent)
  {
    FrameOfIsGood(p);
    PacketDecided(p, DigitChar(Checksum(p) as int / 16), DigitChar(Checksum(p) as int % 16), rest, buf, sent);
  }

  // ------------------------------------------------------------------ retransmission

  function Copies(t: seq<byte>, n: nat): seq<byte> {
    if n == 0 then [] else t + Copies(t, n - 1)
  }

  /** With the first `+` at place `k` of the replies the packet is transmitted `k + 1` times. */
  lemma {:induction false} PutUntilPlus(p: seq<byte>, s: seq<byte>, sent: seq<byte>, k: nat)
    requires k < |s| && s[k] == PLUS && PLUS !in s[..k]
    ensures Put(p, s, sent) == (true, s[k + 1..], sent + Copies(FrameOf(p), k + 1))
    decreases k
  {
    hide FrameOf;
    var f := FrameOf(p);
    if k == 0 {
      assert f + Copies(f, 0) == f;
    } else {
      assert s[0] in s[..k] && s[1..][..k - 1] == s[..k][1..];
      PutUntilPlus(p, s[1..], sent + f, k - 1);
      assert sent + f + Copies(f, k) == sent + Copies(f, k + 1);
    }
  }

  /** Without a `+` the sender answers every character with another transmission and is never satisfied. */
  lemma {:induction false} PutForEver(p: seq<byte>, s: seq<byte>, sent: seq<byte>)
    requires PLUS !in s
    ensures Put(p, s, sent) == (false, [], sent + Copies(FrameOf(p), |s| + 1))
    decreases |s|
  {
    hide FrameOf;
    var f := FrameOf(p);
    if s == [] {
      assert f + Copies(f, 0) == f;
    } else {
      PutForEver(p, s[1..], sent + f);
      assert sent + f + Copies(f, |s|) == sent + Copies(f, |s| + 1);
    }
  }

  /** What arrives of several transmissions, one after the other. */
  function Arrived(tries: seq<seq<Segment>>): seq<Segment> {
    if tries == [] then [] else tries[0] + Arrived(tries[1..])
  }

  lemma {:induction false} NaksConcat(x: seq<Segment>, y: seq<Segment>)
    ensures Naks(x + y) == Naks(x) + Naks(y)
    decreases |x|
  {
    hide Nak;
    if x == [] {
      assert x + y == y;
    } else {
      assert (x + y)[0] == x[0] && (x + y)[1..] == x[1..] + y;
      NaksConcat(x[1..], y);
    }
  }

  /** One `-` for each transmission of which the receiver rejected one packet. */
  lemma {:induction false} OneNakEach(tries: seq<seq<Segment>>)
    requires forall i :: 0 <= i < |tries| ==> Naks(tries[i]) == [MINUS]
    ensures Naks(Arrived(tries)) == Copies([MINUS], |tries|)
    decreases |tries|
  {
    hide Nak;
    if tries != [] {
      OneNakEach(tries[1..]);
      NaksConcat(tries[0], Arrived(tries[1..]));
    }
  }

  lemma {:induction false} CopiesOf(c: byte, n: nat)
    ensures |Copies([c], n)| == n && forall i :: 0 <= i < n ==> Copies([c], n)[i] == c
  {
    if n > 0 {
      CopiesOf(c, n - 1);
    }
  }

  lemma SenderStops(p: seq<byte>, n: nat, tail: seq<byte>, more: seq<byte>)
    ensures var s := Copies([MINUS], n) + [PLUS] + tail;
            && |s| > n && s[n + 1..] == tail
            && Put(p, s + more, []) == (true, tail + more, Copies(FrameOf(p), n + 1))
  {
    CopiesOf(MINUS, n);
    hide FrameOf, Copies, Put;
    var s := Copies([MINUS], n) + [PLUS] + tail + more;
    assert s[..n] == Copies([MINUS], n) && s[n + 1..] == tail + more;
    PutUntilPlus(p, s, [], n);
    assert [] + Copies(FrameOf(p), n + 1) == Copies(FrameOf(p), n + 1);
  }

  /**
   Both ends together: if the first transmissions are spoilt on the line so that
   each leaves the receiver with one rejected packet, and the next one arrives
   intact, the receiver holds `p`, and its replies stop the sender after exactly
   that many transmissions and one.
   */
  lemma Handshake(p: seq<byte>, tries: seq<seq<Segment>>, rest: seq<byte>, buf: seq<byte>, more: seq<byte>)
    requires |buf| == BUFMAX && Clean(p) && |p| <= BUFMAX - 2
    requires Legal(Arrived(tries)) && forall i :: 0 <= i < |tries| ==> Naks(tries[i]) == [MINUS]
    ensures var r := Hunt(RenderAll(Arrived(tries)) + FrameOf(p) + rest, buf, []);
            && r.Received? && r.count == |p| <= |r.buf| && r.buf[..r.count] == p && r.rest == rest
            && |r.sent| > |tries|
            && Put(p, r.sent + more, []) == (true, r.sent[|tries| + 1..] + more, Copies(FrameOf(p), |tries| + 1))
  {
    var gs, n := Arrived(tries), |tries|;
    FrameOfIsGood(p);
    GoodPacketReceived(gs, p, DigitChar(Checksum(p) as int / 16), DigitChar(Checksum(p) as int % 16), rest, buf, []);
    hide Hunt, FrameOf, RenderAll, Naks, Checksum, DigitChar, Copies, Put, Legal, Clean, BufAfter;
    OneNakEach(tries);
    var b := Terminated(BufAfter(gs, buf), p);
    assert [] + Naks(gs) == Naks(gs);
    var id := if b[2] == COLON then b[..2] else [];
    assert Accept(|p|, b, rest, Naks(gs)).sent == Copies([MINUS], n) + [PLUS] + id;
    SenderStops(p, n, id, more);
  }
}
