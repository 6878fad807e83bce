/**
 The packet layer of the remote protocol as a function of the input stream, and
 a grammar of streams that says what that function computes.
 */
module Packets {
  import opened ByteMemory
  import opened HexCodec

  const BUFMAX: nat := 400
  const DOLLAR: byte := 0x24
  const HASH: byte := 0x23
  const PLUS: byte := 0x2b
  const MINUS: byte := 0x2d
  const COLON: byte := 0x3a

  /** Sum of the characters modulo 256. */
  function Checksum(p: seq<byte>): byte {
    if p == [] then 0
    else ((Checksum(p[..|p| - 1]) as int + p[|p| - 1] as int) % 0x100) as byte
  }

  /** The sum of the characters, not truncated. */
  function Sum(p: seq<byte>): nat {
    if p == [] then 0 else p[0] as int + Sum(p[1..])
  }

  lemma {:induction false} SumAppend(p: seq<byte>, c: byte)
    ensures Sum(p + [c]) == Sum(p) + c as int
    decreases |p|
  {
    if p == [] {
      assert Sum([c]) == c as int + Sum([]);
    } else {
      assert (p + [c])[1..] == p[1..] + [c];
      SumAppend(p[1..], c);
    }
  }

  /** The running 8-bit sum is the sum of all characters modulo 256. */
  lemma {:induction false} ChecksumIsSum(p: seq<byte>)
    ensures Checksum(p) as int == Sum(p) % 0x100
  {
    if p != [] {
      var q, c := p[..|p| - 1], p[|p| - 1];
      ChecksumIsSum(q);
      SumAppend(q, c);
      assert p == q + [c];
      hide Sum;
      SumModulo(Sum(q), c as int);
    }
  }

  lemma SumModulo(x: nat, y: nat)
    ensures (x % 0x100 + y) % 0x100 == (x + y) % 0x100
  {
  }

  /**
   What a call of `getpacket` comes to: it is still waiting when the input ends,
   or it returns the packet of `count` characters in the buffer, its text
   beginning at `start`, leaving `rest` unread. `sent` is everything transmitted.
   */
  datatype Reception =
    | Waiting(buf: seq<byte>, sent: seq<byte>)
    | Received(start: nat, count: nat, buf: seq<byte>, rest: seq<byte>, sent: seq<byte>)

  /** Looking for a start character. */
  function Hunt(s: seq<byte>, buf: seq<byte>, sent: seq<byte>): Reception
    requires |buf| == BUFMAX
    decreases |s|, 0
  {
    if s == [] then Waiting(buf, sent)
    else if s[0] == DOLLAR then Body(s[1..], 0, buf, sent)
    else Hunt(s[1..], buf, sent)
  }

  /** Inside a packet of which `n` characters have been stored. */
  function Body(s: seq<byte>, n: nat, buf: seq<byte>, sent: seq<byte>): Reception
    requires |buf| == BUFMAX && n < BUFMAX
    decreases |s|, 1
  {
    if n == BUFMAX - 1 then Hunt(s, buf[n := 0], sent)
    else if s == [] then Waiting(buf, sent)
    else if s[0] == DOLLAR then Body(s[1..], 0, buf, sent)
    else if s[0] == HASH then Trailer(s[1..], n, buf[n := 0], sent)
    else Body(s[1..], n + 1, buf[n := s[0]], sent)
  }

  /** Behind the `#`: the two checksum characters decide. */
  function Trailer(s: seq<byte>, n: nat, buf: seq<byte>, sent: seq<byte>): Reception
    requires |buf| == BUFMAX && n < BUFMAX
    decreases |s|, 1
  {
    if |s| < 2 then Waiting(buf, sent)
    else if Checksum(buf[..n]) == HexByte(s[0], s[1]) then Accept(n, buf, s[2..], sent)
    else Hunt(s[2..], buf, sent + [MINUS])
  }

  /** Acknowledge; a sequence id in front of a `:` is echoed and skipped. */
  function Accept(n: nat, buf: seq<byte>, rest: seq<byte>, sent: seq<byte>): Reception
    requires |buf| == BUFMAX
  {
    if buf[2] == COLON then Received(3, n, buf, rest, sent + [PLUS] + [buf[0]] + [buf[1]])
    else Received(0, n, buf, rest, sent + [PLUS])
  }

  // ------------------------------------------------------------------ grammar

  /** What can precede the first good packet of a stream. */
  datatype Segment =
    | Skip(c: byte)                                    // noise between packets
    | Aborted(p: seq<byte>)                            // $p, cut short by the next $
    | Rejected(p: seq<byte>, c1: byte, c2: byte)       // $p#c1c2 with a wrong checksum
    | Overlong(p: seq<byte>)                           // $p with no room left for p

  predicate Clean(p: seq<byte>) {
    forall i :: 0 <= i < |p| ==> p[i] != DOLLAR && p[i] != HASH
  }

  predicate LegalSegment(g: Segment) {
    match g
    case Skip(c) => c != DOLLAR
    case Aborted(p) => Clean(p) && |p| <= BUFMAX - 2
    case Rejected(p, c1, c2) => Clean(p) && |p| <= BUFMAX - 2 && Checksum(p) != HexByte(c1, c2)
    case Overlong(p) => Clean(p) && |p| == BUFMAX - 1
  }

  /** Only a `$` cuts a packet short, so no noise follows an aborted one. */
  ghost predicate Legal(gs: seq<Segment>) {
    && (forall i :: 0 <= i < |gs| ==> LegalSegment(gs[i]))
    && (forall i, j :: 0 <= i && j == i + 1 && j < |gs| && gs[i].Aborted? ==> !gs[j].Skip?)
  }

  function Render(g: Segment): seq<byte> {
    match g
    case Skip(c) => [c]
    case Aborted(p) => [DOLLAR] + p
    case Rejected(p, c1, c2) => [DOLLAR] + p + [HASH, c1, c2]
    case Overlong(p) => [DOLLAR] + p
  }

  function RenderAll(gs: seq<Segment>): seq<byte> {
    if gs == [] then [] else Render(gs[0]) + RenderAll(gs[1..])
  }

  /** The buffer after `p` has been stored from its beginning. */
  function Written(buf: seq<byte>, p: seq<byte>): (r: seq<byte>)
    requires |p| <= |buf|
    ensures |r| == |buf| && r[..|p|] == p
  {
    p + buf[|p|..]
  }

  function Terminated(buf: seq<byte>, p: seq<byte>): (r: seq<byte>)
    requires |p| < |buf|
    ensures |r| == |buf| && r[..|p|] == p && r[|p|] == 0
  {
    Written(buf, p)[|p| := 0]
  }

  function BufAfterOne(g: Segment, buf: seq<byte>): (r: seq<byte>)
    requires |buf| == BUFMAX && LegalSegment(g)
    ensures |r| == BUFMAX
  {
    match g
    case Skip(_) => buf
    case Aborted(p) => Written(buf, p)
    case Rejected(p, _, _) => Terminated(buf, p)
    case Overlong(p) => Terminated(buf, p)
  }

  function BufAfter(gs: seq<Segment>, buf: seq<byte>): (r: seq<byte>)
    requires |buf| == BUFMAX && forall i :: 0 <= i < |gs| ==> LegalSegment(gs[i])
    ensures |r| == BUFMAX
  {
    if gs == [] then buf
    else
      assert LegalSegment(gs[0]);
      BufAfter(gs[1..], BufAfterOne(gs[0], buf))
  }

  function Nak(g: Segment): seq<byte> {
    if g.Rejected? then [MINUS] else []
  }

  /** One `-` for each complete packet that was rejected, nothing for the other segments. */
  function Naks(gs: seq<Segment>): seq<byte> {
    if gs == [] then [] else Nak(gs[0]) + Naks(gs[1..])
  }

  function Frame(p: seq<byte>, c1: byte, c2: byte): seq<byte> {
    [DOLLAR] + p + [HASH, c1, c2]
  }

  predicate Good(p: seq<byte>, c1: byte, c2: byte) {
    Clean(p) && |p| <= BUFMAX - 2 && Checksum(p) == HexByte(c1, c2)
  }

  /** Reading a clean run of characters stores it behind the `q` already stored. */
  lemma {:induction false} BodyStores(p: seq<byte>, s: seq<byte>, q: seq<byte>, buf: seq<byte>, sent: seq<byte>)
    requires |buf| == BUFMAX && Clean(p) && |q| + |p| < BUFMAX
    ensures Body(p + s, |q|, Written(buf, q), sent) == Body(s, |q| + |p|, Written(buf, q + p), sent)
    decreases |p|
  {
    if p == [] {
      assert p + s == s && q + p == q;
    } else {
      assert (p + s)[0] == p[0] && (p + s)[1..] == p[1..] + s;
      assert Written(buf, q)[|q| := p[0]] == Written(buf, q + [p[0]]);
      BodyStores(p[1..], s, q + [p[0]], buf, sent);
      assert q + [p[0]] + p[1..] == q + p;
    }
  }

  /** From the start character of a packet to the end of its characters. */
  lemma PacketStores(p: seq<byte>, s: seq<byte>, buf: seq<byte>, sent: seq<byte>)
    requires |buf| == BUFMAX && Clean(p) && |p| < BUFMAX
    ensures Hunt([DOLLAR] + p + s, buf, sent) == Body(s, |p|, Written(buf, p), sent)
  {
    assert ([DOLLAR] + p + s)[1..] == p + s;
    assert Written(buf, []) == buf;
    BodyStores(p, s, [], buf, sent);
    assert [] + p == p;
  }

  /** A complete packet is decided by its checksum. */
  lemma PacketDecided(p: seq<byte>, c1: byte, c2: byte, s: seq<byte>, buf: seq<byte>, sent: seq<byte>)
    requires |buf| == BUFMAX && Clean(p) && |p| <= BUFMAX - 2
    ensures Hunt(Frame(p, c1, c2) + s, buf, sent) ==
            if Checksum(p) == HexByte(c1, c2) then Accept(|p|, Terminated(buf, p), s, sent)
            else Hunt(s, Terminated(buf, p), sent + [MINUS])
  {
    var t := [HASH, c1, c2] + s;
    assert Frame(p, c1, c2) + s == [DOLLAR] + p + t;
    PacketStores(p, t, buf, sent);
    assert t[1..][0] == c1 && t[1..][1] == c2 && t[1..][2..] == s;
  }

  /** One segment in front of a stream only affects the buffer and the `-` sent. */
  lemma SegmentSkipped(g: Segment, s: seq<byte>, buf: seq<byte>, sent: seq<byte>)
    requires |buf| == BUFMAX && LegalSegment(g) && (g.Aborted? ==> s != [] && s[0] == DOLLAR)
    ensures Hunt(Render(g) + s, buf, sent) == Hunt(s, BufAfterOne(g, buf), sent + Nak(g))
  {
    assert sent + [] == sent;
    match g
    case Skip(c) =>
      assert ([c] + s)[1..] == s;
    case Aborted(p) =>
      PacketStores(p, s, buf, sent);
      DollarRestarts(s, |p|, Written(buf, p), sent);
    case Rejected(p, c1, c2) =>
      PacketDecided(p, c1, c2, s, buf, sent);
      assert Render(g) == Frame(p, c1, c2);
    case Overlong(p) =>
      PacketStores(p, s, buf, sent);
  }

  /** Inside a packet a `$` has the effect of a start character. */
  lemma DollarRestarts(s: seq<byte>, n: nat, buf: seq<byte>, sent: seq<byte>)
    requires |buf| == BUFMAX && n <= BUFMAX - 2 && s != [] && s[0] == DOLLAR
    ensures Body(s, n, buf, sent) == Hunt(s, buf, sent)
  {
  }

  lemma LegalTail(gs: seq<Segment>)
    requires gs != [] && Legal(gs)
    ensures Legal(gs[1..]) && LegalSegment(gs[0])
    ensures gs[0].Aborted? && gs[1..] != [] ==> !gs[1].Skip?
  {
    assert forall i :: 0 <= i < |gs| - 1 ==> gs[1..][i] == gs[i + 1];
  }

  lemma RenderStarts(gs: seq<Segment>, s: seq<byte>)
    requires Legal(gs) && (gs == [] ==> s != [] && s[0] == DOLLAR) && (gs != [] ==> !gs[0].Skip?)
    ensures RenderAll(gs) + s != [] && (RenderAll(gs) + s)[0] == DOLLAR
  {
  }

  lemma RunStep(gs: seq<Segment>, s: seq<byte>, sent: seq<byte>)
    requires gs != []
    ensures RenderAll(gs) + s == Render(gs[0]) + (RenderAll(gs[1..]) + s)
    ensures sent + Naks(gs) == sent + Nak(gs[0]) + Naks(gs[1..])
  {
    ConcatAssociative(Render(gs[0]), RenderAll(gs[1..]), s);
    ConcatAssociative(sent, Nak(gs[0]), Naks(gs[1..]));
    hide Render, Nak;
  }

  lemma ConcatAssociative(x: seq<byte>, y: seq<byte>, z: seq<byte>)
    ensures x + y + z == x + (y + z)
  {
  }

  /** Any legal run of segments in front of a `$` is passed over. */
  lemma {:induction false} SegmentsSkipped(gs: seq<Segment>, s: seq<byte>, buf: seq<byte>, sent: seq<byte>)
    requires |buf| == BUFMAX && Legal(gs) && s != [] && s[0] == DOLLAR
    ensures Hunt(RenderAll(gs) + s, buf, sent) == Hunt(s, BufAfter(gs, buf), sent + Naks(gs))
    decreases |gs|
  {
    if gs == [] {
      assert RenderAll(gs) + s == s && sent + [] == sent;
    } else {
      LegalTail(gs);
      RunStep(gs, s, sent);
      hide Hunt, Body, Legal, Render, RenderAll, Nak, Naks;
      var t := RenderAll(gs[1..]) + s;
      if gs[0].Aborted? {
        RenderStarts(gs[1..], s);
      }
      SegmentSkipped(gs[0], t, buf, sent);
      SegmentsSkipped(gs[1..], s, BufAfterOne(gs[0], buf), sent + Nak(gs[0]));
    }
  }

  /**
   Completeness: in a stream of legal segments followed by a good packet, that
   packet is the one received, with one `-` for each rejected packet before it.
   */
  lemma GoodPacketReceived(gs: seq<Segment>, p: seq<byte>, c1: byte, c2: byte, rest: seq<byte>,
                           buf: seq<byte>, sent: seq<byte>)
    requires |buf| == BUFMAX && Legal(gs) && Good(p, c1, c2)
    ensures Hunt(RenderAll(gs) + Frame(p, c1, c2) + rest, buf, sent)
            == Accept(|p|, Terminated(BufAfter(gs, buf), p), rest, sent + Naks(gs))
  {
    hide Hunt, Body;
    var s := Frame(p, c1, c2) + rest;
    assert RenderAll(gs) + Frame(p, c1, c2) + rest == RenderAll(gs) + s;
    SegmentsSkipped(gs, s, buf, sent);
    PacketDecided(p, c1, c2, rest, BufAfter(gs, buf), sent + Naks(gs));
  }

  /** How a stream from which a packet is received splits up. */
  datatype Parse = Parse(gs: seq<Segment>, p: seq<byte>, c1: byte, c2: byte)

  ghost predicate Explains(w: Parse, s: seq<byte>, rest: seq<byte>) {
    Legal(w.gs) && Good(w.p, w.c1, w.c2) && s == RenderAll(w.gs) + Frame(w.p, w.c1, w.c2) + rest
  }

  lemma ExplainsCons(g: Segment, w: Parse, s: seq<byte>, rest: seq<byte>)
    requires LegalSegment(g) && Explains(w, s, rest) && (g.Aborted? ==> s != [] && s[0] == DOLLAR)
    ensures Explains(w.(gs := [g] + w.gs), Render(g) + s, rest)
  {
    var gs, f := [g] + w.gs, Frame(w.p, w.c1, w.c2);
    assert gs[1..] == w.gs;
    RunStep(gs, f + rest, []);
    ConcatAssociative(RenderAll(gs), f, rest);
    ConcatAssociative(RenderAll(w.gs), f, rest);
    if w.gs != [] && w.gs[0].Skip? {
      SkipStarts(w.gs, f, rest);
    }
  }

  lemma SkipStarts(gs: seq<Segment>, f: seq<byte>, rest: seq<byte>)
    requires gs != [] && gs[0].Skip? && LegalSegment(gs[0])
    ensures RenderAll(gs) + f + rest != [] && (RenderAll(gs) + f + rest)[0] != DOLLAR
  {
  }

  /** Soundness: whatever is received is a good packet behind legal segments. */
  lemma {:induction false} HuntSound(s: seq<byte>, buf: seq<byte>, sent: seq<byte>) returns (w: Parse)
    requires |buf| == BUFMAX && Hunt(s, buf, sent).Received?
    ensures Explains(w, s, Hunt(s, buf, sent).rest)
    decreases |s|, 0
  {
    if s[0] == DOLLAR {
      assert Written(buf, []) == buf;
      w := BodySound(s[1..], [], buf, sent);
      assert [DOLLAR] + [] + s[1..] == s;
    } else {
      w := HuntSound(s[1..], buf, sent);
      ExplainsCons(Skip(s[0]), w, s[1..], Hunt(s, buf, sent).rest);
      assert Render(Skip(s[0])) + s[1..] == s;
      w := w.(gs := [Skip(s[0])] + w.gs);
    }
  }

  lemma {:induction false} BodySound(s: seq<byte>, p: seq<byte>, buf: seq<byte>, sent: seq<byte>) returns (w: Parse)
    requires |buf| == BUFMAX && Clean(p) && |p| < BUFMAX && Body(s, |p|, Written(buf, p), sent).Received?
    ensures Explains(w, [DOLLAR] + p + s, Body(s, |p|, Written(buf, p), sent).rest)
    decreases |s|, 1
  {
    hide Explains, Checksum, HexByte, Trailer, Accept;
    var b := Written(buf, p);
    var rest := Body(s, |p|, b, sent).rest;
    if |p| == BUFMAX - 1 {
      w := HuntSound(s, b[|p| := 0], sent);
      ExplainsCons(Overlong(p), w, s, rest);
      w := w.(gs := [Overlong(p)] + w.gs);
    } else if s[0] == DOLLAR {
      assert Written(b, []) == b;
      w := BodySound(s[1..], [], b, sent);
      assert [DOLLAR] + [] + s[1..] == s;
      ExplainsCons(Aborted(p), w, s, rest);
      w := w.(gs := [Aborted(p)] + w.gs);
    } else if s[0] == HASH {
      w := TrailerSound(s[1..], p, buf, sent);
      assert [HASH] + s[1..] == s;
    } else {
      assert b[|p| := s[0]] == Written(buf, p + [s[0]]);
      w := BodySound(s[1..], p + [s[0]], buf, sent);
      assert [DOLLAR] + (p + [s[0]]) + s[1..] == [DOLLAR] + p + s;
    }
  }

  lemma {:induction false} TrailerSound(s: seq<byte>, p: seq<byte>, buf: seq<byte>, sent: seq<byte>) returns (w: Parse)
    requires |buf| == BUFMAX && Clean(p) && |p| <= BUFMAX - 2
    requires Trailer(s, |p|, Terminated(buf, p), sent).Received?
    ensures Explains(w, [DOLLAR] + p + ([HASH] + s), Trailer(s, |p|, Terminated(buf, p), sent).rest)
    decreases |s|, 1
  {
    hide Checksum, HexByte, Explains, Render, Frame, Legal, Hunt;
    var c1, c2, t := s[0], s[1], s[2..];
    TrailerText(p, c1, c2, t, s);
    if Checksum(p) == HexByte(c1, c2) {
      w := Parse([], p, c1, c2);
      FrameExplains(w, t);
    } else {
      w := HuntSound(t, Terminated(buf, p), sent + [MINUS]);
      ExplainsCons(Rejected(p, c1, c2), w, t, Hunt(t, Terminated(buf, p), sent + [MINUS]).rest);
      w := w.(gs := [Rejected(p, c1, c2)] + w.gs);
    }
  }

  lemma TrailerText(p: seq<byte>, c1: byte, c2: byte, t: seq<byte>, s: seq<byte>)
    requires |s| >= 2 && s[0] == c1 && s[1] == c2 && s[2..] == t
    ensures [DOLLAR] + p + ([HASH] + s) == Frame(p, c1, c2) + t == Render(Rejected(p, c1, c2)) + t
  {
    assert s == [c1, c2] + t;
  }

  lemma FrameExplains(w: Parse, rest: seq<byte>)
    requires w.gs == [] && Good(w.p, w.c1, w.c2)
    ensures Explains(w, Frame(w.p, w.c1, w.c2) + rest, rest)
  {
    assert RenderAll([]) + Frame(w.p, w.c1, w.c2) + rest == Frame(w.p, w.c1, w.c2) + rest;
  }

  ghost function OutcomeOf(w: Parse, rest: seq<byte>, buf: seq<byte>, sent: seq<byte>): Reception
    requires |buf| == BUFMAX && Legal(w.gs) && |w.p| < BUFMAX
  {
    Accept(|w.p|, Terminated(BufAfter(w.gs, buf), w.p), rest, sent + Naks(w.gs))
  }

  /**
   The parser and the grammar agree: a packet is received exactly if the stream
   is legal segments, a good packet and a rest, and then buffer, unread rest and
   transmitted characters are those of the decomposition.
   */
  lemma ReceptionIsParse(s: seq<byte>, buf: seq<byte>, sent: seq<byte>)
    requires |buf| == BUFMAX
    ensures Hunt(s, buf, sent).Received? <==> exists w, rest :: Explains(w, s, rest)
    ensures forall w, rest :: Explains(w, s, rest) ==> Hunt(s, buf, sent) == OutcomeOf(w, rest, buf, sent)
  {
    if Hunt(s, buf, sent).Received? {
      var w := HuntSound(s, buf, sent);
    }
    hide Hunt;
    forall w, rest | Explains(w, s, rest)
      ensures Hunt(s, buf, sent) == OutcomeOf(w, rest, buf, sent)
    {
      GoodPacketReceived(w.gs, w.p, w.c1, w.c2, rest, buf, sent);
    }
  }
}
