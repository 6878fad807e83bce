/** Chains of TDs in memory, and what a control transfer's chain looks like to the controller. */
module TdChains {
  import opened Words
  import opened Sequences
  import opened TransferDescriptors

  type TdMemory = map<nat, Td>

  /** The pointer word `w` leads to the TD at element `i` of `addrs`, or terminates behind the last one. */
  ghost predicate Points(w: nat, addrs: seq<nat>, i: nat) {
    if i < |addrs| then !Term(w) && !QueueHead(w) && Target(w) == addrs[i] else Term(w)
  }

  ghost predicate LinkAt(tds: TdMemory, addrs: seq<nat>, i: nat)
    requires i < |addrs|
  {
    addrs[i] in tds && Points(tds[addrs[i]].link, addrs, i + 1)
  }

  /** Following the links from `w` visits exactly the TDs at `addrs` and stops at a TERM link. */
  ghost predicate Chain(tds: TdMemory, w: nat, addrs: seq<nat>) {
    Points(w, addrs, 0) && forall i :: 0 <= i < |addrs| ==> LinkAt(tds, addrs, i)
  }

  /** From the first TD of `seg` the links lead through `seg`; where the last one leads is left open. */
  ghost predicate Segment(tds: TdMemory, seg: seq<nat>) {
    && seg != [] && Distinct(seg) && seg[|seg| - 1] in tds
    && forall i :: 0 <= i < |seg| - 1 ==> LinkAt(tds, seg, i)
  }

  lemma ChainTail(tds: TdMemory, w: nat, addrs: seq<nat>)
    requires Chain(tds, w, addrs) && addrs != []
    ensures addrs[0] == Target(w) && addrs[0] in tds && Chain(tds, tds[addrs[0]].link, addrs[1..])
  {
    var r := addrs[1..];
    assert LinkAt(tds, addrs, 0);
    forall i | 0 <= i < |r|
      ensures LinkAt(tds, r, i)
    {
      assert LinkAt(tds, addrs, i + 1);
    }
  }

  /** What the links read is unique. */
  lemma {:induction false} ChainUnique(tds: TdMemory, w: nat, x: seq<nat>, y: seq<nat>)
    requires Chain(tds, w, x) && Chain(tds, w, y)
    ensures x == y
    decreases |x|
  {
    if x != [] && y != [] {
      ChainTail(tds, w, x);
      ChainTail(tds, w, y);
      ChainUnique(tds, tds[x[0]].link, x[1..], y[1..]);
      assert x == [x[0]] + x[1..] && y == [y[0]] + y[1..];
    }
  }

  lemma {:induction false} ChainDrop(tds: TdMemory, w: nat, addrs: seq<nat>, k: nat)
    requires Chain(tds, w, addrs) && 0 < k <= |addrs|
    ensures addrs[k - 1] in tds && Chain(tds, tds[addrs[k - 1]].link, addrs[k..])
    decreases k
  {
    ChainTail(tds, w, addrs);
    if k > 1 {
      ChainDrop(tds, tds[addrs[0]].link, addrs[1..], k - 1);
      assert addrs[1..][k - 1..] == addrs[k..];
    }
  }

  /** A chain that terminates is acyclic: no TD occurs twice. */
  lemma ChainDistinct(tds: TdMemory, w: nat, addrs: seq<nat>)
    requires Chain(tds, w, addrs)
    ensures Distinct(addrs)
  {
    forall i, j | 0 <= i < j < |addrs|
      ensures addrs[i] != addrs[j]
    {
      ChainDrop(tds, w, addrs, i + 1);
      ChainDrop(tds, w, addrs, j + 1);
      if addrs[i] == addrs[j] {
        ChainUnique(tds, tds[addrs[i]].link, addrs[i + 1..], addrs[j + 1..]);
        assert false;
      }
    }
  }

  /** Appending: redirecting the one TERM link of a chain to the first TD of another one. */
  lemma ChainAppend(tds: TdMemory, w: nat, x: seq<nat>, w': nat, y: seq<nat>)
    requires x != [] && Chain(tds, w, x) && y != [] && Chain(tds, w', y)
    requires forall i, j :: 0 <= i < |x| && 0 <= j < |y| ==> x[i] != y[j]
    ensures x[|x| - 1] in tds && Chain(tds[x[|x| - 1] := tds[x[|x| - 1]].(link := w')], w, x + y)
  {
    var l := |x| - 1;
    ChainDistinct(tds, w, x);
    assert LinkAt(tds, x, l);
    var tds' := tds[x[l] := tds[x[l]].(link := w')];
    var r := x + y;
    forall i | 0 <= i < |r|
      ensures LinkAt(tds', r, i)
    {
      if i < |x| {
        assert LinkAt(tds, x, i);
      } else {
        assert LinkAt(tds, y, i - |x|) && r[i] == y[i - |x|];
      }
    }
  }

  // ------------------------------------------------------------------ the chain of a control transfer

  function Addresses(base: nat, n: nat): (a: seq<nat>)
    ensures |a| == n && forall i :: 0 <= i < n ==> a[i] == Address(base, i)
  {
    seq(n, i requires 0 <= i < n => Address(base, i))
  }

  /** The allocation for the chain: 16-aligned and inside the address space, as `memalloc_aligned` returns it. */
  ghost predicate Placed(base: nat, n: nat) {
    0 < base && base % 16 == 0 && base + TD_SIZE * n < TWO32
  }

  ghost predicate Built(tds: TdMemory, c: Control, base: nat, dr: nat) {
    forall i :: 0 <= i < c.Count() ==> Address(base, i) in tds && tds[Address(base, i)] == TdAt(c, base, dr, i)
  }

  lemma AddressPlaced(base: nat, n: nat, i: nat)
    requires Placed(base, n) && i < n
    ensures Address(base, i) % 16 == 0 && Address(base, i) < TWO32
  {
    var q := base / 16 + 2 * i;
    assert Address(base, i) == 16 * q;
    assert 16 * q % 16 == 0;
  }

  /** Link `i` of the `n` TDs at `base`: the next TD, 32 bytes on, with the depth-first flag; TERM for the last one. */
  ghost predicate LinkWordAt(tds: TdMemory, base: nat, i: nat, n: nat) {
    base + 32 * i in tds && tds[base + 32 * i].link == if i < n - 1 then base + 32 * (i + 1) + 4 else 1
  }

  /** The links of a built chain visit all its TDs in order and stop at the last one. */
  lemma BuiltChain(tds: TdMemory, c: Control, base: nat, dr: nat)
    requires Placed(base, c.Count()) && Built(tds, c, base, dr)
    ensures Chain(tds, Target(base), Addresses(base, c.Count()))
    ensures Segment(tds, Addresses(base, c.Count()))
    ensures forall i :: 0 <= i < c.Count() ==> (Term(tds[Address(base, i)].link) <==> i == c.Count() - 1)
    ensures forall i :: 0 <= i < c.Count() ==> LinkWordAt(tds, base, i, c.Count())
  {
    hide Target, Or, Term, QueueHead, DivCeil, TdAt, c.DataCount, LinkWordAt, Built;
    var n := c.Count();
    var a := Addresses(base, n);
    assert Address(base, 0) == base;
    AddressPlaced(base, n, 0);
    LinkRoundTrip(base);
    forall i | 0 <= i < n
      ensures LinkAt(tds, a, i) && (Term(tds[a[i]].link) <==> i == n - 1) && LinkWordAt(tds, base, i, n)
    {
      BuiltLink(tds, c, base, dr, i);
    }
  }

  lemma LinkValue(c: Control, base: nat, dr: nat, i: nat)
    requires Placed(base, c.Count()) && i < c.Count()
    ensures var w := TdAt(c, base, dr, i).link;
            if i < c.Count() - 1 then
              !Term(w) && !QueueHead(w) && Target(w) == Address(base, i + 1) && w == base + 32 * (i + 1) + 4
            else Term(w) && w == 1
  {
    hide DivCeil, StatusWord, DataToken, SetupToken, StatusToken, Wrap, c.Offset, c.DataCount;
    hide Target, Or, Term, QueueHead;
    if i < c.Count() - 1 {
      AddressPlaced(base, c.Count(), i + 1);
      LinkRoundTrip(Address(base, i + 1));
    } else {
      TargetDropsFlags(LPTR_TERM);
    }
  }

  lemma BuiltLink(tds: TdMemory, c: Control, base: nat, dr: nat, i: nat)
    requires Placed(base, c.Count()) && Built(tds, c, base, dr) && i < c.Count()
    ensures LinkAt(tds, Addresses(base, c.Count()), i)
    ensures Term(tds[Address(base, i)].link) <==> i == c.Count() - 1
    ensures LinkWordAt(tds, base, i, c.Count())
  {
    hide TdAt, Target, Term, QueueHead, c.DataCount, Placed;
    LinkValue(c, base, dr, i);
  }

  /**
   The stages as the controller sees them: SETUP with DATA0, data packets that
   alternate beginning with DATA1, a status packet with DATA1; all active, all for
   endpoint 0 of the device and at its speed, an interrupt for the last one only;
   the request in the first buffer; the number of the TD for the driver's messages.
   */
  lemma BuiltStages(tds: TdMemory, c: Control, base: nat, dr: nat, i: nat)
    requires c.Typed() && Built(tds, c, base, dr) && i < c.Count()
    ensures var td := tds[Address(base, i)];
            && Active(td.status) && (InterruptOnComplete(td.status) <==> i == c.Count() - 1)
            && FieldErrors(td.status) == 3 && FieldActLen(td.status) == 0
            && FieldLowSpeed(td.status) == (if c.lowSpeed then 1 else 0)
            && FieldAddr(td.token) == c.addr % 0x80 && FieldEndpoint(td.token) == 0
            && FieldPid(td.token) == (if i == 0 then 0x2d
                                      else if i < c.Count() - 1 then c.dataStage else c.statusStage)
            && FieldToggle(td.token) == (if i == c.Count() - 1 then 1 else i % 2)
            && (i == 0 ==> td.buffer == dr && FieldMaxLen(td.token) == 7) && (i == c.Count() - 1 ==> td.buffer == 0)
            && td.swdata == (if i == 0 then 1 else if i < c.Count() - 1 then i else c.Count())
  {
    hide FieldErrors, FieldActLen, FieldLowSpeed;
    hide TdAt, StatusWord, DataToken, SetupToken, StatusToken, Active, InterruptOnComplete, DivCeil, c.DataCount;
    hide FieldPid, FieldAddr, FieldEndpoint, FieldToggle, FieldMaxLen;
    StatusBits(c, i == c.Count() - 1);
    TokenFields(c, i % 2 == 1);
    TdStage(c, base, dr, i);
  }

  // ------------------------------------------------------------------ the data buffer

  /** Number of bytes the controller may transfer for a TD: the length field counts from 0. */
  function Capacity(td: Td): nat {
    FieldMaxLen(td.token) + 1
  }

  /** Offset `k` of the data buffer is transferred by data TD `i`. */
  ghost predicate Covers(tds: TdMemory, c: Control, base: nat, i: nat, k: nat) {
    Address(base, i) in tds &&
    var td := tds[Address(base, i)];
    td.buffer <= c.buf + k < td.buffer + Capacity(td)
  }

  lemma MulLess(x: nat, y: nat, m: nat)
    requires x <= y
    ensures x * m <= y * m
  {
    assert y * m == x * m + (y - x) * m;
  }

  /** The data packets are just enough for the length: the last one still starts inside it. */
  lemma CeilBounds(length: nat, m: nat)
    requires m > 0
    ensures var n := DivCeil(length, m);
            && n * m >= length && (length > 0 ==> n > 0 && (n - 1) * m < length) && (length == 0 ==> n == 0)
  {
    var x := length + m - 1;
    var n := x / m;
    assert x == m * n + x % m;
    assert n * m == m * n && (n - 1) * m == m * n - m;
    if length == 0 {
      ModUnique(x, m, 0, x);
    } else {
      MulBounds(n, m);
    }
  }

  /** Packets begin one packet size apart, and each inside the transfer. */
  lemma PacketStart(c: Control, i: nat)
    requires 1 <= i <= c.DataCount()
    ensures 0 <= c.Offset(i) < c.length && c.Offset(i + 1) == c.Offset(i) + c.PacketSize() && c.Offset(1) == 0
    ensures i > 1 ==> c.Offset(i) >= c.PacketSize()
  {
    hide DivCeil;
    var n, m := c.DataCount(), c.PacketSize();
    CeilBounds(c.length, m);
    MulLess(i - 1, n - 1, m);
    assert i * m == (i - 1) * m + m;
    if i > 1 {
      MulLess(1, i - 1, m);
    }
  }

  /** The packet that offset `k` falls into. */
  lemma PacketOf(c: Control, k: nat) returns (i: nat)
    requires k < c.length
    ensures 1 <= i <= c.DataCount() && c.Offset(i) <= k < c.Offset(i) + c.PacketSize()
    ensures k < c.PacketSize() ==> i == 1
  {
    hide DivCeil;
    var n, m := c.DataCount(), c.PacketSize();
    var q := k / m;
    i := q + 1;
    assert k == m * q + k % m && q * m == m * q;
    CeilBounds(c.length, m);
    if q >= n {
      MulLess(n, q, m);
      assert false;
    }
    if k < m {
      ModUnique(k, m, 0, k);
    }
  }

  /** Data TD `i` starts where the one before it ends at the latest, and inside the buffer. */
  lemma DataBuffer(tds: TdMemory, c: Control, base: nat, dr: nat, i: nat)
    requires c.Typed() && Built(tds, c, base, dr) && 1 <= i <= c.DataCount() && c.buf + c.length <= TWO32
    ensures Address(base, i) in tds
    ensures var td := tds[Address(base, i)];
            && td.buffer == c.buf + c.Offset(i) < c.buf + c.length
            && Capacity(td) == c.FieldSize()
            && c.Offset(i + 1) == c.Offset(i) + c.PacketSize() < c.length + c.PacketSize()
  {
    hide TdAt, StatusWord, DataToken, SetupToken, StatusToken, FieldMaxLen, Wrap, DivCeil, c.Offset, c.FieldSize;
    TdStage(c, base, dr, i);
    DataLength(c, i % 2 == 1);
    PacketStart(c, i);
    assert tds[Address(base, i)] == TdAt(c, base, dr, i);
    WrapBelow(c.buf + c.Offset(i));
  }

  /**
   The data stage in numbers: `m` being the packet size, but at least 8, there are
   as few packets as cover the length, they start `m` bytes apart, and each is for
   `m` bytes if the six bits of the length field can say so.
   */
  lemma DataPackets(tds: TdMemory, c: Control, base: nat, dr: nat)
    requires c.Typed() && Built(tds, c, base, dr) && c.buf + c.length <= TWO32
    ensures var m, n := if c.maxPacketSize > 8 then c.maxPacketSize else 8, c.Count() - 2;
            && n >= 0 && n * m >= c.length && (forall k: nat :: k < n ==> k * m < c.length)
            && forall i :: 1 <= i <= n ==> DataPacketAt(tds, c, base + 32 * i, i, m)
  {
    hide DivCeil, c.Offset, c.FieldSize, Built;
    var m, n := c.PacketSize(), c.DataCount();
    CeilBounds(c.length, m);
    forall k: nat | k < n
      ensures k * m < c.length
    {
      MulLess(k, n - 1, m);
    }
    forall i | 1 <= i <= n
      ensures DataPacketAt(tds, c, base + 32 * i, i, m)
    {
      DataPacket(tds, c, base, dr, i);
    }
  }

  ghost predicate DataPacketAt(tds: TdMemory, c: Control, a: nat, i: nat, m: nat) {
    && a in tds && tds[a].buffer == c.buf + (i - 1) * m
    && FieldMaxLen(tds[a].token) == (m - 1) % 64 && (m <= 64 ==> FieldMaxLen(tds[a].token) + 1 == m)
  }

  lemma DataPacket(tds: TdMemory, c: Control, base: nat, dr: nat, i: nat)
    requires c.Typed() && Built(tds, c, base, dr) && 1 <= i <= c.DataCount() && c.buf + c.length <= TWO32
    ensures DataPacketAt(tds, c, base + 32 * i, i, c.PacketSize())
  {
    hide DivCeil, Built, FieldMaxLen;
    DataBuffer(tds, c, base, dr, i);
  }

  lemma DataLength(c: Control, toggle: bool)
    requires c.Typed()
    ensures FieldMaxLen(DataToken(c, toggle)) + 1 == c.FieldSize()
  {
    hide DataToken, SetupToken, StatusToken, FieldPid, FieldAddr, FieldEndpoint, FieldToggle, FieldMaxLen;
    TokenFields(c, toggle);
  }

  lemma WrapBelow(x: int)
    requires 0 <= x < TWO32
    ensures Wrap(x) == x
  {
  }

  /** Offset `k` is transferred by some data TD. */
  ghost predicate Transferred(tds: TdMemory, c: Control, base: nat, k: nat) {
    exists i :: 1 <= i <= c.DataCount() && Covers(tds, c, base, i, k)
  }

  lemma TransferredBy(tds: TdMemory, c: Control, base: nat, dr: nat, k: nat)
    requires c.Typed() && Built(tds, c, base, dr) && c.buf + c.length <= TWO32 && k < c.length
    requires c.PacketSize() <= 64 || c.length <= c.FieldSize()
    ensures Transferred(tds, c, base, k)
  {
    hide DivCeil, c.Offset, c.DataCount, c.FieldSize, Capacity, Built;
    var i := PacketOf(c, k);
    DataBuffer(tds, c, base, dr, i);
    if c.PacketSize() > 64 {
      assert i == 1;
      PacketStart(c, i);
    }
    assert Covers(tds, c, base, i, k);
  }

  lemma HoleAt(tds: TdMemory, c: Control, base: nat, dr: nat)
    requires c.Typed() && Built(tds, c, base, dr) && c.buf + c.length <= TWO32
    requires c.FieldSize() < c.PacketSize()
    ensures !Transferred(tds, c, base, c.FieldSize())
  {
    hide DivCeil, c.Offset, c.DataCount, c.FieldSize, Capacity, Built;
    var k := c.FieldSize();
    forall i | 1 <= i <= c.DataCount()
      ensures !Covers(tds, c, base, i, k)
    {
      DataBuffer(tds, c, base, dr, i);
      PacketStart(c, i);
    }
  }

  /**
   The six-bit length field decides whether the whole buffer is transferred: all
   of it for packet sizes up to 64, otherwise only what fits the truncated first
   packet, so longer transfers have holes.
   */
  lemma DataCovered(tds: TdMemory, c: Control, base: nat, dr: nat)
    requires c.Typed() && Built(tds, c, base, dr) && c.buf + c.length <= TWO32
    ensures (forall k :: 0 <= k < c.length ==> Transferred(tds, c, base, k))
            <==> c.PacketSize() <= 64 || c.length <= c.FieldSize()
  {
    hide Transferred, Built, c.FieldSize;
    if c.PacketSize() <= 64 || c.length <= c.FieldSize() {
      forall k | 0 <= k < c.length
        ensures Transferred(tds, c, base, k)
      {
        TransferredBy(tds, c, base, dr, k);
      }
    } else {
      HoleAt(tds, c, base, dr);
    }
  }

  /** Reading the 18 bytes of a device descriptor in packets of 8. */
  const DESCRIPTOR_READ := Control(true, 0, 8, 0x69, 0xe1, 18, 0x10_0000)

  /** An instance: five TDs, with three data packets of 8 bytes. */
  lemma DescriptorPackets(tds: TdMemory, base: nat, dr: nat)
    requires Built(tds, DESCRIPTOR_READ, base, dr)
    ensures DESCRIPTOR_READ.Count() == 5
    ensures forall i :: 1 <= i <= 3 ==>
                          && base + 32 * i in tds && FieldMaxLen(tds[base + 32 * i].token) == 7
                          && tds[base + 32 * i].buffer == 0x10_0000 + 8 * (i - 1)
  {
    hide Built, FieldMaxLen;
    DataPackets(tds, DESCRIPTOR_READ, base, dr);
    forall i | 1 <= i <= 3
      ensures DataPacketAt(tds, DESCRIPTOR_READ, base + 32 * i, i, 8)
    {
    }
  }

  /** A device with packet size 255, of which 255 bytes are read into a buffer at 1 MB. */
  const LARGE_READ := Control(false, 1, 255, 0x69, 0xe1, 255, 0x10_0000)

  /** An instance of the holes: offset 63 of that buffer is not transferred. */
  lemma LargePacketLeavesHole(tds: TdMemory, base: nat, dr: nat)
    requires Built(tds, LARGE_READ, base, dr)
    ensures 63 < LARGE_READ.length && !Transferred(tds, LARGE_READ, base, 63)
  {
    hide Built, Transferred;
    assert LARGE_READ.FieldSize() == 63;
    HoleAt(tds, LARGE_READ, base, dr);
  }
}
