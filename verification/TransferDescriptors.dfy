/**
 Transfer descriptors (TDs) as drivers/usb/uhci.c builds them: the words it
 composes from masks and flags, read back by the layout of section 3.2 of the
 UHCI Design Guide Rev 1.1.
 */
module TransferDescriptors {
  import opened Words

  const TD_SIZE: nat := 32
  const LPTR_MASK: nat := 0xffff_fff0
  const LPTR_DEPTH: nat := 0x4
  const LPTR_TERM: nat := 0x1

  const ERR_CNT_3: nat := 0x1800_0000
  const LOW_SPEED: nat := 0x0400_0000
  const IOC: nat := 0x0100_0000
  const STATUS_ACTIVE: nat := 0x0080_0000
  const STATUS_MASK: nat := 0x00fe_0000
  const DATA_TOGGLE: nat := 0x0008_0000
  const PID_SETUP: nat := 0x2d

  datatype Td = Td(link: nat, status: nat, token: nat, buffer: nat, swdata: nat)

  // ------------------------------------------------------------------ link pointers

  /** `UHCI_TD_LPTR_PTR`, `UHCI_FLP_PTR`, `LINK_PTR_TO_TD` */
  function Target(w: nat): nat {
    And(w, LPTR_MASK)
  }

  /** The `& UHCI_TD_LPTR_TERM` test. */
  predicate Term(w: nat) {
    And(w, LPTR_TERM) != 0
  }

  /** Bit 1 tells the controller that the link leads to a queue head and not to a TD. */
  predicate QueueHead(w: nat) {
    Bit(w, 1) == 1
  }

  lemma FlagsBelow16(p: nat)
    requires p % 16 == 0
    ensures Pow2(4) == 16 && !QueueHead(p) && !QueueHead(p + 4)
    ensures p % 2 == 0 && (p + 4) % 2 == 0 && (p + 4) % 16 == 4
  {
    var q := p / 16;
    assert Pow2(1) == 2 && Pow2(4) == 16;
    assert p == 16 * q && p / 2 == 8 * q && (p + 4) / 2 == 8 * q + 2;
  }

  lemma TargetIdempotent(w: nat)
    ensures Target(Target(w)) == Target(w)
  {
    AndIdempotent(w, LPTR_MASK);
  }

  lemma TargetDropsFlags(w: nat)
    requires w < TWO32
    ensures Target(w) == w - w % 16
    ensures Term(w) <==> w % 2 == 1
  {
    hide And, Or;
    Pow2Is32();
    assert Pow2(4) == 16 && Pow2(1) == 2 && Pow2(0) == 1;
    AndComplement(w, 15, 32);
    AndLowMask(w, 4);
    AndLowMask(w, 1);
  }

  /** Masking and the depth flag lose nothing of a 16-aligned address. */
  lemma LinkRoundTrip(p: nat)
    requires p % 16 == 0 && p < TWO32
    ensures Target(p) == p && !Term(p) && !QueueHead(p)
    ensures Or(Target(p), LPTR_DEPTH) == p + 4 < TWO32
    ensures Target(p + 4) == p && !Term(p + 4) && !QueueHead(p + 4)
  {
    hide And, Or, Pow2, Target, Term, QueueHead;
    FlagsBelow16(p);
    TargetDropsFlags(p);
    OrBelow(p, LPTR_DEPTH, 4);
    TargetDropsFlags(p + 4);
  }

  // ------------------------------------------------------------------ control transfers

  /** `DIV_CEIL` */
  function DivCeil(a: nat, b: nat): nat
    requires b > 0
  {
    (a + b - 1) / b
  }

  /** What `uhci_create_td_control` is asked for: device, stages and data buffer. */
  datatype Control = Control(lowSpeed: bool, addr: nat, maxPacketSize: nat, dataStage: nat, statusStage: nat,
                             length: nat, buf: nat) {
    /** The C types of the arguments. */
    predicate Typed() {
      && addr < 0x100 && maxPacketSize < 0x100 && dataStage < 0x100 && statusStage < 0x100
      && length < 0x1_0000 && buf < TWO32
    }

    /** The packet size in use: at least 8. */
    function PacketSize(): nat {
      if maxPacketSize < 8 then 8 else maxPacketSize
    }

    /** Number of data-stage TDs: `DIV_CEIL(length, max_pkt_size)`. */
    function DataCount(): nat {
      DivCeil(length, PacketSize())
    }

    /** What the six-bit length field leaves of the packet size. */
    function FieldSize(): (n: nat)
      ensures n <= PacketSize() && (PacketSize() <= 64 <==> n == PacketSize())
    {
      (PacketSize() - 1) % 0x40 + 1
    }

    /** Where in the buffer packet `i` (counting from 1) begins. */
    function Offset(i: nat): int {
      (i - 1) * PacketSize()
    }

    function Count(): nat {
      2 + DataCount()
    }
  }

  /** `UHCI_TD_MAX_LEN`: only six bits of the length survive. */
  function MaxLen(len: nat): nat {
    And(len, 0x3f) * 0x20_0000
  }

  /** `UHCI_TD_DEV_ADDR` */
  function DevAddr(addr: nat): nat {
    And(addr, 0x7f) * 0x100
  }

  function StatusWord(c: Control, last: bool): nat {
    var s := Or(ERR_CNT_3, if c.lowSpeed then LOW_SPEED else 0);
    Or(if last then Or(s, IOC) else s, STATUS_ACTIVE)
  }

  function SetupToken(c: Control): nat {
    Or(Or(MaxLen(7), DevAddr(c.addr)), PID_SETUP)
  }

  function DataToken(c: Control, toggle: bool): nat {
    var t := Or(Or(MaxLen(c.PacketSize() - 1), DevAddr(c.addr)), c.dataStage);
    if toggle then Or(t, DATA_TOGGLE) else t
  }

  function StatusToken(c: Control): nat {
    Or(Or(Or(MaxLen(0x7ff), DATA_TOGGLE), DevAddr(c.addr)), c.statusStage)
  }

  function Address(base: nat, i: nat): nat {
    base + TD_SIZE * i
  }

  function LinkTo(p: nat): nat {
    Or(Target(p), LPTR_DEPTH)
  }

  /** The TD with index `i` of the chain at `base`; `dr` is the address of the device request. */
  function TdAt(c: Control, base: nat, dr: nat, i: nat): Td
    requires i < c.Count()
  {
    if i == 0 then
      Td(LinkTo(Address(base, 1)), StatusWord(c, false), SetupToken(c), dr, 1)
    else if i < c.Count() - 1 then
      Td(LinkTo(Address(base, i + 1)), StatusWord(c, false), DataToken(c, i % 2 == 1),
         Wrap(c.buf + c.Offset(i)), i)
    else
      Td(LPTR_TERM, StatusWord(c, true), StatusToken(c), 0, c.Count())
  }

  /** Status, token and buffer of the TDs by stage. */
  lemma TdStage(c: Control, base: nat, dr: nat, i: nat)
    requires i < c.Count()
    ensures var td := TdAt(c, base, dr, i);
            && td.status == StatusWord(c, i == c.Count() - 1)
            && td.token == (if i == 0 then SetupToken(c)
                            else if i < c.Count() - 1 then DataToken(c, i % 2 == 1) else StatusToken(c))
            && (1 <= i < c.Count() - 1 ==> td.buffer == Wrap(c.buf + c.Offset(i)))
            && (i == 0 ==> td.buffer == dr) && (i == c.Count() - 1 ==> td.buffer == 0)
            && td.swdata == (if i == 0 then 1 else if i < c.Count() - 1 then i else c.Count())
  {
    hide StatusWord, SetupToken, DataToken, StatusToken, LinkTo, Address, Wrap, DivCeil, c.Offset, c.DataCount;
  }

  // ------------------------------------------------------------------ reading the words back

  function FieldPid(token: nat): nat { token % 0x100 }
  function FieldAddr(token: nat): nat { token / 0x100 % 0x80 }
  function FieldEndpoint(token: nat): nat { token / 0x8000 % 0x10 }
  function FieldToggle(token: nat): nat { token / 0x8_0000 % 2 }
  function FieldMaxLen(token: nat): nat { token / 0x20_0000 }

  ghost predicate Fields(token: nat, pid: nat, addr: nat, toggle: nat, maxLen: nat) {
    && FieldPid(token) == pid && FieldAddr(token) == addr && FieldEndpoint(token) == 0
    && FieldToggle(token) == toggle && FieldMaxLen(token) == maxLen
  }

  lemma FieldsOfSum(maxLen: nat, toggle: nat, addr: nat, pid: nat)
    requires maxLen < 0x40 && toggle < 2 && addr < 0x80 && pid < 0x100
    ensures Fields(maxLen * 0x20_0000 + toggle * 0x8_0000 + addr * 0x100 + pid, pid, addr, toggle, maxLen)
  {
    var t := maxLen * 0x20_0000 + toggle * 0x8_0000 + addr * 0x100 + pid;
    var low := addr * 0x100 + pid;
    ModUnique(t, 0x100, maxLen * 0x2000 + toggle * 0x800 + addr, pid);
    ModUnique(maxLen * 0x2000 + toggle * 0x800 + addr, 0x80, maxLen * 0x40 + toggle * 0x10, addr);
    ModUnique(t, 0x8000, maxLen * 0x40 + toggle * 0x10, low);
    ModUnique(maxLen * 0x40 + toggle * 0x10, 0x10, maxLen * 4 + toggle, 0);
    ModUnique(t, 0x8_0000, maxLen * 4 + toggle, low);
    ModUnique(maxLen * 4 + toggle, 2, maxLen * 2, toggle);
    ModUnique(t, 0x20_0000, maxLen, toggle * 0x8_0000 + low);
  }

  lemma PowerConstants()
    ensures Pow2(6) == 0x40 && Pow2(7) == 0x80 && Pow2(8) == 0x100 && Pow2(15) == 0x8000
    ensures Pow2(19) == 0x8_0000 && Pow2(21) == 0x20_0000 && Pow2(23) == 0x80_0000 && Pow2(24) == 0x100_0000
    ensures Pow2(26) == 0x400_0000 && Pow2(27) == 0x800_0000
  {
    assert Pow2(4) == 16;
    assert Pow2(12) == 0x1000;
    assert Pow2(19) == 0x8_0000;
    assert Pow2(24) == 0x100_0000;
  }

  lemma MaskedFields(len: nat, addr: nat)
    ensures MaxLen(len) == len % 0x40 * 0x20_0000 && DevAddr(addr) == addr % 0x80 * 0x100
  {
    PowerConstants();
    hide And, Pow2;
    AndLowMask(len, 6);
    AndLowMask(addr, 7);
  }

  /** `MAX_LEN | DEV_ADDR | pid` */
  lemma ComposedToken(len: nat, addr: nat, pid: nat)
    requires pid < 0x100
    ensures Or(Or(MaxLen(len), DevAddr(addr)), pid) == len % 0x40 * 0x20_0000 + addr % 0x80 * 0x100 + pid
  {
    PowerConstants();
    MaskedFields(len, addr);
    hide Or, Pow2, MaxLen, DevAddr;
    OrBelow(MaxLen(len), DevAddr(addr), 21);
    OrBelow(MaxLen(len) + DevAddr(addr), pid, 8);
  }

  /** Every token of a chain decodes to the intended fields: packet type, device, toggle, length. */
  lemma TokenFields(c: Control, toggle: bool)
    requires c.Typed()
    ensures Fields(SetupToken(c), 0x2d, c.addr % 0x80, 0, 7)
    ensures Fields(DataToken(c, toggle), c.dataStage, c.addr % 0x80, if toggle then 1 else 0,
                   (c.PacketSize() - 1) % 0x40)
    ensures Fields(StatusToken(c), c.statusStage, c.addr % 0x80, 1, 0x3f)
  {
    hide Or, Fields, MaxLen, DevAddr;
    var a, len := c.addr % 0x80, (c.PacketSize() - 1) % 0x40;
    ComposedToken(7, c.addr, PID_SETUP);
    FieldsOfSum(7, 0, a, PID_SETUP);
    ComposedToken(c.PacketSize() - 1, c.addr, c.dataStage);
    FieldsOfSum(len, 0, a, c.dataStage);
    FieldsOfSum(len, 1, a, c.dataStage);
    FieldsOfSum(0x3f, 1, a, c.statusStage);
    TogglePosition(len, a, c.dataStage);
    ToggleSet(len * 0x20_0000 + a * 0x100 + c.dataStage);
    StatusTokenSum(c);
  }

  lemma TogglePosition(len: nat, addr: nat, pid: nat)
    requires addr < 0x80 && pid < 0x100
    ensures (len * 0x20_0000 + addr * 0x100 + pid) / 0x8_0000 % 2 == 0
  {
    ModUnique(len * 0x20_0000 + addr * 0x100 + pid, 0x8_0000, 4 * len, addr * 0x100 + pid);
    ModUnique(4 * len, 2, 2 * len, 0);
  }

  /** The toggle flag is added to a token in which it is clear. */
  lemma ToggleSet(t: nat)
    requires t / 0x8_0000 % 2 == 0
    ensures Or(t, DATA_TOGGLE) == t + DATA_TOGGLE
  {
    PowerConstants();
    hide And, Or, Pow2;
    AndBit(t, 19);
    OrDisjoint(t, DATA_TOGGLE);
  }

  lemma StatusTokenSum(c: Control)
    requires c.Typed()
    ensures StatusToken(c) == 0x3f * 0x20_0000 + DATA_TOGGLE + c.addr % 0x80 * 0x100 + c.statusStage
  {
    hide And, Or, MaxLen, DevAddr;
    MaskedFields(0x7ff, c.addr);
    ToggledAddress(c.addr % 0x80);
    PidBelow(0x7e8_0000, c.addr % 0x80, c.statusStage);
  }

  lemma ToggledAddress(a: nat)
    requires a < 0x80
    ensures Or(Or(0x7e0_0000, DATA_TOGGLE), a * 0x100) == 0x7e8_0000 + a * 0x100
  {
    PowerConstants();
    hide Or, Pow2;
    OrBelow(0x7e0_0000, DATA_TOGGLE, 21);
    OrBelow(0x7e8_0000, a * 0x100, 15);
  }

  lemma PidBelow(x: nat, a: nat, pid: nat)
    requires x % 0x100 == 0 && pid < 0x100
    ensures Or(x + a * 0x100, pid) == x + a * 0x100 + pid
  {
    PowerConstants();
    hide Or, Pow2;
    OrBelow(x + a * 0x100, pid, 8);
  }

  /** The `& UHCI_TD_STATUS_ACTIVE` test. */
  predicate Active(status: nat) {
    And(status, STATUS_ACTIVE) != 0
  }

  predicate InterruptOnComplete(status: nat) {
    And(status, IOC) != 0
  }

  /** The test before a TD is reported looks at bits 17 to 23 and at no other. */
  lemma ReportedIff(status: nat)
    ensures And(status, STATUS_MASK) != 0 <==> exists k :: 17 <= k <= 23 && Bit(status, k) == 1
  {
    PowerConstants();
    assert Pow2(17) == 0x2_0000;
    AndNonzero(status, STATUS_MASK);
    forall k: nat
      ensures CommonBit(status, STATUS_MASK, k) <==> 17 <= k <= 23 && Bit(status, k) == 1
    {
      hide Bit, Pow2;
      MaskBits(17, 24, k);
    }
    hide Bit, Pow2, And, CommonBit;
  }

  /** The two flags that are tested are bits 23 and 24. */
  lemma FlagBits(status: nat)
    ensures Active(status) <==> Bit(status, 23) == 1
    ensures InterruptOnComplete(status) <==> Bit(status, 24) == 1
  {
    PowerConstants();
    hide And, Pow2;
    AndBit(status, 23);
    AndBit(status, 24);
  }

  /** Bits 27 and 28: how many errors are allowed. */
  function FieldErrors(status: nat): nat { status / 0x800_0000 % 4 }
  function FieldLowSpeed(status: nat): nat { status / 0x400_0000 % 2 }
  function FieldActLen(status: nat): nat { status % 0x400 }

  lemma StatusSum(c: Control, last: bool)
    ensures StatusWord(c, last)
            == ERR_CNT_3 + (if c.lowSpeed then LOW_SPEED else 0) + (if last then IOC else 0) + STATUS_ACTIVE
  {
    PowerConstants();
    hide And, Or, Pow2;
    var low := if c.lowSpeed then LOW_SPEED else 0;
    OrBelow(ERR_CNT_3, low, 27);
    OrBelow(ERR_CNT_3 + low, IOC, 26);
    OrBelow(if last then ERR_CNT_3 + low + IOC else ERR_CNT_3 + low, STATUS_ACTIVE, 24);
  }

  /**
   Every TD starts active with three errors allowed and no bytes transferred, for
   the device's speed, and only the last one raises an interrupt on completion.
   No other bit is set.
   */
  lemma StatusBits(c: Control, last: bool)
    ensures StatusWord(c, last)
            == 0x1880_0000 + (if c.lowSpeed then 0x400_0000 else 0) + (if last then 0x100_0000 else 0)
    ensures Active(StatusWord(c, last))
    ensures InterruptOnComplete(StatusWord(c, last)) <==> last
    ensures FieldErrors(StatusWord(c, last)) == 3 && FieldActLen(StatusWord(c, last)) == 0
    ensures FieldLowSpeed(StatusWord(c, last)) == if c.lowSpeed then 1 else 0
  {
    PowerConstants();
    StatusSum(c, last);
    hide And, Pow2, StatusWord;
    AndBit(StatusWord(c, last), 23);
    AndBit(StatusWord(c, last), 24);
  }
}
