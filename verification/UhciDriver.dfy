/**
 The control-transfer machinery of drivers/usb/uhci.c on linked structures in
 memory: TDs and transfer entries are records at addresses, the controller's
 queue hangs off `qelp`, the software list off `pending`.
 */
module UhciDriver {
  import opened Words
  import opened Sequences
  import opened TransferDescriptors
  import opened TdChains
  import Q = TransferQueue

  /** `struct device_request` */
  datatype Request = Request(requestType: nat, request: nat, value: nat, index: nat, length: nat)

  /** Entry `e` is in memory, its TDs are the segment `seg`, and the flag of its waiting function exists. */
  ghost predicate TransferAt(tds: TdMemory, entries: Q.EntryMemory, flags: map<nat, bool>, e: nat, seg: seq<nat>) {
    && e in entries && Segment(tds, seg)
    && entries[e].first == seg[0] && entries[e].last == seg[|seg| - 1] && entries[e].last != 0
    && entries[e].done in flags
  }

  /** The entries of the list whose last TD is no longer active. */
  ghost function Completed(tds: TdMemory, entries: Q.EntryMemory, q: seq<nat>): set<nat> {
    set e | e in q && e in entries && entries[e].last in tds && !Active(tds[entries[e].last].status)
  }

  /** TDs with a bit of the status field set. */
  ghost function Flagged(tds: TdMemory): set<nat> {
    set a | a in tds && And(tds[a].status, STATUS_MASK) != 0
  }

  /** Those are the TDs with one of bits 17 to 23 set, from the bit stuff error to the active bit. */
  lemma FlaggedIff(tds: TdMemory, a: nat)
    ensures a in Flagged(tds) <==> a in tds && exists k :: 17 <= k <= 23 && Bit(tds[a].status, k) == 1
  {
    hide And, Bit;
    if a in tds {
      ReportedIff(tds[a].status);
    }
  }

  /** The flags after the handlers of `done` have run. */
  ghost function Raised(flags: map<nat, bool>, entries: Q.EntryMemory, done: seq<nat>): (r: map<nat, bool>)
    ensures flags.Keys <= r.Keys
  {
    if done == [] then flags
    else
      var r := Raised(flags, entries, done[..|done| - 1]);
      var e := done[|done| - 1];
      if e in entries then r[entries[e].done := true] else r
  }

  /** Both memories hold the same entries up to their `next` links. */
  ghost predicate SameTransfers(m: Q.EntryMemory, n: Q.EntryMemory) {
    m.Keys == n.Keys && forall x :: x in m ==> n[x].(next := 0) == m[x].(next := 0)
  }

  /** Both memories hold the same TDs up to their status words. */
  ghost predicate SameButStatus(m: TdMemory, n: TdMemory) {
    m.Keys == n.Keys && forall a :: a in m ==> n[a].(status := 0) == m[a].(status := 0)
  }

  lemma CompletedTest(tds: TdMemory, m: Q.EntryMemory, q: seq<nat>, f: map<nat, bool>, e: nat, seg: seq<nat>)
    requires e in q && TransferAt(tds, m, f, e, seg)
    ensures m[e].last in tds
    ensures e in Completed(tds, m, q) <==> m[e].last != 0 && !Active(tds[m[e].last].status)
  {
  }

  lemma NextInList(m: Q.EntryMemory, head: nat, q: seq<nat>, done: set<nat>, k: nat, kept: seq<nat>)
    requires k < |q| && Q.Linked(m, head, q, done, k, kept)
    ensures q[k] in m && m[q[k]].next == Q.At(q, k + 1)
  {
    assert Q.NodeAt(m, q, k);
  }

  lemma RaisedKeys(flags: map<nat, bool>, m: Q.EntryMemory, done: seq<nat>)
    ensures flags.Keys <= Raised(flags, m, done).Keys
  {
  }

  lemma RaisedStep(flags: map<nat, bool>, m: Q.EntryMemory, done: seq<nat>, e: nat)
    requires e in m
    ensures Raised(flags, m, done + [e]) == Raised(flags, m, done)[m[e].done := true]
  {
    assert (done + [e])[..|done|] == done;
  }

  lemma WalkStarts(tds: TdMemory, m: Q.EntryMemory, flags: map<nat, bool>, head: nat, q: seq<nat>, done: set<nat>)
    requires Q.List(m, head, q)
    ensures q[..0] == [] && Q.Only([], done) == [] && Q.Without([], done) == [] && Raised(flags, m, []) == flags
    ensures Q.Linked(m, head, q, done, 0, []) && head == Q.At(q, 0) && 0 !in q
  {
    assert [] + q[0..] == q;
    Q.EmptyFilters(done);
    Q.NodesInMemory(m, head, q);
  }

  /** Behind the last entry the walk has left the list that `AfterIsr` describes. */
  lemma WalkEnds(tds: TdMemory, m: Q.EntryMemory, m': Q.EntryMemory, flags: map<nat, bool>, head: nat, q: seq<nat>,
                 done: set<nat>, segs: map<nat, seq<nat>>)
    requires SameTransfers(m, m') && Distinct(q) && 0 !in q
    requires Q.Linked(m', head, q, done, |q|, Q.Without(q, done))
    requires forall e :: e in q ==> e in segs && TransferAt(tds, m, flags, e, segs[e])
    ensures var r := Q.AfterIsr(q, done);
            && Q.List(m', head, r) && Distinct(r)
            && forall e {:trigger e in r} :: e in r ==>
                 e in segs && TransferAt(tds, m', Raised(flags, m, Q.Only(q, done)), e, segs[e])
  {
    Q.OnlyIsOnce(q, done);
    var r := Q.AfterIsr(q, done);
    assert Q.Without(q, done) + q[|q|..] == Q.Without(q, done);
    assert q == [] ==> r == [];
    RaisedKeys(flags, m, Q.Only(q, done));
    hide Q.Only, Q.Without, Raised, Segment;
    forall e | e in r
      ensures e in segs && TransferAt(tds, m', Raised(flags, m, Q.Only(q, done)), e, segs[e])
    {
      assert e in q;
    }
  }

  lemma {:induction false} NothingCompleted(q: seq<nat>)
    ensures Q.Only(q, {}) == []
  {
    if q != [] {
      NothingCompleted(q[..|q| - 1]);
    }
  }

  /** Redirecting a TERM link leaves every segment as it is, because inside a segment no link is TERM. */
  lemma SegmentKept(tds: TdMemory, seg: seq<nat>, a: nat, w: nat)
    requires Segment(tds, seg) && a in tds && Term(tds[a].link)
    ensures Segment(tds[a := tds[a].(link := w)], seg)
  {
    var tds' := tds[a := tds[a].(link := w)];
    forall i | 0 <= i < |seg| - 1
      ensures LinkAt(tds', seg, i)
    {
      assert LinkAt(tds, seg, i);
    }
  }

  class Driver {
    var tds: TdMemory
    var entries: Q.EntryMemory
    var flags: map<nat, bool>
    var requests: map<nat, Request>
    /** `pending_queue`, `queue->qelp.pointer` and the status register USBSTS */
    var pending: nat
    var qelp: nat
    var usbsts: nat
    /** Addresses of the pending entries, and of the TDs reachable from `qelp`. */
    ghost var queue: seq<nat>
    ghost var chain: seq<nat>
    /** The TDs each transfer entry was submitted with. */
    ghost var segs: map<nat, seq<nat>>
    /** The handler calls so far. */
    ghost var handled: seq<nat>

    ghost predicate Valid()
      reads this
    {
      && Chain(tds, qelp, chain)
      && Q.List(entries, pending, queue) && Distinct(queue)
      && Transfers()
    }

    ghost predicate Transfers()
      reads this
    {
      forall e :: e in queue ==> e in segs && TransferAt(tds, entries, flags, e, segs[e])
    }

    /** Behind `uhci_init_frame_list`: no transfer is pending and the queue is terminated. */
    constructor ()
      ensures Valid() && pending == 0 && qelp == 1 && queue == [] && chain == [] && handled == []
      ensures tds == map[] && entries == map[] && requests == map[] && usbsts == 0
    {
      tds, entries, flags, requests := map[], map[], map[], map[];
      pending, qelp, usbsts := 0, LPTR_TERM, 0;
      queue, chain, segs, handled := [], [], map[], [];
      new;
      TargetDropsFlags(LPTR_TERM);
    }

    /**
     `uhci_create_td_control`. `base` and `dr` are what the two allocations
     returned; the request is stored at `dr`, the chain at `base`.
     */
    method CreateTdControl(c: Control, base: nat, dr: nat, request: Request) returns (count: nat)
      requires c.Typed() && Placed(base, c.Count()) && request.length == c.length
      modifies `tds, `requests
      ensures count == c.Count() && Built(tds, c, base, dr)
      ensures requests == old(requests)[dr := request]
      ensures OthersKept(old(tds), tds, base, c.Count())
    {
      hide TdAt, DivCeil, Address, Wrap, c.Offset, BuiltUpTo, OthersKept;
      hide And, Or, MaxLen, DevAddr, StatusWord, SetupToken, StatusToken, LinkTo;
      ghost var start := tds;
      var toggle := true;
      requests := requests[dr := request];
      var packetSize := c.PacketSize();
      count := 2 + DivCeil(c.length, packetSize);
      FirstTd(c, base, dr);
      BuiltStart(tds, c, base, dr, count);
      PutTd(c, base, dr, 0, Td(LinkTo(Address(base, 1)), StatusWord(c, false), SetupToken(c), dr, 1), start);
      var buf := c.buf;
      for i := 0 to count - 2
        invariant toggle == (i % 2 == 0) && buf == Wrap(c.buf + c.Offset(i + 1))
        invariant requests == old(requests)[dr := request]
        invariant BuiltUpTo(tds, c, base, dr, i + 1) && OthersKept(start, tds, base, count)
      {
        DataTd(c, base, dr, i + 1);
        var token := Or(Or(MaxLen(packetSize - 1), DevAddr(c.addr)), c.dataStage);
        if toggle {
          token := Or(token, DATA_TOGGLE);
        }
        PutTd(c, base, dr, i + 1, Td(LinkTo(Address(base, i + 2)), StatusWord(c, false), token, buf, i + 1), start);
        toggle := !toggle;
        buf := Wrap(buf + packetSize);
      }
      LastTd(c, base, dr);
      PutTd(c, base, dr, count - 1, Td(LPTR_TERM, StatusWord(c, true), StatusToken(c), 0, count), start);
      BuiltDone(tds, c, base, dr);
    }

    /** Fills in TD `i`, the ones before it being in place. */
    method PutTd(c: Control, base: nat, dr: nat, i: nat, td: Td, ghost start: TdMemory)
      requires i < c.Count() && td == TdAt(c, base, dr, i)
      requires BuiltUpTo(tds, c, base, dr, i) && OthersKept(start, tds, base, c.Count())
      modifies `tds
      ensures BuiltUpTo(tds, c, base, dr, i + 1) && OthersKept(start, tds, base, c.Count())
    {
      hide TdAt, DivCeil;
      tds := tds[Address(base, i) := td];
    }

    /** The driver's entry for the `count` TDs at `td`, with its local `done` at address `flag`. */
    method FillEntry(e: nat, td: nat, count: nat, flag: nat)
      requires count > 0
      modifies `entries, `flags
      ensures flags == old(flags)[flag := false]
      ensures entries == old(entries)[e := Q.Entry(Address(td, count - 1), td, flag, 0)]
    {
      flags := flags[flag := false];
      entries := entries[e := Q.Entry(Address(td, count - 1), td, flag, 0)];
    }

    /** `memfree(entry)` */
    method FreeEntry(e: nat)
      modifies `entries
      ensures entries == old(entries) - {e}
    {
      entries := entries - {e};
    }

    /** `uhci_delete_td_control`: the request is found through the first TD; `block` are the TDs at `td`. */
    method DeleteTdControl(td: nat, block: set<nat>) returns (dr: nat)
      requires td in tds
      modifies `tds, `requests
      ensures dr == old(tds)[td].buffer
      ensures requests == old(requests) - {dr} && tds == old(tds) - block
    {
      dr := tds[td].buffer;
      requests := requests - {dr};
      tds := tds - block;
    }

    /** The list walk of `uhci_schedule_queue`, and the append behind its end. */
    method AppendPending(e: nat)
      requires Q.List(entries, pending, queue) && Distinct(queue)
      requires e != 0 && e in entries && entries[e].next == 0 && e !in queue
      modifies `entries, `pending
      ensures Q.List(entries, pending, queue + [e])
      ensures entries == if queue == [] then old(entries)
                         else
                           var l := queue[|queue| - 1];
                           if l in old(entries) then old(entries)[l := old(entries)[l].(next := e)] else old(entries)
      ensures queue == [] || queue[|queue| - 1] in old(entries)
    {
      var te := pending;
      if te != 0 {
        ghost var k := 0;
        assert Q.NodeAt(entries, queue, 0);
        while entries[te].next != 0
          invariant k < |queue| && te == queue[k] && Q.NodeAt(entries, queue, k)
          decreases |queue| - k
        {
          te := entries[te].next;
          k := k + 1;
          assert Q.NodeAt(entries, queue, k);
        }
        Q.InnerLinks(entries, pending, queue);
        Q.Appended(entries, pending, queue, e);
        entries := entries[te := entries[te].(next := e)];
      } else {
        assert queue != [] ==> Q.NodeAt(entries, queue, 0);
        pending := e;
        assert Q.NodeAt(entries, [e], 0);
        assert queue + [e] == [e];
      }
    }

    /**
     The chain walk of `uhci_schedule_queue`, and the redirection of its TERM link.
     The routine has read `endptr` from `qelp` before it touched the pending list.
     */
    method AppendChain(endptr: nat, first: nat, ghost seg: seq<nat>)
      requires if Term(endptr) then Term(qelp) else endptr == qelp
      requires Chain(tds, qelp, chain) && seg != [] && Chain(tds, Target(first), seg)
      requires forall i, j :: 0 <= i < |chain| && 0 <= j < |seg| ==> chain[i] != seg[j]
      modifies `tds, `qelp
      ensures Chain(tds, qelp, chain + seg)
      ensures if chain == [] then tds == old(tds) && qelp == seg[0]
              else
                var l := chain[|chain| - 1];
                qelp == old(qelp) && l in old(tds) && Term(old(tds)[l].link)
                && tds == old(tds)[l := old(tds)[l].(link := seg[0])]
    {
      hide Target, Term, QueueHead;
      TargetIdempotent(first);
      if Term(endptr) {
        qelp := Target(first);
        assert chain + seg == seg;
        return;
      }
      var ptr := endptr;
      ghost var k := 0;
      assert LinkAt(tds, chain, 0);
      while !Term(tds[Target(ptr)].link)
        invariant k < |chain| && Target(ptr) == chain[k] && LinkAt(tds, chain, k)
        decreases |chain| - k
      {
        ptr := tds[Target(ptr)].link;
        k := k + 1;
        assert LinkAt(tds, chain, k);
      }
      ChainAppend(tds, qelp, chain, Target(first), seg);
      tds := tds[Target(ptr) := tds[Target(ptr)].(link := Target(first))];
    }

    /**
     `uhci_schedule_queue`: append on both structures. The pending list gains the
     entry at its end, the chain from `qelp` the entry's TDs; besides the two
     links behind the old ends nothing in memory changes.
     */
    method ScheduleQueue(e: nat)
      requires Valid() && e in segs && TransferAt(tds, entries, flags, e, segs[e])
      requires e != 0 && entries[e].next == 0 && e !in queue && Chain(tds, Target(entries[e].first), segs[e])
      requires forall i, j :: 0 <= i < |chain| && 0 <= j < |segs[e]| ==> chain[i] != segs[e][j]
      modifies `tds, `entries, `pending, `qelp, `queue, `chain
      ensures Valid() && queue == old(queue) + [e] && chain == old(chain) + segs[e]
      ensures tds.Keys == old(tds).Keys && entries.Keys == old(entries).Keys
      ensures old(chain) == [] ==> qelp == entries[e].first && tds == old(tds)
      ensures old(chain) != [] ==> var l := old(chain)[|old(chain)| - 1];
                                   qelp == old(qelp) && l in tds && tds[l].link == entries[e].first
      ensures forall a :: a in tds && (old(chain) == [] || a != old(chain)[|old(chain)| - 1]) ==> tds[a] == old(tds)[a]
      ensures forall a :: a in tds ==> tds[a].(link := 0) == old(tds)[a].(link := 0)
      ensures forall x :: x in entries && (old(queue) == [] || x != old(queue)[|old(queue)| - 1]) ==>
                            entries[x] == old(entries)[x]
      ensures forall x :: x in entries ==> entries[x].(next := 0) == old(entries)[x].(next := 0)
    {
      hide Chain, Q.List, Target, Term, QueueHead;
      var endptr, first := qelp, entries[e].first;
      assert queue != [] ==> queue[|queue| - 1] in queue;
      AppendPending(e);
      AppendChain(endptr, first, segs[e]);
      Q.DistinctAppend(queue, e);
      ghost var queue', chain' := queue + [e], chain + segs[e];
      forall x | x in queue'
        ensures x in segs && TransferAt(tds, entries, flags, x, segs[x])
      {
        if chain != [] {
          SegmentKept(old(tds), segs[x], chain[|chain| - 1], segs[e][0]);
        }
      }
      queue, chain := queue', chain';
    }

    /**
     `uhci_callback_trans_end`: walks from the first TD of the entry, reports those
     with a status bit set, and raises the flag. `reported` stands for the printing.
     */
    method CallbackTransEnd(e: nat) returns (reported: seq<nat>, ghost visited: seq<nat>)
      requires e in segs && TransferAt(tds, entries, flags, e, segs[e])
      modifies `flags, `handled
      ensures visited == segs[e][..|segs[e]| - 1]
      ensures reported == Q.Only(visited, Flagged(tds))
      ensures flags == old(flags)[entries[e].done := true] && handled == old(handled) + [e]
    {
      hide Target, Term, And;
      ghost var seg := segs[e];
      var td := entries[e].first;
      reported, visited := [], [];
      while td != entries[e].last
        invariant |visited| < |seg| && visited == seg[..|visited|] && td == seg[|visited|]
        invariant reported == Q.Only(visited, Flagged(tds))
        decreases |seg| - |visited|
      {
        ghost var k := |visited|;
        assert k < |seg| - 1 && LinkAt(tds, seg, k);
        if And(tds[td].status, STATUS_MASK) != 0 {
          reported := reported + [td];
        }
        visited := visited + [td];
        assert visited[..k] == seg[..k];
        td := Target(tds[td].link);
      }
      assert |visited| == |seg| - 1;
      flags := flags[entries[e].done := true];
      handled := handled + [e];
    }

    /** The state of the walk in `uhci_isr` behind the first `k` entries of `q`; `kept` are the active ones. */
    ghost predicate Walk(m: Q.EntryMemory, f: map<nat, bool>, q: seq<nat>, done: set<nat>, k: nat, kept: seq<nat>,
                         prev: nat, entry: nat)
      reads this
    {
      && k <= |q| && entry == Q.At(q, k) && kept == Q.Without(q[..k], done)
      && prev == (if kept == [] then 0 else kept[|kept| - 1])
      && SameTransfers(m, entries) && Q.Linked(entries, pending, q, done, k, kept)
      && flags == Raised(f, m, Q.Only(q[..k], done))
      && Distinct(q) && 0 !in q && done == Completed(tds, m, q)
      && forall e :: e in q ==> e in segs && TransferAt(tds, m, f, e, segs[e])
    }

    /** One turn of the loop. */
    method IsrStep(ghost m: Q.EntryMemory, ghost f: map<nat, bool>, ghost q: seq<nat>, ghost done: set<nat>,
                   ghost k: nat, ghost kept: seq<nat>, prev: nat, entry: nat)
      returns (ghost kept': seq<nat>, prev': nat, entry': nat)
      requires Walk(m, f, q, done, k, kept, prev, entry) && entry != 0
      modifies `entries, `pending, `flags, `handled
      ensures Walk(m, f, q, done, k + 1, kept', prev', entry')
      ensures handled == if entry in done then old(handled) + [entry] else old(handled)
    {
      hide Q.Without, Q.Linked, Distinct, Segment, Q.Only, Raised, Active, Completed;
      ghost var e := q[k];
      assert e == entry && e in q;
      CompletedTest(tds, m, q, f, e, segs[e]);
      Q.OnlyStep(q, done, k);
      NextInList(entries, pending, q, done, k, kept);
      entry' := entries[entry].next;
      if entries[entry].last != 0 && !Active(tds[entries[entry].last].status) {
        Q.LinkedRemove(entries, pending, q, done, k, kept);
        if prev != 0 {
          entries := entries[prev := entries[prev].(next := entries[entry].next)];
        } else {
          pending := 0;
        }
        var reported;
        ghost var visited;
        RaisedKeys(f, m, Q.Only(q[..k], done));
        reported, visited := CallbackTransEnd(entry);
        RaisedStep(f, m, Q.Only(q[..k], done), entry);
        kept', prev' := kept, prev;
      } else {
        Q.LinkedKeep(entries, pending, q, done, k, kept);
        kept', prev' := kept + [entry], entry;
      }
    }

    /**
     `uhci_isr`. The handler runs once for each completed entry, in list order, and
     for no other; the five interrupt bits are acknowledged, the others stay.
     */
    method Isr() returns (ours: bool)
      requires Valid()
      modifies `entries, `pending, `flags, `queue, `handled, `usbsts
      ensures Valid() && ours == (old(usbsts) != 0) && usbsts == old(usbsts) - old(usbsts) % 32
      ensures SameTransfers(old(entries), entries)
      ensures var completed := if ours then Completed(tds, old(entries), old(queue)) else {};
              && handled == old(handled) + Q.Only(old(queue), completed)
              && queue == (if ours then Q.AfterIsr(old(queue), completed) else old(queue))
              && flags == Raised(old(flags), old(entries), Q.Only(old(queue), completed))
    {
      hide Chain, Segment, TransferAt, Completed, Raised;
      hide Distinct, Q.List, Q.Linked, Q.Without, Q.Only, Q.AfterIsr;
      ours := usbsts != 0;
      if ours {
        ServicePending();
        AcknowledgedBits(usbsts);
        WriteStatus(0x1f);
      } else {
        NothingCompleted(queue);
        assert Raised(flags, entries, []) == flags by {
          WalkStarts(tds, entries, flags, pending, queue, {});
        }
      }
    }

    /** Writing USBSTS clears the bits that are written as 1 (section 2.1.2 of the UHCI Design Guide Rev 1.1). */
    method WriteStatus(data: nat)
      modifies `usbsts
      ensures usbsts == old(usbsts) - And(old(usbsts), data)
    {
      AndLe(usbsts, data);
      usbsts := usbsts - And(usbsts, data);
    }

    /** The controller sets status bits, for example when a TD with the interrupt bit has completed. */
    method Signal(bits: nat)
      modifies `usbsts
      ensures usbsts == Or(old(usbsts), bits)
    {
      usbsts := Or(usbsts, bits);
    }

    /** What an interrupt of this controller does to the pending list. */
    method ServicePending()
      requires Valid()
      modifies `entries, `pending, `flags, `queue, `handled
      ensures Valid() && SameTransfers(old(entries), entries)
      ensures queue == Q.AfterIsr(old(queue), Completed(tds, old(entries), old(queue)))
      ensures var done := Q.Only(old(queue), Completed(tds, old(entries), old(queue)));
              handled == old(handled) + done && flags == Raised(old(flags), old(entries), done)
    {
      hide Chain, Segment, TransferAt, SameTransfers, Completed, Raised;
      hide Distinct, Q.List, Q.Linked, Q.Without, Q.Only, Q.AfterIsr;
      ghost var q, done := queue, Completed(tds, entries, queue);
      WalkPending(q, done);
      WalkEnds(tds, old(entries), entries, old(flags), pending, q, done, segs);
      queue := Q.AfterIsr(q, done);
    }

    /** The loop of `uhci_isr`. */
    method WalkPending(ghost q: seq<nat>, ghost done: set<nat>)
      requires Valid() && q == queue && done == Completed(tds, entries, queue)
      modifies `entries, `pending, `flags, `handled
      ensures SameTransfers(old(entries), entries) && Q.Linked(entries, pending, q, done, |q|, Q.Without(q, done))
      ensures flags == Raised(old(flags), old(entries), Q.Only(q, done)) && handled == old(handled) + Q.Only(q, done)
      ensures 0 !in q
    {
      hide Chain, Distinct, Segment, Q.Without, Q.Only, Raised, Q.Linked;
      WalkStarts(tds, entries, flags, pending, q, done);
      var prev, entry := 0, pending;
      ghost var k := 0;
      ghost var kept := [];
      while entry != 0
        invariant Walk(old(entries), old(flags), q, done, k, kept, prev, entry)
        invariant handled == old(handled) + Q.Only(q[..k], done)
        decreases |q| - k
      {
        Q.OnlyStep(q, done, k);
        kept, prev, entry := IsrStep(old(entries), old(flags), q, done, k, kept, prev, entry);
        k := k + 1;
      }
      Q.NonZero(q);
      assert q[..k] == q;
    }

    /**
     The controller's side (section 3.3.2 of the UHCI Design Guide Rev 1.1): the TD at
     the head of the queue has completed, it becomes inactive and `qelp` advances along its link.
     */
    method Retire()
      requires Valid() && chain != [] && chain[0] in tds && Active(tds[chain[0]].status)
      modifies `tds, `qelp, `chain
      ensures Valid() && chain == old(chain)[1..] && tds.Keys == old(tds).Keys
      ensures old(chain)[0] in tds && !Active(tds[old(chain)[0]].status)
      ensures forall a :: a in tds && a in old(tds) && a != old(chain)[0] ==> tds[a] == old(tds)[a]
      ensures forall a :: a in tds ==> tds[a].(status := 0) == old(tds)[a].(status := 0)
    {
      hide Active, Term, Target;
      ghost var head, before := chain[0], tds;
      ChainTail(tds, qelp, chain);
      ChainDistinct(tds, qelp, chain);
      var td := tds[Target(qelp)];
      ActiveCleared(td.status);
      tds := tds[Target(qelp) := td.(status := td.status - STATUS_ACTIVE)];
      qelp := td.link;
      chain := chain[1..];
      LinksKept(before, tds, head, qelp, chain);
      forall e | e in queue
        ensures TransferAt(tds, entries, flags, e, segs[e])
      {
        SegmentLinksKept(before, tds, head, segs[e]);
      }
    }
  }

  lemma AcknowledgedBits(status: nat)
    ensures And(status, 0x1f) == status % 32
  {
    assert Pow2(5) == 32;
    AndLowMask(status, 5);
  }

  lemma ActiveCleared(status: nat)
    requires Active(status)
    ensures status >= STATUS_ACTIVE && !Active(status - STATUS_ACTIVE)
  {
    PowerConstants();
    hide And, Pow2;
    AndBit(status, 23);
    OddQuotient(status, STATUS_ACTIVE);
    AndBit(status - STATUS_ACTIVE, 23);
  }

  lemma OddQuotient(x: nat, m: nat)
    requires m > 0 && x / m % 2 == 1
    ensures x >= m && (x - m) / m % 2 == 0
  {
    var q, r := x / m, x % m;
    assert x == m * q + r;
    MulBounds(q, m);
    assert m * (q - 1) == m * q - m;
    ModUnique(x - m, m, q - 1, r);
  }

  /** Changing the status of a TD leaves all links alone. */
  ghost predicate SameLinks(m: TdMemory, n: TdMemory, a: nat) {
    a in m && a in n && n == m[a := n[a]] && n[a].link == m[a].link
  }

  lemma LinksKept(m: TdMemory, n: TdMemory, a: nat, w: nat, addrs: seq<nat>)
    requires SameLinks(m, n, a) && Chain(m, w, addrs)
    ensures Chain(n, w, addrs)
  {
    forall i | 0 <= i < |addrs|
      ensures LinkAt(n, addrs, i)
    {
      assert LinkAt(m, addrs, i);
    }
  }

  lemma SegmentLinksKept(m: TdMemory, n: TdMemory, a: nat, seg: seq<nat>)
    requires SameLinks(m, n, a) && Segment(m, seg)
    ensures Segment(n, seg)
  {
    forall i | 0 <= i < |seg| - 1
      ensures LinkAt(n, seg, i)
    {
      assert LinkAt(m, seg, i);
    }
  }

  /** TDs outside the new chain are untouched. */
  ghost predicate OthersKept(m: TdMemory, n: TdMemory, base: nat, count: nat) {
    forall a :: a in m || a in n ==> a in Addresses(base, count) || (a in m && a in n && n[a] == m[a])
  }

  ghost predicate BuiltUpTo(tds: TdMemory, c: Control, base: nat, dr: nat, n: nat) {
    forall i :: 0 <= i < n && i < c.Count() ==> Address(base, i) in tds && tds[Address(base, i)] == TdAt(c, base, dr, i)
  }

  lemma BuiltStart(tds: TdMemory, c: Control, base: nat, dr: nat, count: nat)
    ensures BuiltUpTo(tds, c, base, dr, 0) && OthersKept(tds, tds, base, count)
  {
  }

  lemma BuiltDone(tds: TdMemory, c: Control, base: nat, dr: nat)
    requires BuiltUpTo(tds, c, base, dr, c.Count())
    ensures Built(tds, c, base, dr)
  {
  }

  lemma FirstTd(c: Control, base: nat, dr: nat)
    requires c.Typed()
    ensures TdAt(c, base, dr, 0) == Td(LinkTo(Address(base, 1)), StatusWord(c, false), SetupToken(c), dr, 1)
    ensures c.buf == Wrap(c.buf + c.Offset(1))
  {
    hide StatusWord, SetupToken, LinkTo, Address, DivCeil, c.DataCount;
    assert c.Offset(1) == 0;
    WrapAdd(c.buf, 0);
  }

  lemma DataTd(c: Control, base: nat, dr: nat, i: nat)
    requires 1 <= i < c.Count() - 1
    ensures TdAt(c, base, dr, i) == Td(LinkTo(Address(base, i + 1)), StatusWord(c, false), DataToken(c, i % 2 == 1),
                                       Wrap(c.buf + c.Offset(i)), i)
    ensures Wrap(Wrap(c.buf + c.Offset(i)) + c.PacketSize()) == Wrap(c.buf + c.Offset(i + 1))
  {
    NextOffset(c, i);
    hide StatusWord, DataToken, LinkTo, Wrap, Address, DivCeil, c.Offset;
  }

  lemma LastTd(c: Control, base: nat, dr: nat)
    ensures TdAt(c, base, dr, c.Count() - 1) == Td(LPTR_TERM, StatusWord(c, true), StatusToken(c), 0, c.Count())
  {
    hide StatusWord, StatusToken, DivCeil;
  }

  lemma NextOffset(c: Control, i: nat)
    requires i >= 1
    ensures c.Offset(i + 1) == c.Offset(i) + c.PacketSize() && c.Offset(i) >= 0
    ensures Wrap(Wrap(c.buf + c.Offset(i)) + c.PacketSize()) == Wrap(c.buf + c.Offset(i + 1))
  {
    MulLess(0, i - 1, c.PacketSize());
    assert i * c.PacketSize() == (i - 1) * c.PacketSize() + c.PacketSize();
    WrapAdd(c.buf + c.Offset(i), c.PacketSize());
  }

  lemma WrapAdd(x: int, y: int)
    ensures Wrap(Wrap(x) + y) == Wrap(x + y)
  {
  }
}