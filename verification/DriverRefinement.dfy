/**
 The driver's memory follows the state machine of `TransferLifecycle`: the state
 of a new driver is the first state, and there is a method for every step.
 */
module DriverRefinement {
  import opened Words
  import opened Sequences
  import opened TransferDescriptors
  import opened TdChains
  import opened UhciDriver
  import L = TransferLifecycle
  import Q = TransferQueue

  /**
   The lists in memory are those of the state, the entries and TDs in memory are
   its allocated ones, its active TDs are those with the active bit, and `flag`
   is where the function that submitted keeps its `done`.
   */
  ghost predicate Refines(d: Driver, s: L.State, flag: nat)
    reads d
  {
    && d.Valid() && d.queue == s.queue && d.chain == s.chain && d.handled == s.handled
    && d.tds.Keys == s.tds && d.entries.Keys == s.entries && s.active <= s.tds
    && (forall a :: a in s.tds ==> (a in s.active <==> Active(d.tds[a].status)))
    && (forall e :: e in s.entries ==> Submitted(d, s, flag, e))
    && (s.phase.Queued? ==> s.phase.e in s.entries && Linkable(d, s.phase.e))
    && (!s.phase.Idle? ==> flag in d.flags && d.flags[flag] == s.done)
  }

  /** The entry `e` reports to `flag`, and its TDs are those of the state. */
  ghost predicate Submitted(d: Driver, s: L.State, flag: nat, e: nat)
    reads d
  {
    && e in s.segs && e in d.segs && d.segs[e] == s.segs[e] && Elements(s.segs[e]) <= s.tds
    && e in d.entries && d.entries[e].done == flag
  }

  /** The chain of `e` is complete up to its TERM link. */
  ghost predicate Linkable(d: Driver, e: nat)
    requires e in d.entries
    reads d
  {
    e in d.segs && d.segs[e] != [] && Chain(d.tds, Target(d.entries[e].first), d.segs[e])
  }

  /** Both sides agree on which transfers an interrupt finds completed. */
  lemma CompletedAgree(d: Driver, s: L.State, flag: nat)
    requires Refines(d, s, flag)
    ensures Completed(d.tds, d.entries, d.queue) == L.Completed(s)
  {
    forall e | e in s.queue
      ensures e in Completed(d.tds, d.entries, d.queue) <==> e in L.Completed(s)
    {
      assert TransferAt(d.tds, d.entries, d.flags, e, d.segs[e]);
      assert Submitted(d, s, flag, e);
      var seg := s.segs[e];
      assert seg[|seg| - 1] in seg;
      assert seg[|seg| - 1] in Elements(seg);
    }
  }

  /** Running the handlers raises the flag they share, if there is a handler to run. */
  lemma {:induction false} FlagRaised(flags: map<nat, bool>, m: Q.EntryMemory, done: seq<nat>, flag: nat)
    requires flag in flags && forall e :: e in done ==> e in m && m[e].done == flag
    ensures Raised(flags, m, done)[flag] == (flags[flag] || done != [])
  {
    if done != [] {
      assert done[|done| - 1] in done;
      FlagRaised(flags, m, done[..|done| - 1], flag);
    }
  }

  /** The parts of `Refines` that an interrupt touches. */
  lemma InterruptSteps(d: Driver, s: L.State, flag: nat)
    requires Refines(d, s, flag)
    ensures var now := Q.Only(s.queue, L.Completed(s));
            && Completed(d.tds, d.entries, d.queue) == L.Completed(s)
            && (flag in d.flags ==> flag in Raised(d.flags, d.entries, now)
                                    && Raised(d.flags, d.entries, now)[flag] == (d.flags[flag] || now != []))
  {
    CompletedAgree(d, s, flag);
    var now := Q.Only(s.queue, L.Completed(s));
    hide Raised, Q.Only, Completed, L.Completed;
    if flag in d.flags {
      forall e | e in now
        ensures e in d.entries && d.entries[e].done == flag
      {
        assert TransferAt(d.tds, d.entries, d.flags, e, d.segs[e]);
        assert Submitted(d, s, flag, e);
      }
      FlagRaised(d.flags, d.entries, now, flag);
    }
  }

  lemma NothingRaised(flags: map<nat, bool>, m: Q.EntryMemory)
    ensures Raised(flags, m, []) == flags
  {
  }

  // ------------------------------------------------------------------ hardware

  /** The state of a new driver is the first state of every run. */
  method Initialize(ghost flag: nat) returns (d: Driver)
    ensures fresh(d) && Refines(d, L.START, flag)
  {
    d := new Driver();
  }

  /** `uhci_isr` is the interrupt step, `ours` being what it reads from the status register. */
  method TakeInterrupt(d: Driver, ghost s: L.State, ghost flag: nat)
    requires Refines(d, s, flag)
    modifies d`entries, d`pending, d`flags, d`queue, d`handled, d`usbsts
    ensures Refines(d, L.Next(s, L.Interrupt(old(d.usbsts) != 0)), flag)
    ensures d.usbsts == old(d.usbsts) - old(d.usbsts) % 32
  {
    hide Q.Only, Q.AfterIsr, Raised, L.Completed, Completed, Active, d.Valid, Chain;
    InterruptSteps(d, s, flag);
    NothingCompleted(s.queue);
    NothingRaised(d.flags, d.entries);
    var ours := d.Isr();
    ghost var t := L.Next(s, L.Interrupt(ours));
    forall e | e in t.entries
      ensures Submitted(d, t, flag, e)
    {
    }
  }

  lemma HeadActive(d: Driver, s: L.State, flag: nat)
    requires Refines(d, s, flag) && L.Inv(s) && L.Enabled(s, L.Retire)
    ensures d.chain != [] && d.chain[0] in d.tds && Active(d.tds[d.chain[0]].status) && !s.phase.Queued?
  {
    assert LinkAt(d.tds, d.chain, 0);
  }

  /** The controller's completion of the TD at the head is the retire step. */
  method RetireHead(d: Driver, ghost s: L.State, ghost flag: nat)
    requires Refines(d, s, flag) && L.Inv(s) && L.Enabled(s, L.Retire)
    modifies d`tds, d`qelp, d`chain
    ensures Refines(d, L.Next(s, L.Retire), flag)
    ensures SameButStatus(old(d.tds), d.tds)
  {
    hide Active, Term, Target, Segment, Chain, L.Inv, d.Valid, Linkable;
    HeadActive(d, s, flag);
    d.Retire();
  }

  /** As long as the head TD stays active the memory is as it was; status bits may be set at any time. */
  method Signal(d: Driver, ghost s: L.State, ghost flag: nat, bits: nat)
    requires Refines(d, s, flag)
    modifies d`usbsts
    ensures Refines(d, L.Next(s, L.Stay), flag) && d.usbsts == Or(old(d.usbsts), bits)
  {
    d.Signal(bits);
  }

  // ------------------------------------------------------------------ driver

  /**
   The submit step: the TDs are built at `base`, the entry at `e` is filled in,
   and `uhci_schedule_queue` appends it to the pending list. `endptr` is what the
   routine has read from `qelp` by then, and the controller has not been given
   anything to do yet.
   */
  method Submit(d: Driver, ghost s: L.State, ghost oldFlag: nat, flag: nat, c: Control, request: Request,
                base: nat, dr: nat, e: nat)
    returns (endptr: nat)
    requires Refines(d, s, oldFlag) && L.Inv(s) && s.phase.Idle?
    requires c.Typed() && Placed(base, c.Count()) && request.length == c.length && e != 0
    modifies d`tds, d`requests, d`entries, d`flags, d`pending, d`queue, d`segs
    ensures var seg := Addresses(base, c.Count());
            L.Enabled(s, L.Submit(e, seg)) && Refines(d, L.Next(s, L.Submit(e, seg)), flag)
    ensures Term(endptr) && Built(d.tds, c, base, dr) && d.requests == old(d.requests)[dr := request]
  {
    hide d.Valid, Refines, L.Inv, L.Enabled, L.Next, Prepared, Built, c.Typed, c.DataCount, Term, Q.List, Placed;
    Nothing(d, s, oldFlag);
    endptr := d.qelp;
    Prepare(d, flag, c, request, base, dr, e);
    AppendFirst(d, flag, e, Addresses(base, c.Count()));
    Submits(d, s, flag, e, Addresses(base, c.Count()));
  }

  /** In the first phase there is nothing in memory. */
  lemma Nothing(d: Driver, s: L.State, flag: nat)
    requires Refines(d, s, flag) && L.Inv(s) && s.phase.Idle?
    ensures d.tds == map[] && d.entries == map[] && d.queue == [] && d.chain == []
    ensures d.pending == 0 && Term(d.qelp) && d.handled == s.handled
  {
  }

  /** Entry `e` and its TDs `seg` are all there is in memory, ready to be executed. */
  ghost predicate Prepared(d: Driver, flag: nat, e: nat, seg: seq<nat>)
    reads d
  {
    && d.entries.Keys == {e} && d.entries[e].next == 0 && d.entries[e].done == flag
    && d.tds.Keys == Elements(seg) && (forall a :: a in seg ==> Active(d.tds[a].status))
    && e in d.segs && d.segs[e] == seg && TransferAt(d.tds, d.entries, d.flags, e, seg) && Linkable(d, e)
    && flag in d.flags && !d.flags[flag]
  }

  method Prepare(d: Driver, flag: nat, c: Control, request: Request, base: nat, dr: nat, e: nat)
    requires c.Typed() && Placed(base, c.Count()) && request.length == c.length && d.tds == map[] && d.entries == map[]
    modifies d`tds, d`requests, d`entries, d`flags, d`segs
    ensures Prepared(d, flag, e, Addresses(base, c.Count()))
    ensures Built(d.tds, c, base, dr) && d.requests == old(d.requests)[dr := request]
  {
    hide Chain, c.DataCount, Target, TdAt, Active, Distinct, Term;
    var count := d.CreateTdControl(c, base, dr, request);
    d.FillEntry(e, base, count, flag);
    ghost var seg := Addresses(base, count);
    BuiltChain(d.tds, c, base, dr);
    forall a | a in seg
      ensures a in d.tds && Active(d.tds[a].status)
    {
      var i :| 0 <= i < count && a == seg[i];
      BuiltStages(d.tds, c, base, dr, i);
    }
    d.segs := d.segs[e := seg];
  }

  /** The first half of `uhci_schedule_queue`, on an empty list. */
  method AppendFirst(d: Driver, ghost flag: nat, e: nat, ghost seg: seq<nat>)
    requires d.queue == [] && d.pending == 0 && Prepared(d, flag, e, seg) && e != 0
    modifies d`pending, d`entries, d`queue
    ensures d.queue == [e] && Q.List(d.entries, d.pending, d.queue) && Prepared(d, flag, e, seg)
  {
    hide Chain, Segment, Active, Target;
    d.AppendPending(e);
    d.queue := d.queue + [e];
    assert d.queue == [e];
  }

  /** With the new entry as the only one in the pending list the memory is that of the submit step. */
  lemma Submits(d: Driver, s: L.State, flag: nat, e: nat, seg: seq<nat>)
    requires L.Inv(s) && s.phase.Idle? && e != 0 && Prepared(d, flag, e, seg)
    requires d.queue == [e] && Q.List(d.entries, d.pending, d.queue) && d.handled == s.handled
    requires d.chain == [] && Term(d.qelp)
    ensures L.Enabled(s, L.Submit(e, seg)) && Refines(d, L.Next(s, L.Submit(e, seg)), flag)
  {
    hide Active, Target;
  }

  /** The link step: the TDs are appended to the controller's queue. */
  method Link(d: Driver, ghost s: L.State, ghost flag: nat, e: nat, endptr: nat)
    requires Refines(d, s, flag) && L.Inv(s) && s.phase == L.Queued(e) && Term(endptr)
    modifies d`tds, d`qelp, d`chain
    ensures L.Enabled(s, L.Link) && Refines(d, L.Next(s, L.Link), flag) && d.tds == old(d.tds)
    ensures d.qelp == d.entries[e].first
  {
    assert d.chain == [];
    d.AppendChain(endptr, d.entries[e].first, d.segs[e]);
    d.chain := d.chain + d.segs[e];
  }

  /** The test of the wait loop is what enables the return step, which leaves the memory alone. */
  method Poll(d: Driver, ghost s: L.State, flag: nat, e: nat) returns (done: bool)
    requires Refines(d, s, flag) && L.Inv(s) && s.phase == L.Waiting(e)
    ensures done <==> L.Enabled(s, L.Return)
    ensures done ==> Refines(d, L.Next(s, L.Return), flag)
  {
    done := d.flags[d.entries[e].done];
  }

  /**
   What makes freeing safe, in memory: when the wait is over and until the TDs are
   freed the pending list is empty and the controller's queue is terminated, and
   the handlers of all submitted transfers have run.
   */
  lemma NothingReaches(d: Driver, s: L.State, flag: nat)
    requires Refines(d, s, flag) && L.Inv(s)
    requires L.Enabled(s, L.Return) || L.Enabled(s, L.FreeEntry) || L.Enabled(s, L.FreeTds)
    ensures d.pending == 0 && Term(d.qelp) && d.handled == s.submitted
  {
  }

  method FreeEntry(d: Driver, ghost s: L.State, ghost flag: nat, e: nat)
    requires Refines(d, s, flag) && L.Inv(s) && s.phase == L.Returned(e)
    modifies d`entries
    ensures Refines(d, L.Next(s, L.FreeEntry), flag) && d.entries == map[]
  {
    d.FreeEntry(e);
  }

  /** `uhci_delete_td_control` */
  method FreeTds(d: Driver, ghost s: L.State, ghost flag: nat, ghost e: nat, td: nat, block: set<nat>) returns (dr: nat)
    requires Refines(d, s, flag) && L.Inv(s) && s.phase == L.EntryFreed(e)
    requires td in d.tds && block == Elements(s.segs[e])
    modifies d`tds, d`requests
    ensures Refines(d, L.Next(s, L.FreeTds), flag) && d.tds == map[]
    ensures dr == old(d.tds)[td].buffer && d.requests == old(d.requests) - {dr}
  {
    dr := d.DeleteTdControl(td, block);
  }
}
