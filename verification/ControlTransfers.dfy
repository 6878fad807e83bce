/**
 A control transfer from end to end, as `uhci_read_dev_desc` and its siblings run
 it: allocation on the bytes of the heap, building, scheduling, waiting while the
 hardware does what it likes, and freeing.
 */
module ControlTransfers {
  import opened Words
  import opened Sequences
  import opened Allocator
  import opened HeapMemory
  import opened TransferDescriptors
  import opened TdChains
  import opened UhciDriver
  import opened DriverRefinement
  import opened TdAllocation
  import L = TransferLifecycle
  import Q = TransferQueue

  /** What the hardware can do: complete the TD at the head, set status bits, interrupt. */
  datatype Event = Completes | Signals(bits: nat) | Interrupts

  /** A transfer to make: where its `done` is kept, and what the hardware does meanwhile. */
  datatype Job = Job(c: Control, request: Request, flag: nat, early: seq<Event>, late: seq<Event>)

  /** Outcome of a transfer. Where an allocation fails the code goes on with NULL and the model stops. */
  datatype Result = NoMemory | StillWaiting | Complete

  // ------------------------------------------------------------------ the hardware

  /** What an event makes of the status register and of the state. */
  function StatusNext(usbsts: nat, event: Event): nat {
    match event
    case Completes => usbsts
    case Signals(bits) => Or(usbsts, bits)
    case Interrupts => usbsts - usbsts % 32
  }

  ghost function StateNext(s: L.State, usbsts: nat, event: Event): L.State {
    match event
    case Completes => if L.Enabled(s, L.Retire) then L.Next(s, L.Retire) else s
    case Signals(_) => s
    case Interrupts => L.Next(s, L.Interrupt(usbsts != 0))
  }

  function StatusAfter(usbsts: nat, events: seq<Event>): nat {
    if events == [] then usbsts else StatusNext(StatusAfter(usbsts, events[..|events| - 1]), events[|events| - 1])
  }

  /**
   The hardware completes `n` TDs, and then an interrupt comes while the status
   register is not 0.
   */
  ghost predicate Serves(events: seq<Event>, n: nat, usbsts: nat) {
    events != [] &&
    match events[0]
    case Completes => Serves(events[1..], if n > 0 then n - 1 else 0, usbsts)
    case Signals(_) => Serves(events[1..], n, StatusNext(usbsts, events[0]))
    case Interrupts => (n == 0 && usbsts != 0) || Serves(events[1..], n, StatusNext(usbsts, events[0]))
  }

  function Completions(n: nat): seq<Event> {
    if n == 0 then [] else [Completes] + Completions(n - 1)
  }

  /** The plain case: all TDs complete, the controller sets its interrupt bit and interrupts. */
  lemma {:induction false} PlainlyServed(n: nat, usbsts: nat)
    ensures Serves(Completions(n) + [Signals(1), Interrupts], n, usbsts)
  {
    var events := Completions(n) + [Signals(1), Interrupts];
    if n == 0 {
      assert events[1..] == [Interrupts];
      assert Or(usbsts, 1) != 0;
    } else {
      assert events[1..] == Completions(n - 1) + [Signals(1), Interrupts];
      PlainlyServed(n - 1, usbsts);
    }
  }

  /** The driver has not moved on. */
  ghost predicate SameTransfer(s: L.State, t: L.State) {
    && t.phase == s.phase && t.submitted == s.submitted && t.segs == s.segs
    && t.tds == s.tds && t.entries == s.entries
  }

  lemma HardwareStep(s: L.State, step: L.Step)
    requires L.Inv(s) && L.Enabled(s, step) && (step.Retire? || step.Stay? || step.Interrupt?)
    ensures L.Inv(L.Next(s, step)) && SameTransfer(s, L.Next(s, step))
  {
    hide L.Inv;
    L.StepInv(s, step);
  }

  lemma HeadOfQueue(d: Driver, s: L.State, flag: nat)
    requires Refines(d, s, flag)
    ensures if Term(d.qelp) then !L.Enabled(s, L.Retire)
            else
              && Target(d.qelp) in d.tds
              && (Active(d.tds[Target(d.qelp)].status) <==> L.Enabled(s, L.Retire))
  {
    assert d.chain != [] ==> LinkAt(d.tds, d.chain, 0);
  }

  lemma NothingHappened(tds: TdMemory, s: L.State)
    ensures SameButStatus(tds, tds) && SameTransfer(s, s) && L.Next(s, L.Stay) == s
  {
  }

  /** One event. */
  method Hardware(d: Driver, ghost s: L.State, ghost flag: nat, event: Event) returns (ghost t: L.State)
    requires Refines(d, s, flag) && L.Inv(s)
    modifies d`tds, d`qelp, d`chain, d`entries, d`pending, d`flags, d`queue, d`handled, d`usbsts
    ensures Refines(d, t, flag) && L.Inv(t) && SameTransfer(s, t) && SameButStatus(old(d.tds), d.tds)
    ensures t == StateNext(s, old(d.usbsts), event) && d.usbsts == StatusNext(old(d.usbsts), event)
  {
    hide L.Inv, L.Next, Refines, SameButStatus, SameTransfer, Active, Term, Target, Or;
    t := s;
    HardwareStep(s, L.Stay);
    NothingHappened(d.tds, s);
    match event
    case Completes =>
      HeadOfQueue(d, s, flag);
      if !Term(d.qelp) {
        if Active(d.tds[Target(d.qelp)].status) {
          HardwareStep(s, L.Retire);
          t := L.Next(s, L.Retire);
          RetireHead(d, s, flag);
        }
      }
    case Signals(bits) =>
      t := L.Next(s, L.Stay);
      Signal(d, s, flag, bits);
    case Interrupts =>
      HardwareStep(s, L.Interrupt(d.usbsts != 0));
      t := L.Next(s, L.Interrupt(d.usbsts != 0));
      TakeInterrupt(d, s, flag);
  }

  /** Any number of events. */
  method Run(d: Driver, ghost s: L.State, ghost flag: nat, events: seq<Event>) returns (ghost t: L.State)
    requires Refines(d, s, flag) && L.Inv(s)
    modifies d`tds, d`qelp, d`chain, d`entries, d`pending, d`flags, d`queue, d`handled, d`usbsts
    ensures Refines(d, t, flag) && L.Inv(t) && SameTransfer(s, t) && SameButStatus(old(d.tds), d.tds)
    ensures d.usbsts == StatusAfter(old(d.usbsts), events)
  {
    hide L.Inv, Refines, StatusNext, StateNext;
    t := s;
    for i := 0 to |events|
      invariant Refines(d, t, flag) && L.Inv(t) && SameTransfer(s, t) && SameButStatus(old(d.tds), d.tds)
      invariant d.usbsts == StatusAfter(old(d.usbsts), events[..i])
    {
      assert events[..i + 1][..i] == events[..i];
      t := Hardware(d, t, flag, events[i]);
    }
    assert events[..|events|] == events;
  }

  /** The transfer is completed exactly if its TDs have left the queue; those still there are active. */
  lemma WaitFacts(s: L.State)
    requires L.Inv(s) && s.phase.Waiting? && !s.done
    ensures s.queue == [s.phase.e] && (s.phase.e in L.Completed(s) <==> s.chain == [])
    ensures s.chain != [] ==> s.chain[0] in s.active
  {
    var e := s.phase.e;
    var k :| 0 <= k <= |s.segs[e]| && L.UpTo(s, e, k);
    L.CompletedIff(s, e, k);
    hide L.Completed;
  }

  /** What an event means for a wait that is not yet over. */
  lemma WaitStep(s: L.State, usbsts: nat, event: Event)
    requires L.Inv(s) && s.phase.Waiting? && !s.done
    ensures var t := StateNext(s, usbsts, event);
            && (event.Completes? ==> !t.done && |t.chain| == if |s.chain| > 0 then |s.chain| - 1 else 0)
            && (event.Signals? ==> t == s)
            && (event.Interrupts? ==> (t.done <==> s.chain == [] && usbsts != 0) && t.chain == s.chain)
  {
    hide L.Inv, L.Completed, Q.Only, Q.AfterIsr;
    WaitFacts(s);
    L.SingleFilters(s.phase.e, L.Completed(s));
  }

  /**
   `uhci_wait_entry_complete`, one event after each look at the flag: it ends
   exactly if the hardware serves the TDs still in the queue and interrupts.
   */
  method Wait(d: Driver, ghost s: L.State, flag: nat, e: nat, events: seq<Event>)
    returns (done: bool, ghost t: L.State)
    requires Refines(d, s, flag) && L.Inv(s) && s.phase == L.Waiting(e) && !s.done
    modifies d`tds, d`qelp, d`chain, d`entries, d`pending, d`flags, d`queue, d`handled, d`usbsts
    ensures Refines(d, t, flag) && L.Inv(t) && SameTransfer(s, t) && SameButStatus(old(d.tds), d.tds)
    ensures done <==> L.Enabled(t, L.Return)
    ensures done ==> Refines(d, L.Next(t, L.Return), flag)
    ensures done <==> Serves(events, |s.chain|, old(d.usbsts))
  {
    hide L.Inv, Refines, L.Next, StateNext, Or;
    t := s;
    done := Poll(d, t, flag, e);
    var i := 0;
    assert events[0..] == events;
    while !done && i < |events|
      invariant Refines(d, t, flag) && L.Inv(t) && SameTransfer(s, t) && SameButStatus(old(d.tds), d.tds)
      invariant done <==> L.Enabled(t, L.Return)
      invariant done ==> Refines(d, L.Next(t, L.Return), flag)
      invariant i <= |events|
      invariant Serves(events, |s.chain|, old(d.usbsts)) <==> done || Serves(events[i..], |t.chain|, d.usbsts)
    {
      WaitStep(t, d.usbsts, events[i]);
      assert events[i..][1..] == events[i + 1..];
      t := Hardware(d, t, flag, events[i]);
      done := Poll(d, t, flag, e);
      i := i + 1;
    }
  }

  /** The three allocations; `ok` is false if one of them fails. */
  method Allocate(heap: ByteHeap, c: Control) returns (ok: bool, dr: nat, base: nat, e: nat)
    requires heap.Valid() && c.Typed()
    modifies heap, heap.mem
    ensures heap.Valid() && (ok ==> Allocated(old(heap.State()), heap.State(), c, dr, base, e) && e != 0)
    ensures ok ==> Placed(base, c.Count())
    ensures ok <==> Allocatable(old(heap.State()), c)
  {
    hide Alloc, Inv, c.DataCount, heap.Valid;
    ok, base, e := false, 0, 0;
    dr := heap.Memalloc(REQUEST_SIZE);
    if dr != 0 {
      CountBound(c);
      ghost var h1 := heap.State();
      HeapInv(heap);
      base := heap.MemallocAligned(TD_SIZE * c.Count(), 16);
      if base != 0 {
        AllocatedPlaced(h1, c);
        e := heap.Memalloc(ENTRY_SIZE);
        ok := e != 0;
      }
    }
  }

  lemma HeapInv(heap: ByteHeap)
    requires heap.Valid()
    ensures Inv(heap.State())
  {
  }

  lemma CountBound(c: Control)
    requires c.Typed()
    ensures TD_SIZE * c.Count() < TWO32
  {
  }

  /** The buffer of the first TD is the request. */
  ghost predicate RequestAt(tds: TdMemory, base: nat, dr: nat) {
    base in tds && tds[base].buffer == dr
  }

  lemma RequestBuilt(tds: TdMemory, c: Control, base: nat, dr: nat)
    requires Built(tds, c, base, dr)
    ensures RequestAt(tds, base, dr)
  {
    assert Address(base, 0) == base;
  }

  lemma RequestKept(m: TdMemory, n: TdMemory, base: nat, dr: nat)
    requires RequestAt(m, base, dr) && SameButStatus(m, n)
    ensures RequestAt(n, base, dr)
  {
    assert n[base].(status := 0) == m[base].(status := 0);
  }

  /** Submitting, and linking after whatever the hardware did in between. */
  method Schedule(d: Driver, ghost s: L.State, ghost oldFlag: nat, flag: nat, c: Control, request: Request,
                  base: nat, dr: nat, e: nat, events: seq<Event>)
    returns (ghost t: L.State)
    requires Refines(d, s, oldFlag) && L.Inv(s) && s.phase.Idle?
    requires c.Typed() && Placed(base, c.Count()) && request.length == c.length && e != 0
    modifies d
    ensures Refines(d, t, flag) && L.Inv(t) && t.phase == L.Waiting(e) && t.submitted == s.submitted + [e]
    ensures e in t.segs && t.segs[e] == Addresses(base, c.Count()) && t.chain == t.segs[e] && !t.done
    ensures d.usbsts == StatusAfter(old(d.usbsts), events)
    ensures d.requests == old(d.requests)[dr := request] && RequestAt(d.tds, base, dr)
  {
    hide L.Inv, Refines, c.Typed, c.DataCount, Built, SameButStatus, RequestAt, Placed, Term, L.Enabled, L.Next;
    hide StatusAfter;
    ghost var seg := Addresses(base, c.Count());
    var endptr := Submit(d, s, oldFlag, flag, c, request, base, dr, e);
    RequestBuilt(d.tds, c, base, dr);
    ghost var before := d.tds;
    t := L.Next(s, L.Submit(e, seg));
    SubmitNext(s, e, seg);
    t := Run(d, t, flag, events);
    RequestKept(before, d.tds, base, dr);
    Link(d, t, flag, e, endptr);
    LinkNext(t);
    t := L.Next(t, L.Link);
  }

  lemma SubmitNext(s: L.State, e: nat, seg: seq<nat>)
    requires L.Inv(s) && L.Enabled(s, L.Submit(e, seg))
    ensures var t := L.Next(s, L.Submit(e, seg));
            && L.Inv(t) && t.phase == L.Queued(e) && t.submitted == s.submitted + [e]
            && e in t.segs && t.segs[e] == seg
  {
    hide L.Inv;
    L.StepInv(s, L.Submit(e, seg));
  }

  lemma LinkNext(s: L.State)
    requires L.Inv(s) && L.Enabled(s, L.Link)
    ensures var t := L.Next(s, L.Link);
            && L.Inv(t) && t.phase == L.Waiting(s.phase.e) && t.submitted == s.submitted && t.segs == s.segs
            && t.chain == t.segs[s.phase.e] && !t.done
  {
    L.StepInv(s, L.Link);
    assert [] + s.segs[s.phase.e] == s.segs[s.phase.e];
  }

  /** `memfree(entry)` and `uhci_delete_td_control`, on the driver's memory and on the heap. */
  method Free(heap: ByteHeap, ghost h: Heap, d: Driver, ghost s: L.State, ghost flag: nat, c: Control,
              ghost dr: nat, base: nat, e: nat)
    returns (ghost t: L.State)
    requires heap.Valid() && Inv(h) && Allocated(h, heap.State(), c, dr, base, e) && e != 0
    requires Refines(d, s, flag) && L.Inv(s) && s.phase == L.Returned(e)
    requires s.segs[e] == Addresses(base, c.Count()) && RequestAt(d.tds, base, dr)
    modifies heap, heap.mem, d`tds, d`requests, d`entries
    ensures heap.Valid() && heap.State() == h
    ensures Refines(d, t, flag) && L.Inv(t) && t.phase.Idle? && t.submitted == s.submitted
    ensures d.tds == map[] && d.entries == map[] && d.requests == old(d.requests) - {dr}
  {
    hide L.Inv, Refines, Inv, Allocated, Release, heap.Valid, c.DataCount;
    AllocatedGivenBack(h, heap.State(), c, dr, base, e);
    L.StepInv(s, L.FreeEntry);
    FreeEntry(d, s, flag, e);
    heap.Memfree(e);
    t := L.Next(s, L.FreeEntry);
    L.StepInv(t, L.FreeTds);
    var request := FreeTds(d, t, flag, e, base, Elements(Addresses(base, c.Count())));
    t := L.Next(t, L.FreeTds);
    heap.Memfree(request);
    heap.Memfree(base);
  }

  /**
   A transfer. Whatever the hardware does between the two halves of scheduling
   (`early`) and during the wait (`late`): if the wait ends, the handler has run
   for this transfer, once and after all others, both lists are empty, and the
   heap and the driver's memory are as they were before.
   */
  method Transfer(heap: ByteHeap, d: Driver, ghost s: L.State, ghost oldFlag: nat, flag: nat,
                  c: Control, request: Request, early: seq<Event>, late: seq<Event>)
    returns (r: Result, ghost t: L.State, ghost e: nat)
    requires heap.Valid() && Refines(d, s, oldFlag) && L.Inv(s) && s.phase.Idle?
    requires c.Typed() && request.length == c.length
    modifies heap, heap.mem, d
    ensures heap.Valid()
    ensures r.Complete? ==>
              && heap.State() == old(heap.State())
              && Refines(d, t, flag) && L.Inv(t) && t.phase.Idle?
              && d.handled == old(d.handled) + [e]
              && d.pending == 0 && Term(d.qelp) && d.tds == map[] && d.entries == map[]
              && d.requests.Keys <= old(d.requests).Keys
    ensures r.StillWaiting? ==> Refines(d, t, flag) && L.Inv(t) && t.phase == L.Waiting(e) && !t.done
    ensures r.NoMemory? <==> !Allocatable(old(heap.State()), c)
    ensures r.NoMemory? ==> Refines(d, s, oldFlag) && t == s
    ensures r.Complete? <==> !r.NoMemory? && Serves(late, c.Count(), StatusAfter(old(d.usbsts), early))
  {
    hide L.Inv, Refines, Inv, Allocated, RequestAt, heap.Valid, c.DataCount, Term, L.Enabled, c.Typed;
    ghost var h := heap.State();
    HeapInv(heap);
    Emptied(d, s, oldFlag);
    var ok, dr, base, entry := Allocate(heap, c);
    e := entry;
    if !ok {
      t, r := s, NoMemory;
      return;
    }
    t := Schedule(d, s, oldFlag, flag, c, request, base, dr, entry, early);
    ghost var before := d.tds;
    var done;
    done, t := Wait(d, t, flag, entry, late);
    RequestKept(before, d.tds, base, dr);
    WaitOver(t);
    if !done {
      r := StillWaiting;
      return;
    }
    L.StepInv(t, L.Return);
    t := Free(heap, h, d, L.Next(t, L.Return), flag, c, dr, base, entry);
    Emptied(d, t, flag);
    r := Complete;
  }

  lemma Emptied(d: Driver, s: L.State, flag: nat)
    requires Refines(d, s, flag) && L.Inv(s) && s.phase.Idle?
    ensures d.pending == 0 && Term(d.qelp) && d.handled == s.submitted
  {
  }

  lemma WaitOver(s: L.State)
    requires s.phase.Waiting?
    ensures L.Enabled(s, L.Return) <==> s.done
  {
  }

  /**
   Transfers one after the other, from a new driver on: as long as all of them
   complete, each one's handler runs once and nothing is left behind in the heap.
   */
  method Session(heap: ByteHeap, jobs: seq<Job>) returns (d: Driver, r: Result)
    requires heap.Valid()
    requires forall i :: 0 <= i < |jobs| ==> jobs[i].c.Typed() && jobs[i].request.length == jobs[i].c.length
    modifies heap, heap.mem
    ensures heap.Valid()
    ensures r.Complete? ==> heap.State() == old(heap.State()) && |d.handled| == |jobs| && d.pending == 0 && Term(d.qelp)
  {
    hide L.Inv, Refines, heap.Valid, Serves, StatusAfter, Allocatable, Term;
    ghost var s, flag := L.START, 0;
    d := Initialize(flag);
    StartQuiet();
    Emptied(d, s, flag);
    r := Complete;
    for i := 0 to |jobs|
      invariant heap.Valid() && heap.State() == old(heap.State())
      invariant fresh(d) && Refines(d, s, flag) && L.Inv(s) && s.phase.Idle? && |d.handled| == i
      invariant r.Complete? && d.pending == 0 && Term(d.qelp)
    {
      var j := jobs[i];
      ghost var t, e;
      r, t, e := Transfer(heap, d, s, flag, j.flag, j.c, j.request, j.early, j.late);
      if !r.Complete? {
        return;
      }
      s, flag := t, j.flag;
    }
  }

  lemma StartQuiet()
    ensures L.Inv(L.START) && L.START.phase.Idle? && L.START.handled == []
  {
  }
}
