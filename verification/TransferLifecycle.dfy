/**
 Submit-and-wait as a state machine: the driver's steps, the controller's and the
 interrupt routine's in any interleaving. The lists are those of `UhciDriver`,
 whose methods perform the updates used here.
 */
module TransferLifecycle {
  import opened Sequences
  import opened Q = TransferQueue

  /** Where the driver is in `uhci_read_dev_desc` and its siblings. */
  datatype Phase =
    | Idle
    | Queued(e: nat)      // entry in the pending list, TDs not yet linked to the queue
    | Waiting(e: nat)     // in the loop of uhci_wait_entry_complete
    | Returned(e: nat)    // the wait has returned, the entry is about to be freed
    | EntryFreed(e: nat)  // the entry is freed, the TDs are about to be

  /**
   `queue` is the pending list, `chain` the TDs reachable from `qelp`, `active` the
   TDs with the active bit; `entries` and `tds` are the allocated entries and TDs,
   `segs` the TDs of each entry. `submitted` and `handled` record what happened.
   */
  datatype State = State(
    phase: Phase, queue: seq<nat>, chain: seq<nat>, active: set<nat>, done: bool,
    entries: set<nat>, tds: set<nat>, segs: map<nat, seq<nat>>,
    submitted: seq<nat>, handled: seq<nat>)

  datatype Step =
    | Submit(e: nat, seg: seq<nat>)  // allocate and append to the pending list
    | Link                           // append the TDs to the controller's queue
    | Retire                         // the controller completes the TD at the head
    | Stay                           // the controller leaves it active
    | Interrupt(ours: bool)          // uhci_isr, with or without a status bit set
    | Return                         // the wait loop sees the flag
    | FreeEntry
    | FreeTds

  /** The entries of the pending list whose last TD is inactive. */
  ghost function Completed(s: State): set<nat> {
    set e | e in s.queue && e in s.segs && s.segs[e] != [] && s.segs[e][|s.segs[e]| - 1] !in s.active
  }

  ghost predicate Enabled(s: State, t: Step) {
    match t
    case Submit(e, seg) =>
      // what the allocator and uhci_create_td_control provide
      && s.phase.Idle? && e != 0 && e !in s.entries && seg != [] && Distinct(seg) && Elements(seg) !! s.tds
    case Link => s.phase.Queued? && s.phase.e in s.segs
    case Retire => s.chain != [] && s.chain[0] in s.active
    case Stay => true
    case Interrupt(_) => true
    case Return => s.phase.Waiting? && s.done
    case FreeEntry => s.phase.Returned?
    case FreeTds => s.phase.EntryFreed? && s.phase.e in s.segs
  }

  ghost function Next(s: State, t: Step): State
    requires Enabled(s, t)
  {
    match t
    case Submit(e, seg) =>
      s.(phase := Queued(e), queue := s.queue + [e], active := s.active + Elements(seg), done := false,
         entries := s.entries + {e}, tds := s.tds + Elements(seg), segs := s.segs[e := seg],
         submitted := s.submitted + [e])
    case Link => s.(phase := Waiting(s.phase.e), chain := s.chain + s.segs[s.phase.e])
    case Retire => s.(chain := s.chain[1..], active := s.active - {s.chain[0]})
    case Stay => s
    case Interrupt(ours) =>
      if !ours then s
      else
        var now := Only(s.queue, Completed(s));
        s.(queue := AfterIsr(s.queue, Completed(s)), done := s.done || now != [], handled := s.handled + now)
    case Return => s.(phase := Returned(s.phase.e))
    case FreeEntry => s.(phase := EntryFreed(s.phase.e), entries := s.entries - {s.phase.e})
    case FreeTds => s.(phase := Idle, tds := s.tds - Elements(s.segs[s.phase.e]))
  }

  const START := State(Idle, [], [], {}, false, {}, {}, map[], [], [])

  /** The transfer `e` is under way and has not been handled. */
  ghost predicate InFlight(s: State, e: nat) {
    && s.queue == [e] && e != 0 && !s.done && e in s.entries
    && e in s.segs && s.segs[e] != [] && Distinct(s.segs[e]) && Elements(s.segs[e]) <= s.tds
    && s.submitted == s.handled + [e]
    && exists k :: 0 <= k <= |s.segs[e]| && UpTo(s, e, k)
  }

  /** The controller has retired the first `k` TDs of the transfer. */
  ghost predicate UpTo(s: State, e: nat, k: nat)
    requires e in s.segs && k <= |s.segs[e]|
  {
    && s.active == Elements(s.segs[e][k..])
    && if s.phase.Queued? then k == 0 && s.chain == [] else s.chain == s.segs[e][k..]
  }

  /** Nothing is pending, nothing is queued, and every submitted transfer has been handled. */
  ghost predicate Quiet(s: State) {
    s.queue == [] && s.chain == [] && s.active == {} && s.handled == s.submitted
  }

  ghost predicate Inv(s: State) {
    match s.phase
    case Idle => Quiet(s) && s.entries == {} && s.tds == {}
    case Queued(e) => InFlight(s, e) && s.entries == {e} && s.tds == Elements(s.segs[e])
    case Waiting(e) =>
      && e in s.segs && s.entries == {e} && s.tds == Elements(s.segs[e])
      && if s.done then Quiet(s) else InFlight(s, e)
    case Returned(e) => Quiet(s) && e in s.segs && s.entries == {e} && s.tds == Elements(s.segs[e])
    case EntryFreed(e) => Quiet(s) && e in s.segs && s.entries == {} && s.tds == Elements(s.segs[e])
  }

  lemma RetireInv(s: State)
    requires Inv(s) && Enabled(s, Retire)
    ensures Inv(Next(s, Retire))
  {
    var e := s.phase.e;
    var seg := s.segs[e];
    var k :| 0 <= k <= |seg| && UpTo(s, e, k);
    var t := Next(s, Retire);
    assert seg[k..][1..] == seg[k + 1..];
    assert Elements(seg[k..]) == {seg[k]} + Elements(seg[k + 1..]) by {
      assert seg[k..] == [seg[k]] + seg[k + 1..];
    }
    assert seg[k] !in seg[k + 1..];
    assert UpTo(t, e, k + 1);
  }

  lemma SingleFilters(e: nat, c: set<nat>)
    ensures Only([e], c) == if e in c then [e] else []
    ensures AfterIsr([e], c) == if e in c then [] else [e]
  {
    EmptyFilters(c);
    assert [e][..0] == [];
  }

  /** The last TD of the transfer is inactive exactly when all its TDs have been retired. */
  lemma CompletedIff(s: State, e: nat, k: nat)
    requires InFlight(s, e) && 0 <= k <= |s.segs[e]| && UpTo(s, e, k)
    ensures e in Completed(s) <==> k == |s.segs[e]|
    ensures k == |s.segs[e]| ==> s.active == {}
  {
    var seg := s.segs[e];
    if k < |seg| {
      assert seg[|seg| - 1] == seg[k..][|seg| - k - 1];
    } else {
      assert seg[k..] == [];
    }
  }

  /** The interrupt completes the transfer exactly if its last TD has been retired. */
  lemma InterruptInv(s: State, ours: bool)
    requires Inv(s)
    ensures Inv(Next(s, Interrupt(ours)))
  {
    if ours {
      if s.queue == [] {
        EmptyFilters(Completed(s));
      } else {
        InterruptInFlight(s);
      }
    }
  }

  lemma InterruptInFlight(s: State)
    requires Inv(s) && s.queue != []
    ensures Inv(Next(s, Interrupt(true)))
  {
    var e := s.phase.e;
    var k :| 0 <= k <= |s.segs[e]| && UpTo(s, e, k);
    var t := Next(s, Interrupt(true));
    CompletedIff(s, e, k);
    assert t == if k == |s.segs[e]| then s.(queue := [], done := true, handled := s.submitted) else s by {
      SingleFilters(e, Completed(s));
      hide Completed, Only, AfterIsr, UpTo, Elements;
      assert s.handled + [] == s.handled;
    }
    hide Completed, Only, AfterIsr, Next;
    assert k == |s.segs[e]| ==> s.chain == [];
  }

  lemma SubmitInv(s: State, e: nat, seg: seq<nat>)
    requires Inv(s) && Enabled(s, Submit(e, seg))
    ensures Inv(Next(s, Submit(e, seg)))
  {
    var t := Next(s, Submit(e, seg));
    assert seg[0..] == seg;
    assert t.queue == [e];
    assert UpTo(t, e, 0);
  }

  lemma StepInv(s: State, t: Step)
    requires Inv(s) && Enabled(s, t)
    ensures Inv(Next(s, t))
  {
    match t
    case Submit(e, seg) => SubmitInv(s, e, seg);
    case Link =>
      var seg := s.segs[s.phase.e];
      assert seg[0..] == seg && [] + seg == seg;
      assert UpTo(Next(s, t), s.phase.e, 0);
    case Retire => RetireInv(s);
    case Stay =>
    case Interrupt(ours) => InterruptInv(s, ours);
    case Return =>
    case FreeEntry =>
    case FreeTds => assert Elements(s.segs[s.phase.e]) - Elements(s.segs[s.phase.e]) == {};
  }

  /** `trace` is a run under `steps`, in whatever interleaving. */
  ghost predicate Run(steps: seq<Step>, trace: seq<State>) {
    && |trace| == |steps| + 1 && trace[0] == START
    && forall i :: 0 <= i < |steps| ==> Enabled(trace[i], steps[i]) && trace[i + 1] == Next(trace[i], steps[i])
  }

  lemma {:induction false} RunInv(steps: seq<Step>, trace: seq<State>, n: nat)
    requires Run(steps, trace) && n <= |steps|
    ensures Inv(trace[n])
  {
    if n > 0 {
      RunInv(steps, trace, n - 1);
      StepInv(trace[n - 1], steps[n - 1]);
    }
  }

  /**
   In every state of every run: at most one transfer is pending; the handler calls
   so far and the pending transfer together are the submitted transfers in order, so
   each is handled once and none is handled before it is done; and whatever the
   pending list or the controller's queue reaches is still allocated.
   */
  lemma RunSafe(steps: seq<Step>, trace: seq<State>, n: nat)
    requires Run(steps, trace) && n <= |steps|
    ensures var s := trace[n];
            && |s.queue| <= 1
            && s.submitted == s.handled + s.queue
            && Elements(s.queue) <= s.entries && Elements(s.chain) <= s.tds
  {
    RunInv(steps, trace, n);
    var s := trace[n];
    if s.queue != [] {
      var e := s.queue[0];
      var k :| 0 <= k <= |s.segs[e]| && UpTo(s, e, k);
      assert forall x :: x in s.segs[e][k..] ==> x in s.segs[e];
    }
  }

  /**
   With one transfer at a time the interrupt routine never drops a transfer that is
   still active: the list it leaves is exactly that of the active ones.
   */
  lemma NothingIsDropped(steps: seq<Step>, trace: seq<State>, n: nat)
    requires Run(steps, trace) && n <= |steps|
    ensures AfterIsr(trace[n].queue, Completed(trace[n])) == Without(trace[n].queue, Completed(trace[n]))
  {
    RunSafe(steps, trace, n);
    AfterIsrKeepsActive(trace[n].queue, Completed(trace[n]));
  }

  /**
   When the wait returns, and when the memory is freed: the transfer's handler has
   run, as the last one, and neither the pending list nor the controller's queue
   reaches the entry or one of its TDs.
   */
  lemma FreeingIsSafe(steps: seq<Step>, trace: seq<State>, n: nat)
    requires Run(steps, trace) && n < |steps|
    requires steps[n].Return? || steps[n].FreeEntry? || steps[n].FreeTds?
    ensures var s := trace[n];
            var e := s.phase.e;
            && s.handled == s.submitted && s.queue == [] && s.chain == []
            && e in s.segs && s.tds == Elements(s.segs[e]) && s.active == {}
  {
    RunInv(steps, trace, n);
  }

  /** Retiring all TDs that are left and then one interrupt let the wait return. */
  lemma {:induction false} WaitCanReturn(s: State) returns (steps: seq<Step>, trace: seq<State>)
    requires Inv(s) && s.phase.Waiting?
    ensures |trace| == |steps| + 1 && trace[0] == s && |steps| <= |s.chain| + 1
    ensures forall i :: 0 <= i < |steps| ==> Enabled(trace[i], steps[i]) && trace[i + 1] == Next(trace[i], steps[i])
    ensures Enabled(trace[|steps|], Return)
    decreases |s.chain|
  {
    if s.done {
      steps, trace := [], [s];
    } else {
      var e := s.phase.e;
      var k :| 0 <= k <= |s.segs[e]| && UpTo(s, e, k);
      if s.chain == [] {
        var t := Next(s, Interrupt(true));
        assert [e][..0] == [];
        assert Only([e], Completed(s)) == [e];
        steps, trace := [Interrupt(true)], [s, t];
      } else {
        assert s.chain[0] in s.active;
        StepInv(s, Retire);
        var steps', trace' := WaitCanReturn(Next(s, Retire));
        steps, trace := [Retire] + steps', [s] + trace';
      }
    }
  }
}
