/** What the allocator promises, stated on bytes and on whole runs. */
module AllocatorProperties {
  import opened Words
  import opened Sequences
  import opened Alignment
  import opened FreeList
  import opened Allocator

  // ------------------------------------------------------------------ first fit

  /** Header and payload of a request could be placed with the payload at `p`. */
  ghost predicate Room(fl: seq<Block>, p: nat, size: nat) {
    p >= HEADER_SIZE && forall a: int :: p - HEADER_SIZE <= a < p + size ==> Owns(fl, a)
  }

  /** The byte right behind a block of a canonical list is not free. */
  lemma EndNotOwned(fl: seq<Block>, lo: nat, hi: nat, i: nat)
    requires Canonical(fl, lo, hi) && i < |fl|
    ensures !Owns(fl, fl[i].End())
  {
  }

  /** A contiguous run of free bytes lies inside one block: this is what coalescing buys. */
  lemma {:induction false} RunInOneBlock(fl: seq<Block>, lo: nat, hi: nat, from: int, to: int) returns (i: nat)
    requires Canonical(fl, lo, hi) && from < to
    requires forall a: int :: from <= a < to ==> Owns(fl, a)
    ensures i < |fl| && fl[i].addr <= from && to <= fl[i].End()
  {
    assert Owns(fl, from);
    i :| 0 <= i < |fl| && fl[i].addr <= from < fl[i].End();
    EndNotOwned(fl, lo, hi, i);
  }

  lemma BlockIsRoom(fl: seq<Block>, i: nat, p: nat, size: nat)
    requires i < |fl| && fl[i].addr + HEADER_SIZE <= p && p + size <= fl[i].End()
    ensures Room(fl, p, size)
  {
  }

  /** Rounding up to a power of two is monotone. */
  lemma AlignUpMonotone(p: nat, q: nat, k: nat)
    requires p <= q
    ensures AlignUp(p, Pow2(k)) <= AlignUp(q, Pow2(k))
  {
    AlignUpIsLeastMultiple(q, k, 0);
    AlignUpIsLeastMultiple(p, k, AlignUp(q, Pow2(k)));
  }

  lemma RoomOwned(fl: seq<Block>, p: nat, size: nat)
    requires Room(fl, p, size)
    ensures p >= HEADER_SIZE && forall a: int :: p - HEADER_SIZE <= a < p + size ==> Owns(fl, a)
  {
  }

  /** No aligned address with room lies below the one first fit computes. */
  lemma FirstFitBelow(h: Heap, size: nat, k: nat, q: nat)
    requires Inv(h) && size > 0 && q % Pow2(k) == 0 && Room(h.free, q, size)
    ensures var i := FirstFit(h.free, size, Pow2(k));
            i < |h.free| && AlignUp(h.free[i].addr + HEADER_SIZE, Pow2(k)) <= q
  {
    hide AlignUp, Tiled, ChunksFit, ChunksDisjoint, Room;
    var align := Pow2(k);
    var i := FirstFit(h.free, size, align);
    RoomOwned(h.free, q, size);
    var j := RunInOneBlock(h.free, h.lo, h.hi, q - HEADER_SIZE, q + size);
    AlignUpIsLeastMultiple(h.free[j].addr + HEADER_SIZE, k, q);
    assert Fits(h.free[j], size, align);
    assert i <= j;
    assert h.free[i].addr <= h.free[j].addr;
    AlignUpMonotone(h.free[i].addr + HEADER_SIZE, h.free[j].addr + HEADER_SIZE, k);
  }

  /**
   First fit, without mentioning blocks: for a power-of-two alignment the result
   is the lowest aligned address that has room for header and payload, and NULL
   exactly when there is none. `q` is any competing address.
   */
  lemma AllocIsLowestRoom(h: Heap, size: nat, k: nat, q: nat)
    requires Inv(h)
    ensures var p := Alloc(h, size, Pow2(k)).1;
            && (p == 0 ==> size == 0 || !(q % Pow2(k) == 0 && Room(h.free, q, size)))
            && (p != 0 ==> size > 0 && p % Pow2(k) == 0 && Room(h.free, p, size))
            && (p != 0 && q % Pow2(k) == 0 && Room(h.free, q, size) ==> p <= q)
  {
    hide FirstFit, AlignUp, Room, Inv, Carved, ChunkOf;
    if size > 0 {
      var i := FirstFit(h.free, size, Pow2(k));
      if i < |h.free| {
        var p := AlignUp(h.free[i].addr + HEADER_SIZE, Pow2(k));
        AlignUpIsLeastMultiple(h.free[i].addr + HEADER_SIZE, k, 0);
        BlockIsRoom(h.free, i, p, size);
      }
      if q % Pow2(k) == 0 && Room(h.free, q, size) {
        FirstFitBelow(h, size, k, q);
      }
    }
  }

  /** Block `i` is the lowest that fits, and `p` the rounded address of its first possible payload. */
  ghost predicate FirstFitAt(h: Heap, size: nat, align: nat, i: nat, p: nat) {
    && align > 0 && i < |h.free| && Fits(h.free[i], size, align)
    && p == AlignUp(h.free[i].addr + HEADER_SIZE, align) && p + size <= h.free[i].End() <= h.hi
    && forall j :: 0 <= j < i ==> !Fits(h.free[j], size, align)
  }

  /** Extent `p` shares no byte with another live one. */
  ghost predicate Apart(live: map<nat, Chunk>, p: nat)
    requires p in live
  {
    forall q :: q in live && q != p ==> Stop(p, live[p]) <= Start(q, live[q]) || Stop(q, live[q]) <= Start(p, live[p])
  }

  /**
   For every alignment, also one that is not a power of two: the result is the
   rounding in the lowest block that fits, NULL means that no block fits, and the
   new extent is disjoint from all live ones, which are as before.
   */
  lemma AllocIsFirstFit(h: Heap, size: nat, align: nat)
    requires Inv(h)
    ensures var (h', p) := Alloc(h, size, align);
            && (p == 0 <==> size == 0 || align == 0
                            || forall j :: 0 <= j < |h.free| ==> !Fits(h.free[j], size, align))
            && (p != 0 ==> (exists i :: FirstFitAt(h, size, align, i, p))
                           && p in h'.live && h'.live - {p} == h.live && Apart(h'.live, p))
  {
    hide Inv, Owns, Within, Carved, AlignUp, ChunkOf, Apart;
    AllocInv(h, size, align);
    if size > 0 && align > 0 {
      var i := FirstFit(h.free, size, align);
      assert i < |h.free| ==> FirstFitAt(h, size, align, i, Alloc(h, size, align).1) by {
        BlockEnds(h, i);
      }
    }
    if Alloc(h, size, align).1 != 0 {
      NewExtentApart(h, size, align);
    }
  }

  lemma BlockEnds(h: Heap, i: nat)
    requires Inv(h)
    ensures i < |h.free| ==> h.free[i].End() <= h.hi
  {
  }

  lemma NewExtentApart(h: Heap, size: nat, align: nat)
    requires Inv(h) && Alloc(h, size, align).1 != 0
    ensures var (h', p) := Alloc(h, size, align);
            p in h'.live && Apart(h'.live, p)
  {
    AllocInv(h, size, align);
    hide Alloc, Tiled, ChunksFit, Canonical;
  }

  // ------------------------------------------------------------------ canonical form

  /** The free list is a function of the bytes in use. */
  lemma FreeListFromLive(g: Heap, h: Heap)
    requires Inv(g) && Inv(h) && g.lo == h.lo && g.hi == h.hi
    requires forall a: int :: Used(g.live, a) <==> Used(h.live, a)
    ensures g.free == h.free
  {
    forall a: int
      ensures Owns(g.free, a) <==> Owns(h.free, a)
    {
      assert Owns(g.free, a) ==> g.lo <= a < g.hi;
      assert Owns(h.free, a) ==> h.lo <= a < h.hi;
    }
    CanonicalUnique(g.free, h.free, g.lo, g.hi);
  }

  /** Releasing a fresh allocation restores the previous heap, addresses and sizes included. */
  lemma ReleaseUndoesAlloc(h: Heap, size: nat, align: nat)
    requires Inv(h) && Alloc(h, size, align).1 != 0
    ensures var (h', p) := Alloc(h, size, align);
            p in h'.live && Release(h', p) == h
  {
    var (h', p) := Alloc(h, size, align);
    AllocInv(h, size, align);
    ReleaseInv(h', p);
    FreeListFromLive(Release(h', p), h);
  }

  /** With no live allocation left there is one block: the whole heap. */
  lemma EmptyHeapIsInitial(h: Heap)
    requires Inv(h) && h.live == map[]
    ensures h == Initial(h.lo, h.hi)
  {
    InitialInv(h.lo, h.hi);
    FreeListFromLive(h, Initial(h.lo, h.hi));
  }

  /** All of `ps` are live and none is listed twice. */
  ghost predicate Releasable(h: Heap, ps: seq<nat>) {
    Distinct(ps) && forall i :: 0 <= i < |ps| ==> ps[i] in h.live
  }

  ghost function ReleaseAll(h: Heap, ps: seq<nat>): Heap
    requires Releasable(h, ps)
    decreases |ps|
  {
    if ps == [] then h else ReleaseAll(Release(h, ps[0]), ps[1..])
  }

  lemma {:induction false} ReleaseAllInv(h: Heap, ps: seq<nat>)
    requires Inv(h) && Releasable(h, ps)
    ensures var g := ReleaseAll(h, ps);
            Inv(g) && g.live == h.live - Elements(ps) && g.lo == h.lo && g.hi == h.hi
    decreases |ps|
  {
    hide Inv, Merged, Insert, Position;
    if ps != [] {
      ReleaseInv(h, ps[0]);
      assert Release(h, ps[0]).live == h.live - {ps[0]};
      ReleaseAllInv(Release(h, ps[0]), ps[1..]);
      assert Elements(ps) == {ps[0]} + Elements(ps[1..]);
      assert h.live - {ps[0]} - Elements(ps[1..]) == h.live - Elements(ps);
    }
  }

  /** The order of releases does not matter. */
  lemma ReleaseOrderIrrelevant(h: Heap, ps: seq<nat>, qs: seq<nat>)
    requires Inv(h) && Releasable(h, ps) && Distinct(qs) && Elements(ps) == Elements(qs)
    ensures Releasable(h, qs) && ReleaseAll(h, ps) == ReleaseAll(h, qs)
  {
    assert forall i :: 0 <= i < |qs| ==> qs[i] in Elements(qs);
    ReleaseAllInv(h, ps);
    ReleaseAllInv(h, qs);
    FreeListFromLive(ReleaseAll(h, ps), ReleaseAll(h, qs));
  }

  /** Releasing everything, in any order, restores the heap that `init_memory` built. */
  lemma ReleaseEverything(h: Heap, ps: seq<nat>)
    requires Inv(h) && Distinct(ps) && Elements(ps) == h.live.Keys
    ensures Releasable(h, ps) && ReleaseAll(h, ps) == Initial(h.lo, h.hi)
  {
    assert forall i :: 0 <= i < |ps| ==> ps[i] in Elements(ps);
    ReleaseAllInv(h, ps);
    EmptyHeapIsInitial(ReleaseAll(h, ps));
  }

  /** A release never makes a power-of-two request fail that would have succeeded. */
  lemma ReleaseKeepsRoom(h: Heap, p: nat, size: nat, k: nat)
    requires Inv(h) && p in h.live && Alloc(h, size, Pow2(k)).1 != 0
    ensures 0 != Alloc(Release(h, p), size, Pow2(k)).1 <= Alloc(h, size, Pow2(k)).1
  {
    var q := Alloc(h, size, Pow2(k)).1;
    ReleaseInv(h, p);
    AllocIsLowestRoom(h, size, k, q);
    AllocIsLowestRoom(Release(h, p), size, k, q);
  }

  // ------------------------------------------------------------------ runs

  datatype Op = Take(size: nat, align: nat) | Give(ptr: nat)

  ghost predicate Legal(h: Heap, op: Op) {
    op.Give? ==> op.ptr == 0 || op.ptr in h.live
  }

  ghost function Step(h: Heap, op: Op): Heap
    requires Legal(h, op)
  {
    match op
    case Take(size, align) => Alloc(h, size, align).0
    case Give(ptr) => if ptr == 0 then h else Release(h, ptr)
  }

  /** `trace` is a run of the allocator under `ops`, all frees being of live pointers or NULL. */
  ghost predicate Run(lo: nat, hi: nat, ops: seq<Op>, trace: seq<Heap>) {
    && Bounds(lo, hi) && |trace| == |ops| + 1 && trace[0] == Initial(lo, hi)
    && forall i :: 0 <= i < |ops| ==> Legal(trace[i], ops[i]) && trace[i + 1] == Step(trace[i], ops[i])
  }

  lemma StepInv(h: Heap, op: Op)
    requires Inv(h) && Legal(h, op)
    ensures Inv(Step(h, op)) && Step(h, op).lo == h.lo && Step(h, op).hi == h.hi
  {
    match op
    case Take(size, align) => AllocInv(h, size, align);
    case Give(ptr) =>
      if ptr != 0 {
        ReleaseInv(h, ptr);
      }
  }

  /** Every heap of every run satisfies the invariant: ascending, gapped, tiled without loss. */
  lemma {:induction false} RunInv(lo: nat, hi: nat, ops: seq<Op>, trace: seq<Heap>, n: nat)
    requires Run(lo, hi, ops, trace) && n <= |ops|
    ensures Inv(trace[n]) && trace[n].lo == lo && trace[n].hi == hi
  {
    if n == 0 {
      InitialInv(lo, hi);
    } else {
      RunInv(lo, hi, ops, trace, n - 1);
      StepInv(trace[n - 1], ops[n - 1]);
    }
  }

  /**
   History does not matter: two runs that leave the same bytes in use leave the
   same free list, and a run that has given everything back is back at the start.
   */
  lemma RunsAgree(lo: nat, hi: nat, ops: seq<Op>, trace: seq<Heap>, ops': seq<Op>, trace': seq<Heap>)
    requires Run(lo, hi, ops, trace) && Run(lo, hi, ops', trace')
    requires forall a: int :: Used(trace[|ops|].live, a) <==> Used(trace'[|ops'|].live, a)
    ensures trace[|ops|].free == trace'[|ops'|].free
    ensures trace[|ops|].live == map[] ==> trace[|ops|] == Initial(lo, hi)
  {
    RunInv(lo, hi, ops, trace, |ops|);
    RunInv(lo, hi, ops', trace', |ops'|);
    FreeListFromLive(trace[|ops|], trace'[|ops'|]);
    if trace[|ops|].live == map[] {
      EmptyHeapIsInitial(trace[|ops|]);
    }
  }

  // ------------------------------------------------------------------ instances

  /** The heap `[lo, hi)` with one allocation at `p`: slack of 8 bytes or more in front and behind is a block. */
  function SingleHeap(lo: nat, hi: nat, size: nat, p: nat): Heap
    requires lo + 8 <= p && p + size <= hi
  {
    var before, after := p - 8 - lo, hi - p - size;
    if before >= 8 && after >= 8 then
      Heap(lo, hi, [Block(lo, before), Block(p + size, after)], map[p := Chunk(0, size + 8)])
    else if before >= 8 then Heap(lo, hi, [Block(lo, before)], map[p := Chunk(0, size + 8 + after)])
    else if after >= 8 then Heap(lo, hi, [Block(p + size, after)], map[p := Chunk(before, size + 8)])
    else Heap(lo, hi, [], map[p := Chunk(before, size + 8 + after)])
  }

  /** The first allocation takes the lowest aligned address behind a header. */
  lemma FirstAllocation(lo: nat, hi: nat, size: nat, k: nat, p: nat)
    requires Bounds(lo, hi) && size > 0 && p % Pow2(k) == 0
    requires lo + 8 <= p < lo + 8 + Pow2(k) && p + size <= hi
    ensures Alloc(Initial(lo, hi), size, Pow2(k)) == (SingleHeap(lo, hi, size, p), p)
  {
    hide Pow2;
    var m, b := Pow2(k), Block(lo, hi - lo);
    AlignUpIsLeastMultiple(lo + 8, k, p);
    SameMultiple(AlignUp(lo + 8, m), p, m);
    hide AlignUp, Carved;
    assert Fits(b, size, m) && FirstFit([b], size, m) == 0;
    CarvedSingle(b, size, Cut(p, p - 8 - lo, hi - p - size));
  }

  lemma CarvedSingle(b: Block, size: nat, c: Cut)
    ensures Carved([b], 0, size, c) == if c.before >= 8 && c.after >= 8 then
                                         [Block(b.addr, c.before), Block(c.payload + size, c.after)]
                                       else if c.before >= 8 then [Block(b.addr, c.before)]
                                       else if c.after >= 8 then [Block(c.payload + size, c.after)] else []
  {
  }

  lemma SameMultiple(a: nat, b: nat, m: nat)
    requires m > 0 && a % m == 0 && b % m == 0 && a - m < b < a + m
    ensures a == b
  {
    var d, e := a / m, b / m;
    assert a == m * d && b == m * e && m * (d - e) == m * d - m * e;
    MulBounds(d - e, m);
  }

  /**
   Slack of 8 bytes becomes a block and slack of 7 does not: an allocation of 100
   bytes in 116 and in 115 bytes, and one of 16 bytes at a multiple of 16 that is
   8 or 7 bytes away.
   */
  lemma SlackExamples()
    ensures Alloc(Initial(0x1000, 0x1000 + 116), 100, 4)
            == (Heap(0x1000, 0x1074, [Block(0x106c, 8)], map[0x1008 := Chunk(0, 108)]), 0x1008)
    ensures Alloc(Initial(0x1000, 0x1000 + 115), 100, 4)
            == (Heap(0x1000, 0x1073, [], map[0x1008 := Chunk(0, 115)]), 0x1008)
    ensures Alloc(Initial(0x1000, 0x1020), 16, 16)
            == (Heap(0x1000, 0x1020, [Block(0x1000, 8)], map[0x1010 := Chunk(0, 24)]), 0x1010)
    ensures Alloc(Initial(0x1001, 0x1020), 16, 16)
            == (Heap(0x1001, 0x1020, [], map[0x1010 := Chunk(7, 24)]), 0x1010)
  {
    assert Pow2(2) == 4 && Pow2(4) == 16;
    hide Alloc, Pow2;
    FirstAllocation(0x1000, 0x1074, 100, 2, 0x1008);
    FirstAllocation(0x1000, 0x1073, 100, 2, 0x1008);
    FirstAllocation(0x1000, 0x1020, 16, 4, 0x1010);
    FirstAllocation(0x1001, 0x1020, 16, 4, 0x1010);
  }
}
