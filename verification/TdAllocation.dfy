/** The memory for a TD chain comes from the allocator: its result is what the link words need. */
module TdAllocation {
  import opened Words
  import opened Alignment
  import opened FreeList
  import opened Allocator
  import opened AllocatorProperties
  import opened TransferDescriptors
  import opened TdChains

  /**
   `memalloc_aligned(sizeof(struct transfer_descriptor) * td_cnt, 16)`: a result
   other than NULL is a 16-aligned base with room for all TDs below 2^32.
   */
  lemma AllocatedPlaced(h: Heap, c: Control)
    requires Inv(h) && Alloc(h, TD_SIZE * c.Count(), 16).1 != 0
    ensures Placed(Alloc(h, TD_SIZE * c.Count(), 16).1, c.Count())
  {
    var size := TD_SIZE * c.Count();
    var base := Alloc(h, size, 16).1;
    assert Pow2(4) == 16;
    hide Alloc, c.DataCount;
    AllocIsLowestRoom(h, size, 4, 0);
    assert Owns(h.free, base + size - 1);
  }

  /** So the link words of the chain built there visit exactly its TDs. */
  lemma AllocatedChainLinks(h: Heap, c: Control, dr: nat, tds: TdMemory)
    requires Inv(h) && Alloc(h, TD_SIZE * c.Count(), 16).1 != 0
    requires Built(tds, c, Alloc(h, TD_SIZE * c.Count(), 16).1, dr)
    ensures var base := Alloc(h, TD_SIZE * c.Count(), 16).1;
            Placed(base, c.Count()) && Chain(tds, Target(base), Addresses(base, c.Count()))
  {
    hide Alloc, Built, c.DataCount, Target, Inv;
    AllocatedPlaced(h, c);
    BuiltChain(tds, c, Alloc(h, TD_SIZE * c.Count(), 16).1, dr);
  }

  /** `sizeof` of `struct device_request` and `struct transfer_entry` on the 32-bit target. */
  const REQUEST_SIZE: nat := 8
  const ENTRY_SIZE: nat := 20

  /** Three allocations and their release in the order last, first, second. */
  lemma TakeThreeGiveThree(h: Heap, h1: Heap, h2: Heap, h3: Heap, a: nat, b: nat, c: nat)
    requires Inv(h) && Taken(h, h1, a) && Taken(h1, h2, b) && Taken(h2, h3, c)
    ensures c in h3.live && a in h3.live - {c} && b in h3.live - {c} - {a}
    ensures Release(Release(Release(h3, c), a), b) == h
  {
    hide Inv, Release;
    LiveSets(h.live, h1.live, h2.live, h3.live, a, b, c);
    ReleaseLive(h3, c);
    ReleaseLive(Release(h3, c), a);
    ReleaseLive(Release(Release(h3, c), a), b);
    FreeListFromLive(Release(Release(Release(h3, c), a), b), h);
  }

  lemma LiveSets(l: map<nat, Chunk>, l1: map<nat, Chunk>, l2: map<nat, Chunk>, l3: map<nat, Chunk>,
                 a: nat, b: nat, c: nat)
    requires a !in l && a in l1 && l1 - {a} == l
    requires b !in l1 && b in l2 && l2 - {b} == l1
    requires c !in l2 && c in l3 && l3 - {c} == l2
    ensures c in l3 && a in l3 - {c} && b in l3 - {c} - {a} && l3 - {c} - {a} - {b} == l
  {
    assert a in l2 - {b} && b in l3 - {c};
    assert l3 - {c} - {a} - {b} == l2 - {b} - {a};
  }

  lemma ReleaseLive(h: Heap, p: nat)
    requires Inv(h) && p in h.live
    ensures var h' := Release(h, p);
            Inv(h') && h'.live == h.live - {p} && h'.lo == h.lo && h'.hi == h.hi
  {
    ReleaseInv(h, p);
  }

  /** `h'` is `h` after an allocation that returned `p`. */
  ghost predicate Taken(h: Heap, h': Heap, p: nat) {
    Inv(h') && h'.lo == h.lo && h'.hi == h.hi && p !in h.live && p in h'.live && h'.live - {p} == h.live
  }

  lemma AllocTakes(h: Heap, size: nat, align: nat)
    requires Inv(h) && Alloc(h, size, align).1 != 0
    ensures Taken(h, Alloc(h, size, align).0, Alloc(h, size, align).1)
  {
    AllocInv(h, size, align);
  }

  /** `h'` is `h` after request, TDs and entry of a transfer have been allocated at `dr`, `base` and `e`. */
  ghost predicate Allocated(h: Heap, h': Heap, c: Control, dr: nat, base: nat, e: nat) {
    var (h1, p) := Alloc(h, REQUEST_SIZE, 4);
    var (h2, q) := Alloc(h1, TD_SIZE * c.Count(), 16);
    var (h3, r) := Alloc(h2, ENTRY_SIZE, 4);
    h' == h3 && dr == p != 0 && base == q != 0 && e == r != 0
  }

  /** The three allocations succeed. */
  ghost predicate Allocatable(h: Heap, c: Control) {
    var (h1, p) := Alloc(h, REQUEST_SIZE, 4);
    var (h2, q) := Alloc(h1, TD_SIZE * c.Count(), 16);
    p != 0 && q != 0 && Alloc(h2, ENTRY_SIZE, 4).1 != 0
  }

  /** At `p`, a multiple of 2^k and the lowest with room in `h`, there are `size` bytes up to the end of the extent. */
  ghost predicate PlacedIn(h: Heap, h': Heap, p: nat, size: nat, k: nat) {
    && p in h'.live && p + size <= Stop(p, h'.live[p]) < p + size + 8 && p % Pow2(k) == 0
    && (forall q: nat :: q % Pow2(k) == 0 && Room(h.free, q, size) ==> p <= q)
  }

  lemma AllocPlaces(h: Heap, size: nat, k: nat)
    requires Inv(h) && Alloc(h, size, Pow2(k)).1 != 0
    ensures var (h', p) := Alloc(h, size, Pow2(k));
            Inv(h') && PlacedIn(h, h', p, size, k)
  {
    hide Alloc, Room, Inv, Owns, Pow2;
    AllocInv(h, size, Pow2(k));
    AllocIsLowestRoom(h, size, k, 0);
    var p := Alloc(h, size, Pow2(k)).1;
    forall q: nat | q % Pow2(k) == 0 && Room(h.free, q, size)
      ensures p <= q
    {
      AllocIsLowestRoom(h, size, k, q);
    }
  }

  /**
   The sizes of the C structs on the 32-bit target: 8 bytes for the request, 32 for
   each TD, at a multiple of 16, and 20 for the entry, each where first fit puts it.
   */
  lemma AllocatedSizes(h: Heap, h': Heap, c: Control, dr: nat, base: nat, e: nat)
    requires Inv(h) && Allocated(h, h', c, dr, base, e)
    ensures var h1 := Alloc(h, 8, 4).0;
            var h2 := Alloc(h1, 32 * c.Count(), 16).0;
            && PlacedIn(h, h', dr, 8, 2) && PlacedIn(h1, h', base, 32 * c.Count(), 4) && PlacedIn(h2, h', e, 20, 2)
            && Apart(h'.live, dr) && Apart(h'.live, base) && Apart(h'.live, e)
  {
    hide Alloc, Room, Inv, c.DataCount, Pow2, Apart, Stop, Taken;
    Alignments();
    var h1 := Alloc(h, 8, 4).0;
    var h2 := Alloc(h1, 32 * c.Count(), 16).0;
    AllocPlaces(h, 8, 2);
    AllocPlaces(h1, 32 * c.Count(), 4);
    AllocPlaces(h2, 20, 2);
    AllocTakes(h, 8, 4);
    AllocTakes(h1, 32 * c.Count(), 16);
    AllocTakes(h2, 20, 4);
    StillLive(h1, h2, dr, base);
    StillLive(h2, h', dr, e);
    StillLive(h2, h', base, e);
    LiveApart(h', dr);
    LiveApart(h', base);
    LiveApart(h', e);
  }

  lemma Alignments()
    ensures Pow2(2) == 4 && Pow2(4) == 16
  {
  }

  lemma StillLive(h: Heap, h': Heap, p: nat, q: nat)
    requires p in h.live && Taken(h, h', q)
    ensures p in h'.live && h'.live[p] == h.live[p]
  {
    hide Inv;
    assert p in h'.live - {q};
  }

  lemma LiveApart(h: Heap, p: nat)
    requires Inv(h) && p in h.live
    ensures Apart(h.live, p)
  {
  }

  lemma AllocatedGivenBack(h: Heap, h': Heap, c: Control, dr: nat, base: nat, e: nat)
    requires Inv(h) && Allocated(h, h', c, dr, base, e)
    ensures dr != 0 && base != 0 && e != 0
    ensures e in h'.live && dr in h'.live - {e} && base in h'.live - {e} - {dr}
    ensures dr in Release(h', e).live && base in Release(Release(h', e), dr).live
    ensures Release(Release(Release(h', e), dr), base) == h
  {
    hide Alloc, Release, Inv, c.DataCount;
    var (h1, _) := Alloc(h, REQUEST_SIZE, 4);
    var (h2, _) := Alloc(h1, TD_SIZE * c.Count(), 16);
    AllocTakes(h, REQUEST_SIZE, 4);
    AllocTakes(h1, TD_SIZE * c.Count(), 16);
    AllocTakes(h2, ENTRY_SIZE, 4);
    TakeThreeGiveThree(h, h1, h2, h', dr, base, e);
    ReleaseLive(h', e);
    ReleaseLive(Release(h', e), dr);
  }

  /**
   A whole transfer leaves the heap as it found it: the request, the TDs and the
   entry are allocated, the entry is freed after the wait, and `uhci_delete_td_control`
   frees what the first TD's buffer pointer names and then the chain.
   */
  lemma TransferLeavesHeap(h: Heap, h': Heap, c: Control, tds: TdMemory, dr: nat, base: nat, e: nat)
    requires Inv(h) && Allocated(h, h', c, dr, base, e) && Built(tds, c, base, dr)
    ensures var first := tds[Address(base, 0)].buffer;
            && e in h'.live && first in h'.live - {e} && base in h'.live - {e} - {first}
            && Release(Release(Release(h', e), first), base) == h
  {
    hide Alloc, Release, Inv, TdAt, c.DataCount, Allocated;
    FirstBuffer(tds, c, base, dr);
    AllocatedGivenBack(h, h', c, dr, base, e);
  }

  lemma FirstBuffer(tds: TdMemory, c: Control, base: nat, dr: nat)
    requires Built(tds, c, base, dr)
    ensures Address(base, 0) in tds && tds[Address(base, 0)].buffer == dr
  {
  }
}
