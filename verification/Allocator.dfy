/**
 The allocator as a transition system over values: the canonical free list and
 the live allocations. `HeapMemory.dfy` proves that the bytes in memory follow it.
 */
module Allocator {
  import opened Words
  import opened Alignment
  import opened FreeList

  /** The fields of `struct block_header` in front of a live payload. */
  datatype Chunk = Chunk(off: nat, size: nat)

  /** First byte of the extent of the allocation at `p`: the slack kept in `start_off` and the header. */
  function Start(p: nat, c: Chunk): nat {
    if HEADER_SIZE + c.off <= p then p - HEADER_SIZE - c.off else 0
  }

  /** One past the last byte of the extent: the header counts itself and the payload. */
  function Stop(p: nat, c: Chunk): int {
    p - HEADER_SIZE + c.size
  }

  datatype Heap = Heap(lo: nat, hi: nat, free: seq<Block>, live: map<nat, Chunk>)

  ghost predicate Within(live: map<nat, Chunk>, p: nat, a: int)
    requires p in live
  {
    Start(p, live[p]) <= a < Stop(p, live[p])
  }

  ghost predicate Used(live: map<nat, Chunk>, a: int) {
    exists p :: p in live && Within(live, p, a)
  }

  ghost predicate Bounds(lo: nat, hi: nat) {
    8 <= lo && lo + NODE_SIZE <= hi < TWO32
  }

  ghost predicate ChunksFit(h: Heap) {
    forall p :: p in h.live ==>
                  h.lo <= Start(p, h.live[p]) && p < Stop(p, h.live[p]) <= h.hi && h.live[p].off < NODE_SIZE
  }

  ghost predicate ChunksDisjoint(live: map<nat, Chunk>) {
    forall p, q :: p in live && q in live && p < q ==> Stop(p, live[p]) <= Start(q, live[q])
  }

  /** Free blocks and live extents tile `[lo, hi)`: every byte has exactly one owner. */
  ghost predicate Tiled(h: Heap) {
    forall a: int :: h.lo <= a < h.hi ==> (Owns(h.free, a) <==> !Used(h.live, a))
  }

  ghost predicate Inv(h: Heap) {
    && Bounds(h.lo, h.hi)
    && Canonical(h.free, h.lo, h.hi)
    && ChunksFit(h)
    && ChunksDisjoint(h.live)
    && Tiled(h)
  }

  /** `init_memory`. */
  function Initial(lo: nat, hi: nat): Heap
    requires lo <= hi
  {
    Heap(lo, hi, [Block(lo, hi - lo)], map[])
  }

  lemma InitialInv(lo: nat, hi: nat)
    requires Bounds(lo, hi)
    ensures Inv(Initial(lo, hi))
  {
    forall a: int
      ensures Owns(Initial(lo, hi).free, a) <==> lo <= a < hi
    {
      OwnsOne(Block(lo, hi - lo), a);
    }
  }

  // ------------------------------------------------------------------ allocation

  /** An aligned payload of `size` bytes with its header fits into the block. */
  predicate Fits(b: Block, size: nat, align: nat)
    requires align >= 1
  {
    AlignUp(b.addr + HEADER_SIZE, align) + size <= b.End()
  }

  function FirstFit(fl: seq<Block>, size: nat, align: nat): (i: nat)
    requires align >= 1
    ensures i <= |fl| && (i < |fl| ==> Fits(fl[i], size, align))
    ensures forall j :: 0 <= j < i ==> !Fits(fl[j], size, align)
  {
    if fl == [] || Fits(fl[0], size, align) then 0 else 1 + FirstFit(fl[1..], size, align)
  }

  /** The payload address and the unused bytes in front of the header and behind the payload. */
  datatype Cut = Cut(payload: nat, before: nat, after: nat)

  function CutOf(b: Block, size: nat, align: nat): (c: Cut)
    requires align >= 1 && Fits(b, size, align)
    ensures b.addr + c.before + HEADER_SIZE == c.payload && c.payload + size + c.after == b.End()
  {
    var p := AlignUp(b.addr + HEADER_SIZE, align);
    Cut(p, p - HEADER_SIZE - b.addr, b.End() - (p + size))
  }

  /** Slack behind the payload becomes a block of its own if a node fits into it. */
  function Tail(b: Block, size: nat, c: Cut): seq<Block> {
    if c.after >= NODE_SIZE then [Block(c.payload + size, c.after)] else []
  }

  function WithTail(fl: seq<Block>, i: nat, size: nat, c: Cut): seq<Block>
    requires i < |fl|
  {
    fl[..i] + Tail(fl[i], size, c) + fl[i + 1..]
  }

  /** Block `i` is replaced by what the allocation leaves of it. */
  function Carved(fl: seq<Block>, i: nat, size: nat, c: Cut): seq<Block>
    requires i < |fl|
  {
    var rest := WithTail(fl, i, size, c);
    if c.before >= NODE_SIZE then Insert(rest, i, Block(fl[i].addr, c.before)) else rest
  }

  function ChunkOf(size: nat, c: Cut): Chunk {
    Chunk(if c.before >= NODE_SIZE then 0 else c.before,
          size + HEADER_SIZE + if c.after >= NODE_SIZE then 0 else c.after)
  }

  /** `memalloc_aligned`: the new heap and the returned pointer (0 is NULL). */
  function Alloc(h: Heap, size: nat, align: nat): (Heap, nat) {
    if size == 0 || align == 0 then (h, 0)
    else
      var i := FirstFit(h.free, size, align);
      if i == |h.free| then (h, 0)
      else
        var c := CutOf(h.free[i], size, align);
        (h.(free := Carved(h.free, i, size, c), live := h.live[c.payload := ChunkOf(size, c)]), c.payload)
  }

  lemma InsertCanonical(fl: seq<Block>, i: nat, b: Block, lo: nat, hi: nat)
    requires i <= |fl| && Canonical(fl, lo, hi)
    requires lo <= b.addr && NODE_SIZE <= b.size && b.End() <= hi
    requires forall j :: 0 <= j < i ==> fl[j].End() < b.addr
    requires forall j :: i <= j < |fl| ==> b.End() < fl[j].addr
    ensures Canonical(Insert(fl, i, b), lo, hi)
  {
  }

  /** The rest of block `i` behind the payload keeps the list canonical and right of the cut. */
  lemma WithTailCanonical(fl: seq<Block>, i: nat, size: nat, c: Cut, lo: nat, hi: nat)
    requires i < |fl| && Canonical(fl, lo, hi) && size >= 1
    requires fl[i].addr + c.before + HEADER_SIZE == c.payload && c.payload + size + c.after == fl[i].End()
    ensures Canonical(WithTail(fl, i, size, c), lo, hi) && i <= |WithTail(fl, i, size, c)|
    ensures forall j :: 0 <= j < i ==> WithTail(fl, i, size, c)[j] == fl[j]
    ensures forall j :: i <= j < |WithTail(fl, i, size, c)| ==> c.payload < WithTail(fl, i, size, c)[j].addr
  {
    var rest := fl[..i] + fl[i + 1..];
    RestCanonical(fl, i, lo, hi);
    if c.after >= NODE_SIZE {
      InsertCanonical(rest, i, Block(c.payload + size, c.after), lo, hi);
      assert WithTail(fl, i, size, c) == Insert(rest, i, Block(c.payload + size, c.after));
    } else {
      assert WithTail(fl, i, size, c) == rest;
    }
  }

  lemma RestCanonical(fl: seq<Block>, i: nat, lo: nat, hi: nat)
    requires i < |fl| && Canonical(fl, lo, hi)
    ensures var rest := fl[..i] + fl[i + 1..];
            && Canonical(rest, lo, hi)
            && (forall j :: 0 <= j < i ==> rest[j] == fl[j] && rest[j].End() < fl[i].addr)
            && (forall j :: i <= j < |rest| ==> fl[i].End() < rest[j].addr)
  {
    var rest := fl[..i] + fl[i + 1..];
    assert forall j :: i <= j < |rest| ==> rest[j] == fl[j + 1];
  }

  /** A byte of block `i` is in no other block. */
  lemma OwnsAround(fl: seq<Block>, i: nat, lo: nat, hi: nat, a: int)
    requires i < |fl| && Canonical(fl, lo, hi)
    ensures Owns(fl, a) <==> Owns(fl[..i] + fl[i + 1..], a) || fl[i].addr <= a < fl[i].End()
    ensures fl[i].addr <= a < fl[i].End() ==> !Owns(fl[..i] + fl[i + 1..], a)
  {
    var rest := fl[..i] + fl[i + 1..];
    assert fl == Insert(rest, i, fl[i]);
    OwnsInsert(rest, i, fl[i], a);
    assert forall j :: 0 <= j < |rest| ==> rest[j] == fl[if j < i then j else j + 1];
  }

  /** Carving removes exactly the new extent from the free bytes. */
  lemma CarvedOwns(fl: seq<Block>, i: nat, size: nat, c: Cut, lo: nat, hi: nat, a: int)
    requires i < |fl| && Canonical(fl, lo, hi) && size >= 1
    requires fl[i].addr + c.before + HEADER_SIZE == c.payload && c.payload + size + c.after == fl[i].End()
    ensures var k := ChunkOf(size, c);
            && (Owns(Carved(fl, i, size, c), a) <==> Owns(fl, a) && !(Start(c.payload, k) <= a < Stop(c.payload, k)))
            && (Start(c.payload, k) <= a < Stop(c.payload, k) ==> Owns(fl, a))
  {
    hide Owns;
    var rest := fl[..i] + fl[i + 1..];
    OwnsAround(fl, i, lo, hi, a);
    var tail := Block(c.payload + size, c.after);
    OwnsInsert(rest, i, tail, a);
    assert WithTail(fl, i, size, c) == if c.after >= NODE_SIZE then Insert(rest, i, tail) else rest;
    OwnsInsert(WithTail(fl, i, size, c), i, Block(fl[i].addr, c.before), a);
  }

  lemma CarvedCanonical(fl: seq<Block>, i: nat, size: nat, c: Cut, lo: nat, hi: nat)
    requires i < |fl| && Canonical(fl, lo, hi) && size >= 1
    requires fl[i].addr + c.before + HEADER_SIZE == c.payload && c.payload + size + c.after == fl[i].End()
    ensures Canonical(Carved(fl, i, size, c), lo, hi)
  {
    WithTailCanonical(fl, i, size, c, lo, hi);
    if c.before >= NODE_SIZE {
      InsertCanonical(WithTail(fl, i, size, c), i, Block(fl[i].addr, c.before), lo, hi);
    }
  }

  lemma FreeExtentApart(h: Heap, p: nat, k: Chunk, q: nat)
    requires Inv(h) && h.lo <= Start(p, k) && p < Stop(p, k) <= h.hi && q in h.live
    requires forall a: int :: Start(p, k) <= a < Stop(p, k) ==> Owns(h.free, a)
    ensures Stop(q, h.live[q]) <= Start(p, k) || Stop(p, k) <= Start(q, h.live[q])
  {
    var a := if Start(q, h.live[q]) < Start(p, k) then Start(p, k) else Start(q, h.live[q]);
    if Start(p, k) < Stop(q, h.live[q]) && Start(q, h.live[q]) < Stop(p, k) {
      assert Within(h.live, q, a);
      assert Used(h.live, a);
      assert false;
    }
  }

  lemma UsedAdd(live: map<nat, Chunk>, p: nat, k: Chunk, a: int)
    requires p !in live
    ensures Used(live[p := k], a) <==> Used(live, a) || Start(p, k) <= a < Stop(p, k)
  {
    var live' := live[p := k];
    if Used(live, a) {
      var q :| q in live && Within(live, q, a);
      assert Within(live', q, a);
    }
    if Start(p, k) <= a < Stop(p, k) {
      assert Within(live', p, a);
    }
    if Used(live', a) {
      var q :| q in live' && Within(live', q, a);
      assert q != p ==> Within(live, q, a);
    }
  }

  /** Adding an extent that lies inside the free bytes keeps the extents apart. */
  lemma AddChunk(h: Heap, p: nat, k: Chunk)
    requires Inv(h) && h.lo <= Start(p, k) && p < Stop(p, k) <= h.hi
    requires forall a: int :: Start(p, k) <= a < Stop(p, k) ==> Owns(h.free, a)
    ensures p !in h.live && ChunksDisjoint(h.live[p := k])
    ensures forall a: int :: Used(h.live[p := k], a) <==> Used(h.live, a) || Start(p, k) <= a < Stop(p, k)
  {
    hide Owns, Used, Canonical;
    forall q | q in h.live
      ensures Stop(q, h.live[q]) <= Start(p, k) || Stop(p, k) <= Start(q, h.live[q])
    {
      FreeExtentApart(h, p, k, q);
    }
    forall a: int
      ensures Used(h.live[p := k], a) <==> Used(h.live, a) || Start(p, k) <= a < Stop(p, k)
    {
      UsedAdd(h.live, p, k, a);
    }
  }

  /**
   A successful allocation: the bytes that stop being free are exactly the new
   extent, which lies in the chosen block and holds header and payload.
   */
  lemma AllocInv(h: Heap, size: nat, align: nat)
    requires Inv(h)
    ensures var (h', p) := Alloc(h, size, align);
            && Inv(h')
            && (p == 0 ==> h' == h)
            && (p != 0 ==>
                  && p !in h.live && p in h'.live && h'.live - {p} == h.live
                  && size + HEADER_SIZE <= h'.live[p].size < size + HEADER_SIZE + NODE_SIZE
                  && (forall a: int :: Within(h'.live, p, a) ==> Owns(h.free, a))
                  && forall a: int :: Owns(h'.free, a) <==> Owns(h.free, a) && !Within(h'.live, p, a))
  {
    hide Owns, Used, Carved, AlignUp, FirstFit, CutOf;
    var (h', p) := Alloc(h, size, align);
    if p != 0 {
      var i := FirstFit(h.free, size, align);
      var c := CutOf(h.free[i], size, align);
      assert h' == h.(free := Carved(h.free, i, size, c), live := h.live[p := ChunkOf(size, c)]) && c.payload == p;
      TakeInv(h, i, size, c);
    }
  }

  /** Taking the cut `c` out of block `i`. */
  lemma TakeInv(h: Heap, i: nat, size: nat, c: Cut)
    requires Inv(h) && i < |h.free| && size >= 1
    requires h.free[i].addr + c.before + HEADER_SIZE == c.payload && c.payload + size + c.after == h.free[i].End()
    ensures var (p, k) := (c.payload, ChunkOf(size, c));
            var h' := h.(free := Carved(h.free, i, size, c), live := h.live[p := k]);
            && Inv(h') && p !in h.live && h'.live - {p} == h.live
            && (forall a: int :: Within(h'.live, p, a) ==> Owns(h.free, a))
            && forall a: int :: Owns(h'.free, a) <==> Owns(h.free, a) && !Within(h'.live, p, a)
  {
    hide Owns, Used, Carved;
    var p, k := c.payload, ChunkOf(size, c);
    CarvedCanonical(h.free, i, size, c, h.lo, h.hi);
    forall a: int
      ensures Owns(Carved(h.free, i, size, c), a) <==> Owns(h.free, a) && !(Start(p, k) <= a < Stop(p, k))
      ensures Start(p, k) <= a < Stop(p, k) ==> Owns(h.free, a)
    {
      CarvedOwns(h.free, i, size, c, h.lo, h.hi, a);
    }
    AddChunk(h, p, k);
    assert h.live[p := k] - {p} == h.live;
  }

  // ------------------------------------------------------------------ release

  /** The number of blocks below `p`: where the loop of `memfree` stops. */
  function Position(fl: seq<Block>, p: nat): (k: nat)
    ensures k <= |fl| && (k < |fl| ==> fl[k].addr >= p)
    ensures forall j :: 0 <= j < k ==> fl[j].addr < p
  {
    if fl == [] || fl[0].addr >= p then 0 else 1 + Position(fl[1..], p)
  }

  function ExtentBlock(p: nat, c: Chunk): Block {
    Block(Start(p, c), c.size + c.off)
  }

  /** `memfree` of a live pointer. */
  function Release(h: Heap, p: nat): Heap
    requires p in h.live
  {
    var k := Position(h.free, p);
    h.(free := Merged(Insert(h.free, k, ExtentBlock(p, h.live[p])), k), live := h.live - {p})
  }

  /** A free block lies entirely on one side of a live extent. */
  lemma BlockBesideExtent(h: Heap, p: nat, j: nat)
    requires Inv(h) && p in h.live && j < |h.free|
    ensures h.free[j].addr < p ==> h.free[j].End() <= Start(p, h.live[p])
    ensures h.free[j].addr >= p ==> Stop(p, h.live[p]) <= h.free[j].addr
  {
    var b := h.free[j];
    var a := if b.addr < Start(p, h.live[p]) then Start(p, h.live[p]) else b.addr;
    if b.addr <= a < b.End() && Within(h.live, p, a) {
      assert Owns(h.free, a) && Used(h.live, a);
      assert false;
    }
  }

  /** The free blocks left and right of a live extent. */
  lemma ExtentBetween(h: Heap, p: nat)
    requires Inv(h) && p in h.live
    ensures forall j :: 0 <= j < Position(h.free, p) ==> h.free[j].End() <= Start(p, h.live[p])
    ensures forall j :: Position(h.free, p) <= j < |h.free| ==> Stop(p, h.live[p]) <= h.free[j].addr
  {
    hide Position, Start, Stop;
    var k := Position(h.free, p);
    forall j | 0 <= j < |h.free|
      ensures j < k ==> h.free[j].End() <= Start(p, h.live[p])
      ensures j >= k ==> Stop(p, h.live[p]) <= h.free[j].addr
    {
      assert k <= j ==> h.free[k].addr <= h.free[j].addr;
      BlockBesideExtent(h, p, j);
    }
  }

  lemma InsertLoose(fl: seq<Block>, k: nat, b: Block, lo: nat, hi: nat)
    requires k <= |fl| && Canonical(fl, lo, hi)
    requires lo <= b.addr && NODE_SIZE <= b.size && b.End() <= hi
    requires forall j :: 0 <= j < k ==> fl[j].End() <= b.addr
    requires forall j :: k <= j < |fl| ==> b.End() <= fl[j].addr
    ensures Loose(Insert(fl, k, b), k, lo, hi)
  {
    var r := Insert(fl, k, b);
    forall i, j | 0 <= i < j < |r|
      ensures r[i].End() <= r[j].addr
      ensures i != k && j != k ==> r[i].End() < r[j].addr
    {
      assert i != k ==> r[i] == fl[if i < k then i else i - 1];
      assert j != k ==> r[j] == fl[if j < k then j else j - 1];
    }
  }

  lemma RemoveChunk(live: map<nat, Chunk>, p: nat, a: int)
    requires p in live && ChunksDisjoint(live)
    ensures Used(live - {p}, a) <==> Used(live, a) && !Within(live, p, a)
  {
    if Used(live, a) && !Within(live, p, a) {
      var q :| q in live && Within(live, q, a);
      assert Within(live - {p}, q, a);
    }
    if Used(live - {p}, a) {
      var q :| q in live - {p} && Within(live - {p}, q, a);
      assert Within(live, q, a);
    }
  }

  /** A release gives back exactly the extent and keeps the invariant. */
  lemma ReleaseInv(h: Heap, p: nat)
    requires Inv(h) && p in h.live
    ensures Inv(Release(h, p))
    ensures forall a: int :: Owns(Release(h, p).free, a) <==> Owns(h.free, a) || Within(h.live, p, a)
  {
    var k := Position(h.free, p);
    var b := ExtentBlock(p, h.live[p]);
    ExtentBetween(h, p);
    InsertLoose(h.free, k, b, h.lo, h.hi);
    MergedCanonical(Insert(h.free, k, b), k, h.lo, h.hi);
    forall a: int
      ensures Owns(Release(h, p).free, a) <==> Owns(h.free, a) || Within(h.live, p, a)
      ensures Used(Release(h, p).live, a) <==> Used(h.live, a) && !Within(h.live, p, a)
    {
      MergedOwns(Insert(h.free, k, b), k, a);
      OwnsInsert(h.free, k, b, a);
      RemoveChunk(h.live, p, a);
    }
  }
}
