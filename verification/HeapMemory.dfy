/**
 The allocator of mem/mem.c on real bytes: nodes and headers live inside the
 blocks they describe, and every method follows the transition system `Allocator`.
 Addresses index the flat memory array; 0 is NULL.
 */
module HeapMemory {
  import opened Words
  import opened ByteMemory
  import opened Alignment
  import opened FreeList
  import opened FreeListBytes
  import opened Allocator

  /** Every live allocation carries its header in front of the payload. */
  ghost predicate Headers(m: seq<byte>, live: map<nat, Chunk>) {
    forall p :: p in live ==> Pair(m, p - HEADER_SIZE, live[p].size, live[p].off)
  }

  lemma WithTailForms(fl: seq<Block>, i: nat, size: nat, c: Cut)
    requires i < |fl|
    ensures WithTail(fl, i, size, c) ==
            fl[..i] + if c.after >= NODE_SIZE then [Block(c.payload + size, c.after)] + fl[i + 1..] else fl[i + 1..]
  {
  }

  lemma InsertParts(fl: seq<Block>, i: nat, b: Block)
    requires i <= |fl| && Apart(fl) && 1 <= b.addr && NODE_SIZE <= b.size
    requires forall j :: 0 <= j < i ==> fl[j].End() <= b.addr
    requires forall j :: i <= j < |fl| ==> b.End() <= fl[j].addr
    ensures var r := Insert(fl, i, b);
            && r == fl[..i] + ([b] + fl[i..]) && r[i] == b && i <= |r| && Before(r, i) == Before(fl, i) && Apart(r)
  {
    var r := Insert(fl, i, b);
    forall j, k | 0 <= j < k < |r|
      ensures r[j].End() <= r[k].addr
    {
      assert j != i ==> r[j] == fl[if j < i then j else j - 1];
      assert k != i ==> r[k] == fl[if k < i then k else k - 1];
    }
  }

  /** Bytes of live extents are never free, so writes to free bytes keep all headers. */
  lemma HeadersKeep(h: Heap, m: seq<byte>, n: seq<byte>)
    requires Inv(h) && Headers(m, h.live) && Same(m, n, h.free)
    ensures Headers(n, h.live)
    ensures forall q, a :: q in h.live && Within(h.live, q, a) && 0 <= a < |m| ==> n[a] == m[a]
  {
    hide Owns, Word, Canonical;
    forall q, a | q in h.live && Within(h.live, q, a) && 0 <= a < |m|
      ensures n[a] == m[a]
    {
      assert Used(h.live, a);
    }
    forall q | q in h.live
      ensures Pair(n, q - HEADER_SIZE, h.live[q].size, h.live[q].off)
    {
      assert forall a: int :: q - HEADER_SIZE <= a < q ==> Within(h.live, q, a);
      PairFrame(m, n, q - HEADER_SIZE, h.live[q].size, h.live[q].off);
    }
  }

  /** After the list has been updated, writing the header completes an allocation. */
  lemma AllocBytes(h: Heap, h': Heap, p: nat, size: nat, align: nat, c: Chunk, head: nat,
                   m: seq<byte>, m2: seq<byte>, m3: seq<byte>, m4: seq<byte>)
    requires Inv(h) && h.hi <= |m| && Headers(m, h.live) && (h', p) == Alloc(h, size, align) && p >= HEADER_SIZE
    requires Same(m, m2, h.free) && Chain(m2, head, h'.free)
    requires p in h'.live && h'.live[p] == c
    requires Poked(m2, m3, p - HEADER_SIZE + 4, c.off) && Poked(m3, m4, p - HEADER_SIZE, c.size)
    ensures Inv(h') && Chain(m4, head, h'.free) && Headers(m4, h'.live) && Same(m, m4, h.free)
    ensures forall q, a :: q in h.live && Within(h.live, q, a) && 0 <= a < |m| ==> m4[a] == m[a]
  {
    hide Alloc, Word, Owns, Used, Nodes, Same, Headers;
    AllocInv(h, size, align);
    WriteNodeBackwards(m2, m3, m4, p - HEADER_SIZE, c.size, c.off);
    HeaderOwned(h', p);
    CanonicalApart(h'.free, h'.lo, h'.hi);
    NodesKeepOwned(m2, m4, h'.free, p - HEADER_SIZE, p);
    SameOwned(m2, m4, p - HEADER_SIZE, p, h.free);
    SameTransitive(m, m2, m4, h.free);
    HeadersKeep(h, m, m4);
    HeadersGrow(m4, h.live, h'.live, p);
  }

  lemma HeadersGrow(m: seq<byte>, live: map<nat, Chunk>, live': map<nat, Chunk>, p: nat)
    requires Headers(m, live) && p in live' && live' - {p} == live
    requires Pair(m, p - HEADER_SIZE, live'[p].size, live'[p].off)
    ensures Headers(m, live')
  {
    assert forall q :: q in live' && q != p ==> q in live' - {p} && live[q] == live'[q];
  }

  lemma ExtentListApart(h: Heap, p: nat)
    requires Inv(h) && p in h.live
    ensures Apart(h.free) && Apart(Insert(h.free, Position(h.free, p), ExtentBlock(p, h.live[p])))
    ensures Below32(Insert(h.free, Position(h.free, p), ExtentBlock(p, h.live[p])))
  {
    ExtentBetween(h, p);
    CanonicalApart(h.free, h.lo, h.hi);
    InsertLoose(h.free, Position(h.free, p), ExtentBlock(p, h.live[p]), h.lo, h.hi);
  }

  /** A release writes only bytes that end up free, so the headers that stay live are kept. */
  lemma ReleaseBytes(h: Heap, h': Heap, p: nat, m: seq<byte>, m1: seq<byte>, m2: seq<byte>)
    requires Inv(h) && p in h.live && h' == Release(h, p) && Headers(m, h.live)
    requires var list := Insert(h.free, Position(h.free, p), ExtentBlock(p, h.live[p]));
             Same(m, m1, list) && Same(m1, m2, list)
    ensures Inv(h') && Headers(m2, h'.live) && Same(m, m2, h'.free)
    ensures forall q, a :: q in h'.live && Within(h'.live, q, a) && 0 <= a < |m| ==> m2[a] == m[a]
  {
    hide Owns, Merged, Word, Used;
    var k := Position(h.free, p);
    var list := Insert(h.free, k, ExtentBlock(p, h.live[p]));
    ReleaseInv(h, p);
    forall a: int
      ensures Owns(list, a) <==> Owns(h'.free, a)
    {
      MergedOwns(list, k, a);
    }
    SameTransitive(m, m1, m2, list);
    SameWiden(m, m2, list, h'.free);
    HeadersKeep(h', m, m2);
  }

  lemma HeaderOwned(h: Heap, p: nat)
    requires Inv(h) && p in h.live
    ensures forall a: int :: p - HEADER_SIZE <= a < p ==> Within(h.live, p, a) && !Owns(h.free, a)
  {
    forall a: int | p - HEADER_SIZE <= a < p
      ensures Within(h.live, p, a) && !Owns(h.free, a)
    {
      assert Within(h.live, p, a) && Used(h.live, a);
    }
  }

  class ByteHeap {
    const lo: nat
    const hi: nat
    const mem: array<byte>
    /** `free_block_head` */
    var head: nat
    ghost var free: seq<Block>
    ghost var live: map<nat, Chunk>

    ghost function State(): Heap
      reads this
    {
      Heap(lo, hi, free, live)
    }

    ghost predicate Valid()
      reads this, mem
    {
      && hi <= mem.Length
      && Inv(State())
      && Chain(mem[..], head, free)
      && Headers(mem[..], live)
    }

    function Fetch(a: nat): nat
      requires a + 4 <= mem.Length
      reads mem
    {
      Word(mem[..], a)
    }

    method Store(a: nat, w: nat)
      requires a + 4 <= mem.Length && w < TWO32
      modifies mem
      ensures Poked(old(mem[..]), mem[..], a, w)
    {
      BytesOfWord(w);
      hide ByteOf;
      mem[a] := ByteOf(w, 0);
      mem[a + 1] := ByteOf(w, 1);
      mem[a + 2] := ByteOf(w, 2);
      mem[a + 3] := ByteOf(w, 3);
    }

    /** `init_memory` */
    constructor InitMemory(memory: array<byte>, heapStart: nat, heapEnd: nat)
      requires Bounds(heapStart, heapEnd) && heapEnd <= memory.Length
      modifies memory
      ensures Valid() && mem == memory && State() == Initial(heapStart, heapEnd)
      ensures SameOutside(old(memory[..]), memory[..], heapStart, heapEnd)
    {
      lo, hi, mem := heapStart, heapEnd, memory;
      head := heapStart;
      free, live := [Block(heapStart, heapEnd - heapStart)], map[];
      new;
      Store(head, hi - lo);
      label Sized:
      Store(head + 4, 0);
      assert Word(mem[..], head) == Word(old@Sized(mem[..]), head);
      assert NodeAt(mem[..], free, 0);
      InitialInv(lo, hi);
    }

    /** `prev->next = target`, or the list head when there is no block in front. */
    method Link(prev: nat, target: nat, ghost fl: seq<Block>, ghost i: nat, ghost t: seq<Block>, ghost r: seq<Block>)
      requires i <= |fl| && Apart(fl) && Chain(mem[..], head, fl) && Nodes(mem[..], t) && r == fl[..i] + t
      requires prev == Before(fl, i) && target == At(t, 0) && target < TWO32
      requires forall j :: i > 0 && 0 <= j < |t| ==> fl[i - 1].End() <= t[j].addr
      modifies mem, `head
      ensures Chain(mem[..], head, r)
      ensures SameOutside(old(mem[..]), mem[..], prev, if i == 0 then prev else prev + 8)
    {
      if prev != 0 {
        assert NodeAt(mem[..], fl, i - 1);
        Store(prev + 4, target);
        Relinked(old(mem[..]), mem[..], fl, i - 1, t);
      } else {
        head := target;
        assert r == t;
      }
    }

    /**
     Writes the node of a new block, away from the nodes of the list `fl`, linking to
     `rest`. The two words do not overlap, so their order, which differs between
     allocation and release, makes no difference.
     */
    method PutNode(a: nat, size: nat, next: nat, ghost rest: seq<Block>, ghost fl: seq<Block>)
      requires a + 8 <= mem.Length && size < TWO32 && next == At(rest, 0) && next < TWO32
      requires Nodes(mem[..], rest) && Chain(mem[..], head, fl)
      requires forall i :: 0 <= i < |rest| ==> a + 8 <= rest[i].addr
      requires forall i :: 0 <= i < |fl| ==> fl[i].addr + 8 <= a || a + 8 <= fl[i].addr
      modifies mem
      ensures Nodes(mem[..], [Block(a, size)] + rest) && Chain(mem[..], head, fl)
      ensures SameOutside(old(mem[..]), mem[..], a, a + 8)
    {
      ghost var m := mem[..];
      Store(a, size);
      ghost var m' := mem[..];
      Store(a + 4, next);
      WriteNode(m, m', mem[..], a, size, next);
      NodesCons(m, mem[..], Block(a, size), rest);
      NodesKeep(m, mem[..], fl, a, a + 8);
    }

    /** Puts a new block in front of block `i`. */
    method InsertBlock(prev: nat, a: nat, size: nat, next: nat, ghost fl: seq<Block>, ghost i: nat, ghost r: seq<Block>)
      requires i <= |fl| && prev == Before(fl, i) && next == At(fl, i) && next < TWO32
      requires Apart(fl) && Chain(mem[..], head, fl)
      requires 1 <= a && a + 8 <= mem.Length && 8 <= size < TWO32 && a < TWO32
      requires forall j :: 0 <= j < i ==> fl[j].End() <= a
      requires forall j :: i <= j < |fl| ==> a + size <= fl[j].addr
      requires r == Insert(fl, i, Block(a, size))
      modifies mem, `head
      ensures Chain(mem[..], head, r)
      ensures Same(old(mem[..]), mem[..], r)
    {
      hide Word, Nodes, Same, Owns;
      ghost var m := mem[..];
      ghost var b, tail := Block(a, size), fl[i..];
      InsertParts(fl, i, b);
      NodesDrop(m, fl, i);
      PutNode(a, size, next, tail, fl);
      ghost var m1 := mem[..];
      Link(prev, a, fl, i, [b] + tail, r);
      hide Insert, Apart;
      OutsideIsSame(m, m1, a, a + 8, r, i);
      PrevSame(m1, mem[..], prev, r, i);
      SameTransitive(m, m1, mem[..], r);
    }

    /** `block->size` of block `i` */
    method Size(a: nat, ghost fl: seq<Block>, ghost i: nat) returns (size: nat)
      requires Nodes(mem[..], fl) && i < |fl| && a == fl[i].addr
      ensures size == fl[i].size
    {
      assert NodeAt(mem[..], fl, i);
      size := Fetch(a);
    }

    /** `block->next` of block `i` */
    method Next(a: nat, ghost fl: seq<Block>, ghost i: nat) returns (next: nat)
      requires Nodes(mem[..], fl) && i < |fl| && a == fl[i].addr
      ensures next == At(fl, i + 1) && next < TWO32
    {
      assert NodeAt(mem[..], fl, i);
      next := Fetch(a + 4);
    }

    /** `can_merge` for blocks `i` and `i + 1` */
    method CanMerge(a: nat, b: nat, ghost fl: seq<Block>, ghost i: nat) returns (r: bool)
      requires Nodes(mem[..], fl) && i + 1 < |fl| && fl[i].End() < TWO32
      requires a == fl[i].addr && b == fl[i + 1].addr
      ensures r == Touch(fl[i], fl[i + 1])
    {
      var size := Size(a, fl, i);
      r := Wrap(a + size) == b;
    }

    method MergeFlags(prev: nat, middle: nat, next: nat, ghost fl: seq<Block>, ghost k: nat)
      returns (mergePrev: bool, mergeNext: bool)
      requires Apart(fl) && Nodes(mem[..], fl) && Below32(fl)
      requires k < |fl| && prev == Before(fl, k) && middle == fl[k].addr && next == At(fl, k + 1)
      ensures mergePrev == (k > 0 && Touch(fl[k - 1], fl[k]))
      ensures mergeNext == (k + 1 < |fl| && Touch(fl[k], fl[k + 1]))
    {
      mergePrev, mergeNext := false, false;
      if prev != 0 {
        mergePrev := CanMerge(prev, middle, fl, k - 1);
      }
      if next != 0 {
        mergeNext := CanMerge(middle, next, fl, k);
      }
    }

    /** Block `k` takes over the blocks behind it up to `n`: new link, and `more` added to its size. */
    method Grow(a: nat, more: nat, next: nat, ghost fl: seq<Block>, ghost k: nat, ghost n: nat, ghost r: seq<Block>)
      requires k < n <= |fl| && Apart(fl) && Chain(mem[..], head, fl)
      requires a == fl[k].addr && next == At(fl, n) && next < TWO32 && fl[k].size + more < TWO32
      requires r == Replaced(fl, k, fl[k].size + more, n)
      modifies mem
      ensures Chain(mem[..], head, r)
      ensures Same(old(mem[..]), mem[..], fl)
    {
      hide Word, Nodes, Replaced, Same;
      NodeInMemory(mem[..], fl, k);
      ghost var m := mem[..];
      var size := Size(a, fl, k);
      Store(a + 4, next);
      ghost var m' := mem[..];
      Store(a, size + more);
      GrowNode(m, m', mem[..], fl, k, n, size + more);
    }

    /**
     `coalesce_blocks`: the two results are what is left of `*middle` and `*next`,
     NULL for a block that has been swallowed.
     */
    method CoalesceBlocks(prev: nat, middle: nat, next: nat, ghost fl: seq<Block>, ghost k: nat)
      returns (middle': nat, next': nat)
      requires Apart(fl) && Chain(mem[..], head, fl) && Below32(fl)
      requires k < |fl| && prev == Before(fl, k) && middle == fl[k].addr && next == At(fl, k + 1)
      modifies mem
      ensures Chain(mem[..], head, Merged(fl, k))
      ensures middle' == if k > 0 && Touch(fl[k - 1], fl[k]) then 0 else middle
      ensures next' == if k + 1 < |fl| && Touch(fl[k], fl[k + 1]) then 0 else next
      ensures Same(old(mem[..]), mem[..], fl)
    {
      hide Merged, Nodes, Owns, Word;
      var mergePrev, mergeNext := MergeFlags(prev, middle, next, fl, k);
      MergedForms(fl, k);
      ghost var merged := Merged(fl, k);
      if mergePrev && mergeNext {
        var nextNext := Next(next, fl, k + 1);
        var size := Size(middle, fl, k);
        var nextSize := Size(next, fl, k + 1);
        Grow(prev, size + nextSize, nextNext, fl, k - 1, k + 2, merged);
        return 0, 0;
      }
      if mergePrev {
        var size := Size(middle, fl, k);
        Grow(prev, size, next, fl, k - 1, k + 1, merged);
        return 0, next;
      }
      if mergeNext {
        var nextNext := Next(next, fl, k + 1);
        var nextSize := Size(next, fl, k + 1);
        Grow(middle, nextSize, nextNext, fl, k, k + 2, merged);
        return middle, 0;
      }
      return middle, next;
    }

    /** The search loop of `memalloc_aligned`. */
    method FindBlock(size: nat, align: nat) returns (prev: nat, curr: nat, ghost i: nat)
      requires Bounds(lo, hi) && Canonical(free, lo, hi) && Chain(mem[..], head, free)
      requires 0 < size < TWO32 && 0 < align < TWO32
      ensures i == FirstFit(free, size, align)
      ensures prev == Before(free, FirstFit(free, size, align)) && curr == At(free, FirstFit(free, size, align))
    {
      hide Word, Nodes, AlignedSize, AlignUp;
      prev, curr, i := 0, head, 0;
      while curr != 0
        invariant i <= |free| && prev == Before(free, i) && curr == At(free, i)
        invariant forall j :: 0 <= j < i ==> !Fits(free[j], size, align)
        decreases |free| - i
      {
        var blockSize := Size(curr, free, i);
        AlignedSizeIsFit(curr, blockSize, align, size);
        if AlignedSize(curr, blockSize, align) >= size {
          break;
        }
        prev := curr;
        curr := Next(curr, free, i);
        i := i + 1;
      }
    }

    /** The last `size` bytes of block `i` become a block that takes its place in the list. */
    method KeepTail(prev: nat, a: nat, size: nat, next: nat, ghost i: nat, ghost r: seq<Block>)
      requires hi <= mem.Length && Bounds(lo, hi) && Canonical(free, lo, hi) && Chain(mem[..], head, free)
      requires i < |free| && prev == Before(free, i) && next == At(free, i + 1) && next < TWO32
      requires free[i].addr + NODE_SIZE <= a && NODE_SIZE <= size && a + size == free[i].End()
      requires r == free[..i] + ([Block(a, size)] + free[i + 1..])
      modifies mem, `head
      ensures Chain(mem[..], head, r) && Same(old(mem[..]), mem[..], free)
    {
      hide Word, Nodes, Same, Owns, Apart;
      CanonicalApart(free, lo, hi);
      ghost var m, rest := mem[..], free[i + 1..];
      NodesDrop(m, free, i + 1);
      PutNode(a, size, next, rest, free);
      ghost var m1 := mem[..];
      OutsideIsSame(m, m1, a, a + 8, free, i);
      Link(prev, a, free, i, [Block(a, size)] + rest, r);
      PrevSame(m1, mem[..], prev, free, i);
      SameTransitive(m, m1, mem[..], free);
    }

    /** Block `i` leaves the list. */
    method DropBlock(prev: nat, next: nat, ghost i: nat, ghost r: seq<Block>)
      requires Bounds(lo, hi) && Canonical(free, lo, hi) && Chain(mem[..], head, free)
      requires i < |free| && prev == Before(free, i) && next == At(free, i + 1) && next < TWO32
      requires r == free[..i] + free[i + 1..]
      modifies mem, `head
      ensures Chain(mem[..], head, r) && Same(old(mem[..]), mem[..], free)
    {
      hide Word, Nodes, Same, Owns, Apart;
      CanonicalApart(free, lo, hi);
      ghost var m := mem[..];
      NodesDrop(m, free, i + 1);
      Link(prev, next, free, i, free[i + 1..], r);
      PrevSame(m, mem[..], prev, free, i);
    }

    /**
     First half of the carving: block `i` gives way to what is left behind the
     payload. Returns the size for the header, which includes lost slack.
     */
    method SplitTail(prev: nat, curr: nat, newMem: nat, size: nat, ghost i: nat, ghost c: Cut)
      returns (headerSize: nat)
      requires hi <= mem.Length && Bounds(lo, hi) && Canonical(free, lo, hi) && Chain(mem[..], head, free)
      requires i < |free| && size > 0 && prev == Before(free, i) && curr == free[i].addr
      requires c.payload == newMem && curr + c.before + HEADER_SIZE == newMem
      requires newMem + size + c.after == free[i].End()
      modifies mem, `head
      ensures Chain(mem[..], head, WithTail(free, i, size, c))
      ensures headerSize == ChunkOf(size, c).size
      ensures Same(old(mem[..]), mem[..], free)
    {
      hide Nodes, Same, WithTail;
      WithTailForms(free, i, size, c);
      headerSize := size + HEADER_SIZE;
      var currSize := Size(curr, free, i);
      var next := Next(curr, free, i);
      var freeAfter := Wrap(currSize - Wrap(newMem + size - curr));
      assert freeAfter == c.after;
      if freeAfter >= NODE_SIZE {
        KeepTail(prev, newMem - HEADER_SIZE + headerSize, freeAfter, next, i, WithTail(free, i, size, c));
      } else {
        headerSize := headerSize + freeAfter;
        DropBlock(prev, next, i, WithTail(free, i, size, c));
      }
    }

    /** Slack of `size` bytes in front of the header becomes block `i` of the list. */
    method KeepFront(prev: nat, curr: nat, size: nat, ghost rest: seq<Block>, ghost i: nat, ghost r: seq<Block>)
      requires hi <= mem.Length && Bounds(lo, hi) && Canonical(rest, lo, hi) && Chain(mem[..], head, rest)
      requires i <= |rest| && prev == Before(rest, i) && lo <= curr && NODE_SIZE <= size && curr + size <= hi
      requires forall j :: 0 <= j < i ==> rest[j].End() < curr
      requires forall j :: i <= j < |rest| ==> curr + size < rest[j].addr
      requires r == Insert(rest, i, Block(curr, size))
      modifies mem, `head
      ensures Chain(mem[..], head, r)
      ensures Same(old(mem[..]), mem[..], r)
    {
      hide Merged, Word, Nodes, Same;
      InsertCanonical(rest, i, Block(curr, size), lo, hi);
      NothingToMerge(r, i, lo, hi);
      CanonicalApart(rest, lo, hi);
      CanonicalApart(r, lo, hi);
      hide Canonical, Apart, Below32;
      var next := head;
      if prev != 0 {
        next := Next(prev, rest, i - 1);
      }
      InsertBlock(prev, curr, size, next, rest, i, r);
      ghost var m := mem[..];
      next := Next(curr, r, i);
      var curr', next' := CoalesceBlocks(prev, curr, next, r, i);
      // nothing touches the new block, so nothing has been merged or moved
      assert curr' == curr && next' == next;
      SameTransitive(old(mem[..]), m, mem[..], r);
    }

    /**
     Second half: slack in front of the header becomes a block again, or goes to
     `start_off`. The list is `rest`, block `i` being the one behind the cut.
     */
    method SplitFront(prev: nat, curr: nat, newMem: nat, ghost rest: seq<Block>, ghost i: nat, ghost r: seq<Block>)
      returns (startOff: nat)
      requires hi <= mem.Length && Bounds(lo, hi) && Canonical(rest, lo, hi) && Chain(mem[..], head, rest)
      requires i <= |rest| && prev == Before(rest, i) && lo <= curr && curr + HEADER_SIZE <= newMem < hi
      requires forall j :: 0 <= j < i ==> rest[j].End() < curr
      requires forall j :: i <= j < |rest| ==> newMem < rest[j].addr
      requires var before := newMem - HEADER_SIZE - curr;
               r == if before >= NODE_SIZE then Insert(rest, i, Block(curr, before)) else rest
      modifies mem, `head
      ensures Chain(mem[..], head, r)
      ensures startOff == if newMem - HEADER_SIZE - curr >= NODE_SIZE then 0 else newMem - HEADER_SIZE - curr
      ensures Same(old(mem[..]), mem[..], r)
    {
      var freeBefore := Wrap(Wrap(newMem - curr) - HEADER_SIZE);
      assert freeBefore == newMem - HEADER_SIZE - curr;
      if freeBefore >= NODE_SIZE {
        KeepFront(prev, curr, freeBefore, rest, i, r);
        startOff := 0;
      } else {
        startOff := freeBefore;
      }
    }

    /**
     `memalloc_aligned`. The heap follows `Alloc`, and only bytes that were free
     are written: headers and payloads of other allocations, and everything
     outside the heap, stay as they are.
     */
    method MemallocAligned(size: nat, align: nat) returns (p: nat)
      requires Valid() && size < TWO32 && align < TWO32
      modifies this, mem
      ensures Valid() && (State(), p) == Alloc(old(State()), size, align)
      ensures Same(old(mem[..]), mem[..], old(free))
      ensures forall q, a :: q in old(live) && Within(old(live), q, a) && 0 <= a < mem.Length ==>
                               mem[a] == old(mem[a])
    {
      if size == 0 || align == 0 {
        return 0;
      }
      hide Word, Nodes, Same, Owns, Used, Headers;
      var prev, curr;
      ghost var i;
      prev, curr, i := FindBlock(size, align);
      if curr == 0 {
        return 0;
      }
      p := TakeFrom(prev, curr, size, align, i);
    }

    /** `memalloc` with its default alignment of a pointer. */
    method Memalloc(size: nat) returns (p: nat)
      requires Valid() && size < TWO32
      modifies this, mem
      ensures Valid() && (State(), p) == Alloc(old(State()), size, 4)
      ensures Same(old(mem[..]), mem[..], old(free))
    {
      p := MemallocAligned(size, 4);
    }

    /** Both halves of the carving. */
    method Carve(prev: nat, curr: nat, newMem: nat, size: nat, ghost i: nat, ghost c: Cut)
      returns (startOff: nat, headerSize: nat)
      requires hi <= mem.Length && Bounds(lo, hi) && Canonical(free, lo, hi) && Chain(mem[..], head, free)
      requires i < |free| && size > 0 && prev == Before(free, i) && curr == free[i].addr
      requires c.payload == newMem && curr + c.before + HEADER_SIZE == newMem
      requires newMem + size + c.after == free[i].End()
      modifies mem, `head
      ensures Chain(mem[..], head, Carved(free, i, size, c))
      ensures Chunk(startOff, headerSize) == ChunkOf(size, c)
      ensures Same(old(mem[..]), mem[..], free)
    {
      hide Word, Nodes, Same, Owns, WithTail;
      ghost var m := mem[..];
      ghost var rest, list := WithTail(free, i, size, c), Carved(free, i, size, c);
      WithTailCanonical(free, i, size, c, lo, hi);
      headerSize := SplitTail(prev, curr, newMem, size, i, c);
      ghost var m1 := mem[..];
      startOff := SplitFront(prev, curr, newMem, rest, i, list);
      forall a: int
        ensures Owns(list, a) ==> Owns(free, a)
      {
        CarvedOwns(free, i, size, c, lo, hi, a);
      }
      SameWiden(m1, mem[..], list, free);
      SameTransitive(m, m1, mem[..], free);
    }

    /** Carves the block the search has found and writes the header. */
    method TakeFrom(prev: nat, curr: nat, size: nat, align: nat, ghost i: nat) returns (p: nat)
      requires Valid() && 0 < size < TWO32 && 0 < align < TWO32
      requires i == FirstFit(free, size, align) < |free| && prev == Before(free, i) && curr == free[i].addr
      modifies this, mem
      ensures Valid() && (State(), p) == Alloc(old(State()), size, align)
      ensures Same(old(mem[..]), mem[..], old(free))
      ensures forall q, a :: q in old(live) && Within(old(live), q, a) && 0 <= a < mem.Length ==>
                               mem[a] == old(mem[a])
    {
      hide Word, Nodes, Same, Owns, Used, Headers, FirstFit, AlignUp, AlignedSize, Carved;
      ghost var h, m := State(), mem[..];
      AlignedSizeIsFit(curr, free[i].size, align, size);
      p := AlignedMemStart(curr, align);
      assert p != 0;  // the NULL test behind the search never fires
      ghost var c := CutOf(free[i], size, align);
      ghost var h' := Alloc(h, size, align).0;
      assert h' == Heap(lo, hi, Carved(free, i, size, c), live[p := ChunkOf(size, c)]);
      var startOff, headerSize := Carve(prev, curr, p, size, i, c);
      hide Alloc, Inv;
      // the header may overlap the old node of the block, which is no longer needed
      ghost var m2 := mem[..];
      Store(p - HEADER_SIZE + 4, startOff);
      ghost var m3 := mem[..];
      Store(p - HEADER_SIZE, headerSize);
      AllocBytes(h, h', p, size, align, Chunk(startOff, headerSize), head, m, m2, m3, mem[..]);
      free, live := h'.free, h'.live;
    }

    /**
     `memfree`. The heap follows `Release`, and only bytes that are free
     afterwards are written. NULL is ignored; any other argument has to be live.
     */
    method Memfree(ptr: nat)
      requires Valid() && (ptr == 0 || ptr in live)
      modifies this, mem
      ensures Valid() && State() == if ptr == 0 then old(State()) else Release(old(State()), ptr)
      ensures Same(old(mem[..]), mem[..], free)
      ensures forall q, a :: q in live && Within(live, q, a) && 0 <= a < mem.Length ==> mem[a] == old(mem[a])
    {
      if ptr == 0 {
        return;
      }
      hide Word, Nodes, Same, Owns, Used, Headers, Inv, Release;
      GiveBack(ptr);
    }

    /** The search loop of `memfree`. */
    method FindPosition(ptr: nat) returns (prev: nat, curr: nat, ghost k: nat)
      requires Bounds(lo, hi) && Canonical(free, lo, hi) && Chain(mem[..], head, free)
      ensures k == Position(free, ptr) && prev == Before(free, k) && curr == At(free, k) && curr < TWO32
    {
      hide Word, Nodes;
      prev, curr, k := 0, head, 0;
      while curr != 0 && curr < ptr
        invariant k <= |free| && prev == Before(free, k) && curr == At(free, k) && curr < TWO32
        invariant forall j :: 0 <= j < k ==> free[j].addr < ptr
        decreases |free| - k
      {
        prev := curr;
        curr := Next(curr, free, k);
        k := k + 1;
      }
    }

    /** Puts the extent of `ptr` back into the list, not yet merged with its neighbours. */
    method Reinsert(ptr: nat, ghost list: seq<Block>, ghost k: nat) returns (prev: nat, middle: nat, next: nat)
      requires Valid() && ptr in live
      requires k == Position(free, ptr) && list == Insert(free, k, ExtentBlock(ptr, live[ptr]))
      modifies mem, `head
      ensures Chain(mem[..], head, list) && Same(old(mem[..]), mem[..], list)
      ensures prev == Before(list, k) && middle == list[k].addr && next == At(list, k + 1)
    {
      hide Word, Nodes, Same, Owns, Used, Position, Apart, Below32;
      ghost var j;
      prev, next, j := FindPosition(ptr);
      // read before the node is written: the node may overlap the header
      var size, startOff := ReadHeader(ptr);
      ExtentBetween(State(), ptr);
      ExtentListApart(State(), ptr);
      hide Canonical, Inv;
      middle := ptr - HEADER_SIZE - startOff;
      assert ExtentBlock(ptr, live[ptr]) == Block(middle, size + startOff);
      InsertBlock(prev, middle, size + startOff, next, free, k, list);
    }

    method GiveBack(ptr: nat)
      requires Valid() && ptr in live
      modifies this, mem
      ensures Valid() && State() == Release(old(State()), ptr)
      ensures Same(old(mem[..]), mem[..], free)
      ensures forall q, a :: q in live && Within(live, q, a) && 0 <= a < mem.Length ==> mem[a] == old(mem[a])
    {
      hide Word, Nodes, Same, Owns, Used, Merged, Headers, Position, Apart, Below32;
      ghost var h, m := State(), mem[..];
      ghost var k := Position(free, ptr);
      ghost var list := Insert(free, k, ExtentBlock(ptr, live[ptr]));
      ghost var h' := Release(h, ptr);
      assert h' == Heap(lo, hi, Merged(list, k), live - {ptr});
      ExtentListApart(h, ptr);
      var prev, middle, next := Reinsert(ptr, list, k);
      hide Inv, Release, Insert;
      ghost var m1 := mem[..];
      var middle', next' := CoalesceBlocks(prev, middle, next, list, k);
      ReleaseBytes(h, h', ptr, m, m1, mem[..]);
      free, live := h'.free, h'.live;
    }

    method ReadHeader(ptr: nat) returns (size: nat, off: nat)
      requires Valid() && ptr in live
      ensures size == live[ptr].size && off == live[ptr].off
    {
      assert Pair(mem[..], ptr - HEADER_SIZE, live[ptr].size, live[ptr].off);
      size, off := Fetch(ptr - HEADER_SIZE), Fetch(ptr - HEADER_SIZE + 4);
    }

    /** A client stores a byte inside one of its payloads: the allocator does not notice. */
    method ClientStore(p: nat, a: nat, v: byte)
      requires Valid() && p in live && p <= a < Stop(p, live[p])
      modifies mem
      ensures Valid() && mem[..] == old(mem[..])[a := v]
    {
      hide Word, Nodes, Owns;
      ghost var m := mem[..];
      assert Within(live, p, a) && Used(live, a);
      mem[a] := v;
      assert SameOutside(m, mem[..], a, a + 1);
      CanonicalApart(free, lo, hi);
      NodesKeepOwned(m, mem[..], free, a, a + 1);
      forall q | q in live
        ensures Pair(mem[..], q - HEADER_SIZE, live[q].size, live[q].off)
      {
        PairFrame(m, mem[..], q - HEADER_SIZE, live[q].size, live[q].off);
      }
    }
  }

  /**
   What lies in the bytes: each free block begins with its size and the address of
   the next one or NULL, the first being the head; the header in front of each
   payload is the size of header, payload and back slack, then the front slack.
   */
  lemma Layout(heap: ByteHeap)
    requires heap.Valid()
    ensures heap.head == if heap.free == [] then 0 else heap.free[0].addr
    ensures forall i :: 0 <= i < |heap.free| ==> NodeBytes(heap.mem[..], heap.free, i)
    ensures forall p :: p in heap.live ==> HeaderBytes(heap.mem[..], p, heap.live[p])
  {
    hide Word;
    forall i | 0 <= i < |heap.free|
      ensures NodeBytes(heap.mem[..], heap.free, i)
    {
      assert NodeAt(heap.mem[..], heap.free, i);
    }
    forall p | p in heap.live
      ensures HeaderBytes(heap.mem[..], p, heap.live[p])
    {
      assert Pair(heap.mem[..], p - HEADER_SIZE, heap.live[p].size, heap.live[p].off);
    }
  }

  ghost predicate NodeBytes(m: seq<byte>, fl: seq<Block>, i: nat)
    requires i < |fl|
  {
    && fl[i].addr + 8 <= |m| && Word(m, fl[i].addr) == fl[i].size
    && Word(m, fl[i].addr + 4) == if i + 1 < |fl| then fl[i + 1].addr else 0
  }

  ghost predicate HeaderBytes(m: seq<byte>, p: nat, c: Chunk) {
    8 <= p <= |m| && Word(m, p - 8) == c.size && Word(m, p - 4) == c.off
  }
}
