/**
 The address-ordered free list as a value: a sequence of blocks, the set of
 bytes it owns, and the canonical form the allocator maintains.
 */
module FreeList {
  import opened Alignment

  datatype Block = Block(addr: nat, size: nat) {
    function End(): nat {
      addr + size
    }
  }

  /** Byte `a` belongs to one of the blocks. */
  ghost predicate Owns(fl: seq<Block>, a: int) {
    exists i :: 0 <= i < |fl| && fl[i].addr <= a < fl[i].End()
  }

  ghost predicate InBounds(fl: seq<Block>, lo: nat, hi: nat) {
    forall i :: 0 <= i < |fl| ==> lo <= fl[i].addr && NODE_SIZE <= fl[i].size && fl[i].End() <= hi
  }

  /** Strictly ascending and disjoint; neighbours may touch. */
  ghost predicate Sorted(fl: seq<Block>) {
    forall i, j :: 0 <= i < j < |fl| ==> fl[i].End() <= fl[j].addr
  }

  /** Ascending with a gap between any two blocks: nothing is left to coalesce. */
  ghost predicate Canonical(fl: seq<Block>, lo: nat, hi: nat) {
    InBounds(fl, lo, hi) && forall i, j :: 0 <= i < j < |fl| ==> fl[i].End() < fl[j].addr
  }

  lemma OwnsConcat(x: seq<Block>, y: seq<Block>, a: int)
    ensures Owns(x + y, a) <==> Owns(x, a) || Owns(y, a)
  {
    if Owns(x, a) {
      var i :| 0 <= i < |x| && x[i].addr <= a < x[i].End();
      assert (x + y)[i] == x[i];
    }
    if Owns(y, a) {
      var i :| 0 <= i < |y| && y[i].addr <= a < y[i].End();
      assert (x + y)[|x| + i] == y[i];
    }
  }

  lemma OwnsOne(b: Block, a: int)
    ensures Owns([b], a) <==> b.addr <= a < b.End()
  {
    assert [b][0] == b;
  }

  lemma OwnsFirst(fl: seq<Block>, lo: nat, hi: nat, a: int)
    requires fl != [] && Canonical(fl, lo, hi)
    ensures Owns(fl[1..], a) <==> Owns(fl, a) && a >= fl[0].End()
    ensures Owns(fl, a) ==> a >= fl[0].addr
  {
    assert fl == [fl[0]] + fl[1..];
    OwnsConcat([fl[0]], fl[1..], a);
    OwnsOne(fl[0], a);
  }

  lemma OwnsStart(fl: seq<Block>, lo: nat, hi: nat)
    requires Canonical(fl, lo, hi)
    ensures if fl == [] then forall a: int :: !Owns(fl, a) else Owns(fl, fl[0].addr) && Canonical(fl[1..], lo, hi)
  {
  }

  /** The canonical list is determined by the bytes it owns. */
  lemma {:induction false} CanonicalUnique(x: seq<Block>, y: seq<Block>, lo: nat, hi: nat)
    requires Canonical(x, lo, hi) && Canonical(y, lo, hi)
    requires forall a: int :: Owns(x, a) <==> Owns(y, a)
    ensures x == y
  {
    hide Owns, Canonical;
    OwnsStart(x, lo, hi);
    OwnsStart(y, lo, hi);
    if x != [] {
      SameFirst(x, y, lo, hi);
      SameFirst(y, x, lo, hi);
      forall a: int
        ensures Owns(x[1..], a) <==> Owns(y[1..], a)
      {
        OwnsFirst(x, lo, hi, a);
        OwnsFirst(y, lo, hi, a);
      }
      CanonicalUnique(x[1..], y[1..], lo, hi);
      assert x == [x[0]] + x[1..] && y == [y[0]] + y[1..];
    }
  }

  lemma SameFirst(x: seq<Block>, y: seq<Block>, lo: nat, hi: nat)
    requires x != [] && y != [] && Canonical(x, lo, hi) && Canonical(y, lo, hi)
    requires forall a: int :: Owns(x, a) <==> Owns(y, a)
    ensures x[0].addr <= y[0].addr
    ensures x[0].addr == y[0].addr ==> x[0].End() >= y[0].End()
  {
    assert Owns(y, y[0].addr);
    OwnsFirst(x, lo, hi, y[0].addr);
    if x[0].addr == y[0].addr && x[0].End() < y[0].End() {
      // the byte right behind the first block of x cannot be in x
      assert Owns(y, x[0].End());
      assert false;
    }
  }

  /** `can_merge` on the two blocks. */
  predicate Touch(a: Block, b: Block) {
    a.End() == b.addr
  }

  /** Blocks `k` and `k + 1` become one. */
  function Fuse(fl: seq<Block>, k: nat): (r: seq<Block>)
    requires k + 1 < |fl|
    ensures |r| == |fl| - 1
    ensures r[k].addr == fl[k].addr && r[k].End() == fl[k].End() + fl[k + 1].size
    ensures forall i :: 0 <= i < k ==> r[i] == fl[i]
    ensures forall i :: k < i < |r| ==> r[i] == fl[i + 1]
  {
    fl[..k] + [Block(fl[k].addr, fl[k].size + fl[k + 1].size)] + fl[k + 2..]
  }

  function MergeNext(fl: seq<Block>, k: nat): (r: seq<Block>)
    requires k < |fl|
    ensures k < |r|
  {
    if k + 1 < |fl| && Touch(fl[k], fl[k + 1]) then Fuse(fl, k) else fl
  }

  function MergePrev(fl: seq<Block>, k: nat): seq<Block>
    requires k < |fl|
  {
    if k > 0 && Touch(fl[k - 1], fl[k]) then Fuse(fl, k - 1) else fl
  }

  /** What `coalesce_blocks` makes of block `k` and its neighbours. */
  function Merged(fl: seq<Block>, k: nat): seq<Block>
    requires k < |fl|
  {
    MergePrev(MergeNext(fl, k), k)
  }

  function Insert(fl: seq<Block>, k: nat, b: Block): seq<Block>
    requires k <= |fl|
  {
    fl[..k] + [b] + fl[k..]
  }

  lemma OwnsInsert(fl: seq<Block>, k: nat, b: Block, a: int)
    requires k <= |fl|
    ensures Owns(Insert(fl, k, b), a) <==> Owns(fl, a) || b.addr <= a < b.End()
  {
    assert fl == fl[..k] + fl[k..];
    OwnsConcat(fl[..k], fl[k..], a);
    OwnsConcat(fl[..k] + [b], fl[k..], a);
    OwnsConcat(fl[..k], [b], a);
    OwnsOne(b, a);
  }

  /** Fusing two touching blocks keeps the owned bytes. */
  lemma FuseOwns(fl: seq<Block>, k: nat, a: int)
    requires k + 1 < |fl| && Touch(fl[k], fl[k + 1])
    ensures Owns(Fuse(fl, k), a) <==> Owns(fl, a)
  {
    hide Owns;
    var p, s, x, y := fl[..k], fl[k + 2..], fl[k], fl[k + 1];
    var z := Block(x.addr, x.size + y.size);
    assert fl == p + ([x] + ([y] + s));
    OwnsConcat(p, [x] + ([y] + s), a);
    OwnsConcat([x], [y] + s, a);
    OwnsConcat([y], s, a);
    assert Fuse(fl, k) == p + ([z] + s);
    OwnsConcat(p, [z] + s, a);
    OwnsConcat([z], s, a);
    OwnsOne(x, a);
    OwnsOne(y, a);
    OwnsOne(z, a);
  }

  lemma MergedOwns(fl: seq<Block>, k: nat, a: int)
    requires k < |fl|
    ensures Owns(Merged(fl, k), a) <==> Owns(fl, a)
  {
    hide Owns, Fuse;
    var g := MergeNext(fl, k);
    if g != fl {
      FuseOwns(fl, k, a);
    }
    if MergePrev(g, k) != g {
      FuseOwns(g, k - 1, a);
    }
  }

  /** Sorted, with gaps everywhere except perhaps around block `k`. */
  ghost predicate Loose(fl: seq<Block>, k: nat, lo: nat, hi: nat) {
    && InBounds(fl, lo, hi) && Sorted(fl)
    && forall i, j :: 0 <= i < j < |fl| && i != k && j != k ==> fl[i].End() < fl[j].addr
  }

  lemma MergeNextLoose(fl: seq<Block>, k: nat, lo: nat, hi: nat)
    requires k < |fl| && Loose(fl, k, lo, hi)
    ensures Loose(MergeNext(fl, k), k, lo, hi)
    ensures forall j :: k < j < |MergeNext(fl, k)| ==> MergeNext(fl, k)[k].End() < MergeNext(fl, k)[j].addr
  {
    if k + 1 < |fl| && Touch(fl[k], fl[k + 1]) {
      FuseLoose(fl, k, lo, hi);
    } else {
      forall j | k < j < |fl|
        ensures fl[k].End() < fl[j].addr
      {
        assert fl[k].End() < fl[k + 1].addr <= fl[j].addr;
      }
    }
  }

  lemma FuseLoose(fl: seq<Block>, k: nat, lo: nat, hi: nat)
    requires k + 1 < |fl| && Loose(fl, k, lo, hi) && Touch(fl[k], fl[k + 1])
    ensures Loose(Fuse(fl, k), k, lo, hi)
    ensures forall j :: k < j < |Fuse(fl, k)| ==> Fuse(fl, k)[k].End() < Fuse(fl, k)[j].addr
  {
    hide Fuse;
    var g := Fuse(fl, k);
    forall i, j | 0 <= i < j < |g|
      ensures g[i].End() <= g[j].addr
      ensures i == k || j != k ==> g[i].End() < g[j].addr
    {
      // the blocks of fl whose end and start are compared
      var i', j' := if i < k then i else i + 1, if j <= k then j else j + 1;
      assert g[i].End() == fl[i'].End() && g[j].addr == fl[j'].addr;
      assert fl[i'].End() <= fl[j'].addr;
    }
  }

  lemma MergePrevCanonical(fl: seq<Block>, k: nat, lo: nat, hi: nat)
    requires k < |fl| && Loose(fl, k, lo, hi)
    requires forall j :: k < j < |fl| ==> fl[k].End() < fl[j].addr
    ensures Canonical(MergePrev(fl, k), lo, hi)
  {
    hide Fuse;
    var g := MergePrev(fl, k);
    if k > 0 && Touch(fl[k - 1], fl[k]) {
      forall i, j | 0 <= i < j < |g|
        ensures g[i].End() < g[j].addr
      {
        var i', j' := if i < k - 1 then i else i + 1, if j <= k - 1 then j else j + 1;
        assert g[i].End() == fl[i'].End() && g[j].addr == fl[j'].addr;
      }
    } else {
      forall i, j | 0 <= i < j < |g|
        ensures g[i].End() < g[j].addr
      {
        if j == k {
          assert i < k - 1 ==> fl[i].End() < fl[k - 1].addr <= fl[k - 1].End() <= fl[k].addr;
        }
      }
    }
  }

  /** Coalescing around a freshly inserted block restores the canonical form. */
  lemma MergedCanonical(fl: seq<Block>, k: nat, lo: nat, hi: nat)
    requires k < |fl| && Loose(fl, k, lo, hi)
    ensures Canonical(Merged(fl, k), lo, hi)
  {
    MergeNextLoose(fl, k, lo, hi);
    MergePrevCanonical(MergeNext(fl, k), k, lo, hi);
  }
}
