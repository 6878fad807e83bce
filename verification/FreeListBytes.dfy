/** The free list as it lies in memory: each block starts with its size and the address of the next. */
module FreeListBytes {
  import opened Words
  import opened ByteMemory
  import opened Alignment
  import opened FreeList

  /** Address of block `i`, or NULL behind the last one. */
  function At(fl: seq<Block>, i: nat): nat {
    if i < |fl| then fl[i].addr else 0
  }

  ghost predicate NodeAt(m: seq<byte>, fl: seq<Block>, i: nat)
    requires i < |fl|
  {
    Pair(m, fl[i].addr, fl[i].size, At(fl, i + 1))
  }

  /** Every block of `fl` carries its node, the last one linking to NULL. */
  ghost predicate Nodes(m: seq<byte>, fl: seq<Block>) {
    forall i :: 0 <= i < |fl| ==> NodeAt(m, fl, i)
  }

  ghost predicate Chain(m: seq<byte>, head: nat, fl: seq<Block>) {
    head == At(fl, 0) && Nodes(m, fl)
  }

  /** Blocks in order and large enough for their nodes. */
  ghost predicate Apart(fl: seq<Block>) {
    Sorted(fl) && forall i :: 0 <= i < |fl| ==> 1 <= fl[i].addr && NODE_SIZE <= fl[i].size
  }

  /** Address of the block in front of block `i`, or NULL. */
  function Before(fl: seq<Block>, i: nat): nat {
    if 0 < i <= |fl| then fl[i - 1].addr else 0
  }

  /** The two memories differ only in bytes that `fl` owns. */
  ghost predicate Same(m: seq<byte>, n: seq<byte>, fl: seq<Block>) {
    |m| == |n| && forall a :: 0 <= a < |m| && !Owns(fl, a) ==> m[a] == n[a]
  }

  /** The two memories differ only in `[from, to)`. */
  ghost predicate SameOutside(m: seq<byte>, n: seq<byte>, from: int, to: int) {
    |m| == |n| && forall a :: 0 <= a < |m| && !(from <= a < to) ==> m[a] == n[a]
  }

  /** Writes that miss every node leave the list in place. */
  lemma NodesKeep(m: seq<byte>, n: seq<byte>, fl: seq<Block>, from: int, to: int)
    requires Nodes(m, fl) && SameOutside(m, n, from, to)
    requires forall i :: 0 <= i < |fl| ==> fl[i].addr + 8 <= from || to <= fl[i].addr
    ensures Nodes(n, fl)
  {
    forall i | 0 <= i < |fl|
      ensures NodeAt(n, fl, i)
    {
      assert NodeAt(m, fl, i);
      PairFrame(m, n, fl[i].addr, fl[i].size, At(fl, i + 1));
    }
  }

  lemma NodesDrop(m: seq<byte>, fl: seq<Block>, k: nat)
    requires Nodes(m, fl) && k <= |fl|
    ensures Nodes(m, fl[k..])
  {
    var r := fl[k..];
    forall i | 0 <= i < |r|
      ensures NodeAt(m, r, i)
    {
      assert NodeAt(m, fl, k + i);
      assert At(fl, k + i + 1) == At(r, i + 1);
    }
  }

  /** A node written outside the old ones, linking to the front of the list. */
  lemma NodesCons(m: seq<byte>, n: seq<byte>, b: Block, fl: seq<Block>)
    requires Nodes(m, fl)
    requires forall i :: 0 <= i < |fl| ==> b.addr + 8 <= fl[i].addr
    requires SameOutside(m, n, b.addr, b.addr + 8)
    requires Pair(n, b.addr, b.size, At(fl, 0))
    ensures Nodes(n, [b] + fl)
  {
    var r := [b] + fl;
    forall i | 0 <= i < |r|
      ensures NodeAt(n, r, i)
    {
      if i > 0 {
        assert NodeAt(m, fl, i - 1);
        PairFrame(m, n, fl[i - 1].addr, fl[i - 1].size, At(fl, i));
      }
    }
  }

  /** Redirecting the link of block `l` from one suffix to another. */
  lemma Relinked(m: seq<byte>, n: seq<byte>, fl: seq<Block>, l: nat, t: seq<Block>)
    requires l < |fl| && Apart(fl) && Nodes(m, fl) && Nodes(m, t)
    requires forall i :: 0 <= i < |t| ==> fl[l].End() <= t[i].addr
    requires Poked(m, n, fl[l].addr + 4, At(t, 0))
    ensures Nodes(n, fl[..l + 1] + t)
  {
    var b, w := fl[l].addr + 4, At(t, 0);
    var r := fl[..l + 1] + t;
    forall i | 0 <= i < |r|
      ensures NodeAt(n, r, i)
    {
      assert i <= l ==> NodeAt(m, fl, i);
      if i < l {
        assert fl[i].End() <= fl[l].addr;
        PokeFrame(m, n, b, w, fl[i].addr, fl[i].size, At(fl, i + 1));
      } else if i == l {
        PokeSecond(m, n, fl[l].addr, fl[l].size, At(fl, l + 1), w);
      } else {
        var j := i - l - 1;
        assert NodeAt(m, t, j);
        PokeFrame(m, n, b, w, t[j].addr, t[j].size, At(t, j + 1));
        assert r[i] == t[j] && At(r, i + 1) == At(t, j + 1);
      }
    }
  }

  /** Rewriting the first node of a run `x` so that it stands for the whole run. */
  lemma ReplaceRun(m: seq<byte>, n: seq<byte>, p: seq<Block>, x: seq<Block>, z: Block, s: seq<Block>)
    requires x != [] && x[0].addr == z.addr && Apart(p + x + s) && Nodes(m, p + x + s)
    requires SameOutside(m, n, z.addr, z.addr + 8)
    requires Pair(n, z.addr, z.size, At(s, 0))
    ensures Nodes(n, p + [z] + s)
  {
    var f, r := p + x + s, p + [z] + s;
    assert f[|p|] == x[0];
    forall i | 0 <= i < |r|
      ensures NodeAt(n, r, i)
    {
      if i < |p| {
        assert NodeAt(m, f, i);
        assert f[i] == r[i] && At(f, i + 1) == At(r, i + 1);
        PairFrame(m, n, f[i].addr, f[i].size, At(f, i + 1));
      } else if i > |p| {
        var j := i - 1 + |x|;
        assert NodeAt(m, f, j);
        assert f[j] == r[i] && At(f, j + 1) == At(r, i + 1);
        PairFrame(m, n, f[j].addr, f[j].size, At(f, j + 1));
      }
    }
  }

  /** Two stores that write a fresh node, first word first. */
  lemma WriteNode(m: seq<byte>, m': seq<byte>, n: seq<byte>, a: nat, first: nat, second: nat)
    requires Poked(m, m', a, first) && Poked(m', n, a + 4, second)
    ensures Pair(n, a, first, second) && SameOutside(m, n, a, a + 8)
  {
  }

  /** The other order, as `memfree` and `coalesce_blocks` do it. */
  lemma WriteNodeBackwards(m: seq<byte>, m': seq<byte>, n: seq<byte>, a: nat, first: nat, second: nat)
    requires Poked(m, m', a + 4, second) && Poked(m', n, a, first)
    ensures Pair(n, a, first, second) && SameOutside(m, n, a, a + 8)
  {
  }

  /** Blocks `k` up to `n` replaced by one block of `size` bytes. */
  function Replaced(fl: seq<Block>, k: nat, size: nat, n: nat): seq<Block>
    requires k < n <= |fl|
  {
    fl[..k] + [Block(fl[k].addr, size)] + fl[n..]
  }

  lemma OutsideIsSame(m: seq<byte>, n: seq<byte>, from: int, to: int, fl: seq<Block>, i: nat)
    requires SameOutside(m, n, from, to) && i < |fl| && fl[i].addr <= from && to <= fl[i].End()
    ensures Same(m, n, fl)
  {
    assert forall x :: from <= x < to ==> Owns(fl, x);
  }

  /** The three ways of merging, each as the single node the code rewrites. */
  lemma MergedForms(fl: seq<Block>, k: nat)
    requires k < |fl|
    ensures var p, n := k > 0 && Touch(fl[k - 1], fl[k]), k + 1 < |fl| && Touch(fl[k], fl[k + 1]);
            && (p && n ==> Merged(fl, k) == Replaced(fl, k - 1, fl[k - 1].size + fl[k].size + fl[k + 1].size, k + 2))
            && (p && !n ==> Merged(fl, k) == Replaced(fl, k - 1, fl[k - 1].size + fl[k].size, k + 1))
            && (!p && n ==> Merged(fl, k) == Replaced(fl, k, fl[k].size + fl[k + 1].size, k + 2))
            && (!p && !n ==> Merged(fl, k) == fl)
  {
    var g := MergeNext(fl, k);
    if g != fl && k > 0 {
      assert g[k + 1..] == fl[k + 2..] && g[..k - 1] == fl[..k - 1];
    }
  }

  ghost predicate Below32(fl: seq<Block>) {
    forall i :: 0 <= i < |fl| ==> fl[i].End() < TWO32
  }

  lemma CanonicalApart(fl: seq<Block>, lo: nat, hi: nat)
    requires Canonical(fl, lo, hi) && 1 <= lo && hi < TWO32
    ensures Apart(fl) && Below32(fl)
  {
  }

  /** In a canonical list coalescing finds nothing to do. */
  lemma NothingToMerge(fl: seq<Block>, k: nat, lo: nat, hi: nat)
    requires k < |fl| && Canonical(fl, lo, hi)
    ensures Merged(fl, k) == fl
    ensures !(k > 0 && Touch(fl[k - 1], fl[k])) && !(k + 1 < |fl| && Touch(fl[k], fl[k + 1]))
  {
  }

  lemma NodeInMemory(m: seq<byte>, fl: seq<Block>, i: nat)
    requires Nodes(m, fl) && i < |fl|
    ensures fl[i].addr + 8 <= |m|
  {
    assert NodeAt(m, fl, i);
  }

  /** Rewriting the node of block `k` as the block that also stands for the ones up to `n`. */
  lemma GrowNode(m: seq<byte>, m': seq<byte>, m'': seq<byte>, fl: seq<Block>, k: nat, n: nat, size: nat)
    requires k < n <= |fl| && Apart(fl) && Nodes(m, fl) && size >= NODE_SIZE
    requires Poked(m, m', fl[k].addr + 4, At(fl, n)) && Poked(m', m'', fl[k].addr, size)
    ensures Nodes(m'', Replaced(fl, k, size, n)) && Same(m, m'', fl)
    ensures At(Replaced(fl, k, size, n), 0) == At(fl, 0)
  {
    var a := fl[k].addr;
    WriteNodeBackwards(m, m', m'', a, size, At(fl, n));
    assert fl == fl[..k] + fl[k..n] + fl[n..];
    ReplaceRun(m, m'', fl[..k], fl[k..n], Block(a, size), fl[n..]);
    OutsideIsSame(m, m'', a, a + 8, fl, k);
  }

  lemma SameOwned(m: seq<byte>, n: seq<byte>, from: int, to: int, fl: seq<Block>)
    requires SameOutside(m, n, from, to) && forall a: int :: from <= a < to ==> Owns(fl, a)
    ensures Same(m, n, fl)
  {
  }

  lemma PrevSame(m: seq<byte>, n: seq<byte>, prev: nat, fl: seq<Block>, i: nat)
    requires i <= |fl| && Apart(fl) && prev == Before(fl, i)
    requires SameOutside(m, n, prev, if i == 0 then prev else prev + 8)
    ensures Same(m, n, fl)
  {
    assert i > 0 ==> forall x :: prev <= x < prev + 8 ==> Owns(fl, x);
  }

  lemma SameTransitive(m: seq<byte>, m': seq<byte>, m'': seq<byte>, fl: seq<Block>)
    requires Same(m, m', fl) && Same(m', m'', fl)
    ensures Same(m, m'', fl)
  {
  }

  lemma SameWiden(m: seq<byte>, n: seq<byte>, x: seq<Block>, y: seq<Block>)
    requires Same(m, n, x) && forall a: int :: Owns(x, a) ==> Owns(y, a)
    ensures Same(m, n, y)
  {
  }

  /** Writes to bytes that no block owns leave the list in place. */
  lemma NodesKeepOwned(m: seq<byte>, n: seq<byte>, fl: seq<Block>, from: int, to: int)
    requires Nodes(m, fl) && Apart(fl) && SameOutside(m, n, from, to)
    requires from < to && forall a: int :: from <= a < to ==> !Owns(fl, a)
    ensures Nodes(n, fl)
  {
    forall i | 0 <= i < |fl|
      ensures fl[i].addr + 8 <= from || to <= fl[i].addr
    {
      var x := if fl[i].addr < from then from else fl[i].addr;
      assert fl[i].addr <= x < fl[i].addr + 8 ==> Owns(fl, x);
    }
    NodesKeep(m, n, fl, from, to);
  }

  /** The bytes determine the list: following the links from the head reads off one list only. */
  lemma {:induction false} ChainUnique(m: seq<byte>, head: nat, x: seq<Block>, y: seq<Block>)
    requires Chain(m, head, x) && Chain(m, head, y) && Apart(x) && Apart(y)
    ensures x == y
    decreases |x|
  {
    if x != [] && y != [] {
      assert NodeAt(m, x, 0) && NodeAt(m, y, 0);
      NodesDrop(m, x, 1);
      NodesDrop(m, y, 1);
      ChainUnique(m, At(x, 1), x[1..], y[1..]);
      assert x == [x[0]] + x[1..] && y == [y[0]] + y[1..];
    }
  }
}
