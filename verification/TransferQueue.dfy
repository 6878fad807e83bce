/** The software list of pending transfers: its shape in memory and what an interrupt leaves of it. */
module TransferQueue {
  import opened Sequences

  /** `struct transfer_entry`; `done` is the address of the flag behind `userdata`. 0 is NULL. */
  datatype Entry = Entry(last: nat, first: nat, done: nat, next: nat)

  type EntryMemory = map<nat, Entry>

  function At(q: seq<nat>, i: nat): nat {
    if i < |q| then q[i] else 0
  }

  ghost predicate NodeAt(m: EntryMemory, q: seq<nat>, i: nat)
    requires i < |q|
  {
    q[i] != 0 && q[i] in m && m[q[i]].next == At(q, i + 1)
  }

  ghost predicate Nodes(m: EntryMemory, q: seq<nat>, from: nat) {
    forall i :: from <= i < |q| ==> NodeAt(m, q, i)
  }

  ghost predicate List(m: EntryMemory, head: nat, q: seq<nat>) {
    head == At(q, 0) && Nodes(m, q, 0)
  }

  /** The elements of `q` in `s`, in order. */
  function Only(q: seq<nat>, s: set<nat>): (r: seq<nat>)
    ensures forall x :: x in r <==> x in q && x in s
  {
    if q == [] then []
    else Only(q[..|q| - 1], s) + if q[|q| - 1] in s then [q[|q| - 1]] else []
  }

  /** The elements of `q` not in `s`, in order. */
  function Without(q: seq<nat>, s: set<nat>): (r: seq<nat>)
    ensures forall x :: x in r <==> x in q && x !in s
  {
    if q == [] then []
    else Without(q[..|q| - 1], s) + if q[|q| - 1] in s then [] else [q[|q| - 1]]
  }

  /**
   The list `uhci_isr` leaves when `completed` are the entries whose last TD is
   inactive: completing the head empties the whole list.
   */
  function AfterIsr(q: seq<nat>, completed: set<nat>): seq<nat> {
    if q != [] && q[0] in completed then [] else Without(q, completed)
  }

  lemma OnlyStep(q: seq<nat>, s: set<nat>, k: nat)
    requires k < |q|
    ensures Only(q[..k + 1], s) == if q[k] in s then Only(q[..k], s) + [q[k]] else Only(q[..k], s)
    ensures Without(q[..k + 1], s) == if q[k] in s then Without(q[..k], s) else Without(q[..k], s) + [q[k]]
  {
    assert q[..k + 1][..k] == q[..k];
    assert Only(q[..k], s) + [] == Only(q[..k], s) && Without(q[..k], s) + [] == Without(q[..k], s);
  }

  lemma DistinctAppend(q: seq<nat>, x: nat)
    requires Distinct(q) && x !in q
    ensures Distinct(q + [x])
  {
  }

  lemma DistinctSplit(q: seq<nat>)
    requires q != [] && Distinct(q)
    ensures Distinct(q[..|q| - 1]) && q[|q| - 1] !in q[..|q| - 1] && q == q[..|q| - 1] + [q[|q| - 1]]
  {
  }

  /** Each entry that is listed once is handled once if completed, and kept once otherwise. */
  lemma {:induction false} OnlyIsOnce(q: seq<nat>, s: set<nat>)
    requires Distinct(q)
    ensures Distinct(Only(q, s)) && Distinct(Without(q, s))
    ensures multiset(Only(q, s)) + multiset(Without(q, s)) == multiset(q)
  {
    hide Distinct;
    if q == [] {
      assert Distinct([]) by {
        EmptyDistinct();
      }
    } else {
      var p, x := q[..|q| - 1], q[|q| - 1];
      DistinctSplit(q);
      OnlyIsOnce(p, s);
      DistinctAppend(Only(p, s), x);
      DistinctAppend(Without(p, s), x);
      assert Only(p, s) + [] == Only(p, s) && Without(p, s) + [] == Without(p, s);
    }
  }

  lemma EmptyDistinct()
    ensures Distinct([])
  {
  }

  /**
   Exactly when the list survives: what an interrupt leaves is the list of the
   entries still active if and only if the head is active or none is.
   */
  lemma AfterIsrKeepsActive(q: seq<nat>, completed: set<nat>)
    ensures AfterIsr(q, completed) == Without(q, completed)
            <==> q == [] || q[0] !in completed || forall x :: x in q ==> x in completed
  {
    var r := Without(q, completed);
    if q != [] && q[0] in completed {
      assert r == [] <==> forall x :: x in q ==> x in completed by {
        if r != [] {
          assert r[0] in r;
        }
      }
    }
  }

  /** An instance of the loss: the first of two transfers completes, the second is dropped. */
  lemma HeadCompletionDropsRest()
    ensures AfterIsr([1, 2], {1}) == [] && Without([1, 2], {1}) == [2]
  {
    assert [1, 2][..1] == [1] && [1][..0] == [];
    assert Without([1], {1}) == [];
  }

  // ------------------------------------------------------------------ updates of the list in memory

  /** Appending behind the last node. */
  lemma Appended(m: EntryMemory, head: nat, q: seq<nat>, e: nat)
    requires List(m, head, q) && Distinct(q) && q != [] && e !in q
    requires e != 0 && e in m && m[e].next == 0
    ensures q[|q| - 1] in m
    ensures List(m[q[|q| - 1] := m[q[|q| - 1]].(next := e)], head, q + [e])
  {
    var l := |q| - 1;
    assert NodeAt(m, q, l);
    var m', r := m[q[l] := m[q[l]].(next := e)], q + [e];
    forall i | 0 <= i < |r|
      ensures NodeAt(m', r, i)
    {
      if i < |q| {
        assert NodeAt(m, q, i);
      }
    }
  }

  /** Unlinking node `k` of `p + [x] + s` through its predecessor, the last node of `p`. */
  lemma Unlinked(m: EntryMemory, head: nat, p: seq<nat>, x: nat, s: seq<nat>)
    requires List(m, head, p + [x] + s) && Distinct(p + [x] + s) && p != []
    ensures p[|p| - 1] in m && x in m
    ensures List(m[p[|p| - 1] := m[p[|p| - 1]].(next := m[x].next)], head, p + s)
  {
    var f, r, l := p + [x] + s, p + s, |p| - 1;
    assert f[l] == p[l] && f[|p|] == x;
    assert NodeAt(m, f, l) && NodeAt(m, f, |p|);
    var m' := m[p[l] := m[p[l]].(next := m[x].next)];
    forall i | 0 <= i < |r|
      ensures NodeAt(m', r, i)
    {
      if i <= l {
        assert f[i] == p[i] && NodeAt(m, f, i);
        assert i < l ==> f[i + 1] == p[i + 1];
      } else {
        assert f[i + 1] == r[i] && NodeAt(m, f, i + 1);
        assert At(f, i + 2) == At(r, i + 1);
      }
    }
  }

  lemma EmptyFilters(s: set<nat>)
    ensures Only([], s) == [] && Without([], s) == []
  {
  }

  lemma NodesInMemory(m: EntryMemory, head: nat, q: seq<nat>)
    requires List(m, head, q)
    ensures 0 !in q
  {
    forall i | 0 <= i < |q|
      ensures q[i] != 0
    {
      assert NodeAt(m, q, i);
    }
  }

  /** Only the last entry links to NULL. */
  lemma InnerLinks(m: EntryMemory, head: nat, q: seq<nat>)
    requires List(m, head, q)
    ensures forall i :: 0 <= i < |q| - 1 ==> q[i] in m && m[q[i]].next != 0
  {
    forall i | 0 <= i < |q| - 1
      ensures q[i] in m && m[q[i]].next != 0
    {
      assert NodeAt(m, q, i) && NodeAt(m, q, i + 1);
    }
  }

  lemma NonZero(q: seq<nat>)
    requires 0 !in q
    ensures forall i :: 0 <= i < |q| ==> q[i] != 0
  {
  }

  /** Removing entries from the front part of a list keeps its elements distinct. */
  lemma DistinctKept(q: seq<nat>, s: set<nat>, k: nat)
    requires Distinct(q) && k <= |q|
    ensures Distinct(Without(q[..k], s) + q[k..])
  {
    var p := q[..k];
    OnlyIsOnce(p, s);
    var r := Without(p, s);
    var t := r + q[k..];
    forall i, j | 0 <= i < j < |t|
      ensures t[i] != t[j]
    {
      if i < |r| && j >= |r| {
        assert r[i] in r;
        var n :| 0 <= n < k && p[n] == r[i];
        assert q[n] != q[k + j - |r|];
      }
    }
  }

  /** The part of a list from `k + 1` on survives redirecting the link of an earlier entry. */
  lemma SuffixKept(m: EntryMemory, q: seq<nat>, k: nat, a: nat, w: nat)
    requires Distinct(q) && k < |q| && Nodes(m, q, k) && a in q[..k] && a in m
    ensures Nodes(m[a := m[a].(next := w)], q, k + 1)
  {
    var n :| 0 <= n < k && q[n] == a;
    var m' := m[a := m[a].(next := w)];
    forall i | k + 1 <= i < |q|
      ensures NodeAt(m', q, i)
    {
      assert NodeAt(m, q, i) && q[n] != q[i];
    }
  }

  /** The list behind the walk: lost once the head has completed, otherwise `kept` followed by the rest. */
  ghost predicate Linked(m: EntryMemory, head: nat, q: seq<nat>, completed: set<nat>, k: nat, kept: seq<nat>)
    requires k <= |q|
  {
    && Nodes(m, q, k)
    && if k > 0 && q[0] in completed then head == 0 else List(m, head, kept + q[k..])
  }

  /** Passing over an active entry. */
  lemma LinkedKeep(m: EntryMemory, head: nat, q: seq<nat>, completed: set<nat>, k: nat, kept: seq<nat>)
    requires k < |q| && q[k] !in completed && Linked(m, head, q, completed, k, kept)
    ensures Linked(m, head, q, completed, k + 1, kept + [q[k]])
  {
    assert kept + [q[k]] + q[k + 1..] == kept + q[k..];
  }

  /** Unlinking a completed entry as the interrupt routine does it. */
  lemma LinkedRemove(m: EntryMemory, head: nat, q: seq<nat>, completed: set<nat>, k: nat, kept: seq<nat>)
    requires k < |q| && q[k] in completed && Linked(m, head, q, completed, k, kept)
    requires Distinct(q) && kept == Without(q[..k], completed) && 0 !in q && forall e :: e in q ==> e in m
    ensures kept == [] ==> Linked(m, 0, q, completed, k + 1, kept)
    ensures kept != [] ==>
              var prev := kept[|kept| - 1];
              prev in m && prev != 0
              && Linked(m[prev := m[prev].(next := m[q[k]].next)], head, q, completed, k + 1, kept)
  {
    if kept == [] {
      if k > 0 {
        assert q[0] in q[..k];
        assert q[0] in completed;
      }
    } else {
      var prev := kept[|kept| - 1];
      assert prev in kept;
      assert prev in q[..k];
      SuffixKept(m, q, k, prev, m[q[k]].next);
      if q[0] !in completed {
        DistinctKept(q, completed, k);
        assert q[k..] == [q[k]] + q[k + 1..] && kept + q[k..] == kept + [q[k]] + q[k + 1..];
        Unlinked(m, head, kept, q[k], q[k + 1..]);
      }
    }
  }
}
