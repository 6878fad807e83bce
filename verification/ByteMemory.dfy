/** Flat byte memory with little-endian 32-bit access at any (also odd) address. */
module ByteMemory {
  import opened Words

  newtype byte = x: int | 0 <= x < 0x100

  /** The characters of an ASCII text as bytes. */
  function Ascii(t: string): (b: seq<byte>)
    ensures |b| == |t|
  {
    seq(|t|, i requires 0 <= i < |t| => (t[i] as int % 0x100) as byte)
  }

  function Word(m: seq<byte>, a: nat): (w: nat)
    requires a + 4 <= |m|
    ensures w < TWO32
  {
    m[a] as nat + 0x100 * m[a + 1] as nat + 0x1_0000 * m[a + 2] as nat + 0x100_0000 * m[a + 3] as nat
  }

  lemma LittleEndian()
    ensures Word([0x78, 0x56, 0x34, 0x12], 0) == 0x1234_5678
  {
  }

  /** The four bytes of a word. */
  function ByteOf(w: nat, k: nat): byte
    requires w < TWO32
  {
    (if k == 0 then w % 0x100
     else if k == 1 then w / 0x100 % 0x100
     else if k == 2 then w / 0x1_0000 % 0x100
     else w / 0x100_0000) as byte
  }

  lemma BytesOfWord(w: nat)
    requires w < TWO32
    ensures w == ByteOf(w, 0) as nat + 0x100 * ByteOf(w, 1) as nat
                 + 0x1_0000 * ByteOf(w, 2) as nat + 0x100_0000 * ByteOf(w, 3) as nat
  {
    assert w / 0x1_0000 == w / 0x100 / 0x100 && w / 0x100_0000 == w / 0x1_0000 / 0x100;
  }

  /** `n` is `m` with the word at `a` overwritten by `w`. */
  ghost predicate Poked(m: seq<byte>, n: seq<byte>, a: nat, w: nat) {
    && |n| == |m| && a + 4 <= |m| && Word(n, a) == w
    && forall i :: 0 <= i < |m| && !(a <= i < a + 4) ==> n[i] == m[i]
  }

  /** The two words of a free-list node or of an allocation header. */
  ghost predicate Pair(m: seq<byte>, a: int, first: nat, second: nat) {
    0 <= a && a + 8 <= |m| && Word(m, a) == first && Word(m, a + 4) == second
  }

  lemma PairFrame(m: seq<byte>, n: seq<byte>, a: int, first: nat, second: nat)
    requires Pair(m, a, first, second) && |m| == |n|
    requires forall i :: a <= i < a + 8 ==> m[i] == n[i]
    ensures Pair(n, a, first, second)
  {
  }

  /** Overwriting the second word of a pair. */
  lemma PokeSecond(m: seq<byte>, n: seq<byte>, a: nat, first: nat, second: nat, w: nat)
    requires Pair(m, a, first, second) && Poked(m, n, a + 4, w)
    ensures Pair(n, a, first, w)
  {
  }

  lemma PokeFrame(m: seq<byte>, n: seq<byte>, b: nat, w: nat, a: int, first: nat, second: nat)
    requires Poked(m, n, b, w) && Pair(m, a, first, second)
    requires a + 8 <= b || b + 4 <= a
    ensures Pair(n, a, first, second)
  {
  }
}
