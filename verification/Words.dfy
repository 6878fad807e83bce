/**
 32-bit words as naturals, with the bitwise operators the C code uses on them.
 `And` and `Or` are defined bit by bit; the lemmas below give them their
 arithmetic meaning for the masks, flags and fields that the code builds.
 */
module Words {

  const TWO32: nat := 0x1_0000_0000

  /** Conversion to `uint32_t`. */
  function Wrap(x: int): nat {
    x % TWO32
  }

  function Pow2(k: nat): (p: nat)
    ensures p >= 1
  {
    if k == 0 then 1 else 2 * Pow2(k - 1)
  }

  function And(x: nat, y: nat): nat {
    if x == 0 || y == 0 then 0
    else 2 * And(x / 2, y / 2) + if x % 2 == 1 && y % 2 == 1 then 1 else 0
  }

  function Or(x: nat, y: nat): nat
    decreases x + y
  {
    if x == 0 then y
    else if y == 0 then x
    else 2 * Or(x / 2, y / 2) + if x % 2 == 1 || y % 2 == 1 then 1 else 0
  }

  /** Bitwise complement of a 32-bit word. */
  function Not(y: nat): nat
    requires y < TWO32
  {
    TWO32 - 1 - y
  }

  lemma {:induction false} Pow2Is32()
    ensures Pow2(32) == TWO32
  {
    assert Pow2(8) == 0x100;
    assert Pow2(16) == 0x1_0000;
    assert Pow2(24) == 0x100_0000;
    assert Pow2(32) == 0x1_0000_0000;
  }

  lemma {:induction false} AndLe(x: nat, y: nat)
    ensures And(x, y) <= x && And(x, y) <= y
  {
    if x != 0 && y != 0 {
      AndLe(x / 2, y / 2);
    }
  }

  /** Masking with a complement removes exactly the bits the mask would keep. */
  lemma {:induction false} AndComplement(x: nat, y: nat, k: nat)
    requires x < Pow2(k) && y < Pow2(k)
    ensures And(x, Pow2(k) - 1 - y) == x - And(x, y)
  {
    if k > 0 {
      var z := Pow2(k) - 1 - y;
      assert z / 2 == Pow2(k - 1) - 1 - y / 2;
      AndComplement(x / 2, y / 2, k - 1);
      AndLe(x, y);
    }
  }

  lemma {:induction false} AndDropHigh(x: nat, y: nat, k: nat)
    requires y < Pow2(k)
    ensures And(x + Pow2(k), y) == And(x, y)
  {
    if k > 0 && y != 0 {
      assert (x + Pow2(k)) / 2 == x / 2 + Pow2(k - 1);
      AndDropHigh(x / 2, y / 2, k - 1);
    }
  }

  /** `x & (2^k - 1)` is the remainder modulo `2^k`. */
  lemma {:induction false} AndLowMask(x: nat, k: nat)
    ensures And(x, Pow2(k) - 1) == x % Pow2(k)
  {
    if k > 0 {
      var p := Pow2(k - 1);
      AndLowMask(x / 2, k - 1);
      assert (Pow2(k) - 1) / 2 == p - 1;
      HalfMod(x, p);
    }
  }

  lemma HalfMod(x: nat, p: nat)
    requires p > 0
    ensures x % (2 * p) == 2 * ((x / 2) % p) + x % 2
  {
    var q, r := (x / 2) / p, (x / 2) % p;
    assert x / 2 == p * q + r;
    assert 2 * (p * q) == (2 * p) * q;
    ModUnique(x, 2 * p, q, 2 * r + x % 2);
  }

  lemma MulBounds(t: int, m: int)
    requires m >= 0
    ensures t >= 1 ==> m * t >= m
    ensures t <= -1 ==> m * t <= -m
    ensures t <= 0 ==> m * t <= 0
  {
    if t >= 1 {
      assert m * t == m + m * (t - 1);
    } else if t <= -1 {
      assert m * t == m * (t + 1) - m;
    }
  }

  lemma ModUnique(x: nat, m: nat, q: int, r: nat)
    requires r < m && x == m * q + r
    ensures x % m == r && x / m == q
  {
    var d := x / m;
    assert x == m * d + x % m;
    assert m * (d - q) == m * d - m * q;
    MulBounds(d - q, m);
  }

  lemma {:induction false} Pow2Monotone(j: nat, k: nat)
    ensures j < k ==> Pow2(j) < Pow2(k)
  {
    if j < k {
      Pow2Monotone(j, k - 1);
    }
  }

  lemma {:induction false} Pow2Divides(j: nat, k: nat)
    requires j <= k
    ensures Pow2(k) % Pow2(j) == 0
  {
    var p := Pow2(j);
    if j == k {
      ModUnique(p, p, 1, 0);
    } else {
      Pow2Divides(j, k - 1);
      var q := Pow2(k - 1) / p;
      assert p * (2 * q) == 2 * (p * q);
      ModUnique(Pow2(k), p, 2 * q, 0);
    }
  }

  /** `x | y` is the sum when `y` fits below the lowest bit of `x` that can be set. */
  lemma {:induction false} OrBelow(x: nat, y: nat, k: nat)
    requires x % Pow2(k) == 0 && y < Pow2(k)
    ensures Or(x, y) == x + y
  {
    if x != 0 && y != 0 {
      var p := Pow2(k - 1);
      HalfMod(x, p);
      assert x % 2 == 0 && (x / 2) % p == 0;
      OrBelow(x / 2, y / 2, k - 1);
    }
  }

  /** Bit `k` of a word. */
  function Bit(x: nat, k: nat): nat {
    x / Pow2(k) % 2
  }

  /** Testing a single-bit flag. */
  lemma {:induction false} AndBit(x: nat, k: nat)
    ensures And(x, Pow2(k)) == Bit(x, k) * Pow2(k)
  {
    if k == 0 {
      assert And(x / 2, 0) == 0;
    } else {
      var p := Pow2(k - 1);
      AndBit(x / 2, k - 1);
      HalfDiv(x, p);
      assert And(x, 2 * p) == 2 * And(x / 2, p) by {
        assert (2 * p) / 2 == p && (2 * p) % 2 == 0;
      }
      hide And;
      assert Pow2(k) == 2 * p && Bit(x, k) == Bit(x / 2, k - 1);
      hide Bit;
    }
  }

  lemma HalfDiv(x: nat, p: nat)
    requires p > 0
    ensures x / (2 * p) == x / 2 / p
  {
    var q, r := x / 2 / p, x / 2 % p;
    assert x / 2 == p * q + r;
    assert 2 * (p * q) == (2 * p) * q;
    ModUnique(x, 2 * p, q, 2 * r + x % 2);
  }

  /** Setting a flag that is clear adds it. */
  lemma {:induction false} OrDisjoint(x: nat, y: nat)
    requires And(x, y) == 0
    ensures Or(x, y) == x + y
  {
    if x != 0 && y != 0 {
      OrDisjoint(x / 2, y / 2);
    }
  }

  lemma {:induction false} AndIdempotent(x: nat, y: nat)
    ensures And(And(x, y), y) == And(x, y)
  {
    if x != 0 && y != 0 {
      AndIdempotent(x / 2, y / 2);
    }
  }

  lemma BitZero(x: nat)
    ensures Bit(x, 0) == x % 2
  {
  }

  lemma BitHalf(x: nat, k: nat)
    ensures Bit(x, k + 1) == Bit(x / 2, k)
  {
    HalfDiv(x, Pow2(k));
  }

  /** The number 2^hi - 2^lo has exactly the bits from `lo` up to `hi`. */
  lemma {:induction false} MaskBits(lo: nat, hi: nat, k: nat)
    requires lo < hi
    ensures Pow2(lo) < Pow2(hi) && (Bit(Pow2(hi) - Pow2(lo), k) == 1 <==> lo <= k < hi)
    decreases hi
  {
    hide Bit;
    Pow2Monotone(lo, hi);
    var m := Pow2(hi) - Pow2(lo);
    BitZero(m);
    if k > 0 {
      BitHalf(m, k - 1);
      if lo > 0 {
        Pow2Monotone(lo - 1, hi - 1);
        assert m / 2 == Pow2(hi - 1) - Pow2(lo - 1);
        MaskBits(lo - 1, hi - 1, k - 1);
      } else if hi > 1 {
        Pow2Monotone(0, hi - 1);
        assert m / 2 == Pow2(hi - 1) - Pow2(0);
        MaskBits(0, hi - 1, k - 1);
      } else {
        assert m / 2 == 0;
        BitOfZero(k - 1);
      }
    }
  }

  /** Both words have bit `k` set. */
  ghost predicate CommonBit(x: nat, y: nat, k: nat) {
    Bit(x, k) == 1 && Bit(y, k) == 1
  }

  /** The common bits of two words are the lowest one and those of their halves. */
  lemma CommonBitStep(x: nat, y: nat)
    ensures (exists k: nat :: CommonBit(x, y, k))
            <==> (x % 2 == 1 && y % 2 == 1) || exists k: nat :: CommonBit(x / 2, y / 2, k)
  {
    hide Bit;
    BitZero(x);
    BitZero(y);
    assert CommonBit(x, y, 0) <==> x % 2 == 1 && y % 2 == 1;
    forall k: nat
      ensures CommonBit(x, y, k + 1) <==> CommonBit(x / 2, y / 2, k)
    {
      BitHalf(x, k);
      BitHalf(y, k);
    }
    if k: nat :| CommonBit(x, y, k) {
      assert k > 0 ==> CommonBit(x / 2, y / 2, k - 1) by {
        if k > 0 {
          assert CommonBit(x, y, k - 1 + 1);
        }
      }
    }
  }

  /** What a test with `&` looks for. */
  lemma {:induction false} AndNonzero(x: nat, y: nat)
    ensures And(x, y) != 0 <==> exists k: nat :: CommonBit(x, y, k)
  {
    if x == 0 || y == 0 {
      forall k: nat
        ensures !CommonBit(x, y, k)
      {
        BitOfZero(k);
      }
    } else {
      AndNonzero(x / 2, y / 2);
      CommonBitStep(x, y);
      hide CommonBit;
    }
  }

  lemma BitOfZero(k: nat)
    ensures Bit(0, k) == 0
  {
    ModUnique(0, Pow2(k), 0, 0);
  }

  /** `&`, `|` and `~` bit by bit. */
  lemma {:induction false} AndBits(x: nat, y: nat, k: nat)
    ensures Bit(And(x, y), k) == 1 <==> Bit(x, k) == 1 && Bit(y, k) == 1
    decreases k
  {
    hide Bit;
    BitZero(x);
    BitZero(y);
    BitZero(And(x, y));
    BitOfZero(k);
    if k > 0 && x != 0 && y != 0 {
      BitHalf(x, k - 1);
      BitHalf(y, k - 1);
      BitHalf(And(x, y), k - 1);
      AndBits(x / 2, y / 2, k - 1);
    }
  }

  lemma {:induction false} OrBits(x: nat, y: nat, k: nat)
    ensures Bit(Or(x, y), k) == 1 <==> Bit(x, k) == 1 || Bit(y, k) == 1
    decreases k
  {
    hide Bit, Or;
    OrStep(x, y);
    BitZero(x);
    BitZero(y);
    BitZero(Or(x, y));
    if k > 0 {
      BitHalf(x, k - 1);
      BitHalf(y, k - 1);
      BitHalf(Or(x, y), k - 1);
      OrBits(x / 2, y / 2, k - 1);
    }
  }

  lemma OrStep(x: nat, y: nat)
    ensures Or(x, y) / 2 == Or(x / 2, y / 2) && (Or(x, y) % 2 == 1 <==> x % 2 == 1 || y % 2 == 1)
  {
  }

  lemma {:induction false} ComplementBits(y: nat, n: nat, k: nat)
    requires k < n && y < Pow2(n)
    ensures Bit(Pow2(n) - 1 - y, k) == 1 <==> Bit(y, k) == 0
    decreases n
  {
    hide Bit;
    var z := Pow2(n) - 1 - y;
    BitZero(y);
    BitZero(z);
    if k > 0 {
      assert z / 2 == Pow2(n - 1) - 1 - y / 2;
      BitHalf(y, k - 1);
      BitHalf(z, k - 1);
      ComplementBits(y / 2, n - 1, k - 1);
    }
  }
}
