/** `itoa` of drivers/display/print.c. */
module Itoa {
  import opened Words
  import opened ByteMemory
  import opened HexCodec

  const INT_MIN: int := -0x8000_0000
  const INT_MAX: int := 0x7fff_ffff

  /** C division and remainder, which truncate toward zero. */
  function DivC(a: int, b: int): int
    requires b > 0
  {
    if a >= 0 then a / b else -(-a / b)
  }

  function ModC(a: int, b: int): (r: int)
    requires b > 0
    ensures -b < r < b
  {
    if a >= 0 then a % b else -(-a % b)
  }

  function Abs(x: int): nat {
    if x < 0 then -x else x
  }

  /** Entry `k` of the digit table "zyx...a98...10123...89abc...z", whose middle `0` is entry 35. */
  function TableChar(k: int): byte
    requires 0 <= k < 71
  {
    if k < 26 then (0x7a - k) as byte          // z..a
    else if k < 36 then (0x39 - (k - 26)) as byte  // 9..0
    else if k < 45 then (0x31 + (k - 36)) as byte  // 1..9
    else (0x61 + (k - 45)) as byte             // a..z
  }

  /** The table is symmetric, so a negative remainder selects the digit of its magnitude. */
  lemma TableIsSymmetric(r: int)
    requires -36 < r < 36
    ensures TableChar(35 + r) == DigitChar(Abs(r))
  {
  }

  /** The four stretches of the table as the C source has them. */
  lemma TableIsLiteral(k: int)
    requires 0 <= k < 71
    ensures TableChar(k) as char == if k < 26 then "zyxwvutsrqponmlkjihgfedcba"[k]
                                    else if k < 36 then "9876543210"[k - 26]
                                    else if k < 45 then "123456789"[k - 36]
                                    else "abcdefghijklmnopqrstuvwxyz"[k - 45]
  {
  }

  function DigitValue(ch: byte): (d: int)
    ensures -1 <= d < 36
  {
    if 0x30 <= ch <= 0x39 then ch as int - 0x30
    else if 0x61 <= ch <= 0x7a then ch as int - 0x61 + 10
    else -1
  }

  /** `t` is a sequence of digits of the base. */
  ghost predicate Digits(t: seq<byte>, base: int) {
    forall i :: 0 <= i < |t| ==> 0 <= DigitValue(t[i]) < base
  }

  /** The number a digit string denotes, most significant digit first. */
  function Value(t: seq<byte>, base: nat): int {
    if t == [] then 0 else Value(t[..|t| - 1], base) * base + DigitValue(t[|t| - 1])
  }

  function Numeral(v: nat, base: int): (t: seq<byte>)
    requires 2 <= base <= 36
    ensures |t| >= 1
  {
    DivSplit(v, base);
    if v < base then [DigitChar(v)] else Numeral(v / base, base) + [DigitChar(v % base)]
  }

  /** The numeral denotes `v`, in digits of the base, without leading zeros. */
  lemma {:induction false} NumeralDenotes(v: nat, base: int)
    requires 2 <= base <= 36
    ensures Digits(Numeral(v, base), base)
    ensures Value(Numeral(v, base), base) == v
    ensures v > 0 ==> Numeral(v, base)[0] != 0x30
    ensures v == 0 ==> Numeral(v, base) == [0x30]
  {
    if v < base {
      assert Numeral(v, base)[..0] == [];
      DigitOfChar(v);
    } else {
      DivSplit(v, base);
      NumeralDenotes(v / base, base);
      DigitOfChar(v % base);
      hide DigitChar, DigitValue;
      AppendDigit(Numeral(v / base, base), v % base, base);
    }
  }

  lemma DigitOfChar(d: int)
    requires 0 <= d < 36
    ensures DigitValue(DigitChar(d)) == d
  {
  }

  lemma DivSplit(v: nat, base: nat)
    requires base >= 2
    ensures v == v / base * base + v % base && 0 <= v % base < base
    ensures v >= base ==> 0 < v / base < v
    ensures v < base ==> v / base == 0 && v % base == v
  {
    var q, r := v / base, v % base;
    assert v == base * q + r && base * q == q * base;
    if v < base {
      ModUnique(v, base, 0, v);
    } else {
      QuotientBounds(v, base, q, r);
    }
  }

  lemma QuotientBounds(v: nat, base: nat, q: int, r: nat)
    requires base >= 2 && v >= base && v == base * q + r && r < base
    ensures 0 < q < v
  {
    MulBounds(q, base);
    MulBounds(q, base - 2);
    assert base * q == 2 * q + (base - 2) * q;
  }

  lemma AppendDigit(t: seq<byte>, d: int, base: int)
    requires Digits(t, base) && 0 <= d < base <= 36
    ensures Digits(t + [DigitChar(d)], base)
    ensures Value(t + [DigitChar(d)], base) == Value(t, base) * base + d
  {
    DigitOfChar(d);
    hide DigitChar, DigitValue;
    var r := t + [DigitChar(d)];
    assert r[..|r| - 1] == t;
  }

  lemma {:induction false} ValueNonNegative(t: seq<byte>, base: int)
    requires 2 <= base <= 36 && Digits(t, base)
    ensures Value(t, base) >= 0
    ensures t != [] && t[0] != 0x30 ==> Value(t, base) > 0
  {
    if t != [] {
      var p := t[..|t| - 1];
      ValueNonNegative(p, base);
      if |t| > 1 && t[0] != 0x30 {
        assert p[0] == t[0];
        MulBounds(Value(p, base), base);
        assert Value(p, base) * base == base * Value(p, base);
      }
    }
  }

  /** No other digit string without leading zeros denotes the same number. */
  lemma {:induction false} NumeralUnique(t: seq<byte>, base: int)
    requires 2 <= base <= 36 && t != [] && Digits(t, base)
    requires |t| == 1 || t[0] != 0x30
    ensures Value(t, base) >= 0 && Numeral(Value(t, base), base) == t
  {
    hide DigitChar, DigitValue;
    ValueNonNegative(t, base);
    var p, d := t[..|t| - 1], DigitValue(t[|t| - 1]);
    CharOfDigit(t[|t| - 1]);
    assert t == p + [DigitChar(d)];
    if |t| == 1 {
      assert Value(p, base) == 0 && p == [];
    } else {
      assert p[0] == t[0];
      ValueNonNegative(p, base);
      NumeralUnique(p, base);
      hide Value;
      NumeralAppend(Value(p, base), d, base);
    }
  }

  lemma CharOfDigit(ch: byte)
    requires DigitValue(ch) >= 0
    ensures DigitChar(DigitValue(ch)) == ch
  {
  }

  lemma NumeralAppend(v: nat, d: int, base: int)
    requires 2 <= base <= 36 && v > 0 && 0 <= d < base
    ensures v * base + d >= base
    ensures Numeral(v * base + d, base) == Numeral(v, base) + [DigitChar(d)]
  {
    MulBounds(v, base);
    assert v * base == base * v;
    ModUnique(v * base + d, base, v, d);
    hide DigitChar;
  }

  /** What `itoa` writes: a sign for negative decimals only, then the numeral of the magnitude. */
  function Text(value: int, base: int): seq<byte>
    requires 2 <= base <= 36
  {
    (if value < 0 && base == 10 then [0x2d] else []) + Numeral(Abs(value), base)
  }

  /** Reading decimal digits. */
  function Unsigned(t: seq<byte>): int {
    if t == [] then 0 else 10 * Unsigned(t[..|t| - 1]) + (t[|t| - 1] as int - '0' as int)
  }

  /** Reading decimal text, where a `-` in front negates. */
  function ReadDecimal(t: seq<byte>): int {
    if t != [] && t[0] as char == '-' then -Unsigned(t[1..]) else Unsigned(t)
  }

  lemma {:induction false} DecimalDigits(t: seq<byte>)
    requires Digits(t, 10)
    ensures Unsigned(t) == Value(t, 10) && forall i :: 0 <= i < |t| ==> '0' <= t[i] as char <= '9'
  {
    if t != [] {
      var p := t[..|t| - 1];
      DecimalDigits(p);
      assert 0 <= DigitValue(t[|t| - 1]) < 10;
      assert forall i :: 0 <= i < |t| - 1 ==> t[i] == p[i];
    }
  }

  /**
   Base 10: reading the text gives the value back, the smallest included; it is
   decimal digits without leading zeros, behind a sign exactly for negative values.
   */
  lemma DecimalRoundTrip(value: int)
    ensures ReadDecimal(Text(value, 10)) == value
    ensures var t, n := Text(value, 10), if value < 0 then 1 else 0;
            && |t| > n && (t[0] as char == '-' <==> value < 0)
            && (forall i :: n <= i < |t| ==> '0' <= t[i] as char <= '9')
            && (t[n] as char == '0' ==> value == 0 && |t| == 1)
  {
    hide Numeral, Unsigned, Value, DigitValue, Digits;
    var t := Numeral(Abs(value), 10);
    NumeralDenotes(Abs(value), 10);
    DecimalDigits(t);
    if value < 0 {
      var u := Text(value, 10);
      assert u[1..] == t;
      assert forall i :: 1 <= i < |u| ==> u[i] == t[i - 1];
    } else {
      assert Text(value, 10) == t;
    }
  }

  /** In every other base the text is the digits of the magnitude, without a sign and leading zeros. */
  lemma OnlyDigits(value: int, base: int)
    requires 2 <= base <= 36 && base != 10
    ensures var t := Text(value, base);
            && Digits(t, base) && Value(t, base) == Abs(value)
            && (forall i :: 0 <= i < |t| ==> t[i] as char != '-')
            && t != [] && (t[0] as char == '0' ==> value == 0 && |t| == 1)
  {
    hide Numeral, Value, DigitValue;
    var t := Numeral(Abs(value), base);
    NumeralDenotes(Abs(value), base);
    assert [] + t == t;
    forall i | 0 <= i < |t|
      ensures t[i] as char != '-'
    {
      NoDigit(t[i]);
    }
  }

  lemma NoDigit(ch: byte)
    ensures ch as char == '-' ==> DigitValue(ch) < 0
  {
  }

  /** The value of a digit in either half of the table. */
  lemma DigitValues(ch: byte)
    ensures DigitValue(ch) >= 0 ==> ch as char == "0123456789abcdefghijklmnopqrstuvwxyz"[DigitValue(ch)]
  {
  }

  /** One step of the conversion loop, on magnitudes. */
  lemma TruncatedStep(value: int, base: int)
    requires 2 <= base <= 36
    ensures Abs(DivC(value, base)) == Abs(value) / base
    ensures Abs(ModC(value, base)) == Abs(value) % base
    ensures DivC(value, base) == 0 <==> Abs(value) < base
  {
    DivSplit(Abs(value), base);
  }

  /** The last digit of a numeral and the numeral in front of it. */
  lemma NumeralStep(v: nat, base: int, p: seq<byte>)
    requires 2 <= base <= 36 && Numeral(v, base) == p
    ensures p[|p| - 1] == DigitChar(v % base)
    ensures v < base <==> |p| == 1
    ensures v >= base ==> 0 < v / base < v && Numeral(v / base, base) == p[..|p| - 1]
  {
    DivSplit(v, base);
    assert v >= base ==> |Numeral(v / base, base)| >= 1;
  }

  /**
   `itoa`: for a base outside 2..36 the empty string, otherwise `Text`, NUL
   terminated; the rest of the buffer is untouched.
   */
  method Itoa(value: int, str: array<byte>, base: int)
    requires INT_MIN <= value <= INT_MAX && str.Length > 0
    requires 2 <= base <= 36 ==> str.Length > |Text(value, base)|
    modifies str
    ensures !(2 <= base <= 36) ==> str[..] == [0] + old(str[1..])
    ensures 2 <= base <= 36 ==> var n := |Text(value, base)|;
                                str[..] == Text(value, base) + [0] + old(str[n + 1..])
  {
    if base < 2 || base > 36 {
      str[0] := 0;
      return;
    }
    hide Numeral, Abs;
    var low := 0;
    if value < 0 && base == 10 {
      str[0] := 0x2d;
      low := 1;
    }
    var n := PutNumeral(value, str, low, base);
    assert str[..low] == if low == 1 then [0x2d] else [];
    assert str[low + n + 1..] == old(str[low + n + 1..]);
    assert str[..] == str[..low] + str[low..low + n] + [str[low + n]] + str[low + n + 1..];
  }

  /** The numeral of the magnitude, from `str[low]` on: digits, terminator, reversal. */
  method PutNumeral(value: int, str: array<byte>, low: nat, base: int) returns (n: nat)
    requires 2 <= base <= 36 && low + |Numeral(Abs(value), base)| < str.Length
    modifies str
    ensures n == |Numeral(Abs(value), base)|
    ensures str[low..low + n] == Numeral(Abs(value), base) && str[low + n] == 0
    ensures forall k :: 0 <= k < low || low + n < k < str.Length ==> str[k] == old(str[k])
  {
    hide Numeral, Abs;
    n := WriteDigits(value, str, low, base);
    str[low + n] := 0;
    ReverseInPlace(str, low, low + n - 1);
  }

  /** One digit; returns the rest of the value. */
  method EmitDigit(value: int, str: array<byte>, at: nat, base: int) returns (rest: int)
    requires 2 <= base <= 36 && at < str.Length
    modifies str
    ensures var p := Numeral(Abs(value), base);
            && str[at] == p[|p| - 1] && (rest == 0 <==> |p| == 1)
            && (rest != 0 ==> Abs(rest) < Abs(value) && Numeral(Abs(rest), base) == p[..|p| - 1])
    ensures forall k :: 0 <= k < str.Length && k != at ==> str[k] == old(str[k])
  {
    TruncatedStep(value, base);
    NumeralStep(Abs(value), base, Numeral(Abs(value), base));
    hide Numeral, DigitChar, TableChar;
    TableIsSymmetric(ModC(value, base));
    str[at] := TableChar(35 + ModC(value, base));
    rest := DivC(value, base);
  }

  /** The digits from the least significant one upwards; at least one is written. */
  method WriteDigits(value: int, str: array<byte>, low: nat, base: int) returns (n: nat)
    requires 2 <= base <= 36 && low + |Numeral(Abs(value), base)| < str.Length
    modifies str
    ensures n == |Numeral(Abs(value), base)|
    ensures forall k :: low <= k < low + n ==> str[k] == Numeral(Abs(value), base)[low + n - 1 - k]
    ensures forall k :: 0 <= k < low || low + n <= k < str.Length ==> str[k] == old(str[k])
  {
    hide Numeral, Abs;
    ghost var t := Numeral(Abs(value), base);
    var v := value;
    n := 0;
    while true
      invariant n < |t| && Numeral(Abs(v), base) == t[..|t| - n]
      invariant forall k :: low <= k < low + n ==> str[k] == t[low + |t| - 1 - k]
      invariant forall k :: 0 <= k < low || low + n <= k < str.Length ==> str[k] == old(str[k])
      decreases Abs(v)
    {
      ghost var p := t[..|t| - n];
      v := EmitDigit(v, str, low + n, base);
      n := n + 1;
      assert p[|p| - 1] == t[|t| - n] && p[..|p| - 1] == t[..|t| - n];
      if v == 0 {
        break;
      }
    }
  }

  /** The final swap loop, on `str[from..to]` inclusive. */
  method ReverseInPlace(str: array<byte>, from: nat, to: int)
    requires from <= to + 1 <= str.Length
    modifies str
    ensures forall k :: from <= k <= to ==> str[k] == old(str[from + to - k])
    ensures forall k :: 0 <= k < from || to < k < str.Length ==> str[k] == old(str[k])
  {
    var low, ptr := from, to;
    while low < ptr
      invariant from <= low <= ptr + 2 && from - 1 <= ptr <= to && low + ptr == from + to
      invariant forall k :: from <= k < low || ptr < k <= to ==> str[k] == old(str[from + to - k])
      invariant forall k :: 0 <= k < from || low <= k <= ptr || to < k < str.Length ==> str[k] == old(str[k])
    {
      str[low], str[ptr] := str[ptr], str[low];
      low, ptr := low + 1, ptr - 1;
    }
  }
}
