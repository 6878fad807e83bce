/** `hexToInt` of utils/i386-stub.c, and its round trip with `itoa`. */
module HexNumbers {
  import opened Words
  import opened ByteMemory
  import opened HexCodec
  import opened Itoa

  /** Reading on from `s[i]` with `acc` as the 32-bit accumulator: where it stops, and the word read. */
  function Scan(s: seq<byte>, i: nat, acc: nat): (nat, nat)
    requires i <= |s|
    decreases |s| - i
  {
    if i == |s| || Hex(s[i]) < 0 then (i, acc)
    else Scan(s, i + 1, Or(Wrap(acc * 16), Hex(s[i])))
  }

  function Signed(w: nat): int
    requires w < TWO32
  {
    if w < 0x8000_0000 then w else w - TWO32
  }

  lemma ShiftOr(acc: nat, h: nat)
    requires h < 16
    ensures Or(Wrap(acc * 16), h) == Wrap(acc * 16 + h)
  {
    assert Pow2(4) == 16;
    hide Or, Pow2;
    // the shifted word is a multiple of 16 with room for the digit below 2^32
    var q, r := acc / 0x1000_0000, acc % 0x1000_0000;
    ModUnique(acc * 16, TWO32, q, 16 * r);
    ModUnique(acc * 16 + h, TWO32, q, 16 * r + h);
    OrBelow(16 * r, h, 4);
  }

  /** Values of hexadecimal text, either case. */
  function HexValue(t: seq<byte>): int {
    if t == [] then 0 else 16 * HexValue(t[..|t| - 1]) + Hex(t[|t| - 1])
  }

  /** The scan reads exactly the leading digits and yields their value modulo 2^32. */
  lemma {:induction false} ScanReads(s: seq<byte>, i: nat, j: nat, acc: nat)
    requires i <= j <= |s| && AllHex(s[..j]) && (j == |s| || Hex(s[j]) < 0)
    requires acc == Wrap(HexValue(s[..i]))
    ensures Scan(s, i, acc) == (j, Wrap(HexValue(s[..j])))
    decreases j - i
  {
    if i < j {
      assert s[i] == s[..j][i];
      ShiftOr(acc, Hex(s[i]));
      var v := HexValue(s[..i]);
      assert s[..i + 1][..i] == s[..i];
      assert HexValue(s[..i + 1]) == 16 * v + Hex(s[i]);
      WrapStep(v, Hex(s[i]));
      ScanReads(s, i + 1, j, Wrap(acc * 16 + Hex(s[i])));
    }
  }

  lemma WrapStep(v: int, h: int)
    ensures Wrap(Wrap(v) * 16 + h) == Wrap(v * 16 + h)
  {
  }

  /** On digits that `itoa` writes both digit functions agree. */
  lemma {:induction false} HexValueIsValue(t: seq<byte>)
    requires Digits(t, 16)
    ensures AllHex(t) && HexValue(t) == Value(t, 16)
  {
    if t != [] {
      HexValueIsValue(t[..|t| - 1]);
      assert DigitValue(t[|t| - 1]) == Hex(t[|t| - 1]);
      assert forall i :: 0 <= i < |t| - 1 ==> t[i] == t[..|t| - 1][i];
    }
  }

  /** A base-16 numeral is consumed up to its terminator and gives its number modulo 2^32. */
  lemma ScanNumeral(v: nat, rest: seq<byte>)
    ensures Scan(Numeral(v, 16) + [0] + rest, 0, 0) == (|Numeral(v, 16)|, Wrap(v))
  {
    var t := Numeral(v, 16);
    NumeralDenotes(v, 16);
    HexValueIsValue(t);
    var s := t + [0] + rest;
    assert s[..|t|] == t && Hex(s[|t|]) == -1 && HexValue(s[..0]) == 0;
    hide Numeral, HexValue, Scan;
    ScanReads(s, 0, |t|, 0);
  }

  /**
   `hexToInt` on what `itoa` wrote in base 16 consumes the whole numeral; it gives
   the value back exactly for nonnegative numbers and for the smallest one, since
   `itoa` drops the sign in base 16.
   */
  lemma ScanItoa(value: int, rest: seq<byte>)
    requires INT_MIN <= value <= INT_MAX
    ensures var t := Text(value, 16);
            var (end, w) := Scan(t + [0] + rest, 0, 0);
            end == |t| && w < TWO32 && (Signed(w) == value <==> value >= 0 || value == INT_MIN)
  {
    hide Numeral, Scan;
    ScanNumeral(Abs(value), rest);
    assert Text(value, 16) == Numeral(Abs(value), 16) by {
      assert [] + Numeral(Abs(value), 16) == Numeral(Abs(value), 16);
    }
    hide Text;
    SignedMagnitude(value);
  }

  lemma SignedMagnitude(value: int)
    requires INT_MIN <= value <= INT_MAX
    ensures Wrap(Abs(value)) == Abs(value)
    ensures Signed(Abs(value)) == value <==> value >= 0 || value == INT_MIN
  {
  }

  /** `hexToInt` from `buf[at]` on: the new position, the number of digits, and the word read. */
  method HexToInt(buf: array<byte>, at: nat) returns (end: nat, numChars: nat, value: nat)
    requires exists z :: at <= z < buf.Length && buf[z] == 0
    ensures (end, value) == Scan(buf[..], at, 0) && numChars == end - at
    ensures at <= end < buf.Length && value < TWO32
  {
    ghost var z :| at <= z < buf.Length && buf[z] == 0;
    ghost var s := buf[..];
    end, numChars, value := at, 0, 0;
    while buf[end] != 0
      invariant at <= end <= z && numChars == end - at && value < TWO32
      invariant Scan(s, end, value) == Scan(s, at, 0)
      decreases z - end
    {
      var hexValue := Hex(buf[end]);
      if hexValue >= 0 {
        ShiftOr(value, hexValue);
        value := Or(Wrap(value * 16), hexValue);
        numChars := numChars + 1;
      } else {
        break;
      }
      end := end + 1;
    }
    assert Hex(buf[end]) < 0;
  }
}
