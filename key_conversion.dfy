/**
 * Hex-to-bytes conversion of symmetric key material (base16 decoding in the
 * sense of section 8 of RFC 4648, without its rejection of odd-length input).
 *
 * The converter walks the string two characters at a time and reads each
 * slice of at most two characters as a base-16 number; a trailing lone
 * character becomes one more element, holding the value of that single digit.
 */
module KeyConversion {

  predicate IsHexDigit(c: char) {
    '0' <= c <= '9' || 'a' <= c <= 'f' || 'A' <= c <= 'F'
  }

  predicate IsHex(s: string) {
    forall i :: 0 <= i < |s| ==> IsHexDigit(s[i])
  }

  predicate IsLowerHex(s: string) {
    forall i :: 0 <= i < |s| ==> '0' <= s[i] <= '9' || 'a' <= s[i] <= 'f'
  }

  /** The value of one hexadecimal digit, in either case. */
  function DigitValue(c: char): (v: nat)
    requires IsHexDigit(c)
    ensures v < 16
  {
    if c <= '9' then c as int - '0' as int
    else if c <= 'F' then c as int - 'A' as int + 10
    else c as int - 'a' as int + 10
  }

  /** The case-folded form of a hexadecimal digit. */
  function LowerDigit(c: char): (d: char)
    requires IsHexDigit(c)
    ensures IsHexDigit(d) && DigitValue(d) == DigitValue(c)
    ensures '0' <= d <= '9' || 'a' <= d <= 'f'
  {
    if 'A' <= c <= 'F' then (c as int - 'A' as int + 'a' as int) as char else c
  }

  /** The number a string of hexadecimal digits denotes, most significant digit first. */
  function RadixValue(s: string): nat
    requires IsHex(s)
  {
    if s == [] then 0 else 16 * RadixValue(s[..|s| - 1]) + DigitValue(s[|s| - 1])
  }

  function Min(a: int, b: int): int {
    if a <= b then a else b
  }

  /** The k-th slice the converter reads: two characters from offset 2k, or the last one. */
  function Pair(hex: string, k: nat): (p: string)
    requires 2 * k < |hex|
    ensures 1 <= |p| <= 2 && (|p| == 2 <==> 2 * k + 1 < |hex|)
  {
    hex[2 * k..Min(2 * k + 2, |hex|)]
  }

  /** Reference definition of the conversion, one slice at a time from the front. */
  function Decode(hex: string): seq<nat>
    requires IsHex(hex)
    decreases |hex|
  {
    if hex == [] then []
    else if |hex| == 1 then [RadixValue(hex)]
    else [RadixValue(hex[..2])] + Decode(hex[2..])
  }

  /** The converter itself: the stride-2 loop that appends one number per slice. */
  method HexToBytes(hex: string) returns (bytes: seq<nat>)
    requires IsHex(hex)
    ensures |bytes| == (|hex| + 1) / 2
    ensures forall k :: 0 <= k < |bytes| ==> bytes[k] == RadixValue(Pair(hex, k))
    ensures bytes == Decode(hex)
  {
    bytes := [];
    var i := 0;
    while i < |hex|
      invariant i == 2 * |bytes| && i <= |hex| + 1
      invariant forall k :: 0 <= k < |bytes| ==> bytes[k] == RadixValue(Pair(hex, k))
    {
      var piece := hex[i..Min(i + 2, |hex|)];
      assert piece == Pair(hex, |bytes|);
      bytes := bytes + [RadixValue(piece)];
      i := i + 2;
    }
    DecodeSpec(hex);
  }

  lemma RadixValueOfOne(c: char)
    requires IsHexDigit(c)
    ensures RadixValue([c]) == DigitValue(c)
  {
  }

  lemma RadixValueOfTwo(c: char, d: char)
    requires IsHexDigit(c) && IsHexDigit(d)
    ensures RadixValue([c, d]) == 16 * DigitValue(c) + DigitValue(d) <= 255
  {
    assert [c, d][..1] == [c];
    RadixValueOfOne(c);
  }

  /** The reference definition has one element per slice, equal to that slice's value. */
  lemma {:induction false} DecodeSpec(hex: string)
    requires IsHex(hex)
    ensures |Decode(hex)| == (|hex| + 1) / 2
    ensures forall k :: 0 <= k < |Decode(hex)| ==> Decode(hex)[k] == RadixValue(Pair(hex, k))
    decreases |hex|
  {
    if |hex| >= 2 {
      var tail := hex[2..];
      DecodeSpec(tail);
      forall k | 0 <= k < |Decode(hex)|
        ensures Decode(hex)[k] == RadixValue(Pair(hex, k))
      {
        if k > 0 {
          assert Pair(hex, k) == Pair(tail, k - 1);
        }
      }
    }
  }

  /** Element k of a full slice is 16 times its first digit plus its second, a byte value. */
  lemma ByteAt(hex: string, k: nat)
    requires IsHex(hex) && 2 * k + 1 < |hex|
    ensures k < |Decode(hex)|
    ensures Decode(hex)[k] == 16 * DigitValue(hex[2 * k]) + DigitValue(hex[2 * k + 1])
    ensures Decode(hex)[k] <= 255
  {
    DecodeSpec(hex);
    assert Pair(hex, k) == [hex[2 * k], hex[2 * k + 1]];
    RadixValueOfTwo(hex[2 * k], hex[2 * k + 1]);
  }

  /** Odd-length input is not rejected: the trailing digit becomes a last element below 16. */
  lemma OddLengthTail(hex: string)
    requires IsHex(hex) && |hex| % 2 == 1
    ensures |Decode(hex)| == |hex| / 2 + 1
    ensures Decode(hex)[|hex| / 2] == DigitValue(hex[|hex| - 1]) < 16
  {
    DecodeSpec(hex);
    assert Pair(hex, |hex| / 2) == [hex[|hex| - 1]];
    RadixValueOfOne(hex[|hex| - 1]);
  }

  /** Every element lies in [0, 255]. */
  lemma DecodeIsBytes(hex: string)
    requires IsHex(hex)
    ensures forall k :: 0 <= k < |Decode(hex)| ==> Decode(hex)[k] <= 255
  {
    DecodeSpec(hex);
    forall k | 0 <= k < |Decode(hex)|
      ensures Decode(hex)[k] <= 255
    {
      if 2 * k + 1 < |hex| {
        ByteAt(hex, k);
      } else {
        assert Pair(hex, k) == [hex[2 * k]];
        RadixValueOfOne(hex[2 * k]);
      }
    }
  }

  /** Splitting the input at an even offset splits the output. */
  lemma {:induction false} DecodeAppend(a: string, b: string)
    requires IsHex(a) && IsHex(b) && |a| % 2 == 0
    ensures IsHex(a + b)
    ensures Decode(a + b) == Decode(a) + Decode(b)
    decreases |a|
  {
    assert IsHex(a + b) by {
      forall i | 0 <= i < |a + b| ensures IsHexDigit((a + b)[i]) {
        if i >= |a| { assert (a + b)[i] == b[i - |a|]; }
      }
    }
    if a == [] {
      assert a + b == b;
    } else {
      DecodeAppend(a[2..], b);
      assert (a + b)[..2] == a[..2];
      assert (a + b)[2..] == a[2..] + b;
    }
  }

  /** Upper- and lower-case digits decode alike. */
  lemma {:induction false} DecodeIgnoresCase(s: string, t: string)
    requires IsHex(s) && IsHex(t) && |s| == |t|
    requires forall i :: 0 <= i < |s| ==> LowerDigit(s[i]) == LowerDigit(t[i])
    ensures Decode(s) == Decode(t)
    decreases |s|
  {
    if |s| == 1 {
      RadixValueOfOne(s[0]);
      RadixValueOfOne(t[0]);
      assert s == [s[0]] && t == [t[0]];
    } else if |s| >= 2 {
      DecodeIgnoresCase(s[2..], t[2..]);
      RadixValueOfTwo(s[0], s[1]);
      RadixValueOfTwo(t[0], t[1]);
      assert s[..2] == [s[0], s[1]] && t[..2] == [t[0], t[1]];
    }
  }

  /** The lower-case digit for a value below 16. */
  function HexChar(v: nat): (c: char)
    requires v < 16
    ensures IsHexDigit(c) && DigitValue(c) == v
    ensures '0' <= c <= '9' || 'a' <= c <= 'f'
  {
    if v < 10 then ('0' as int + v) as char else ('a' as int + v - 10) as char
  }

  /** Byte-to-hex re-encoding: two lower-case digits per byte. */
  function Encode(bytes: seq<nat>): (hex: string)
    requires forall k :: 0 <= k < |bytes| ==> bytes[k] <= 255
    ensures |hex| == 2 * |bytes| && IsHex(hex) && IsLowerHex(hex)
  {
    if bytes == [] then []
    else [HexChar(bytes[0] / 16), HexChar(bytes[0] % 16)] + Encode(bytes[1..])
  }

  /** A lower-case digit is its own case-folded form, so the digit of its value is itself. */
  lemma HexCharOfDigit(c: char)
    requires '0' <= c <= '9' || 'a' <= c <= 'f'
    ensures IsHexDigit(c) && HexChar(DigitValue(c)) == c
  {
  }

  /** Round trip: an even-length lower-case hex string is recovered from its bytes. */
  lemma {:induction false} EncodeDecode(hex: string)
    requires IsHex(hex) && IsLowerHex(hex) && |hex| % 2 == 0
    ensures forall k :: 0 <= k < |Decode(hex)| ==> Decode(hex)[k] <= 255
    ensures Encode(Decode(hex)) == hex
    decreases |hex|
  {
    DecodeIsBytes(hex);
    if hex != [] {
      var tail := hex[2..];
      assert IsLowerHex(tail);
      EncodeDecode(tail);
      RadixValueOfTwo(hex[0], hex[1]);
      assert hex[..2] == [hex[0], hex[1]];
      var v := RadixValue(hex[..2]);
      assert v / 16 == DigitValue(hex[0]) && v % 16 == DigitValue(hex[1]);
      HexCharOfDigit(hex[0]);
      HexCharOfDigit(hex[1]);
      assert Decode(hex)[1..] == Decode(tail);
      assert hex == [hex[0], hex[1]] + tail;
    }
  }

  /** Round trip the other way: bytes are recovered from their encoding. */
  lemma {:induction false} DecodeEncode(bytes: seq<nat>)
    requires forall k :: 0 <= k < |bytes| ==> bytes[k] <= 255
    ensures Decode(Encode(bytes)) == bytes
    decreases |bytes|
  {
    if bytes != [] {
      var hex := Encode(bytes);
      DecodeEncode(bytes[1..]);
      var hi, lo := HexChar(bytes[0] / 16), HexChar(bytes[0] % 16);
      assert hex[..2] == [hi, lo] && hex[2..] == Encode(bytes[1..]);
      RadixValueOfTwo(hi, lo);
    }
  }
}
