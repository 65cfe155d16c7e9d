/**
 * Base16 as Node's Buffer does it: `toString('hex')` writes the lower-case
 * alphabet of RFC 4648, section 8, and `Buffer.from(s, 'hex')` reads either
 * case, two characters per octet, from the left.
 */
module Hex {
  import opened Wrappers

  /** An octet. */
  type byte = x: int | 0 <= x < 0x100
  type Bytes = seq<byte>

  predicate IsLowerHexDigit(c: char) {
    '0' <= c <= '9' || 'a' <= c <= 'f'
  }

  predicate IsLowerHex(s: string) {
    forall i :: 0 <= i < |s| ==> IsLowerHexDigit(s[i])
  }

  /** The lower-case form of a character, for the letters `A`..`F`. */
  function Lower(c: char): (l: char) {
    if 'A' <= c <= 'F' then (c as int - 'A' as int + 'a' as int) as char else c
  }

  /** The value of a hex digit of either case; None for any other character.
      The value is the one whose lower-case digit is the character. */
  function DigitValue(c: char): (r: Option<nat>)
    ensures r.Some? <==> ('0' <= c <= '9' || 'a' <= c <= 'f' || 'A' <= c <= 'F')
    ensures r.Some? ==> r.value < 16 && Digit(r.value) == Lower(c)
  {
    if '0' <= c <= '9' then Some(c as int - '0' as int)
    else if 'a' <= c <= 'f' then Some(c as int - 'a' as int + 10)
    else if 'A' <= c <= 'F' then Some(c as int - 'A' as int + 10)
    else None
  }

  /** The lower-case digit for a nibble; the reader gives its value back. */
  function Digit(n: nat): (c: char)
    requires n < 16
    ensures IsLowerHexDigit(c)
  {
    if n < 10 then ('0' as int + n) as char else ('a' as int + n - 10) as char
  }

  /** Reading a lower-case digit gives back its nibble. */
  lemma DigitRead(n: nat)
    requires n < 16
    ensures DigitValue(Digit(n)) == Some(n)
  {
  }

  /** `buf.toString('hex')`: two lower-case digits per octet, high nibble first. */
  function Encode(b: Bytes): (s: string)
    ensures |s| == 2 * |b|
    ensures IsLowerHex(s)
  {
    if b == [] then "" else [Digit(b[0] / 16), Digit(b[0] % 16)] + Encode(b[1..])
  }

  /**
   * `Buffer.from(s, 'hex')`: reads pairs of digits from the left and stops at
   * the first pair that is not two hex digits; a last unpaired character is
   * dropped.
   */
  function Decode(s: string): (b: Bytes)
    ensures |b| <= |s| / 2
  {
    if |s| < 2 then []
    else match (DigitValue(s[0]), DigitValue(s[1]))
      case (Some(hi), Some(lo)) => [hi * 16 + lo] + Decode(s[2..])
      case _ => []
  }

  /** Decoding inverts encoding. */
  lemma {:induction false} DecodeEncode(b: Bytes)
    ensures Decode(Encode(b)) == b
  {
    if b != [] {
      var s := Encode(b);
      assert s[2..] == Encode(b[1..]);
      DigitRead(b[0] / 16);
      DigitRead(b[0] % 16);
      assert DigitValue(s[0]) == Some(b[0] / 16) && DigitValue(s[1]) == Some(b[0] % 16);
      DecodeEncode(b[1..]);
    }
  }

  /** Reading stops at a character that is not a hex digit: whatever follows
      the encoding of `b` from there on is ignored. */
  lemma {:induction false} DecodeStops(b: Bytes, t: string)
    requires t != [] && DigitValue(t[0]).None?
    ensures Decode(Encode(b) + t) == b
  {
    var s := Encode(b) + t;
    if b == [] {
      assert s == t;
    } else {
      assert s[2..] == Encode(b[1..]) + t;
      DigitRead(b[0] / 16);
      DigitRead(b[0] % 16);
      DecodeStops(b[1..], t);
    }
  }

  /** A string of hex digits only, of either case, decodes in full. */
  lemma {:induction false} DecodeLength(s: string)
    requires forall i :: 0 <= i < |s| ==> DigitValue(s[i]).Some?
    ensures |Decode(s)| == |s| / 2
  {
    if |s| >= 2 {
      assert DigitValue(s[0]).Some? && DigitValue(s[1]).Some?;
      DecodeLength(s[2..]);
    }
  }

  /** No hex digit is the envelope delimiter or any other punctuation. */
  lemma LowerHexHasNo(s: string, c: char)
    requires IsLowerHex(s)
    requires !IsLowerHexDigit(c)
    ensures c !in s
  {
  }
}
