/** Hex text and the conversions the signer performs between hex text, byte
    strings and numbers: `padToEven`, hex decoding into a `Buffer`, hex
    rendering of a `Buffer`, `BN.toString(16)` and `bnToBuffer`. */
module Hex {
  import opened Bytes

  predicate IsHexDigit(c: char)
  {
    '0' <= c <= '9' || 'a' <= c <= 'f' || 'A' <= c <= 'F'
  }

  predicate AllHex(s: string)
  {
    forall i :: 0 <= i < |s| ==> IsHexDigit(s[i])
  }

  /** The digits `BN.toString(16)` and `Buffer.toString('hex')` produce. */
  predicate IsLowerHexDigit(c: char)
  {
    '0' <= c <= '9' || 'a' <= c <= 'f'
  }

  /** The value of one hex digit, either case. */
  function DigitValue(c: char): (d: nat)
    requires IsHexDigit(c)
    ensures d < 16
  {
    if c <= '9' then c as nat - '0' as nat
    else if c <= 'F' then c as nat - 'A' as nat + 10
    else c as nat - 'a' as nat + 10
  }

  /** The lower-case digit for `d`, the only case the source ever renders. */
  function LowerDigit(d: nat): (c: char)
    requires d < 16
    ensures IsHexDigit(c) && IsLowerHexDigit(c) && DigitValue(c) == d
    ensures c == '0' <==> d == 0
  {
    if d < 10 then ('0' as nat + d) as char else ('a' as nat + d - 10) as char
  }

  /** The number a string of hex digits denotes, most significant first. */
  function HexValue(s: string): nat
    requires AllHex(s)
  {
    if s == [] then 0 else HexValue(s[..|s| - 1]) * 16 + DigitValue(s[|s| - 1])
  }

  /** `stripHexPrefix`: drops a leading lower-case "0x" and nothing else. */
  function StripHexPrefix(s: string): (r: string)
    ensures |s| >= 2 && s[0] == '0' && s[1] == 'x' ==> "0x" + r == s
    ensures !(|s| >= 2 && s[0] == '0' && s[1] == 'x') ==> r == s
  {
    if |s| >= 2 && s[..2] == "0x" then s[2..] else s
  }

  /** Hex text as callers supply it: optionally "0x", then hex digits. */
  predicate IsHexText(s: string)
  {
    AllHex(StripHexPrefix(s))
  }

  type HexText = s: string | IsHexText(s) witness ""

  /** `padToEven`: a string of even length obtained by prepending a single
      '0' to an odd-length string and leaving an even-length one alone. */
  function PadToEven(s: string): (r: string)
    ensures |r| % 2 == 0
    ensures |s| % 2 == 1 ==> r == "0" + s
    ensures |s| % 2 == 0 ==> r == s
  {
    if |s| % 2 == 1 then "0" + s else s
  }

  lemma {:induction false} LeadingZeroDigitIgnored(s: string)
    requires AllHex(s)
    ensures AllHex("0" + s) && HexValue("0" + s) == HexValue(s)
  {
    if s != [] {
      assert ("0" + s)[..|s|] == "0" + s[..|s| - 1];
      LeadingZeroDigitIgnored(s[..|s| - 1]);
    }
  }

  /** Padding keeps hex text hex and does not change the number it denotes. */
  lemma PadToEvenKeepsValue(s: string)
    requires AllHex(s)
    ensures AllHex(PadToEven(s)) && HexValue(PadToEven(s)) == HexValue(s)
  {
    if |s| % 2 == 1 {
      LeadingZeroDigitIgnored(s);
    }
  }

  /** Node's hex decoding into a `Buffer`: each pair of digits is one byte,
      and a trailing unpaired digit is dropped. */
  function HexToBytes(s: string): (b: seq<Byte>)
    requires AllHex(s)
    ensures |b| == |s| / 2
  {
    if |s| < 2 then [] else [DigitValue(s[0]) * 16 + DigitValue(s[1])] + HexToBytes(s[2..])
  }

  /** An unpaired last digit contributes nothing: decoding odd-length text
      is decoding it without its last digit. */
  lemma {:induction false} HexToBytesDropsLastDigit(s: string)
    requires AllHex(s) && |s| % 2 == 1
    ensures HexToBytes(s) == HexToBytes(s[..|s| - 1])
  {
    if |s| >= 2 {
      var t := s[..|s| - 1];
      assert s[2..][..|s| - 3] == t[2..];
      HexToBytesDropsLastDigit(s[2..]);
      assert t[0] == s[0] && t[1] == s[1];
    }
  }

  /** `Buffer.toString('hex')`: two lower-case digits per byte. */
  function BytesToHex(b: seq<Byte>): (s: string)
    ensures |s| == 2 * |b| && AllHex(s)
    ensures forall i :: 0 <= i < |s| ==> IsLowerHexDigit(s[i])
  {
    if b == [] then "" else [LowerDigit(b[0] / 16), LowerDigit(b[0] % 16)] + BytesToHex(b[1..])
  }

  /** Decoding the hex rendering of a byte string gives the byte string back. */
  lemma {:induction false} HexRoundTrip(b: seq<Byte>)
    ensures HexToBytes(BytesToHex(b)) == b
  {
    if b != [] {
      var s := BytesToHex(b);
      assert s[2..] == BytesToHex(b[1..]);
      HexRoundTrip(b[1..]);
    }
  }

  lemma {:induction false} HexToBytesSnoc(s: string)
    requires AllHex(s) && |s| % 2 == 0 && |s| >= 2
    ensures HexToBytes(s) == HexToBytes(s[..|s| - 2]) + [DigitValue(s[|s| - 2]) * 16 + DigitValue(s[|s| - 1])]
  {
    var last := [DigitValue(s[|s| - 2]) * 16 + DigitValue(s[|s| - 1])];
    if |s| == 2 {
      assert s[..0] == [];
    } else {
      var t, p := s[2..], s[..|s| - 2];
      var first := [DigitValue(s[0]) * 16 + DigitValue(s[1])];
      HexToBytesSnoc(t);
      assert t[..|t| - 2] == p[2..];
      assert t[|t| - 2] == s[|s| - 2] && t[|t| - 1] == s[|s| - 1];
      assert HexToBytes(t) == HexToBytes(p[2..]) + last;
      assert p[0] == s[0] && p[1] == s[1];
      assert HexToBytes(p) == first + HexToBytes(p[2..]);
      assert HexToBytes(s) == first + HexToBytes(t);
    }
  }

  /** Byte `i` of the decoding is digits `2i` and `2i + 1` read as a pair. */
  lemma {:induction false} HexToBytesPairs(s: string)
    requires AllHex(s)
    ensures forall i :: 0 <= i < |s| / 2 ==> HexToBytes(s)[i] == DigitValue(s[2 * i]) * 16 + DigitValue(s[2 * i + 1])
  {
    if |s| >= 2 {
      var t := s[2..];
      HexToBytesPairs(t);
      assert HexToBytes(s) == [DigitValue(s[0]) * 16 + DigitValue(s[1])] + HexToBytes(t);
      forall i | 1 <= i < |s| / 2
        ensures HexToBytes(s)[i] == DigitValue(s[2 * i]) * 16 + DigitValue(s[2 * i + 1])
      {
        assert HexToBytes(s)[i] == HexToBytes(t)[i - 1];
        assert t[2 * (i - 1)] == s[2 * i] && t[2 * (i - 1) + 1] == s[2 * i + 1];
      }
    }
  }

  /** Decoding an even number of hex digits yields bytes denoting the same
      number, digit for digit: leading zero digits become leading zero bytes. */
  lemma {:induction false} HexToBytesValue(s: string)
    requires AllHex(s) && |s| % 2 == 0
    ensures BigEndian(HexToBytes(s)) == HexValue(s)
    decreases |s|
  {
    if s != [] {
      var p := s[..|s| - 2];
      var a, c := DigitValue(s[|s| - 2]), DigitValue(s[|s| - 1]);
      HexToBytesSnoc(s);
      BigEndianSnoc(HexToBytes(p), a * 16 + c);
      HexToBytesValue(p);
      assert s[..|s| - 1][..|s| - 2] == p;
      assert HexValue(s) == (HexValue(p) * 16 + a) * 16 + c;
    }
  }

  /** `BN.toString(16)` of a non-negative number: lower-case hex digits with no
      leading zero, "0" for zero, denoting the number. */
  function ToHex(n: nat): (s: string)
    ensures AllHex(s) && HexValue(s) == n
    ensures forall i :: 0 <= i < |s| ==> IsLowerHexDigit(s[i])
    ensures |s| >= 1 && (s[0] == '0' <==> n == 0)
    ensures n == 0 ==> s == "0"
  {
    if n < 16 then [LowerDigit(n)]
    else
      var h := ToHex(n / 16);
      assert (h + [LowerDigit(n % 16)])[..|h|] == h;
      h + [LowerDigit(n % 16)]
  }

  predicate IsDecimalDigit(c: char)
  {
    '0' <= c <= '9'
  }

  predicate AllDecimal(s: string)
  {
    forall i :: 0 <= i < |s| ==> IsDecimalDigit(s[i])
  }

  /** The number a string of decimal digits denotes, most significant first. */
  function DecimalValue(s: string): nat
    requires AllDecimal(s)
  {
    if s == [] then 0 else DecimalValue(s[..|s| - 1]) * 10 + (s[|s| - 1] as nat - '0' as nat)
  }

  /** `bnToBuffer`: hex-render the number, pad to whole bytes, decode, strip
      zeros. The result is the canonical big-endian encoding of `n`. */
  function BnToBuffer(n: nat): (b: seq<Byte>)
    ensures Canonical(b) && BigEndian(b) == n
    ensures b == [] <==> n == 0
  {
    var h := ToHex(n);
    PadToEvenKeepsValue(h);
    HexToBytesValue(PadToEven(h));
    StripZerosKeepsValue(HexToBytes(PadToEven(h)));
    StripZeros(HexToBytes(PadToEven(h)))
  }

  /** Every canonical byte string is `bnToBuffer` of the number it denotes, so
      `bnToBuffer` is exactly the minimal big-endian encoding. */
  lemma BnToBufferOfCanonical(b: seq<Byte>)
    requires Canonical(b)
    ensures BnToBuffer(BigEndian(b)) == b
  {
    CanonicalUnique(BnToBuffer(BigEndian(b)), b);
  }

  /** Zero-stripping any byte string gives the minimal encoding of its value. */
  lemma StripZerosIsMinimalEncoding(b: seq<Byte>)
    ensures StripZeros(b) == BnToBuffer(BigEndian(b))
  {
    StripZerosKeepsValue(b);
    BnToBufferOfCanonical(StripZeros(b));
  }
}
