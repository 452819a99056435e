/** Byte strings as Node's `Buffer` holds them, their big-endian reading, and
    the `stripZeros` helper of the signer. */
module Bytes {

  /** One octet. */
  type Byte = b: nat | b < 256

  /** The number a byte string denotes read big-endian (most significant byte
      first), by Horner's rule from the last byte. */
  function BigEndian(b: seq<Byte>): nat
  {
    if b == [] then 0 else BigEndian(b[..|b| - 1]) * 256 + b[|b| - 1]
  }

  function Pow256(k: nat): (r: nat)
    ensures r >= 1
  {
    if k == 0 then 1 else 256 * Pow256(k - 1)
  }

  /** A byte string with no leading zero byte: the minimal encoding of its value. */
  predicate Canonical(b: seq<Byte>)
  {
    b == [] || b[0] != 0
  }

  /** `stripZeros`: the longest suffix of `b` that does not start with a zero
      byte. Every byte removed is zero, and what remains is canonical. */
  function StripZeros(b: seq<Byte>): (r: seq<Byte>)
    ensures |r| <= |b| && r == b[|b| - |r|..]
    ensures forall i :: 0 <= i < |b| - |r| ==> b[i] == 0
    ensures Canonical(r)
  {
    if b != [] && b[0] == 0 then StripZeros(b[1..]) else b
  }

  /** The scan the source performs: advance past zero bytes, then slice,
      returning the input itself when nothing was skipped. */
  method StripZerosScan(buffer: seq<Byte>) returns (r: seq<Byte>)
    ensures r == StripZeros(buffer)
    ensures BigEndian(r) == BigEndian(buffer)
  {
    var i := 0;
    while i < |buffer|
      invariant 0 <= i <= |buffer|
      invariant StripZeros(buffer[i..]) == StripZeros(buffer)
    {
      if buffer[i] != 0 {
        break;
      }
      assert buffer[i..][1..] == buffer[i + 1..];
      i := i + 1;
    }
    r := if i > 0 then buffer[i..] else buffer;
    StripZerosKeepsValue(buffer);
  }

  /** Stripping an already stripped string changes nothing. */
  lemma StripZerosIdempotent(b: seq<Byte>)
    ensures StripZeros(StripZeros(b)) == StripZeros(b)
  {
  }

  /** `stripZeros` is the identity exactly on canonical strings. */
  lemma StripZerosFixesCanonical(b: seq<Byte>)
    ensures StripZeros(b) == b <==> Canonical(b)
  {
  }

  lemma {:induction false} LeadingZeroIgnored(b: seq<Byte>)
    ensures BigEndian([0] + b) == BigEndian(b)
  {
    if b != [] {
      assert ([0] + b)[..|b|] == [0] + b[..|b| - 1];
      LeadingZeroIgnored(b[..|b| - 1]);
    }
  }

  /** Removing leading zero bytes does not change the number denoted. */
  lemma {:induction false} StripZerosKeepsValue(b: seq<Byte>)
    ensures BigEndian(StripZeros(b)) == BigEndian(b)
    decreases |b|
  {
    if b != [] && b[0] == 0 {
      assert b == [0] + b[1..];
      LeadingZeroIgnored(b[1..]);
      StripZerosKeepsValue(b[1..]);
    }
  }

  lemma BigEndianSnoc(b: seq<Byte>, x: Byte)
    ensures BigEndian(b + [x]) == BigEndian(b) * 256 + x
  {
    assert (b + [x])[..|b|] == b;
  }

  /** A string of `k` bytes denotes a number below 256^k. */
  lemma {:induction false} BigEndianBelow(b: seq<Byte>)
    ensures BigEndian(b) < Pow256(|b|)
  {
    if b != [] {
      var p := b[..|b| - 1];
      BigEndianBelow(p);
      assert BigEndian(p) + 1 <= Pow256(|p|);
      assert BigEndian(p) * 256 + 256 <= Pow256(|p|) * 256;
    }
  }

  /** A nonempty canonical string of `k` bytes denotes at least 256^(k-1). */
  lemma {:induction false} CanonicalAtLeast(b: seq<Byte>)
    requires b != [] && Canonical(b)
    ensures BigEndian(b) >= Pow256(|b| - 1)
  {
    if |b| > 1 {
      var p := b[..|b| - 1];
      assert p[0] == b[0];
      CanonicalAtLeast(p);
      assert BigEndian(p) * 256 >= Pow256(|p| - 1) * 256;
    }
  }

  lemma {:induction false} Pow256Monotonic(j: nat, k: nat)
    requires j <= k
    ensures Pow256(j) <= Pow256(k)
  {
    if j < k {
      Pow256Monotonic(j, k - 1);
    }
  }

  /** For a canonical string, fitting in `max` bytes is the same as denoting a
      number below 256^max: this is what a byte-length limit on a zero-stripped
      numeric field means. */
  lemma CanonicalLengthBound(b: seq<Byte>, max: nat)
    requires Canonical(b)
    ensures |b| <= max <==> BigEndian(b) < Pow256(max)
  {
    BigEndianBelow(b);
    if |b| <= max {
      Pow256Monotonic(|b|, max);
    } else {
      CanonicalAtLeast(b);
      Pow256Monotonic(max, |b| - 1);
    }
  }

  /** Two canonical strings that denote the same number are equal: the
      canonical encoding of a number is unique. */
  lemma {:induction false} CanonicalUnique(b: seq<Byte>, c: seq<Byte>)
    requires Canonical(b) && Canonical(c)
    requires BigEndian(b) == BigEndian(c)
    ensures b == c
    decreases |b|
  {
    if b == [] || c == [] {
      if b != [] {
        CanonicalAtLeast(b);
      }
      if c != [] {
        CanonicalAtLeast(c);
      }
    } else {
      var pb, pc := b[..|b| - 1], c[..|c| - 1];
      assert pb == [] || pb[0] == b[0];
      assert pc == [] || pc[0] == c[0];
      assert b[|b| - 1] == BigEndian(b) % 256 && BigEndian(pb) == BigEndian(b) / 256;
      assert c[|c| - 1] == BigEndian(c) % 256 && BigEndian(pc) == BigEndian(c) / 256;
      CanonicalUnique(pb, pc);
      assert b == pb + [b[|b| - 1]] && c == pc + [c[|c| - 1]];
    }
  }
}
