/** `recover`: normalise the raw transaction to bytes, RLP-decode it, hash the
    first six decoded elements, and recover the public key with recovery id
    `v - 27`. */
module Recoverer {
  import opened Wrappers
  import opened Bytes
  import opened Hex
  import opened Errors
  import opened External
  import opened Signer

  /** The raw transaction argument: a hex string (optionally "0x"-prefixed) or bytes. */
  datatype RawTx = RawHex(text: HexText) | RawBuffer(bytes: seq<Byte>)

  /** The bytes `recover` decodes: a string is hex-decoded after dropping its
      prefix (with no padding, so an unpaired final digit is lost); bytes are
      used as they are. */
  function RawTxBytes(raw: RawTx): (b: seq<Byte>)
    ensures raw.RawBuffer? ==> b == raw.bytes
    ensures raw.RawHex? ==>
              var digits := StripHexPrefix(raw.text);
              && |b| == |digits| / 2
              && (|digits| % 2 == 0 ==> BigEndian(b) == HexValue(digits))
              && (|digits| % 2 == 1 ==> b == HexToBytes(digits[..|digits| - 1]))
  {
    match raw
    case RawHex(text) =>
      var digits := StripHexPrefix(text);
      if |digits| % 2 == 0 then
        HexToBytesValue(digits);
        HexToBytes(digits)
      else
        HexToBytesDropsLastDigit(digits);
        HexToBytes(digits)
    case RawBuffer(bytes) => bytes
  }

  /** The six positional slots filled from the decoded list: element `i` when
      it exists and the empty string (what RLP makes of `undefined`) when it
      does not. Elements after the sixth are ignored. */
  function UnsignedItems(items: seq<RlpItem>): (r: seq<RlpItem>)
    ensures |r| == 6
    ensures forall i :: 0 <= i < 6 && i < |items| ==> r[i] == items[i]
    ensures forall i :: |items| <= i < 6 ==> r[i] == Str([])
  {
    seq(6, i requires 0 <= i < 6 => if i < |items| then items[i] else Str([]))
  }

  /** The six fields a decoded list of byte strings contributes: its first
      six, with the empty string for each one missing. */
  function SixSlots(l: seq<seq<Byte>>): (f: seq<seq<Byte>>)
    ensures |f| == 6
    ensures forall i :: 0 <= i < 6 && i < |l| ==> f[i] == l[i]
    ensures forall i :: |l| <= i < 6 ==> f[i] == []
    ensures |l| >= 6 ==> f == l[..6]
  {
    seq(6, i requires 0 <= i < 6 => if i < |l| then l[i] else [])
  }

  /** Filling the six slots of a decoded list of byte strings re-encodes as
      the list of its six fields. */
  lemma SlotsOfStrList()
    ensures forall l :: List(UnsignedItems(StrList(l).items)) == StrList(SixSlots(l))
  {
    forall l: seq<seq<Byte>>
      ensures List(UnsignedItems(StrList(l).items)) == StrList(SixSlots(l))
    {
      assert UnsignedItems(StrList(l).items) == StrList(SixSlots(l)).items;
    }
  }

  /** The digest `recover` reconstructs: for a decoded list of byte strings,
      the digest `sign` computes for its first six (missing ones empty).
      Input that does not decode to a list is malformed. */
  function RecoverDigest(p: Primitives, raw: RawTx): (r: Result<seq<Byte>, Error>)
    ensures r.Failure? ==> r.error == MalformedEncoding
    ensures r.Success? <==> p.rlpDecode(RawTxBytes(raw)).Some? && p.rlpDecode(RawTxBytes(raw)).value.List?
    ensures forall l :: p.rlpDecode(RawTxBytes(raw)) == Some(StrList(l)) ==> r == Success(Digest(p, SixSlots(l)))
  {
    SlotsOfStrList();
    match p.rlpDecode(RawTxBytes(raw))
    case None => Failure(MalformedEncoding)
    case Some(Str(_)) => Failure(MalformedEncoding)
    case Some(List(items)) => Success(p.keccak256(p.rlpEncode(List(UnsignedItems(items)))))
  }

  /** The curve library's recovery, with the format byte of the uncompressed
      point encoding dropped (`slice(1)`). */
  function RecoverPoint(p: Primitives, digest: seq<Byte>, r: nat, s: nat, recoveryId: int): (k: Result<seq<Byte>, Error>)
    ensures k.Success? <==> p.ecdsaRecover(digest, r, s, recoveryId).Some?
    ensures k.Failure? ==> k.error == RecoveryFailed
    ensures k.Success? ==>
              var point := p.ecdsaRecover(digest, r, s, recoveryId).value;
              if point == [] then k.value == [] else point == [point[0]] + k.value
  {
    match p.ecdsaRecover(digest, r, s, recoveryId)
    case None => Failure(RecoveryFailed)
    case Some(point) => Success(if point == [] then [] else point[1..])
  }

  /** `recover`: for input that decodes to a list of byte strings, the curve
      library is asked about the digest `sign` computes for its first six
      fields, with r and s read big-endian and recovery id `v - 27`. Input that
      does not decode to a list is malformed. */
  function Recover(p: Primitives, raw: RawTx, v: int, r: seq<Byte>, s: seq<Byte>): (k: Result<seq<Byte>, Error>)
    ensures k == Failure(MalformedEncoding) <==>
              !(p.rlpDecode(RawTxBytes(raw)).Some? && p.rlpDecode(RawTxBytes(raw)).value.List?)
    ensures forall l :: p.rlpDecode(RawTxBytes(raw)) == Some(StrList(l)) ==>
              k == RecoverPoint(p, Digest(p, SixSlots(l)), BigEndian(r), BigEndian(s), v - 27)
  {
    var digest :- RecoverDigest(p, raw);
    RecoverPoint(p, digest, BigEndian(r), BigEndian(s), v - 27)
  }

  lemma HexRenderingIsHexText(b: seq<Byte>)
    ensures IsHexText(BytesToHex(b)) && StripHexPrefix(BytesToHex(b)) == BytesToHex(b)
    ensures IsHexText("0x" + BytesToHex(b)) && StripHexPrefix("0x" + BytesToHex(b)) == BytesToHex(b)
  {
    var h := BytesToHex(b);
    if |h| >= 2 {
      assert IsHexDigit(h[1]);
      assert h[..2] != "0x";
    }
    assert ("0x" + h)[..2] == "0x" && ("0x" + h)[2..] == h;
  }

  /** `Buffer.toString('hex')` of some bytes, optionally behind "0x", as a
      raw transaction string. */
  function RenderedHex(b: seq<Byte>, prefixed: bool): (t: HexText)
    ensures StripHexPrefix(t) == BytesToHex(b)
  {
    HexRenderingIsHexText(b);
    if prefixed then "0x" + BytesToHex(b) else BytesToHex(b)
  }

  /** `recover` depends on its raw input only through the bytes it normalises to. */
  lemma SameBytesSameRecovery(p: Primitives, raw1: RawTx, raw2: RawTx, v: int, r: seq<Byte>, s: seq<Byte>)
    requires RawTxBytes(raw1) == RawTxBytes(raw2)
    ensures Recover(p, raw1, v, r, s) == Recover(p, raw2, v, r, s)
  {
    assert RecoverDigest(p, raw1) == RecoverDigest(p, raw2);
  }

  /** A hex string, with or without its "0x" prefix, recovers exactly as the
      bytes it renders. */
  lemma RecoverHexOrBytes(p: Primitives, b: seq<Byte>, prefixed: bool, v: int, r: seq<Byte>, s: seq<Byte>)
    ensures Recover(p, RawHex(RenderedHex(b, prefixed)), v, r, s) == Recover(p, RawBuffer(b), v, r, s)
  {
    HexRoundTrip(b);
    assert RawTxBytes(RawHex(RenderedHex(b, prefixed))) == b;
    SameBytesSameRecovery(p, RawHex(RenderedHex(b, prefixed)), RawBuffer(b), v, r, s);
  }

  /** Only the first six decoded elements matter: two encodings that decode to
      lists agreeing on their first six elements (a signed nine-element list
      and its unsigned six-element prefix, say) recover identically. */
  lemma RecoverIgnoresTrailing(p: Primitives, b1: seq<Byte>, b2: seq<Byte>, v: int, r: seq<Byte>, s: seq<Byte>)
    requires p.rlpDecode(b1).Some? && p.rlpDecode(b1).value.List?
    requires p.rlpDecode(b2).Some? && p.rlpDecode(b2).value.List?
    requires |p.rlpDecode(b1).value.items| >= 6 && |p.rlpDecode(b2).value.items| >= 6
    requires p.rlpDecode(b1).value.items[..6] == p.rlpDecode(b2).value.items[..6]
    ensures Recover(p, RawBuffer(b1), v, r, s) == Recover(p, RawBuffer(b2), v, r, s)
  {
    var items1, items2 := p.rlpDecode(b1).value.items, p.rlpDecode(b2).value.items;
    assert UnsignedItems(items1) == items1[..6];
    assert UnsignedItems(items2) == items2[..6];
  }

  /** The digest `recover` rebuilds from an RLP-encoded list of at least six
      byte strings is the digest of its first six. */
  lemma RecoverDigestOfEncoded(p: Primitives, l: seq<seq<Byte>>)
    requires RlpRoundTrips(p)
    requires |l| >= 6
    ensures RecoverDigest(p, RawBuffer(p.rlpEncode(StrList(l)))) == Success(Digest(p, l[..6]))
  {
    assert p.rlpDecode(p.rlpEncode(StrList(l))) == Some(StrList(l));
    assert List(UnsignedItems(StrList(l).items)) == StrList(l[..6]);
  }

  /** The v, r and s elements of a signed list read back as the recovery id
      plus 27, r and s. */
  lemma SignatureFieldsReadBack(sig: Signature)
    requires sig.recoveryParam < 229
    ensures var f := SignatureFields(sig);
            BigEndian(f[0]) - 27 == sig.recoveryParam && BigEndian(f[1]) == sig.r && BigEndian(f[2]) == sig.s
  {
    var v := RecoveryByte(sig.recoveryParam);
    assert [v][..0] == [];
    assert BigEndian([v]) == v;
  }

  /** Recovery as the repository's tests perform it on the output of `sign`:
      from the hex string form, with v read from the seventh element and r and
      s taken from the eighth and ninth. */
  function RecoverFromSigned(p: Primitives, l: seq<seq<Byte>>): Result<seq<Byte>, Error>
    requires |l| == 9
  {
    Recover(p, RawHex(Serialize(p, l)), BigEndian(l[6]), l[7], l[8])
  }

  /** Recovering from the output of `sign` asks the curve library about
      exactly what was signed: the digest of the unsigned fields, the
      signature's r and s, and its recovery id. This holds for any RLP codec
      that decodes what it encodes; whether the curve then returns the
      signer's key is the library's concern. */
  lemma SignThenRecover(p: Primitives, tx: Encoder.Transaction, key: string)
    requires RlpRoundTrips(p)
    requires IsPrivateKeyText(key)
    ensures var r := SignedFields(p, tx, key);
            r.Success? ==>
              var l := r.value;
              var sig := p.ecdsaSign(Digest(p, l[..6]), PrivateKeyBytes(key));
              sig.recoveryParam < 229 ==>
                RecoverFromSigned(p, l) == RecoverPoint(p, Digest(p, l[..6]), sig.r, sig.s, sig.recoveryParam)
  {
    var r := SignedFields(p, tx, key);
    if r.Success? {
      var l := r.value;
      var sig := p.ecdsaSign(Digest(p, l[..6]), PrivateKeyBytes(key));
      if sig.recoveryParam < 229 {
        SignatureFieldsReadBack(sig);
        TailElements(l, SignatureFields(sig));
        RecoverWithSignature(p, l, sig);
      }
    }
  }

  lemma TailElements(l: seq<seq<Byte>>, f: seq<seq<Byte>>)
    requires |l| == 9 && l[6..] == f
    ensures |f| == 3 && l[6] == f[0] && l[7] == f[1] && l[8] == f[2]
  {
    assert l[6] == l[6..][0] && l[7] == l[6..][1] && l[8] == l[6..][2];
  }

  lemma RecoverWithSignature(p: Primitives, l: seq<seq<Byte>>, sig: Signature)
    requires RlpRoundTrips(p) && |l| == 9
    requires BigEndian(l[6]) - 27 == sig.recoveryParam && BigEndian(l[7]) == sig.r && BigEndian(l[8]) == sig.s
    ensures RecoverFromSigned(p, l) == RecoverPoint(p, Digest(p, l[..6]), sig.r, sig.s, sig.recoveryParam)
  {
    RecoverSignedList(p, l, sig.recoveryParam);
  }

  /** The same, for any nine-element list whose last three elements read back
      as the recovery id plus 27, r and s. */
  lemma RecoverSignedList(p: Primitives, l: seq<seq<Byte>>, recoveryId: nat)
    requires RlpRoundTrips(p)
    requires |l| == 9 && BigEndian(l[6]) - 27 == recoveryId
    ensures RecoverFromSigned(p, l) == RecoverPoint(p, Digest(p, l[..6]), BigEndian(l[7]), BigEndian(l[8]), recoveryId)
  {
    var encoded := p.rlpEncode(StrList(l));
    assert Serialize(p, l) == RenderedHex(encoded, true);
    RecoverHexOrBytes(p, encoded, true, BigEndian(l[6]), l[7], l[8]);
    RecoverDigestOfEncoded(p, l);
  }
}
