/** The collaborators the signer calls but this model does not define: the RLP
    list codec, Keccak-256 and secp256k1 ECDSA. They are supplied as a record of
    functions, so every property proved below holds for any implementation. */
module External {
  import opened Wrappers
  import opened Bytes

  /** What RLP encodes and decodes: a byte string or a list of items. */
  datatype RlpItem = Str(bytes: seq<Byte>) | List(items: seq<RlpItem>)

  /** An ECDSA signature as the curve library reports it. */
  datatype Signature = Signature(r: nat, s: nat, recoveryParam: nat)

  datatype Primitives = Primitives(
    /** `rlp.encode` */
    rlpEncode: RlpItem -> seq<Byte>,
    /** `rlp.decode`; `None` where it throws */
    rlpDecode: seq<Byte> -> Option<RlpItem>,
    /** Keccak-256 of a byte string */
    keccak256: seq<Byte> -> seq<Byte>,
    /** canonical (low-s) signing of a digest with a private key */
    ecdsaSign: (seq<Byte>, seq<Byte>) -> Signature,
    /** public-key recovery from a digest, r, s and a recovery id, giving the
        uncompressed point encoding; `None` where the library throws */
    ecdsaRecover: (seq<Byte>, nat, nat, int) -> Option<seq<Byte>>)

  /** The codec decodes what it encodes. */
  ghost predicate RlpRoundTrips(p: Primitives)
  {
    forall x :: p.rlpDecode(p.rlpEncode(x)) == Some(x)
  }

  /** A list of byte strings as an RLP list item. */
  function StrList(fields: seq<seq<Byte>>): (item: RlpItem)
    ensures item.List? && |item.items| == |fields|
    ensures forall i :: 0 <= i < |fields| ==> item.items[i] == Str(fields[i])
  {
    List(seq(|fields|, i requires 0 <= i < |fields| => Str(fields[i])))
  }
}
