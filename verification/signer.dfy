/** `sign`: argument validation, the unsigned field list, its digest, the
    signature and the nine-element signed list, returned as the list itself
    or as its "0x"-prefixed hex RLP encoding. */
module Signer {
  import opened Wrappers
  import opened Bytes
  import opened Hex
  import opened Schema
  import opened Errors
  import opened External
  import opened Encoder

  /** The transaction argument: an object, `null`, or a value of another type. */
  datatype TxArg = TxObject(tx: Transaction) | TxNull | TxOther

  /** The private-key argument: a string or a value of another type. */
  datatype KeyArg = KeyString(text: string) | KeyOther

  /** The result of `sign`: the signed list (`toObject`) or its hex RLP encoding. */
  datatype SignOutput = SignedList(fields: seq<seq<Byte>>) | SignedHex(text: string)

  /** The private-key pattern `^(0x)[0-9a-fA-F]{64}$`: exactly the hex texts
      that carry the lower-case "0x" prefix and 64 digits. */
  function IsPrivateKeyText(s: string): (b: bool)
    ensures b <==> IsHexText(s) && StripHexPrefix(s) != s && |StripHexPrefix(s)| == 64
  {
    |s| == 66 && s[..2] == "0x" && AllHex(s[2..])
  }

  /** The 32 key bytes the curve library receives (`privateKey.slice(2)` decoded). */
  function PrivateKeyBytes(s: string): (k: seq<Byte>)
    requires IsPrivateKeyText(s)
    ensures |k| == 32 && BigEndian(k) == HexValue(s[2..])
  {
    HexToBytesValue(s[2..]);
    HexToBytes(s[2..])
  }

  /** The string form of a signed list: "0x" followed by hex that decodes to
      exactly the RLP encoding of the list. */
  function Serialize(p: Primitives, fields: seq<seq<Byte>>): (h: string)
    ensures |h| >= 2 && h[..2] == "0x" && IsHexText(h)
    ensures HexToBytes(StripHexPrefix(h)) == p.rlpEncode(StrList(fields))
  {
    var e := p.rlpEncode(StrList(fields));
    HexRoundTrip(e);
    assert ("0x" + BytesToHex(e))[2..] == BytesToHex(e);
    "0x" + BytesToHex(e)
  }

  /** What is signed: Keccak-256 of the RLP encoding of a field list, which is
      the hash of exactly the bytes its string form carries. */
  function Digest(p: Primitives, fields: seq<seq<Byte>>): (d: seq<Byte>)
    ensures d == p.keccak256(HexToBytes(StripHexPrefix(Serialize(p, fields))))
  {
    p.keccak256(p.rlpEncode(StrList(fields)))
  }

  /** `new Buffer([27 + recoveryParam])`: one byte, the sum truncated to 8 bits. */
  function RecoveryByte(recoveryParam: nat): (v: Byte)
    ensures recoveryParam < 229 ==> v == 27 + recoveryParam
    ensures recoveryParam < 2 ==> v == 27 || v == 28
  {
    (27 + recoveryParam) % 256
  }

  /** The three trailing elements of a signed list: v, then r and s as minimal
      big-endian bytes. */
  function SignatureFields(sig: Signature): (f: seq<seq<Byte>>)
    ensures |f| == 3 && f[0] == [RecoveryByte(sig.recoveryParam)]
    ensures Canonical(f[1]) && BigEndian(f[1]) == sig.r
    ensures Canonical(f[2]) && BigEndian(f[2]) == sig.s
  {
    [[RecoveryByte(sig.recoveryParam)], BnToBuffer(sig.r), BnToBuffer(sig.s)]
  }

  /** The signed list: the encoded unsigned fields, followed by the fields of
      the signature over their digest. */
  function SignedFields(p: Primitives, tx: Transaction, key: string): (r: Result<seq<seq<Byte>>, Error>)
    requires IsPrivateKeyText(key)
    ensures r.Success? <==> EncodeUnsigned(tx).Success?
    ensures r.Failure? ==> r.error == EncodeUnsigned(tx).error && FieldError(r.error)
    ensures r.Success? ==>
              && |r.value| == 9
              && r.value[..6] == EncodeUnsigned(tx).value
              && r.value[6..] == SignatureFields(p.ecdsaSign(Digest(p, r.value[..6]), PrivateKeyBytes(key)))
  {
    var unsigned :- EncodeUnsigned(tx);
    var sig := p.ecdsaSign(Digest(p, unsigned), PrivateKeyBytes(key));
    assert (unsigned + SignatureFields(sig))[..6] == unsigned;
    Success(unsigned + SignatureFields(sig))
  }

  /** `sign`: rejects a non-object or `null` transaction, then a non-string
      key, then a key not matching the pattern, then the first field that
      fails to encode; otherwise signs. */
  function Sign(p: Primitives, txArg: TxArg, keyArg: KeyArg, toObject: bool): (r: Result<SignOutput, Error>)
    ensures !txArg.TxObject? ==> r == Failure(NotAnObject)
    ensures txArg.TxObject? && keyArg.KeyOther? ==> r == Failure(KeyNotString)
    ensures txArg.TxObject? && keyArg.KeyString? && !IsPrivateKeyText(keyArg.text) ==>
              r == Failure(InvalidPrivateKey)
    ensures txArg.TxObject? && keyArg.KeyString? && IsPrivateKeyText(keyArg.text) ==>
              (r.Success? <==> EncodeUnsigned(txArg.tx).Success?)
    ensures r.Success? ==> (r.value.SignedList? <==> toObject)
    ensures r.Success? ==>
              var signed := SignedFields(p, txArg.tx, keyArg.text).value;
              r.value == if toObject then SignedList(signed) else SignedHex(Serialize(p, signed))
  {
    if !txArg.TxObject? then Failure(NotAnObject)
    else if !keyArg.KeyString? then Failure(KeyNotString)
    else if !IsPrivateKeyText(keyArg.text) then Failure(InvalidPrivateKey)
    else
      var signed :- SignedFields(p, txArg.tx, keyArg.text);
      if toObject then Success(SignedList(signed))
      else Success(SignedHex(Serialize(p, signed)))
  }

  /** A call with an object and a well-formed key fails only where a field
      fails to encode, and then with that field's error. */
  lemma SignFailsOnlyOnFields(p: Primitives, tx: Transaction, key: string, toObject: bool)
    requires IsPrivateKeyText(key)
    ensures Sign(p, TxObject(tx), KeyString(key), toObject).Failure? ==>
              && EncodeUnsigned(tx).Failure?
              && Sign(p, TxObject(tx), KeyString(key), toObject).error == EncodeUnsigned(tx).error
              && FieldError(Sign(p, TxObject(tx), KeyString(key), toObject).error)
  {
  }

  /** A signature whose recovery id is 0 or 1 yields v = 27 or 28 as the
      seventh element of the signed list. */
  lemma SignedRecoveryByte(p: Primitives, tx: Transaction, key: string)
    requires IsPrivateKeyText(key)
    ensures var r := SignedFields(p, tx, key);
            r.Success? && p.ecdsaSign(Digest(p, r.value[..6]), PrivateKeyBytes(key)).recoveryParam < 2
            ==> r.value[6] == [27] || r.value[6] == [28]
  {
    var r := SignedFields(p, tx, key);
    if r.Success? {
      var l := r.value;
      var sig := p.ecdsaSign(Digest(p, l[..6]), PrivateKeyBytes(key));
      assert l[6..] == SignatureFields(sig);
      assert l[6] == l[6..][0];
    }
  }

  /** The `gas` alias carries through `sign`: `{gas: g}` and `{gasLimit: g}`
      with a truthy `g` give the same output. */
  lemma SignGasAlias(p: Primitives, tx: Transaction, g: FieldValue, key: KeyArg, toObject: bool)
    requires Truthy(g) && "gas" !in tx
    ensures Sign(p, TxObject(tx["gas" := g]), key, toObject) == Sign(p, TxObject(tx["gasLimit" := g]), key, toObject)
  {
    GasAlias(tx, g);
  }
}
