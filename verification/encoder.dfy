/** The per-field encoder and the field loop inside `sign`: each schema field
    is looked up in the caller's transaction (with the `gas` alias for
    `gasLimit`), converted to bytes and checked against its length rule. */
module Encoder {
  import opened Wrappers
  import opened Bytes
  import opened Hex
  import opened Schema
  import opened Errors

  /** A caller-supplied field value: a number (already a non-negative integer)
      or a hex string with an optional "0x" prefix. */
  datatype FieldValue = Numeric(n: nat) | HexString(text: HexText)

  /** A transaction object: a field missing from the map is `undefined`. */
  type Transaction = map<string, FieldValue>

  /** JavaScript truthiness of a field value: the number 0 and the empty
      string are falsy. */
  predicate Truthy(v: FieldValue)
  {
    match v
    case Numeric(n) => n != 0
    case HexString(t) => t != ""
  }

  /** The key the source reads for a field: `gas` stands in for `gasLimit`
      when `gas` is present and truthy. */
  function TxKey(tx: Transaction, spec: FieldSpec): (key: string)
    ensures key == spec.name || (spec.name == "gasLimit" && key == "gas")
    ensures spec.name == "gasLimit" && "gas" in tx && Truthy(tx["gas"]) ==> key == "gas"
    ensures key != spec.name ==> "gas" in tx && Truthy(tx["gas"])
  {
    if spec.name == "gasLimit" && "gas" in tx && Truthy(tx["gas"]) then "gas" else spec.name
  }

  function Lookup(tx: Transaction, spec: FieldSpec): Option<FieldValue>
  {
    var key := TxKey(tx, spec);
    if key in tx then Some(tx[key]) else None
  }

  /** `numberToBN` applied to a string: text with the "0x" prefix, or with a
      hex letter, is read base 16; text of decimal digits alone is read base 10. */
  function NumberTextValue(t: HexText): nat
  {
    var digits := StripHexPrefix(t);
    if digits == t && AllDecimal(t) then DecimalValue(t) else HexValue(digits)
  }

  /** The bytes a value converts to before any length rule: a numeric field
      takes the minimal big-endian encoding of its number (a string given to
      it is read as `numberToBN` reads it); any other field takes the hex
      digits, padded to whole bytes, as they are. */
  function RawBytes(spec: FieldSpec, v: Option<FieldValue>): (r: Result<seq<Byte>, Error>)
    ensures v.None? ==> r == Success([])
    ensures r.Success? && spec.number ==> Canonical(r.value)
    ensures r.Failure? <==> !spec.number && v.Some? && v.value.Numeric?
  {
    match v
    case None => Success([])
    case Some(Numeric(n)) =>
      if spec.number then Success(BnToBuffer(n)) else Failure(NotHexString(spec.name))
    case Some(HexString(t)) =>
      var digits := StripHexPrefix(t);
      if spec.number then Success(BnToBuffer(NumberTextValue(t)))
      else
        PadToEvenKeepsValue(digits);
        Success(HexToBytes(PadToEven(digits)))
  }

  /** The errors a field can raise. */
  predicate FieldError(e: Error)
  {
    e.NotHexString? || e.InvalidLength? || e.TooLong?
  }

  /** Encodes one field: convert, then apply the fixed-width rule (a nonempty
      value of another width is rejected), then, for a field with a maximum,
      strip leading zeros and reject anything longer than the maximum. */
  function EncodeField(spec: FieldSpec, v: Option<FieldValue>): (r: Result<seq<Byte>, Error>)
    ensures v.None? ==> r == Success([])
    ensures r.Success? && spec.maxLength != 0 ==> Canonical(r.value) && |r.value| <= spec.maxLength
    ensures r.Success? && spec.length != 0 && spec.maxLength == 0 ==>
              r.value == [] || |r.value| == spec.length
    ensures r.Success? && spec.maxLength == 0 ==> r == RawBytes(spec, v)
    ensures r.Failure? ==> FieldError(r.error)
  {
    var raw :- RawBytes(spec, v);
    if spec.length != 0 && |raw| != spec.length && |raw| > 0 then
      Failure(InvalidLength(spec.name, spec.length, |raw|))
    else if spec.maxLength != 0 then
      var stripped := StripZeros(raw);
      if |stripped| > spec.maxLength then Failure(TooLong(spec.name, spec.maxLength, |stripped|))
      else Success(stripped)
    else Success(raw)
  }

  /** The outcome for one schema field of a transaction. */
  function FieldResult(tx: Transaction, spec: FieldSpec): Result<seq<Byte>, Error>
  {
    EncodeField(spec, Lookup(tx, spec))
  }

  /** The outcome of each field, in the order given. */
  function FieldResults(tx: Transaction, specs: seq<FieldSpec>): (rs: seq<Result<seq<Byte>, Error>>)
    ensures |rs| == |specs| && forall i :: 0 <= i < |specs| ==> rs[i] == FieldResult(tx, specs[i])
  {
    seq(|specs|, i requires 0 <= i < |specs| => FieldResult(tx, specs[i]))
  }

  /** The field loop: encodes every field in order and stops at the first
      field that fails, with that field's error. */
  function EncodeFields(tx: Transaction, specs: seq<FieldSpec>): (r: Result<seq<seq<Byte>>, Error>)
    ensures r.Success? <==> forall i :: 0 <= i < |specs| ==> FieldResult(tx, specs[i]).Success?
    ensures r.Success? ==>
              |r.value| == |specs| &&
              forall i :: 0 <= i < |specs| ==> FieldResult(tx, specs[i]) == Success(r.value[i])
    ensures r.Failure? ==> FieldError(r.error)
  {
    var rs := FieldResults(tx, specs);
    var r := Collect(rs);
    assert r.Failure? ==> exists i :: 0 <= i < |rs| && rs[i] == Failure(r.error);
    r
  }

  /** A failing field loop fails with the error of the field at `i` when every
      field before it succeeds and it fails. */
  lemma EncodeFieldsStopsAtFirstFailure(tx: Transaction, specs: seq<FieldSpec>, i: nat)
    requires i < |specs|
    requires forall j :: 0 <= j < i ==> FieldResult(tx, specs[j]).Success?
    requires FieldResult(tx, specs[i]).Failure?
    ensures EncodeFields(tx, specs) == Failure(FieldResult(tx, specs[i]).error)
  {
    CollectFirstFailure(FieldResults(tx, specs), i);
  }

  /** The unsigned field list of a transaction, in schema order. */
  function EncodeUnsigned(tx: Transaction): (r: Result<seq<seq<Byte>>, Error>)
    ensures r.Success? ==> |r.value| == 6
    ensures r.Failure? ==> FieldError(r.error)
  {
    EncodeFields(tx, TransactionFields)
  }

  /** A numeric field with a byte limit accepts exactly the numbers below
      256^maxLength (2^256 for the schema's limit of 32), and encodes each as
      its minimal big-endian bytes. */
  lemma NumericFieldRule(spec: FieldSpec, n: nat)
    requires spec.number && spec.length == 0 && spec.maxLength != 0
    ensures EncodeField(spec, Some(Numeric(n))).Success? <==> n < Pow256(spec.maxLength)
    ensures EncodeField(spec, Some(Numeric(n))).Success? ==>
              EncodeField(spec, Some(Numeric(n))).value == BnToBuffer(n)
    ensures EncodeField(spec, Some(Numeric(n))).Failure? ==>
              EncodeField(spec, Some(Numeric(n))).error.TooLong?
  {
    var b := BnToBuffer(n);
    assert RawBytes(spec, Some(Numeric(n))) == Success(b);
    StripZerosFixesCanonical(b);
    assert EncodeField(spec, Some(Numeric(n))) ==
           if |b| > spec.maxLength then Failure(TooLong(spec.name, spec.maxLength, |b|)) else Success(b);
    CanonicalLengthBound(b, spec.maxLength);
  }

  /** A string given to a numeric field is encoded like the number
      `numberToBN` reads from it: base 16 behind "0x" or when it holds a hex
      letter, base 10 when it is decimal digits alone. */
  lemma TextForNumericField(spec: FieldSpec, t: HexText)
    requires spec.number
    ensures var digits := StripHexPrefix(t);
            var r := EncodeField(spec, Some(HexString(t)));
            && (digits != t ==> r == EncodeField(spec, Some(Numeric(HexValue(digits)))))
            && (digits == t && !AllDecimal(t) ==> r == EncodeField(spec, Some(Numeric(HexValue(t)))))
            && (digits == t && AllDecimal(t) ==> r == EncodeField(spec, Some(Numeric(DecimalValue(t)))))
  {
    var n := NumberTextValue(t);
    assert RawBytes(spec, Some(HexString(t))) == Success(BnToBuffer(n));
    assert RawBytes(spec, Some(Numeric(n))) == Success(BnToBuffer(n));
    SameRawSameEncoding(spec, Some(HexString(t)), Some(Numeric(n)));
  }

  /** A nonzero nonce below 256 encodes as its single byte. */
  lemma OneByteNonce(n: Byte)
    requires n != 0
    ensures EncodeField(NonceField, Some(Numeric(n))) == Success([n])
  {
    assert [n][..0] == [];
    assert BigEndian([n]) == n;
    BnToBufferOfCanonical([n]);
    Pow256Monotonic(1, 32);
    assert Pow256(1) == 256;
    NumericFieldRule(NonceField, n);
  }

  /** Unprefixed decimal text is read base 10: nonce `"10"` is ten. */
  lemma DecimalNonceText()
    ensures EncodeField(NonceField, Some(HexString("10"))) == Success([10])
  {
    var t: HexText := "10";
    assert t[..1] == "1" && t[..1][..0] == [];
    assert StripHexPrefix(t) == t && AllDecimal(t);
    assert DecimalValue(t) == 10;
    TextForNumericField(NonceField, t);
    OneByteNonce(10);
  }

  /** The same digits behind "0x" are read base 16: nonce `"0x10"` is sixteen. */
  lemma PrefixedNonceText()
    ensures EncodeField(NonceField, Some(HexString("0x10"))) == Success([16])
  {
    var t: HexText := "0x10";
    var digits := t[2..];
    assert digits[..1] == "1" && digits[..1][..0] == [];
    assert StripHexPrefix(t) == digits && digits != t;
    assert HexValue(digits) == 16;
    TextForNumericField(NonceField, t);
    OneByteNonce(16);
  }

  /** A field's encoding depends on its value only through the converted bytes. */
  lemma SameRawSameEncoding(spec: FieldSpec, v1: Option<FieldValue>, v2: Option<FieldValue>)
    requires RawBytes(spec, v1) == RawBytes(spec, v2)
    ensures EncodeField(spec, v1) == EncodeField(spec, v2)
  {
  }

  /** A hex field with a fixed width and no maximum (`to`) keeps every decoded
      byte, leading zeros included, and is rejected exactly when its decoded
      length is neither 0 nor the fixed width. */
  lemma FixedWidthRule(spec: FieldSpec, t: HexText)
    requires !spec.number && spec.length != 0 && spec.maxLength == 0
    ensures var digits := StripHexPrefix(t);
            var width := (|digits| + 1) / 2;
            var r := EncodeField(spec, Some(HexString(t)));
            && (r.Failure? <==> width != 0 && width != spec.length)
            && (r.Failure? ==> r.error == InvalidLength(spec.name, spec.length, width))
            && (r.Success? ==> |r.value| == width && BigEndian(r.value) == HexValue(digits))
  {
    var digits := StripHexPrefix(t);
    PadToEvenKeepsValue(digits);
    HexToBytesValue(PadToEven(digits));
  }

  /** A hex field with neither a fixed width nor a maximum (`data`) is always
      accepted and keeps every decoded byte, leading zeros included. */
  lemma UnboundedHexRule(spec: FieldSpec, t: HexText)
    requires !spec.number && spec.length == 0 && spec.maxLength == 0
    ensures var digits := StripHexPrefix(t);
            var r := EncodeField(spec, Some(HexString(t)));
            && r.Success?
            && |r.value| == (|digits| + 1) / 2
            && BigEndian(r.value) == HexValue(digits)
  {
    var digits := StripHexPrefix(t);
    PadToEvenKeepsValue(digits);
    HexToBytesValue(PadToEven(digits));
  }

  /** The field loop depends on the transaction only through the outcome of
      each field. */
  lemma EncodeFieldsCongruent(tx1: Transaction, tx2: Transaction, specs: seq<FieldSpec>)
    requires forall i :: 0 <= i < |specs| ==> FieldResult(tx1, specs[i]) == FieldResult(tx2, specs[i])
    ensures EncodeFields(tx1, specs) == EncodeFields(tx2, specs)
  {
    assert FieldResults(tx1, specs) == FieldResults(tx2, specs);
  }

  /** The `gas` alias: a truthy `gas` is encoded exactly as the same value
      given as `gasLimit` would be, whatever `gasLimit` the object holds. */
  lemma GasAlias(tx: Transaction, g: FieldValue)
    requires Truthy(g) && "gas" !in tx
    ensures EncodeUnsigned(tx["gas" := g]) == EncodeUnsigned(tx["gasLimit" := g])
  {
    var tx1, tx2 := tx["gas" := g], tx["gasLimit" := g];
    forall i | 0 <= i < |TransactionFields|
      ensures FieldResult(tx1, TransactionFields[i]) == FieldResult(tx2, TransactionFields[i])
    {
      assert Lookup(tx1, TransactionFields[i]) == Lookup(tx2, TransactionFields[i]);
    }
    EncodeFieldsCongruent(tx1, tx2, TransactionFields);
  }

  /** A falsy `gas` is ignored: `gasLimit` is read as if `gas` were absent. */
  lemma FalsyGasIgnored(tx: Transaction, g: FieldValue)
    requires !Truthy(g) && "gas" !in tx
    ensures EncodeUnsigned(tx["gas" := g]) == EncodeUnsigned(tx)
  {
    var tx1 := tx["gas" := g];
    forall i | 0 <= i < |TransactionFields|
      ensures FieldResult(tx1, TransactionFields[i]) == FieldResult(tx, TransactionFields[i])
    {
      assert Lookup(tx1, TransactionFields[i]) == Lookup(tx, TransactionFields[i]);
    }
    EncodeFieldsCongruent(tx1, tx, TransactionFields);
  }

  /** The unsigned list holds, in schema order, each field's own encoding. */
  lemma UnsignedInSchemaOrder(tx: Transaction)
    ensures EncodeUnsigned(tx).Success? ==>
              forall i :: 0 <= i < 6 ==> FieldResult(tx, TransactionFields[i]) == Success(EncodeUnsigned(tx).value[i])
    ensures (forall i :: 0 <= i < 6 ==> FieldResult(tx, TransactionFields[i]).Success?) ==> EncodeUnsigned(tx).Success?
  {
  }

  /** A nonce of 0 encodes as the empty string, not as a zero byte. */
  lemma ZeroNonceIsEmpty()
    ensures EncodeField(NonceField, Some(Numeric(0))) == Success([])
  {
    assert BnToBuffer(0) == [];
  }

  /** The `data` value "0" is padded to one zero byte, which is kept. */
  lemma DataKeepsZeroByte()
    ensures EncodeField(DataField, Some(HexString("0"))) == Success([0])
  {
    assert StripHexPrefix("0") == "0";
    assert PadToEven("0") == "00";
    assert HexToBytes("00") == [0];
    assert RawBytes(DataField, Some(HexString("0"))) == Success([0]);
  }

  lemma ShortRecipientFieldResults(tx: Transaction)
    requires "nonce" !in tx && "gasPrice" !in tx && "gasLimit" !in tx && "gas" !in tx
    requires "to" in tx && tx["to"] == HexString("0x00")
    ensures FieldResult(tx, NonceField) == Success([])
    ensures FieldResult(tx, GasPriceField) == Success([])
    ensures FieldResult(tx, GasLimitField) == Success([])
    ensures FieldResult(tx, ToField) == Failure(InvalidLength("to", 20, 1))
  {
    assert StripHexPrefix("0x00") == "00";
    FixedWidthRule(ToField, "0x00");
  }

  /** `{to: "0x00"}` is rejected, whatever `value` and `data` hold: `to` must
      be empty or 20 bytes. */
  lemma OneByteRecipientRejected(tx: Transaction)
    requires "nonce" !in tx && "gasPrice" !in tx && "gasLimit" !in tx && "gas" !in tx
    requires "to" in tx && tx["to"] == HexString("0x00")
    ensures EncodeUnsigned(tx) == Failure(InvalidLength("to", 20, 1))
  {
    ShortRecipientFieldResults(tx);
    var specs := TransactionFields;
    assert specs[0] == NonceField && specs[1] == GasPriceField && specs[2] == GasLimitField && specs[3] == ToField;
    assert forall j :: 0 <= j < 3 ==> FieldResult(tx, specs[j]).Success?;
    EncodeFieldsStopsAtFirstFailure(tx, specs, 3);
  }
}
