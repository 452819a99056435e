/** The six-field schema of a legacy transaction, in wire order. */
module Schema {

  /** How one field is encoded. `length` is a fixed byte width and `maxLength`
      a byte limit after zero-stripping; 0 means the property is absent (the
      source tests both by truthiness, which treats 0 and absence alike).
      `number` selects the numeric reading of the caller's value. */
  datatype FieldSpec = FieldSpec(name: string, length: nat, maxLength: nat, number: bool)

  const NonceField := FieldSpec("nonce", 0, 32, true)
  const GasPriceField := FieldSpec("gasPrice", 0, 32, true)
  const GasLimitField := FieldSpec("gasLimit", 0, 32, true)
  const ToField := FieldSpec("to", 20, 0, false)
  const ValueField := FieldSpec("value", 0, 32, true)
  const DataField := FieldSpec("data", 0, 0, false)

  /** `transactionFields`: the order defines both the hash input and the wire layout. */
  const TransactionFields: seq<FieldSpec> :=
    [NonceField, GasPriceField, GasLimitField, ToField, ValueField, DataField]

  /** Each field has at most one of a fixed width and a maximum width, and
      exactly the fixed-width and unbounded fields are read as hex bytes. */
  predicate WellFormed(fields: seq<FieldSpec>)
  {
    forall i :: 0 <= i < |fields| ==>
      (fields[i].length == 0 || fields[i].maxLength == 0) &&
      (fields[i].number <==> fields[i].maxLength != 0)
  }

  /** The field names are pairwise distinct, and none of them is the `gas` alias. */
  predicate DistinctNames(fields: seq<FieldSpec>)
  {
    (forall i, j :: 0 <= i < j < |fields| ==> fields[i].name != fields[j].name) &&
    (forall i :: 0 <= i < |fields| ==> fields[i].name != "gas")
  }

  /** The schema has six distinct fields in wire order, `to` is the only
      fixed-width field (20 bytes), `data` the only unbounded one, and the four
      numeric fields are limited to 32 bytes. */
  lemma SchemaShape()
    ensures |TransactionFields| == 6 && WellFormed(TransactionFields) && DistinctNames(TransactionFields)
    ensures forall i :: 0 <= i < 6 ==>
              (TransactionFields[i].length != 0 <==> TransactionFields[i].name == "to") &&
              (TransactionFields[i].length != 0 ==> TransactionFields[i].length == 20) &&
              (TransactionFields[i].length == 0 && TransactionFields[i].maxLength == 0 <==>
                 TransactionFields[i].name == "data") &&
              (TransactionFields[i].number ==> TransactionFields[i].maxLength == 32)
  {
  }
}
