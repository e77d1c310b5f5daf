/**
 The record and its size limits, shared by the contract, the resolver and the client.
 */
module Records {
  import opened Bytes
  import opened Digests
  import opened Sorting

  type Uint32 = n: int | 0 <= n < U32
  type Uint64 = n: int | 0 <= n < U64

  const MAX_RECORD_FIELDS := 16
  const MAX_FIELD_NAME_LENGTH := 64
  const MAX_FIELD_VALUE_LENGTH := 1024
  const MAX_SELECTOR_LENGTH := 256
  const MAX_NAME_LENGTH := 63
  const MAX_TYPE_NAME_LENGTH := 32

  const ZERO_WORD: Text := BigEndian(0, 32)

  datatype Record = Record(
    recordType: Text,
    selector: Text,
    fieldNames: seq<Text>,
    fieldValues: seq<Text>,
    ttl: Uint32,
    generation: Uint64,
    ownerSig: Text,
    commitment: Text,
    present: bool)

  /** What an empty storage slot reads as. */
  const ZERO_RECORD := Record([], [], [], [], 0, 0, [], ZERO_WORD, false)

  /** resolve()'s answer: the record with the identity that must have signed it. */
  datatype Resolved = Resolved(record: Record, owner: Address, pubKey: Text)

  /** The limits setRecord enforces, together with those on names and declared types. */
  predicate WithinLimits(name: Text, r: Record) {
    && |name| <= MAX_NAME_LENGTH
    && |r.recordType| <= MAX_TYPE_NAME_LENGTH
    && |r.selector| <= MAX_SELECTOR_LENGTH
    && |r.fieldNames| == |r.fieldValues| <= MAX_RECORD_FIELDS
    && (forall i :: 0 <= i < |r.fieldNames| ==> |r.fieldNames[i]| <= MAX_FIELD_NAME_LENGTH)
    && (forall i :: 0 <= i < |r.fieldValues| ==> |r.fieldValues[i]| <= MAX_FIELD_VALUE_LENGTH)
  }

  /** Each name with the value at the same place; values past the last name are never read. */
  function Zip(names: seq<Text>, values: seq<Text>): (ps: seq<Pair>)
    requires |names| <= |values|
    ensures |ps| == |names|
    ensures forall i :: 0 <= i < |ps| ==> ps[i].name == names[i] && ps[i].value == values[i]
  {
    seq(|names|, i requires 0 <= i < |names| => Pair(names[i], values[i]))
  }

  /** The fields of a record. */
  function Pairs(r: Record): (ps: seq<Pair>)
    requires |r.fieldNames| <= |r.fieldValues|
    ensures |ps| == |r.fieldNames|
  {
    Zip(r.fieldNames, r.fieldValues)
  }
}
