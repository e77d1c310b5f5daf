/**
 The on-chain namespace (contracts/contracts/NamespaceDApp.sol) as a state machine over
 transactions, with the schema registry it consults.
 */
module Namespace {
  import opened Options
  import opened Bytes
  import opened Digests
  import opened Records
  import opened SchemaRegistry

  const REGISTRATION_PERIOD := 31_536_000
  const MIN_COMMITMENT_AGE := 30
  const MAX_COMMITMENT_AGE := 86_400
  const U256: nat := U64 * U64 * U64 * U64

  /** A block timestamp. */
  type Time = t: nat | t > 0 witness 1

  // ------------------------------------------------------------------ storage

  datatype Domain = Domain(owner: Address, pubKey: Text, expiry: Uint64, generation: Uint64)

  /** One generation's key list: `index` holds position + 1, a missing key reads as 0. */
  datatype KeyList = KeyList(keys: seq<Digest>, index: map<Digest, nat>)

  /** Everything stored under one name hash; missing entries read as zero. */
  datatype Name = Name(domain: Domain, records: map<Digest, Record>, lists: map<Uint64, KeyList>)

  datatype State = State(
    basePrice: nat,
    names: map<Digest, Name>,
    commitments: map<Digest, nat>,
    schemas: Schemas)

  const NO_KEYS := KeyList([], map[])
  const NO_DOMAIN := Domain(ZERO_ADDRESS, [], 0, 0)
  const NO_NAME := Name(NO_DOMAIN, map[], map[])

  function At(s: State, h: Digest): Name {
    if h in s.names then s.names[h] else NO_NAME
  }

  function ListAt(n: Name, g: Uint64): KeyList {
    if g in n.lists then n.lists[g] else NO_KEYS
  }

  function IndexAt(l: KeyList, k: Digest): nat {
    if k in l.index then l.index[k] else 0
  }

  function CommittedAt(s: State, c: Digest): nat {
    if c in s.commitments then s.commitments[c] else 0
  }

  function KeyOf(recordType: Text, selector: Text): Digest {
    OfRecordKey(OfText(recordType), OfText(selector))
  }

  /** Registered and not past its expiry. */
  predicate Active(d: Domain, now: Time) {
    d.owner != ZERO_ADDRESS && now <= d.expiry
  }

  // ------------------------------------------------------------- transactions

  datatype Op =
    | Commit(commitment: Digest)
    | Register(name: Text, pubKey: Text, secret: Text)
    | Renew(name: Text)
    | Transfer(name: Text, newOwner: Address, newPubKey: Text)
    | SetRecord(name: Text, recordType: Text, selector: Text, fieldNames: seq<Text>, fieldValues: seq<Text>,
                ttl: Uint32, ownerSig: Text, word: Text)
    | RemoveRecord(name: Text, recordType: Text, selector: Text)
    | DeclareType(typeName: Text, mandatory: seq<Text>, optional: seq<Text>)

  /** A transaction; `refundOk` says whether the sender takes back an overpayment. */
  datatype Call = Call(sender: Account, value: nat, now: Time, refundOk: bool, op: Op)

  datatype Error =
    | InvalidName | InvalidPubKey | NameUnavailable | DomainNotRegistered | DomainExpired | NotDomainOwner
    | InsufficientFee | ZeroAddress | RefundFailed | UnknownRecordType | MissingMandatoryField
    | FieldArrayMismatch | TooManyRecordFields | FieldValueTooLong | FieldNameTooLong | SelectorTooLong
    | InvalidTTL | RecordNotFound | CommitmentNotFound | CommitmentTooNew | CommitmentTooOld
    | Registry(why: DeclareError)
    | Panic

  datatype EventKind = EventRecordSet | EventRecordRemoved | EventTransferred | EventRegistered

  /** The events the resolver watches; Transferred carries the hash only, its name is empty. */
  datatype RecordEvent = RecordEvent(kind: EventKind, name: Text, nameHash: Digest)

  datatype Outcome = Reverted(error: Error) | Done(state: State, events: seq<RecordEvent>)

  predicate NameByte(c: Byte) {
    (97 <= c <= 122) || (48 <= c <= 57) || c == 45
  }

  predicate ValidName(b: Text) {
    0 < |b| <= MAX_NAME_LENGTH && b[0] != 45 && b[|b| - 1] != 45 && forall i :: 0 <= i < |b| ==> NameByte(b[i])
  }

  predicate ValidPubKey(k: Text) {
    0 < |k| <= 128
  }

  /** The yearly fee; None when the length is out of range or the product overflows. */
  function PriceOf(basePrice: nat, name: Text): Option<nat> {
    if |name| == 0 || |name| > MAX_NAME_LENGTH then None else
    var p := basePrice * (match |name| case 1 => 16 case 2 => 8 case 3 => 4 case 4 => 2 case _ => 1);
    if p < U256 then Some(p) else None
  }

  function PaymentGuard(basePrice: nat, c: Call, name: Text): Option<Error> {
    var price := PriceOf(basePrice, name);
    if price.None? then Some(if |name| == 0 || |name| > MAX_NAME_LENGTH then InvalidName else Panic)
    else if c.value < price.value then Some(InsufficientFee)
    else if c.value > price.value && !c.refundOk then Some(RefundFailed)
    else None
  }

  function CommitmentOf(c: Call): Digest
    requires c.op.Register?
  {
    OfCommitment(c.op.name, c.sender, c.op.pubKey, c.op.secret)
  }

  function RegisterGuard(s: State, c: Call): Option<Error>
    requires c.op.Register?
  {
    var at := CommittedAt(s, CommitmentOf(c));
    if !ValidName(c.op.name) then Some(InvalidName)
    else if !ValidPubKey(c.op.pubKey) then Some(InvalidPubKey)
    else if at == 0 then Some(CommitmentNotFound)
    else if c.now < at + MIN_COMMITMENT_AGE then Some(CommitmentTooNew)
    else if c.now > at + MAX_COMMITMENT_AGE then Some(CommitmentTooOld)
    else if Active(At(s, OfText(c.op.name)).domain, c.now) then Some(NameUnavailable)
    else PaymentGuard(s.basePrice, c, c.op.name)
  }

  function LiveGuard(d: Domain, now: Time): Option<Error> {
    if d.owner == ZERO_ADDRESS then Some(DomainNotRegistered)
    else if now > d.expiry then Some(DomainExpired)
    else None
  }

  function OwnerGuard(d: Domain, c: Call): Option<Error> {
    var live := LiveGuard(d, c.now);
    if live.Some? then live else if c.sender != d.owner then Some(NotDomainOwner) else None
  }

  /** The first field that is too long decides the error. */
  function FieldGuard(names: seq<Text>, values: seq<Text>): Option<Error>
    requires |names| == |values|
  {
    if names == [] then None
    else if |names[0]| > MAX_FIELD_NAME_LENGTH then Some(FieldNameTooLong)
    else if |values[0]| > MAX_FIELD_VALUE_LENGTH then Some(FieldValueTooLong)
    else FieldGuard(names[1..], values[1..])
  }

  function RecordGuard(schemas: Schemas, op: Op): Option<Error>
    requires op.SetRecord?
  {
    if |op.fieldNames| != |op.fieldValues| then Some(FieldArrayMismatch)
    else if |op.fieldNames| > MAX_RECORD_FIELDS then Some(TooManyRecordFields)
    else if |op.selector| > MAX_SELECTOR_LENGTH then Some(SelectorTooLong)
    else if op.ttl == 0 then Some(InvalidTTL)
    else if FieldGuard(op.fieldNames, op.fieldValues).Some? then FieldGuard(op.fieldNames, op.fieldValues)
    else if OfText(op.recordType) !in schemas then Some(UnknownRecordType)
    else if !CoversMandatory(schemas[OfText(op.recordType)], op.fieldNames) then Some(MissingMandatoryField)
    else None
  }

  /** Removal fails on a stale or missing record, and panics if the index does not cover the key. */
  function RemoveGuard(n: Name, k: Digest): Option<Error> {
    if k !in n.records || !n.records[k].present || n.records[k].generation != n.domain.generation then
      Some(RecordNotFound)
    else
      var l := ListAt(n, n.domain.generation);
      if 1 <= IndexAt(l, k) <= |l.keys| then None else Some(Panic)
  }

  function Guard(s: State, c: Call): Option<Error> {
    match c.op
    case Commit(_) => None
    case Register(_, _, _) => RegisterGuard(s, c)
    case Renew(name) =>
      var live := LiveGuard(At(s, OfText(name)).domain, c.now);
      if live.Some? then live else PaymentGuard(s.basePrice, c, name)
    case Transfer(name, newOwner, newPubKey) =>
      if newOwner == ZERO_ADDRESS then Some(ZeroAddress)
      else if !ValidPubKey(newPubKey) then Some(InvalidPubKey)
      else OwnerGuard(At(s, OfText(name)).domain, c)
    case SetRecord(name, _, _, _, _, _, _, _) =>
      var owner := OwnerGuard(At(s, OfText(name)).domain, c);
      if owner.Some? then owner else RecordGuard(s.schemas, c.op)
    case RemoveRecord(name, recordType, selector) =>
      var n := At(s, OfText(name));
      var owner := OwnerGuard(n.domain, c);
      if owner.Some? then owner else RemoveGuard(n, KeyOf(recordType, selector))
    case DeclareType(name, mandatory, optional) =>
      var r := Declare(s.schemas, name, mandatory, optional);
      if r.Refused? then Some(Registry(r.why)) else None
  }

  // ----------------------------------------------------------------- effects

  function Bumped(d: Domain, owner: Address, pubKey: Text, expiry: Uint64): Domain {
    Domain(owner, pubKey, expiry, (d.generation + 1) % U64)
  }

  /** Push the key unless the index already has it. */
  function Append(l: KeyList, k: Digest): KeyList {
    if IndexAt(l, k) != 0 then l else KeyList(l.keys + [k], l.index[k := |l.keys| + 1])
  }

  /** Move the last key into the hole, then shorten the list. */
  function SwapRemove(l: KeyList, k: Digest): KeyList
    requires 1 <= IndexAt(l, k) <= |l.keys|
  {
    var hole, last := IndexAt(l, k) - 1, |l.keys| - 1;
    if hole == last then KeyList(l.keys[..last], l.index - {k})
    else
      var moved := l.keys[last];
      KeyList(l.keys[hole := moved][..last], l.index[moved := hole + 1] - {k})
  }

  function PutRecord(n: Name, k: Digest, r: Record): Name {
    var g := n.domain.generation;
    n.(records := n.records[k := r], lists := n.lists[g := Append(ListAt(n, g), k)])
  }

  function DropRecord(n: Name, k: Digest): Name
    requires RemoveGuard(n, k).None?
  {
    var g := n.domain.generation;
    n.(records := n.records - {k}, lists := n.lists[g := SwapRemove(ListAt(n, g), k)])
  }

  function NewRecord(op: Op, g: Uint64): Record
    requires op.SetRecord?
  {
    Record(op.recordType, op.selector, op.fieldNames, op.fieldValues, op.ttl, g, op.ownerSig, op.word, true)
  }

  /** What a successful call does to the name it addresses. */
  function NameEffect(n: Name, c: Call): Name {
    match c.op
    case Register(_, pubKey, _) =>
      n.(domain := Bumped(n.domain, c.sender, pubKey, (c.now + REGISTRATION_PERIOD) % U64))
    case Renew(_) =>
      n.(domain := n.domain.(expiry := (n.domain.expiry + REGISTRATION_PERIOD) % U64))
    case Transfer(_, newOwner, newPubKey) =>
      n.(domain := Bumped(n.domain, newOwner, newPubKey, n.domain.expiry))
    case SetRecord(_, recordType, selector, _, _, _, _, _) =>
      PutRecord(n, KeyOf(recordType, selector), NewRecord(c.op, n.domain.generation))
    case RemoveRecord(_, recordType, selector) =>
      var k := KeyOf(recordType, selector);
      if RemoveGuard(n, k).None? then DropRecord(n, k) else n
    case _ => n
  }

  predicate Addresses(op: Op, h: Digest) {
    !op.Commit? && !op.DeclareType? && OfText(op.name) == h
  }

  function Effect(s: State, c: Call): State {
    match c.op
    case Commit(h) => s.(commitments := s.commitments[h := c.now])
    case DeclareType(name, mandatory, optional) =>
      var r := Declare(s.schemas, name, mandatory, optional);
      if r.Accepted? then s.(schemas := r.schemas) else s
    case _ =>
      var h := OfText(c.op.name);
      var s' := s.(names := s.names[h := NameEffect(At(s, h), c)]);
      if c.op.Register? then s'.(commitments := s.commitments - {CommitmentOf(c)}) else s'
  }

  function Events(op: Op): seq<RecordEvent> {
    match op
    case Register(name, _, _) => [RecordEvent(EventRegistered, name, OfText(name))]
    case Transfer(name, _, _) => [RecordEvent(EventTransferred, [], OfText(name))]
    case SetRecord(name, _, _, _, _, _, _, _) => [RecordEvent(EventRecordSet, name, OfText(name))]
    case RemoveRecord(name, _, _) => [RecordEvent(EventRecordRemoved, name, OfText(name))]
    case _ => []
  }

  function Step(s: State, c: Call): Outcome {
    var g := Guard(s, c);
    if g.Some? then Reverted(g.value) else Done(Effect(s, c), Events(c.op))
  }

  function Next(s: State, c: Call): State {
    if Step(s, c).Done? then Step(s, c).state else s
  }

  function After(s: State, calls: seq<Call>): State {
    if calls == [] then s else Next(After(s, calls[..|calls| - 1]), calls[|calls| - 1])
  }

  /** A freshly deployed namespace beside a registry that may already hold declared types. */
  predicate Initial(s: State) {
    s.names == map[] && s.commitments == map[] && WellFormed(s.schemas)
  }

  // ------------------------------------------------------------------- reads

  function Lookup(s: State, name: Text, recordType: Text, selector: Text, now: Time): Record {
    var n := At(s, OfText(name));
    var k := KeyOf(recordType, selector);
    if !Active(n.domain, now) then ZERO_RECORD
    else if k !in n.records || !n.records[k].present || n.records[k].generation != n.domain.generation then ZERO_RECORD
    else n.records[k]
  }

  function Resolve(s: State, name: Text, recordType: Text, selector: Text, now: Time): Resolved {
    var d := At(s, OfText(name)).domain;
    var record := Lookup(s, name, recordType, selector, now);
    if Active(d, now) then Resolved(record, d.owner, d.pubKey) else Resolved(record, ZERO_ADDRESS, [])
  }
}
