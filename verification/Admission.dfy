/**
 When each call of the namespace succeeds, over every run, in terms of the call, the earlier calls
 and the lease; and what a revert says.
 */
module Admission {
  import opened Options
  import opened Bytes
  import opened Digests
  import opened Records
  import opened SchemaRegistry
  import opened Namespace
  import opened NamespaceProofs
  import opened Ownership

  /** 1 to 63 bytes of a-z, 0-9 and hyphen, without a hyphen at either end. */
  predicate WellNamed(b: Text) {
    && 1 <= |b| <= 63 && b[0] != 45 && b[|b| - 1] != 45
    && forall i :: 0 <= i < |b| ==> b[i] == 45 || 48 <= b[i] <= 57 || 97 <= b[i] <= 122
  }

  /** The yearly fee: short names cost 16, 8, 4 and 2 times the base. */
  function Fee(base: nat, length: nat): nat {
    if length == 1 then 16 * base
    else if length == 2 then 8 * base
    else if length == 3 then 4 * base
    else if length == 4 then 2 * base
    else base
  }

  /** The fee can be computed in 256 bits and is paid, and any overpayment can be given back. */
  predicate PaysFee(base: nat, c: Call, name: Text) {
    var fee := Fee(base, |name|);
    fee < U64 * U64 * U64 * U64 && fee <= c.value && (c.value == fee || c.refundOk)
  }

  predicate Held(d: Domain, now: Time) {
    d.owner != ZERO_ADDRESS && now <= d.expiry
  }

  /** The domain record of a name after a run. */
  function DomainAfter(s: State, calls: seq<Call>, name: Text): Domain {
    At(After(s, calls), OfText(name)).domain
  }

  // ------------------------------------------------------------- registration

  /** calls[j] is the pending commit of this registration, 30 seconds to one day old. */
  predicate RipeCommit(s: State, calls: seq<Call>, c: Call, j: nat)
    requires c.op.Register?
  {
    && Pending(s, calls, OfCommitment(c.op.name, c.sender, c.op.pubKey, c.op.secret), j)
    && calls[j].now + 30 <= c.now <= calls[j].now + 86_400
  }

  lemma PendingBefore(s: State, calls: seq<Call>, h: Digest, j: nat)
    requires Pending(s, calls, h, j) && j < |calls| - 1
    ensures Pending(s, calls[..|calls| - 1], h, j)
    ensures calls[|calls| - 1].op != Commit(h) && !Reveals(After(s, calls[..|calls| - 1]), calls[|calls| - 1], h)
  {
    var before := calls[..|calls| - 1];
    forall i | j < i < |before| ensures before[i].op != Commit(h) && !Reveals(After(s, before[..i]), before[i], h) {
      assert before[..i] == calls[..i];
    }
  }

  /** The stored timestamp is that of the pending commit. */
  lemma {:induction false} PendingIsCommitted(s: State, calls: seq<Call>, h: Digest, j: nat)
    requires Pending(s, calls, h, j)
    ensures CommittedAt(After(s, calls), h) == calls[j].now
  {
    var n := |calls| - 1;
    CommittedAtNext(After(s, calls[..n]), calls[n], h);
    if j < n {
      PendingBefore(s, calls, h, j);
      PendingIsCommitted(s, calls[..n], h, j);
    }
  }

  lemma PaysFeeExactly(base: nat, c: Call, name: Text)
    requires 1 <= |name| <= 63
    ensures PaymentGuard(base, c, name).None? <==> PaysFee(base, c, name)
  {
  }

  lemma RegisterAt(s: State, c: Call)
    requires c.op.Register?
    ensures var d := At(s, OfText(c.op.name)).domain;
      var at := CommittedAt(s, OfCommitment(c.op.name, c.sender, c.op.pubKey, c.op.secret));
      Step(s, c).Done? <==>
        && WellNamed(c.op.name) && 1 <= |c.op.pubKey| <= 128
        && at != 0 && at + 30 <= c.now <= at + 86_400
        && !Held(d, c.now) && PaysFee(s.basePrice, c, c.op.name)
  {
    if 1 <= |c.op.name| <= 63 { PaysFeeExactly(s.basePrice, c, c.op.name); }
  }

  /** Over every run, a registration succeeds exactly under these conditions. */
  lemma RegisterSucceedsExactly(s0: State, calls: seq<Call>, c: Call)
    requires Initial(s0) && c.op.Register?
    ensures var d := DomainAfter(s0, calls, c.op.name);
      Step(After(s0, calls), c).Done? <==>
        && WellNamed(c.op.name) && 1 <= |c.op.pubKey| <= 128
        && (exists j :: RipeCommit(s0, calls, c, j))
        && (d.owner == ZERO_ADDRESS || c.now > d.expiry)
        && PaysFee(s0.basePrice, c, c.op.name)
  {
    var h := OfCommitment(c.op.name, c.sender, c.op.pubKey, c.op.secret);
    var at := CommittedAt(After(s0, calls), h);
    RegisterAt(After(s0, calls), c);
    BasePriceFixed(s0, calls);
    assert at != 0 && at + 30 <= c.now <= at + 86_400 <==> exists j :: RipeCommit(s0, calls, c, j) by {
      var i := CommitmentIsPending(s0, calls, h);
      if at != 0 && at + 30 <= c.now <= at + 86_400 {
        assert RipeCommit(s0, calls, c, i);
      }
      forall j: nat | RipeCommit(s0, calls, c, j) ensures at == calls[j].now {
        PendingIsCommitted(s0, calls, h, j);
      }
    }
  }

  // --------------------------------------------------------- renewal and transfer

  /** Over every run, a renewal succeeds exactly on a held name whose fee is paid, whoever pays it. */
  lemma RenewSucceedsExactly(s0: State, calls: seq<Call>, c: Call)
    requires Initial(s0) && c.op.Renew?
    ensures Step(After(s0, calls), c).Done? <==>
      Held(DomainAfter(s0, calls, c.op.name), c.now) && PaysFee(s0.basePrice, c, c.op.name)
  {
    var s, h := After(s0, calls), OfText(c.op.name);
    BasePriceFixed(s0, calls);
    assert At(s, h).domain.owner != ZERO_ADDRESS ==> ValidName(c.op.name) by {
      RunInv(s0, calls);
      assert NameInv(s.schemas, h, At(s, h));
    }
    if 1 <= |c.op.name| <= 63 { PaysFeeExactly(s.basePrice, c, c.op.name); }
  }

  /** A transfer succeeds exactly for the owner of a held name, to an account with a usable key. */
  lemma TransferSucceedsExactly(s: State, c: Call)
    requires c.op.Transfer?
    ensures var d := At(s, OfText(c.op.name)).domain;
      Step(s, c).Done? <==>
        c.op.newOwner != ZERO_ADDRESS && 1 <= |c.op.newPubKey| <= 128 && Held(d, c.now) && c.sender == d.owner
  {
  }

  // ------------------------------------------------------------------- records

  /** The limits on a record: 16 fields, names of 64 and values of 1024 bytes, a selector of 256, a positive ttl. */
  predicate WithinBounds(op: Op)
    requires op.SetRecord?
  {
    && |op.fieldNames| == |op.fieldValues| <= 16 && |op.selector| <= 256 && op.ttl > 0
    && forall i :: 0 <= i < |op.fieldNames| ==> |op.fieldNames[i]| <= 64 && |op.fieldValues[i]| <= 1024
  }

  /** Every mandatory field of the schema is among the names. */
  predicate HasMandatory(schema: Schema, fieldNames: seq<Text>) {
    forall i :: 0 <= i < |schema.fields| && schema.fields[i].mandatory ==> schema.fields[i].name in fieldNames
  }

  lemma CoversExactly(schema: Schema, fieldNames: seq<Text>)
    ensures CoversMandatory(schema, fieldNames) <==> HasMandatory(schema, fieldNames)
  {
    var names := MandatoryOf(schema.fields);
    forall n ensures n in names <==> FieldSpec(n, true) in schema.fields { MandatoryMember(schema.fields, n); }
    if HasMandatory(schema, fieldNames) {
      forall i | 0 <= i < |names| ensures names[i] in fieldNames {
        assert names[i] in names;
        var j :| 0 <= j < |schema.fields| && schema.fields[j] == FieldSpec(names[i], true);
      }
    }
    if CoversMandatory(schema, fieldNames) {
      forall j | 0 <= j < |schema.fields| && schema.fields[j].mandatory ensures schema.fields[j].name in fieldNames {
        assert schema.fields[j] == FieldSpec(schema.fields[j].name, true);
        assert schema.fields[j].name in names;
        var i :| 0 <= i < |names| && names[i] == schema.fields[j].name;
      }
    }
  }

  lemma RecordGuardExactly(schemas: Schemas, op: Op)
    requires op.SetRecord?
    ensures RecordGuard(schemas, op).None? <==>
      && WithinBounds(op)
      && OfText(op.recordType) in schemas && HasMandatory(schemas[OfText(op.recordType)], op.fieldNames)
  {
    if |op.fieldNames| == |op.fieldValues| { FieldGuardMeaning(op.fieldNames, op.fieldValues); }
    if OfText(op.recordType) in schemas { CoversExactly(schemas[OfText(op.recordType)], op.fieldNames); }
  }

  /** A record is stored exactly for the owner of a held name, within the limits and complete for its declared type. */
  lemma SetRecordSucceedsExactly(s: State, c: Call)
    requires c.op.SetRecord?
    ensures var d, t := At(s, OfText(c.op.name)).domain, OfText(c.op.recordType);
      Step(s, c).Done? <==>
        && Held(d, c.now) && c.sender == d.owner && WithinBounds(c.op)
        && t in s.schemas && HasMandatory(s.schemas[t], c.op.fieldNames)
  {
    RecordGuardExactly(s.schemas, c.op);
  }

  /** Over every run, a record is removed exactly for the owner of a held name under which lookup finds it. */
  lemma RemoveSucceedsForOwner(s0: State, calls: seq<Call>, c: Call)
    requires Initial(s0) && c.op.RemoveRecord?
    ensures var s, d := After(s0, calls), DomainAfter(s0, calls, c.op.name);
      && (Step(s, c).Done? <==>
            && Held(d, c.now) && c.sender == d.owner
            && Lookup(s, c.op.name, c.op.recordType, c.op.selector, c.now).present)
      && Step(s, c) != Reverted(Panic)
  {
    RemoveSucceedsExactly(s0, calls, c);
  }

  // ------------------------------------------------------------------ declarations

  /** 1 to 32 bytes of letters, digits, hyphen and underscore. */
  predicate WellTyped(t: Text) {
    && 1 <= |t| <= 32
    && forall i :: 0 <= i < |t| ==>
         97 <= t[i] <= 122 || 65 <= t[i] <= 90 || 48 <= t[i] <= 57 || t[i] == 45 || t[i] == 95
  }

  lemma SpecsNames(mandatory: seq<Text>, optional: seq<Text>)
    ensures var fields, all := Specs(mandatory, true) + Specs(optional, false), mandatory + optional;
      |fields| == |all| && forall i :: 0 <= i < |all| ==> fields[i] == FieldSpec(all[i], i < |mandatory|)
  {
  }

  /** At most 16 fields, each named in 1 to 32 bytes and none twice. */
  predicate WellFielded(all: seq<Text>) {
    && |all| <= 16 && (forall i :: 0 <= i < |all| ==> 1 <= |all[i]| <= 32)
    && forall i, j :: 0 <= i < j < |all| ==> all[i] != all[j]
  }

  /** The fields `all` in order, the first `n` of them mandatory. */
  predicate HasFields(schema: Schema, all: seq<Text>, n: nat) {
    |schema.fields| == |all| && forall i :: 0 <= i < |all| ==> schema.fields[i] == FieldSpec(all[i], i < n)
  }

  predicate DeclareReason(schemas: Schemas, name: Text, all: seq<Text>, why: DeclareError) {
    match why
    case InvalidTypeName => !WellTyped(name)
    case TooManyFields => |all| > 16
    case TypeAlreadyExists => OfText(name) in schemas
    case InvalidFieldName => exists i :: 0 <= i < |all| && !(1 <= |all[i]| <= 32)
    case DuplicateField => exists i, j :: 0 <= i < j < |all| && all[i] == all[j]
  }

  lemma DeclareExactly(schemas: Schemas, name: Text, ms: seq<Text>, os: seq<Text>)
    ensures var r, t := Declare(schemas, name, ms, os), OfText(name);
      && (r.Accepted? <==> WellTyped(name) && t !in schemas && WellFielded(ms + os))
      && (r.Accepted? ==> t in r.schemas && r.schemas[t].name == name && HasFields(r.schemas[t], ms + os, |ms|))
      && (r.Refused? ==> DeclareReason(schemas, name, ms + os, r.why))
  {
    var all := ms + os;
    SpecsNames(ms, os);
    assert forall i :: 0 <= i < |ms| ==> all[i] == ms[i];
    assert forall i :: 0 <= i < |os| ==> all[|ms| + i] == os[i];
    assert ValidFieldNames(ms) && ValidFieldNames(os) <==> forall i :: 0 <= i < |all| ==> 1 <= |all[i]| <= 32;
    assert ValidTypeName(name) <==> WellTyped(name);
  }

  /**
   A type is declared exactly if its name is well-formed and new and its fields are; its schema is
   then those fields, the mandatory ones first.
   */
  lemma DeclareSucceedsExactly(s: State, c: Call)
    requires c.op.DeclareType?
    ensures var all, t := c.op.mandatory + c.op.optional, OfText(c.op.typeName);
      && (Step(s, c).Done? <==> WellTyped(c.op.typeName) && t !in s.schemas && WellFielded(all))
      && (Step(s, c).Done? ==>
            && t in Next(s, c).schemas && Next(s, c).schemas[t].name == c.op.typeName
            && HasFields(Next(s, c).schemas[t], all, |c.op.mandatory|))
  {
    DeclareExactly(s.schemas, c.op.typeName, c.op.mandatory, c.op.optional);
  }

  // ----------------------------------------------------------------------- reverts

  /** What `e` says is so, for a call on the lease `d`. */
  predicate LeaseReason(base: nat, d: Domain, c: Call, e: Error)
    requires c.op.Register? || c.op.Renew? || c.op.Transfer? || c.op.SetRecord? || c.op.RemoveRecord?
  {
    match e
    case InvalidName => (c.op.Register? || c.op.Renew?) && !WellNamed(c.op.name)
    case InvalidPubKey =>
      || (c.op.Register? && !(1 <= |c.op.pubKey| <= 128))
      || (c.op.Transfer? && !(1 <= |c.op.newPubKey| <= 128))
    case NameUnavailable => c.op.Register? && Held(d, c.now)
    case DomainNotRegistered => !c.op.Register? && d.owner == ZERO_ADDRESS
    case DomainExpired => !c.op.Register? && d.owner != ZERO_ADDRESS && c.now > d.expiry
    case NotDomainOwner => !c.op.Register? && !c.op.Renew? && Held(d, c.now) && c.sender != d.owner
    case ZeroAddress => c.op.Transfer? && c.op.newOwner == ZERO_ADDRESS
    case InsufficientFee => (c.op.Register? || c.op.Renew?) && c.value < Fee(base, |c.op.name|)
    case RefundFailed => (c.op.Register? || c.op.Renew?) && c.value > Fee(base, |c.op.name|) && !c.refundOk
    case Panic => (c.op.Register? || c.op.Renew?) && Fee(base, |c.op.name|) >= U64 * U64 * U64 * U64
    case _ => false
  }

  predicate CommitReason(s: State, c: Call, e: Error)
    requires c.op.Register?
  {
    var at := CommittedAt(s, OfCommitment(c.op.name, c.sender, c.op.pubKey, c.op.secret));
    || (e.CommitmentNotFound? && at == 0)
    || (e.CommitmentTooNew? && at != 0 && c.now < at + 30)
    || (e.CommitmentTooOld? && at != 0 && c.now > at + 86_400)
  }

  predicate RecordReason(schemas: Schemas, op: Op, e: Error)
    requires op.SetRecord?
  {
    match e
    case FieldArrayMismatch => |op.fieldNames| != |op.fieldValues|
    case TooManyRecordFields => |op.fieldNames| > 16
    case SelectorTooLong => |op.selector| > 256
    case InvalidTTL => op.ttl == 0
    case FieldNameTooLong => exists i :: 0 <= i < |op.fieldNames| && |op.fieldNames[i]| > 64
    case FieldValueTooLong => exists i :: 0 <= i < |op.fieldValues| && |op.fieldValues[i]| > 1024
    case UnknownRecordType => OfText(op.recordType) !in schemas
    case MissingMandatoryField =>
      OfText(op.recordType) in schemas && !HasMandatory(schemas[OfText(op.recordType)], op.fieldNames)
    case _ => false
  }

  lemma {:induction false} FieldGuardWhy(names: seq<Text>, values: seq<Text>)
    requires |names| == |values| && FieldGuard(names, values).Some?
    ensures match FieldGuard(names, values).value
      case FieldNameTooLong => exists i :: 0 <= i < |names| && |names[i]| > 64
      case FieldValueTooLong => exists i :: 0 <= i < |values| && |values[i]| > 1024
      case _ => false
  {
    if |names[0]| <= 64 && |values[0]| <= 1024 {
      FieldGuardWhy(names[1..], values[1..]);
      assert forall i :: 0 <= i < |names| - 1 ==> names[1..][i] == names[i + 1] && values[1..][i] == values[i + 1];
    }
  }

  lemma RecordGuardWhy(schemas: Schemas, op: Op)
    requires op.SetRecord? && RecordGuard(schemas, op).Some?
    ensures RecordReason(schemas, op, RecordGuard(schemas, op).value)
  {
    if |op.fieldNames| == |op.fieldValues| && FieldGuard(op.fieldNames, op.fieldValues).Some? {
      FieldGuardWhy(op.fieldNames, op.fieldValues);
    }
    if OfText(op.recordType) in schemas { CoversExactly(schemas[OfText(op.recordType)], op.fieldNames); }
  }

  lemma RegisterWhy(s: State, c: Call)
    requires c.op.Register? && Step(s, c).Reverted?
    ensures var d := At(s, OfText(c.op.name)).domain;
      LeaseReason(s.basePrice, d, c, Step(s, c).error) || CommitReason(s, c, Step(s, c).error)
  {
  }

  lemma OwnerWhy(s: State, c: Call)
    requires (c.op.Renew? || c.op.Transfer? || c.op.SetRecord? || c.op.RemoveRecord?) && Step(s, c).Reverted?
    ensures var d, e := At(s, OfText(c.op.name)).domain, Step(s, c).error;
      || LeaseReason(s.basePrice, d, c, e)
      || (c.op.SetRecord? && RecordReason(s.schemas, c.op, e))
      || (c.op.RemoveRecord? && (e.RecordNotFound? || e.Panic?) && Held(d, c.now) && c.sender == d.owner)
  {
    if c.op.SetRecord? && RecordGuard(s.schemas, c.op).Some? { RecordGuardWhy(s.schemas, c.op); }
  }

  /** What the error says of the call and the state it met is so. */
  predicate Truthful(s: State, c: Call, e: Error) {
    if c.op.Commit? then false
    else if c.op.DeclareType? then
      e.Registry? && DeclareReason(s.schemas, c.op.typeName, c.op.mandatory + c.op.optional, e.why)
    else
      || LeaseReason(s.basePrice, At(s, OfText(c.op.name)).domain, c, e)
      || (c.op.Register? && CommitReason(s, c, e))
      || (c.op.SetRecord? && RecordReason(s.schemas, c.op, e))
      || (c.op.RemoveRecord? && e.RecordNotFound? &&
          !Lookup(s, c.op.name, c.op.recordType, c.op.selector, c.now).present)
  }

  /** Over every run, whatever a reverted call reports is so. */
  lemma RevertsTellTheTruth(s0: State, calls: seq<Call>, c: Call)
    requires Initial(s0) && Step(After(s0, calls), c).Reverted?
    ensures Truthful(After(s0, calls), c, Step(After(s0, calls), c).error)
  {
    if c.op.Register? {
      RegisterWhy(After(s0, calls), c);
    } else if c.op.DeclareType? {
      DeclareExactly(After(s0, calls).schemas, c.op.typeName, c.op.mandatory, c.op.optional);
    } else if !c.op.Commit? {
      OwnerWhy(After(s0, calls), c);
      if c.op.RemoveRecord? { RemoveSucceedsForOwner(s0, calls, c); }
    }
  }
}
