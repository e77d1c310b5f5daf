/**
 The client's comparison of a resolver's answer with the chain (resolver/cmd/ddns-lookup/main.go).
 */
module CrossCheck {
  import opened Options
  import opened Bytes
  import opened Digests
  import opened Sorting
  import opened Records
  import opened RecordMessage

  /** The outcome of decoding a hexadecimal string. */
  datatype Hex = BadHex | Decoded(bytes: Text)

  /** The record part of a response; `commitment` is None when the string is empty. */
  datatype ResponseRecord = ResponseRecord(
    recordType: Text,
    selector: Text,
    fieldNames: seq<Text>,
    fieldValues: seq<Text>,
    ttl: Uint32,
    generation: Uint64,
    ownerSig: Hex,
    commitment: Option<Hex>)

  datatype Response = Response(found: bool, record: Option<ResponseRecord>, owner: Address, pubKey: Hex)

  datatype Mismatch =
    | Withheld | NotOnChain | BadOwnerSig | BadCommitment | BadPubKey
    | OwnerMismatch | PubKeyMismatch | CommitmentMismatch | OwnerSigMismatch | BodyMismatch

  /** Panicked: a missing record or a missing field value is dereferenced. */
  datatype Verdict = Accepted | Rejected(why: Mismatch) | Panicked

  datatype Rebuilt = Failed(why: Mismatch) | Ok(record: Record)

  /** The fields of the response in the form of a chain record. */
  function Rebuild(r: ResponseRecord): Record {
    Record(r.recordType, r.selector, r.fieldNames, r.fieldValues, r.ttl, r.generation,
           if r.ownerSig.Decoded? then r.ownerSig.bytes else [],
           if r.commitment.Some? && r.commitment.value.Decoded? then r.commitment.value.bytes else ZERO_WORD, false)
  }

  function RecordFromResponse(r: ResponseRecord): (b: Rebuilt) {
    if r.ownerSig.BadHex? then Failed(BadOwnerSig) else
    if r.commitment.Some? && (r.commitment.value.BadHex? || |r.commitment.value.bytes| != 32) then Failed(BadCommitment)
    else Ok(Rebuild(r))
  }

  /** The response decodes and repeats the chain's owner, key, commitment and signature. */
  predicate SameCredentials(chain: Resolved, resp: Response)
    requires resp.record.Some?
  {
    var rec := resp.record.value;
    && resp.owner == chain.owner
    && resp.pubKey == Decoded(chain.pubKey)
    && rec.ownerSig == Decoded(chain.record.ownerSig)
    && (if rec.commitment.Some?
        then rec.commitment.value == Decoded(chain.record.commitment) && |chain.record.commitment| == 32
        else chain.record.commitment == ZERO_WORD)
  }

  /** The record is missing, or a field value is missing behind matching credentials. */
  predicate Crashes(chain: Resolved, resp: Response) {
    || resp.record.None?
    || (SameCredentials(chain, resp) && |resp.record.value.fieldValues| < |resp.record.value.fieldNames|)
  }

  /** The response's own fields repeat the record's type, selector, ttl, generation and field pairs. */
  predicate SameFields(chain: Record, rec: ResponseRecord)
    requires |chain.fieldNames| <= |chain.fieldValues| && |rec.fieldNames| <= |rec.fieldValues|
  {
    && rec.recordType == chain.recordType && rec.selector == chain.selector
    && rec.ttl == chain.ttl && rec.generation == chain.generation
    && multiset(Zip(rec.fieldNames, rec.fieldValues)) == multiset(Zip(chain.fieldNames, chain.fieldValues))
  }

  /** The response repeats the chain's answer: credentials, body and field pairs. */
  predicate Agrees(chain: Resolved, resp: Response) {
    && |chain.record.fieldNames| <= |chain.record.fieldValues|
    && chain.record.present
    && resp.record.Some? && SameCredentials(chain, resp)
    && |resp.record.value.fieldNames| <= |resp.record.value.fieldValues|
    && SameFields(chain.record, resp.record.value)
  }

  /** Both sides list their fields so that sorting brings them into the same order. */
  predicate SortAlike(sort: seq<Pair> -> seq<Pair>, chain: Resolved, resp: Response)
    requires Agrees(chain, resp)
  {
    var rec := resp.record.value;
    sort(Zip(chain.record.fieldNames, chain.record.fieldValues)) == sort(Zip(rec.fieldNames, rec.fieldValues))
  }

  /** The response lists the chain's fields in the same order, or no field name carries two values. */
  predicate ListedAlike(chain: Resolved, resp: Response)
    requires Agrees(chain, resp)
  {
    var ours := Zip(chain.record.fieldNames, chain.record.fieldValues);
    ours == Zip(resp.record.value.fieldNames, resp.record.value.fieldValues) || OneValueEach(ours)
  }

  /** The chain's own answer is accepted whatever sort.Slice does with equal names exactly if it is listed alike. */
  lemma AlikeExactly(chain: Resolved, resp: Response)
    requires Agrees(chain, resp)
    ensures (forall sort :: Sorts(sort) ==> SortAlike(sort, chain, resp)) <==> ListedAlike(chain, resp)
  {
    var rec := resp.record.value;
    var ps, qs := Zip(chain.record.fieldNames, chain.record.fieldValues), Zip(rec.fieldNames, rec.fieldValues);
    SortedAlikeExactly(ps, qs);
    if ListedAlike(chain, resp) {
      forall sort | Sorts(sort) ensures SortAlike(sort, chain, resp) { assert sort(ps) == sort(qs); }
    }
    if forall sort :: Sorts(sort) ==> SortAlike(sort, chain, resp) {
      forall sort | Sorts(sort) ensures sort(ps) == sort(qs) { assert SortAlike(sort, chain, resp); }
    }
  }

  /** What a rejection says is so. */
  predicate Truthful(chain: Resolved, resp: Response, why: Mismatch) {
    match why
    case Withheld => !resp.found && chain.record.present
    case NotOnChain => resp.found && !chain.record.present
    case BadPubKey => resp.pubKey.BadHex?
    case OwnerMismatch => resp.owner != chain.owner
    case PubKeyMismatch => resp.pubKey.Decoded? && resp.pubKey.bytes != chain.pubKey
    case BadOwnerSig => resp.record.Some? && resp.record.value.ownerSig.BadHex?
    case BadCommitment =>
      && resp.record.Some? && resp.record.value.commitment.Some?
      && (var c := resp.record.value.commitment.value; c.BadHex? || |c.bytes| != 32)
    case CommitmentMismatch =>
      && resp.record.Some?
      && (var c := resp.record.value.commitment;
          if c.Some? then c.value != Decoded(chain.record.commitment) else chain.record.commitment != ZERO_WORD)
    case OwnerSigMismatch => resp.record.Some? && resp.record.value.ownerSig != Decoded(chain.record.ownerSig)
    case BodyMismatch => resp.record.Some? && SameCredentials(chain, resp)
  }

  /** `sort` is what sort.Slice does; it is fixed, but may order pairs with equal names in any way. */
  method DiffAgainstChain(sort: seq<Pair> -> seq<Pair>, chain: Resolved, name: Text, resp: Response)
    returns (v: Verdict)
    requires Sorts(sort) && (chain.record.present ==> WithinLimits(name, chain.record))
    // A negative answer is accepted exactly when the chain holds no record either.
    ensures !resp.found ==> (v.Accepted? <==> !chain.record.present)
    // A positive answer is accepted exactly when it is the chain's answer, whatever lengths the response claims ...
    ensures resp.found ==> (v.Accepted? <==> Agrees(chain, resp) && SortAlike(sort, chain, resp))
    // ... in particular when it lists the chain's fields in the same order, or in any order if no
    // name carries two values.
    ensures resp.found && Agrees(chain, resp) && ListedAlike(chain, resp) ==> v.Accepted?
    // The client crashes exactly on a missing record, or on a missing field value behind matching credentials.
    ensures v.Panicked? <==> resp.found && chain.record.present && Crashes(chain, resp)
    // Whatever a rejection reports is so.
    ensures v.Rejected? ==> Truthful(chain, resp, v.why)
  {
    if !resp.found {
      if chain.record.present {
        return Rejected(Withheld);
      }
      return Accepted;
    }
    if !chain.record.present {
      return Rejected(NotOnChain);
    }
    if resp.record.None? {
      return Panicked;
    }
    var rebuilt := RecordFromResponse(resp.record.value);
    if rebuilt.Failed? {
      return Rejected(rebuilt.why);
    }
    var rec := rebuilt.record;
    if chain.owner != resp.owner {
      return Rejected(OwnerMismatch);
    }
    if resp.pubKey.BadHex? {
      return Rejected(BadPubKey);
    }
    if chain.pubKey != resp.pubKey.bytes {
      return Rejected(PubKeyMismatch);
    }
    if chain.record.commitment != rec.commitment {
      return Rejected(CommitmentMismatch);
    }
    if chain.record.ownerSig != rec.ownerSig {
      return Rejected(OwnerSigMismatch);
    }
    if |rec.fieldValues| < |rec.fieldNames| {
      return Panicked;
    }
    var ours := RecordMessage.RecordMessage(sort, name, chain.record);
    var theirs := RecordMessage.RecordMessage(sort, name, rec);
    assert rec == Rebuild(resp.record.value) && SameCredentials(chain, resp);
    EqualMessagesExact(name, chain.record, sort(Pairs(chain.record)), rec, sort(Pairs(rec)));
    if Agrees(chain, resp) { AlikeExactly(chain, resp); }
    if ours != theirs {
      return Rejected(BodyMismatch);
    }
    return Accepted;
  }

  /** Against an on-chain record, equal bytes mean equal bodies and orders, although the other side has no limits. */
  lemma EqualMessagesExact(name: Text, chain: Record, ps: seq<Pair>, rec: Record, qs: seq<Pair>)
    requires WithinLimits(name, chain) && IsOrdering(chain, ps)
    requires |rec.fieldNames| <= |rec.fieldValues| && IsOrdering(rec, qs)
    ensures Message(name, chain, ps) == Message(name, rec, qs) <==> SameBody(chain, rec) && ps == qs
  {
    var ours, theirs := Message(name, chain, ps), Message(name, rec, qs);
    if ours == theirs {
      OnChainMessageShort(name, chain, ours);
      ShortMessageSized(name, chain, ours);
      ShortMessageSized(name, rec, theirs);
      MessageParts(name, chain, ps, name, rec, qs);
    }
  }
}
