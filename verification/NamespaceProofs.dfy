/**
 What every run of the namespace keeps: the swap-remove index, lazy invalidation as a
 refinement of eager clearing, and the schema invariant.
 */
module NamespaceProofs {
  import opened Options
  import opened Bytes
  import opened Digests
  import opened Records
  import opened SchemaRegistry
  import opened Namespace

  // --------------------------------------------------------- swap-remove index

  predicate Sits(l: KeyList, k: Digest) {
    1 <= IndexAt(l, k) <= |l.keys| && l.keys[IndexAt(l, k) - 1] == k
  }

  predicate Indexed(l: KeyList, i: nat)
    requires i < |l.keys|
  {
    IndexAt(l, l.keys[i]) == i + 1
  }

  /** index[k] == i + 1 exactly when keys[i] == k. */
  predicate ListInv(l: KeyList) {
    && (forall i :: 0 <= i < |l.keys| ==> Indexed(l, i))
    && (forall k :: k in l.index ==> Sits(l, k))
  }

  lemma ListInvMeaning(l: KeyList)
    requires ListInv(l)
    ensures forall i, j :: 0 <= i < j < |l.keys| ==> l.keys[i] != l.keys[j]
    ensures forall k :: k in l.keys <==> k in l.index
    ensures |l.keys| == |l.index.Keys|
  {
    forall i, j | 0 <= i < j < |l.keys| ensures l.keys[i] != l.keys[j] {
      assert Indexed(l, i) && Indexed(l, j);
    }
    forall k ensures k in l.keys <==> k in l.index {
      if k in l.keys {
        var i :| 0 <= i < |l.keys| && l.keys[i] == k;
        assert Indexed(l, i);
      }
      if k in l.index { assert Sits(l, k); }
    }
    CountKeys(l.keys, l.index.Keys);
  }

  lemma {:induction false} CountKeys(keys: seq<Digest>, all: set<Digest>)
    requires forall i, j :: 0 <= i < j < |keys| ==> keys[i] != keys[j]
    requires forall k :: k in keys <==> k in all
    ensures |keys| == |all|
  {
    if keys == [] {
      assert all == {};
    } else {
      var rest, last := keys[..|keys| - 1], keys[|keys| - 1];
      assert keys == rest + [last];
      CountKeys(rest, all - {last});
    }
  }

  lemma AppendInv(l: KeyList, k: Digest)
    requires ListInv(l)
    ensures ListInv(Append(l, k))
    ensures Append(l, k).index.Keys == l.index.Keys + {k}
  {
    var r := Append(l, k);
    if IndexAt(l, k) == 0 {
      assert k in l.index ==> Sits(l, k);
      forall i | 0 <= i < |r.keys| ensures Indexed(r, i) {
        if i < |l.keys| { assert Indexed(l, i); }
      }
      forall j | j in r.index ensures Sits(r, j) {
        if j != k { assert Sits(l, j); }
      }
    }
  }

  lemma SwapRemoveInv(l: KeyList, k: Digest)
    requires ListInv(l) && k in l.index
    ensures Sits(l, k)
    ensures ListInv(SwapRemove(l, k))
    ensures SwapRemove(l, k).index.Keys == l.index.Keys - {k}
  {
    assert Sits(l, k);
    var hole, last := l.index[k] - 1, |l.keys| - 1;
    var moved := l.keys[last];
    assert Indexed(l, last);
    var r := SwapRemove(l, k);
    assert r.index.Keys == l.index.Keys - {k};
    forall i | 0 <= i < |r.keys| ensures Indexed(r, i) {
      assert Indexed(l, i);
      assert r.keys[i] == if i == hole then moved else l.keys[i];
    }
    forall j | j in r.index ensures Sits(r, j) {
      assert Sits(l, j);
      assert r.index[j] == if j == moved then hole + 1 else l.index[j];
    }
  }

  // ------------------------------------------------- invariants of every run

  /** A stored record is well-keyed, within limits, and satisfies the schema of its type. */
  predicate RecordInv(schemas: Schemas, k: Digest, r: Record) {
    && r.present && r.ttl > 0
    && k == KeyOf(r.recordType, r.selector)
    && WithinLimits([], r)
    && OfText(r.recordType) in schemas
    && CoversMandatory(schemas[OfText(r.recordType)], r.fieldNames)
  }

  /** The key list of a record's generation names it, in every generation the record may have. */
  predicate Listed(n: Name, k: Digest)
    requires k in n.records
  {
    k in ListAt(n, n.records[k].generation).index
  }

  predicate NameInv(schemas: Schemas, h: Digest, n: Name) {
    && (forall k :: k in n.records ==> RecordInv(schemas, k, n.records[k]))
    && (forall k :: k in n.records ==> Listed(n, k))
    && (forall g :: g in n.lists ==> ListInv(n.lists[g]))
    && (if n.domain.owner == ZERO_ADDRESS then n.domain.expiry == 0 else h.OfText? && ValidName(h.text))
  }

  predicate StoreInv(s: State) {
    && WellFormed(s.schemas)
    && forall h :: h in s.names ==> NameInv(s.schemas, h, s.names[h])
  }

  lemma NewRecordInv(schemas: Schemas, op: Op, g: Uint64)
    requires WellFormed(schemas) && op.SetRecord? && RecordGuard(schemas, op).None?
    ensures RecordInv(schemas, KeyOf(op.recordType, op.selector), NewRecord(op, g))
  {
    FieldGuardMeaning(op.fieldNames, op.fieldValues);
  }

  lemma {:induction false} FieldGuardMeaning(names: seq<Text>, values: seq<Text>)
    requires |names| == |values|
    ensures FieldGuard(names, values).None? <==>
            forall i :: 0 <= i < |names| ==>
              |names[i]| <= MAX_FIELD_NAME_LENGTH && |values[i]| <= MAX_FIELD_VALUE_LENGTH
  {
    if names != [] {
      FieldGuardMeaning(names[1..], values[1..]);
      assert forall i :: 0 < i < |names| ==> names[i] == names[1..][i - 1] && values[i] == values[1..][i - 1];
    }
  }

  lemma PutListed(n: Name, k: Digest, r: Record, j: Digest)
    requires ListInv(ListAt(n, n.domain.generation)) && r.generation == n.domain.generation
    requires j == k || (j in n.records && Listed(n, j))
    ensures Listed(PutRecord(n, k, r), j)
  {
    AppendInv(ListAt(n, n.domain.generation), k);
  }

  lemma DropListed(n: Name, k: Digest, j: Digest)
    requires ListInv(ListAt(n, n.domain.generation)) && RemoveGuard(n, k).None?
    requires j != k && j in n.records && Listed(n, j)
    ensures Listed(DropRecord(n, k), j)
  {
    SwapRemoveInv(ListAt(n, n.domain.generation), k);
  }

  /** A new owner, key, expiry or generation leaves the stored records as they were. */
  lemma DomainInv(schemas: Schemas, h: Digest, n: Name, d: Domain)
    requires NameInv(schemas, h, n) && d.owner != ZERO_ADDRESS && h.OfText? && ValidName(h.text)
    ensures NameInv(schemas, h, n.(domain := d))
  {
    forall k | k in n.records ensures Listed(n.(domain := d), k) { assert Listed(n, k); }
  }

  lemma PutInv(schemas: Schemas, h: Digest, n: Name, k: Digest, r: Record)
    requires NameInv(schemas, h, n) && RecordInv(schemas, k, r) && r.generation == n.domain.generation
    ensures NameInv(schemas, h, PutRecord(n, k, r))
  {
    var n', l := PutRecord(n, k, r), ListAt(n, n.domain.generation);
    assert ListInv(l);
    forall j | j in n'.records ensures Listed(n', j) { PutListed(n, k, r, j); }
    forall g | g in n'.lists ensures ListInv(n'.lists[g]) {
      if g == n.domain.generation { AppendInv(l, k); }
    }
  }

  lemma DropInv(schemas: Schemas, h: Digest, n: Name, k: Digest)
    requires NameInv(schemas, h, n) && RemoveGuard(n, k).None?
    ensures NameInv(schemas, h, DropRecord(n, k))
  {
    var g := n.domain.generation;
    assert ListInv(ListAt(n, g));
    SwapRemoveInv(ListAt(n, g), k);
    forall j | j in DropRecord(n, k).records ensures Listed(DropRecord(n, k), j) { DropListed(n, k, j); }
  }

  lemma NameEffectInv(s: State, c: Call, h: Digest)
    requires StoreInv(s) && Guard(s, c).None? && Addresses(c.op, h)
    ensures NameInv(s.schemas, h, NameEffect(At(s, h), c))
  {
    var n := At(s, h);
    assert NameInv(s.schemas, h, n);
    if c.op.SetRecord? {
      NewRecordInv(s.schemas, c.op, n.domain.generation);
      PutInv(s.schemas, h, n, KeyOf(c.op.recordType, c.op.selector), NewRecord(c.op, n.domain.generation));
    } else if c.op.RemoveRecord? {
      DropInv(s.schemas, h, n, KeyOf(c.op.recordType, c.op.selector));
    } else {
      DomainInv(s.schemas, h, n, NameEffect(n, c).domain);
    }
  }

  /** Declared schemas never change. */
  lemma SchemasGrow(s: State, c: Call)
    requires WellFormed(s.schemas)
    ensures WellFormed(Next(s, c).schemas)
    ensures forall t :: t in s.schemas ==> t in Next(s, c).schemas && Next(s, c).schemas[t] == s.schemas[t]
  {
    if c.op.DeclareType? {
      DeclarePreserves(s.schemas, c.op.typeName, c.op.mandatory, c.op.optional);
    }
  }

  /** Over every run, a declared schema stays as it was declared. */
  lemma {:induction false} SchemasNeverChange(s: State, calls: seq<Call>, t: Digest)
    requires WellFormed(s.schemas) && t in s.schemas
    ensures WellFormed(After(s, calls).schemas)
    ensures t in After(s, calls).schemas && After(s, calls).schemas[t] == s.schemas[t]
  {
    if calls != [] {
      SchemasNeverChange(s, calls[..|calls| - 1], t);
      SchemasGrow(After(s, calls[..|calls| - 1]), calls[|calls| - 1]);
    }
  }

  lemma NextInv(s: State, c: Call)
    requires StoreInv(s)
    ensures StoreInv(Next(s, c))
  {
    SchemasGrow(s, c);
    var s' := Next(s, c);
    forall h | h in s'.names ensures NameInv(s'.schemas, h, s'.names[h]) {
      if Step(s, c).Done? && Addresses(c.op, h) {
        NameEffectInv(s, c, h);
        assert s'.schemas == s.schemas;
      } else {
        assert h in s.names && s'.names[h] == s.names[h];
        NameInvGrows(s.schemas, s'.schemas, h, s.names[h]);
      }
    }
  }

  lemma NameInvGrows(schemas: Schemas, schemas': Schemas, h: Digest, n: Name)
    requires NameInv(schemas, h, n)
    requires forall t :: t in schemas ==> t in schemas' && schemas'[t] == schemas[t]
    ensures NameInv(schemas', h, n)
  {
    assert forall k :: k in n.records ==> Listed(n, k);
  }

  lemma {:induction false} AfterInv(s: State, calls: seq<Call>)
    requires StoreInv(s)
    ensures StoreInv(After(s, calls))
  {
    if calls != [] {
      AfterInv(s, calls[..|calls| - 1]);
      NextInv(After(s, calls[..|calls| - 1]), calls[|calls| - 1]);
    }
  }

  /** Every reachable state: schemas well-formed, indexes exact, stored records valid for their schema. */
  lemma RunInv(s0: State, calls: seq<Call>)
    requires Initial(s0)
    ensures StoreInv(After(s0, calls))
  {
    AfterInv(s0, calls);
  }

  /** Every record a lookup can find has a declared type, all its mandatory fields, and obeys the limits. */
  lemma LookupMeetsSchema(s0: State, calls: seq<Call>, name: Text, recordType: Text, selector: Text, now: Time)
    requires Initial(s0)
    ensures var s := After(s0, calls);
      var r := Lookup(s, name, recordType, selector, now);
      r.present ==>
        && ValidName(name) && WithinLimits(name, r)
        && r.recordType == recordType && r.selector == selector
        && OfText(recordType) in s.schemas
        && CoversMandatory(s.schemas[OfText(recordType)], r.fieldNames)
  {
    RunInv(s0, calls);
    var s := After(s0, calls);
    assert NameInv(s.schemas, OfText(name), At(s, OfText(name)));
  }

  // ------------------------------------- lazy invalidation refines eager clearing

  predicate Bumps(s: State, c: Call, h: Digest) {
    Step(s, c).Done? && IsBump(c.op) && Addresses(c.op, h)
  }

  /** How often the name was registered or transferred. */
  function BumpCount(s: State, calls: seq<Call>, h: Digest): nat {
    if calls == [] then 0 else
    var before := calls[..|calls| - 1];
    BumpCount(s, before, h) + (if Bumps(After(s, before), calls[|calls| - 1], h) then 1 else 0)
  }

  /** A successful call on the records of the name it addresses, when records are erased at once. */
  function EagerStep(records: map<Digest, Record>, op: Op, g: Uint64): map<Digest, Record> {
    match op
    case Register(_, _, _) => map[]
    case Transfer(_, _, _) => map[]
    case SetRecord(_, recordType, selector, fieldNames, fieldValues, ttl, ownerSig, word) =>
      records[KeyOf(recordType, selector) :=
        Record(recordType, selector, fieldNames, fieldValues, ttl, g, ownerSig, word, true)]
    case RemoveRecord(_, recordType, selector) => records - {KeyOf(recordType, selector)}
    case _ => records
  }

  /** The records of one name in a store that erases them on registration and transfer. */
  function EagerRecords(s: State, calls: seq<Call>, h: Digest): map<Digest, Record> {
    if calls == [] then map[] else
    var before, c := calls[..|calls| - 1], calls[|calls| - 1];
    var records := EagerRecords(s, before, h);
    if Step(After(s, before), c).Done? && Addresses(c.op, h)
    then EagerStep(records, c.op, BumpCount(s, before, h) % U64)
    else records
  }

  /** What a store answers for `k`: nothing once the name is not active. */
  function Found(records: map<Digest, Record>, k: Digest, active: bool): Record {
    if active && k in records then records[k] else ZERO_RECORD
  }

  function EagerLookup(s: State, calls: seq<Call>, name: Text, recordType: Text, selector: Text, now: Time): Record {
    var h := OfText(name);
    Found(EagerRecords(s, calls, h), KeyOf(recordType, selector), Active(At(After(s, calls), h).domain, now))
  }

  /** The records of the current generation. */
  function Live(n: Name): map<Digest, Record> {
    map k | k in n.records && n.records[k].generation == n.domain.generation :: n.records[k]
  }

  /** Nothing was written in a later generation, and the current key list names the live records. */
  predicate GenerationInv(n: Name) {
    && (forall k :: k in n.records ==> n.records[k].generation <= n.domain.generation)
    && (forall g :: g in n.lists ==> g <= n.domain.generation)
    && ListAt(n, n.domain.generation).index.Keys == Live(n).Keys
  }

  lemma BumpEmpties(n: Name, d: Domain)
    requires GenerationInv(n) && d.generation == n.domain.generation + 1
    ensures GenerationInv(n.(domain := d)) && Live(n.(domain := d)) == map[]
  {
    var n' := n.(domain := d);
    assert forall k :: k in n'.records ==> n'.records[k].generation != d.generation;
    assert d.generation !in n'.lists;
  }

  lemma LivePut(n: Name, k: Digest, r: Record)
    requires r.generation == n.domain.generation
    ensures Live(PutRecord(n, k, r)) == Live(n)[k := r]
  {
  }

  lemma PutWrites(n: Name, k: Digest, r: Record)
    requires GenerationInv(n) && ListInv(ListAt(n, n.domain.generation))
    requires r.generation == n.domain.generation
    ensures GenerationInv(PutRecord(n, k, r))
    ensures Live(PutRecord(n, k, r)) == Live(n)[k := r]
  {
    var g, n' := n.domain.generation, PutRecord(n, k, r);
    AppendInv(ListAt(n, g), k);
    LivePut(n, k, r);
    assert ListAt(n', g).index.Keys == Live(n).Keys + {k};
  }

  lemma DropDeletes(n: Name, k: Digest)
    requires GenerationInv(n) && ListInv(ListAt(n, n.domain.generation)) && RemoveGuard(n, k).None?
    ensures GenerationInv(DropRecord(n, k))
    ensures Live(DropRecord(n, k)) == Live(n) - {k}
  {
    var g, n' := n.domain.generation, DropRecord(n, k);
    SwapRemoveInv(ListAt(n, g), k);
    assert ListAt(n', g).index.Keys == Live(n).Keys - {k};
    assert Live(n') == Live(n) - {k};
  }

  lemma AtNext(s: State, c: Call, h: Digest)
    ensures At(Next(s, c), h) == if Step(s, c).Done? && Addresses(c.op, h) then NameEffect(At(s, h), c) else At(s, h)
    ensures Step(s, c).Done? && c.op.RemoveRecord? && Addresses(c.op, h) ==>
              RemoveGuard(At(s, h), KeyOf(c.op.recordType, c.op.selector)).None?
  {
  }

  predicate IsBump(op: Op) {
    op.Register? || op.Transfer?
  }

  /** One successful call against one name, lazily and eagerly. */
  lemma RefinementStep(n: Name, c: Call)
    requires GenerationInv(n) && ListInv(ListAt(n, n.domain.generation))
    requires IsBump(c.op) ==> n.domain.generation + 1 < U64
    requires c.op.RemoveRecord? ==> RemoveGuard(n, KeyOf(c.op.recordType, c.op.selector)).None?
    ensures GenerationInv(NameEffect(n, c))
    ensures NameEffect(n, c).domain.generation == n.domain.generation + (if IsBump(c.op) then 1 else 0)
    ensures Live(NameEffect(n, c)) == EagerStep(Live(n), c.op, n.domain.generation)
  {
    match c.op
    case Register(_, _, _) => BumpEmpties(n, NameEffect(n, c).domain);
    case Transfer(_, _, _) => BumpEmpties(n, NameEffect(n, c).domain);
    case SetRecord(_, recordType, selector, _, _, _, _, _) =>
      PutWrites(n, KeyOf(recordType, selector), NewRecord(c.op, n.domain.generation));
    case RemoveRecord(_, recordType, selector) => DropDeletes(n, KeyOf(recordType, selector));
    case Renew(_) => assert Live(NameEffect(n, c)) == Live(n);
    case _ =>
  }

  lemma ListInvAt(s: State, h: Digest, g: Uint64)
    requires StoreInv(s)
    ensures ListInv(ListAt(At(s, h), g))
  {
    assert h in s.names ==> NameInv(s.schemas, h, s.names[h]);
  }

  /** The live records are `records` and the name has been registered or transferred `count` times. */
  predicate Refines(n: Name, count: nat, records: map<Digest, Record>) {
    GenerationInv(n) && n.domain.generation == count && Live(n) == records
  }

  lemma NextRefines(s: State, c: Call, h: Digest, count: nat, records: map<Digest, Record>)
    requires StoreInv(s) && Refines(At(s, h), count, records)
    requires count + (if Bumps(s, c, h) then 1 else 0) < U64
    ensures Refines(At(Next(s, c), h), count + (if Bumps(s, c, h) then 1 else 0),
                    if Step(s, c).Done? && Addresses(c.op, h) then EagerStep(records, c.op, count % U64) else records)
  {
    AtNext(s, c, h);
    assert count % U64 == count == At(s, h).domain.generation;
    if Step(s, c).Done? && Addresses(c.op, h) {
      ListInvAt(s, h, count);
      RefinementStep(At(s, h), c);
    }
  }

  lemma Unfold(s: State, calls: seq<Call>, h: Digest)
    requires calls != []
    ensures var before, c := calls[..|calls| - 1], calls[|calls| - 1];
      && After(s, calls) == Next(After(s, before), c)
      && BumpCount(s, calls, h) == BumpCount(s, before, h) + (if Bumps(After(s, before), c, h) then 1 else 0)
      && EagerRecords(s, calls, h) ==
         if Step(After(s, before), c).Done? && Addresses(c.op, h)
         then EagerStep(EagerRecords(s, before, h), c.op, BumpCount(s, before, h) % U64)
         else EagerRecords(s, before, h)
  {
  }

  lemma {:induction false} RunRefines(s: State, calls: seq<Call>, h: Digest)
    requires StoreInv(s) && Refines(At(s, h), 0, map[])
    requires BumpCount(s, calls, h) < U64
    ensures Refines(At(After(s, calls), h), BumpCount(s, calls, h), EagerRecords(s, calls, h))
  {
    if calls != [] {
      var before, c := calls[..|calls| - 1], calls[|calls| - 1];
      Unfold(s, calls, h);
      RunRefines(s, before, h);
      AfterInv(s, before);
      var count, records := BumpCount(s, before, h), EagerRecords(s, before, h);
      NextRefines(After(s, before), c, h, count, records);
    }
  }

  /**
   Until a name's generation counter wraps, its live records are those of the eager store,
   the counter counts registrations and transfers, and the current key list is exact.
   */
  lemma LazyRefinesEager(s0: State, calls: seq<Call>, h: Digest)
    requires Initial(s0) && BumpCount(s0, calls, h) < U64
    ensures Refines(At(After(s0, calls), h), BumpCount(s0, calls, h),
                    EagerRecords(s0, calls, h))
  {
    RunRefines(s0, calls, h);
  }

  /** Every lookup is answered as the eager store would answer it. */
  lemma LookupRefinesEager(s0: State, calls: seq<Call>, name: Text, recordType: Text, selector: Text, now: Time)
    requires Initial(s0) && BumpCount(s0, calls, OfText(name)) < U64
    ensures Lookup(After(s0, calls), name, recordType, selector, now) ==
            EagerLookup(s0, calls, name, recordType, selector, now)
  {
    NoFullCircle(s0, calls, OfText(name), KeyOf(recordType, selector));
    LookupDiffersExactly(s0, calls, name, recordType, selector, now);
  }

  lemma RemoveGuardMeaning(s: State, h: Digest, k: Digest)
    requires StoreInv(s)
    ensures RemoveGuard(At(s, h), k) == if k in Live(At(s, h)) then None else Some(RecordNotFound)
  {
    var n := At(s, h);
    assert NameInv(s.schemas, h, n);
    var l := ListAt(n, n.domain.generation);
    ListInvAt(s, h, n.domain.generation);
    assert k in n.records ==> Listed(n, k) && RecordInv(s.schemas, k, n.records[k]);
    assert k in l.index ==> Sits(l, k);
  }

  lemma RemoveExactAt(s: State, c: Call)
    requires StoreInv(s) && c.op.RemoveRecord?
    ensures Step(s, c) != Reverted(Panic)
    ensures Step(s, c).Done? <==>
      && OwnerGuard(At(s, OfText(c.op.name)).domain, c).None?
      && Lookup(s, c.op.name, c.op.recordType, c.op.selector, c.now).present
  {
    RemoveGuardMeaning(s, OfText(c.op.name), KeyOf(c.op.recordType, c.op.selector));
  }

  /**
   In every reachable state removeRecord succeeds for the owner exactly when lookup finds the
   record, which until the generation wraps is when the eager store holds it; it never underflows.
   */
  lemma RemoveSucceedsExactly(s0: State, calls: seq<Call>, c: Call)
    requires Initial(s0) && c.op.RemoveRecord?
    ensures var s, h, k := After(s0, calls), OfText(c.op.name), KeyOf(c.op.recordType, c.op.selector);
      var owns := OwnerGuard(At(s, h).domain, c).None?;
      && Step(s, c) != Reverted(Panic)
      && (Step(s, c).Done? <==> owns && Lookup(s, c.op.name, c.op.recordType, c.op.selector, c.now).present)
      && (BumpCount(s0, calls, h) < U64 ==> (Step(s, c).Done? <==> owns && k in EagerRecords(s0, calls, h)))
  {
    var s, h, k := After(s0, calls), OfText(c.op.name), KeyOf(c.op.recordType, c.op.selector);
    RunInv(s0, calls);
    RemoveExactAt(s, c);
    if BumpCount(s0, calls, h) < U64 {
      RemoveGuardMeaning(s, h, k);
      LazyRefinesEager(s0, calls, h);
    }
  }

  // ------------------------------------------------- when the generation wraps

  function StampStep(stamp: Option<nat>, op: Op, k: Digest, count: nat): Option<nat> {
    match op
    case SetRecord(_, recordType, selector, _, _, _, _, _) =>
      if KeyOf(recordType, selector) == k then Some(count) else stamp
    case RemoveRecord(_, recordType, selector) => if KeyOf(recordType, selector) == k then None else stamp
    case _ => stamp
  }

  /** How often the name had been registered or transferred when the record stored under `k` was written. */
  function Stamp(s: State, calls: seq<Call>, h: Digest, k: Digest): Option<nat> {
    if calls == [] then None else
    var before, c := calls[..|calls| - 1], calls[|calls| - 1];
    var stamp := Stamp(s, before, h, k);
    if Step(After(s, before), c).Done? && Addresses(c.op, h)
    then StampStep(stamp, c.op, k, BumpCount(s, before, h))
    else stamp
  }

  /** The stored record carries the low 64 bits of its stamp; the eager store holds it if the stamp is the latest. */
  predicate Tracks(n: Name, k: Digest, count: nat, stamp: Option<nat>, eager: map<Digest, Record>) {
    && n.domain.generation == count % U64
    && (k in n.records <==> stamp.Some?)
    && (stamp.Some? ==> stamp.value <= count && n.records[k].generation == stamp.value % U64)
    && (k in eager <==> stamp == Some(count))
    && (k in eager ==> eager[k] == n.records[k])
  }

  lemma WrapStep(a: nat)
    ensures (a % U64 + 1) % U64 == (a + 1) % U64
  {
  }

  lemma TracksStep(n: Name, c: Call, k: Digest, count: nat, stamp: Option<nat>, eager: map<Digest, Record>)
    requires Tracks(n, k, count, stamp, eager)
    requires c.op.RemoveRecord? ==> RemoveGuard(n, KeyOf(c.op.recordType, c.op.selector)).None?
    ensures Tracks(NameEffect(n, c), k, count + (if IsBump(c.op) then 1 else 0), StampStep(stamp, c.op, k, count),
                   EagerStep(eager, c.op, count % U64))
  {
    WrapStep(count);
  }

  lemma {:induction false} RunTracks(s0: State, calls: seq<Call>, h: Digest, k: Digest)
    requires Initial(s0)
    ensures Tracks(At(After(s0, calls), h), k, BumpCount(s0, calls, h), Stamp(s0, calls, h, k),
                   EagerRecords(s0, calls, h))
  {
    if calls != [] {
      var before, c := calls[..|calls| - 1], calls[|calls| - 1];
      RunTracks(s0, before, h, k);
      Unfold(s0, calls, h);
      AtNext(After(s0, before), c, h);
      if Step(After(s0, before), c).Done? && Addresses(c.op, h) {
        TracksStep(At(After(s0, before), h), c, k, BumpCount(s0, before, h), Stamp(s0, before, h, k),
                   EagerRecords(s0, before, h));
      }
    }
  }

  lemma SameResidue(a: nat, b: nat)
    requires a <= b
    ensures a % U64 == b % U64 <==> (b - a) % U64 == 0
  {
    assert b == (b - a) + a;
  }

  /** The record stored under `k` was written a nonzero multiple of 2^64 registrations and transfers ago. */
  predicate FullCircle(s0: State, calls: seq<Call>, h: Digest, k: Digest) {
    var stamp, count := Stamp(s0, calls, h, k), BumpCount(s0, calls, h);
    stamp.Some? && stamp.value < count && (count - stamp.value) % U64 == 0
  }

  lemma NoFullCircle(s0: State, calls: seq<Call>, h: Digest, k: Digest)
    requires BumpCount(s0, calls, h) < U64
    ensures !FullCircle(s0, calls, h, k)
  {
    var stamp := Stamp(s0, calls, h, k);
    if stamp.Some? { SmallGap(stamp.value, BumpCount(s0, calls, h)); }
  }

  lemma SmallGap(a: nat, b: nat)
    ensures a < b < U64 ==> (b - a) % U64 != 0
  {
  }

  lemma TracksDiffer(n: Name, k: Digest, count: nat, stamp: Option<nat>, eager: map<Digest, Record>, active: bool)
    requires Tracks(n, k, count, stamp, eager) && (k in n.records ==> n.records[k].present)
    ensures Found(Live(n), k, active) != Found(eager, k, active) <==>
      active && stamp.Some? && stamp.value < count && (count - stamp.value) % U64 == 0
  {
    if stamp.Some? {
      SameResidue(stamp.value, count);
      assert k in Live(n) <==> (count - stamp.value) % U64 == 0;
    }
  }

  lemma LookupIsLive(s: State, name: Text, recordType: Text, selector: Text, now: Time)
    requires StoreInv(s)
    ensures var n, k := At(s, OfText(name)), KeyOf(recordType, selector);
      && Lookup(s, name, recordType, selector, now) == Found(Live(n), k, Active(n.domain, now))
      && (k in n.records ==> RecordInv(s.schemas, k, n.records[k]))
  {
    var n, k := At(s, OfText(name)), KeyOf(recordType, selector);
    assert NameInv(s.schemas, OfText(name), n);
    assert k in n.records ==> RecordInv(s.schemas, k, n.records[k]);
  }

  /**
   Over every run, a lookup departs from the eager store exactly when the generation has come full
   circle since the write.
   */
  lemma LookupDiffersExactly(s0: State, calls: seq<Call>, name: Text, recordType: Text, selector: Text, now: Time)
    requires Initial(s0)
    ensures var s, h, k := After(s0, calls), OfText(name), KeyOf(recordType, selector);
      Lookup(s, name, recordType, selector, now) != EagerLookup(s0, calls, name, recordType, selector, now) <==>
        Active(At(s, h).domain, now) && FullCircle(s0, calls, h, k)
  {
    LookupIsFound(s0, calls, name, recordType, selector, now);
    FoundDiffers(s0, calls, OfText(name), KeyOf(recordType, selector),
                 Active(At(After(s0, calls), OfText(name)).domain, now));
  }

  lemma LookupIsFound(s0: State, calls: seq<Call>, name: Text, recordType: Text, selector: Text, now: Time)
    requires Initial(s0)
    ensures var n := At(After(s0, calls), OfText(name));
      Lookup(After(s0, calls), name, recordType, selector, now) ==
      Found(Live(n), KeyOf(recordType, selector), Active(n.domain, now))
  {
    RunInv(s0, calls);
    LookupIsLive(After(s0, calls), name, recordType, selector, now);
  }

  lemma StoredIsPresent(s0: State, calls: seq<Call>, h: Digest, k: Digest)
    requires Initial(s0)
    ensures var n := At(After(s0, calls), h); k in n.records ==> n.records[k].present
  {
    RunInv(s0, calls);
    var s := After(s0, calls);
    assert NameInv(s.schemas, h, At(s, h));
  }

  lemma FoundDiffers(s0: State, calls: seq<Call>, h: Digest, k: Digest, active: bool)
    requires Initial(s0)
    ensures Found(Live(At(After(s0, calls), h)), k, active) != Found(EagerRecords(s0, calls, h), k, active) <==>
      active && FullCircle(s0, calls, h, k)
  {
    StoredIsPresent(s0, calls, h, k);
    RunTracks(s0, calls, h, k);
    TracksDiffer(At(After(s0, calls), h), k, BumpCount(s0, calls, h), Stamp(s0, calls, h, k),
                 EagerRecords(s0, calls, h), active);
  }

  /** The owner of `name` transferring it to itself, `n` times. */
  function SelfTransfers(c: Call, n: nat): (calls: seq<Call>)
    ensures |calls| == n
  {
    seq(n, _ => c)
  }

  lemma SelfTransferStep(s: State, c: Call)
    requires c.op.Transfer? && Guard(s, c).None? && c.op.newOwner == c.sender
    ensures var n, n' := At(s, OfText(c.op.name)), At(Next(s, c), OfText(c.op.name));
      && Guard(Next(s, c), c).None?
      && n'.domain.generation == (n.domain.generation + 1) % U64
      && n'.domain.owner == n.domain.owner && n'.domain.expiry == n.domain.expiry
      && n'.records == n.records
  {
    AtNext(s, c, OfText(c.op.name));
  }

  lemma {:induction false} SelfTransfersBump(s: State, c: Call, n: nat)
    requires c.op.Transfer? && Guard(s, c).None? && c.op.newOwner == c.sender
    ensures var m, m' := At(s, OfText(c.op.name)), At(After(s, SelfTransfers(c, n)), OfText(c.op.name));
      && Guard(After(s, SelfTransfers(c, n)), c).None?
      && m'.domain.generation == (m.domain.generation + n) % U64
      && m'.domain.owner == m.domain.owner && m'.domain.expiry == m.domain.expiry
      && m'.records == m.records
  {
    if n == 0 {
      assert SelfTransfers(c, n) == [];
    } else {
      SelfTransfersBump(s, c, n - 1);
      var before := SelfTransfers(c, n - 1);
      assert SelfTransfers(c, n)[..n - 1] == before;
      WrapStep(At(s, OfText(c.op.name)).domain.generation + (n - 1));
      SelfTransferStep(After(s, before), c);
    }
  }

  lemma FoundAgain(s: State, s': State, name: Text, recordType: Text, selector: Text, now: Time)
    requires At(s', OfText(name)).records == At(s, OfText(name)).records
    requires At(s', OfText(name)).domain.owner == At(s, OfText(name)).domain.owner
    requires At(s', OfText(name)).domain.expiry == At(s, OfText(name)).domain.expiry
    requires Lookup(s, name, recordType, selector, now).present
    ensures Lookup(s', name, recordType, selector, now).present <==>
      At(s', OfText(name)).domain.generation == At(s, OfText(name)).domain.generation
  {
  }

  /** A record written before `n` transfers is found again exactly when the 64-bit counter has come full circle. */
  lemma WrapRevivesRecords(s: State, c: Call, n: nat, recordType: Text, selector: Text)
    requires c.op.Transfer? && Guard(s, c).None? && c.op.newOwner == c.sender
    requires Lookup(s, c.op.name, recordType, selector, c.now).present
    ensures Lookup(After(s, SelfTransfers(c, n)), c.op.name, recordType, selector, c.now).present <==> n % U64 == 0
  {
    var s', h := After(s, SelfTransfers(c, n)), OfText(c.op.name);
    var g := At(s, h).domain.generation;
    assert At(s', h).domain.generation == (g + n) % U64 by { SelfTransfersBump(s, c, n); }
    assert (g + n) % U64 == g <==> n % U64 == 0 by { SameResidue(g, g + n); }
    assert Lookup(s', c.op.name, recordType, selector, c.now).present <==> At(s', h).domain.generation == g by {
      SelfTransfersBump(s, c, n);
      FoundAgain(s, s', c.op.name, recordType, selector, c.now);
    }
  }
}
