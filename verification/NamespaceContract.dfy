/**
 The NamespaceDApp contract with its own storage layout, proved to follow the state machine.
 */
module NamespaceContract {
  import opened Options
  import opened Bytes
  import opened Digests
  import opened Records
  import opened SchemaRegistry
  import opened Namespace
  import opened NamespaceProofs
  import Selector

  /** The transaction's result is the one the state machine prescribes. */
  ghost predicate Follows(
    s: State, c: Call, r: Option<Error>, s': State, log: seq<RecordEvent>, log': seq<RecordEvent>)
  {
    match Step(s, c)
    case Reverted(e) => r == Some(e) && s' == s && log' == log
    case Done(t, events) => r == None && s' == t && log' == log + events
  }

  // ----------------------------------------------------------- storage layout

  /** The contract's four record mappings; missing entries read as zero. */
  datatype Layout = Layout(
    domains: map<Digest, Domain>,
    records: map<Digest, map<Digest, Record>>,
    recordKeys: map<Digest, map<Uint64, seq<Digest>>>,
    recordKeyIndex: map<Digest, map<Uint64, map<Digest, nat>>>)
  {
    function DomainOf(h: Digest): Domain {
      if h in domains then domains[h] else NO_DOMAIN
    }

    function RecordsOf(h: Digest): map<Digest, Record> {
      if h in records then records[h] else map[]
    }

    function KeysOf(h: Digest, g: Uint64): seq<Digest> {
      if h in recordKeys && g in recordKeys[h] then recordKeys[h][g] else []
    }

    function IndexOf(h: Digest, g: Uint64): map<Digest, nat> {
      if h in recordKeyIndex && g in recordKeyIndex[h] then recordKeyIndex[h][g] else map[]
    }

    function WithDomain(h: Digest, d: Domain): Layout {
      this.(domains := domains[h := d])
    }

    function WithRecords(h: Digest, rs: map<Digest, Record>): Layout {
      this.(records := records[h := rs])
    }

    function WithKeys(h: Digest, g: Uint64, keys: seq<Digest>, index: map<Digest, nat>): Layout {
      var k: map<Uint64, seq<Digest>> := if h in recordKeys then recordKeys[h] else map[];
      var i: map<Uint64, map<Digest, nat>> := if h in recordKeyIndex then recordKeyIndex[h] else map[];
      this.(recordKeys := recordKeys[h := k[g := keys]], recordKeyIndex := recordKeyIndex[h := i[g := index]])
    }
  }

  predicate StoresList(l: Layout, h: Digest, n: Name, g: Uint64) {
    ListAt(n, g).keys == l.KeysOf(h, g) && ListAt(n, g).index == l.IndexOf(h, g)
  }

  ghost predicate Stores(l: Layout, h: Digest, n: Name) {
    && n.domain == l.DomainOf(h)
    && n.records == l.RecordsOf(h)
    && forall g: Uint64 :: StoresList(l, h, n, g)
  }

  ghost predicate Mirrors(l: Layout, s: State) {
    forall h :: Stores(l, h, At(s, h))
  }

  /** A successful call changes the name it addresses and no other. */
  lemma OthersKept(s: State, c: Call, h: Digest)
    requires Guard(s, c).None? && Addresses(c.op, h)
    ensures At(Next(s, c), h) == NameEffect(At(s, h), c)
    ensures forall o :: o != h ==> At(Next(s, c), o) == At(s, o)
  {
  }

  lemma MirrorsSame(l: Layout, s: State, s': State)
    requires Mirrors(l, s) && s'.names == s.names
    ensures Mirrors(l, s')
  {
    forall o ensures Stores(l, o, At(s', o)) {
      assert Stores(l, o, At(s, o));
    }
  }

  lemma MirrorsDomain(l: Layout, s: State, s': State, h: Digest, d: Domain)
    requires Mirrors(l, s) && At(s', h) == At(s, h).(domain := d)
    requires forall o :: o != h ==> At(s', o) == At(s, o)
    ensures Mirrors(l.WithDomain(h, d), s')
  {
    var l' := l.WithDomain(h, d);
    forall o ensures Stores(l', o, At(s', o)) {
      assert Stores(l, o, At(s, o));
      forall g: Uint64 ensures StoresList(l', o, At(s', o), g) {
        assert StoresList(l, o, At(s, o), g);
      }
    }
  }

  lemma ListsWritten(l: Layout, n: Name, h: Digest, rs: map<Digest, Record>, g: Uint64, list: KeyList, e: Uint64)
    requires StoresList(l, h, n, e)
    ensures StoresList(l.WithRecords(h, rs).WithKeys(h, g, list.keys, list.index), h,
                       n.(records := rs, lists := n.lists[g := list]), e)
  {
  }

  lemma MirrorsRecords(l: Layout, s: State, s': State, h: Digest, rs: map<Digest, Record>, g: Uint64, list: KeyList)
    requires Mirrors(l, s)
    requires At(s', h) == At(s, h).(records := rs, lists := At(s, h).lists[g := list])
    requires forall o :: o != h ==> At(s', o) == At(s, o)
    ensures Mirrors(l.WithRecords(h, rs).WithKeys(h, g, list.keys, list.index), s')
  {
    var l' := l.WithRecords(h, rs).WithKeys(h, g, list.keys, list.index);
    forall o ensures Stores(l', o, At(s', o)) {
      assert Stores(l, o, At(s, o));
      forall e: Uint64 ensures StoresList(l', o, At(s', o), e) {
        assert StoresList(l, o, At(s, o), e);
        if o == h { ListsWritten(l, At(s, h), h, rs, g, list, e); }
      }
    }
  }

  // ------------------------------------------------------------- the contract

  class NamespaceDApp {
    const basePrice: nat
    const registry: RecordSchemaRegistry
    var store: Layout
    var commitments: map<Digest, nat>
    /** The watched events emitted so far. */
    var log: seq<RecordEvent>
    ghost var model: State

    ghost predicate Valid()
      reads this, registry
    {
      && registry.Valid()
      && model.basePrice == basePrice
      && model.schemas == registry.schemas
      && model.commitments == commitments
      && Mirrors(store, model)
    }

    constructor (basePrice: nat, registry: RecordSchemaRegistry)
      requires registry.Valid()
      ensures Valid() && this.registry == registry && this.basePrice == basePrice
      ensures Initial(model) && log == []
    {
      this.basePrice := basePrice;
      this.registry := registry;
      store := Layout(map[], map[], map[], map[]);
      commitments, log := map[], [];
      model := State(basePrice, map[], map[], registry.schemas);
    }

    method Commit(c: Call) returns (r: Option<Error>)
      requires Valid() && c.op.Commit?
      modifies this
      ensures Valid() && Follows(old(model), c, r, model, old(log), log)
    {
      commitments := commitments[c.op.commitment := c.now];
      MirrorsSame(store, model, Next(model, c));
      model := Next(model, c);
      r := None;
    }

    method Register(c: Call) returns (r: Option<Error>)
      requires Valid() && c.op.Register?
      modifies this
      ensures Valid() && Follows(old(model), c, r, model, old(log), log)
    {
      var Register(name, pubKey, secret) := c.op;
      var ok := ValidateName(name);
      if !ok { return Some(InvalidName); }
      if |pubKey| == 0 || |pubKey| > 128 { return Some(InvalidPubKey); }
      var commitment := OfCommitment(name, c.sender, pubKey, secret);
      var committedAt := if commitment in commitments then commitments[commitment] else 0;
      if committedAt == 0 { return Some(CommitmentNotFound); }
      if c.now < committedAt + MIN_COMMITMENT_AGE { return Some(CommitmentTooNew); }
      if c.now > committedAt + MAX_COMMITMENT_AGE { return Some(CommitmentTooOld); }
      var h := OfText(name);
      var d := store.DomainOf(h);
      assert Stores(store, h, At(model, h));
      if d.owner != ZERO_ADDRESS && c.now <= d.expiry { return Some(NameUnavailable); }
      var payment := PaymentGuard(basePrice, c, name);
      if payment.Some? { return payment; }
      commitments := commitments - {commitment};
      var expiry: Uint64 := (c.now + REGISTRATION_PERIOD) % U64;
      ghost var was := store;
      var lease := Domain(c.sender, pubKey, expiry, (d.generation + 1) % U64);
      store := store.WithDomain(h, lease);
      log := log + [RecordEvent(EventRegistered, name, h)];
      OthersKept(model, c, h);
      MirrorsDomain(was, model, Next(model, c), h, lease);
      model := Next(model, c);
      r := None;
    }

    method Renew(c: Call) returns (r: Option<Error>)
      requires Valid() && c.op.Renew?
      modifies this
      ensures Valid() && Follows(old(model), c, r, model, old(log), log)
    {
      var h := OfText(c.op.name);
      var d := store.DomainOf(h);
      assert Stores(store, h, At(model, h));
      if d.owner == ZERO_ADDRESS { return Some(DomainNotRegistered); }
      if c.now > d.expiry { return Some(DomainExpired); }
      var payment := PaymentGuard(basePrice, c, c.op.name);
      if payment.Some? { return payment; }
      ghost var was := store;
      var lease := d.(expiry := (d.expiry + REGISTRATION_PERIOD) % U64);
      store := store.WithDomain(h, lease);
      OthersKept(model, c, h);
      MirrorsDomain(was, model, Next(model, c), h, lease);
      model := Next(model, c);
      r := None;
    }

    method Transfer(c: Call) returns (r: Option<Error>)
      requires Valid() && c.op.Transfer?
      modifies this
      ensures Valid() && Follows(old(model), c, r, model, old(log), log)
    {
      var Transfer(name, newOwner, newPubKey) := c.op;
      if newOwner == ZERO_ADDRESS { return Some(ZeroAddress); }
      if |newPubKey| == 0 || |newPubKey| > 128 { return Some(InvalidPubKey); }
      var h := OfText(name);
      var d := store.DomainOf(h);
      assert Stores(store, h, At(model, h));
      if d.owner == ZERO_ADDRESS { return Some(DomainNotRegistered); }
      if c.now > d.expiry { return Some(DomainExpired); }
      if c.sender != d.owner { return Some(NotDomainOwner); }
      ghost var was := store;
      var lease := Domain(newOwner, newPubKey, d.expiry, (d.generation + 1) % U64);
      store := store.WithDomain(h, lease);
      log := log + [RecordEvent(EventTransferred, [], h)];
      OthersKept(model, c, h);
      MirrorsDomain(was, model, Next(model, c), h, lease);
      model := Next(model, c);
      r := None;
    }

    /** The checks of setRecord that come before it writes. */
    method CheckRecord(c: Call) returns (r: Option<Error>)
      requires Valid() && c.op.SetRecord?
      ensures r == Guard(model, c)
    {
      var h := OfText(c.op.name);
      var d := store.DomainOf(h);
      assert Stores(store, h, At(model, h));
      if d.owner == ZERO_ADDRESS { return Some(DomainNotRegistered); }
      if c.now > d.expiry { return Some(DomainExpired); }
      if c.sender != d.owner { return Some(NotDomainOwner); }
      if |c.op.fieldNames| != |c.op.fieldValues| { return Some(FieldArrayMismatch); }
      if |c.op.fieldNames| > MAX_RECORD_FIELDS { return Some(TooManyRecordFields); }
      if |c.op.selector| > MAX_SELECTOR_LENGTH { return Some(SelectorTooLong); }
      if c.op.ttl == 0 { return Some(InvalidTTL); }
      var long := CheckFieldLengths(c.op.fieldNames, c.op.fieldValues);
      if long.Some? { return long; }
      var typeHash := OfText(c.op.recordType);
      if typeHash !in registry.schemas { return Some(UnknownRecordType); }
      var covered := CheckMandatoryFields(registry.schemas[typeHash], c.op.fieldNames);
      if !covered { return Some(MissingMandatoryField); }
      r := None;
    }

    method SetRecord(c: Call) returns (r: Option<Error>)
      requires Valid() && c.op.SetRecord?
      modifies this
      ensures Valid() && Follows(old(model), c, r, model, old(log), log)
    {
      r := CheckRecord(c);
      if r.Some? { return; }
      var h := OfText(c.op.name);
      assert Stores(store, h, At(model, h));
      var g := store.DomainOf(h).generation;
      var key := KeyOf(c.op.recordType, c.op.selector);
      ghost var was := store;
      var written := store.RecordsOf(h)[key := NewRecord(c.op, g)];
      var keys, index := store.KeysOf(h, g), store.IndexOf(h, g);
      assert StoresList(store, h, At(model, h), g);
      keys, index := PushKey(keys, index, key);
      store := store.WithRecords(h, written).WithKeys(h, g, keys, index);
      log := log + [RecordEvent(EventRecordSet, c.op.name, h)];
      OthersKept(model, c, h);
      MirrorsRecords(was, model, Next(model, c), h, written, g, KeyList(keys, index));
      model := Next(model, c);
    }

    method RemoveRecord(c: Call) returns (r: Option<Error>)
      requires Valid() && c.op.RemoveRecord?
      modifies this
      ensures Valid() && Follows(old(model), c, r, model, old(log), log)
    {
      var RemoveRecord(name, recordType, selector) := c.op;
      var h := OfText(name);
      var d := store.DomainOf(h);
      assert Stores(store, h, At(model, h));
      if d.owner == ZERO_ADDRESS { return Some(DomainNotRegistered); }
      if c.now > d.expiry { return Some(DomainExpired); }
      if c.sender != d.owner { return Some(NotDomainOwner); }
      var g, key, stored := d.generation, KeyOf(recordType, selector), store.RecordsOf(h);
      if key !in stored || !stored[key].present || stored[key].generation != g { return Some(RecordNotFound); }
      var keys, index := store.KeysOf(h, g), store.IndexOf(h, g);
      assert StoresList(store, h, At(model, h), g);
      var idxPlus1 := if key in index then index[key] else 0;
      // Checked arithmetic and array bounds: a key missing from the index would revert here.
      if idxPlus1 == 0 || idxPlus1 > |keys| { return Some(Panic); }
      ghost var was := store;
      var lastIdx := |keys| - 1;
      if idxPlus1 - 1 != lastIdx {
        var moved := keys[lastIdx];
        keys := keys[idxPlus1 - 1 := moved];
        index := index[moved := idxPlus1];
      }
      keys := keys[..lastIdx];
      index := index - {key};
      store := store.WithRecords(h, stored - {key}).WithKeys(h, g, keys, index);
      log := log + [RecordEvent(EventRecordRemoved, name, h)];
      OthersKept(model, c, h);
      MirrorsRecords(was, model, Next(model, c), h, stored - {key}, g, KeyList(keys, index));
      model := Next(model, c);
      r := None;
    }

    method DoLookup(name: Text, recordType: Text, selector: Text, now: Time) returns (record: Record)
      requires Valid()
      ensures record == Lookup(model, name, recordType, selector, now)
    {
      var h := OfText(name);
      var d := store.DomainOf(h);
      assert Stores(store, h, At(model, h));
      if d.owner == ZERO_ADDRESS || now > d.expiry { return ZERO_RECORD; }
      var stored, key := store.RecordsOf(h), KeyOf(recordType, selector);
      if key !in stored || !stored[key].present || stored[key].generation != d.generation { return ZERO_RECORD; }
      record := stored[key];
    }

    method DoResolve(name: Text, recordType: Text, selector: Text, now: Time) returns (r: Resolved)
      requires Valid()
      ensures r == Resolve(model, name, recordType, selector, now)
    {
      var record := DoLookup(name, recordType, selector, now);
      var h := OfText(name);
      var d := store.DomainOf(h);
      assert Stores(store, h, At(model, h));
      if d.owner != ZERO_ADDRESS && now <= d.expiry { return Resolved(record, d.owner, d.pubKey); }
      r := Resolved(record, ZERO_ADDRESS, []);
    }

    /** listRecords: the records under the current key list that are live, in list order. */
    method ListRecords(name: Text, now: Time) returns (out: seq<Record>)
      requires Valid()
      ensures out == Listing(At(model, OfText(name)), now)
    {
      var h := OfText(name);
      var d := store.DomainOf(h);
      assert Stores(store, h, At(model, h));
      if d.owner == ZERO_ADDRESS || now > d.expiry { return []; }
      var keys, stored := store.KeysOf(h, d.generation), store.RecordsOf(h);
      ghost var n := At(model, h);
      assert StoresList(store, h, n, d.generation);
      out := [];
      for i := 0 to |keys|
        invariant out == Collect(n, keys[..i])
      {
        CollectSnoc(n, keys, i);
        if keys[i] in stored && stored[keys[i]].present && stored[keys[i]].generation == d.generation {
          out := out + [stored[keys[i]]];
        }
      }
      assert keys[..|keys|] == keys;
    }
  }

  predicate IsLive(n: Name, k: Digest) {
    k in n.records && n.records[k].present && n.records[k].generation == n.domain.generation
  }

  function Collect(n: Name, keys: seq<Digest>): seq<Record> {
    if keys == [] then [] else
    var k := keys[|keys| - 1];
    Collect(n, keys[..|keys| - 1]) + (if IsLive(n, k) then [n.records[k]] else [])
  }

  function Listing(n: Name, now: Time): seq<Record> {
    if Active(n.domain, now) then Collect(n, ListAt(n, n.domain.generation).keys) else []
  }

  lemma CollectSnoc(n: Name, keys: seq<Digest>, i: nat)
    requires i < |keys|
    ensures Collect(n, keys[..i + 1]) ==
            Collect(n, keys[..i]) + (if IsLive(n, keys[i]) then [n.records[keys[i]]] else [])
  {
    assert keys[..i + 1][..i] == keys[..i];
  }

  /** The keys of the records collected, in order. */
  function LiveKeys(n: Name, keys: seq<Digest>): seq<Digest> {
    if keys == [] then [] else
    var k := keys[|keys| - 1];
    LiveKeys(n, keys[..|keys| - 1]) + (if IsLive(n, k) then [k] else [])
  }

  /** What is collected: the record of every live key of a duplicate-free list, once. */
  lemma {:induction false} CollectLive(n: Name, keys: seq<Digest>)
    requires forall i, j :: 0 <= i < j < |keys| ==> keys[i] != keys[j]
    ensures var live := LiveKeys(n, keys);
      && (forall k :: k in live <==> k in keys && IsLive(n, k))
      && (forall i, j :: 0 <= i < j < |live| ==> live[i] != live[j])
      && |Collect(n, keys)| == |live|
      && (forall i :: 0 <= i < |live| ==> IsLive(n, live[i]) && Collect(n, keys)[i] == n.records[live[i]])
  {
    if keys != [] {
      var before, k := keys[..|keys| - 1], keys[|keys| - 1];
      CollectLive(n, before);
      assert keys == before + [k] && k !in before;
    }
  }

  /** A listing of the live records: all of them, each once, each as lookup returns it. */
  ghost predicate ExactListing(s: State, name: Text, now: Time, out: seq<Record>) {
    && (forall i :: 0 <= i < |out| ==>
          out[i].present && Lookup(s, name, out[i].recordType, out[i].selector, now) == out[i])
    && (forall i, j :: 0 <= i < j < |out| ==>
          (out[i].recordType, out[i].selector) != (out[j].recordType, out[j].selector))
    && (forall t, l :: Lookup(s, name, t, l, now).present ==> Lookup(s, name, t, l, now) in out)
  }

  /** The listing is the records of `live`: distinct keys, exactly those of the live records. */
  ghost predicate Lists(n: Name, now: Time, live: seq<Digest>) {
    && (forall i, j :: 0 <= i < j < |live| ==> live[i] != live[j])
    && (forall k :: k in live <==> k in Live(n))
    && |Listing(n, now)| == |live|
    && (forall i :: 0 <= i < |live| ==> live[i] in Live(n) && Listing(n, now)[i] == n.records[live[i]])
  }

  lemma LiveIsListed(s: State, h: Digest, k: Digest)
    requires StoreInv(s)
    ensures var n := At(s, h);
      (k in Live(n) <==> IsLive(n, k)) && (IsLive(n, k) ==> k in ListAt(n, n.domain.generation).index)
  {
    var n := At(s, h);
    assert NameInv(s.schemas, h, n);
    assert k in n.records ==> Listed(n, k) && RecordInv(s.schemas, k, n.records[k]);
  }

  lemma ListsLive(n: Name, now: Time, keys: seq<Digest>)
    requires Active(n.domain, now) && keys == ListAt(n, n.domain.generation).keys
    requires forall i, j :: 0 <= i < j < |keys| ==> keys[i] != keys[j]
    requires forall k :: k in Live(n) <==> IsLive(n, k) && k in keys
    ensures Lists(n, now, LiveKeys(n, keys))
  {
    CollectLive(n, keys);
    var live := LiveKeys(n, keys);
    assert Listing(n, now) == Collect(n, keys);
    assert forall i :: 0 <= i < |live| ==> live[i] in live;
  }

  lemma ListingIsExactAt(s: State, name: Text, now: Time, live: seq<Digest>)
    requires StoreInv(s) && Active(At(s, OfText(name)).domain, now) && Lists(At(s, OfText(name)), now, live)
    ensures ExactListing(s, name, now, Listing(At(s, OfText(name)), now))
  {
    var n := At(s, OfText(name));
    var out := Listing(n, now);
    assert NameInv(s.schemas, OfText(name), n);
    forall i | 0 <= i < |out|
      ensures live[i] == KeyOf(out[i].recordType, out[i].selector)
      ensures out[i].present && Lookup(s, name, out[i].recordType, out[i].selector, now) == out[i]
    {
      assert RecordInv(s.schemas, live[i], n.records[live[i]]);
      LookupIsLive(s, name, out[i].recordType, out[i].selector, now);
    }
    forall t, sel | Lookup(s, name, t, sel, now).present ensures Lookup(s, name, t, sel, now) in out {
      LookupIsLive(s, name, t, sel, now);
      var i :| 0 <= i < |live| && live[i] == KeyOf(t, sel);
      assert out[i] == n.records[KeyOf(t, sel)];
    }
  }

  /** In every reachable state listRecords returns each record that lookup can find exactly once, and nothing else. */
  lemma ListingIsExact(s0: State, calls: seq<Call>, name: Text, now: Time)
    requires Initial(s0)
    ensures ExactListing(After(s0, calls), name, now, Listing(At(After(s0, calls), OfText(name)), now))
  {
    RunInv(s0, calls);
    var s, h := After(s0, calls), OfText(name);
    var n := At(s, h);
    if Active(n.domain, now) {
      var l := ListAt(n, n.domain.generation);
      ListInvAt(s, h, n.domain.generation);
      ListInvMeaning(l);
      forall k ensures k in Live(n) <==> IsLive(n, k) && k in l.keys {
        LiveIsListed(s, h, k);
      }
      ListsLive(n, now, l.keys);
      ListingIsExactAt(s, name, now, LiveKeys(n, l.keys));
    }
  }

  /** A declaration in the registry is a step of the joint state machine. */
  method DeclareType(dapp: NamespaceDApp, c: Call) returns (err: bool)
    requires dapp.Valid() && c.op.DeclareType?
    modifies dapp.registry, dapp`model
    ensures dapp.Valid() && dapp.model == Next(old(dapp.model), c)
    ensures err <==> Step(old(dapp.model), c).Reverted?
  {
    err := dapp.registry.DeclareType(c.op.typeName, c.op.mandatory, c.op.optional);
    MirrorsSame(dapp.store, dapp.model, Next(dapp.model, c));
    dapp.model := Next(dapp.model, c);
  }

  /** The resolver and the contracts accept the same names and the same type names. */
  lemma GrammarsAgree(t: Text)
    ensures Selector.ValidName(t) <==> ValidName(t)
    ensures Selector.ValidType(t) <==> ValidTypeName(t)
  {
  }

  method ValidateName(b: Text) returns (ok: bool)
    ensures ok <==> ValidName(b)
  {
    if |b| == 0 || |b| > MAX_NAME_LENGTH || b[0] == 45 || b[|b| - 1] == 45 {
      return false;
    }
    for i := 0 to |b|
      invariant forall j :: 0 <= j < i ==> NameByte(b[j])
    {
      if !NameByte(b[i]) {
        return false;
      }
    }
    ok := true;
  }

  /** Pushes a key that the index does not know yet, and records its position plus one. */
  method PushKey(keys: seq<Digest>, index: map<Digest, nat>, key: Digest)
    returns (keys': seq<Digest>, index': map<Digest, nat>)
    ensures KeyList(keys', index') == Append(KeyList(keys, index), key)
  {
    keys', index' := keys, index;
    if key !in index || index[key] == 0 {
      keys' := keys + [key];
      index' := index[key := |keys'|];
    }
  }

  method CheckFieldLengths(names: seq<Text>, values: seq<Text>) returns (r: Option<Error>)
    requires |names| == |values|
    ensures r == FieldGuard(names, values)
  {
    for i := 0 to |values|
      invariant FieldGuard(names, values) == FieldGuard(names[i..], values[i..])
    {
      if |names[i]| > MAX_FIELD_NAME_LENGTH {
        return Some(FieldNameTooLong);
      }
      if |values[i]| > MAX_FIELD_VALUE_LENGTH {
        return Some(FieldValueTooLong);
      }
      assert names[i..][1..] == names[i + 1..] && values[i..][1..] == values[i + 1..];
    }
    r := None;
  }
}
