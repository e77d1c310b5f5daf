/**
 The read-through query path (resolver/internal/server/handle.go) and the agreement of cached
 answers with the contract, over every interleaving of blocks, queries and event deliveries.
 The code holds no lock between the chain read of a cache fill and its Set, so the two may be apart.
 */
module Coherence {
  import opened Options
  import opened Bytes
  import opened Digests
  import opened Records
  import opened Namespace
  import opened NamespaceProofs
  import opened Lru
  import opened TtlCache
  import opened Watcher

  const SECOND := 1_000_000_000

  /** A cached result: the chain's answer with the verdict and proof computed at fill time. */
  datatype Answer = Answer(resolved: Resolved, ownerSigValid: bool, zkProof: Text)

  /** Signature verification, left abstract: any function of its inputs. */
  type Verifier = (Text, Record, Address, Text) -> bool

  /** What a fill works with: the chain's answer, the proof made for it, if any, and the clock at the Set. */
  datatype Fill = Fill(read: Resolved, proof: Text, now: int)

  function Enrich(o: Verifier, name: Text, r: Resolved, proof: Text): Answer {
    if r.record.present then Answer(r, o(name, r.record, r.owner, r.pubKey), proof) else Answer(r, false, [])
  }

  datatype QueryResult = Failed | Answered(answer: Answer, cached: bool)

  /** The cache after a miss that the chain answered: only positive answers are kept. */
  ghost function Filled(l: Recency<Answer>, capacity: nat, o: Verifier, k: Key, f: Fill): Recency<Answer> {
    if f.read.record.present && f.read.record.ttl > 0
    then Put(l, capacity, k, Entry(Enrich(o, k.name, f.read, f.proof), f.now + f.read.record.ttl * SECOND))
    else l
  }

  /** The cache after a query; `fill` is None when the chain could not be read. */
  ghost function Queried(l: Recency<Answer>, capacity: nat, o: Verifier, k: Key, now: int, fill: Option<Fill>)
    : Recency<Answer>
  {
    var l' := Touch(l, k, now);
    if Hits(l, k, now) || fill.None? then l' else Filled(l', capacity, o, k, fill.value)
  }

  /** HandleQuery; `now` is the clock at the lookup, `fill` what a miss would find. */
  method HandleQuery(cache: TTLCache<Answer>, o: Verifier, k: Key, now: int, fill: Option<Fill>)
    returns (r: QueryResult)
    requires cache.Valid()
    modifies cache
    ensures cache.Valid() && cache.lru == Queried(old(cache.lru), cache.capacity, o, k, now, fill)
    ensures r == if Hits(old(cache.lru), k, now) then Answered(Find(old(cache.lru), k).value.value, true)
                 else if fill.Some? then Answered(Enrich(o, k.name, fill.value.read, fill.value.proof), false)
                 else Failed
  {
    var hit := cache.Get(k, now);
    if hit.Some? {
      return Answered(hit.value, true);
    }
    if fill.None? {
      return Failed;
    }
    var res := Answer(fill.value.read, false, []);
    if res.resolved.record.present {
      if o(k.name, res.resolved.record, res.resolved.owner, res.resolved.pubKey) {
        res := res.(ownerSigValid := true);
      }
      res := res.(zkProof := fill.value.proof);
      if res.resolved.record.ttl > 0 {
        cache.Set(k, res, res.resolved.record.ttl * SECOND, fill.value.now);
      }
    }
    r := Answered(res, false);
  }

  // ------------------------------------------------------- what changes an answer

  /** What resolve would answer if leases never ran out. */
  function Timeless(s: State, k: Key): Resolved {
    var n, key := At(s, OfText(k.name)), KeyOf(k.recordType, k.selector);
    var live := key in n.records && n.records[key].present && n.records[key].generation == n.domain.generation;
    Resolved(if live then n.records[key] else ZERO_RECORD, n.domain.owner, n.domain.pubKey)
  }

  function Now(s: State, k: Key, time: Time): Resolved {
    Resolve(s, k.name, k.recordType, k.selector, time)
  }

  lemma ResolveIsTimelessWhileActive(s: State, k: Key, time: Time)
    ensures Active(At(s, OfText(k.name)).domain, time) ==> Now(s, k, time) == Timeless(s, k)
    ensures !Active(At(s, OfText(k.name)).domain, time) ==> Now(s, k, time) == Resolved(ZERO_RECORD, ZERO_ADDRESS, [])
  {
  }

  /** The events a sequence of calls emits. */
  function Emitted(s: State, calls: seq<Call>): seq<RecordEvent> {
    if calls == [] then [] else
    var before, c := calls[..|calls| - 1], calls[|calls| - 1];
    var r := Step(After(s, before), c);
    Emitted(s, before) + (if r.Done? then r.events else [])
  }

  lemma ChangeEmits(s: State, c: Call, k: Key)
    requires Timeless(Next(s, c), k) != Timeless(s, k)
    ensures Step(s, c).Done? && |Step(s, c).events| == 1 && k in Victims(Step(s, c).events[0])
  {
    AtNext(s, c, OfText(k.name));
  }

  /** Every change of an answer, other than by the passing of time, emits an event that drops the name. */
  lemma {:induction false} ChangesEmit(s: State, calls: seq<Call>, k: Key)
    requires Timeless(After(s, calls), k) != Timeless(s, k)
    ensures IsVictim(Emitted(s, calls), k)
  {
    var before, c := calls[..|calls| - 1], calls[|calls| - 1];
    var evs, all := Emitted(s, before), Emitted(s, calls);
    if Timeless(After(s, before), k) != Timeless(s, k) {
      ChangesEmit(s, before, k);
      var i :| 0 <= i < |evs| && k in Victims(evs[i]);
      assert all[i] == evs[i];
    } else {
      ChangeEmits(After(s, before), c, k);
      assert all[|evs|] == Step(After(s, before), c).events[0];
    }
  }

  // ------------------------------------------------------------------ the system

  /** A scan up to block `end`: the filter in use, and the events its iterator has not yielded yet. */
  datatype Scan = Idle | Scanning(end: nat, kind: nat, rest: seq<RecordEvent>)

  /** logs[b - 1] holds the events of block b; the head is |logs|. */
  datatype System = System(
    chain: State,
    time: Time,
    logs: seq<seq<RecordEvent>>,
    cache: Recency<Answer>,
    last: nat,
    scan: Scan)

  /**
   Blocks, queries and the watcher's control flow. Query is a whole query; with the chain out of
   reach it is the cache lookup alone. Store is the Set of a fill whose chain read came earlier.
   */
  datatype Action =
    | Mine(calls: seq<Call>, at: Time)
    | Query(key: Key, now: int, proof: Text, later: int, reachable: bool)
    | Store(key: Key, fill: Fill)
    | BeginScan(head: nat)
    | HandOver
    | NextFilter
    | EndScan
    | FailScan
    | FlushCache

  function LogsOf(logs: seq<seq<RecordEvent>>): Logs {
    (b: nat) => if 0 < b <= |logs| then logs[b - 1] else []
  }

  /** What the filter of one kind returns for the blocks after `last` up to `end`. */
  function Filter(s: System, end: nat, kind: nat): seq<RecordEvent>
    requires kind < |KINDS|
  {
    Filtered(LogsOf(s.logs), s.last + 1, end, KINDS[kind])
  }

  predicate Enabled(s: System, a: Action) {
    match a
    case Mine(calls, at) => s.time <= at && forall i :: 0 <= i < |calls| ==> calls[i].now == at
    case BeginScan(head) => s.scan.Idle? && s.last < head <= |s.logs|
    case HandOver => s.scan.Scanning? && s.scan.rest != []
    case NextFilter => s.scan.Scanning? && s.scan.rest == [] && s.scan.kind + 1 < |KINDS|
    case EndScan => s.scan.Scanning? && s.scan.rest == [] && s.scan.kind + 1 == |KINDS|
    case FailScan => s.scan.Scanning?
    case _ => true
  }

  ghost function Act(s: System, capacity: nat, o: Verifier, a: Action): System
    requires Enabled(s, a)
  {
    match a
    case Mine(calls, at) =>
      s.(chain := After(s.chain, calls), time := at, logs := s.logs + [Emitted(s.chain, calls)])
    case Query(k, now, proof, later, reachable) =>
      var fill := if reachable then Some(Fill(Now(s.chain, k, s.time), proof, later)) else None;
      s.(cache := Queried(s.cache, capacity, o, k, now, fill))
    case Store(k, fill) => s.(cache := Filled(s.cache, capacity, o, k, fill))
    case BeginScan(head) =>
      var end := SpanEnd(s.last, head);
      s.(scan := Scanning(end, 0, Filter(s, end, 0)))
    case HandOver =>
      s.(cache := Prune(s.cache, Victims(s.scan.rest[0])), scan := s.scan.(rest := s.scan.rest[1..]))
    case NextFilter =>
      s.(scan := s.scan.(kind := s.scan.kind + 1, rest := Filter(s, s.scan.end, s.scan.kind + 1)))
    case EndScan => s.(last := s.scan.end, scan := Idle)
    case FailScan => s.(scan := Idle)
    case FlushCache => s.(cache := [])
  }

  /** The action hands over an event naming `k`. */
  ghost predicate Hands(s: System, a: Action, k: Key) {
    a.HandOver? && Enabled(s, a) && k in Victims(s.scan.rest[0])
  }

  /** `run` is a sequence of systems joined by the enabled actions `acts`. */
  ghost predicate Steps(run: seq<System>, acts: seq<Action>, capacity: nat, o: Verifier) {
    && |run| == |acts| + 1
    && forall i :: 0 <= i < |acts| ==> Enabled(run[i], acts[i]) && run[i + 1] == Act(run[i], capacity, o, acts[i])
  }

  /** No event naming `k` is handed over from run[i] to run[n]. */
  ghost predicate Unhanded(run: seq<System>, acts: seq<Action>, i: nat, n: nat, k: Key)
    requires n <= |acts| && |acts| < |run|
  {
    forall t :: i <= t < n ==> !Hands(run[t], acts[t], k)
  }

  /** The Set at `n` stores what the chain answered at `i`, and no event naming the key was handed over in between. */
  ghost predicate ReadAt(run: seq<System>, acts: seq<Action>, n: nat, i: nat)
    requires n < |acts| && |acts| < |run| && acts[n].Store?
  {
    i <= n && acts[n].fill.read == Now(run[i].chain, acts[n].key, run[i].time) && Unhanded(run, acts, i, n, acts[n].key)
  }

  ghost predicate Timely(run: seq<System>, acts: seq<Action>, n: nat)
    requires n < |acts| && |acts| < |run|
  {
    acts[n].Store? ==> exists i :: ReadAt(run, acts, n, i)
  }

  /** A run from an empty cache at the head, in which every Set is timely. */
  ghost predicate IsRun(run: seq<System>, acts: seq<Action>, capacity: nat, o: Verifier) {
    && Steps(run, acts, capacity, o)
    && run[0].cache == [] && run[0].last == |run[0].logs| && run[0].scan.Idle?
    && forall n :: 0 <= n < |acts| ==> Timely(run, acts, n)
  }

  // -------------------------------------------------------------- the invariant

  function KindIndex(kind: EventKind): (i: nat)
    ensures i < |KINDS| && KINDS[i] == kind
  {
    match kind
    case EventRecordSet => 0
    case EventRecordRemoved => 1
    case EventTransferred => 2
    case EventRegistered => 3
  }

  /** The scan in progress, if any, will not leave block `b` without yielding `ev` from now on. */
  predicate ToCome(s: System, b: nat, ev: RecordEvent) {
    s.scan.Idle? || b > s.scan.end || KindIndex(ev.kind) > s.scan.kind || ev in s.scan.rest
  }

  predicate InRange(s: System, p: (nat, nat)) {
    s.last < p.0 <= |s.logs| && p.1 < |s.logs[p.0 - 1]|
  }

  /** The event at position `p` names `k`, lies between the watcher and the head, and is still to be handed over. */
  ghost predicate Awaited(s: System, k: Key, p: (nat, nat)) {
    InRange(s, p) && k in Victims(s.logs[p.0 - 1][p.1]) && ToCome(s, p.0, s.logs[p.0 - 1][p.1])
  }

  predicate Fresh(s: System, k: Key, r: Resolved) {
    r == Timeless(s.chain, k)
  }

  ghost predicate FreshOrAwaited(s: System, k: Key, r: Resolved) {
    Fresh(s, k, r) || exists p :: Awaited(s, k, p)
  }

  predicate WatcherInv(s: System) {
    s.last <= |s.logs| && (s.scan.Scanning? ==> s.last < s.scan.end <= |s.logs| && s.scan.kind < |KINDS|)
  }

  /** The answer of a registered name with a record, with its own signature verdict and any proof. */
  predicate Genuine(o: Verifier, k: Key, v: Answer) {
    && v.resolved.record.present && v.resolved.owner != ZERO_ADDRESS
    && v == Enrich(o, k.name, v.resolved, v.zkProof)
  }

  ghost predicate SystemInv(s: System, capacity: nat, o: Verifier) {
    && 0 < capacity && Distinct(s.cache) && |s.cache| <= capacity
    && WatcherInv(s)
    && (forall k :: Find(s.cache, k).Some? ==> FreshOrAwaited(s, k, Find(s.cache, k).value.value.resolved))
    && (forall k :: Find(s.cache, k).Some? ==> Genuine(o, k, Find(s.cache, k).value.value))
  }

  lemma WatcherKeeps(s: System, capacity: nat, o: Verifier, a: Action)
    requires WatcherInv(s) && Enabled(s, a)
    ensures WatcherInv(Act(s, capacity, o, a))
  {
  }

  // ---------------------------------------------- what every action does to one key

  lemma MineKeeps(s: System, calls: seq<Call>, at: Time, k: Key, r: Resolved)
    requires WatcherInv(s) && FreshOrAwaited(s, k, r)
    ensures FreshOrAwaited(
      s.(chain := After(s.chain, calls), time := at, logs := s.logs + [Emitted(s.chain, calls)]), k, r)
  {
    var s' := s.(chain := After(s.chain, calls), time := at, logs := s.logs + [Emitted(s.chain, calls)]);
    if p :| Awaited(s, k, p) {
      assert s'.logs[p.0 - 1] == s.logs[p.0 - 1];
      assert Awaited(s', k, p);
    } else if Timeless(s'.chain, k) != Timeless(s.chain, k) {
      ChangesEmit(s.chain, calls, k);
      var i :| 0 <= i < |Emitted(s.chain, calls)| && k in Victims(Emitted(s.chain, calls)[i]);
      assert Awaited(s', k, (|s'.logs|, i));
    }
  }

  /** A filter returns every event of its kind in the scanned blocks. */
  lemma FilterComplete(s: System, end: nat, p: (nat, nat))
    requires InRange(s, p) && p.0 <= end
    ensures s.logs[p.0 - 1][p.1] in Filter(s, end, KindIndex(s.logs[p.0 - 1][p.1].kind))
  {
    var ev := s.logs[p.0 - 1][p.1];
    assert ev in LogsOf(s.logs)(p.0);
    FilteredMember(LogsOf(s.logs), s.last + 1, end, ev.kind, ev);
  }

  lemma ScanKeeps(s: System, capacity: nat, o: Verifier, a: Action, k: Key, p: (nat, nat))
    requires WatcherInv(s) && Enabled(s, a) && Awaited(s, k, p) && !Hands(s, a, k)
    requires a.BeginScan? || a.HandOver? || a.NextFilter? || a.EndScan? || a.FailScan?
    ensures Awaited(Act(s, capacity, o, a), k, p)
  {
    var s' := Act(s, capacity, o, a);
    var ev := s.logs[p.0 - 1][p.1];
    if (a.BeginScan? || a.NextFilter?) && p.0 <= s'.scan.end {
      FilterComplete(s, s'.scan.end, p);
    }
    if a.HandOver? && ev in s.scan.rest {
      assert s.scan.rest == [s.scan.rest[0]] + s.scan.rest[1..];
    }
  }

  /** An answer stays current or awaited until an event naming its key is handed over. */
  lemma UnhandedKeeps(s: System, capacity: nat, o: Verifier, a: Action, k: Key, r: Resolved)
    requires WatcherInv(s) && Enabled(s, a) && FreshOrAwaited(s, k, r) && !Hands(s, a, k)
    ensures FreshOrAwaited(Act(s, capacity, o, a), k, r)
  {
    match a
    case Mine(calls, at) => MineKeeps(s, calls, at, k, r);
    case Query(_, _, _, _, _) => SameQueue(s, Act(s, capacity, o, a), k, r);
    case Store(_, _) => SameQueue(s, Act(s, capacity, o, a), k, r);
    case FlushCache => SameQueue(s, Act(s, capacity, o, a), k, r);
    case _ =>
      if p :| Awaited(s, k, p) {
        ScanKeeps(s, capacity, o, a, k, p);
      }
  }

  /** Freshness does not depend on what the cache holds. */
  lemma SameQueue(s: System, s': System, k: Key, r: Resolved)
    requires FreshOrAwaited(s, k, r) && s' == s.(cache := s'.cache)
    ensures FreshOrAwaited(s', k, r)
  {
    if p :| Awaited(s, k, p) {
      assert Awaited(s', k, p);
    }
  }

  // ------------------------------------------------ what every action does to the cache

  /** `e` is what the fill of `k` with `f` stores: the enriched answer, for ttl seconds from the Set on. */
  predicate StoredBy(o: Verifier, k: Key, f: Fill, e: Entry<Answer>) {
    && f.read.record.present
    && e.value == Enrich(o, k.name, f.read, f.proof)
    && e.expiresAt == f.now + f.read.record.ttl * 1_000_000_000
  }

  lemma FilledHolds(l: Recency<Answer>, capacity: nat, o: Verifier, k: Key, f: Fill, j: Key)
    requires Distinct(l) && |l| <= capacity && 0 < capacity
    ensures var l' := Filled(l, capacity, o, k, f);
      && Distinct(l') && |l'| <= capacity
      && (|| Find(l', j).None?
          || Find(l', j) == Find(l, j)
          || (j == k && StoredBy(o, k, f, Find(l', j).value)))
  {
    if f.read.record.present && f.read.record.ttl > 0 {
      var op := CacheOp<Answer>.Set(k, Enrich(o, k.name, f.read, f.proof), f.read.record.ttl * SECOND, f.now);
      ApplyInv(l, capacity, op);
      FindApply(l, capacity, op, j);
    }
  }

  lemma QueriedHolds(l: Recency<Answer>, capacity: nat, o: Verifier, k: Key, now: int, fill: Option<Fill>, j: Key)
    requires Distinct(l) && |l| <= capacity && 0 < capacity
    ensures var l' := Queried(l, capacity, o, k, now, fill);
      && Distinct(l') && |l'| <= capacity
      && (|| Find(l', j).None?
          || Find(l', j) == Find(l, j)
          || (j == k && fill.Some? && StoredBy(o, k, fill.value, Find(l', j).value)))
  {
    ApplyInv(l, capacity, CacheOp<Answer>.Get(k, now));
    FindApply(l, capacity, CacheOp<Answer>.Get(k, now), j);
    if !Hits(l, k, now) && fill.Some? {
      FilledHolds(Touch(l, k, now), capacity, o, k, fill.value, j);
    }
  }

  /** The action is a fill of `k` that stores `e`. */
  predicate Stores(s: System, o: Verifier, a: Action, k: Key, e: Entry<Answer>) {
    || (a.Query? && a.key == k && StoredBy(o, k, Fill(Now(s.chain, k, s.time), a.proof, a.later), e))
    || (a.Store? && a.key == k && StoredBy(o, k, a.fill, e))
  }

  /** Whatever the cache holds after an action it held before, or has just stored. */
  lemma ActHolds(s: System, capacity: nat, o: Verifier, a: Action, j: Key)
    requires Distinct(s.cache) && |s.cache| <= capacity && 0 < capacity && Enabled(s, a)
    ensures var s' := Act(s, capacity, o, a);
      && Distinct(s'.cache) && |s'.cache| <= capacity
      && (|| Find(s'.cache, j).None?
          || (Find(s'.cache, j) == Find(s.cache, j) && !Hands(s, a, j))
          || Stores(s, o, a, j, Find(s'.cache, j).value))
  {
    match a
    case Query(k, now, proof, later, reachable) =>
      var fill := if reachable then Some(Fill(Now(s.chain, k, s.time), proof, later)) else None;
      QueriedHolds(s.cache, capacity, o, k, now, fill, j);
    case Store(k, fill) => FilledHolds(s.cache, capacity, o, k, fill, j);
    case HandOver =>
      PruneProps(s.cache, Victims(s.scan.rest[0]));
      FindPrune(s.cache, Victims(s.scan.rest[0]), j);
    case _ =>
  }

  /** An answer the chain has given, and no event naming its key has been handed over since. */
  ghost predicate Storable(s: System, k: Key, r: Resolved) {
    r.record.present ==> FreshOrAwaited(s, k, r) && r.owner != ZERO_ADDRESS
  }

  lemma ActKeeps(s: System, capacity: nat, o: Verifier, a: Action)
    requires SystemInv(s, capacity, o) && Enabled(s, a)
    requires a.Store? ==> Storable(s, a.key, a.fill.read)
    ensures SystemInv(Act(s, capacity, o, a), capacity, o)
  {
    var s' := Act(s, capacity, o, a);
    WatcherKeeps(s, capacity, o, a);
    ActHolds(s, capacity, o, a, Key([], [], []));
    forall k | Find(s'.cache, k).Some?
      ensures FreshOrAwaited(s', k, Find(s'.cache, k).value.value.resolved)
      ensures Genuine(o, k, Find(s'.cache, k).value.value)
    {
      ActHolds(s, capacity, o, a, k);
      var v := Find(s'.cache, k).value.value;
      if Find(s'.cache, k) == Find(s.cache, k) && !Hands(s, a, k) {
        UnhandedKeeps(s, capacity, o, a, k, v.resolved);
      } else if a.Query? {
        ResolveIsTimelessWhileActive(s.chain, k, s.time);
        assert Fresh(s', k, v.resolved);
      } else {
        SameQueue(s, s', k, v.resolved);
      }
    }
  }

  // ------------------------------------------------------------------ whole runs

  /** What the chain answered at `i` can be stored at `n` if no event naming the key was handed over in between. */
  lemma {:induction false} ReadStaysStorable(
    run: seq<System>, acts: seq<Action>, i: nat, n: nat, capacity: nat, o: Verifier, k: Key)
    requires Steps(run, acts, capacity, o) && i <= n <= |acts| && Unhanded(run, acts, i, n, k)
    requires forall t :: i <= t <= n ==> WatcherInv(run[t])
    ensures Storable(run[n], k, Now(run[i].chain, k, run[i].time))
  {
    var read := Now(run[i].chain, k, run[i].time);
    ResolveIsTimelessWhileActive(run[i].chain, k, run[i].time);
    if i < n {
      ReadStaysStorable(run, acts, i, n - 1, capacity, o, k);
      if read.record.present {
        UnhandedKeeps(run[n - 1], capacity, o, acts[n - 1], k, read);
      }
    }
  }

  lemma StepKeeps(run: seq<System>, acts: seq<Action>, n: nat, capacity: nat, o: Verifier)
    requires Steps(run, acts, capacity, o) && n < |acts| && Timely(run, acts, n)
    requires SystemInv(run[n], capacity, o) && forall t :: 0 <= t <= n ==> WatcherInv(run[t])
    ensures SystemInv(run[n + 1], capacity, o)
  {
    if acts[n].Store? {
      var i :| ReadAt(run, acts, n, i);
      ReadStaysStorable(run, acts, i, n, capacity, o, acts[n].key);
    }
    ActKeeps(run[n], capacity, o, acts[n]);
  }

  /** Over every run each cached answer is current, or an event naming its key is still to be handed over. */
  lemma {:induction false} RunKeeps(run: seq<System>, acts: seq<Action>, n: nat, capacity: nat, o: Verifier)
    requires 0 < capacity && IsRun(run, acts, capacity, o) && n < |run|
    ensures SystemInv(run[n], capacity, o) && forall t :: 0 <= t <= n ==> WatcherInv(run[t])
  {
    if n > 0 {
      RunKeeps(run, acts, n - 1, capacity, o);
      StepKeeps(run, acts, n - 1, capacity, o);
    }
  }

  /**
   Whenever the watcher has caught up with the head, every cached answer is what resolve returns
   now, unless the lease of that name has run out since the answer was cached.
   */
  lemma CachedAnswersAgree(run: seq<System>, acts: seq<Action>, n: nat, capacity: nat, o: Verifier, k: Key)
    requires 0 < capacity && IsRun(run, acts, capacity, o) && n < |run|
    requires run[n].last == |run[n].logs| && Find(run[n].cache, k).Some?
    ensures var s := run[n];
      var v, d := Find(s.cache, k).value.value, At(s.chain, OfText(k.name)).domain;
      && v.ownerSigValid == o(k.name, v.resolved.record, v.resolved.owner, v.resolved.pubKey)
      && (|| v.resolved == Now(s.chain, k, s.time)
          || (d.owner == v.resolved.owner != ZERO_ADDRESS && s.time > d.expiry))
  {
    RunKeeps(run, acts, n, capacity, o);
    var s := run[n];
    var v := Find(s.cache, k).value.value;
    assert forall p :: !Awaited(s, k, p);
    assert Fresh(s, k, v.resolved) && Genuine(o, k, v);
    ResolveIsTimelessWhileActive(s.chain, k, s.time);
  }

  /** Over every run, whatever the cache holds was stored by an earlier fill of that key. */
  lemma {:induction false} HeldWasFilled(
    run: seq<System>, acts: seq<Action>, n: nat, capacity: nat, o: Verifier, k: Key)
    returns (i: nat)
    requires 0 < capacity && IsRun(run, acts, capacity, o) && n < |run| && Find(run[n].cache, k).Some?
    ensures i < n && Stores(run[i], o, acts[i], k, Find(run[n].cache, k).value)
  {
    RunKeeps(run, acts, n - 1, capacity, o);
    ActHolds(run[n - 1], capacity, o, acts[n - 1], k);
    i := n - 1;
    if !Stores(run[i], o, acts[i], k, Find(run[n].cache, k).value) {
      i := HeldWasFilled(run, acts, n - 1, capacity, o, k);
    }
  }

  /** Over every run, a query is answered from the cache only up to ttl seconds after the fill of that answer. */
  lemma HitsAreInTime(run: seq<System>, acts: seq<Action>, n: nat, capacity: nat, o: Verifier, k: Key, now: int)
    returns (i: nat)
    requires 0 < capacity && IsRun(run, acts, capacity, o) && n < |run| && Hits(run[n].cache, k, now)
    ensures i < n && (acts[i].Query? || acts[i].Store?) && acts[i].key == k
    ensures var at := if acts[i].Query? then acts[i].later else acts[i].fill.now;
      now <= at + Find(run[n].cache, k).value.value.resolved.record.ttl * 1_000_000_000
  {
    i := HeldWasFilled(run, acts, n, capacity, o, k);
  }

  // ------------------------------------------- the watcher's scans are runs of the system

  /** One more action at the end of a run. */
  lemma Extend(run: seq<System>, acts: seq<Action>, capacity: nat, o: Verifier, a: Action)
    returns (run': seq<System>, acts': seq<Action>)
    requires Steps(run, acts, capacity, o) && Enabled(run[|acts|], a)
    ensures Steps(run', acts', capacity, o) && acts' == acts + [a] && run'[0] == run[0]
    ensures run'[|acts'|] == Act(run[|acts|], capacity, o, a)
  {
    run', acts' := run + [Act(run[|acts|], capacity, o, a)], acts + [a];
  }

  lemma {:induction false} HandMany(run: seq<System>, acts: seq<Action>, capacity: nat, o: Verifier, n: nat)
    returns (run': seq<System>, acts': seq<Action>)
    requires Steps(run, acts, capacity, o) && run[|acts|].scan.Scanning? && n <= |run[|acts|].scan.rest|
    ensures Steps(run', acts', capacity, o) && run'[0] == run[0]
    ensures var s := run[|acts|];
      run'[|acts'|] == s.(cache := Deliver(s.cache, s.scan.rest[..n]), scan := s.scan.(rest := s.scan.rest[n..]))
  {
    run', acts' := run, acts;
    if n > 0 {
      var rest := run[|acts|].scan.rest;
      run', acts' := HandMany(run, acts, capacity, o, n - 1);
      run', acts' := Extend(run', acts', capacity, o, HandOver);
      assert rest[n - 1..][1..] == rest[n..] && rest[..n][..n - 1] == rest[..n - 1];
    }
  }

  /** What the first k filters of a scan of `s` up to `end` hand over. */
  function News(s: System, end: nat, k: nat, fault: Fault): seq<RecordEvent>
    requires k <= |KINDS|
  {
    Yields(LogsOf(s.logs), s.last + 1, end, k, fault)
  }

  /** The system after a scan of `s` that handed over `news` and ended at `last`. */
  ghost function Scanned(s: System, news: seq<RecordEvent>, last: nat): System {
    s.(cache := Deliver(s.cache, news), last := last)
  }

  /** The system during a scan of `s`, when the k-th filter has returned. */
  ghost function AtFilter(s: System, end: nat, k: nat, fault: Fault): System
    requires k < |KINDS|
  {
    s.(cache := Deliver(s.cache, News(s, end, k, fault)), scan := Scanning(end, k, Filter(s, end, k)))
  }

  /** The system during a scan of `s`, when the k-th iterator stops with `left` not yielded. */
  ghost function AtStop(s: System, end: nat, k: nat, fault: Fault, left: seq<RecordEvent>): System
    requires k < |KINDS|
  {
    s.(cache := Deliver(s.cache, News(s, end, k + 1, fault)), scan := Scanning(end, k, left))
  }

  lemma ScanKind(
    run: seq<System>, acts: seq<Action>, capacity: nat, o: Verifier, s: System, end: nat, k: nat, fault: Fault)
    returns (run': seq<System>, acts': seq<Action>, left: seq<RecordEvent>)
    requires Steps(run, acts, capacity, o) && k < |KINDS| && !Struck(fault, k)
    requires run[|acts|] == AtFilter(s, end, k, fault)
    ensures Steps(run', acts', capacity, o) && run'[0] == run[0]
    ensures run'[|acts'|] == AtStop(s, end, k, fault, left) && (left == [] || Strikes(fault, k))
  {
    var evs := Filter(s, end, k);
    var n := Yield(fault, k, |evs|);
    run', acts' := HandMany(run, acts, capacity, o, n);
    DeliverConcat(s.cache, News(s, end, k, fault), evs[..n]);
    left := evs[n..];
  }

  lemma ScanNext(capacity: nat, o: Verifier, s: System, end: nat, k: nat, fault: Fault)
    requires k + 1 < |KINDS|
    ensures Enabled(AtStop(s, end, k, fault, []), NextFilter)
    ensures Act(AtStop(s, end, k, fault, []), capacity, o, NextFilter) == AtFilter(s, end, k + 1, fault)
  {
  }

  /** The system after a scan of `s` up to `end`. */
  ghost function AtEnd(s: System, end: nat, fault: Fault): System {
    Scanned(s, News(s, end, |KINDS|, fault), if Struck(fault, |KINDS|) then s.last else end)
  }

  lemma ScanFails(capacity: nat, o: Verifier, s: System, end: nat, k: nat, fault: Fault, left: seq<RecordEvent>)
    requires s.scan.Idle? && k < |KINDS| && Strikes(fault, k)
    ensures Enabled(AtStop(s, end, k, fault, left), FailScan)
    ensures Act(AtStop(s, end, k, fault, left), capacity, o, FailScan) == AtEnd(s, end, fault)
  {
    YieldsStop(LogsOf(s.logs), s.last + 1, end, k, |KINDS|, fault);
  }

  lemma ScanEnds(capacity: nat, o: Verifier, s: System, end: nat, k: nat, fault: Fault)
    requires s.scan.Idle? && k + 1 == |KINDS| && !Struck(fault, |KINDS|)
    ensures Enabled(AtStop(s, end, k, fault, []), EndScan)
    ensures Act(AtStop(s, end, k, fault, []), capacity, o, EndScan) == AtEnd(s, end, fault)
  {
  }

  lemma {:induction false} ScanFrom(
    run: seq<System>, acts: seq<Action>, capacity: nat, o: Verifier, s: System, end: nat, k: nat, fault: Fault)
    returns (run': seq<System>, acts': seq<Action>)
    requires Steps(run, acts, capacity, o) && s.scan.Idle? && k < |KINDS| && !Struck(fault, k)
    requires run[|acts|] == AtFilter(s, end, k, fault)
    ensures Steps(run', acts', capacity, o) && run'[0] == run[0] && run'[|acts'|] == AtEnd(s, end, fault)
    decreases |KINDS| - k
  {
    var left;
    run', acts', left := ScanKind(run, acts, capacity, o, s, end, k, fault);
    if Strikes(fault, k) {
      ScanFails(capacity, o, s, end, k, fault, left);
      run', acts' := Extend(run', acts', capacity, o, FailScan);
    } else if k + 1 == |KINDS| {
      ScanEnds(capacity, o, s, end, k, fault);
      run', acts' := Extend(run', acts', capacity, o, EndScan);
    } else {
      ScanNext(capacity, o, s, end, k, fault);
      run', acts' := Extend(run', acts', capacity, o, NextFilter);
      run', acts' := ScanFrom(run', acts', capacity, o, s, end, k + 1, fault);
    }
  }

  lemma ScanRuns(run: seq<System>, acts: seq<Action>, capacity: nat, o: Verifier, s: System, head: nat, fault: Fault)
    returns (run': seq<System>, acts': seq<Action>)
    requires Steps(run, acts, capacity, o) && run[|acts|] == s && s.scan.Idle? && s.last < head <= |s.logs|
    ensures Steps(run', acts', capacity, o) && run'[0] == run[0]
    ensures run'[|acts'|] == AtEnd(s, SpanEnd(s.last, head), fault)
  {
    run', acts' := Extend(run, acts, capacity, o, BeginScan(head));
    run', acts' := ScanFrom(run', acts', capacity, o, s, SpanEnd(s.last, head), 0, fault);
  }

  lemma SameNews(s: System, logs: Logs, end: nat, fault: Fault)
    requires forall b :: s.last < b <= end ==> logs(b) == LogsOf(s.logs)(b)
    ensures Yields(logs, s.last + 1, end, |KINDS|, fault) == News(s, end, |KINDS|, fault)
  {
    YieldsSame(logs, LogsOf(s.logs), s.last + 1, end, |KINDS|, fault);
  }

  lemma WatchedRun(s: System, capacity: nat, o: Verifier, logs: Logs, head: nat, fault: Fault, news: seq<RecordEvent>)
    returns (run: seq<System>, acts: seq<Action>)
    requires s.scan.Idle? && s.last < head <= |s.logs|
    requires forall b :: s.last < b <= head ==> logs(b) == LogsOf(s.logs)(b)
    requires news == Yields(logs, s.last + 1, SpanEnd(s.last, head), |KINDS|, fault)
    ensures Steps(run, acts, capacity, o) && run[0] == s
    ensures run[|acts|].cache == Deliver(s.cache, news)
    ensures run[|acts|] ==
      s.(cache := run[|acts|].cache, last := if Struck(fault, |KINDS|) then s.last else SpanEnd(s.last, head))
  {
    run, acts := ScanRuns([s], [], capacity, o, s, head, fault);
    assert news == News(s, SpanEnd(s.last, head), |KINDS|, fault) by {
      SameNews(s, logs, SpanEnd(s.last, head), fault);
    }
  }

  /** One scan of the watcher, whatever fails in it, is a run of enabled steps with the same cache and position. */
  method ScanIsRun(w: EventWatcher<Answer>, head: nat, fault: Fault, ghost s: System, ghost o: Verifier)
    returns (ghost run: seq<System>, ghost acts: seq<Action>)
    requires w.cache.Valid() && s.scan.Idle? && s.last == w.last < head <= |s.logs| && s.cache == w.cache.lru
    requires forall b :: s.last < b <= head ==> w.logs(b) == LogsOf(s.logs)(b)
    modifies w, w.cache
    ensures w.cache.Valid() && Steps(run, acts, w.cache.capacity, o) && run[0] == s
    ensures run[|acts|] == s.(cache := w.cache.lru, last := w.last)
  {
    var _, news := w.ScanOnce(head, fault);
    run, acts := WatchedRun(s, w.cache.capacity, o, w.logs, head, fault, news);
  }

  // ----------------------------------------------------- fills that come too late

  /** The system after a Set of what the chain answered at an earlier time. */
  ghost function Late(s: System, capacity: nat, o: Verifier, k: Key, f: Fill): System {
    s.(cache := Filled(s.cache, capacity, o, k, f))
  }

  /** The cache keeps `f.read`, and it is not what resolve answers. */
  ghost predicate Stale(s: System, capacity: nat, o: Verifier, k: Key, f: Fill) {
    var found := Find(Late(s, capacity, o, k, f).cache, k);
    found.Some? && found.value.value.resolved == f.read != Now(s.chain, k, s.time)
  }

  /**
   Storing at `n` what the chain answered at `i` keeps the invariant exactly when the answer is
   still the same or an event naming the key is still to come. So it does if none was handed over
   in between; and at the head it does not if a handed-over event changed the answer.
   */
  lemma LateFillExact(
    run: seq<System>, acts: seq<Action>, i: nat, n: nat, capacity: nat, o: Verifier, k: Key, proof: Text, now: int)
    requires 0 < capacity && IsRun(run, acts, capacity, o) && i <= n <= |acts|
    ensures var s, f := run[n], Fill(Now(run[i].chain, k, run[i].time), proof, now);
      var kept := SystemInv(Late(s, capacity, o, k, f), capacity, o);
      && (Unhanded(run, acts, i, n, k) ==> kept)
      && (f.read.record.present && f.read.record.ttl > 0 ==>
            && (kept <==> Timeless(s.chain, k) == f.read || exists p :: Awaited(s, k, p))
            && (s.last == |s.logs| && Timeless(s.chain, k) != f.read ==>
                  !Unhanded(run, acts, i, n, k) && !kept && Stale(s, capacity, o, k, f)))
  {
    var s, f := run[n], Fill(Now(run[i].chain, k, run[i].time), proof, now);
    RunKeeps(run, acts, n, capacity, o);
    ResolveIsTimelessWhileActive(run[i].chain, k, run[i].time);
    ResolveIsTimelessWhileActive(s.chain, k, s.time);
    LateFill(s, capacity, o, k, f);
    if f.read.record.present && f.read.record.ttl > 0 { LateFillFound(s, capacity, o, k, f); }
    if Unhanded(run, acts, i, n, k) {
      ReadStaysStorable(run, acts, i, n, capacity, o, k);
    }
  }

  lemma LateFill(s: System, capacity: nat, o: Verifier, k: Key, f: Fill)
    requires SystemInv(s, capacity, o)
    ensures Storable(s, k, f.read) ==> SystemInv(Late(s, capacity, o, k, f), capacity, o)
    ensures f.read.record.present && f.read.record.ttl > 0 && SystemInv(Late(s, capacity, o, k, f), capacity, o) ==>
      FreshOrAwaited(s, k, f.read)
  {
    if Storable(s, k, f.read) {
      ActKeeps(s, capacity, o, Store(k, f));
    }
    if f.read.record.present && f.read.record.ttl > 0 && SystemInv(Late(s, capacity, o, k, f), capacity, o) {
      LateFillFound(s, capacity, o, k, f);
      SameQueue(Late(s, capacity, o, k, f), s, k, f.read);
    }
  }

  lemma LateFillFound(s: System, capacity: nat, o: Verifier, k: Key, f: Fill)
    requires 0 < capacity && f.read.record.present && f.read.record.ttl > 0
    ensures var found := Find(Late(s, capacity, o, k, f).cache, k);
      found.Some? && found.value.value == Enrich(o, k.name, f.read, f.proof)
  {
    var e := Entry(Enrich(o, k.name, f.read, f.proof), f.now + f.read.record.ttl * SECOND);
    FrontFind(s.cache, k, e, k);
  }

  lemma RemovalIsSeen(s: State, k: Key, c: Call)
    requires c.op == RemoveRecord(k.name, k.recordType, k.selector) && Step(s, c).Done?
    ensures Now(s, k, c.now).record.present && !Now(After(s, [c]), k, c.now).record.present
    ensures Emitted(s, [c]) == [RecordEvent(EventRecordRemoved, k.name, OfText(k.name))]
  {
  }

  /**
   An answer read before a removal and stored after the removal's event was handed over: the
   watcher has caught up, and the cached answer is stale.
   */
  lemma SplitFillGoesStale(s: System, capacity: nat, o: Verifier, k: Key, c: Call, proof: Text, now: int)
    returns (run: seq<System>, acts: seq<Action>)
    requires 0 < capacity && s.scan.Idle? && s.last == |s.logs| && c.now >= s.time
    requires c.op == RemoveRecord(k.name, k.recordType, k.selector) && Step(s.chain, c).Done?
    ensures Steps(run, acts, capacity, o) && run[0] == s
    ensures var f, n := Fill(Now(s.chain, k, s.time), proof, now), |acts| - 1;
      && n >= 0 && acts[n] == Store(k, f) && f.read.record.present
      && var end := run[n + 1];
      && end.last == |end.logs| && !Now(end.chain, k, end.time).record.present
      && (f.read.record.ttl > 0 ==> Find(end.cache, k).Some? && Find(end.cache, k).value.value.resolved == f.read)
  {
    RemovalIsSeen(s.chain, k, c);
    var f := Fill(Now(s.chain, k, s.time), proof, now);
    run, acts := Extend([s], [], capacity, o, Mine([c], c.now));
    run, acts := ScanRuns(run, acts, capacity, o, run[|acts|], |s.logs| + 1, NoFault);
    if f.read.record.ttl > 0 { LateFillFound(run[|acts|], capacity, o, k, f); }
    run, acts := Extend(run, acts, capacity, o, Store(k, f));
  }
}
