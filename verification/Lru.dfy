/**
 The cache as a recency list (resolver/internal/cache/cache.go): what each operation does to the
 list, and what that means for whole traces of operations.
 */
module Lru {
  import opened Options
  import opened Bytes
  import opened Digests
  import opened Namespace

  datatype Key = Key(name: Text, recordType: Text, selector: Text)

  datatype Entry<V> = Entry(value: V, expiresAt: int)

  datatype Slot<V> = Slot(key: Key, entry: Entry<V>)

  /** Most recently used first. */
  type Recency<V> = seq<Slot<V>>

  function Keys<V>(l: Recency<V>): (ks: set<Key>) {
    set i | 0 <= i < |l| :: l[i].key
  }

  predicate Distinct<V>(l: Recency<V>) {
    forall i, j :: 0 <= i < j < |l| ==> l[i].key != l[j].key
  }

  /** The list without the keys in `dead`, order kept. */
  ghost function Prune<V>(l: Recency<V>, dead: iset<Key>): Recency<V> {
    if l == [] then []
    else (if l[0].key in dead then [] else [l[0]]) + Prune(l[1..], dead)
  }

  ghost function Named(name: Text): iset<Key> {
    iset k: Key | k.name == name
  }

  ghost function Hashed(h: Digest): iset<Key> {
    iset k: Key | OfText(k.name) == h
  }

  /** The entry stored under `k`, if any. */
  function Find<V>(l: Recency<V>, k: Key): Option<Entry<V>> {
    if l == [] then None else if l[0].key == k then Some(l[0].entry) else Find(l[1..], k)
  }

  // --------------------------------------------------------------- operations

  /** lru.Add: update or insert at the front, dropping the oldest entry past the capacity. */
  ghost function Put<V>(l: Recency<V>, capacity: nat, k: Key, e: Entry<V>): Recency<V> {
    var l' := [Slot(k, e)] + Prune(l, iset{k});
    if |l'| > capacity then l'[..|l'| - 1] else l'
  }

  /** Get: a hit moves to the front, an expired entry is removed. */
  ghost function Touch<V>(l: Recency<V>, k: Key, now: int): Recency<V> {
    var e := Find(l, k);
    if e.None? then l
    else if now > e.value.expiresAt then Prune(l, iset{k})
    else [Slot(k, e.value)] + Prune(l, iset{k})
  }

  predicate Hits<V>(l: Recency<V>, k: Key, now: int) {
    Find(l, k).Some? && now <= Find(l, k).value.expiresAt
  }

  /** The keys an event drops: Transferred names its victim by hash, the others by name. */
  ghost function Victims(ev: RecordEvent): iset<Key> {
    if ev.kind.EventTransferred? then Hashed(ev.nameHash) else Named(ev.name)
  }

  datatype CacheOp<V> =
    | Get(key: Key, now: int)
    | Set(key: Key, value: V, ttl: nat, now: int)
    | InvalidateName(name: Text)
    | InvalidateHash(hash: Digest)
    | Flush

  ghost function Apply<V>(l: Recency<V>, capacity: nat, op: CacheOp<V>): Recency<V> {
    match op
    case Get(k, now) => Touch(l, k, now)
    case Set(k, v, ttl, now) => Put(l, capacity, k, Entry(v, now + ttl))
    case InvalidateName(name) => Prune(l, Named(name))
    case InvalidateHash(h) => Prune(l, Hashed(h))
    case Flush => []
  }

  ghost function Run<V>(capacity: nat, ops: seq<CacheOp<V>>): Recency<V> {
    if ops == [] then [] else Apply(Run(capacity, ops[..|ops| - 1]), capacity, ops[|ops| - 1])
  }

  // ---------------------------------------------------------- lemmas on lists

  lemma {:induction false} PruneProps<V>(l: Recency<V>, dead: iset<Key>)
    ensures |Prune(l, dead)| <= |l|
    ensures forall k :: k in Keys(Prune(l, dead)) <==> k in Keys(l) && k !in dead
    ensures Distinct(l) ==> Distinct(Prune(l, dead))
  {
    if l != [] {
      PruneProps(l[1..], dead);
      KeysCons(l);
      var r := Prune(l, dead);
      if l[0].key !in dead {
        assert r == [l[0]] + Prune(l[1..], dead);
        KeysCons(r);
        assert r[1..] == Prune(l[1..], dead);
        if Distinct(l) { DistinctCons(l); DistinctCons(r); }
      } else {
        assert r == Prune(l[1..], dead);
        if Distinct(l) { DistinctCons(l); }
      }
    }
  }

  lemma KeysCons<V>(l: Recency<V>)
    requires l != []
    ensures Keys(l) == {l[0].key} + Keys(l[1..])
  {
  }

  lemma DistinctCons<V>(l: Recency<V>)
    requires l != []
    ensures Distinct(l) <==> Distinct(l[1..]) && l[0].key !in Keys(l[1..])
  {
  }

  lemma {:induction false} FindMeaning<V>(l: Recency<V>, k: Key)
    ensures Find(l, k).Some? <==> k in Keys(l)
  {
    if l != [] {
      FindMeaning(l[1..], k);
      KeysCons(l);
    }
  }

  lemma {:induction false} FindPrune<V>(l: Recency<V>, dead: iset<Key>, k: Key)
    ensures Find(Prune(l, dead), k) == if k in dead then None else Find(l, k)
  {
    if l != [] {
      FindPrune(l[1..], dead, k);
      if l[0].key !in dead {
        assert Prune(l, dead)[1..] == Prune(l[1..], dead);
      } else {
        assert Prune(l, dead) == Prune(l[1..], dead);
      }
    }
  }

  lemma {:induction false} FindInit<V>(l: Recency<V>, k: Key)
    requires l != [] && Distinct(l)
    ensures Find(l[..|l| - 1], k) == if l[|l| - 1].key == k then None else Find(l, k)
  {
    var n := |l| - 1;
    if n > 0 {
      assert l[..n][1..] == l[1..][..n - 1];
      DistinctCons(l);
      FindInit(l[1..], k);
    }
  }

  /** Dropping twice is dropping the union. */
  lemma {:induction false} PrunePrune<V>(l: Recency<V>, a: iset<Key>, b: iset<Key>)
    ensures Prune(Prune(l, a), b) == Prune(l, a + b)
  {
    if l != [] {
      PrunePrune(l[1..], a, b);
      if l[0].key !in a {
        assert Prune(l, a)[1..] == Prune(l[1..], a);
      } else {
        assert Prune(l, a) == Prune(l[1..], a);
      }
    }
  }

  lemma {:induction false} PruneAbsent<V>(l: Recency<V>, dead: iset<Key>)
    requires forall k :: k in Keys(l) ==> k !in dead
    ensures Prune(l, dead) == l
  {
    if l != [] {
      KeysCons(l);
      PruneAbsent(l[1..], dead);
    }
  }

  lemma {:induction false} PruneLength<V>(l: Recency<V>, k: Key)
    requires Distinct(l)
    ensures |Prune(l, iset{k})| == if k in Keys(l) then |l| - 1 else |l|
  {
    if l != [] {
      KeysCons(l);
      DistinctCons(l);
      PruneLength(l[1..], k);
    }
  }

  lemma FrontProps<V>(l: Recency<V>, k: Key, e: Entry<V>)
    requires Distinct(l)
    ensures var l' := [Slot(k, e)] + Prune(l, iset{k});
      Distinct(l') && Keys(l') == Keys(l) + {k} && |l'| == |l| + (if k in Keys(l) then 0 else 1)
  {
    var rest := Prune(l, iset{k});
    var l' := [Slot(k, e)] + rest;
    PruneProps(l, iset{k});
    PruneLength(l, k);
    assert l'[1..] == rest;
    KeysCons(l');
    DistinctCons(l');
  }

  lemma FrontFind<V>(l: Recency<V>, k: Key, e: Entry<V>, j: Key)
    ensures Find([Slot(k, e)] + Prune(l, iset{k}), j) == if j == k then Some(e) else Find(l, j)
  {
    var l' := [Slot(k, e)] + Prune(l, iset{k});
    assert l'[1..] == Prune(l, iset{k});
    FindPrune(l, iset{k}, j);
  }

  lemma PutInv<V>(l: Recency<V>, capacity: nat, k: Key, e: Entry<V>)
    requires Distinct(l) && |l| <= capacity && capacity > 0
    ensures Distinct(Put(l, capacity, k, e)) && |Put(l, capacity, k, e)| <= capacity
  {
    FrontProps(l, k, e);
  }

  lemma TouchInv<V>(l: Recency<V>, k: Key, now: int)
    requires Distinct(l)
    ensures Distinct(Touch(l, k, now)) && |Touch(l, k, now)| <= |l|
  {
    FindMeaning(l, k);
    PruneProps(l, iset{k});
    if Hits(l, k, now) { FrontProps(l, k, Find(l, k).value); }
  }

  /** Every operation keeps the list duplicate-free and within its capacity. */
  lemma ApplyInv<V>(l: Recency<V>, capacity: nat, op: CacheOp<V>)
    requires Distinct(l) && |l| <= capacity && capacity > 0
    ensures Distinct(Apply(l, capacity, op)) && |Apply(l, capacity, op)| <= capacity
  {
    match op
    case Get(k, now) => TouchInv(l, k, now);
    case Set(k, v, ttl, now) => PutInv(l, capacity, k, Entry(v, now + ttl));
    case InvalidateName(name) => PruneProps(l, Named(name));
    case InvalidateHash(h) => PruneProps(l, Hashed(h));
    case Flush =>
  }

  lemma {:induction false} RunInv<V>(capacity: nat, ops: seq<CacheOp<V>>)
    requires capacity > 0
    ensures Distinct(Run(capacity, ops)) && |Run(capacity, ops)| <= capacity
  {
    if ops != [] {
      RunInv(capacity, ops[..|ops| - 1]);
      ApplyInv(Run(capacity, ops[..|ops| - 1]), capacity, ops[|ops| - 1]);
    }
  }

  // --------------------------------------- events, in any order and repeated

  ghost function Deliver<V>(l: Recency<V>, evs: seq<RecordEvent>): Recency<V> {
    if evs == [] then l else Prune(Deliver(l, evs[..|evs| - 1]), Victims(evs[|evs| - 1]))
  }

  ghost predicate IsVictim(evs: seq<RecordEvent>, k: Key) {
    exists i :: 0 <= i < |evs| && k in Victims(evs[i])
  }

  ghost function AllVictims(evs: seq<RecordEvent>): iset<Key> {
    iset k: Key | IsVictim(evs, k)
  }

  /** A batch removes exactly the keys some event in it names. */
  lemma {:induction false} DeliverIsPrune<V>(l: Recency<V>, evs: seq<RecordEvent>)
    ensures Deliver(l, evs) == Prune(l, AllVictims(evs))
  {
    if evs == [] {
      PruneAbsent(l, AllVictims(evs));
    } else {
      var before, last := evs[..|evs| - 1], evs[|evs| - 1];
      DeliverIsPrune(l, before);
      PrunePrune(l, AllVictims(before), Victims(last));
      assert AllVictims(evs) == AllVictims(before) + Victims(last) by {
        forall k | k in AllVictims(evs) ensures k in AllVictims(before) + Victims(last) {
          var i :| 0 <= i < |evs| && k in Victims(evs[i]);
          if i < |before| { assert before[i] == evs[i]; }
        }
        forall k | k in AllVictims(before) ensures k in AllVictims(evs) {
          var i :| 0 <= i < |before| && k in Victims(before[i]);
          assert evs[i] == before[i];
        }
      }
    }
  }

  /** Delivering the same events in another order, or some of them again, leaves the same cache. */
  lemma DeliveryOrderIrrelevant<V>(l: Recency<V>, evs: seq<RecordEvent>, evs': seq<RecordEvent>)
    requires forall ev :: ev in evs <==> ev in evs'
    ensures Deliver(l, evs) == Deliver(l, evs')
  {
    DeliverIsPrune(l, evs);
    DeliverIsPrune(l, evs');
    assert AllVictims(evs) == AllVictims(evs') by {
      forall k ensures k in AllVictims(evs) <==> k in AllVictims(evs') {
        if k in AllVictims(evs) {
          var i :| 0 <= i < |evs| && k in Victims(evs[i]);
          assert evs[i] in evs';
        }
        if k in AllVictims(evs') {
          var i :| 0 <= i < |evs'| && k in Victims(evs'[i]);
          assert evs'[i] in evs;
        }
      }
    }
  }

  // ------------------------------------------------ hits are sound, over traces

  predicate Drops<V>(op: CacheOp<V>, k: Key) {
    || op.Flush?
    || (op.InvalidateName? && op.name == k.name)
    || (op.InvalidateHash? && op.hash == OfText(k.name))
  }

  /** What a cache of unlimited size and patience would hold: the latest Set not dropped since. */
  function LatestSet<V>(ops: seq<CacheOp<V>>, k: Key): Option<Entry<V>> {
    if ops == [] then None else
    var op := ops[|ops| - 1];
    if op.Set? && op.key == k then Some(Entry(op.value, op.now + op.ttl))
    else if Drops(op, k) then None
    else LatestSet(ops[..|ops| - 1], k)
  }

  lemma FindPut<V>(l: Recency<V>, capacity: nat, g: Key, e: Entry<V>, k: Key)
    requires Distinct(l) && |l| <= capacity && capacity > 0
    ensures var found := Find(Put(l, capacity, g, e), k);
      found.None? || found == if k == g then Some(e) else Find(l, k)
  {
    FrontProps(l, g, e);
    FrontFind(l, g, e, k);
    FindInit([Slot(g, e)] + Prune(l, iset{g}), k);
  }

  lemma FindApply<V>(l: Recency<V>, capacity: nat, op: CacheOp<V>, k: Key)
    requires Distinct(l) && |l| <= capacity && capacity > 0
    ensures var found := Find(Apply(l, capacity, op), k);
      || found.None?
      || (op.Set? && op.key == k && found == Some(Entry(op.value, op.now + op.ttl)))
      || (!(op.Set? && op.key == k) && !Drops(op, k) && found == Find(l, k))
  {
    match op
    case Get(g, now) =>
      FindPrune(l, iset{g}, k);
      if Hits(l, g, now) { FrontFind(l, g, Find(l, g).value, k); }
    case Set(g, v, ttl, now) => FindPut(l, capacity, g, Entry(v, now + ttl), k);
    case InvalidateName(name) => FindPrune(l, Named(name), k);
    case InvalidateHash(h) => FindPrune(l, Hashed(h), k);
    case Flush =>
  }

  /** Whatever the cache holds under a key is the latest Set of it, not dropped since. */
  lemma {:induction false} HeldIsLatest<V>(capacity: nat, ops: seq<CacheOp<V>>, k: Key)
    requires capacity > 0
    ensures var held := Find(Run(capacity, ops), k); held.Some? ==> held == LatestSet(ops, k)
  {
    if ops != [] {
      var before := ops[..|ops| - 1];
      HeldIsLatest(capacity, before, k);
      RunInv(capacity, before);
      FindApply(Run(capacity, before), capacity, ops[|ops| - 1], k);
    }
  }

  // ------------------------------------------------- misses are justified

  /** Op `op` set key `k`, or found it alive in `l`. */
  predicate Uses<V>(l: Recency<V>, op: CacheOp<V>, k: Key) {
    (op.Set? && op.key == k) || (op.Get? && op.key == k && Hits(l, k, op.now))
  }

  /** The other keys set or hit since `k` itself was last set or hit. */
  ghost function UsedSince<V>(capacity: nat, ops: seq<CacheOp<V>>, k: Key): set<Key> {
    if ops == [] then {} else
    var before, op := ops[..|ops| - 1], ops[|ops| - 1];
    var l := Run(capacity, before);
    if Uses(l, op, k) then {}
    else if (op.Get? || op.Set?) && Uses(l, op, op.key) then UsedSince(capacity, before, k) + {op.key}
    else UsedSince(capacity, before, k)
  }

  /** No operation happens after `now`. */
  predicate NotAfter<V>(ops: seq<CacheOp<V>>, now: int) {
    forall i :: 0 <= i < |ops| && (ops[i].Get? || ops[i].Set?) ==> ops[i].now <= now
  }

  /** Everything used more recently than `k` is in `since`. */
  predicate AheadWithin<V>(l: Recency<V>, k: Key, since: set<Key>) {
    forall i, j :: 0 <= i < j < |l| && l[j].key == k ==> l[i].key in since
  }

  lemma AheadCons<V>(l: Recency<V>, k: Key, since: set<Key>)
    requires l != []
    ensures AheadWithin(l, k, since) <==>
            AheadWithin(l[1..], k, since) && (k in Keys(l[1..]) ==> l[0].key in since)
  {
  }

  lemma {:induction false} AheadPrune<V>(l: Recency<V>, dead: iset<Key>, k: Key, since: set<Key>)
    requires AheadWithin(l, k, since)
    ensures AheadWithin(Prune(l, dead), k, since)
  {
    if l != [] {
      AheadCons(l, k, since);
      AheadPrune(l[1..], dead, k, since);
      PruneProps(l[1..], dead);
      var r := Prune(l, dead);
      if l[0].key !in dead {
        assert r[1..] == Prune(l[1..], dead);
        AheadCons(r, k, since);
      } else {
        assert r == Prune(l[1..], dead);
      }
    }
  }

  /** Moving another key to the front puts only that key ahead of `k`. */
  lemma AheadFront<V>(l: Recency<V>, g: Key, e: Entry<V>, k: Key, since: set<Key>)
    requires AheadWithin(l, k, since) && g != k
    ensures AheadWithin([Slot(g, e)] + Prune(l, iset{g}), k, since + {g})
  {
    AheadPrune(l, iset{g}, k, since);
    var l' := [Slot(g, e)] + Prune(l, iset{g});
    assert l'[1..] == Prune(l, iset{g});
    AheadCons(l', k, since + {g});
  }

  lemma {:induction false} KeyCount<V>(l: Recency<V>)
    requires Distinct(l)
    ensures |Keys(l)| == |l|
  {
    if l != [] {
      KeysCons(l);
      DistinctCons(l);
      KeyCount(l[1..]);
    }
  }

  lemma SubsetCount(a: set<Key>, b: set<Key>)
    requires a <= b
    ensures |a| <= |b|
  {
    if a != {} {
      var x :| x in a;
      SubsetCount(a - {x}, b - {x});
    }
  }

  /** If the last of a full list is `k`, at least |l| - 1 other keys were used since. */
  lemma LastIsPushedOut<V>(l: Recency<V>, k: Key, since: set<Key>)
    requires l != [] && Distinct(l) && AheadWithin(l, k, since) && l[|l| - 1].key == k
    ensures |since| >= |l| - 1
  {
    var ahead := l[..|l| - 1];
    KeyCount(ahead);
    forall x | x in Keys(ahead) ensures x in since {
      var i :| 0 <= i < |ahead| && ahead[i].key == x;
      assert l[i].key == x;
    }
    SubsetCount(Keys(ahead), since);
  }

  /** `k` is held with nothing newer than `since` ahead of it, or has been pushed out by `capacity` other keys. */
  predicate HeldOrPushedOut<V>(l: Recency<V>, capacity: nat, k: Key, since: set<Key>) {
    && AheadWithin(l, k, since)
    && (k in Keys(l) || |since| >= capacity)
  }

  lemma SetKeepsOthers<V>(l: Recency<V>, capacity: nat, g: Key, e: Entry<V>, k: Key, since: set<Key>)
    requires Distinct(l) && |l| <= capacity && capacity > 0 && g != k
    requires HeldOrPushedOut(l, capacity, k, since)
    ensures HeldOrPushedOut(Put(l, capacity, g, e), capacity, k, since + {g})
  {
    var l' := [Slot(g, e)] + Prune(l, iset{g});
    FrontProps(l, g, e);
    AheadFront(l, g, e, k, since);
    SubsetCount(since, since + {g});
    if |l'| > capacity {
      EvictKeeps(l', capacity, k, since + {g});
    }
  }

  /** Dropping the oldest of more than `capacity` entries either leaves `k` or justifies its loss. */
  lemma EvictKeeps<V>(l: Recency<V>, capacity: nat, k: Key, since: set<Key>)
    requires Distinct(l) && |l| > capacity && HeldOrPushedOut(l, capacity, k, since)
    ensures HeldOrPushedOut(l[..|l| - 1], capacity, k, since)
  {
    var r := l[..|l| - 1];
    forall i, j | 0 <= i < j < |r| && r[j].key == k ensures r[i].key in since {
      assert l[j].key == k && l[i] == r[i];
    }
    if k in Keys(l) {
      var i :| 0 <= i < |l| && l[i].key == k;
      if i < |r| { assert r[i].key == k; } else { LastIsPushedOut(l, k, since); }
    }
  }

  lemma GetKeepsOthers<V>(l: Recency<V>, capacity: nat, g: Key, t: int, k: Key, since: set<Key>)
    requires Distinct(l) && HeldOrPushedOut(l, capacity, k, since)
    requires g == k ==> Find(l, k).None?
    ensures HeldOrPushedOut(Touch(l, g, t), capacity, k, if Hits(l, g, t) then since + {g} else since)
  {
    FindMeaning(l, g);
    if Hits(l, g, t) {
      FrontProps(l, g, Find(l, g).value);
      AheadFront(l, g, Find(l, g).value, k, since);
      SubsetCount(since, since + {g});
    } else if g in Keys(l) {
      PruneProps(l, iset{g});
      AheadPrune(l, iset{g}, k, since);
    }
  }

  lemma PruneKeepsOthers<V>(l: Recency<V>, capacity: nat, dead: iset<Key>, k: Key, since: set<Key>)
    requires HeldOrPushedOut(l, capacity, k, since) && k !in dead
    ensures HeldOrPushedOut(Prune(l, dead), capacity, k, since)
  {
    PruneProps(l, dead);
    AheadPrune(l, dead, k, since);
  }

  lemma MissStep<V>(l: Recency<V>, capacity: nat, op: CacheOp<V>, k: Key, since: set<Key>, now: int)
    requires Distinct(l) && |l| <= capacity && capacity > 0
    requires HeldOrPushedOut(l, capacity, k, since)
    requires !Uses(l, op, k) && !Drops(op, k)
    requires op.Get? || op.Set? ==> op.now <= now
    requires Find(l, k).Some? ==> now <= Find(l, k).value.expiresAt
    ensures HeldOrPushedOut(Apply(l, capacity, op), capacity, k,
              if (op.Get? || op.Set?) && Uses(l, op, op.key) then since + {op.key} else since)
  {
    match op
    case Get(g, t) => GetKeepsOthers(l, capacity, g, t, k, since);
    case Set(g, v, ttl, t) => SetKeepsOthers(l, capacity, g, Entry(v, t + ttl), k, since);
    case InvalidateName(name) => PruneKeepsOthers(l, capacity, Named(name), k, since);
    case InvalidateHash(h) => PruneKeepsOthers(l, capacity, Hashed(h), k, since);
    case Flush =>
  }

  lemma UseStep<V>(l: Recency<V>, capacity: nat, op: CacheOp<V>, k: Key)
    requires Distinct(l) && |l| <= capacity && capacity > 0 && Uses(l, op, k)
    ensures HeldOrPushedOut(Apply(l, capacity, op), capacity, k, {})
  {
    var e := if op.Set? then Entry(op.value, op.now + op.ttl) else Find(l, k).value;
    FrontProps(l, k, e);
    var l' := Apply(l, capacity, op);
    assert l'[0].key == k;
    ApplyInv(l, capacity, op);
  }

  /** A key that was set, not dropped and not expired stays, or `capacity` other keys were used since. */
  lemma {:induction false} SetIsHeldOrPushedOut<V>(capacity: nat, ops: seq<CacheOp<V>>, k: Key, now: int)
    requires capacity > 0 && NotAfter(ops, now)
    requires LatestSet(ops, k).Some? && now <= LatestSet(ops, k).value.expiresAt
    ensures HeldOrPushedOut(Run(capacity, ops), capacity, k, UsedSince(capacity, ops, k))
  {
    var before, op := ops[..|ops| - 1], ops[|ops| - 1];
    RunInv(capacity, before);
    var l := Run(capacity, before);
    if Uses(l, op, k) {
      UseStep(l, capacity, op, k);
    } else {
      SetIsHeldOrPushedOut(capacity, before, k, now);
      HeldIsLatest(capacity, before, k);
      MissStep(l, capacity, op, k, UsedSince(capacity, before, k), now);
    }
  }

  /**
   Get after any trace: a hit returns the latest value set, not dropped and not expired; a miss of
   such a value means that at least `capacity` other keys were set or hit since this one was.
   */
  lemma GetIsJustified<V>(capacity: nat, ops: seq<CacheOp<V>>, k: Key, now: int)
    requires capacity > 0
    ensures Hits(Run(capacity, ops), k, now) ==>
      && LatestSet(ops, k).Some? && now <= LatestSet(ops, k).value.expiresAt
      && Find(Run(capacity, ops), k) == LatestSet(ops, k)
    ensures
      && !Hits(Run(capacity, ops), k, now) && NotAfter(ops, now)
      && LatestSet(ops, k).Some? && now <= LatestSet(ops, k).value.expiresAt ==>
        |UsedSince(capacity, ops, k)| >= capacity && k !in UsedSince(capacity, ops, k)
  {
    HeldIsLatest(capacity, ops, k);
    FindMeaning(Run(capacity, ops), k);
    NotItself(capacity, ops, k);
    if NotAfter(ops, now) && LatestSet(ops, k).Some? && now <= LatestSet(ops, k).value.expiresAt {
      SetIsHeldOrPushedOut(capacity, ops, k, now);
    }
  }

  lemma {:induction false} NotItself<V>(capacity: nat, ops: seq<CacheOp<V>>, k: Key)
    ensures k !in UsedSince(capacity, ops, k)
  {
    if ops != [] { NotItself(capacity, ops[..|ops| - 1], k); }
  }
}
