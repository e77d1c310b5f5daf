/**
 TTLCache with its two name indexes (resolver/internal/cache/cache.go), every method in one
 critical section, proved to act on the recency list as the Lru module says.
 */
module TtlCache {
  import opened Options
  import opened Bytes
  import opened Digests
  import opened Namespace
  import opened Lru

  // ------------------------------------------------------------- name indexes

  datatype Index = Index(nameKeys: map<Text, set<Key>>, hashNames: map<Digest, Text>)

  function KeysNamed(ks: set<Key>, name: Text): set<Key> {
    set k | k in ks && k.name == name
  }

  function Names(ks: set<Key>): set<Text> {
    set k | k in ks :: k.name
  }

  /** The indexes of a cache that holds exactly the keys `ks`. */
  function IndexFor(ks: set<Key>): Index {
    Index(NameIndex(ks), HashIndex(Names(ks)))
  }

  function NameIndex(ks: set<Key>): map<Text, set<Key>> {
    map n | n in Names(ks) :: KeysNamed(ks, n)
  }

  function HashIndex(names: set<Text>): map<Digest, Text> {
    map n | n in names :: OfText(n) := n
  }

  /** Every held key sits under its own name, no name is empty, and the hash table inverts the hash. */
  lemma IndexMeaning(ks: set<Key>)
    ensures var ix := IndexFor(ks);
      && (forall k :: k in ks <==> k.name in ix.nameKeys && k in ix.nameKeys[k.name])
      && (forall n :: n in ix.nameKeys ==> ix.nameKeys[n] != {} && forall k :: k in ix.nameKeys[n] ==> k.name == n)
      && (forall n :: n in ix.nameKeys <==> OfText(n) in ix.hashNames)
      && (forall h :: h in ix.hashNames ==> h == OfText(ix.hashNames[h]))
  {
  }

  function WithKey(ix: Index, k: Key): Index {
    if k.name in ix.nameKeys then ix.(nameKeys := ix.nameKeys[k.name := ix.nameKeys[k.name] + {k}])
    else Index(ix.nameKeys[k.name := {k}], ix.hashNames[OfText(k.name) := k.name])
  }

  function WithoutKey(ix: Index, k: Key): Index {
    if k.name !in ix.nameKeys then ix
    else if ix.nameKeys[k.name] - {k} == {} then Index(ix.nameKeys - {k.name}, ix.hashNames - {OfText(k.name)})
    else ix.(nameKeys := ix.nameKeys[k.name := ix.nameKeys[k.name] - {k}])
  }

  lemma NamesOf(ks: set<Key>, k: Key)
    ensures Names(ks + {k}) == Names(ks) + {k.name}
    ensures Names(ks - {k}) == if KeysNamed(ks, k.name) - {k} == {} then Names(ks) - {k.name} else Names(ks)
  {
  }

  lemma KeysNamedOf(ks: set<Key>, k: Key, n: Text)
    ensures KeysNamed(ks + {k}, n) == if n == k.name then KeysNamed(ks, n) + {k} else KeysNamed(ks, n)
    ensures KeysNamed(ks - {k}, n) == if n == k.name then KeysNamed(ks, n) - {k} else KeysNamed(ks, n)
    ensures n !in Names(ks) ==> KeysNamed(ks, n) == {}
  {
  }

  lemma HashIndexOf(names: set<Text>, n: Text)
    ensures HashIndex(names)[OfText(n) := n] == HashIndex(names + {n})
    ensures HashIndex(names) - {OfText(n)} == HashIndex(names - {n})
  {
  }

  lemma NameIndexGrows(ks: set<Key>, k: Key)
    ensures NameIndex(ks + {k}) == NameIndex(ks)[k.name := KeysNamed(ks, k.name) + {k}]
  {
    NamesOf(ks, k);
    forall n | n in Names(ks + {k}) { KeysNamedOf(ks, k, n); }
  }

  lemma NameIndexShrinks(ks: set<Key>, k: Key)
    ensures NameIndex(ks - {k}) ==
      if KeysNamed(ks, k.name) - {k} == {} then NameIndex(ks) - {k.name}
      else NameIndex(ks)[k.name := KeysNamed(ks, k.name) - {k}]
  {
    NamesOf(ks, k);
    KeysNamedOf(ks, k, k.name);
    forall n | n in Names(ks - {k}) { KeysNamedOf(ks, k, n); }
  }

  lemma WithKeyIndex(ks: set<Key>, k: Key)
    ensures WithKey(IndexFor(ks), k) == IndexFor(ks + {k})
  {
    NamesOf(ks, k);
    NameIndexGrows(ks, k);
    HashIndexOf(Names(ks), k.name);
    KeysNamedOf(ks, k, k.name);
    if k.name in Names(ks) {
      assert Names(ks) + {k.name} == Names(ks);
    } else {
      assert KeysNamed(ks, k.name) + {k} == {k};
    }
  }

  lemma WithoutKeyIndex(ks: set<Key>, k: Key)
    ensures WithoutKey(IndexFor(ks), k) == IndexFor(ks - {k})
  {
    NamesOf(ks, k);
    NameIndexShrinks(ks, k);
    HashIndexOf(Names(ks), k.name);
    KeysNamedOf(ks, k, k.name);
    if k.name !in Names(ks) {
      assert Names(ks) - {k.name} == Names(ks);
      assert NameIndex(ks) - {k.name} == NameIndex(ks);
    }
  }

  /** The name index finds exactly the held keys of a name. */
  lemma NameFinds(ks: set<Key>, name: Text)
    ensures var nameKeys := IndexFor(ks).nameKeys;
      (if name in nameKeys then nameKeys[name] else {}) == KeysNamed(ks, name)
  {
  }

  /** The hash table finds the name of every held key, and nothing else. */
  lemma HashFinds(ks: set<Key>, h: Digest)
    ensures var hashNames := IndexFor(ks).hashNames;
      if h in hashNames then h == OfText(hashNames[h]) else forall k :: k in ks ==> OfText(k.name) != h
  {
  }

  // ---------------------------------------------------------------- the cache

  class TTLCache<V> {
    const capacity: nat
    var lru: Recency<V>
    var nameKeys: map<Text, set<Key>>
    var hashNames: map<Digest, Text>
    var hits: nat
    var misses: nat
    var evictions: nat

    ghost predicate Indexes(ks: set<Key>)
      reads `nameKeys, `hashNames
    {
      Index(nameKeys, hashNames) == IndexFor(ks)
    }

    ghost predicate Valid()
      reads this
    {
      0 < capacity && Distinct(lru) && |lru| <= capacity && Indexes(Keys(lru))
    }

    constructor (capacity: nat)
      requires capacity > 0
      ensures Valid() && this.capacity == capacity && lru == []
    {
      this.capacity := capacity;
      lru, nameKeys, hashNames := [], map[], map[];
      hits, misses, evictions := 0, 0, 0;
    }

    /** The eviction callback: takes `k` out of the indexes. */
    method DropFromIndex(k: Key, ghost ks: set<Key>)
      requires Indexes(ks)
      modifies `nameKeys, `hashNames
      ensures Indexes(ks - {k})
    {
      WithoutKeyIndex(ks, k);
      if k.name in nameKeys {
        var keys := nameKeys[k.name] - {k};
        if keys == {} {
          nameKeys := nameKeys - {k.name};
          hashNames := hashNames - {OfText(k.name)};
        } else {
          nameKeys := nameKeys[k.name := keys];
        }
      }
    }

    /** Registers `k` in the indexes. */
    method AddToIndex(k: Key, ghost ks: set<Key>)
      requires Indexes(ks)
      modifies `nameKeys, `hashNames
      ensures Indexes(ks + {k})
    {
      WithKeyIndex(ks, k);
      if k.name in nameKeys {
        nameKeys := nameKeys[k.name := nameKeys[k.name] + {k}];
      } else {
        nameKeys := nameKeys[k.name := {k}];
        hashNames := hashNames[OfText(k.name) := k.name];
      }
    }

    /** Moves `k` to the front of the list with entry `e`, inserting it if it is new. */
    method MoveToFront(k: Key, e: Entry<V>)
      requires Distinct(lru)
      modifies `lru
      ensures lru == [Slot(k, e)] + Prune(old(lru), iset{k})
    {
      var i := Position(lru, k);
      if i < |lru| {
        PruneAt(lru, k, i);
        lru := [Slot(k, e)] + (lru[..i] + lru[i + 1..]);
      } else {
        PruneAbsent(lru, iset{k});
        lru := [Slot(k, e)] + lru;
      }
    }

    /** lru.Remove: drops the entry, if there is one, and runs the callback. */
    method Remove(k: Key)
      requires Valid()
      modifies `lru, `nameKeys, `hashNames, `evictions
      ensures Valid() && lru == Prune(old(lru), iset{k})
    {
      var i := Position(lru, k);
      PruneProps(lru, iset{k});
      if i < |lru| {
        PruneAt(lru, k, i);
        ghost var ks := Keys(lru);
        lru := lru[..i] + lru[i + 1..];
        assert Keys(lru) == ks - {k};
        evictions := evictions + 1;
        DropFromIndex(k, ks);
        assert Indexes(Keys(lru));
      } else {
        PruneAbsent(lru, iset{k});
      }
    }

    /** lru.Get: finds the entry and moves it to the front. */
    method Promote(k: Key) returns (e: Option<Entry<V>>)
      requires Valid()
      modifies `lru
      ensures Valid() && e == Find(old(lru), k)
      ensures lru == if e.Some? then [Slot(k, e.value)] + Prune(old(lru), iset{k}) else old(lru)
    {
      FindMeaning(lru, k);
      var i := Position(lru, k);
      if i == |lru| {
        return None;
      }
      var found := lru[i].entry;
      PositionFinds(lru, k, i);
      FrontProps(lru, k, found);
      assert Keys(lru) + {k} == Keys(lru);
      MoveToFront(k, found);
      e := Some(found);
    }

    /** Get: a present, unexpired value, moved to the front; an expired one is removed. */
    method Get(k: Key, now: int) returns (value: Option<V>)
      requires Valid()
      modifies this
      ensures Valid() && lru == Touch(old(lru), k, now)
      ensures value == if Hits(old(lru), k, now) then Some(Find(old(lru), k).value.value) else None
      ensures hits == old(hits) + (if value.Some? then 1 else 0)
      ensures misses == old(misses) + (if value.None? then 1 else 0)
    {
      var e := Promote(k);
      if e.None? {
        misses := misses + 1;
        return None;
      }
      if now > e.value.expiresAt {
        PruneFront(old(lru), k, e.value);
        Remove(k);
        misses := misses + 1;
        return None;
      }
      hits := hits + 1;
      value := Some(e.value.value);
    }

    /** Drops the last entry of an overfull list and runs the callback. */
    method EvictOldest()
      requires lru != [] && Distinct(lru) && Indexes(Keys(lru))
      modifies `lru, `nameKeys, `hashNames, `evictions
      ensures lru == old(lru)[..|old(lru)| - 1] && Distinct(lru) && Indexes(Keys(lru))
    {
      var oldest := lru[|lru| - 1].key;
      ghost var all := Keys(lru);
      KeysInit(lru);
      lru := lru[..|lru| - 1];
      evictions := evictions + 1;
      DropFromIndex(oldest, all);
    }

    method Set(k: Key, value: V, ttl: nat, now: int)
      requires Valid()
      modifies `lru, `nameKeys, `hashNames, `evictions
      ensures Valid() && lru == Put(old(lru), capacity, k, Entry(value, now + ttl))
    {
      AddToIndex(k, Keys(lru));
      var e := Entry(value, now + ttl);
      FrontProps(lru, k, e);
      MoveToFront(k, e);
      if |lru| > capacity {
        EvictOldest();
      }
    }

    /** Drops every entry of a name: all of them and nothing else. */
    method InvalidateName(name: Text)
      requires Valid()
      modifies this
      ensures Valid() && lru == Prune(old(lru), Named(name))
    {
      var keys := if name in nameKeys then nameKeys[name] else {};
      ghost var all, done := keys, iset{};
      NameFinds(Keys(lru), name);
      PruneAbsent(lru, done);
      while keys != {}
        invariant Valid() && lru == Prune(old(lru), done)
        invariant keys <= all && forall k :: k in done <==> k in all && k !in keys
        decreases |keys|
      {
        var k :| k in keys;
        PrunePrune(old(lru), done, iset{k});
        Remove(k);
        keys := keys - {k};
        done := done + iset{k};
      }
      PruneSame(old(lru), done, Named(name));
    }

    method InvalidateNameHash(hash: Digest)
      requires Valid()
      modifies this
      ensures Valid() && lru == Prune(old(lru), Hashed(hash))
    {
      if hash in hashNames {
        var name := hashNames[hash];
        HashFinds(Keys(lru), hash);
        InvalidateName(name);
        assert Named(name) == Hashed(hash);
      } else {
        HashFinds(Keys(lru), hash);
        PruneAbsent(lru, Hashed(hash));
      }
    }

    method Flush()
      requires Valid()
      modifies this
      ensures Valid() && lru == []
    {
      evictions := evictions + |lru|;
      lru, nameKeys, hashNames := [], map[], map[];
    }

    method HandleEvent(ev: RecordEvent)
      requires Valid()
      modifies this
      ensures Valid() && lru == Prune(old(lru), Victims(ev))
    {
      match ev.kind
      case EventTransferred => InvalidateNameHash(ev.nameHash);
      case _ => InvalidateName(ev.name);
    }
  }

  /** New: a cache needs room for at least one entry. */
  method New<V>(capacity: int) returns (c: TTLCache?<V>)
    ensures c == null <==> capacity <= 0
    ensures c != null ==> fresh(c) && c.Valid() && c.capacity == capacity && c.lru == []
  {
    if capacity <= 0 {
      return null;
    }
    c := new TTLCache<V>(capacity);
  }

  method Position<V>(l: Recency<V>, k: Key) returns (i: nat)
    ensures i <= |l| && (i < |l| <==> k in Keys(l))
    ensures i < |l| ==> l[i].key == k
  {
    i := 0;
    while i < |l| && l[i].key != k
      invariant i <= |l| && forall j :: 0 <= j < i ==> l[j].key != k
    {
      i := i + 1;
    }
  }

  lemma {:induction false} PruneAt<V>(l: Recency<V>, k: Key, i: nat)
    requires Distinct(l) && i < |l| && l[i].key == k
    ensures Prune(l, iset{k}) == l[..i] + l[i + 1..]
    ensures Keys(l[..i] + l[i + 1..]) == Keys(l) - {k}
  {
    PruneProps(l, iset{k});
    DistinctCons(l);
    KeysCons(l);
    if i == 0 {
      PruneAbsent(l[1..], iset{k});
    } else {
      PruneAt(l[1..], k, i - 1);
      assert l[..i] + l[i + 1..] == [l[0]] + (l[1..][..i - 1] + l[1..][i..]);
    }
  }

  lemma {:induction false} PositionFinds<V>(l: Recency<V>, k: Key, i: nat)
    requires Distinct(l) && i < |l| && l[i].key == k
    ensures Find(l, k) == Some(l[i].entry)
  {
    if i > 0 {
      DistinctCons(l);
      PositionFinds(l[1..], k, i - 1);
    }
  }

  lemma PruneFront<V>(l: Recency<V>, k: Key, e: Entry<V>)
    ensures Prune([Slot(k, e)] + Prune(l, iset{k}), iset{k}) == Prune(l, iset{k})
  {
    PrunePrune(l, iset{k}, iset{k});
    assert iset{k} + iset{k} == iset{k};
    assert ([Slot(k, e)] + Prune(l, iset{k}))[1..] == Prune(l, iset{k});
  }

  lemma KeysInit<V>(l: Recency<V>)
    requires l != [] && Distinct(l)
    ensures Keys(l[..|l| - 1]) == Keys(l) - {l[|l| - 1].key}
  {
  }

  lemma {:induction false} PruneSame<V>(l: Recency<V>, a: iset<Key>, b: iset<Key>)
    requires forall k :: k in Keys(l) ==> (k in a <==> k in b)
    ensures Prune(l, a) == Prune(l, b)
  {
    if l != [] {
      KeysCons(l);
      PruneSame(l[1..], a, b);
    }
  }
}
