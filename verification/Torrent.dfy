/**
 Torrent retention (resolver/internal/torrent/torrent.go): pins, reference counts and a bounded
 FIFO, under every interleaving of the steps that hold the engine's lock. A drop is recorded when
 it is decided; the call into the torrent client happens later, outside the lock.
 */
module Torrent {
  import opened Bytes

  type InfoHash = Text

  const MAX_RETAINED := 256

  /** The engine's bookkeeping; a hash missing from `inUse` has no reader. */
  datatype Books = Books(pinned: set<InfoHash>, retained: seq<InfoHash>, inUse: map<InfoHash, nat>)

  function Readers(b: Books, ih: InfoHash): nat {
    if ih in b.inUse then b.inUse[ih] else 0
  }

  // ---------------------------------------------------------------- lock-held steps

  function Acquired(b: Books, ih: InfoHash): Books {
    b.(inUse := b.inUse[ih := Readers(b, ih) + 1])
  }

  function Released(b: Books, ih: InfoHash): Books {
    var n := Readers(b, ih);
    if n <= 1 then b.(inUse := b.inUse - {ih}) else b.(inUse := b.inUse[ih := n - 1])
  }

  /** release drops the torrent when its last reader leaves and nothing pins it. */
  predicate ReleaseDrops(b: Books, ih: InfoHash) {
    Readers(b, ih) <= 1 && ih !in b.pinned
  }

  function Appended(b: Books, ih: InfoHash): Books {
    if ih in b.pinned then b else b.(pinned := b.pinned + {ih}, retained := b.retained + [ih])
  }

  /** Unpin the oldest retentions until the bound holds. */
  function Trimmed(b: Books): Books
    decreases |b.retained|
  {
    if |b.retained| <= MAX_RETAINED then b
    else Trimmed(b.(pinned := b.pinned - {b.retained[0]}, retained := b.retained[1..]))
  }

  /** The unpinned torrents nobody is reading. */
  function TrimDrops(b: Books): seq<InfoHash>
    decreases |b.retained|
  {
    if |b.retained| <= MAX_RETAINED then []
    else
      var oldest := b.retained[0];
      (if Readers(b, oldest) == 0 then [oldest] else []) +
      TrimDrops(b.(pinned := b.pinned - {oldest}, retained := b.retained[1..]))
  }

  lemma SeqAssoc(a: seq<InfoHash>, b: seq<InfoHash>, c: seq<InfoHash>)
    ensures (a + b) + c == a + (b + c)
  {
  }

  lemma TrimStep(b: Books)
    requires |b.retained| > MAX_RETAINED
    ensures var oldest := b.retained[0];
      var b' := b.(pinned := b.pinned - {oldest}, retained := b.retained[1..]);
      && Trimmed(b) == Trimmed(b')
      && TrimDrops(b) == (if Readers(b, oldest) == 0 then [oldest] else []) + TrimDrops(b')
  {
  }

  // -------------------------------------------------------------- the state machine

  /** The bookkeeping with the fetches in flight and the torrents not (decided to be) dropped. */
  datatype Swarm = Swarm(books: Books, flights: multiset<InfoHash>, resident: set<InfoHash>)

  /** A fetch begins, may retain what it verified, and ends; a seed pins. */
  datatype Action = Seed(ih: InfoHash) | Begin(ih: InfoHash) | Keep(ih: InfoHash) | End(ih: InfoHash)

  predicate Enabled(s: Swarm, a: Action) {
    a.Keep? || a.End? ==> a.ih in s.flights
  }

  function Act(s: Swarm, a: Action): Swarm {
    match a
    case Seed(ih) =>
      s.(books := s.books.(pinned := s.books.pinned + {ih}), resident := s.resident + {ih})
    case Begin(ih) =>
      Swarm(Acquired(s.books, ih), s.flights + multiset{ih}, s.resident + {ih})
    case Keep(ih) =>
      var b := Appended(s.books, ih);
      s.(books := Trimmed(b), resident := s.resident + {ih} - (set d | d in TrimDrops(b)))
    case End(ih) =>
      Swarm(Released(s.books, ih), s.flights - multiset{ih},
            if ReleaseDrops(s.books, ih) then s.resident - {ih} else s.resident)
  }

  predicate NoRepeats(hs: seq<InfoHash>) {
    forall i, j :: 0 <= i < j < |hs| ==> hs[i] != hs[j]
  }

  /**
   Reference counts are exact; retentions are distinct, pinned and bounded; and a torrent is kept
   exactly while it is pinned or read, so none is dropped early and none is leaked.
   */
  ghost predicate SwarmInv(s: Swarm) {
    && (forall h :: h in s.books.inUse <==> h in s.flights)
    && (forall h :: h in s.books.inUse ==> s.books.inUse[h] == s.flights[h])
    && NoRepeats(s.books.retained)
    && (forall h :: h in s.books.retained ==> h in s.books.pinned)
    && |s.books.retained| <= MAX_RETAINED
    && s.resident == s.books.pinned + s.books.inUse.Keys
  }

  lemma KeepStep(b: Books, ih: InfoHash)
    requires NoRepeats(b.retained) && |b.retained| <= MAX_RETAINED
    requires forall h :: h in b.retained ==> h in b.pinned
    ensures var a := Appended(b, ih);
      && NoRepeats(Trimmed(a).retained) && |Trimmed(a).retained| <= MAX_RETAINED
      && (forall h :: h in Trimmed(a).retained ==> h in Trimmed(a).pinned)
      && Trimmed(a).inUse == b.inUse
      && (if ih in b.pinned || |b.retained| < MAX_RETAINED
          then Trimmed(a) == a && TrimDrops(a) == []
          else && Trimmed(a) == a.(pinned := a.pinned - {b.retained[0]}, retained := a.retained[1..])
               && TrimDrops(a) == if Readers(b, b.retained[0]) == 0 then [b.retained[0]] else [])
  {
    var a := Appended(b, ih);
    assert ih !in b.pinned ==> ih !in b.retained;
    if ih !in b.pinned && |b.retained| == MAX_RETAINED {
      var t := a.(pinned := a.pinned - {a.retained[0]}, retained := a.retained[1..]);
      assert Trimmed(t) == t && TrimDrops(t) == [];
      assert a.retained[0] == b.retained[0];
      forall h | h in t.retained ensures h in t.pinned {
        var i :| 0 <= i < |t.retained| && t.retained[i] == h;
        assert a.retained[i + 1] == h && h != a.retained[0];
        assert h in b.retained || h == ih;
      }
    }
  }

  lemma KeepKeeps(s: Swarm, ih: InfoHash)
    requires SwarmInv(s) && ih in s.flights
    ensures SwarmInv(Act(s, Keep(ih)))
  {
    KeepStep(s.books, ih);
    assert ih in s.books.inUse;
  }

  lemma ActKeeps(s: Swarm, a: Action)
    requires SwarmInv(s) && Enabled(s, a)
    ensures SwarmInv(Act(s, a))
  {
    if a.Keep? { KeepKeeps(s, a.ih); }
  }

  function Run(s: Swarm, actions: seq<Action>): Swarm {
    if actions == [] then s else Act(Run(s, actions[..|actions| - 1]), actions[|actions| - 1])
  }

  predicate AllEnabled(s: Swarm, actions: seq<Action>) {
    actions == [] ||
      (AllEnabled(s, actions[..|actions| - 1]) && Enabled(Run(s, actions[..|actions| - 1]), actions[|actions| - 1]))
  }

  const IDLE := Swarm(Books({}, [], map[]), multiset{}, {})

  /** The invariant holds in every reachable state. */
  lemma {:induction false} RunKeeps(actions: seq<Action>)
    requires AllEnabled(IDLE, actions)
    ensures SwarmInv(Run(IDLE, actions)) && |Run(IDLE, actions).books.retained| <= 256
  {
    if actions != [] {
      RunKeeps(actions[..|actions| - 1]);
      ActKeeps(Run(IDLE, actions[..|actions| - 1]), actions[|actions| - 1]);
    }
  }

  /** Retaining a torrent that is pinned already changes nothing: it keeps its place, and nothing is dropped. */
  lemma RetainAgain(b: Books, ih: InfoHash)
    requires ih in b.pinned && |b.retained| <= 256
    ensures Trimmed(Appended(b, ih)) == b && TrimDrops(Appended(b, ih)) == []
  {
  }

  /** A drop is decided only for a torrent without reader and without pin. */
  lemma DropsAreSafe(s: Swarm, a: Action, h: InfoHash)
    requires SwarmInv(s) && Enabled(s, a) && h in s.resident && h !in Act(s, a).resident
    ensures h !in Act(s, a).flights && h !in Act(s, a).books.pinned
  {
    ActKeeps(s, a);
  }

  /** The last reader of a torrent evicted meanwhile drops it, unless it was pinned again. */
  lemma LastReaderDecides(s: Swarm, ih: InfoHash)
    requires SwarmInv(s) && s.flights[ih] == 1
    ensures ih in s.resident
    ensures ih in Act(s, End(ih)).resident <==> ih in s.books.pinned
  {
  }

  // ------------------------------------------------------------------ seeded torrents

  /** Pinned, and out of reach of the FIFO. */
  predicate Permanent(s: Swarm, h: InfoHash) {
    h in s.books.pinned && h !in s.books.retained
  }

  lemma ActKeepsPermanent(s: Swarm, a: Action, h: InfoHash)
    requires SwarmInv(s) && Enabled(s, a) && Permanent(s, h)
    ensures Permanent(Act(s, a), h)
  {
    if a.Keep? {
      KeepStep(s.books, a.ih);
    }
  }

  /** A torrent seeded while not among the retained ones stays pinned for good. */
  lemma {:induction false} SeededStaysPinned(s: Swarm, h: InfoHash, actions: seq<Action>)
    requires SwarmInv(s) && h !in s.books.retained
    requires AllEnabled(Act(s, Seed(h)), actions)
    ensures Permanent(Run(Act(s, Seed(h)), actions), h) && SwarmInv(Run(Act(s, Seed(h)), actions))
  {
    if actions == [] {
      ActKeeps(s, Seed(h));
    } else {
      var before := actions[..|actions| - 1];
      SeededStaysPinned(s, h, before);
      ActKeeps(Run(Act(s, Seed(h)), before), actions[|actions| - 1]);
      ActKeepsPermanent(Run(Act(s, Seed(h)), before), actions[|actions| - 1], h);
    }
  }

  /** Retaining the hashes `hs` one after the other. */
  function RetainAll(b: Books, hs: seq<InfoHash>): Books {
    if hs == [] then b else Trimmed(Appended(RetainAll(b, hs[..|hs| - 1]), hs[|hs| - 1]))
  }

  function Newest(hs: seq<InfoHash>): seq<InfoHash> {
    if |hs| <= 256 then hs else hs[|hs| - 256..]
  }

  function Dropped(hs: seq<InfoHash>): seq<InfoHash> {
    hs[..|hs| - |Newest(hs)|]
  }

  predicate Clean(b: Books) {
    && NoRepeats(b.retained) && |b.retained| <= MAX_RETAINED
    && forall h :: h in b.retained ==> h in b.pinned
  }

  lemma NewestSnoc(older: seq<InfoHash>, ih: InfoHash)
    ensures |older| < MAX_RETAINED ==>
      Newest(older + [ih]) == older + [ih] && Newest(older) == older && Dropped(older) == Dropped(older + [ih]) == []
    ensures |older| >= MAX_RETAINED ==>
      && |Newest(older)| == MAX_RETAINED
      && Newest(older + [ih]) == (Newest(older) + [ih])[1..]
      && Dropped(older + [ih]) == Dropped(older) + [Newest(older)[0]]
  {
  }

  /** `h` is pinned if it was before or is one of `hs`, and has not been pushed out of `all`. */
  predicate PinnedUnlessDropped(b: Books, pins: set<InfoHash>, hs: seq<InfoHash>, all: seq<InfoHash>, h: InfoHash) {
    h in b.pinned <==> (h in pins || h in hs) && h !in Dropped(all)
  }

  lemma RetainOne(m: Books, pins: set<InfoHash>, before: seq<InfoHash>, older: seq<InfoHash>, ih: InfoHash, h: InfoHash)
    requires Clean(m) && m.retained == Newest(older) && PinnedUnlessDropped(m, pins, before, older, h)
    requires ih !in m.pinned && ih !in older
    ensures var m' := Trimmed(Appended(m, ih));
      && Clean(m') && m'.retained == Newest(older + [ih])
      && PinnedUnlessDropped(m', pins, before + [ih], older + [ih], h)
  {
    KeepStep(m, ih);
    NewestSnoc(older, ih);
  }

  /** After retaining new hashes the FIFO holds the newest 256 and exactly the older ones are unpinned. */
  lemma {:induction false} RetainedAreNewest(b: Books, hs: seq<InfoHash>, h: InfoHash)
    requires Clean(b) && NoRepeats(hs) && forall x :: x in hs ==> x !in b.pinned
    ensures var all, b' := b.retained + hs, RetainAll(b, hs);
      Clean(b') && b'.retained == Newest(all) && PinnedUnlessDropped(b', b.pinned, hs, all, h)
  {
    if hs == [] {
      assert b.retained + hs == b.retained;
    } else {
      var n := |hs| - 1;
      var before, ih := hs[..n], hs[n];
      NotAmongEarlier(hs);
      RetainedAreNewest(b, before, h);
      RetainedAreNewest(b, before, ih);
      RetainOne(RetainAll(b, before), b.pinned, before, b.retained + before, ih, h);
      assert hs == before + [ih] && b.retained + hs == b.retained + before + [ih];
    }
  }

  lemma NotAmongEarlier(hs: seq<InfoHash>)
    requires NoRepeats(hs) && hs != []
    ensures NoRepeats(hs[..|hs| - 1]) && hs[|hs| - 1] !in hs[..|hs| - 1]
  {
  }

  /** Fetches that verify and retain each of `hs` in turn. */
  function KeepAll(hs: seq<InfoHash>): seq<Action> {
    if hs == [] then [] else
    var ih := hs[|hs| - 1];
    KeepAll(hs[..|hs| - 1]) + [Begin(ih)] + [Keep(ih)]
  }

  lemma RunOne(s: Swarm, actions: seq<Action>, a: Action)
    ensures Run(s, actions + [a]) == Act(Run(s, actions), a)
    ensures AllEnabled(s, actions + [a]) <==> AllEnabled(s, actions) && Enabled(Run(s, actions), a)
  {
    assert (actions + [a])[..|actions|] == actions;
  }

  predicate SamePins(b: Books, b': Books) {
    b.pinned == b'.pinned && b.retained == b'.retained
  }

  /** Such fetches are possible at any time, and treat the pins as the retentions alone would. */
  lemma {:induction false} KeepAllRuns(s: Swarm, hs: seq<InfoHash>)
    requires SwarmInv(s)
    ensures AllEnabled(s, KeepAll(hs)) && SwarmInv(Run(s, KeepAll(hs)))
    ensures SamePins(Run(s, KeepAll(hs)).books, RetainAll(s.books, hs))
  {
    if hs != [] {
      var before, ih := hs[..|hs| - 1], hs[|hs| - 1];
      KeepAllRuns(s, before);
      RunOne(s, KeepAll(before), Begin(ih));
      RunOne(s, KeepAll(before) + [Begin(ih)], Keep(ih));
      var s1 := Run(s, KeepAll(before));
      var s2 := Act(s1, Begin(ih));
      ActKeeps(s1, Begin(ih));
      ActKeeps(s2, Keep(ih));
      KeepStep(s2.books, ih);
      KeepStep(RetainAll(s.books, before), ih);
    }
  }

  lemma {:induction false} LengthBound(hs: set<InfoHash>) returns (m: nat)
    ensures forall h :: h in hs ==> |h| <= m
  {
    m := 0;
    if hs != {} {
      var h :| h in hs;
      m := LengthBound(hs - {h});
      if m < |h| { m := |h|; }
    }
  }

  function Zeros(n: nat): (h: InfoHash)
    ensures |h| == n
  {
    seq(n, _ => 0)
  }

  /** As many hashes as the FIFO holds, none of them in `pins`. */
  lemma NewHashes(pins: set<InfoHash>) returns (hs: seq<InfoHash>)
    ensures |hs| == MAX_RETAINED && NoRepeats(hs) && forall x :: x in hs ==> x !in pins
  {
    var m := LengthBound(pins);
    hs := seq(MAX_RETAINED, i requires 0 <= i < MAX_RETAINED => Zeros(m + 1 + i));
    forall i | 0 <= i < |hs| ensures |hs[i]| == m + 1 + i {
      assert hs[i] == Zeros(m + 1 + i);
    }
  }

  /** A torrent seeded while already retained loses its pin to 256 fetches of other torrents. */
  lemma SeededWhileRetainedIsEvicted(s: Swarm, h: InfoHash) returns (actions: seq<Action>)
    requires SwarmInv(s) && h in s.books.retained
    ensures AllEnabled(Act(s, Seed(h)), actions) && h !in Run(Act(s, Seed(h)), actions).books.pinned
  {
    var seeded := Act(s, Seed(h));
    ActKeeps(s, Seed(h));
    var b := seeded.books;
    var hs := NewHashes(b.pinned);
    RetainedAreNewest(b, hs, h);
    assert Dropped(b.retained + hs) == b.retained;
    KeepAllRuns(seeded, hs);
    actions := KeepAll(hs);
  }

  /** A seeded torrent keeps its pin over every later run exactly if it was not among the retained ones. */
  lemma SeededStaysPinnedExactly(s: Swarm, h: InfoHash)
    requires SwarmInv(s)
    ensures (forall actions :: AllEnabled(Act(s, Seed(h)), actions) ==> h in Run(Act(s, Seed(h)), actions).books.pinned)
      <==> h !in s.books.retained
  {
    if h in s.books.retained {
      var actions := SeededWhileRetainedIsEvicted(s, h);
    } else {
      forall actions | AllEnabled(Act(s, Seed(h)), actions) ensures h in Run(Act(s, Seed(h)), actions).books.pinned {
        SeededStaysPinned(s, h, actions);
      }
    }
  }

  // -------------------------------------------------------------------- the engine

  class Engine {
    var pinned: set<InfoHash>
    var retained: seq<InfoHash>
    var inUse: map<InfoHash, nat>

    ghost function State(): Books
      reads this
    {
      Books(pinned, retained, inUse)
    }

    constructor ()
      ensures State() == IDLE.books
    {
      pinned, retained, inUse := {}, [], map[];
    }

    method Pin(ih: InfoHash)
      modifies this
      ensures State() == old(State()).(pinned := old(pinned) + {ih})
    {
      pinned := pinned + {ih};
    }

    method Acquire(ih: InfoHash)
      modifies this
      ensures State() == Acquired(old(State()), ih)
    {
      inUse := inUse[ih := (if ih in inUse then inUse[ih] else 0) + 1];
    }

    method Release(ih: InfoHash) returns (drop: bool)
      modifies this
      ensures State() == Released(old(State()), ih)
      ensures drop == ReleaseDrops(old(State()), ih)
    {
      if ih in inUse && inUse[ih] > 0 {
        inUse := inUse[ih := inUse[ih] - 1];
      }
      var n := if ih in inUse then inUse[ih] else 0;
      drop := n == 0 && ih !in pinned;
      if n == 0 {
        inUse := inUse - {ih};
      }
    }

    method Retain(ih: InfoHash) returns (toDrop: seq<InfoHash>)
      modifies this
      ensures State() == Trimmed(Appended(old(State()), ih))
      ensures toDrop == TrimDrops(Appended(old(State()), ih))
    {
      toDrop := [];
      if ih !in pinned {
        pinned := pinned + {ih};
        retained := retained + [ih];
      }
      ghost var start := State();
      while |retained| > MAX_RETAINED
        invariant Trimmed(State()) == Trimmed(start)
        invariant toDrop + TrimDrops(State()) == TrimDrops(start)
        decreases |retained|
      {
        TrimStep(State());
        ghost var before := toDrop;
        var oldest := retained[0];
        ghost var one := if Readers(State(), oldest) == 0 then [oldest] else [];
        retained := retained[1..];
        pinned := pinned - {oldest};
        if oldest !in inUse || inUse[oldest] == 0 {
          toDrop := toDrop + [oldest];
        }
        assert toDrop == before + one;
        SeqAssoc(before, one, TrimDrops(State()));
      }
    }

    /** The deferred end of a fetch: keep a verified resource, then stop reading. */
    method EndFetch(ih: InfoHash, keep: bool) returns (toDrop: seq<InfoHash>, drop: bool)
      modifies this
      ensures var b := if keep then Trimmed(Appended(old(State()), ih)) else old(State());
        && State() == Released(b, ih) && drop == ReleaseDrops(b, ih)
        && toDrop == if keep then TrimDrops(Appended(old(State()), ih)) else []
    {
      toDrop := [];
      if keep {
        toDrop := Retain(ih);
      }
      drop := Release(ih);
    }
  }
}
