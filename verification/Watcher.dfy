/**
 The polling event watcher (resolver/internal/chain/events.go), driven by an arbitrary script of
 chain heads and RPC failures.
 */
module Watcher {
  import opened Namespace
  import opened Lru
  import opened TtlCache

  const MAX_BLOCK_SPAN := 2000

  /** The watched events of each block. */
  type Logs = nat -> seq<RecordEvent>

  const KINDS := [EventRecordSet, EventRecordRemoved, EventTransferred, EventRegistered]

  /** How one scan goes wrong: the filter call for a kind fails, or its iterator stops early. */
  datatype Fault = NoFault | FilterFails(kind: nat) | IteratorFails(kind: nat, delivered: nat)

  /** One tick: the head cannot be read, or it is `head` and the i-th scan suffers faults[i]. */
  datatype Tick = HeadError | Head(head: nat, faults: seq<Fault>)

  function OfKind(evs: seq<RecordEvent>, kind: EventKind): seq<RecordEvent> {
    if evs == [] then [] else (if evs[0].kind == kind then [evs[0]] else []) + OfKind(evs[1..], kind)
  }

  /** What a filter for one kind returns over the blocks lo..hi. */
  function Filtered(logs: Logs, lo: nat, hi: nat, kind: EventKind): seq<RecordEvent> {
    if lo > hi then [] else
    (if hi == 0 then [] else Filtered(logs, lo, hi - 1, kind)) + OfKind(logs(hi), kind)
  }

  /** The fault strikes the k-th filter or its iterator. */
  predicate Strikes(fault: Fault, k: nat) {
    !fault.NoFault? && fault.kind == k
  }

  /** The fault strikes one of the first k filters. */
  predicate Struck(fault: Fault, k: nat) {
    !fault.NoFault? && fault.kind < k
  }

  /** How many of `available` events the k-th iterator yields. */
  function Yield(fault: Fault, k: nat, available: nat): (n: nat)
    ensures n <= available && (!Strikes(fault, k) ==> n == available)
  {
    if fault == FilterFails(k) then 0
    else if Strikes(fault, k) && fault.delivered < available then fault.delivered
    else available
  }

  /** What the first k filters hand over, up to the first error. */
  function Yields(logs: Logs, lo: nat, hi: nat, k: nat, fault: Fault): seq<RecordEvent>
    requires k <= |KINDS|
  {
    if k == 0 then [] else
    var evs := Filtered(logs, lo, hi, KINDS[k - 1]);
    Yields(logs, lo, hi, k - 1, fault) + (if Struck(fault, k - 1) then [] else evs[..Yield(fault, k - 1, |evs|)])
  }

  /** The last block of the next scan. */
  function SpanEnd(last: nat, head: nat): (end: nat)
    requires last < head
    ensures last < end <= head && end <= last + MAX_BLOCK_SPAN
  {
    if head - last > MAX_BLOCK_SPAN then last + MAX_BLOCK_SPAN else head
  }

  /** Every event of the blocks in (from, to] is among `delivered`. */
  ghost predicate Covered(logs: Logs, from: nat, to: nat, delivered: seq<RecordEvent>) {
    forall b, ev :: from < b <= to && ev in logs(b) ==> ev in delivered
  }

  /** Only events of the blocks up to `to` are among `delivered`. */
  ghost predicate OnlyFrom(logs: Logs, from: nat, to: nat, delivered: seq<RecordEvent>) {
    forall ev :: ev in delivered ==> exists b :: from < b <= to && ev in logs(b)
  }

  lemma {:induction false} OfKindMember(evs: seq<RecordEvent>, kind: EventKind, ev: RecordEvent)
    ensures ev in OfKind(evs, kind) <==> ev in evs && ev.kind == kind
  {
    if evs != [] {
      OfKindMember(evs[1..], kind, ev);
      assert evs == [evs[0]] + evs[1..];
    }
  }

  lemma {:induction false} FilteredMember(logs: Logs, lo: nat, hi: nat, kind: EventKind, ev: RecordEvent)
    ensures ev in Filtered(logs, lo, hi, kind) <==> exists b :: lo <= b <= hi && ev in logs(b) && ev.kind == kind
  {
    if lo <= hi {
      OfKindMember(logs(hi), kind, ev);
      if hi > 0 {
        FilteredMember(logs, lo, hi - 1, kind, ev);
      }
    }
  }

  class EventWatcher<V> {
    const logs: Logs
    const cache: TTLCache<V>
    var last: nat
    ghost var delivered: seq<RecordEvent>
    /** The block ranges scanned so far. */
    ghost var scans: seq<(nat, nat)>

    constructor (logs: Logs, cache: TTLCache<V>, head: nat)
      ensures this.logs == logs && this.cache == cache
      ensures last == head && delivered == [] && scans == []
    {
      this.logs, this.cache, last := logs, cache, head;
      delivered, scans := [], [];
    }

    /** Hands the first `n` events to the cache. */
    method Hand(evs: seq<RecordEvent>, n: nat)
      requires n <= |evs| && cache.Valid()
      modifies `delivered, cache
      ensures cache.Valid() && delivered == old(delivered) + evs[..n]
      ensures cache.lru == Deliver(old(cache.lru), evs[..n])
    {
      for i := 0 to n
        invariant cache.Valid() && delivered == old(delivered) + evs[..i]
        invariant cache.lru == Deliver(old(cache.lru), evs[..i])
      {
        cache.HandleEvent(evs[i]);
        delivered := delivered + [evs[i]];
        assert evs[..i + 1] == evs[..i] + [evs[i]];
        assert (evs[..i + 1])[..i] == evs[..i];
      }
    }

    /** One filter call and its iteration. */
    method CollectKind(lo: nat, hi: nat, k: nat, fault: Fault) returns (ok: bool, ghost news: seq<RecordEvent>)
      requires cache.Valid() && k < |KINDS|
      modifies `delivered, cache
      ensures cache.Valid() && delivered == old(delivered) + news
      ensures cache.lru == Deliver(old(cache.lru), news)
      ensures ok == !Strikes(fault, k)
      ensures var evs := Filtered(logs, lo, hi, KINDS[k]); news == evs[..Yield(fault, k, |evs|)]
    {
      news := [];
      if fault == FilterFails(k) {
        return false, news;
      }
      var evs := Filtered(logs, lo, hi, KINDS[k]);
      var n := if fault.IteratorFails? && fault.kind == k && fault.delivered < |evs| then fault.delivered else |evs|;
      Hand(evs, n);
      news := evs[..n];
      ok := !(fault.IteratorFails? && fault.kind == k);
    }

    /** collectEvents: all four kinds in turn, stopping at the first error. */
    method CollectEvents(lo: nat, hi: nat, fault: Fault) returns (ok: bool, ghost news: seq<RecordEvent>)
      requires cache.Valid() && 0 < lo <= hi
      modifies `delivered, cache
      ensures cache.Valid() && delivered == old(delivered) + news
      ensures cache.lru == Deliver(old(cache.lru), news)
      ensures ok == !Struck(fault, |KINDS|) && news == Yields(logs, lo, hi, |KINDS|, fault)
      ensures OnlyFrom(logs, lo - 1, hi, news) && (ok ==> Covered(logs, lo - 1, hi, news))
    {
      YieldsCover(logs, lo, hi, fault);
      news := [];
      for k := 0 to |KINDS|
        invariant cache.Valid() && delivered == old(delivered) + news
        invariant cache.lru == Deliver(old(cache.lru), news)
        invariant !Struck(fault, k) && news == Yields(logs, lo, hi, k, fault)
      {
        ghost var more;
        ok, more := CollectKind(lo, hi, k, fault);
        DeliverConcat(old(cache.lru), news, more);
        Assoc(old(delivered), news, more);
        news := news + more;
        if !ok {
          YieldsStop(logs, lo, hi, k, |KINDS|, fault);
          return;
        }
      }
      ok := true;
    }

    /** The inner loop's body: one scan of at most 2000 blocks; `last` moves only if it succeeds. */
    method ScanOnce(head: nat, fault: Fault) returns (ok: bool, ghost news: seq<RecordEvent>)
      requires cache.Valid() && last < head
      modifies this, cache
      ensures cache.Valid() && delivered == old(delivered) + news
      ensures cache.lru == Deliver(old(cache.lru), news)
      ensures ok == !Struck(fault, |KINDS|) && last == (if ok then SpanEnd(old(last), head) else old(last))
      ensures news == Yields(logs, old(last) + 1, SpanEnd(old(last), head), |KINDS|, fault)
      ensures OnlyFrom(logs, old(last), SpanEnd(old(last), head), news) && Covered(logs, old(last), last, news)
      ensures scans == old(scans) + [(old(last) + 1, if head > old(last) + 2000 then old(last) + 2000 else head)]
    {
      var end := head;
      if end - last > MAX_BLOCK_SPAN {
        end := last + MAX_BLOCK_SPAN;
      }
      assert end == SpanEnd(last, head);
      ok, news := CollectEvents(last + 1, end, fault);
      scans := scans + [(last + 1, end)];
      if ok {
        last := end;
      }
    }

    /** One tick: scan until the head is reached or a scan fails. */
    method DoTick(tick: Tick) returns (ghost news: seq<RecordEvent>)
      requires cache.Valid() && NarrowScans(scans)
      modifies this, cache
      ensures cache.Valid() && delivered == old(delivered) + news && NarrowScans(scans)
      ensures cache.lru == Deliver(old(cache.lru), news)
      ensures old(last) <= last && Covered(logs, old(last), last, news)
      ensures tick.Head? && (forall i :: 0 <= i < |tick.faults| ==> tick.faults[i].NoFault?) ==> last >= tick.head
    {
      news := [];
      if tick.HeadError? {
        return;
      }
      var n := 0;
      while last < tick.head
        invariant cache.Valid() && delivered == old(delivered) + news && NarrowScans(scans)
        invariant cache.lru == Deliver(old(cache.lru), news)
        invariant old(last) <= last && Covered(logs, old(last), last, news)
        decreases tick.head - last
      {
        var fault := if n < |tick.faults| then tick.faults[n] else NoFault;
        ghost var from := last;
        var ok, more := ScanOnce(tick.head, fault);
        DeliverConcat(old(cache.lru), news, more);
        Assoc(old(delivered), news, more);
        CoverageExtends(logs, old(last), from, last, news, more);
        news := news + more;
        n := n + 1;
        if !ok {
          break;
        }
      }
    }

    /**
     The polling loop over any script of ticks: `last` never goes back, every event up to it has been
     handed to the cache at least once, and no scan is wider than 2000 blocks.
     */
    method Watch(ticks: seq<Tick>) returns (ghost news: seq<RecordEvent>)
      requires cache.Valid() && NarrowScans(scans)
      modifies this, cache
      ensures cache.Valid() && delivered == old(delivered) + news && NarrowScans(scans)
      ensures cache.lru == Deliver(old(cache.lru), news)
      ensures old(last) <= last && Covered(logs, old(last), last, news)
    {
      news := [];
      for t := 0 to |ticks|
        invariant cache.Valid() && delivered == old(delivered) + news && NarrowScans(scans)
        invariant cache.lru == Deliver(old(cache.lru), news)
        invariant old(last) <= last && Covered(logs, old(last), last, news)
      {
        ghost var from := last;
        var more := DoTick(ticks[t]);
        DeliverConcat(old(cache.lru), news, more);
        Assoc(old(delivered), news, more);
        CoverageExtends(logs, old(last), from, last, news, more);
        news := news + more;
      }
    }
  }

  /** Nothing is handed over after an error. */
  lemma {:induction false} YieldsStop(logs: Logs, lo: nat, hi: nat, k: nat, m: nat, fault: Fault)
    requires k < m <= |KINDS| && Strikes(fault, k)
    ensures Yields(logs, lo, hi, m, fault) == Yields(logs, lo, hi, k + 1, fault)
  {
    if k + 1 < m { YieldsStop(logs, lo, hi, k, m - 1, fault); }
  }

  lemma Assoc(a: seq<RecordEvent>, b: seq<RecordEvent>, c: seq<RecordEvent>)
    ensures (a + b) + c == a + (b + c)
  {
  }

  ghost predicate NarrowScans(scans: seq<(nat, nat)>) {
    forall i :: 0 <= i < |scans| ==> scans[i].0 <= scans[i].1 < scans[i].0 + 2000
  }

  ghost predicate CoveredKind(logs: Logs, from: nat, to: nat, kind: EventKind, delivered: seq<RecordEvent>) {
    forall b, ev :: from < b <= to && ev in logs(b) && ev.kind == kind ==> ev in delivered
  }

  lemma {:induction false} YieldsCoverKinds(logs: Logs, lo: nat, hi: nat, k: nat, fault: Fault)
    requires 0 < lo <= hi && k <= |KINDS|
    ensures var news := Yields(logs, lo, hi, k, fault);
      && OnlyFrom(logs, lo - 1, hi, news)
      && (!Struck(fault, k) ==> forall j :: 0 <= j < k ==> CoveredKind(logs, lo - 1, hi, KINDS[j], news))
  {
    if k > 0 {
      YieldsCoverKinds(logs, lo, hi, k - 1, fault);
      var evs := Filtered(logs, lo, hi, KINDS[k - 1]);
      FilteredRange(logs, lo, hi, KINDS[k - 1], Yield(fault, k - 1, |evs|));
      FilteredRange(logs, lo, hi, KINDS[k - 1], |evs|);
      assert evs[..|evs|] == evs;
    }
  }

  /** What a scan hands over comes from its blocks, and is all of their events unless it failed. */
  lemma YieldsCover(logs: Logs, lo: nat, hi: nat, fault: Fault)
    requires 0 < lo <= hi
    ensures var news := Yields(logs, lo, hi, |KINDS|, fault);
      OnlyFrom(logs, lo - 1, hi, news) && (!Struck(fault, |KINDS|) ==> Covered(logs, lo - 1, hi, news))
  {
    var news := Yields(logs, lo, hi, |KINDS|, fault);
    YieldsCoverKinds(logs, lo, hi, |KINDS|, fault);
    if !Struck(fault, |KINDS|) {
      AllKindsCovered(logs, lo - 1, hi, news);
    }
  }

  lemma AllKindsCovered(logs: Logs, from: nat, to: nat, news: seq<RecordEvent>)
    requires forall j :: 0 <= j < |KINDS| ==> CoveredKind(logs, from, to, KINDS[j], news)
    ensures Covered(logs, from, to, news)
  {
    forall b, ev | from < b <= to && ev in logs(b) ensures ev in news {
      assert ev.kind == KINDS[0] || ev.kind == KINDS[1] || ev.kind == KINDS[2] || ev.kind == KINDS[3];
      assert CoveredKind(logs, from, to, ev.kind, news);
    }
  }

  lemma CoverageExtends(logs: Logs, from: nat, mid: nat, to: nat, a: seq<RecordEvent>, b: seq<RecordEvent>)
    requires from <= mid <= to && Covered(logs, from, mid, a) && Covered(logs, mid, to, b)
    ensures Covered(logs, from, to, a + b)
  {
  }

  lemma FilteredRange(logs: Logs, lo: nat, hi: nat, kind: EventKind, n: nat)
    requires 0 < lo && n <= |Filtered(logs, lo, hi, kind)|
    ensures OnlyFrom(logs, lo - 1, hi, Filtered(logs, lo, hi, kind)[..n])
    ensures CoveredKind(logs, lo - 1, hi, kind, Filtered(logs, lo, hi, kind))
  {
    var evs := Filtered(logs, lo, hi, kind);
    forall ev | ev in evs[..n] ensures exists b :: lo - 1 < b <= hi && ev in logs(b) {
      FilteredMember(logs, lo, hi, kind, ev);
      var b :| lo <= b <= hi && ev in logs(b) && ev.kind == kind;
    }
    forall b, ev | lo - 1 < b <= hi && ev in logs(b) && ev.kind == kind ensures ev in evs {
      FilteredMember(logs, lo, hi, kind, ev);
    }
  }

  /** What a scan yields depends on the scanned blocks only. */
  lemma {:induction false} FilteredSame(logs: Logs, logs': Logs, lo: nat, hi: nat, kind: EventKind)
    requires forall b :: lo <= b <= hi ==> logs(b) == logs'(b)
    ensures Filtered(logs, lo, hi, kind) == Filtered(logs', lo, hi, kind)
  {
    if lo <= hi {
      var last, last' := OfKind(logs(hi), kind), OfKind(logs'(hi), kind);
      assert last == last';
      if hi > 0 {
        FilteredSame(logs, logs', lo, hi - 1, kind);
        assert Filtered(logs, lo, hi, kind) == Filtered(logs, lo, hi - 1, kind) + last;
      }
    }
  }

  lemma {:induction false} YieldsSame(logs: Logs, logs': Logs, lo: nat, hi: nat, k: nat, fault: Fault)
    requires k <= |KINDS| && forall b :: lo <= b <= hi ==> logs(b) == logs'(b)
    ensures Yields(logs, lo, hi, k, fault) == Yields(logs', lo, hi, k, fault)
  {
    if k > 0 {
      FilteredSame(logs, logs', lo, hi, KINDS[k - 1]);
      YieldsSame(logs, logs', lo, hi, k - 1, fault);
    }
  }

  lemma {:induction false} DeliverConcat<V>(l: Recency<V>, a: seq<RecordEvent>, b: seq<RecordEvent>)
    ensures Deliver(l, a + b) == Deliver(Deliver(l, a), b)
  {
    if b == [] {
      assert a + b == a;
    } else {
      DeliverConcat(l, a, b[..|b| - 1]);
      assert (a + b)[..|a + b| - 1] == a + b[..|b| - 1];
    }
  }
}
