/**
 Where the namespace's answers come from, in terms of the calls of a run: the record a lookup finds
 is the one the latest write put there, and resolve names the holder the latest title gave.
 */
module Provenance {
  import opened Bytes
  import opened Digests
  import opened Records
  import opened Namespace
  import opened NamespaceProofs
  import opened Ownership

  // ------------------------------------------------------------------ records

  /** A call that writes or deletes the record of this name, type and selector. */
  predicate Touches(op: Op, name: Text, recordType: Text, selector: Text) {
    (op.SetRecord? || op.RemoveRecord?) && op.name == name && op.recordType == recordType && op.selector == selector
  }

  /** The i-th call of the run is carried out. */
  predicate DoneAt(s: State, calls: seq<Call>, i: nat)
    requires i < |calls|
  {
    Step(After(s, calls[..i]), calls[i]).Done?
  }

  /** If calls[j] is carried out, it does not touch the record. */
  predicate Quiet(s: State, calls: seq<Call>, j: nat, name: Text, recordType: Text, selector: Text)
    requires j < |calls|
  {
    DoneAt(s, calls, j) ==> !Touches(calls[j].op, name, recordType, selector)
  }

  /** calls[i] wrote the record of this name, type and selector, and nothing has touched it since. */
  predicate LatestWrite(s: State, calls: seq<Call>, i: nat, name: Text, recordType: Text, selector: Text) {
    && i < |calls| && DoneAt(s, calls, i)
    && calls[i].op.SetRecord? && Touches(calls[i].op, name, recordType, selector)
    && forall j :: i < j < |calls| ==> Quiet(s, calls, j, name, recordType, selector)
  }

  /** `r` is what the call asked to store, field by field. */
  predicate Wrote(r: Record, op: Op)
    requires op.SetRecord?
  {
    && r.present
    && r.recordType == op.recordType && r.selector == op.selector
    && r.fieldNames == op.fieldNames && r.fieldValues == op.fieldValues
    && r.ttl == op.ttl && r.ownerSig == op.ownerSig && r.commitment == op.word
  }

  lemma RecordNext(s: State, c: Call, name: Text, recordType: Text, selector: Text)
    ensures var h, k := OfText(name), KeyOf(recordType, selector);
      var n, n' := At(s, h), At(Next(s, c), h);
      if Step(s, c).Done? && Touches(c.op, name, recordType, selector)
      then (if c.op.SetRecord?
            then k in n'.records && Wrote(n'.records[k], c.op) && n'.records[k].generation == n.domain.generation
            else k !in n'.records)
      else (k in n'.records <==> k in n.records) && (k in n.records ==> n'.records[k] == n.records[k])
  {
    AtNext(s, c, OfText(name));
  }

  lemma DoneBefore(s: State, calls: seq<Call>, j: nat)
    requires j < |calls| - 1
    ensures DoneAt(s, calls[..|calls| - 1], j) <==> DoneAt(s, calls, j)
  {
    assert calls[..|calls| - 1][..j] == calls[..j];
  }

  lemma QuietBefore(s: State, calls: seq<Call>, j: nat, name: Text, recordType: Text, selector: Text)
    requires j < |calls| - 1
    ensures Quiet(s, calls[..|calls| - 1], j, name, recordType, selector) <==>
      Quiet(s, calls, j, name, recordType, selector)
  {
    DoneBefore(s, calls, j);
  }

  lemma WriteExtends(s: State, calls: seq<Call>, i: nat, name: Text, recordType: Text, selector: Text)
    requires calls != [] && i < |calls| - 1
    requires Quiet(s, calls, |calls| - 1, name, recordType, selector)
    ensures LatestWrite(s, calls[..|calls| - 1], i, name, recordType, selector) <==>
      LatestWrite(s, calls, i, name, recordType, selector)
  {
    var before := calls[..|calls| - 1];
    DoneBefore(s, calls, i);
    forall j | 0 <= j < |before|
      ensures Quiet(s, before, j, name, recordType, selector) <==> Quiet(s, calls, j, name, recordType, selector)
    {
      QuietBefore(s, calls, j, name, recordType, selector);
    }
  }

  lemma WriteIsLast(s: State, calls: seq<Call>, j: nat, name: Text, recordType: Text, selector: Text)
    requires calls != [] && !Quiet(s, calls, |calls| - 1, name, recordType, selector)
    ensures LatestWrite(s, calls, j, name, recordType, selector) <==>
      j == |calls| - 1 && calls[|calls| - 1].op.SetRecord?
  {
  }

  /** The stored record is what the latest write asked for, under the generation of that moment. */
  predicate StoredBy(s: State, calls: seq<Call>, i: nat, name: Text, recordType: Text, selector: Text, r: Record) {
    && LatestWrite(s, calls, i, name, recordType, selector) && Wrote(r, calls[i].op)
    && r.generation == BumpCount(s, calls[..i], OfText(name)) % U64
  }

  /** A record is stored exactly if some write of it is the latest. */
  lemma {:induction false} StoredByLatest(s0: State, calls: seq<Call>, name: Text, recordType: Text, selector: Text)
    returns (i: nat)
    requires Initial(s0)
    ensures var records, k := At(After(s0, calls), OfText(name)).records, KeyOf(recordType, selector);
      if k in records then StoredBy(s0, calls, i, name, recordType, selector, records[k])
      else forall j :: !LatestWrite(s0, calls, j, name, recordType, selector)
  {
    i := 0;
    if calls != [] {
      var n := |calls| - 1;
      var s, c := After(s0, calls[..n]), calls[n];
      i := StoredByLatest(s0, calls[..n], name, recordType, selector);
      RecordNext(s, c, name, recordType, selector);
      if Quiet(s0, calls, n, name, recordType, selector) {
        StoredStays(s0, calls, i, name, recordType, selector);
      } else {
        forall j: nat ensures LatestWrite(s0, calls, j, name, recordType, selector) <==> j == n && c.op.SetRecord? {
          WriteIsLast(s0, calls, j, name, recordType, selector);
        }
        i := n;
        RunTracks(s0, calls[..n], OfText(name), KeyOf(recordType, selector));
      }
    }
  }

  lemma StoredStays(s: State, calls: seq<Call>, i: nat, name: Text, recordType: Text, selector: Text)
    requires calls != [] && Quiet(s, calls, |calls| - 1, name, recordType, selector)
    ensures forall r :: StoredBy(s, calls[..|calls| - 1], i, name, recordType, selector, r) ==>
      StoredBy(s, calls, i, name, recordType, selector, r)
    ensures forall j: nat :: LatestWrite(s, calls, j, name, recordType, selector) ==>
      LatestWrite(s, calls[..|calls| - 1], j, name, recordType, selector)
  {
    var n := |calls| - 1;
    forall j: nat
      ensures LatestWrite(s, calls[..n], j, name, recordType, selector) <==>
        LatestWrite(s, calls, j, name, recordType, selector)
    {
      if j < n { WriteExtends(s, calls, j, name, recordType, selector); }
    }
    if i < n { assert calls[..n][..i] == calls[..i]; }
  }

  lemma {:induction false} BumpsGrow(s: State, calls: seq<Call>, i: nat, h: Digest)
    requires i <= |calls|
    ensures BumpCount(s, calls[..i], h) <= BumpCount(s, calls, h)
  {
    if i < |calls| {
      BumpsGrow(s, calls[..|calls| - 1], i, h);
      assert calls[..|calls| - 1][..i] == calls[..i];
    } else {
      assert calls[..i] == calls;
    }
  }

  /** The generation has the same 64-bit value as when calls[i] was made; without a wrap, nothing bumped it since. */
  predicate SameGeneration(s: State, calls: seq<Call>, i: nat, h: Digest)
    requires i <= |calls|
  {
    BumpCount(s, calls[..i], h) % U64 == BumpCount(s, calls, h) % U64
  }

  /** Some write of the record is the latest and still has the current generation. */
  ghost predicate Standing(s: State, calls: seq<Call>, name: Text, recordType: Text, selector: Text) {
    exists j :: LatestWrite(s, calls, j, name, recordType, selector) && SameGeneration(s, calls, j, OfText(name))
  }

  lemma SameWrite(s: State, calls: seq<Call>, i: nat, j: nat, name: Text, recordType: Text, selector: Text)
    requires LatestWrite(s, calls, i, name, recordType, selector)
    requires LatestWrite(s, calls, j, name, recordType, selector)
    ensures i == j
  {
    var quiet := Quiet(s, calls, if i < j then j else i, name, recordType, selector);
  }

  lemma StandingExactly(s0: State, calls: seq<Call>, name: Text, recordType: Text, selector: Text, i: nat)
    requires LatestWrite(s0, calls, i, name, recordType, selector)
    ensures Standing(s0, calls, name, recordType, selector) <==> SameGeneration(s0, calls, i, OfText(name))
    ensures BumpCount(s0, calls, OfText(name)) < U64 && SameGeneration(s0, calls, i, OfText(name)) ==>
      BumpCount(s0, calls[..i], OfText(name)) == BumpCount(s0, calls, OfText(name))
  {
    forall j: nat | LatestWrite(s0, calls, j, name, recordType, selector) ensures j == i {
      SameWrite(s0, calls, i, j, name, recordType, selector);
    }
    BumpsGrow(s0, calls, i, OfText(name));
    SmallSame(BumpCount(s0, calls[..i], OfText(name)), BumpCount(s0, calls, OfText(name)));
  }

  lemma SmallSame(a: nat, b: nat)
    ensures a <= b < U64 && a % U64 == b % U64 ==> a == b
  {
  }

  lemma LiveExactly(s0: State, calls: seq<Call>, name: Text, recordType: Text, selector: Text) returns (i: nat)
    requires Initial(s0)
    ensures var n, k := At(After(s0, calls), OfText(name)), KeyOf(recordType, selector);
      && (k in Live(n) <==> Standing(s0, calls, name, recordType, selector))
      && (k in Live(n) ==> StoredBy(s0, calls, i, name, recordType, selector, Live(n)[k]))
  {
    var h, k := OfText(name), KeyOf(recordType, selector);
    var n := At(After(s0, calls), h);
    i := StoredByLatest(s0, calls, name, recordType, selector);
    assert n.domain.generation == BumpCount(s0, calls, h) % U64 by { RunTracks(s0, calls, h, k); }
    if k in n.records {
      StandingExactly(s0, calls, name, recordType, selector, i);
    }
  }

  /**
   Over every run, a lookup finds a record exactly if the name is held and the latest write of that
   name, type and selector still has the current generation; and then it finds what that call asked
   to store, field by field.
   */
  lemma FoundWasWritten(s0: State, calls: seq<Call>, name: Text, recordType: Text, selector: Text, now: Time)
    returns (i: nat)
    requires Initial(s0)
    ensures var s, h := After(s0, calls), OfText(name);
      var r, d := Lookup(s, name, recordType, selector, now), At(s, h).domain;
      && (r.present <==>
            d.owner != ZERO_ADDRESS && now <= d.expiry && Standing(s0, calls, name, recordType, selector))
      && (r.present ==> StoredBy(s0, calls, i, name, recordType, selector, r))
      && (r.present && BumpCount(s0, calls, h) < U64 ==> BumpCount(s0, calls[..i], h) == BumpCount(s0, calls, h))
      && (!r.present ==> r == ZERO_RECORD)
  {
    var s, h, k := After(s0, calls), OfText(name), KeyOf(recordType, selector);
    i := LiveExactly(s0, calls, name, recordType, selector);
    assert Lookup(s, name, recordType, selector, now) == Found(Live(At(s, h)), k, Active(At(s, h).domain, now)) by {
      RunInv(s0, calls);
      LookupIsLive(s, name, recordType, selector, now);
    }
    if k in Live(At(s, h)) {
      StandingExactly(s0, calls, name, recordType, selector, i);
    }
  }

  // ------------------------------------------------------------------ identity

  /**
   Over every run, resolve answers for a held name with the account and key that the latest
   registration or transfer gave, and for any other name with nobody.
   */
  lemma ResolveNamesHolder(s0: State, calls: seq<Call>, name: Text, recordType: Text, selector: Text, now: Time)
    returns (t: nat)
    requires Initial(s0)
    ensures var s, h := After(s0, calls), OfText(name);
      var r, d := Resolve(s, name, recordType, selector, now), At(s, h).domain;
      && r.record == Lookup(s, name, recordType, selector, now)
      && (if d.owner != ZERO_ADDRESS && now <= d.expiry
          then && Latest(s0, calls, t, h, true)
               && (if calls[t].op.Register?
                   then r.owner == calls[t].sender && r.pubKey == calls[t].op.pubKey
                   else calls[t].op.Transfer? && r.owner == calls[t].op.newOwner && r.pubKey == calls[t].op.newPubKey)
          else r.owner == ZERO_ADDRESS && r.pubKey == [])
  {
    var i;
    i, t := LeaseWasBought(s0, calls, OfText(name));
  }

  // -------------------------------------------------------------------- events

  /**
   A call that is carried out emits one watched event if it registers, transfers, writes or deletes,
   and none otherwise; a transfer names the domain by its hash only.
   */
  lemma EventExactly(s: State, c: Call)
    requires Step(s, c).Done?
    ensures var evs := Step(s, c).events;
      && (c.op.Commit? || c.op.Renew? || c.op.DeclareType? <==> evs == [])
      && (evs != [] ==>
            && |evs| == 1 && evs[0].nameHash == OfText(c.op.name)
            && evs[0].name == (if c.op.Transfer? then [] else c.op.name)
            && (evs[0].kind.EventRegistered? <==> c.op.Register?)
            && (evs[0].kind.EventTransferred? <==> c.op.Transfer?)
            && (evs[0].kind.EventRecordSet? <==> c.op.SetRecord?)
            && (evs[0].kind.EventRecordRemoved? <==> c.op.RemoveRecord?))
  {
  }
}
