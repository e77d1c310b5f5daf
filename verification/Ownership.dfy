/**
 Ownership, commit-reveal and expiry over whole runs of the namespace.
 */
module Ownership {
  import opened Options
  import opened Bytes
  import opened Digests
  import opened Records
  import opened Namespace
  import opened NamespaceProofs

  // ---------------------------------------------------------------- ownership

  /** Before each call of the run the name is registered and not past its expiry. */
  predicate StaysActive(s: State, calls: seq<Call>, h: Digest) {
    forall i :: 0 <= i < |calls| ==> Active(At(After(s, calls[..i]), h).domain, calls[i].now)
  }

  /** The i-th call of the run succeeds on the name. */
  predicate Succeeds(s: State, calls: seq<Call>, i: nat, h: Digest)
    requires i < |calls|
  {
    Step(After(s, calls[..i]), calls[i]).Done? && Addresses(calls[i].op, h)
  }

  predicate TransferredBy(s: State, calls: seq<Call>, owner: Address, h: Digest) {
    exists i :: 0 <= i < |calls| && Succeeds(s, calls, i, h) && calls[i].op.Transfer? && calls[i].sender == owner
  }

  lemma ActiveKeepsOwner(s: State, c: Call, h: Digest)
    requires Active(At(s, h).domain, c.now)
    requires !(Step(s, c).Done? && Addresses(c.op, h) && c.op.Transfer? && c.sender == At(s, h).domain.owner)
    ensures var d, d' := At(s, h).domain, At(Next(s, c), h).domain;
      d'.owner == d.owner && d'.pubKey == d.pubKey && d'.generation == d.generation
  {
    AtNext(s, c, h);
  }

  /** While a name is active, its owner, key and generation change only by a transfer that owner made. */
  lemma {:induction false} OwnerKeepsActiveName(s: State, calls: seq<Call>, h: Digest)
    requires StaysActive(s, calls, h)
    requires !TransferredBy(s, calls, At(s, h).domain.owner, h)
    ensures var d, d' := At(s, h).domain, At(After(s, calls), h).domain;
      d'.owner == d.owner && d'.pubKey == d.pubKey && d'.generation == d.generation
  {
    if calls != [] {
      var n := |calls| - 1;
      var before := calls[..n];
      assert forall i :: 0 <= i < n ==> before[..i] == calls[..i];
      assert StaysActive(s, before, h);
      assert forall i :: 0 <= i < n && Succeeds(s, before, i, h) ==> Succeeds(s, calls, i, h);
      OwnerKeepsActiveName(s, before, h);
      assert Succeeds(s, calls, n, h) <==> Step(After(s, before), calls[n]).Done? && Addresses(calls[n].op, h);
      ActiveKeepsOwner(After(s, before), calls[n], h);
    }
  }

  // ------------------------------------------------------------ title and lease

  /** calls[i] is the latest registration of the name, or with `transfers` the latest registration or transfer. */
  predicate Latest(s: State, calls: seq<Call>, i: nat, h: Digest, transfers: bool) {
    && i < |calls|
    && Succeeds(s, calls, i, h) && GivesTitle(calls[i].op, transfers)
    && forall j :: i < j < |calls| && Succeeds(s, calls, j, h) ==> !GivesTitle(calls[j].op, transfers)
  }

  predicate GivesTitle(op: Op, transfers: bool) {
    op.Register? || (transfers && op.Transfer?)
  }

  lemma SucceedsBefore(s: State, calls: seq<Call>, j: nat, h: Digest)
    requires j < |calls| - 1
    ensures Succeeds(s, calls[..|calls| - 1], j, h) <==> Succeeds(s, calls, j, h)
  {
    assert calls[..|calls| - 1][..j] == calls[..j];
  }

  lemma LatestExtends(s: State, calls: seq<Call>, i: nat, h: Digest, transfers: bool)
    requires calls != [] && Latest(s, calls[..|calls| - 1], i, h, transfers)
    requires Succeeds(s, calls, |calls| - 1, h) ==> !GivesTitle(calls[|calls| - 1].op, transfers)
    ensures Latest(s, calls, i, h, transfers)
  {
    SucceedsBefore(s, calls, i, h);
    forall j | i < j < |calls| && Succeeds(s, calls, j, h) ensures !GivesTitle(calls[j].op, transfers) {
      if j < |calls| - 1 { SucceedsBefore(s, calls, j, h); }
    }
  }

  /** How often the name was renewed from call `from` on. */
  function Renewals(s: State, calls: seq<Call>, from: nat, h: Digest): nat {
    if |calls| <= from then 0 else
    var n := |calls| - 1;
    Renewals(s, calls[..n], from, h) + (if Succeeds(s, calls, n, h) && calls[n].op.Renew? then 1 else 0)
  }

  /** Who holds the name, and under which key, after a registration or transfer. */
  predicate Holds(d: Domain, c: Call) {
    match c.op
    case Register(_, pubKey, _) => d.owner == c.sender && d.pubKey == pubKey
    case Transfer(_, newOwner, newPubKey) => d.owner == newOwner && d.pubKey == newPubKey
    case _ => false
  }

  /** What a successful call makes of the lease of the name it addresses. */
  lemma LeaseTerms(s: State, c: Call, h: Digest)
    requires Step(s, c).Done? && Addresses(c.op, h)
    ensures var d, d' := At(s, h).domain, At(Next(s, c), h).domain;
      match c.op
      case Register(_, _, _) => !Active(d, c.now) && Holds(d', c) && d'.expiry == (c.now + REGISTRATION_PERIOD) % U64
      case Renew(_) => Active(d, c.now) && d' == d.(expiry := (d.expiry + REGISTRATION_PERIOD) % U64)
      case Transfer(_, _, _) => Active(d, c.now) && d.owner == c.sender && Holds(d', c) && d'.expiry == d.expiry
      case _ => Active(d, c.now) && d.owner == c.sender && d' == d
  {
    AtNext(s, c, h);
  }

  /** calls[i] bought the lease, and every renewal since extended it by a period. */
  predicate BoughtBy(s: State, calls: seq<Call>, h: Digest, d: Domain, i: nat) {
    && Latest(s, calls, i, h, false)
    && d.expiry == LeaseEnd(calls[i].now, Renewals(s, calls, i, h))
  }

  /** calls[t] gave the name to its present holder. */
  predicate HeldBy(s: State, calls: seq<Call>, h: Digest, d: Domain, t: nat) {
    Latest(s, calls, t, h, true) && Holds(d, calls[t])
  }

  /** The end of a lease bought at `start` and renewed that often, in 64 bits. */
  function LeaseEnd(start: nat, renewals: nat): Uint64 {
    (start + (1 + renewals) * 31_536_000) % U64
  }

  lemma LeaseEndNext(start: nat, renewals: nat)
    ensures LeaseEnd(start, renewals + 1) == (LeaseEnd(start, renewals) + REGISTRATION_PERIOD) % U64
  {
  }

  lemma RenewalsNext(s: State, calls: seq<Call>, i: nat, h: Digest)
    requires calls != [] && i < |calls|
    ensures Renewals(s, calls, i, h) == Renewals(s, calls[..|calls| - 1], i, h) +
      (if Succeeds(s, calls, |calls| - 1, h) && calls[|calls| - 1].op.Renew? then 1 else 0)
    ensures i == |calls| - 1 ==> Renewals(s, calls[..|calls| - 1], i, h) == 0
  {
  }

  lemma ExpiryNext(s: State, calls: seq<Call>, h: Digest)
    requires calls != [] && (Succeeds(s, calls, |calls| - 1, h) ==> !calls[|calls| - 1].op.Register?)
    ensures var n := |calls| - 1;
      var e, e' := At(After(s, calls[..n]), h).domain.expiry, At(After(s, calls), h).domain.expiry;
      e' == if Succeeds(s, calls, n, h) && calls[n].op.Renew? then (e + REGISTRATION_PERIOD) % U64 else e
  {
    var n := |calls| - 1;
    if Succeeds(s, calls, n, h) {
      LeaseTerms(After(s, calls[..n]), calls[n], h);
    } else {
      AtNext(After(s, calls[..n]), calls[n], h);
    }
  }

  lemma LeaseExtends(s: State, calls: seq<Call>, h: Digest, i: nat)
    requires calls != [] && i < |calls| - 1
    requires Succeeds(s, calls, |calls| - 1, h) ==> !calls[|calls| - 1].op.Register?
    requires At(After(s, calls[..|calls| - 1]), h).domain.expiry ==
      LeaseEnd(calls[i].now, Renewals(s, calls[..|calls| - 1], i, h))
    ensures At(After(s, calls), h).domain.expiry == LeaseEnd(calls[i].now, Renewals(s, calls, i, h))
  {
    var renewals := Renewals(s, calls[..|calls| - 1], i, h);
    RenewalsNext(s, calls, i, h);
    ExpiryNext(s, calls, h);
    LeaseEndNext(calls[i].now, renewals);
  }

  lemma BoughtExtends(s: State, calls: seq<Call>, h: Digest, i: nat)
    requires calls != [] && BoughtBy(s, calls[..|calls| - 1], h, At(After(s, calls[..|calls| - 1]), h).domain, i)
    requires Succeeds(s, calls, |calls| - 1, h) ==> !calls[|calls| - 1].op.Register?
    ensures BoughtBy(s, calls, h, At(After(s, calls), h).domain, i)
  {
    LatestExtends(s, calls, i, h, false);
    LeaseExtends(s, calls, h, i);
  }

  lemma HeldExtends(s: State, calls: seq<Call>, h: Digest, t: nat)
    requires calls != [] && HeldBy(s, calls[..|calls| - 1], h, At(After(s, calls[..|calls| - 1]), h).domain, t)
    requires Succeeds(s, calls, |calls| - 1, h) ==> !GivesTitle(calls[|calls| - 1].op, true)
    ensures HeldBy(s, calls, h, At(After(s, calls), h).domain, t)
  {
    var n := |calls| - 1;
    LatestExtends(s, calls, t, h, true);
    if Succeeds(s, calls, n, h) {
      LeaseTerms(After(s, calls[..n]), calls[n], h);
    } else {
      AtNext(After(s, calls[..n]), calls[n], h);
    }
  }

  lemma FreshLease(s: State, calls: seq<Call>, h: Digest)
    requires calls != [] && Succeeds(s, calls, |calls| - 1, h) && calls[|calls| - 1].op.Register?
    ensures BoughtBy(s, calls, h, At(After(s, calls), h).domain, |calls| - 1)
  {
    var n := |calls| - 1;
    LeaseTerms(After(s, calls[..n]), calls[n], h);
    RenewalsNext(s, calls, n, h);
  }

  lemma FreshTitle(s: State, calls: seq<Call>, h: Digest)
    requires calls != [] && Succeeds(s, calls, |calls| - 1, h) && GivesTitle(calls[|calls| - 1].op, true)
    ensures HeldBy(s, calls, h, At(After(s, calls), h).domain, |calls| - 1)
  {
    var n := |calls| - 1;
    LeaseTerms(After(s, calls[..n]), calls[n], h);
  }

  /** A name without an owner gets one only by registration. */
  lemma OwnerBefore(s: State, c: Call, h: Digest)
    requires !(Step(s, c).Done? && Addresses(c.op, h) && c.op.Register?)
    requires At(Next(s, c), h).domain.owner != ZERO_ADDRESS
    ensures At(s, h).domain.owner != ZERO_ADDRESS
  {
    AtNext(s, c, h);
    if Step(s, c).Done? && Addresses(c.op, h) { LeaseTerms(s, c, h); }
  }

  /**
   Every registered name was registered by some call: its lease ends one period after the latest
   registration, plus one period per renewal since, modulo 2^64; and it belongs to whom the latest
   registration or transfer gave it.
   */
  lemma {:induction false} LeaseWasBought(s: State, calls: seq<Call>, h: Digest) returns (i: nat, t: nat)
    requires h !in s.names
    ensures var d := At(After(s, calls), h).domain;
      d.owner != ZERO_ADDRESS ==> BoughtBy(s, calls, h, d, i) && HeldBy(s, calls, h, d, t)
  {
    i, t := 0, 0;
    if calls != [] && At(After(s, calls), h).domain.owner != ZERO_ADDRESS {
      var n := |calls| - 1;
      i, t := LeaseWasBought(s, calls[..n], h);
      var registers := Succeeds(s, calls, n, h) && calls[n].op.Register?;
      var gives := Succeeds(s, calls, n, h) && GivesTitle(calls[n].op, true);
      if !registers { OwnerBefore(After(s, calls[..n]), calls[n], h); }
      if registers { FreshLease(s, calls, h); } else { BoughtExtends(s, calls, h, i); }
      if gives { FreshTitle(s, calls, h); } else { HeldExtends(s, calls, h, t); }
      i, t := if registers then n else i, if gives then n else t;
    }
  }

  lemma {:induction false} BasePriceFixed(s: State, calls: seq<Call>)
    ensures After(s, calls).basePrice == s.basePrice
  {
    if calls != [] { BasePriceFixed(s, calls[..|calls| - 1]); }
  }

  lemma PriceBounds(basePrice: nat, name: Text, longer: Text)
    requires PriceOf(basePrice, name).Some? && |name| <= |longer| <= MAX_NAME_LENGTH
    ensures basePrice <= PriceOf(basePrice, name).value <= 16 * basePrice
    ensures PriceOf(basePrice, longer).Some? && PriceOf(basePrice, longer).value <= PriceOf(basePrice, name).value
  {
  }

  lemma PricePaid(s: State, c: Call)
    requires Step(s, c).Done? && (c.op.Register? || c.op.Renew?)
    ensures PriceOf(s.basePrice, c.op.name).Some? && PriceOf(s.basePrice, c.op.name).value <= c.value
  {
  }

  /**
   Over every run each period bought was paid for at the deployed base price, at least once and at
   most 16 times it; no longer name would have cost more.
   */
  lemma PeriodsArePaid(s: State, calls: seq<Call>, i: nat, longer: Text)
    requires i < |calls| && Step(After(s, calls[..i]), calls[i]).Done? && (calls[i].op.Register? || calls[i].op.Renew?)
    ensures var price := PriceOf(s.basePrice, calls[i].op.name);
      && price.Some? && s.basePrice <= price.value <= 16 * s.basePrice && price.value <= calls[i].value
      && (|calls[i].op.name| <= |longer| <= MAX_NAME_LENGTH ==>
            PriceOf(s.basePrice, longer).Some? && PriceOf(s.basePrice, longer).value <= price.value)
  {
    var name := calls[i].op.name;
    BasePriceFixed(s, calls[..i]);
    PricePaid(After(s, calls[..i]), calls[i]);
    PriceBounds(s.basePrice, name, if |name| <= |longer| <= MAX_NAME_LENGTH then longer else name);
  }

  // ------------------------------------------------------------ commit-reveal

  /** A successful registration that reveals commitment `h`. */
  predicate Reveals(s: State, c: Call, h: Digest) {
    c.op.Register? && Step(s, c).Done? && CommitmentOf(c) == h
  }

  function Commits(calls: seq<Call>, h: Digest): nat {
    if calls == [] then 0 else
    Commits(calls[..|calls| - 1], h) + (if calls[|calls| - 1].op == Commit(h) then 1 else 0)
  }

  function RevealCount(s: State, calls: seq<Call>, h: Digest): nat {
    if calls == [] then 0 else
    var before := calls[..|calls| - 1];
    RevealCount(s, before, h) + (if Reveals(After(s, before), calls[|calls| - 1], h) then 1 else 0)
  }

  /** calls[j] is the latest commit of `h`, and nothing has revealed it since. */
  predicate Pending(s: State, calls: seq<Call>, h: Digest, j: nat) {
    && j < |calls|
    && calls[j].op == Commit(h)
    && forall i :: j < i < |calls| ==> calls[i].op != Commit(h) && !Reveals(After(s, calls[..i]), calls[i], h)
  }

  lemma CommittedAtNext(s: State, c: Call, h: Digest)
    ensures CommittedAt(Next(s, c), h) ==
            if c.op == Commit(h) then c.now else if Reveals(s, c, h) then 0 else CommittedAt(s, h)
  {
  }

  /** The stored timestamp is that of the pending commit, and there is none when it reads zero. */
  lemma {:induction false} CommitmentIsPending(s: State, calls: seq<Call>, h: Digest) returns (j: nat)
    requires s.commitments == map[]
    ensures CommittedAt(After(s, calls), h) != 0 ==>
              Pending(s, calls, h, j) && calls[j].now == CommittedAt(After(s, calls), h)
    ensures RevealCount(s, calls, h) + (if CommittedAt(After(s, calls), h) != 0 then 1 else 0) <= Commits(calls, h)
  {
    j := 0;
    if calls != [] {
      var n := |calls| - 1;
      var before, c := calls[..n], calls[n];
      j := CommitmentIsPending(s, before, h);
      CommittedAtNext(After(s, before), c, h);
      if c.op == Commit(h) {
        j := n;
      } else if CommittedAt(After(s, calls), h) != 0 {
        PendingExtends(s, calls, h, j);
      }
    }
  }

  lemma PendingExtends(s: State, calls: seq<Call>, h: Digest, j: nat)
    requires calls != [] && Pending(s, calls[..|calls| - 1], h, j)
    requires calls[|calls| - 1].op != Commit(h)
    requires !Reveals(After(s, calls[..|calls| - 1]), calls[|calls| - 1], h)
    ensures Pending(s, calls, h, j)
  {
    var n := |calls| - 1;
    var before := calls[..n];
    forall i | j < i < |calls| ensures calls[i].op != Commit(h) && !Reveals(After(s, calls[..i]), calls[i], h) {
      if i < n {
        assert before[..i] == calls[..i] && before[i] == calls[i];
      }
    }
  }

  /**
   Every registration reveals a commitment made by an earlier call for that caller, name, key
   and secret, whose latest commit is 30 s to 1 day old and has not been revealed before.
   */
  lemma RegistrationWasCommitted(s0: State, calls: seq<Call>, c: Call) returns (j: nat)
    requires Initial(s0) && c.op.Register? && Step(After(s0, calls), c).Done?
    ensures Pending(s0, calls, OfCommitment(c.op.name, c.sender, c.op.pubKey, c.op.secret), j)
    ensures calls[j].now + 30 <= c.now <= calls[j].now + 86_400
  {
    j := CommitmentIsPending(s0, calls, CommitmentOf(c));
  }

  /** No commitment is revealed more often than it was made. */
  lemma RevealsNeedCommits(s0: State, calls: seq<Call>, h: Digest)
    requires Initial(s0)
    ensures RevealCount(s0, calls, h) <= Commits(calls, h)
  {
    var _ := CommitmentIsPending(s0, calls, h);
  }

  // ------------------------------------------------------------------- expiry

  /** A registration or renewal of the name that pushes its 64-bit expiry past the end. */
  predicate Wraps(s: State, c: Call, h: Digest) {
    && Step(s, c).Done? && Addresses(c.op, h)
    && ((c.op.Renew? && At(s, h).domain.expiry + 31_536_000 >= U64) ||
        (c.op.Register? && c.now + 31_536_000 >= U64))
  }

  lemma ExpiryStep(s: State, c: Call, h: Digest)
    requires At(s, h).domain.owner == ZERO_ADDRESS ==> At(s, h).domain.expiry == 0
    ensures At(Next(s, c), h).domain.expiry < At(s, h).domain.expiry <==>
      Wraps(s, c, h) && (c.op.Register? ==> (c.now + 31_536_000) % U64 < At(s, h).domain.expiry)
  {
    AtNext(s, c, h);
  }

  /**
   In every reachable state a call shortens a lease exactly when it wraps the 64-bit expiry: any
   renewal that wraps does, and a registration that wraps to a time before the old expiry.
   */
  lemma ExpiryDropsOnlyByWrap(s0: State, calls: seq<Call>, c: Call, h: Digest)
    requires Initial(s0)
    ensures var s := After(s0, calls);
      At(Next(s, c), h).domain.expiry < At(s, h).domain.expiry <==>
        Wraps(s, c, h) && (c.op.Register? ==> (c.now + 31_536_000) % U64 < At(s, h).domain.expiry)
  {
    RunInv(s0, calls);
    var s := After(s0, calls);
    assert NameInv(s.schemas, h, At(s, h));
    ExpiryStep(s, c, h);
  }

  /** From call i on, as long as no call wraps the expiry of the name, its lease never gets shorter. */
  lemma {:induction false} ExpiryMonotone(s0: State, calls: seq<Call>, i: nat, h: Digest)
    requires Initial(s0) && i <= |calls|
    requires forall j :: i <= j < |calls| ==> !Wraps(After(s0, calls[..j]), calls[j], h)
    ensures At(After(s0, calls[..i]), h).domain.expiry <= At(After(s0, calls), h).domain.expiry
    decreases |calls|
  {
    if i == |calls| {
      assert calls[..i] == calls;
    } else {
      var n := |calls| - 1;
      var before := calls[..n];
      assert forall j :: 0 <= j <= n ==> before[..j] == calls[..j];
      ExpiryMonotone(s0, before, i, h);
      ExpiryDropsOnlyByWrap(s0, before, calls[n], h);
    }
  }
}
