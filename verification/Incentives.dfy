/**
 Payment channels (contracts/contracts/ResolverIncentives.sol), with re-entrant callees.
 */
module Incentives {
  import opened Options
  import opened Bytes
  import opened Digests
  import opened Records

  const MIN_DURATION := 3600
  const SETTLEMENT_WINDOW := 3600

  datatype Channel = Channel(client: Account, resolver: Address, deposit: nat, claimed: nat, expiresAt: Uint64)

  /** What has happened so far, for the statements below; the contract stores none of it. */
  datatype Ledger = Ledger(
    forced: nat,                  // ether pushed in without calling the contract
    deposits: map<Digest, nat>,     // every channel ever opened, with its deposit
    paid: map<Digest, nat>,       // total paid to the resolver, per channel
    refunded: map<Digest, nat>)   // refund paid at close, per closed channel

  datatype Bank = Bank(channels: map<Digest, Channel>, nonce: nat, balance: nat, ledger: Ledger)

  /**
   A transaction, or a call made by the code that receives a payout. `signer` is the account the
   voucher signature recovers to, zero when recovery fails.
   */
  datatype Tx =
    | OpenChannel(sender: Account, value: nat, now: nat, resolver: Address, duration: Uint64)
    | Claim(sender: Account, id: Digest, cumulative: nat, signer: Address, callee: Callee)
    | CloseChannel(sender: Account, now: nat, id: Digest, callee: Callee)
    | ForceEther(amount: nat)

  /** The receiver of a payout: what it calls while it has control, and whether it accepts the ether. */
  datatype Callee = Callee(nested: seq<Tx>, accepts: bool)

  datatype Error =
    | ZeroResolver | NoDeposit | NoChannel | NotResolver | NotClient | BadVoucher
    | NothingToClaim | NotExpired | TransferFailed | Overflow

  datatype Outcome = Reverted(error: Error) | Done(bank: Bank)

  // ------------------------------------------------------------ openChannel

  function Lifetime(duration: Uint64): Uint64 {
    if duration < MIN_DURATION then MIN_DURATION else duration
  }

  function OpenGuard(tx: Tx): Option<Error>
    requires tx.OpenChannel?
  {
    if tx.resolver == ZERO_ADDRESS then Some(ZeroResolver)
    else if tx.value == 0 then Some(NoDeposit)
    else if tx.now % U64 + Lifetime(tx.duration) >= U64 then Some(Overflow)
    else None
  }

  function IdOf(b: Bank, tx: Tx): Digest
    requires tx.OpenChannel?
  {
    OfChannel(tx.sender, tx.resolver, b.nonce)
  }

  function Opened(b: Bank, tx: Tx): Bank
    requires tx.OpenChannel? && OpenGuard(tx).None?
  {
    var id := IdOf(b, tx);
    Bank(b.channels[id := Channel(tx.sender, tx.resolver, tx.value, 0, tx.now % U64 + Lifetime(tx.duration))],
         b.nonce + 1, b.balance + tx.value, b.ledger.(deposits := b.ledger.deposits[id := tx.value]))
  }

  // ------------------------------------------------------------------ claim

  function Min(a: nat, b: nat): nat {
    if a < b then a else b
  }

  function Max(a: nat, b: nat): nat {
    if a < b then b else a
  }

  function ClaimGuard(b: Bank, tx: Tx): Option<Error>
    requires tx.Claim?
  {
    if tx.id !in b.channels then Some(NoChannel)
    else
      var ch := b.channels[tx.id];
      if tx.sender != ch.resolver then Some(NotResolver)
      else if tx.signer != ch.client then Some(BadVoucher)
      else if Min(tx.cumulative, ch.deposit) <= ch.claimed then Some(NothingToClaim)
      else if Min(tx.cumulative, ch.deposit) - ch.claimed > b.balance then Some(TransferFailed)
      else None
  }

  function Payout(b: Bank, tx: Tx): nat
    requires tx.Claim? && ClaimGuard(b, tx).None?
  {
    Min(tx.cumulative, b.channels[tx.id].deposit) - b.channels[tx.id].claimed
  }

  function PaidTo(l: Ledger, id: Digest): nat {
    if id in l.paid then l.paid[id] else 0
  }

  /** The bank at the moment the resolver's code gets control. */
  function Claimed(b: Bank, tx: Tx): Bank
    requires tx.Claim? && ClaimGuard(b, tx).None?
  {
    var ch, pay := b.channels[tx.id], Payout(b, tx);
    b.(channels := b.channels[tx.id := ch.(claimed := ch.claimed + pay)], balance := b.balance - pay,
       ledger := b.ledger.(paid := b.ledger.paid[tx.id := PaidTo(b.ledger, tx.id) + pay]))
  }

  // ----------------------------------------------------------- closeChannel

  function CloseGuard(b: Bank, tx: Tx): Option<Error>
    requires tx.CloseChannel?
  {
    if tx.id !in b.channels then Some(NoChannel)
    else
      var ch := b.channels[tx.id];
      if tx.sender != ch.client then Some(NotClient)
      else if tx.now < ch.expiresAt + SETTLEMENT_WINDOW then Some(NotExpired)
      else if ch.claimed > ch.deposit then Some(Overflow)
      else if ch.deposit - ch.claimed > b.balance then Some(TransferFailed)
      else None
  }

  function Refund(b: Bank, tx: Tx): nat
    requires tx.CloseChannel? && CloseGuard(b, tx).None?
  {
    b.channels[tx.id].deposit - b.channels[tx.id].claimed
  }

  /** The bank at the moment the client's code gets control. */
  function Closed(b: Bank, tx: Tx): Bank
    requires tx.CloseChannel? && CloseGuard(b, tx).None?
  {
    var refund := Refund(b, tx);
    b.(channels := b.channels - {tx.id}, balance := b.balance - refund,
       ledger := b.ledger.(refunded := b.ledger.refunded[tx.id := refund]))
  }

  // -------------------------------------------------------------- execution

  /** A revert anywhere undoes everything since, including what nested calls did. */
  function Exec(b: Bank, tx: Tx): Outcome
    decreases tx
  {
    match tx
    case OpenChannel(_, _, _, _, _) =>
      var g := OpenGuard(tx);
      if g.Some? then Reverted(g.value) else Done(Opened(b, tx))
    case Claim(_, _, _, _, callee) =>
      var g := ClaimGuard(b, tx);
      if g.Some? then Reverted(g.value)
      else if !callee.accepts then Reverted(TransferFailed)
      else Done(ExecAll(Claimed(b, tx), callee.nested))
    case CloseChannel(_, _, _, callee) =>
      var g := CloseGuard(b, tx);
      if g.Some? then Reverted(g.value)
      else if Refund(b, tx) == 0 then Done(Closed(b, tx))
      else if !callee.accepts then Reverted(TransferFailed)
      else Done(ExecAll(Closed(b, tx), callee.nested))
    case ForceEther(amount) =>
      Done(b.(balance := b.balance + amount, ledger := b.ledger.(forced := b.ledger.forced + amount)))
  }

  function ExecAll(b: Bank, txs: seq<Tx>): Bank
    decreases txs
  {
    if txs == [] then b else
    var r := Exec(b, txs[0]);
    ExecAll(if r.Done? then r.bank else b, txs[1..])
  }

  /** A newly deployed contract. */
  predicate Deployed(b: Bank) {
    b == Bank(map[], 0, 0, Ledger(0, map[], map[], map[]))
  }

  // ---------------------------------------------------------------- solvency

  /** The sum of deposit - claimed over the open channels. */
  ghost function Owed(channels: map<Digest, Channel>): int {
    if channels == map[] then 0 else
    var id :| id in channels;
    channels[id].deposit - channels[id].claimed + Owed(channels - {id})
  }

  /** The identifier of a channel was made for this resolver and client. */
  predicate Parties(id: Digest, resolver: Address, client: Address) {
    id.OfChannel? && id.resolver == resolver && id.client == client
  }

  predicate ChannelInv(b: Bank, id: Digest)
    requires id in b.channels
  {
    var ch := b.channels[id];
    && ch.claimed <= ch.deposit
    && Parties(id, ch.resolver, ch.client)
    && id in b.ledger.deposits && b.ledger.deposits[id] == ch.deposit
    && PaidTo(b.ledger, id) == ch.claimed
  }

  /** A closed channel paid out its deposit, to the last wei, in payouts and one refund. */
  predicate SettledInv(b: Bank, id: Digest)
    requires id in b.ledger.deposits
  {
    id !in b.channels ==>
      id in b.ledger.refunded && PaidTo(b.ledger, id) + b.ledger.refunded[id] == b.ledger.deposits[id]
  }

  /** The balance is exactly what the open channels are owed, plus ether forced in from outside. */
  ghost predicate Solvent(b: Bank) {
    && b.balance == Owed(b.channels) + b.ledger.forced
    && (forall id :: id in b.channels ==> ChannelInv(b, id))
    && (forall id :: id in b.ledger.deposits ==> SettledInv(b, id) && id.OfChannel? && id.nonce < b.nonce)
    && (forall id :: id in b.ledger.paid ==> id in b.ledger.deposits)
  }

  lemma {:induction false} OwedRemove(channels: map<Digest, Channel>, id: Digest)
    requires id in channels
    ensures Owed(channels) == channels[id].deposit - channels[id].claimed + Owed(channels - {id})
    decreases |channels|
  {
    var x :| x in channels && Owed(channels) == channels[x].deposit - channels[x].claimed + Owed(channels - {x});
    if x != id {
      OwedRemove(channels - {x}, id);
      OwedRemove(channels - {id}, x);
      assert channels - {x} - {id} == channels - {id} - {x};
    }
  }

  lemma {:induction false} OwedNonNegative(channels: map<Digest, Channel>)
    requires forall id :: id in channels ==> channels[id].claimed <= channels[id].deposit
    ensures Owed(channels) >= 0
    decreases |channels|
  {
    if channels != map[] {
      var id :| id in channels;
      OwedRemove(channels, id);
      OwedNonNegative(channels - {id});
    }
  }

  lemma OwedUpdate(channels: map<Digest, Channel>, id: Digest, ch: Channel)
    ensures Owed(channels[id := ch]) == ch.deposit - ch.claimed + Owed(channels - {id})
  {
    OwedRemove(channels[id := ch], id);
    assert channels[id := ch] - {id} == channels - {id};
  }

  /** An open channel can always be paid in full. */
  lemma CoversChannel(b: Bank, id: Digest)
    requires Solvent(b) && id in b.channels
    ensures b.channels[id].claimed <= b.channels[id].deposit
    ensures b.channels[id].deposit - b.channels[id].claimed <= b.balance
  {
    assert forall i :: i in b.channels ==> ChannelInv(b, i);
    OwedRemove(b.channels, id);
    OwedNonNegative(b.channels - {id});
  }

  /** The ledger only gains channels: no deposit is forgotten and no identifier is opened twice. */
  predicate OpenedGrows(b: Bank, b': Bank) {
    && b.nonce <= b'.nonce
    && forall id :: id in b.ledger.deposits ==>
         id in b'.ledger.deposits && b'.ledger.deposits[id] == b.ledger.deposits[id]
  }

  /** The terms of a channel are fixed while it is open, payouts only grow, and a closed channel stays closed. */
  predicate TermsKept(b: Bank, b': Bank) {
    forall id :: id in b.ledger.deposits && id in b'.channels ==>
      && id in b.channels
      && b'.channels[id] == b.channels[id].(claimed := b'.channels[id].claimed)
      && b.channels[id].claimed <= b'.channels[id].claimed
  }

  predicate Progress(b: Bank, b': Bank) {
    OpenedGrows(b, b') && TermsKept(b, b')
  }

  lemma ProgressTrans(b: Bank, b': Bank, b'': Bank)
    requires Progress(b, b') && Progress(b', b'')
    ensures Progress(b, b'')
  {
  }

  lemma OpenKeeps(b: Bank, tx: Tx)
    requires Solvent(b) && tx.OpenChannel? && OpenGuard(tx).None?
    ensures IdOf(b, tx) !in b.ledger.deposits && IdOf(b, tx) !in b.channels
    ensures Solvent(Opened(b, tx)) && Progress(b, Opened(b, tx))
  {
    var id, b' := IdOf(b, tx), Opened(b, tx);
    assert id in b.channels ==> ChannelInv(b, id);
    OwedUpdate(b.channels, id, b'.channels[id]);
    assert b.channels - {id} == b.channels;
    forall i | i in b'.channels ensures ChannelInv(b', i) {
      if i != id { assert ChannelInv(b, i); }
    }
    forall i | i in b'.ledger.deposits ensures SettledInv(b', i) {
      if i != id { assert SettledInv(b, i); }
    }
  }

  lemma ClaimKeeps(b: Bank, tx: Tx)
    requires Solvent(b) && tx.Claim? && ClaimGuard(b, tx).None?
    ensures Solvent(Claimed(b, tx)) && Progress(b, Claimed(b, tx))
  {
    var b' := Claimed(b, tx);
    OwedRemove(b.channels, tx.id);
    OwedUpdate(b.channels, tx.id, b'.channels[tx.id]);
    assert ChannelInv(b, tx.id);
    forall i | i in b'.channels ensures ChannelInv(b', i) {
      assert ChannelInv(b, i);
    }
    forall i | i in b'.ledger.deposits ensures SettledInv(b', i) {
      assert SettledInv(b, i);
    }
  }

  lemma CloseKeeps(b: Bank, tx: Tx)
    requires Solvent(b) && tx.CloseChannel? && CloseGuard(b, tx).None?
    ensures Solvent(Closed(b, tx)) && Progress(b, Closed(b, tx))
  {
    var b' := Closed(b, tx);
    OwedRemove(b.channels, tx.id);
    assert ChannelInv(b, tx.id);
    forall i | i in b'.channels ensures ChannelInv(b', i) {
      assert ChannelInv(b, i);
    }
    forall i | i in b'.ledger.deposits ensures SettledInv(b', i) {
      assert SettledInv(b, i);
    }
  }

  /** The call is not refused for lack of ether, and opens no identifier used before. */
  predicate Payable(b: Bank, tx: Tx) {
    match tx
    case OpenChannel(_, _, _, _, _) => IdOf(b, tx) !in b.ledger.deposits
    case Claim(_, _, _, _, _) => ClaimGuard(b, tx) != Some(TransferFailed)
    case CloseChannel(_, _, _, _) => CloseGuard(b, tx) != Some(TransferFailed) && CloseGuard(b, tx) != Some(Overflow)
    case ForceEther(_) => true
  }

  lemma SolventPays(b: Bank, tx: Tx)
    requires Solvent(b)
    ensures Payable(b, tx)
  {
    if (tx.Claim? || tx.CloseChannel?) && tx.id in b.channels {
      CoversChannel(b, tx.id);
    }
  }

  /**
   `tx` and every call made while it runs, however deeply nested, can be paid, and at every external
   call the bank is solvent.
   */
  ghost predicate SolventAtCalls(b: Bank, tx: Tx)
    decreases tx
  {
    && Payable(b, tx)
    && match tx
       case Claim(_, _, _, _, callee) =>
         ClaimGuard(b, tx).None? ==> Solvent(Claimed(b, tx)) && AllSolventAtCalls(Claimed(b, tx), callee.nested)
       case CloseChannel(_, _, _, callee) =>
         CloseGuard(b, tx).None? ==> Solvent(Closed(b, tx)) && AllSolventAtCalls(Closed(b, tx), callee.nested)
       case _ => true
  }

  ghost predicate AllSolventAtCalls(b: Bank, txs: seq<Tx>)
    decreases txs
  {
    txs != [] ==>
      && SolventAtCalls(b, txs[0])
      && AllSolventAtCalls(if Exec(b, txs[0]).Done? then Exec(b, txs[0]).bank else b, txs[1..])
  }

  /** Solvency holds after every transaction and at every external call inside it. */
  lemma {:induction false} ExecKeeps(b: Bank, tx: Tx)
    requires Solvent(b)
    ensures SolventAtCalls(b, tx)
    ensures Exec(b, tx).Done? ==>
      Solvent(Exec(b, tx).bank) && Progress(b, Exec(b, tx).bank)
    decreases tx
  {
    SolventPays(b, tx);
    match tx
    case OpenChannel(_, _, _, _, _) =>
      if OpenGuard(tx).None? { OpenKeeps(b, tx); }
    case Claim(_, _, _, _, callee) =>
      if ClaimGuard(b, tx).None? {
        var b1 := Claimed(b, tx);
        ClaimKeeps(b, tx);
        ExecAllKeeps(b1, callee.nested);
        ProgressTrans(b, b1, ExecAll(b1, callee.nested));
      }
    case CloseChannel(_, _, _, callee) =>
      if CloseGuard(b, tx).None? {
        var b1 := Closed(b, tx);
        CloseKeeps(b, tx);
        ExecAllKeeps(b1, callee.nested);
        ProgressTrans(b, b1, ExecAll(b1, callee.nested));
      }
    case ForceEther(amount) => ForceKeeps(b, tx);
  }

  lemma ForceKeeps(b: Bank, tx: Tx)
    requires Solvent(b) && tx.ForceEther?
    ensures Solvent(Exec(b, tx).bank) && Progress(b, Exec(b, tx).bank)
  {
  }

  lemma {:induction false} ExecAllKeeps(b: Bank, txs: seq<Tx>)
    requires Solvent(b)
    ensures AllSolventAtCalls(b, txs)
    ensures Solvent(ExecAll(b, txs)) && Progress(b, ExecAll(b, txs))
    decreases txs
  {
    if txs != [] {
      ExecKeeps(b, txs[0]);
      var b1 := if Exec(b, txs[0]).Done? then Exec(b, txs[0]).bank else b;
      ExecAllKeeps(b1, txs[1..]);
      ProgressTrans(b, b1, ExecAll(b1, txs[1..]));
    }
  }

  /** From deployment on, over every run with any re-entry. */
  lemma AlwaysSolvent(b0: Bank, txs: seq<Tx>)
    requires Deployed(b0)
    ensures Solvent(ExecAll(b0, txs)) && AllSolventAtCalls(b0, txs)
  {
    ExecAllKeeps(b0, txs);
  }

  /**
   From deployment on, no call of a run, at top level or inside a callee, is refused for lack of
   ether, and none reuses an identifier; nor would any further call be.
   */
  lemma NeverShort(b0: Bank, txs: seq<Tx>, tx: Tx)
    requires Deployed(b0)
    ensures AllSolventAtCalls(b0, txs) && SolventAtCalls(ExecAll(b0, txs), tx)
  {
    AlwaysSolvent(b0, txs);
    ExecKeeps(ExecAll(b0, txs), tx);
  }

  /** A close needs the settlement window to be over, and completes the deposit. */
  lemma CloseSettles(b: Bank, tx: Tx)
    requires Solvent(b) && tx.CloseChannel? && Exec(b, tx).Done?
    ensures tx.id in b.channels && tx.now >= b.channels[tx.id].expiresAt + SETTLEMENT_WINDOW
    ensures tx.sender == b.channels[tx.id].client
    ensures PaidTo(b.ledger, tx.id) + Refund(b, tx) == b.ledger.deposits[tx.id]
  {
  }

  /**
   A close of `id` by `client` at or after `deadline` is carried out while `tx` runs, by itself or by
   a call nested in it.
   */
  predicate Closes(b: Bank, tx: Tx, id: Digest, client: Account, deadline: nat)
    decreases tx
  {
    Exec(b, tx).Done? &&
      match tx
      case Claim(_, _, _, _, callee) => ClosesIn(Claimed(b, tx), callee.nested, id, client, deadline)
      case CloseChannel(sender, now, closed, callee) =>
        || (closed == id && sender == client && now >= deadline)
        || (Refund(b, tx) > 0 && ClosesIn(Closed(b, tx), callee.nested, id, client, deadline))
      case _ => false
  }

  predicate ClosesIn(b: Bank, txs: seq<Tx>, id: Digest, client: Account, deadline: nat)
    decreases txs
  {
    txs != [] &&
      var r := Exec(b, txs[0]);
      || Closes(b, txs[0], id, client, deadline)
      || ClosesIn(if r.Done? then r.bank else b, txs[1..], id, client, deadline)
  }

  /** If `id` is open, these are its client and the time its settlement window ends. */
  predicate Terms(b: Bank, id: Digest, client: Account, deadline: nat) {
    && id in b.ledger.deposits
    && (id in b.channels ==>
          b.channels[id].client == client && b.channels[id].expiresAt + SETTLEMENT_WINDOW == deadline)
  }

  lemma TermsStay(b: Bank, b': Bank, id: Digest, client: Account, deadline: nat)
    requires Progress(b, b') && Terms(b, id, client, deadline)
    ensures Terms(b', id, client, deadline)
  {
  }

  lemma {:induction false} ClosedBy(b: Bank, tx: Tx, id: Digest, client: Account, deadline: nat)
    requires Solvent(b) && Terms(b, id, client, deadline)
    ensures var b' := if Exec(b, tx).Done? then Exec(b, tx).bank else b;
      id in b'.channels <==> id in b.channels && !Closes(b, tx, id, client, deadline)
    decreases tx
  {
    if Exec(b, tx).Done? {
      match tx
      case OpenChannel(_, _, _, _, _) => OpenKeeps(b, tx);
      case Claim(_, _, _, _, callee) =>
        ClaimKeeps(b, tx);
        TermsStay(b, Claimed(b, tx), id, client, deadline);
        ClosedIn(Claimed(b, tx), callee.nested, id, client, deadline);
      case CloseChannel(_, _, _, callee) =>
        CloseKeeps(b, tx);
        TermsStay(b, Closed(b, tx), id, client, deadline);
        ClosedIn(Closed(b, tx), callee.nested, id, client, deadline);
      case ForceEther(_) =>
    }
  }

  lemma {:induction false} ClosedIn(b: Bank, txs: seq<Tx>, id: Digest, client: Account, deadline: nat)
    requires Solvent(b) && Terms(b, id, client, deadline)
    ensures id in ExecAll(b, txs).channels <==> id in b.channels && !ClosesIn(b, txs, id, client, deadline)
    decreases txs
  {
    if txs != [] {
      ExecKeeps(b, txs[0]);
      ClosedBy(b, txs[0], id, client, deadline);
      var b1 := if Exec(b, txs[0]).Done? then Exec(b, txs[0]).bank else b;
      TermsStay(b, b1, id, client, deadline);
      ClosedIn(b1, txs[1..], id, client, deadline);
    }
  }

  /**
   Whatever calls happen in between, at any depth, a channel is no longer open exactly when its
   client has closed it, and that not before the time it was opened plus its duration, at least one
   hour, plus the settlement hour.
   */
  lemma NoEarlyClose(b: Bank, open: Tx, txs: seq<Tx>)
    requires Solvent(b) && open.OpenChannel? && OpenGuard(open).None?
    ensures var id, deadline := IdOf(b, open), open.now % U64 + Max(open.duration, 3600) + 3600;
      id in ExecAll(Opened(b, open), txs).channels <==> !ClosesIn(Opened(b, open), txs, id, open.sender, deadline)
  {
    OpenKeeps(b, open);
    var deadline := open.now % U64 + Max(open.duration, 3600) + 3600;
    ClosedIn(Opened(b, open), txs, IdOf(b, open), open.sender, deadline);
  }

  // ------------------------------------------------- payouts in any order

  /** The largest of a set of vouchers, 0 if there is none. */
  ghost function Best(vs: set<nat>): nat {
    if vs == {} then 0 else
    var v :| v in vs;
    Max(v, Best(vs - {v}))
  }

  lemma {:induction false} BestIsLargest(vs: set<nat>)
    ensures forall v :: v in vs ==> v <= Best(vs)
    ensures vs != {} ==> Best(vs) in vs
  {
    if vs != {} {
      var v :| v in vs && Best(vs) == Max(v, Best(vs - {v}));
      BestIsLargest(vs - {v});
      assert Best(vs) == Max(v, Best(vs - {v}));
      assert forall w :: w in vs ==> w == v || w in vs - {v};
    }
  }

  lemma BestOfUnion(vs: set<nat>, ws: set<nat>)
    ensures Best(vs + ws) == Max(Best(vs), Best(ws))
  {
    BestIsLargest(vs);
    BestIsLargest(ws);
    BestIsLargest(vs + ws);
  }

  /** A voucher for the open channel `id`, signed by `client` and presented by `resolver` to a receiver that accepts. */
  predicate ValidVoucher(b: Bank, tx: Tx, id: Digest, resolver: Address, client: Address) {
    && tx.Claim? && tx.id == id && id in b.channels && tx.callee.accepts
    && tx.sender == resolver && tx.signer == client
  }

  function Own(b: Bank, tx: Tx, id: Digest, resolver: Address, client: Address): set<nat>
    requires tx.Claim?
  {
    if ValidVoucher(b, tx, id, resolver, client) then {tx.cumulative} else {}
  }

  /** The valid vouchers for `id` presented while `tx` runs, by itself or by the calls nested in it. */
  function Vouchers(b: Bank, tx: Tx, id: Digest, resolver: Address, client: Address): set<nat>
    decreases tx
  {
    match tx
    case Claim(_, _, _, _, callee) =>
      Own(b, tx, id, resolver, client) +
      (if Exec(b, tx).Done? then VouchersAll(Claimed(b, tx), callee.nested, id, resolver, client) else {})
    case CloseChannel(_, _, _, callee) =>
      if Exec(b, tx).Done? && Refund(b, tx) > 0
      then VouchersAll(Closed(b, tx), callee.nested, id, resolver, client) else {}
    case _ => {}
  }

  function VouchersAll(b: Bank, txs: seq<Tx>, id: Digest, resolver: Address, client: Address): set<nat>
    decreases txs
  {
    if txs == [] then {} else
    var r := Exec(b, txs[0]);
    Vouchers(b, txs[0], id, resolver, client) +
    VouchersAll(if r.Done? then r.bank else b, txs[1..], id, resolver, client)
  }

  /** Between `b` and `b'` channel `id` paid what the vouchers `vs` were worth beyond earlier payouts. */
  ghost predicate Pays(b: Bank, b': Bank, id: Digest, vs: set<nat>) {
    if id in b'.ledger.deposits
    then PaidTo(b'.ledger, id) == Max(PaidTo(b.ledger, id), Min(b'.ledger.deposits[id], Best(vs)))
    else vs == {}
  }

  lemma PaysTrans(b: Bank, b1: Bank, b2: Bank, id: Digest, vs: set<nat>, ws: set<nat>)
    requires Solvent(b) && Solvent(b1) && Progress(b, b1) && Progress(b1, b2)
    requires Pays(b, b1, id, vs) && Pays(b1, b2, id, ws)
    ensures Pays(b, b2, id, vs + ws)
  {
    BestOfUnion(vs, ws);
    assert id !in b1.ledger.deposits ==> vs + ws == ws && PaidTo(b.ledger, id) == PaidTo(b1.ledger, id) == 0;
  }

  lemma ClaimPays(b: Bank, tx: Tx, id: Digest, resolver: Address, client: Address)
    requires Solvent(b) && tx.Claim? && Parties(id, resolver, client)
    ensures Pays(b, if ClaimGuard(b, tx).None? && tx.callee.accepts then Claimed(b, tx) else b, id,
                 Own(b, tx, id, resolver, client))
  {
    BestIsLargest({tx.cumulative});
    if tx.id in b.channels {
      assert ChannelInv(b, tx.id);
      CoversChannel(b, tx.id);
    }
  }

  lemma QuietPays(b: Bank, b': Bank, id: Digest)
    requires Solvent(b) && Solvent(b') && Progress(b, b') && b'.ledger.paid == b.ledger.paid
    ensures Pays(b, b', id, {})
  {
  }

  lemma ClaimRunPays(b: Bank, tx: Tx, id: Digest, resolver: Address, client: Address)
    requires Solvent(b) && tx.Claim? && Parties(id, resolver, client)
    requires ClaimGuard(b, tx).None? && tx.callee.accepts ==>
      Pays(Claimed(b, tx), ExecAll(Claimed(b, tx), tx.callee.nested), id,
           VouchersAll(Claimed(b, tx), tx.callee.nested, id, resolver, client))
    ensures Pays(b, if Exec(b, tx).Done? then Exec(b, tx).bank else b, id, Vouchers(b, tx, id, resolver, client))
  {
    ClaimPays(b, tx, id, resolver, client);
    var own := Own(b, tx, id, resolver, client);
    if Exec(b, tx).Done? {
      var b1, nested := Claimed(b, tx), tx.callee.nested;
      ClaimKeeps(b, tx);
      ExecAllKeeps(b1, nested);
      PaysTrans(b, b1, ExecAll(b1, nested), id, own, VouchersAll(b1, nested, id, resolver, client));
    } else {
      assert Vouchers(b, tx, id, resolver, client) == own;
    }
  }

  lemma CloseRunPays(b: Bank, tx: Tx, id: Digest, resolver: Address, client: Address)
    requires Solvent(b) && tx.CloseChannel?
    requires CloseGuard(b, tx).None? ==>
      Pays(Closed(b, tx), ExecAll(Closed(b, tx), tx.callee.nested), id,
           VouchersAll(Closed(b, tx), tx.callee.nested, id, resolver, client))
    ensures Pays(b, if Exec(b, tx).Done? then Exec(b, tx).bank else b, id, Vouchers(b, tx, id, resolver, client))
  {
    QuietPays(b, b, id);
    if Exec(b, tx).Done? {
      var b1, nested := Closed(b, tx), tx.callee.nested;
      CloseKeeps(b, tx);
      QuietPays(b, b1, id);
      if Refund(b, tx) > 0 {
        var vs := VouchersAll(b1, nested, id, resolver, client);
        ExecAllKeeps(b1, nested);
        PaysTrans(b, b1, ExecAll(b1, nested), id, {}, vs);
        assert {} + vs == Vouchers(b, tx, id, resolver, client);
      }
    }
  }

  lemma {:induction false} ExecPays(b: Bank, tx: Tx, id: Digest, resolver: Address, client: Address)
    requires Solvent(b) && Parties(id, resolver, client)
    ensures Pays(b, if Exec(b, tx).Done? then Exec(b, tx).bank else b, id, Vouchers(b, tx, id, resolver, client))
    decreases tx
  {
    match tx
    case Claim(_, _, _, _, callee) =>
      if ClaimGuard(b, tx).None? {
        ClaimKeeps(b, tx);
        ExecAllPays(Claimed(b, tx), callee.nested, id, resolver, client);
      }
      ClaimRunPays(b, tx, id, resolver, client);
    case CloseChannel(_, _, _, callee) =>
      if CloseGuard(b, tx).None? {
        CloseKeeps(b, tx);
        ExecAllPays(Closed(b, tx), callee.nested, id, resolver, client);
      }
      CloseRunPays(b, tx, id, resolver, client);
    case _ =>
      ExecKeeps(b, tx);
      QuietPays(b, if Exec(b, tx).Done? then Exec(b, tx).bank else b, id);
  }

  lemma {:induction false} ExecAllPays(b: Bank, txs: seq<Tx>, id: Digest, resolver: Address, client: Address)
    requires Solvent(b) && Parties(id, resolver, client)
    ensures Pays(b, ExecAll(b, txs), id, VouchersAll(b, txs, id, resolver, client))
    decreases txs
  {
    if txs == [] {
      QuietPays(b, b, id);
    } else {
      ExecKeeps(b, txs[0]);
      ExecPays(b, txs[0], id, resolver, client);
      var b1 := if Exec(b, txs[0]).Done? then Exec(b, txs[0]).bank else b;
      ExecAllKeeps(b1, txs[1..]);
      ExecAllPays(b1, txs[1..], id, resolver, client);
      PaysTrans(b, b1, ExecAll(b1, txs[1..]), id, Vouchers(b, txs[0], id, resolver, client),
                VouchersAll(b1, txs[1..], id, resolver, client));
    }
  }

  /** What `ch` has paid once the vouchers up to `largest` are redeemed. */
  function Due(ch: Channel, largest: nat): nat {
    Max(ch.claimed, Min(ch.deposit, largest))
  }

  /**
   Over every run, whatever its receivers call while they have control, an open channel comes to
   pay the smaller of its deposit and the largest valid voucher presented; the client is refunded
   the rest if the channel was closed.
   */
  lemma PayoutIsLargestVoucher(b: Bank, txs: seq<Tx>, id: Digest)
    requires Solvent(b) && id in b.channels
    ensures var ch, b' := b.channels[id], ExecAll(b, txs);
      var due := Due(ch, Best(VouchersAll(b, txs, id, ch.resolver, ch.client)));
      && PaidTo(b'.ledger, id) == due
      && (if id in b'.channels then b'.channels[id] == ch.(claimed := due)
          else id in b'.ledger.refunded && b'.ledger.refunded[id] == ch.deposit - due)
  {
    var ch, b' := b.channels[id], ExecAll(b, txs);
    assert ChannelInv(b, id);
    ExecAllKeeps(b, txs);
    ExecAllPays(b, txs, id, ch.resolver, ch.client);
    assert id in b'.channels ==> ChannelInv(b', id);
    assert SettledInv(b', id);
  }

  /**
   After an opening and any calls at all, the channel has paid the smaller of the value sent and the
   largest voucher signed by the account that opened it and presented by the resolver it named.
   */
  lemma OpenedPays(b: Bank, open: Tx, txs: seq<Tx>)
    requires Solvent(b) && open.OpenChannel? && OpenGuard(open).None?
    ensures var id, b' := IdOf(b, open), ExecAll(Opened(b, open), txs);
      var due := Min(open.value, Best(VouchersAll(Opened(b, open), txs, id, open.resolver, open.sender)));
      && PaidTo(b'.ledger, id) == due
      && (if id in b'.channels
          then && b'.channels[id].client == open.sender && b'.channels[id].resolver == open.resolver
               && b'.channels[id].deposit == open.value && b'.channels[id].claimed == due
          else id in b'.ledger.refunded && b'.ledger.refunded[id] == open.value - due)
  {
    OpenKeeps(b, open);
    PayoutIsLargestVoucher(Opened(b, open), txs, IdOf(b, open));
  }

  /** From deployment on, every channel ever opened has paid the smaller of its deposit and the largest voucher. */
  lemma TotalPaid(b0: Bank, txs: seq<Tx>, id: Digest)
    requires Deployed(b0) && id.OfChannel?
    ensures var b := ExecAll(b0, txs);
      id in b.ledger.deposits ==>
        PaidTo(b.ledger, id) == Min(b.ledger.deposits[id], Best(VouchersAll(b0, txs, id, id.resolver, id.client)))
  {
    ExecAllPays(b0, txs, id, id.resolver, id.client);
  }

  /** Two runs that present the same vouchers, in whatever order and however nested, pay the same. */
  lemma PayoutOrderIrrelevant(b: Bank, id: Digest, txs: seq<Tx>, txs': seq<Tx>)
    requires Solvent(b) && id in b.ledger.deposits
    requires id.OfChannel? ==>
      VouchersAll(b, txs, id, id.resolver, id.client) == VouchersAll(b, txs', id, id.resolver, id.client)
    ensures PaidTo(ExecAll(b, txs).ledger, id) == PaidTo(ExecAll(b, txs').ledger, id)
  {
    ExecAllKeeps(b, txs);
    ExecAllKeeps(b, txs');
    ExecAllPays(b, txs, id, id.resolver, id.client);
    ExecAllPays(b, txs', id, id.resolver, id.client);
  }

  // ------------------------------------------------------- when a call succeeds

  /** A channel is opened exactly for some resolver, with some ether, and an end that fits in 64 bits. */
  lemma OpenSucceedsExactly(b: Bank, tx: Tx)
    requires tx.OpenChannel?
    ensures Exec(b, tx).Done? <==>
      tx.resolver != ZERO_ADDRESS && tx.value > 0 && tx.now % U64 + Max(tx.duration, 3600) < U64
  {
  }

  /**
   After an opening and any calls at all, a claim on the open channel succeeds exactly for the
   resolver it named, with a voucher of the account that opened it that is worth more than was paid.
   */
  lemma ClaimSucceedsExactly(b: Bank, open: Tx, txs: seq<Tx>, claim: Tx)
    requires Solvent(b) && open.OpenChannel? && OpenGuard(open).None?
    requires claim.Claim? && claim.id == IdOf(b, open)
    ensures var id, b' := IdOf(b, open), ExecAll(Opened(b, open), txs);
      Exec(b', claim).Done? <==>
        && id in b'.channels && claim.sender == open.resolver && claim.signer == open.sender && claim.callee.accepts
        && Min(claim.cumulative, open.value) > PaidTo(b'.ledger, id)
  {
    OpenedPays(b, open, txs);
    OpenKeeps(b, open);
    ExecAllKeeps(Opened(b, open), txs);
    SolventPays(ExecAll(Opened(b, open), txs), claim);
  }

  /**
   After an opening and any calls at all, a close of the open channel succeeds exactly for the
   account that opened it, from the end of the settlement hour on, if it takes what is left.
   */
  lemma CloseSucceedsExactly(b: Bank, open: Tx, txs: seq<Tx>, close: Tx)
    requires Solvent(b) && open.OpenChannel? && OpenGuard(open).None?
    requires close.CloseChannel? && close.id == IdOf(b, open)
    ensures var id, b' := IdOf(b, open), ExecAll(Opened(b, open), txs);
      Exec(b', close).Done? <==>
        && id in b'.channels && close.sender == open.sender
        && close.now >= open.now % U64 + Max(open.duration, 3600) + 3600
        && (PaidTo(b'.ledger, id) == open.value || close.callee.accepts)
  {
    OpenedPays(b, open, txs);
    OpenKeeps(b, open);
    ExecAllKeeps(Opened(b, open), txs);
    SolventPays(ExecAll(Opened(b, open), txs), close);
  }

  /** What the error says of the call and the bank it met is so. */
  predicate Truthful(b: Bank, tx: Tx, e: Error) {
    match tx
    case OpenChannel(_, value, now, resolver, duration) =>
      || (e.ZeroResolver? && resolver == ZERO_ADDRESS)
      || (e.NoDeposit? && value == 0)
      || (e.Overflow? && now % U64 + Max(duration, 3600) >= U64)
    case Claim(sender, id, cumulative, signer, callee) =>
      if id !in b.channels then e.NoChannel? else
      || (e.NotResolver? && sender != b.channels[id].resolver)
      || (e.BadVoucher? && signer != b.channels[id].client)
      || (e.NothingToClaim? && Min(cumulative, b.channels[id].deposit) <= PaidTo(b.ledger, id))
      || (e.TransferFailed? && !callee.accepts)
    case CloseChannel(sender, now, id, callee) =>
      if id !in b.channels then e.NoChannel? else
      || (e.NotClient? && sender != b.channels[id].client)
      || (e.NotExpired? && now < b.channels[id].expiresAt + 3600)
      || (e.TransferFailed? && !callee.accepts)
    case ForceEther(_) => false
  }

  /** Whatever a reverted call reports is so. */
  lemma RevertsTellTheTruth(b: Bank, tx: Tx)
    requires Solvent(b) && Exec(b, tx).Reverted?
    ensures Truthful(b, tx, Exec(b, tx).error)
  {
    SolventPays(b, tx);
    if (tx.Claim? || tx.CloseChannel?) && tx.id in b.channels { assert ChannelInv(b, tx.id); }
  }

  // ------------------------------------------------------- claims one after another

  /** The resolver redeems the client's vouchers `cs`, in this order, to a receiver that takes them. */
  function Claims(ch: Channel, id: Digest, cs: seq<nat>): seq<Tx>
    requires ch.resolver != ZERO_ADDRESS
  {
    if cs == [] then [] else
    [Claim(ch.resolver, id, cs[0], ch.client, Callee([], true))] + Claims(ch, id, cs[1..])
  }

  /** Claims made one after the other present exactly their vouchers, so their order does not matter either. */
  lemma {:induction false} ClaimsPresent(b: Bank, ch: Channel, id: Digest, cs: seq<nat>)
    requires id in b.channels && ch.client == b.channels[id].client
    requires ch.resolver == b.channels[id].resolver != ZERO_ADDRESS
    ensures VouchersAll(b, Claims(ch, id, cs), id, ch.resolver, ch.client) == set c | c in cs
    decreases |cs|
  {
    if cs != [] {
      var tx := Claim(ch.resolver, id, cs[0], ch.client, Callee([], true));
      var b1 := if ClaimGuard(b, tx).None? then Claimed(b, tx) else b;
      assert b1 == if Exec(b, tx).Done? then Exec(b, tx).bank else b;
      assert Claims(ch, id, cs)[1..] == Claims(ch, id, cs[1..]);
      ClaimsPresent(b1, ch, id, cs[1..]);
      assert Vouchers(b, tx, id, ch.resolver, ch.client) == {cs[0]};
      assert (set c | c in cs) == {cs[0]} + (set c | c in cs[1..]);
    }
  }

  // ------------------------------------------------------------ the contract

  class ResolverIncentives {
    var channels: map<Digest, Channel>
    var nonce: nat
    var balance: nat
    ghost var ledger: Ledger

    ghost function State(): Bank
      reads this
    {
      Bank(channels, nonce, balance, ledger)
    }

    constructor ()
      ensures Deployed(State())
    {
      channels, nonce, balance := map[], 0, 0;
      ledger := Ledger(0, map[], map[], map[]);
    }

    method OpenChannel(tx: Tx) returns (err: Option<Error>)
      requires tx.OpenChannel?
      modifies this
      ensures err == OpenGuard(tx)
      ensures State() == if err.None? then Opened(old(State()), tx) else old(State())
    {
      if tx.resolver == ZERO_ADDRESS { return Some(ZeroResolver); }
      if tx.value == 0 { return Some(NoDeposit); }
      var life: Uint64 := if tx.duration < MIN_DURATION then MIN_DURATION else tx.duration;
      if tx.now % U64 + life >= U64 { return Some(Overflow); }
      var id := OfChannel(tx.sender, tx.resolver, nonce);
      nonce := nonce + 1;
      channels := channels[id := Channel(tx.sender, tx.resolver, tx.value, 0, tx.now % U64 + life)];
      balance := balance + tx.value;
      ledger := ledger.(deposits := ledger.deposits[id := tx.value]);
      err := None;
    }

    /** Claim up to the external call: checks, then effects. */
    method BeginClaim(tx: Tx) returns (err: Option<Error>)
      requires tx.Claim?
      modifies this
      ensures err == ClaimGuard(old(State()), tx)
      ensures State() == if err.None? then Claimed(old(State()), tx) else old(State())
    {
      if tx.id !in channels { return Some(NoChannel); }
      var ch := channels[tx.id];
      if tx.sender != ch.resolver { return Some(NotResolver); }
      if tx.signer != ch.client { return Some(BadVoucher); }
      var effective := if tx.cumulative > ch.deposit then ch.deposit else tx.cumulative;
      if effective <= ch.claimed { return Some(NothingToClaim); }
      var pay := effective - ch.claimed;
      if pay > balance { return Some(TransferFailed); }
      channels := channels[tx.id := ch.(claimed := effective)];
      balance := balance - pay;
      ledger := ledger.(paid := ledger.paid[tx.id := PaidTo(ledger, tx.id) + pay]);
      err := None;
    }

    /** Close up to the external call: checks, then effects. */
    method BeginClose(tx: Tx) returns (err: Option<Error>, refund: nat)
      requires tx.CloseChannel?
      modifies this
      ensures err == CloseGuard(old(State()), tx)
      ensures State() == if err.None? then Closed(old(State()), tx) else old(State())
      ensures err.None? ==> refund == Refund(old(State()), tx)
    {
      refund := 0;
      if tx.id !in channels { return Some(NoChannel), 0; }
      var ch := channels[tx.id];
      if tx.sender != ch.client { return Some(NotClient), 0; }
      if tx.now < ch.expiresAt + SETTLEMENT_WINDOW { return Some(NotExpired), 0; }
      if ch.claimed > ch.deposit { return Some(Overflow), 0; }
      refund := ch.deposit - ch.claimed;
      if refund > balance { return Some(TransferFailed), refund; }
      channels := channels - {tx.id};
      balance := balance - refund;
      ledger := ledger.(refunded := ledger.refunded[tx.id := refund]);
      err := None;
    }

    /** Runs one call to completion; on a revert everything it did, nested calls included, is undone. */
    method Execute(tx: Tx) returns (err: Option<Error>)
      modifies this
      ensures match Exec(old(State()), tx)
        case Reverted(e) => err == Some(e) && State() == old(State())
        case Done(b) => err == None && State() == b
      decreases tx
    {
      var c, n, b := channels, nonce, balance;
      ghost var l := ledger;
      match tx
      case OpenChannel(_, _, _, _, _) => err := OpenChannel(tx);
      case Claim(_, _, _, _, callee) =>
        err := BeginClaim(tx);
        if err.None? {
          ExecuteAll(callee.nested);
          if !callee.accepts {
            channels, nonce, balance, ledger := c, n, b, l;
            err := Some(TransferFailed);
          }
        }
      case CloseChannel(_, _, _, callee) =>
        var refund;
        err, refund := BeginClose(tx);
        if err.None? && refund > 0 {
          ExecuteAll(callee.nested);
          if !callee.accepts {
            channels, nonce, balance, ledger := c, n, b, l;
            err := Some(TransferFailed);
          }
        }
      case ForceEther(amount) =>
        balance := balance + amount;
        ledger := ledger.(forced := ledger.forced + amount);
        err := None;
    }

    method ExecuteAll(txs: seq<Tx>)
      modifies this
      ensures State() == ExecAll(old(State()), txs)
      decreases txs
    {
      if txs != [] {
        var _ := Execute(txs[0]);
        ExecuteAll(txs[1..]);
      }
    }
  }
}
