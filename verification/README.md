# Verified model of the decentralized DNS

This project models the parts of the decentralized DNS where its guarantees are hardest to see
from the code, and proves them for every input and every run:

- the on-chain namespace and schema registry (a state machine over transactions, and the two
  contracts with their own storage layout, proved to follow it);
- the resolver's TTL cache with its name indexes, the polling event watcher, the read-through query
  path, and the agreement of cached answers with the contract;
- the payment channels, with re-entrant receivers;
- the canonical encodings: the signed record message, the circuit witness, the client's cross-check,
  selectors, UDP framing, and the extension's JSON scanner;
- torrent retention under every interleaving of its lock-held steps.

`dafny verify dfyconfig.toml` checks everything. Each module has the name of its file.

| module | component |
|---|---|
| `Options`, `Bytes`, `Digests`, `Sorting`, `Records` | optional values, byte strings, hashes and accounts, sorting, the record type and its limits |
| `SchemaRegistry`, `Namespace`, `NamespaceProofs`, `NamespaceContract`, `Ownership`, `Admission`, `Provenance` | the two contracts |
| `Lru`, `TtlCache`, `Watcher`, `Coherence` | cache, watcher, query path, end-to-end agreement |
| `Incentives` | payment channels |
| `RecordMessage`, `Witness`, `CrossCheck`, `Selector`, `Udp`, `JsonScanner` | encodings |
| `Torrent` | retention |

## Modelling decisions

- Keccak-256 digests are free datatype constructors, so distinct preimages have distinct digests;
  `Raw` stands for a 32-byte word without a known preimage. Signature recovery and
  owner-signature verification are arbitrary inputs or arbitrary functions.
- Block timestamps are positive. `generation` and `expiry` wrap at 2^64 as in the code.
  `LookupDiffersExactly` says what a wrapped generation changes, `WrapRevivesRecords` that it can
  happen, and `ExpiryDropsOnlyByWrap` when a lease gets shorter. Other 256-bit sums do not overflow in the
  model, except the price, whose product reverts as in the code.
- Entries that a Solidity mapping reads as zero are missing map entries.
- The LRU library is a list, most recent first: adding a present key moves it to the front without
  a callback; every removal and every eviction past the capacity calls the callback.
- The watcher reads an append-only chain: blocks once seen do not change.
- The code holds no lock between the chain read of a cache fill and its Set. In `Coherence` a fill may
  be one step or two; agreement is proved for runs in which no event naming the key is handed over
  between the two. `SplitFillGoesStale` shows the stale entry otherwise, and `LateFillExact` exactly
  when a late Set does harm.
- Go's text functions on selectors follow Unicode tables, so the model takes them as parameters and
  states the laws it uses (`Selector.Lawful`); the results hold for every library that meets them,
  and `Selector.LawsAreConsistent` shows that one does.
- `sort.Slice` is a fixed function of the slice, but may leave pairs with equal names in any order, so
  it is a parameter of the message. setRecord does not refuse a repeated field name, and a name with
  two values lets two listings of the same fields have different messages (`ListingOrderShows`);
  `MessageCanonicalExactly` says exactly when the order of the listing cannot show.
- A proof is any byte string: proving is randomized and may fail, so each fill carries its own.
- The refund at the end of register and renew (contracts/contracts/NamespaceDApp.sol:333-339) is a flag
  of the call that says whether the sender takes it. Nothing follows the refund in the transaction, so
  what the sender calls while it has control are later calls of the same run.
- The torrent engine's comment that a seeded file is never evicted does not hold for a torrent that
  is already in the retained list (`SeededWhileRetainedIsEvicted`), and holds exactly otherwise
  (`SeededStaysPinnedExactly`). The drop of a torrent is modelled where it is decided, not where the client
  is called.
- The packing comment speaks of zero-padded chunks; the code reads a short last chunk as the
  big-endian number of its own bytes, and so does the model.

## Model

| member | source | states |
|---|---|---|
| SchemaRegistry.DeclarePreserves | contracts/contracts/RecordSchemaRegistry.sol:117-143 | a declaration adds one new type, keeps every earlier schema as it was, keeps the registry free of duplicate fields, and its mandatory names are exactly those given, in order |
| SchemaRegistry.RecordSchemaRegistry.constructor | contracts/contracts/RecordSchemaRegistry.sol:52-64 | the five built-in types are declared through the same checks, none is refused, and each has exactly its mandatory and optional fields; the registry is valid |
| SchemaRegistry.BuiltInsAccepted | contracts/contracts/RecordSchemaRegistry.sol:52-64 | the built-in registry is the table of the five types with their fields written out |
| SchemaRegistry.RecordSchemaRegistry.DeclareType | contracts/contracts/RecordSchemaRegistry.sol:117-143 | reverts exactly when the specification refuses; otherwise schema and type list grow by the new type; the type list names each declared type once |
| SchemaRegistry.ValidateTypeName | contracts/contracts/RecordSchemaRegistry.sol:146-157 | accepts exactly 1 to 32 bytes of the allowed alphabet |
| SchemaRegistry.CheckNoDuplicates | contracts/contracts/RecordSchemaRegistry.sol:164-171 | true exactly when no two fields share a name |
| SchemaRegistry.MandatoryFields | contracts/contracts/RecordSchemaRegistry.sol:93-108 | the counting and filling passes agree: the result is the mandatory names in order |
| SchemaRegistry.MandatoryMember | contracts/contracts/RecordSchemaRegistry.sol:98-107 | a name is returned exactly when the schema has it as a mandatory field |
| SchemaRegistry.CheckMandatoryFields | contracts/contracts/NamespaceDApp.sol:513-529 | passes exactly when every mandatory field of the schema is among the field names |
| NamespaceProofs.AppendInv | contracts/contracts/NamespaceDApp.sol:406-409 | pushing a key keeps index[k] = i+1 exactly when keys[i] = k, and adds that key only |
| NamespaceProofs.SwapRemoveInv | contracts/contracts/NamespaceDApp.sol:431-440 | swap-remove keeps the same correspondence and removes that key only |
| NamespaceProofs.ListInvMeaning | contracts/contracts/NamespaceDApp.sol:72-81 | a list with a correct index has no duplicates and its length is the number of indexed keys |
| NamespaceProofs.RunInv | contracts/contracts/NamespaceDApp.sol:371-440 | in every reachable state, wrapped or not, all key lists are correctly indexed, every stored record is named by the list of its own generation, is under its own key, within the limits, and complete for its schema |
| NamespaceProofs.LookupMeetsSchema | contracts/contracts/NamespaceDApp.sol:390-404 | every record a lookup finds, in any reachable state, has the requested type and selector, a declared type, all its mandatory fields, and obeys all size limits |
| NamespaceProofs.SchemasNeverChange | contracts/contracts/RecordSchemaRegistry.sol:68-76 | over every run of both contracts a declared schema stays as declared |
| NamespaceProofs.BumpEmpties | contracts/contracts/NamespaceDApp.sol:250-254 | a generation bump leaves no live record and an empty current key list |
| NamespaceProofs.RefinementStep | contracts/contracts/NamespaceDApp.sol:238-254 | one successful call does to the live records what eager clearing would do |
| NamespaceProofs.LazyRefinesEager | contracts/contracts/NamespaceDApp.sol:289-302 | over every run with fewer than 2^64 registrations and transfers of a name, its live records are those of a store that erases on registration and transfer, the generation counts them, and the current key list holds exactly the live keys |
| NamespaceProofs.LookupRefinesEager | contracts/contracts/NamespaceDApp.sol:448-463 | every lookup answers as the eager store does, and reads as empty after expiry |
| NamespaceProofs.LookupDiffersExactly | contracts/contracts/NamespaceDApp.sol:448-463 | over every run, with no bound, a lookup departs from the eager store exactly when the name is active and the stored record was written a nonzero multiple of 2^64 registrations and transfers ago |
| NamespaceProofs.RemoveSucceedsExactly | contracts/contracts/NamespaceDApp.sol:415-443 | in every reachable state removal succeeds for the owner exactly when lookup finds the record, and never underflows or reads out of bounds; until the generation wraps that is exactly when the eager store holds it |
| NamespaceProofs.WrapRevivesRecords | contracts/contracts/NamespaceDApp.sol:298-302 | such a departure can be reached: an owner who transfers the name to itself n times finds an old record again exactly when n is a multiple of 2^64 |
| NamespaceContract.NamespaceDApp.constructor | contracts/contracts/NamespaceDApp.sol:144-148 | a deployed contract is in an initial state |
| NamespaceContract.NamespaceDApp.Commit | contracts/contracts/NamespaceDApp.sol:210-213 | follows the state machine: result, new state and events |
| NamespaceContract.NamespaceDApp.Register | contracts/contracts/NamespaceDApp.sol:223-258 | the same for registration, with its checks in order |
| NamespaceContract.NamespaceDApp.Renew | contracts/contracts/NamespaceDApp.sol:261-274 | the same for renewal |
| NamespaceContract.NamespaceDApp.Transfer | contracts/contracts/NamespaceDApp.sol:281-305 | the same for transfer |
| NamespaceContract.NamespaceDApp.CheckRecord | contracts/contracts/NamespaceDApp.sol:371-392 | the checks of setRecord report the error the state machine prescribes |
| NamespaceContract.NamespaceDApp.SetRecord | contracts/contracts/NamespaceDApp.sol:361-412 | the four storage mappings change as the state machine prescribes; all other names keep theirs |
| NamespaceContract.NamespaceDApp.RemoveRecord | contracts/contracts/NamespaceDApp.sol:415-443 | the same for the in-place swap-remove |
| NamespaceContract.NamespaceDApp.DoLookup | contracts/contracts/NamespaceDApp.sol:448-463 | reads from the storage layout what the state machine's lookup returns |
| NamespaceContract.NamespaceDApp.DoResolve | contracts/contracts/NamespaceDApp.sol:467-482 | the same for resolve with owner and key |
| NamespaceContract.NamespaceDApp.ListRecords | contracts/contracts/NamespaceDApp.sol:489-509 | collects the live records in list order |
| NamespaceContract.ListingIsExact | contracts/contracts/NamespaceDApp.sol:497-508 | in every reachable state, wrapped or not, the listing holds each record lookup can find exactly once, and nothing else |
| NamespaceContract.ValidateName | contracts/contracts/NamespaceDApp.sol:321-330 | accepts exactly the names of 1 to 63 allowed bytes without an edge hyphen |
| NamespaceContract.CheckFieldLengths | contracts/contracts/NamespaceDApp.sol:381-388 | reports the first field that is too long |
| NamespaceContract.PushKey | contracts/contracts/NamespaceDApp.sol:406-409 | pushes an unknown key with its position plus one |
| NamespaceContract.GrammarsAgree | resolver/internal/query/query.go:30-44 | the resolver accepts exactly the names the namespace accepts and exactly the type names the registry accepts |
| NamespaceContract.DeclareType | contracts/contracts/RecordSchemaRegistry.sol:70-76 | a declaration is a step of the joint state machine |
| Admission.RegisterSucceedsExactly | contracts/contracts/NamespaceDApp.sol:223-258 | over every run a registration succeeds if and only if the name is 1 to 63 allowed bytes without an edge hyphen, the key has 1 to 128 bytes, a pending commit for that caller, name, key and secret is 30 seconds to 1 day old, the name is free or expired, and 16, 8, 4, 2 or 1 times the base price is paid with any excess given back |
| Admission.RenewSucceedsExactly | contracts/contracts/NamespaceDApp.sol:261-274 | over every run a renewal succeeds if and only if the name is held and the fee is paid, whoever pays |
| Admission.TransferSucceedsExactly | contracts/contracts/NamespaceDApp.sol:281-305 | a transfer succeeds if and only if the owner of a held name makes it, to a nonzero account with a key of 1 to 128 bytes |
| Admission.SetRecordSucceedsExactly | contracts/contracts/NamespaceDApp.sol:361-404 | a record is stored if and only if the owner of a held name sends at most 16 fields with names up to 64 and values up to 1024 bytes, a selector up to 256 bytes, a positive ttl, and every mandatory field of a declared type |
| Admission.RemoveSucceedsForOwner | contracts/contracts/NamespaceDApp.sol:415-443 | over every run a record is removed if and only if the owner of a held name asks for one that lookup finds; never a panic |
| Admission.DeclareSucceedsExactly | contracts/contracts/RecordSchemaRegistry.sol:117-171 | a type is declared if and only if its name is 1 to 32 allowed bytes and new and it has at most 16 fields of 1 to 32 bytes, none twice; its schema is those fields, the mandatory ones first |
| Admission.RevertsTellTheTruth | contracts/contracts/NamespaceDApp.sol:120-142 | over every run whatever error a reverted call reports is so: of the call, the lease, the commitment, the record or the declaration |
| Provenance.FoundWasWritten | contracts/contracts/NamespaceDApp.sol:396-404 | over every run a lookup finds a record if and only if the name is held and the latest write of that name, type and selector has the current generation; it is then, field by field, what that setRecord call asked for, under the generation of that moment |
| Provenance.ResolveNamesHolder | contracts/contracts/NamespaceDApp.sol:467-482 | over every run resolve answers with the account and key of the latest registration or transfer of a held name, and with nobody otherwise |
| Provenance.EventExactly | contracts/contracts/NamespaceDApp.sol:256-442 | a call emits one watched event naming its domain if it registers, transfers, writes or deletes, and none otherwise; a transfer names it by hash only |
| Ownership.OwnerKeepsActiveName | contracts/contracts/NamespaceDApp.sol:240-242 | over every run in which a name stays active, owner, key and generation change only by a successful transfer made by that owner |
| Ownership.LeaseWasBought | contracts/contracts/NamespaceDApp.sol:238-302 | over every run a registered name was registered by some call; its expiry is the latest registration plus one period for it and one per renewal since, modulo 2^64; and it belongs to whom the latest registration or transfer gave it |
| Ownership.PeriodsArePaid | contracts/contracts/NamespaceDApp.sol:153-161 | over every run each period bought was paid at least the price at the deployed base price; the price lies between once and 16 times the base and never grows with the length of the name |
| Ownership.RegistrationWasCommitted | contracts/contracts/NamespaceDApp.sol:231-236 | every registration reveals the latest commit for that caller, name, key and secret, 30 seconds to 1 day old and not revealed since |
| Ownership.RevealsNeedCommits | contracts/contracts/NamespaceDApp.sol:210-213 | over every run a commitment is revealed at most as often as it was made |
| Ownership.ExpiryDropsOnlyByWrap | contracts/contracts/NamespaceDApp.sol:249-270 | in every reachable state a call shortens a lease exactly when it wraps the 64-bit expiry: by any renewal past 2^64, or by a registration past 2^64 that lands before the old expiry |
| Ownership.ExpiryMonotone | contracts/contracts/NamespaceDApp.sol:270-272 | over every run in which no call on the name wraps its expiry, the lease never gets shorter; other calls are not restricted |
| Lru.RunInv | resolver/internal/cache/cache.go:60-77 | after any trace the list has no duplicate key and is within its capacity |
| Lru.HeldIsLatest | resolver/internal/cache/cache.go:100-111 | what the cache holds under a key is the latest value set and not invalidated or flushed since |
| Lru.SetIsHeldOrPushedOut | resolver/internal/cache/cache.go:100-111 | a set, undropped, unexpired key is held, or at least `capacity` other keys were used since |
| Lru.GetIsJustified | resolver/internal/cache/cache.go:80-96 | hits return the latest, unexpired, undropped value; a miss of such a value means `capacity` distinct other keys were set or hit since it last was |
| Lru.DeliverIsPrune | resolver/internal/cache/cache.go:152-159 | a batch of events removes exactly the keys some event names |
| Lru.DeliveryOrderIrrelevant | resolver/internal/cache/cache.go:152-159 | delivering the same events in another order or repeatedly leaves the same cache |
| TtlCache.IndexMeaning | resolver/internal/cache/cache.go:53-55 | the indexes hold each key under its own name, no empty set, and hash names inverted exactly |
| TtlCache.WithKeyIndex | resolver/internal/cache/cache.go:103-109 | registering a key gives the indexes of the larger key set |
| TtlCache.WithoutKeyIndex | resolver/internal/cache/cache.go:175-183 | the eviction callback gives the indexes of the smaller key set |
| TtlCache.New | resolver/internal/cache/cache.go:61-77 | fails exactly for a capacity below one; otherwise an empty valid cache |
| TtlCache.TTLCache.DropFromIndex | resolver/internal/cache/cache.go:175-183 | takes one key out of both indexes |
| TtlCache.TTLCache.Get | resolver/internal/cache/cache.go:80-96 | returns the held unexpired value and moves it to the front; removes an expired one; counts hits and misses; indexes stay exact |
| TtlCache.TTLCache.Set | resolver/internal/cache/cache.go:100-111 | stores at the front, evicting the oldest past the capacity; indexes stay exact |
| TtlCache.TTLCache.InvalidateName | resolver/internal/cache/cache.go:114-129 | removes all entries of the name and nothing else, whatever order the keys are visited in |
| TtlCache.TTLCache.InvalidateNameHash | resolver/internal/cache/cache.go:134-140 | removes all entries of the name with that hash and nothing else |
| TtlCache.TTLCache.Flush | resolver/internal/cache/cache.go:143-149 | empties list and indexes |
| TtlCache.TTLCache.HandleEvent | resolver/internal/cache/cache.go:152-159 | removes exactly the keys the event names |
| Watcher.EventWatcher.CollectEvents | resolver/internal/chain/events.go:68-136 | hands over what the filters yield up to the first error: on success every event of the range, on any failure only events of the range |
| Watcher.EventWatcher.ScanOnce | resolver/internal/chain/events.go:50-60 | one scan covers at most 2000 blocks and moves `last` only on success |
| Watcher.EventWatcher.DoTick | resolver/internal/chain/events.go:41-61 | the inner loop terminates; without failures it reaches the head |
| Watcher.EventWatcher.Watch | resolver/internal/chain/events.go:26-63 | for any failures and heads, `last` never decreases, every event up to it has been delivered, and the cache is what those deliveries make of it |
| Coherence.HandleQuery | resolver/internal/server/handle.go:38-59 | a hit returns the cached answer; a miss returns the chain's answer with its signature verdict and any proof, and caches it if positive; a failed read returns an error and caches nothing |
| Coherence.ChangesEmit | contracts/contracts/NamespaceDApp.sol:467-482 | every change of resolve's answer other than by expiry emits a watched event naming that key's domain |
| Coherence.UnhandedKeeps | resolver/internal/server/handle.go:43-55 | an answer that is current, or awaits an event naming its key, stays so under every action that does not hand such an event over |
| Coherence.RunKeeps | resolver/internal/server/handle.go:38-59 | over every run, with the filters and iterators of a scan as separate steps and fills whose read and Set are apart, each cached answer is current or an event naming it is still to be handed over; that a finished scan has handed over everything is derived |
| Coherence.CachedAnswersAgree | resolver/internal/server/handle.go:32-59 | whenever the watcher has caught up, every cached record, owner and key is what resolve returns now, with its own signature verdict, unless that lease has run out; a Set may come any time after its chain read as long as no event naming the key was handed over in between |
| Coherence.HitsAreInTime | resolver/internal/server/handle.go:43-55 | over every run a query is answered from the cache only up to ttl seconds after the fill that stored the answer |
| Coherence.ScanIsRun | resolver/internal/chain/events.go:50-60 | one scan of the event watcher, whatever fails in it, is a run of enabled steps of the system that ends with the same cache and position |
| Coherence.SplitFillGoesStale | resolver/internal/server/handle.go:43-55 | a run of enabled steps in which a removal between read and Set leaves a stale answer in a caught-up cache |
| Coherence.LateFillExact | resolver/internal/server/handle.go:43-55 | in any run, storing at n what the chain answered at i keeps coherence exactly when the answer is unchanged or an event naming the key is still to come; it does if no such event was handed over in between, and at the head it fails if one changed the answer |
| Incentives.OwedRemove | contracts/contracts/ResolverIncentives.sol:25-31 | the sum owed splits off any one channel |
| Incentives.OpenKeeps | contracts/contracts/ResolverIncentives.sol:66-78 | opening keeps the balance equal to what is owed and uses an identifier never used before |
| Incentives.ClaimKeeps | contracts/contracts/ResolverIncentives.sol:88-100 | the contract is solvent when the resolver's code gets control |
| Incentives.CloseKeeps | contracts/contracts/ResolverIncentives.sol:107-117 | the contract is solvent when the client's code gets control |
| Incentives.ExecKeeps | contracts/contracts/ResolverIncentives.sol:83-121 | after every call, and at every external call inside it however deeply callees re-enter, the contract is solvent; every call made at any depth can be paid |
| Incentives.AlwaysSolvent | contracts/contracts/ResolverIncentives.sol:66-121 | over every run from deployment the balance is the sum of deposit minus claimed over open channels plus ether forced in, and claimed never exceeds the deposit |
| Incentives.NeverShort | contracts/contracts/ResolverIncentives.sol:98-118 | over every run from deployment no valid claim or refund, at top level or inside a callee, fails for lack of ether, and no identifier is reused |
| Incentives.CloseSettles | contracts/contracts/ResolverIncentives.sol:106-121 | a close succeeds only for the client and not before expiry plus one hour, and payouts plus refund equal the deposit |
| Incentives.NoEarlyClose | contracts/contracts/ResolverIncentives.sol:72-112 | whatever calls happen in between, at any depth, a channel opened at time t is no longer open exactly when its client has closed it, and that not before t plus its duration, at least one hour, plus the settlement hour |
| Incentives.PayoutIsLargestVoucher | contracts/contracts/ResolverIncentives.sol:80-103 | over every run of any calls, re-entrant receivers included, an open channel pays the smaller of its deposit and the largest valid voucher presented anywhere in the run, and a closed one refunded the rest |
| Incentives.OpenedPays | contracts/contracts/ResolverIncentives.sol:66-121 | after an opening and any calls at all, the channel has paid the smaller of the value sent and the largest voucher signed by the account that opened it and presented by the resolver it named; its terms are those of the opening, or the rest was refunded |
| Incentives.TotalPaid | contracts/contracts/ResolverIncentives.sol:66-121 | from deployment on, every channel ever opened, at top level or inside a callee, has paid the smaller of its deposit and its largest voucher |
| Incentives.PayoutOrderIrrelevant | contracts/contracts/ResolverIncentives.sol:80-103 | two runs that present the same vouchers, in whatever order, however often and however nested, pay the same |
| Incentives.ClaimsPresent | contracts/contracts/ResolverIncentives.sol:80-103 | claims made one after the other present exactly the set of their vouchers |
| Incentives.OpenSucceedsExactly | contracts/contracts/ResolverIncentives.sol:66-78 | a channel is opened if and only if a resolver is named, ether is sent and the end fits in 64 bits |
| Incentives.ClaimSucceedsExactly | contracts/contracts/ResolverIncentives.sol:83-103 | after an opening and any calls, a claim succeeds if and only if the named resolver presents a voucher of the opener worth more than was paid, to a receiver that accepts |
| Incentives.CloseSucceedsExactly | contracts/contracts/ResolverIncentives.sol:106-121 | after an opening and any calls, a close succeeds if and only if the opener makes it from the end of the settlement hour on and takes what is left |
| Incentives.RevertsTellTheTruth | contracts/contracts/ResolverIncentives.sol:55-63 | whatever error a reverted call reports is so |
| Incentives.ResolverIncentives.OpenChannel | contracts/contracts/ResolverIncentives.sol:66-78 | checks and effects of opening |
| Incentives.ResolverIncentives.BeginClaim | contracts/contracts/ResolverIncentives.sol:88-100 | checks and effects of a claim, up to its external call |
| Incentives.ResolverIncentives.BeginClose | contracts/contracts/ResolverIncentives.sol:107-117 | checks and effects of a close, up to its external call |
| Incentives.ResolverIncentives.Execute | contracts/contracts/ResolverIncentives.sol:83-121 | a whole call with its re-entrant callee; a revert undoes everything, nested calls included |
| RecordMessage.RecordMessage | resolver/internal/pki/owner.go:31-64 | builds the length-prefixed message over the order sort.Slice gives the fields, which is one sorted order of the pairs |
| RecordMessage.MessageOnTheWire | resolver/internal/pki/owner.go:26-62 | the bytes of a message: tag, three length-prefixed strings, ttl in 4 bytes, generation in 8, field count in 2, then length-prefixed names and values, all high byte first |
| RecordMessage.MessageInjective | resolver/internal/pki/owner.go:21-30 | equal bytes imply equal name, type, selector, ttl, generation and field pairs, when every length fits 16 bits |
| RecordMessage.MessageCanonical | resolver/internal/pki/owner.go:50-62 | unless a field name carries two values, the message ignores the order the fields are listed in |
| RecordMessage.MessageCanonicalExactly | resolver/internal/pki/owner.go:50-62 | two listings of one record have the same message whatever sort.Slice does with equal names if and only if the listings are equal or no field name carries two values |
| RecordMessage.ListingOrderShows | resolver/internal/pki/owner.go:50-62 | a field name listed with two values, in both orders: under a stable sort the two messages differ |
| Sorting.SortedAlikeExactly | resolver/internal/pki/owner.go:55 | two listings of the same pairs are sorted alike by every sort by name if and only if they are equal or no name carries two values |
| Sorting.LessExactly | resolver/internal/pki/owner.go:55 | the sort order is byte order: the first difference decides and a proper prefix is smaller |
| RecordMessage.ShortMessageSized | resolver/internal/pki/owner.go:34-39 | in a message below 64 KiB no length was truncated |
| RecordMessage.OnChainMessageShort | contracts/contracts/NamespaceDApp.sol:377-388 | every record the contract accepts has a message below 64 KiB |
| Witness.PackMessage | resolver/internal/zk/zk.go:61-77 | refuses exactly messages above 496 bytes; otherwise gives the length and 16 big-endian numbers of 31 bytes each, the last one used possibly shorter and the rest 0 |
| Witness.ElementsAreReduced | contracts/contracts/ZKVerifier.sol:38 | every element is below 2^248 and below the scalar order |
| Witness.PackInjective | resolver/internal/zk/zk.go:61-77 | two messages that fit are packed alike only if equal |
| Witness.WitnessesDistinguishRecords | resolver/internal/zk/zk.go:5-8 | records that fit, in which no field name carries two values, have equal witnesses exactly when name and body are equal |
| CrossCheck.DiffAgainstChain | resolver/cmd/ddns-lookup/main.go:298-334 | a positive answer is accepted exactly when its own fields equal the chain's owner, key, commitment, signature, type, selector, ttl, generation and field pairs, whatever lengths it claims, and both field lists sort alike, as they do in the same order, or in any order if no field name carries two values; a negative answer exactly when the chain has none; the client crashes exactly on a missing record or on a missing field value behind matching credentials; a reported mismatch is real |
| CrossCheck.AlikeExactly | resolver/cmd/ddns-lookup/main.go:329-332 | the chain's own answer passes the body comparison whatever sort.Slice does with equal names if and only if it lists the fields in the same order or no field name carries two values |
| CrossCheck.EqualMessagesExact | resolver/cmd/ddns-lookup/main.go:329-332 | against an on-chain record, message bytes are equal exactly when bodies and sorted fields are, although the response is unbounded |
| Selector.NormalizeIsClean | resolver/internal/query/query.go:57-83 | a normalized pair has a valid key, no separator bytes, and normalizes to itself |
| Selector.NormalizedExactly | resolver/internal/query/query.go:57-83 | every pair is accepted if and only if its trimmed lower-cased key is valid and its value is a port of 1 to 65535, one of UDP, TCP, QUIC or of HTTP, SMTP once upper-cased, or meets the value pattern; and it becomes exactly that |
| Selector.NormalMapExactly | resolver/internal/query/query.go:50-89 | a selector is accepted if and only if each pair is and no two have the same key; its normal form holds what they become and nothing else |
| Selector.CanonicalSelector | resolver/internal/query/query.go:50-96 | acceptance and output depend on the pairs only, not on the order the map is visited in |
| Selector.CanonicalIsRendered | resolver/internal/query/query.go:90-96 | the canonical string is key=value of the normal form, by key, joined with ampersands |
| Selector.ParsePairs | resolver/internal/query/query.go:101-117 | splits, cuts, lowercases and refuses duplicates as specified |
| Selector.ParsedExactly | resolver/internal/query/query.go:101-117 | a text is read as a map if and only if it is blank and the map empty, or every fragment between ampersands has an equals sign and the map holds their lower-cased keys and values, no key twice |
| Selector.SplitFragments | resolver/internal/query/query.go:106 | every text splits into its fragments between separators |
| Selector.CutExactly | resolver/internal/query/query.go:107 | a fragment is cut at its first equals sign, and refused exactly without one |
| Selector.ParseRendered | resolver/internal/query/query.go:90-117 | parsing a rendered selector gives back its normalized map |
| Selector.CanonicalIsFixedPoint | resolver/internal/query/query.go:120-126 | every accepted output is a fixed point of ParseSelectorString |
| Selector.CanonicalDistinguishes | resolver/internal/query/query.go:46-96 | two accepted inputs give the same string exactly when their normalized maps are equal |
| Selector.New | resolver/internal/query/query.go:129-141 | a query is built exactly from a valid name, a valid type and an accepted selector |
| Selector.PortRange | resolver/internal/query/query.go:63-68 | a port is accepted exactly in 1 to 65535 and printed in plain decimal |
| Selector.AtoiItoa | resolver/internal/query/query.go:63-68 | a printed port number reads back as itself |
| Selector.AtoiReadsSigned | resolver/internal/query/query.go:64 | a number is an optional sign and digits, with their decimal value |
| Selector.AtoiReadsOnly | resolver/internal/query/query.go:64 | nothing but an optional sign and at least one digit is read as a number |
| Selector.DecimalReads | resolver/internal/query/query.go:64-68 | plain digits behind any zeros are worth their number |
| Udp.EncodeUDPResponse | resolver/internal/server/udp.go:175-188 | header and TLVs in order, leaving out values of 64 KiB or more |
| Udp.EncodeUDPQuery | resolver/internal/server/udp.go:162-168 | the three query TLVs under status 0 |
| Udp.QueryOnTheWire | resolver/internal/server/udp.go:162-188 | the literal bytes of an encoded query |
| Udp.ReadTlv | resolver/internal/server/udp.go:138-153 | reads one TLV or reports truncation; the index advances and stays within the packet |
| Udp.DecodeFields | resolver/internal/server/udp.go:136-154 | decoding any packet terminates within bounds with the specified fields or error |
| Udp.DecodeUDPQuery | resolver/internal/server/udp.go:123-160 | header checks, fields, selector and query in the code's order |
| Udp.HeaderExactly | resolver/internal/server/udp.go:124-134 | what the header check accepts and reports, on every packet |
| Udp.BodyShape | resolver/internal/server/udp.go:136-153 | every packet body is a sequence of whole TLVs followed by nothing or by one that is cut off |
| Udp.ScanExactly | resolver/internal/server/udp.go:136-154 | a body is read if and only if nothing is cut off and no field 1 to 3 is repeated; the fields are then exactly those, other types skipped; a repeat is reported as such |
| Udp.DecodedExactly | resolver/internal/server/udp.go:123-160 | every packet decodes to the query its fields 1, 2 and 3 make, if and only if they make one |
| Udp.UnknownTlvIgnored | resolver/internal/server/udp.go:147-152 | a TLV of unknown type inserted at any TLV boundary changes neither fields nor error |
| Udp.QueryIgnoresUnknown | resolver/internal/server/udp.go:123-160 | the same for the decoded query of a whole packet |
| Udp.QueryRoundTrip | resolver/internal/server/udp.go:123-168 | a query built by New survives encoding and decoding exactly when its selector is at most 65535 bytes |
| Udp.DecodeUDPResponse | resolver/internal/server/udp.go:190-216 | decodes status and all TLVs, or reports the first fault |
| Udp.ScanAllExactly | resolver/internal/server/udp.go:200-214 | a response body of whole TLVs is read completely, and one with a cut-off TLV is refused as such |
| Udp.ResponseRoundTrip | resolver/internal/server/udp.go:175-216 | a decoded response has the status and, per type, the encoded values in order |
| JsonScanner.ExtractRaw | extension/popup.js:27-49 | the scanning loop computes the specified extraction |
| JsonScanner.FeedValue | extension/popup.js:36-46 | scanning any whole JSON value inside a container leaves depth and string state unchanged |
| JsonScanner.ExtractIsExact | extension/popup.js:24-49 | for every object or array sent as the first field the extraction is exactly its text, whatever its strings contain |
| Torrent.RunKeeps | resolver/internal/torrent/torrent.go:102-164 | over every interleaving reference counts are exact, retentions are distinct, pinned and at most 256, and a torrent is kept exactly while pinned or read |
| Torrent.DropsAreSafe | resolver/internal/torrent/torrent.go:120-164 | a drop is decided only without reader and without pin |
| Torrent.LastReaderDecides | resolver/internal/torrent/torrent.go:120-135 | the last reader drops a torrent unless it is pinned at that moment |
| Torrent.SeededStaysPinned | resolver/internal/torrent/torrent.go:100-106 | a torrent seeded while not retained stays pinned over every later run |
| Torrent.SeededWhileRetainedIsEvicted | resolver/internal/torrent/torrent.go:150-157 | from any state in which a retained torrent is seeded there is a run of enabled steps, 256 fetches of other torrents, that unpins it |
| Torrent.SeededStaysPinnedExactly | resolver/internal/torrent/torrent.go:100-106 | a seeded torrent keeps its pin over every later run if and only if it was not in the retained list |
| Torrent.RetainedAreNewest | resolver/internal/torrent/torrent.go:143-157 | after retaining new torrents the list holds the newest 256 and exactly the older ones are unpinned |
| Torrent.RetainAgain | resolver/internal/torrent/torrent.go:143-149 | retaining a pinned torrent again changes nothing |
| Torrent.Engine.Pin | resolver/internal/torrent/torrent.go:102-106 | pins and changes nothing else |
| Torrent.Engine.Acquire | resolver/internal/torrent/torrent.go:110-114 | counts one more reader |
| Torrent.Engine.Release | resolver/internal/torrent/torrent.go:120-135 | counts one reader less, forgets a zero count, and decides the drop |
| Torrent.Engine.Retain | resolver/internal/torrent/torrent.go:143-164 | pins and appends a new torrent, then unpins the oldest until the bound holds, dropping those without readers |
| Torrent.Engine.EndFetch | resolver/internal/torrent/torrent.go:271-276 | the deferred end of a fetch: retain if verified, then release |

## Left out

- Coherence.CachedAnswersAgree: says nothing of runs in which an event naming the key is handed over between a fill's chain read and its Set, because there the code can leave a stale answer (`SplitFillGoesStale`, `LateFillExact`).
- Torrent.SeededStaysPinnedExactly: takes info hashes as byte strings of any length, so that 256 new ones always exist; those of the code have 20 bytes.
- Fee collection, `withdraw` and the ether balance of the namespace contract; whether a refund succeeds is an input of each call.
- Events the resolver does not watch (Committed, Renewed, TypeDeclared, and all events of the payment channels).
- Chain reorganizations, and cancellation of the watcher.
- Secp256k1, ed25519, MiMC and Groth16, including the voucher digest: signature results are inputs.
- The torrent client itself: a drop is a decision, and the later unlocked call is not modelled.
- Hexadecimal decoding in the client: a decoded or undecodable string is an input.
- `extractRaw` on texts in which the wanted field is not the envelope's first, or which contain whitespace.
- The rate limiter, whose map has no hard bound.
- `ResolverRegistry.sol`, `resource.go`, `pay.go`, `contenttype.go`: a simple enumeration, fixed layouts and a case split that would add only easy members.
- HTTP handlers, admin page, showcase, web gateway, configuration, command lines, deployment scripts and generated bindings.
