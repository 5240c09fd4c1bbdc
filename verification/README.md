# Verified model of the DHCP server's lease logic

The server hands out DHCPv4 addresses, DHCPv6 addresses and delegated prefixes.
Several nodes share one PostgreSQL database: each allocation is one transaction
under a per-scope lock, while activation, release, decline and the expiry sweeps are
single statements outside that lock. This project models that logic in Dafny and
proves what holds over every input, every run and every interleaving. It also models
the packet codecs, the relay encapsulation, the buffered-Discover timers and the
option merge.

| file | content |
|---|---|
| `Wrappers.dfy` | the option type |
| `Leases.dfy` | lease rows, the occupancy rule, sweep, cleanup, state updates, unique keys |
| `Words128.dfy` | two-word 128-bit arithmetic and the sub-prefix candidate |
| `PoolSearch.dfy` | first-fit search of the address range, 32-bit and 128-bit loops |
| `Allocator.dfy` | the allocation transaction as a function, and its properties |
| `LeaseStore.dfy` | the shared store as a class, proved against `Allocator` |
| `Handlers.dfy` | Discover, Request, Release and Decline on one node |
| `Cluster.dfy` | runs of many nodes and clients; mutual exclusion of claims |
| `Offers.dfy` | an ACK's row, and offers being honoured |
| `Quarantine.dfy` | what Decline and Release achieve over runs |
| `ReservationGuard.dfy` | reservation edits beside the allocator |
| `Protection.dfy` | what a confirmed DHCPv6 lease is worth, over runs of all other clients |
| `PrefixDelegation.dfy` | /64 delegation out of a pool |
| `DiscoverBuffer.dfy` | the buffered-Discover timer protocol |
| `Wire.dfy`, `Dhcp4Codec.dfy`, `Dhcp6Codec.dfy` | bytes and the two codecs |
| `RelayChain.dfy` | DHCPv6 relay unwrapping and re-wrapping |
| `OptionMerge.dfy`, `ClasslessRoutes.dfy` | reply options and option 121 |

Modelling decisions:

- A scope's lease table is a map from address to row. That is the unique key
  `(scope_id, ip_addr)`, the conflict target of every lease upsert; the key on the
  client and the primary key are predicates. The prefix table is keyed by client, its
  own conflict target.
- An upsert that meets an existing row keeps that row's id, so the id returned to the
  handler and the id in the table are kept apart.
- The v4 and v6 allocation transactions have the same branches and differ only in the
  client key. One definition covers both: a client is an owner (hardware address or
  DUID) plus an identity association, which is always 0 for v4. Occupancy compares
  owners, uniqueness compares whole clients, as in the source.
- A transaction is one atomic step. Its clock may lag behind its commit by any amount.
  A v4 Request is two steps, allocation and activation by id, with anything in
  between; the activation comes at most five seconds after the allocation's clock.
- Fresh uuids are numbers from an increasing supply. Times are microseconds.
- Iteration over a Go map is a choice in arbitrary order.
- A run-time panic of the source is a result value (`Fault`, `Crash`), not a
  precondition. Where a loop of the source does not end, the method that models it
  requires the condition under which it does, and a lemma shows the condition exact.
  A transaction whose pool search does not end commits nothing and keeps the scope
  lock. In `Cluster` the later transactions of the scope then fail; in the other state
  machines they do not occur.
- Creating or changing a reservation is two steps, the check and the write; a write that
  would repeat a client or an address fails.
- A DHCPv6 Release or Decline is two steps: the handler reads the id of the client's
  row, and later writes the state by that id.

Where code and comments differ the model follows the code. The comment at
`internal/dhcp/server.go:523-524` says the lease upsert is by hardware address; it is
by address, which is why the returned id can miss (`ReturnedIdExact`). The comment at
`internal/store/store.go:2485-2487` states a formula that the code meets for lengths
up to 64 and beyond that only at index 0 or length 96 (`PrefixCandidateExact`).

What came out false as first stated, with the exact condition proved instead:

- The pool search returns the least free address of the range, and fails when there is
  none, iff the range ends below the top of the address space or holds a free address.
  Otherwise the counter wraps and an address below the range is granted, or, if none is
  left, the loop never ends (`SearchIsLeastFreeExactly`, `PoolSearch.DivergesExactly`,
  `TopOfSpaceWitnesses`).
- A confirmed DHCPv6 address is kept until the lease ends, in every run of the others
  that does not revoke it, iff the returned id named the stored row or the lease is not
  longer than the offer window (`ConfirmationProtectsExactly`,
  `LateConfirmationProtectsExactly`). Whether the id names the
  row is known before the call (`ReturnedIdExact`, `StaleRowMisses`). Revoked means
  taken over by another association of the same owner, or hit by a late release or
  decline of its id, and nothing else ends the hold (`HoldsExactly`,
  `SameOwnerTakesOver`, `LateReleaseHitsSuccessor`).
- The same holds for a delegated prefix, which other associations cannot take over
  (`ConfirmationProtectsPrefixExactly`, `HoldsPrefixExactly`, `ReleasedPrefixMisses`).
- Live leases stay off other clients' reservations iff every late activation finds its
  row still live or its address unreserved, and every late reservation write finds no
  live row of somebody else (`ClearExactly`, `LateActivationTrespasses`,
  `GrantBetweenCheckAndWrite`).
- An offer is honoured iff the offered address lies in the subnet and no transaction of
  the scope hangs (`OfferHonoured`, `OfferOutsideSubnet`, `HangingDiscoverSpoilsOffer`).
- A declined address is withheld from its client by the next allocation iff it is not
  reserved for that client (`QuarantineEndsWithNextAllocation`).
- Within the hour after a Decline nobody else is granted the address iff neither cleanup
  deletes the declined row nor an outstanding Request of its client activates it, and
  the client does not allocate again (`QuarantineExactly`, `DeclinedAddressIsWithheld`).
- Cleanup of long-expired rows frees an occupied address exactly when it deletes a
  still-open offer or a row in decline quarantine (`CleanupFreesExactly`).
- An Offer advertises the stored lease duration iff the scope's lease time does not
  exceed its maximum (`HandleDiscover`).
- The DHCPv6 option parser panics iff it reaches a header that declares 65532 bytes or
  more (`FaultExact`, `FaultWitness`).
- The scan for the requested DHCPv6 address ends iff it meets no header, other than an
  IA address, that declares 65532 bytes (`Dhcp6Codec.DivergesExactly`,
  `StandstillWitness`), and stays within the option iff it meets no IA address header
  of that size with fewer than 20 bytes left (`CrashExact`, `CrashWitness`).
- The order in which a configured option layer is iterated is irrelevant iff keys of one
  code that could be built agree (`OrderIrrelevantExactly`, `SpellingsClash`).

## Model

| member | source | states |
|---|---|---|
| Leases.BlocksIsSqlUsed | internal/store/store.go:34-48 | for every row and clock the in-process occupancy test equals the database's used-address filter |
| Leases.OccupancyExact | internal/store/store.go:34-48 | an active row occupies its address until its end, an offer for 120 seconds, a declined row for an hour, others not at all |
| Leases.BlockingOnlyEnds | internal/store/store.go:1688-1693 | without a write a row never starts blocking again, so a lagging transaction clock only over-approximates occupancy |
| Leases.SweepKeepsBlocking | internal/store/store.go:791-798 | the expiry sweep changes no address's occupied status from its clock onwards |
| Leases.SweepExact | internal/store/store.go:791-798 | the sweep expires exactly the active and offered rows that had stopped occupying their address before its clock |
| Leases.CleanupFreesExactly | internal/store/store.go:958-964 | cleanup frees an occupied address iff it deletes its row, and never an active lease |
| Leases.CleanupExact | internal/store/store.go:958-964 | a row outlives its end by exactly the retention time |
| Leases.CleanupCanLiftQuarantine | internal/store/store.go:958-964 | a declined row still in quarantine can be deleted by cleanup |
| Leases.UpdatesNarrow | internal/store/store.go:709-712 | no statement outside the transaction changes an id or client or adds a row |
| Leases.WriteByIdExact | internal/store/store.go:709-712 | by id exactly the row with that id takes the state: active until its end, declined for an hour, released not at all |
| Leases.WriteByClientExact | internal/store/store.go:942-952 | by client and address only that client's live row there takes the state, and no other row changes |
| Leases.ClampLease | internal/store/store.go:1671-1679 | the duration used is positive, at most the maximum, and the requested one when that is within bounds |
| Leases.ClampLeaseExact | internal/store/store.go:1671-1679 | it is the greatest duration within the requested one and the maximum, an hour and a day if unset |
| Words128.Cmp | internal/store/store.go:2559-2573 | the high-word-first comparison is the order of the 128-bit numbers |
| Words128.AddOne | internal/store/store.go:2575-2584 | increment with carry adds one and wraps only at the top |
| Words128.PrefixCandidateUpTo64 | internal/store/store.go:2488-2494 | for lengths up to 64 the candidate is base + i*2^(128-len) in 128-bit space |
| Words128.PrefixCandidateBeyond64 | internal/store/store.go:2495-2501 | beyond 64 the code advances by i*2^(len-64) instead |
| Words128.PrefixCandidateExact | internal/store/store.go:2485-2501 | beyond 64 the commented formula holds iff i is 0 or the length is 96 |
| PoolSearch.LeastFreeIsMinimum | internal/store/store.go:2229-2241 | the specification returns an address iff it is free, strictly inside the range and the least such; none iff none is free |
| PoolSearch.DivergesExactly | internal/store/store.go:2231-2240 | the loop never ends iff the range ends at the top of the address space and every address but the bounds is used |
| PoolSearch.SearchIsLeastFreeExactly | internal/store/store.go:2231-2241 | the loop ends with the least free address of the range, or with failure when there is none, iff the range ends below the top or holds a free address; else it goes on below the range |
| PoolSearch.TopOfSpaceWitnesses | internal/store/store.go:2231-2240 | an exhausted scope up to 255.255.255.255 is granted 0.0.0.0, and with everything below taken the search never ends |
| PoolSearch.SearchV4 | internal/store/store.go:2229-2241 | the uint32 loop, on every range on which it ends, returns the least free address; with none free it fails, or wraps and returns the least unused address below a range that ends at the top |
| PoolSearch.SearchV6 | internal/store/store.go:2384-2396 | the two-word loop with carry refines the same search over naturals, wrap included |
| Allocator.SaveKeepsKeys | internal/store/store.go:2125-2140 | an upsert keeps both keys and succeeds when no other row has the client or the new id |
| Allocator.AllocateKeepsKeys | internal/store/store.go:1743-1830 | from any table with both keys every path commits a table with both, and the save never trips the client key |
| Allocator.V4AllocateKeepsTable | internal/store/store.go:1670-1833 | a v4 table stays a v4 table with keys and ids below the supply |
| Allocator.GrantedRow | internal/store/store.go:1712-1830 | the committed row at the granted address belongs to the client, is live, starts at the clock and ends one lease after it |
| Allocator.OthersUntouched | internal/store/store.go:1773-1812 | an occupied row of another owner is in the committed table unchanged, on every path |
| Allocator.RowsComeFrom | internal/store/store.go:1743-1830 | every other committed row is an old row; the granted one carries an old id or the fresh one |
| Allocator.CommittedTable | internal/store/store.go:1743-1830 | the committed table has one row at the granted address, no other row of the client, and every other row unchanged |
| Allocator.OwnLeaseExactly | internal/store/store.go:1711-1736 | the own row is reused iff it is live, in range, reserved for nobody else and not contradicted by a reservation; id and state stay, an offer is made anew, the lease starts at the clock |
| Allocator.ConfirmedStaysConfirmed | internal/store/store.go:1723-1735 | a bare renewal keeps a confirmed lease occupied until the new lease ends |
| Allocator.ReservedExactly | internal/store/store.go:1748-1768 | otherwise a client with a reservation gets that address, or nothing iff another owner occupies it |
| Allocator.PreferredExactly | internal/store/store.go:1770-1809 | otherwise the address asked for is granted iff it is in the subnet, no infrastructure, reserved for nobody, occupied by no other owner and not in own quarantine |
| Allocator.PoolExactly | internal/store/store.go:1811-1815 | otherwise the least available address strictly inside the range is granted, and nothing iff there is none |
| Allocator.NewRowExact | internal/store/store.go:1816-1829 | a new row is an offer made at the clock with a fresh id returned |
| Allocator.DecisionAvoidsHeld | internal/store/store.go:1780-1792 | a new row never lands on an address another owner occupies at that clock |
| Allocator.GrantNotReservedForOther | internal/store/store.go:1715-1720 | no path grants an address reserved for a different owner |
| Allocator.NewGrantIsLegal | internal/store/store.go:1773-1812 | a new row for a client without reservation is not excluded, gateway, DNS, reserved, occupied by another owner or this client's quarantined address; it lies outside subnet and range only below an exhausted range that ends at the top |
| Allocator.DeniedExactly | internal/store/store.go:1811-1815 | without reservation a client gets nothing iff it has nothing to keep, its preferred address is unusable and the pool search finds nothing |
| Allocator.QuarantineEndsWithNextAllocation | internal/store/store.go:1739-1751 | an allocation returns the address its client has in quarantine iff it is reserved for that client; otherwise it deletes the declined row, ending the quarantine |
| Allocator.ReturnedIdExact | internal/store/store.go:1875-1990 | the returned id names the stored row iff the own row was reused or the save inserted, and this is decided before the call by the guards: something to keep, a row of the same owner at the reserved or preferred address, a stale row where the pool search ends |
| Allocator.StaleRowMisses | internal/store/store.go:2284-2292 | a miss exists: a pool address with an expired row of somebody else keeps that row's id |
| Allocator.ActivationHitsOnlyNamedRow | internal/store/store.go:1216-1219 | activating the returned id changes exactly the granted row if the id names it, and nothing otherwise |
| Allocator.PoolAvoidsRefused | internal/store/store.go:1773-1815 | the pool never returns an in-subnet preferred address that was just refused |
| Allocator.V4ConfirmActivates | internal/dhcp/server.go:500-529 | for v4, granting the requested address implies the returned id is the row's, so activation leaves it active, owned and ending on time |
| Allocator.LostActivationFreesAddress | internal/dhcpv6/server.go:478-487 | a missed activation leaves an offer that any other entitled owner is granted after the offer window, however long the first lease runs |
| Protection.AllocationKeepsExact | internal/store/store.go:1930-1968 | an allocation for another association of the same owner leaves an occupied row as it is, unless guards known before the call make it take the address over |
| Protection.StepHoldsExact | internal/dhcpv6/server.go:501-557 | an event of anybody else ends a hold iff it is a take-over or a late release or decline carrying the row's id |
| Protection.HoldsExactly | internal/dhcpv6/server.go:546-557 | over every run before the lease ends, a client holds its address in every state iff no event takes it over or dismisses its id |
| Protection.ConfirmationProtectsExactly | internal/dhcpv6/server.go:546-557 | a confirmed client keeps its address until the lease ends in every undisturbed run of the others iff the returned id named the stored row or the lease is not longer than the offer window |
| Protection.LateConfirmationProtectsExactly | internal/dhcpv6/server.go:546-557 | the same iff when events of the others fall between allocation and activation |
| Protection.SameOwnerTakesOver | internal/store/store.go:1945-1967 | a second association of the same owner that asks for a held address gets it, and the first has no row left |
| Protection.LateReleaseHitsSuccessor | internal/dhcpv6/server.go:993-1007 | a late release that read a stale row's id ends the active lease of the client the id passed to |
| Protection.DismissalExact | internal/dhcpv6/server.go:993-1007 | an uninterrupted DHCPv6 Release frees, and a Decline withholds for an hour, exactly the client's row in whatever state |
| Protection.BackgroundExact | internal/store/store.go:1296-1303 | the same for the DHCPv6 table |
| LeaseStore.MarkUsed | internal/store/store.go:2212-2222 | the loop adds exactly the listed addresses to the used set |
| LeaseStore.AllocateFromPool | internal/store/store.go:2169-2242 | the used set and search yield the specified address, on every scope of the family on which the search ends |
| LeaseStore.Store.SaveRow | internal/store/store.go:2125-2140 | upsert by address keeping the existing id, or failure leaving the table alone |
| LeaseStore.Store.EnsureAvailable | internal/store/store.go:2152-2167 | succeeds iff no other owner occupies the address, removing a stale row in the way |
| LeaseStore.Store.PickAddress | internal/store/store.go:1748-1815 | reservation, preferred, pool: the decision of the specification, with the stale row evicted |
| LeaseStore.Store.RunAllocation | internal/store/store.go:1694-1830 | the statements in order commit the specified table and lease |
| LeaseStore.Store.AllocateLease | internal/store/store.go:1670-1833 | the transaction with clamped lease time and rollback equals the specification and keeps the invariant |
| LeaseStore.Store.UpdateState | internal/store/store.go:709-712 | unconditional state update by id |
| LeaseStore.Store.UpdateStateByClientIp | internal/store/store.go:942-952 | guarded state update, reporting whether a live row matched (see `WriteByClientExact`) |
| LeaseStore.Store.ReleaseExpired | internal/store/store.go:791-798 | the sweep statement |
| LeaseStore.Store.CleanupExpired | internal/store/store.go:958-964 | the retention statement with its fallbacks |
| Handlers.CallStore | internal/dhcp/server.go:500-511 | a handler's allocation is the specified one at its clock |
| Handlers.HandleDiscover | internal/dhcp/server.go:397-422 | an Offer iff the allocation grants, naming a live row of the client; the row ends one advertised lease later iff the scope's lease time does not exceed its maximum |
| Handlers.HandleRequest | internal/dhcp/server.go:469-537 | ACK iff not refused up front and the allocation grants exactly the requested address; the row is then active, owned and ends one advertised lease later; a Request against the reservation or outside the subnet changes nothing |
| Handlers.HandleRelease | internal/dhcp/server.go:547-561 | releases only the client's own live lease at ciaddr |
| Handlers.HandleDecline | internal/dhcp/server.go:571-592 | declines only the client's own live lease at the named address |
| Cluster.AckedLeaseIsStored | internal/dhcp/server.go:481-498 | the lease time in an ACK is the stored one, positive, capped and never above the client's wish |
| Cluster.RequestLeaseExact | internal/dhcp/server.go:481-498 | the lease time of an ACK is the greatest within the scope's lease time, its maximum and the client's wish, an hour and a day if unset |
| Cluster.OfferLeaseExact | internal/dhcp/server.go:397-400 | an Offer advertises the scope's lease time, an hour if unset |
| Cluster.ActivationInTime | internal/dhcp/server.go:301-302 | an activation within five seconds of the allocation's clock makes its row active and acknowledges; a later one does nothing |
| Cluster.BackgroundExact | internal/store/store.go:791-798 | in a run, time passes, a sweep expires exactly the lapsed rows and cleanup deletes exactly the rows past retention |
| Cluster.TransactKeepsOther | internal/store/store.go:1682-1693 | no transaction of another client touches an occupied row, even with a lagging clock |
| Cluster.StepWellFormed | internal/store/store.go:1670-1833 | every event of a run keeps both keys |
| Cluster.RequestSafe | internal/dhcp/server.go:500-521 | a Request keeps every outstanding Request and claim backed by its row |
| Cluster.ActivateSafe | internal/dhcp/server.go:523-529 | a late activation by id keeps every outstanding Request and claim backed |
| Cluster.StepSafe | internal/dhcp/server.go:425-597 | every event keeps unexpired claims backed by active rows of the claimant |
| Cluster.RunSafe | internal/dhcp/server.go:425-597 | so does every run |
| Cluster.MutualExclusion | internal/store/store.go:1666-1833 | in every state of every multi-node run no two clients hold unexpired acknowledged claims to one address |
| Offers.AckLeavesActiveRow | internal/dhcp/server.go:500-537 | an uninterrupted Request that is acknowledged leaves the active row and the claim of exactly the advertised length |
| Offers.GrantEntitles | internal/store/store.go:1712-1812 | a grant inside the subnet implies what the configuration must say for the owner to keep the address |
| Offers.GrantsLieInSubnet | internal/store/store.go:1712-1812 | every grant lies in the subnet if range and reservations do and the range ends below the top |
| Offers.OwnerIsGranted | internal/store/store.go:1712-1808 | the owner of a live row it is entitled to gets that address again |
| Offers.OthersLeaveOffer | internal/store/store.go:1773-1812 | no event of others takes an occupied offer away; at most a late activation makes it active |
| Offers.OfferSurvives | internal/dhcp/server.go:356-423 | nor does any run of such events |
| Offers.OfferHonoured | internal/dhcp/server.go:469-529 | after a Discover granted an address, the client's Request for it is acknowledged, whatever others do while the row occupies it, iff the address lies in the subnet and no transaction of the scope hangs |
| Offers.WindowStaysOpen | internal/store/store.go:18-22 | until the offer window or the lease ends the row does occupy it, whatever others do |
| Offers.OfferHonouredInTime | internal/dhcp/server.go:469-529 | by the clock alone: a Request before the offer window and the offered lease are over is acknowledged iff the address lies in the subnet and no transaction of the scope hangs |
| Offers.ConfirmedLeaseSurvivesDiscover | internal/dhcp/server.go:409-413 | after a confirmed client's bare Discover, whatever others do, its row stays active and nobody else is granted the address until the renewed lease ends |
| Offers.HungExactly | internal/store/store.go:1682-1686 | the scope lock is held forever after a run iff it was before or a transaction of the run reaches a search that does not end |
| Offers.NeverHangs | internal/store/store.go:2231-2241 | a scope whose range ends below the top never gets there |
| Offers.OfferOutsideSubnet | internal/api/api.go:396-404 | an offer outside the subnet exists, since the range is not checked against it |
| Offers.HangingDiscoverSpoilsOffer | internal/store/store.go:1684-1686 | a hanging Discover of somebody else makes the Request for an offered address fail |
| Quarantine.DeclineQuarantines | internal/dhcp/server.go:571-592 | a Decline of a live lease withholds the address for exactly an hour |
| Quarantine.ReleaseFrees | internal/dhcp/server.go:547-563 | a Release of a live lease frees the address at once |
| Quarantine.StepQuarantineExact | internal/store/store.go:942-948 | an event of anybody else ends the quarantine iff cleanup deletes the row or an outstanding Request activates it |
| Quarantine.QuarantineExactly | internal/store/store.go:24-28 | over every run within the hour the address is in quarantine in every state iff nothing lifts it |
| Quarantine.DeclinedAddressIsWithheld | internal/store/store.go:24-28 | after a Decline no other client is granted the address within the hour, whatever others do, unless it is lifted |
| ReservationGuard.Desk.Check | internal/api/api.go:504-525 | the conflict check, with the exclusion scan as a loop |
| ReservationGuard.NoConflictExactly | internal/api/api.go:504-525 | no conflict iff address and client have no other reservation, nobody else has a live lease there, and the address is inside the range and not excluded |
| ReservationGuard.Desk.Create | internal/api/api.go:597-622 | a reservation is inserted iff there is no conflict; both keys kept |
| ReservationGuard.Desk.Update | internal/api/api.go:637-690 | an existing reservation is replaced iff there is no conflict with the others; both keys kept |
| ReservationGuard.Desk.Delete | internal/api/api.go:627-635 | deletes one reservation |
| ReservationGuard.EditKeepsBook | internal/api/api.go:504-525 | a checked edit keeps both unique keys of the reservations |
| ReservationGuard.ActivationClearExact | internal/store/store.go:709-712 | a late activation by id keeps live leases off other clients' reservations iff no row with that id that is no longer live lies on such an address |
| ReservationGuard.EditClearExact | internal/api/api.go:603-622 | a reservation write keeps live leases off other clients' reservations iff nobody else has a live row at the address when it is written |
| ReservationGuard.EditAtOnce | internal/api/api.go:603-622 | with check and write at once the write never trips a unique key |
| ReservationGuard.DeleteExact | internal/api/api.go:627-635 | a deletion removes exactly one reservation |
| ReservationGuard.StepClearExact | internal/api/api.go:597-622 | from a clear state an event leads to a clear state iff it is neither a late activation nor a late reservation write, or one that meets its guard |
| ReservationGuard.ClearExactly | scripts/fix-database.sh:106-118 | over every run, with allocation and activation, and check and write of a reservation, as separate events, no live row ever sits on somebody else's reservation iff every activation and every reservation write meets its guard |
| ReservationGuard.NeverTrespasses | scripts/fix-database.sh:106-118 | in particular never when every confirmation activates at once and every reservation is written with its check |
| ReservationGuard.LateActivationTrespasses | internal/dhcp/server.go:500-529 | the run Request, Release, reservation for somebody else, activation ends with a live row on that reservation |
| ReservationGuard.GrantBetweenCheckAndWrite | internal/api/api.go:603-622 | the run check, grant to somebody else, write ends with a live row on the new reservation, without any activation |
| PrefixDelegation.CandidateValue | internal/store/store.go:2467-2469 | candidates of a canonical pool never overflow and are base + i*2^64 |
| PrefixDelegation.CandidateInPool | internal/store/store.go:2467-2470 | every candidate is a /64 of the pool |
| PrefixDelegation.PoolMemberIsCandidate | internal/store/store.go:2431-2440 | every /64 of the pool is a candidate |
| PrefixDelegation.AllocateKeepsPrefixKeys | internal/store/store.go:2027-2058 | both keys survive and the upsert never trips the prefix key |
| PrefixDelegation.HolderKeepsPrefix | internal/store/store.go:2027-2038 | a client with an active or offered delegation inside the pool keeps prefix, id and state, and the lease starts anew |
| PrefixDelegation.NewDelegation | internal/store/store.go:2040-2058 | any other client gets a new offer or nothing; stale rows at the new prefix go, all other rows stay; pools outside 16 to 63 give nothing |
| PrefixDelegation.ContainsExact | internal/store/store.go:2027 | a canonical pool of length len contains exactly the 2^(128-len) addresses from its base on |
| PrefixDelegation.PrefixLivenessExact | internal/store/store.go:2442-2447 | an active row holds its prefix until its end, an offer for 120 seconds |
| PrefixDelegation.PrefixSweepsExact | internal/store/store.go:981-986 | the sweep expires exactly the rows whose hold ended before its clock; cleanup deletes a row its lifetime after its end |
| PrefixDelegation.EventsExact | internal/store/store.go:1576-1579 | in a run, state writes, sweep and cleanup do exactly that to each row |
| PrefixDelegation.LowestFreePrefix | internal/store/store.go:2467-2482 | a fresh delegation is the lowest /64 with no live holder; failure iff every /64 of the pool has one |
| PrefixDelegation.OtherDelegationsUntouched | internal/store/store.go:2442-2480 | no live delegation of another client is touched |
| PrefixDelegation.ReturnedPrefixIdExact | internal/store/store.go:2411-2425 | the returned id names the stored row iff, before the call, the client does not have an unusable row at a prefix other than the lowest free one; only then does activation change it |
| PrefixDelegation.ReleasedPrefixMisses | internal/store/store.go:2411-2425 | a miss exists: a client whose released prefix is not the lowest free one |
| PrefixDelegation.LostActivationFreesPrefix | internal/dhcpv6/server.go:707-718 | after a miss the delegated prefix has no live holder once the offer window is over |
| PrefixDelegation.HoldsPrefixExactly | internal/dhcpv6/server.go:707-718 | over every run of the others before the lease ends, a client holds its prefix in every state iff no release carries the id of its row |
| PrefixDelegation.PrefixIdsKeepClient | internal/store/store.go:2415-2422 | over every run an id that was once one client's is never another's, even after its row is gone, so such a release is the client's own |
| PrefixDelegation.ConfirmationProtectsPrefixExactly | internal/dhcpv6/server.go:707-718 | a confirmed client stays live holder until the lease ends in every such run iff the returned id named the row or the lease is not longer than the offer window |
| PrefixDelegation.DelegationsDisjoint | internal/store/store.go:1997-2061 | after any run all delegated prefixes lie in the pool and are pairwise disjoint |
| PrefixDelegation.PrefixStore.PickPrefix | internal/store/store.go:2427-2483 | the index loop finds the first free prefix and purges stale rows there |
| PrefixDelegation.PrefixStore.RunAllocation | internal/store/store.go:2027-2058 | the statements commit the specified table |
| PrefixDelegation.PrefixStore.Allocate | internal/store/store.go:1997-2061 | the delegation transaction equals the specification and keeps the invariant |
| DiscoverBuffer.StepKeepsFates | internal/dhcp/server.go:108-159 | each request is in exactly one of buffered, replaced, cancelled, processed |
| DiscoverBuffer.StepKeepsCallbacks | internal/dhcp/server.go:114-132 | every buffered request keeps its own callback to come |
| DiscoverBuffer.StepTracksContexts | internal/dhcp/server.go:111-159 | a context is open exactly while its request is buffered or being handled |
| DiscoverBuffer.EveryInterleaving | internal/dhcp/server.go:108-159 | under every interleaving requests are handled at most once, none is lost, and scheduled = pending + replaced + cancelled + handled |
| DiscoverBuffer.NeverAfterReplacedOrCancelled | internal/dhcp/server.go:114-145 | a replaced or cancelled request is never processed, however late its timer calls back |
| DiscoverBuffer.OwnCallbackProcesses | internal/dhcp/server.go:147-159 | the awaited callback hands the request to the handler |
| DiscoverBuffer.ScheduleBuffers | internal/dhcp/server.go:108-133 | scheduling buffers the newer request, arms its timer and touches no other client |
| DiscoverBuffer.CancelDrops | internal/dhcp/server.go:135-145 | after a cancellation the client has nothing buffered, and no other client is touched |
| DiscoverBuffer.FireTakes | internal/dhcp/server.go:147-156 | a callback takes whatever its client has buffered and nothing else |
| DiscoverBuffer.StoppedTimerIsGone | internal/dhcp/server.go:116-122 | a timer that Stop caught never calls back, one that it missed still may |
| DiscoverBuffer.FinishReleases | internal/dhcp/server.go:157-158 | after handling the context is released, once |
| DiscoverBuffer.Buffer.SchedulePending | internal/dhcp/server.go:108-133 | buffering a Discover, replacing an older one |
| DiscoverBuffer.Buffer.CancelPending | internal/dhcp/server.go:135-145 | dropping a buffered Discover |
| DiscoverBuffer.Buffer.FirePending | internal/dhcp/server.go:147-156 | a callback takes at most one request, one never taken before |
| DiscoverBuffer.Buffer.FinishProcessing | internal/dhcp/server.go:157-158 | the context is released after handling |
| Dhcp4Codec.ParseOptionsLoop | internal/dhcp/packet.go:237-259 | the index loop is the recursive parser |
| Dhcp4Codec.ParseTokens | internal/dhcp/packet.go:237-259 | options and pad bytes in any mix up to the end or the end marker are accepted; the last instance of each code counts |
| Dhcp4Codec.AcceptedAreTokens | internal/dhcp/packet.go:237-259 | every accepted byte string is of that form |
| Dhcp4Codec.AppendOption | internal/dhcp/packet.go:300-306 | the chunking loop |
| Dhcp4Codec.MarshalOptions | internal/dhcp/packet.go:294-310 | marshals some enumeration of the map, then the end marker; the bytes parse back to the options cut to their last chunks |
| Dhcp4Codec.LastChunkExact | internal/dhcp/packet.go:300-306 | the last chunk of n bytes is exactly the last ((n-1) mod 255)+1 bytes |
| Dhcp4Codec.OptionsOverTheWire | internal/dhcp/packet.go:237-310 | any enumeration plus padding parses to the same map, each option cut to its last chunk |
| Dhcp4Codec.SurvivorsExact | internal/dhcp/packet.go:294-310 | nothing is lost iff no option exceeds 255 bytes and no key is a framing code |
| Dhcp4Codec.MarshalPacket | internal/dhcp/packet.go:262-292 | header, options and padding to 300 bytes, for packets with unset or mapped addresses too; the bytes parse back to the normalised packet, or are rejected without message type |
| Dhcp4Codec.Field4Exact | internal/dhcp/packet.go:271-274 | a mapped address is written as its last four bytes, anything else that is not four bytes as zeros |
| Dhcp4Codec.HardwareExact | internal/dhcp/packet.go:275-279 | the hardware field holds the first sixteen bytes of the address, then zeros |
| Dhcp4Codec.AcceptedExactly | internal/dhcp/packet.go:198-235 | a packet is accepted iff it has 240 bytes, the cookie, well-formed options and a nonzero message type |
| Dhcp4Codec.PacketOverTheWire | internal/dhcp/packet.go:198-292 | header fields survive with addresses in four-byte form, options lose all but their last chunk, and rejection happens iff no message type is left |
| Dhcp4Codec.NormalExact | internal/dhcp/packet.go:262-292 | nothing changes on the wire iff addresses are present in four-byte form, the hardware address has the declared length and the options survive |
| Dhcp4Codec.PacketRoundTripExact | internal/dhcp/packet.go:198-292 | parse(marshal(p)) = p iff moreover a message type is present |
| Dhcp4Codec.AcceptedPacketsRoundTrip | internal/dhcp/packet.go:198-292 | every accepted packet satisfies parse(marshal(p)) = p in any iteration order |
| Dhcp6Codec.OptsRoundTripExact | internal/dhcpv6/packet.go:87-124 | option lists round-trip iff every option is below 65532 bytes |
| Dhcp6Codec.MarshalOpts | internal/dhcpv6/packet.go:91-97 | the marshalling loop |
| Dhcp6Codec.ParseOptsLoop | internal/dhcpv6/packet.go:113-122 | the parsing loop, with its 16-bit addition |
| Dhcp6Codec.FaultExact | internal/dhcpv6/packet.go:113-122 | the parser panics iff it reaches a header declaring 65532 bytes or more |
| Dhcp6Codec.FaultWitness | internal/dhcpv6/packet.go:113-122 | eight bytes on which the parser panics |
| Dhcp6Codec.PacketRoundTripExact | internal/dhcpv6/packet.go:87-124 | parse(marshal(p)) = p iff p is no relay message and all options are below 65532 bytes |
| Dhcp6Codec.MarshalParsed | internal/dhcpv6/packet.go:87-124 | marshal(parse(data)) is data less at most three trailing bytes |
| Dhcp6Codec.IAAddressRoundTrip | internal/dhcpv6/packet.go:257-273 | the IA address body round-trips whatever follows it, and less than a body is rejected |
| Dhcp6Codec.IAPrefixRoundTrip | internal/dhcpv6/packet.go:292-310 | the IA prefix body round-trips whatever follows it, and less than a body is rejected |
| Dhcp6Codec.IAHeader | internal/dhcpv6/packet.go:241-254 | IAID, T1 and T2 and the nested options stand where the readers look |
| Dhcp6Codec.ScanInvertsEncode | internal/dhcpv6/server.go:1068-1079 | scanning encoded nested options recovers every address in order |
| Dhcp6Codec.ScanStopsAtCut | internal/dhcpv6/server.go:1069-1079 | a truncated option at the end costs none of the addresses before it |
| Dhcp6Codec.ExtractAddressesLoop | internal/dhcpv6/server.go:1058-1082 | the nested loops collect all addresses of all identity associations |
| Dhcp6Codec.ExtractInvertsBuild | internal/dhcpv6/packet.go:241-263 | extraction inverts the builders over any number of identity associations with other options between them |
| Dhcp6Codec.ExtractOverTheWire | internal/dhcpv6/server.go:1058-1082 | extract(parse(marshal(message))) gives every address of every association in order |
| Dhcp6Codec.FirstAddressLoop | internal/dhcpv6/server.go:581-595 | the scan for the requested address, on exactly the byte strings on which it ends, with what the array holds behind the data as an input |
| Dhcp6Codec.DivergesExactly | internal/dhcpv6/server.go:583-594 | the scan passes on forever iff it reaches a header other than an IA address that declares 65532 bytes |
| Dhcp6Codec.LoopExact | internal/dhcpv6/server.go:583-594 | the specification says so for exactly these byte strings |
| Dhcp6Codec.StandstillWitness | internal/dhcpv6/server.go:583-594 | four bytes on which it happens |
| Dhcp6Codec.CrashExact | internal/dhcpv6/server.go:589-592 | it panics iff it reaches an oversized IA address header with fewer than 20 bytes left in data and array together; if only the data is short, the address ends in bytes behind the data |
| Dhcp6Codec.CrashWitness | internal/dhcpv6/server.go:589-592 | four bytes on which the scan panics, or returns the bytes behind them |
| Dhcp6Codec.FirstAddressOfEncoded | internal/dhcpv6/server.go:581-595 | on encoded options the scan finds the first address and never fails |
| Dhcp6Codec.RequestedIsFirst | internal/dhcpv6/server.go:569-596 | the requested address is the first one of the first IA_NA, or without one of the first IA_TA |
| Dhcp6Codec.NothingRequested | internal/dhcpv6/server.go:569-580 | there is none without association or with another one than asked for |
| RelayChain.CopyLoop | internal/dhcpv6/packet.go:203-212 | copies the non-relay options in order (see `CopyAround`) |
| RelayChain.CopyAround | internal/dhcpv6/packet.go:203-212 | exactly the relayed message is left out, wherever it stands |
| RelayChain.PayloadShrinks | internal/dhcpv6/packet.go:176-191 | each relayed message is at least 38 bytes shorter than its layer |
| RelayChain.UnwrapLoop | internal/dhcpv6/server.go:311-372 | the unwrapping loop terminates and collects every hop |
| RelayChain.UnwrapAnyLayer | internal/dhcpv6/packet.go:176-212 | a layer with the relayed message at any position gives exactly that relay as hop, with all its other options, and then whatever the message is |
| RelayChain.UnwrapFindsRelays | internal/dhcpv6/server.go:311-372 | a message sent through any relays comes out with exactly those relays in order, wherever each put the relayed message |
| RelayChain.UnwrapNeedsMessage | internal/dhcpv6/packet.go:176-183 | a layer without relayed message, or with an empty one, is rejected |
| RelayChain.WrapLoop | internal/dhcpv6/server.go:1303-1331 | the descending loop nests the reply, last hop innermost |
| RelayChain.WrapUnwrap | internal/dhcpv6/server.go:1303-1331 | a chain that fits comes back with the same hops, options, order and inner reply |
| RelayChain.ReplyMirrorsRequest | internal/dhcpv6/server.go:311-372 | for every incoming chain and fitting reply the relays recover exactly that chain and reply |
| RelayChain.RewrapNoLonger | internal/dhcpv6/packet.go:135-172 | re-wrapping an unwrapped chain is never longer than the input |
| RelayChain.WrapUnwrapExact | internal/dhcpv6/server.go:1303-1331 | the reply can be unwrapped iff every layer is below 65532 bytes |
| ClasslessRoutes.BuildLoop | internal/dhcp/options.go:327-339 | all routes are written iff every address is valid and every mask between -14 and 32; else the first bad route is an error or a panic |
| ClasslessRoutes.MaskBytesExact | internal/dhcp/options.go:334 | as many octets as hold the mask's bits are written |
| ClasslessRoutes.ParseLoop | internal/dhcp/options.go:121-143 | parsing any byte string stays in bounds and terminates |
| ClasslessRoutes.ParsedDestExact | internal/dhcp/options.go:132-133 | a destination is the first four octets with zeros where there are fewer |
| ClasslessRoutes.ParseStopsAtCut | internal/dhcp/options.go:129-131 | a truncated route at the end costs none of the routes before it |
| ClasslessRoutes.BuildParse | internal/dhcp/options.go:121-143 | parse(build(routes)) is the same list with destination octets past ceil(mask/8) zeroed |
| ClasslessRoutes.BuildParseExact | internal/dhcp/options.go:314-340 | a list that can be built comes back identical iff no mask is negative and those octets are already zero |
| OptionMerge.ApplyLayer | internal/dhcp/server.go:885-894 | a layer applied in any order yields at every code the value of one of its keys for that code that could be built, over what was there |
| OptionMerge.OptionCodeExact | internal/dhcp/server.go:952-959 | a key denotes the number its digits spell, wrapped to 64 bits, if that is at most 255, and nothing otherwise |
| OptionMerge.OrderIrrelevantExactly | internal/dhcp/server.go:885-894 | all iteration orders agree iff any two keys of one code whose builds did not fail have equal builds |
| OptionMerge.SpellingsClash | internal/dhcp/server.go:885-894 | the keys 1 and 01 with different values do clash |
| OptionMerge.FailedKeyIsHarmless | internal/dhcp/server.go:890-893 | two keys of one code are harmless when one cannot be built |
| OptionMerge.SetDefaults | internal/dhcp/server.go:865-881 | the built-in options; a gateway or DNS list without IPv4 address, or a mask that is none, erases |
| OptionMerge.LeaseTimesExact | internal/dhcp/server.go:865-869 | lease time, half of it for renewal and seven eighths for rebinding, rounded down; none without a lease |
| OptionMerge.BuiltInExact | internal/dhcp/server.go:870-881 | which codes are built in with what, and that nothing else is |
| OptionMerge.JoinLoop | internal/dhcp/packet.go:345-354 | the IPv4 addresses of a list, nil when there are none |
| OptionMerge.CopyCodes | internal/dhcp/server.go:926-940 | copies exactly the listed codes that are present |
| OptionMerge.FilterRequested | internal/dhcp/server.go:920-942 | keeps requested plus mandatory codes when a request list is present |
| OptionMerge.MandatoryExact | internal/dhcp/server.go:925-936 | the mandatory codes are message type, server identifier and the three times |
| OptionMerge.ApplyOptions | internal/dhcp/server.go:853-943 | the reply is, code by code, reservation over scope over group over built-in, nil erasing, then filtered; unique when the keys of each layer agree, else some value of a clashing key |

## Left out

- Sockets, raw frames, multicast, interface and server-identifier lookup.
- PostgreSQL itself: transactions are atomic, the scope lock excludes, and every address has one canonical number.
- HTTP routing, authentication, users, audit and system logs, metrics, configuration loading and the web UI.
- The DNS responder in `internal/dns/server.go`.
- The option registry and the scalar conversions of configured option values; a built option is an error, a nil or bytes.
- Host name, client identifier and creation time of a lease row: they are copied through and no decision reads them.
- Heartbeats between nodes and the optional delay of Discover replies.
- Administrative release and deletion of live leases, and scope or reservation changes during a mutual-exclusion or offer run.
- A blacklisted client, a disabled scope and an unmatched scope: the handler answers before it reaches the store.
- Statements of other nodes falling between the statements of one transaction.
- DHCPv6 message handling beyond the allocation, the requested address and the relay chain; IA_TA contents and combined IA_NA and IA_PD replies.
- PoolSearch.SearchV4: a range on which the loop does not end is excluded (`DivergesExactly` says which).
- PoolSearch.SearchV6: the same ranges in the 128-bit space.
- LeaseStore.AllocateFromPool: a call that reaches a search that does not end is excluded, because there the source does not return either.
- LeaseStore.Store.PickAddress: a call that reaches a search that does not end is excluded, because there the source does not return either.
- LeaseStore.Store.RunAllocation: a call that reaches a search that does not end is excluded, because there the source does not return either.
- LeaseStore.Store.AllocateLease: a call that reaches a search that does not end is excluded, because there the source does not return either.
- Handlers.CallStore: a call that reaches a search that does not end is excluded, because there the source does not return either.
- Handlers.HandleDiscover: a call that reaches a search that does not end is excluded, because there the source does not return either.
- Handlers.HandleRequest: a call that reaches a search that does not end is excluded, because there the source does not return either.
- Dhcp6Codec.FirstAddressLoop: byte strings on which the scan does not end are excluded (`DivergesExactly` says which).
