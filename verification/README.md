# Silk: the lease protocol and the reconciler, in Dafny

Silk gives every host of a cluster a subnet of one overlay network. Controllers without state of their own lease the
subnets out of a shared SQL table; a daemon on every host renews its lease, stops when it can no longer be sure of it, and
writes the leases of the other hosts into the kernel's route, ARP and forwarding tables. This project models that control
plane and proves what it promises: who holds which addresses, for how long, and where packets go as a result.

`dafny verify dfyconfig.toml` checks everything.

| file | models |
|---|---|
| `Addressing.dfy`, `Text.dfy`, `IPText.dfy` | IPv4 addresses, prefixes, powers of two as shifts; the texts the program prints and parses, IPv6 notation included |
| `Dotted.dfy`, `IPv6Text.dfy` | what those texts mean to a reader, number by number and field by field, and which texts mean the same |
| `HardwareAddr.dfy` | hardware addresses derived from overlay addresses |
| `CidrPool.dfy`, `PoolLoop.dfy` | the pool of blocks and single addresses, the random pick, and for which masks the pool is ever built |
| `LeaseTable.dfy` | the `subnets` table and the database handler over it |
| `LeaseProtocol.dfy`, `LeaseController.dfy` | whole requests as relations between tables, and the controller's methods that meet them |
| `Leasing.dfy`, `Reclaim.dfy`, `Completeness.dfy`, `Occupancy.dfy`, `LeaseRuns.dfy` | theorems on one request, on what it evicts, on when it is refused, on full tables, and on sequences of requests |
| `Interleaving.dfy`, `Eviction.dfy`, `Atomicity.dfy`, `Readable.dfy` | any number of requests interleaved statement by statement, when that evicts active leases, how that view relates to whole requests, and what every row can be relied on for |
| `Renewal.dfy`, `Exchanges.dfy` | grace period, planner cycle, poller, and the poller of a daemon whose renewals a controller answers |
| `Exclusion.dfy`, `Tightness.dfy`, `StatementExclusion.dfy` | controllers and daemons together in time, the bound they need, and the same statement by statement |
| `Kernel.dfy`, `Converger.dfy`, `Convergence.dfy`, `Continuity.dfy`, `Plans.dfy` | kernel tables, the converger's operations, what they come to, what stays in place meanwhile, and every planned entry field by field |
| `Forwarding.dfy`, `EndToEnd.dfy`, `ArpHistory.dfy`, `ArpByKey.dfy` | where the tables send a packet, up to the controllers' reachable states, convergences one after the other, and a kernel that deletes ARP entries by key |
| `Vtep.dfy`, `Startup.dfy`, `Provisioning.dfy` | the VTEP device, the daemon's startup, and what a start asks for and leaves behind |

## Main results

1. **Mutual exclusion in time.** If a lease expires no sooner than the partition tolerance plus the renewal latency plus the
   longest gap between checks, a daemon holds its row, unexpired, from its first learnt renewal until it exits
   (`Exclusion.RunningDaemonHoldsItsLease`). With an expiration of at least a second that is any shorter, and a latency of at
   most the gap, every pool with a block loses this (`Tightness.EveryPoolLosesExclusion`). Statement by statement it holds
   from the first renewal dated more than the longest wait between read and delete after the first one
   (`StatementExclusion.SettledDaemonHoldsItsLease`).
2. **Interleaving.** Whatever requests run and however their statements interleave, the unique columns stay unique, and the
   leased ranges stay disjoint parts of the network when hosts renew only pool leases (`Interleaving.LeasesStayDisjoint`).
   That an active lease is never evicted does not survive interleaving: a delete hits an active row if and only if a step
   after the deleter's read dated it and that date has not expired (`Eviction.ActiveRowIsEvictedIff`, with
   `Eviction.StaleReadEvictsActiveRow` as a run in which it happens). If no controller waits longer than a given span between
   read and delete, a lease that has been active for longer than the span is safe (`Eviction.SettledLeaseStays`).
   Whatever hosts renew, every row of every reachable table parses (`Readable.RowsAreReadable`), so a host that converges on
   it gives up on a lease if and only if its subnet is an overlay block in IPv6 notation (`Readable.ReachableTablePlansIff`).
3. **Forwarding.** After a convergence on the routable leases of any reachable table, every address in another host's lease
   goes to exactly that host (`EndToEnd.ReachableTableForwards`).
4. **Convergence** plans exactly the entries of the remote leases (`Plans.PlannedExactly`). Its result is exact up to an exact
   condition on the ARP table (`Convergence.ArpIsExactIff`), which holds on what controllers hand out if the ARP table starts
   without entries or with derived ones (`ArpHistory.ArpStaysExact`); it is idempotent; and it makes before it breaks,
   wherever it stops, if and only if the installs it reaches are settled (`Continuity.MakeBeforeBreakIff`).
5. **Allocation** is complete if and only if blocks are longer than one address or the network is a single address
   (`Completeness.CompleteIff`), with an exact capacity (`LeaseRuns.CapacityIsExact`). On any table it evicts only when the
   class is wholly taken, oldest first (`Leasing.AcquireFrame`), and takes over what it evicts if and only if the row evicted
   first can be granted (`Reclaim.TakeoverIff`).
6. **Fencing and poller.** What the controllers decide, and whether the daemon hears of it, is what ends the daemon
   (`Exchanges.PollerFollowsController`); while its row is in place only the grace period can (`Exchanges.OnlyGraceEndsHolder`).
7. **Startup.** A start asks only for the configured class of lease (`Provisioning.OnlyConfiguredClassMatters`), which is what
   it gets from a controller (`Provisioning.FirstStartTakesClass`), and leaves a device it found and could keep or one made to
   its configuration (`Provisioning.StartLeavesDevice`).

## Conventions and hypotheses

- Clocks are integers. Each request reads one value of the database's clock; in `Exclusion.dfy` daemons and database share
  one clock, and clock drift counts as latency.
- Randomness, map iteration order, database, kernel and network faults are parameters. A statement can be lost, or its
  answer can be lost after it ran. "Reliable" and the argument `sound` say that none is.
- `Leasing.Built` asks for a block mask between the network's prefix length and 31. At 32 the text test for single addresses
  counts blocks as singles; `Completeness.CompleteIff` says what that costs.
- Hosts are known by the texts they send. The controller accepts an IPv4 address in IPv6 notation, such as ::ffff:10.0.0.1, as
  another host; texts of more than 15 characters do not fit the table.
- `Leasing.Healthy` asks that every row holds a pool member with its derived hardware address. Acquires keep this; a renewal
  inserts any well-formed lease, so keeping it needs hosts that renew pool leases (`Leasing.RenewKeepsHealthyIff` is exact).
- A repeated acquire does not date the row anew, so timing guarantees start at the first successful renewal.
- Netlink: replacing or setting an entry overwrites what its key held, deleting removes a fully matching entry, a failed call
  changes nothing, listing yields the entries as installed, and an IPv4 route with a prefix of more than 32 bits is refused.

## Model

| member | source | states |
|---|---|---|
| `Text.DottedRoundTrip` | controller/leaser/validator.go:12-28 | every IPv4 address is read back from its dotted text, which fits the underlay column |
| `IPText.AddressHasTwoTexts` | controller/leaser/lease_controller.go:69-75 | the dotted text of an IPv4 address names it, and so does the IPv6 notation that ends in it, seven characters longer |
| `IPText.HexMappedReads` | controller/leaser/lease_controller.go:69-75 | so does the notation with two hexadecimal fields |
| `IPText.ReadFieldsWidth` | controller/leaser/validator.go:12-28 | no text in IPv6 notation is shorter than the digits of its fields with a colon between neighbours |
| `IPText.OtherTextIff` | controller/leaser/lease_controller.go:69-75 | an IPv4 address has a text of at most 15 characters besides its dotted one if and only if its first or third number is below 16 |
| `IPText.IPTextIsCanonical` | controller/leaser/lease_controller.go:69-75 | a text accepted for an IPv4 address is its printed form if and only if it has no colon |
| `IPv6Text.GroupsHaveText` | controller/leaser/validator.go:13-15 | eight hexadecimal fields with colons between them are read as the address they spell |
| `IPv6Text.GapStandsForZeros` | controller/leaser/validator.go:13-15 | fewer fields around a double colon, wherever it stands, are read as the address with zeros in its place |
| `Dotted.PrefixIsNumbers` | controller/leaser/cidrpool.go:18-31 | a prefix of 8, 16, 24 or 32 bits covers exactly the addresses that start with its first one to four numbers |
| `Dotted.MemberTextStarts` | controller/leaser/cidrpool.go:85-104 | in a network of whole bytes every subnet handed out is written with the network's own leading numbers |
| `Dotted.KnownTexts` | controller/leaser/hardware_address_generator.go:11-13 | how 10.255.0.0/16, 10.255.1.0/24 and ::ffff:aff:1 are read, and that the hardware address of 10.255.1.0 is written ee:ee:0a:ff:01:00 |
| `Dotted.KnownPool` | controller/leaser/cidrpool.go:85-94 | 10.255.0.0/16 cut at 24 has the block 10.255.1.0/24 |
| `Dotted.PrefixLengthMayHaveZeros` | controller/database/database_handler.go:76-102 | a prefix length with leading zeros is read as without them, but the class query then takes the subnet for a block even if it is a single address |
| `Text.CidrRoundTrip` | controller/leaser/cidrpool.go:85-104 | every prefix is read back from its text, which fits its column and ends in /32 exactly for single addresses |
| `Text.MacRoundTrip` | controller/leaser/lease_controller.go:167-176 | every hardware address of 6, 8 or 20 bytes is read back from its text; that of six bytes has the 17 characters of its column |
| `Dotted.MacHasManyTexts` | controller/leaser/validator.go:22-25 | a hardware address is read alike with colons, with hyphens, or in pairs of bytes with dots, each byte in either case |
| `HardwareAddr.GeneratedBytes` | lib/hwaddr/hwaddr.go:8-26 | an address is generated exactly from an IPv4 address and a prefix of two bytes; its first two bytes are the prefix and the others the last four of the address |
| `HardwareAddr.VtepAddressIsGenerated` | lib/hwaddr/hwaddr.go:8-26 | the address as parsed and in four bytes both give the bytes ee and ee followed by the four bytes |
| `HardwareAddr.VtepMacInjective` | controller/leaser/hardware_address_generator.go:11-13 | two overlay addresses with the same printed hardware address are equal |
| `CidrPool.GenerateBlockPool` | controller/leaser/cidrpool.go:85-94 | the loop ends and yields exactly the blocks after the first, however large the block is |
| `CidrPool.GenerateSingleIPPool` | controller/leaser/cidrpool.go:96-104 | the loop yields exactly the addresses of the first block but its base |
| `CidrPool.NewCIDRPool` | controller/leaser/cidrpool.go:18-31 | fails exactly on text that is no IPv4 prefix; otherwise gives the pool of the network the text names, in which no subnet is the empty text |
| `PoolLoop.LoopEndsIff` | controller/leaser/cidrpool.go:85-94 | with 64-bit numbers the block loop ends if and only if the mask is from -30 to 32 |
| `CidrPool.Tiling` | controller/leaser/cidrpool.go:18-31 | base address, singles and blocks partition the network: an address lies in exactly one of them if it is in the network and in none otherwise |
| `CidrPool.PoolStaysInside` | controller/leaser/cidrpool.go:85-104 | no member leaves the network if and only if a block is no larger than the network |
| `CidrPool.LargeBlocksLeave` | controller/leaser/cidrpool.go:96-104 | otherwise the first address after the network is handed out |
| `CidrPool.MembersAreDisjoint` | controller/leaser/cidrpool.go:85-104 | two different members share no address |
| `CidrPool.MemberParses` | controller/leaser/cidrpool.go:85-104 | a member reads back as an aligned prefix inside the network, is never the network's first address, and for masks below 32 its text tells its class |
| `CidrPool.PoolSizes` | controller/leaser/cidrpool.go:41-47 | 2^(mask - network) - 1 blocks and 2^(32 - mask) - 1 single addresses |
| `CidrPool.GetAvailable` | controller/leaser/cidrpool.go:63-83 | for any taken list, iteration order and random number: a free member, the one at that index, and nothing exactly when all are taken |
| `CidrPool.EveryFreeMemberCanBePicked` | controller/leaser/cidrpool.go:63-83 | some index picks any given free member, whatever the iteration order |
| `LeaseTable.InsertKeepsUnique` | controller/database/database_handler.go:269-279 | an insert that the schema admits keeps subnets and hardware addresses unique |
| `LeaseTable.Database.AddEntry` | controller/database/database_handler.go:175-186 | inserts with the current time, or fails with the table as it was unless only the answer was lost |
| `LeaseTable.Database.DeleteEntry` | controller/database/database_handler.go:188-205 | removes one row, and tells a missing row from a failure |
| `LeaseTable.Database.RenewLeaseForUnderlayIP` | controller/database/database_handler.go:224-235 | dates the host's row and no other; a missing row is no error |
| `LeaseTable.Database.LeaseForUnderlayIP` | controller/database/database_handler.go:207-222 | the host's lease, or none, told apart from a failure |
| `LeaseTable.Database.LastRenewedAtForUnderlayIP` | controller/database/database_handler.go:237-245 | the time of the host's row; an error if there is none |
| `LeaseTable.Database.AllSubnets` | controller/database/database_handler.go:76-102 | lists each row of the class once and no other |
| `LeaseTable.Database.AllActive` | controller/database/database_handler.go:104-120 | lists each unexpired row once and no other |
| `LeaseTable.Database.OldestExpiredLease` | controller/database/database_handler.go:122-164 | an expired row of the class renewed no later than any other, and none exactly if none is expired |
| `LeaseTable.RowsToLeases` | controller/database/database_handler.go:247-267 | the list holds each selected row once, in some order |
| `LeaseController.LeaseController.TryAcquireAvailable` | controller/leaser/lease_controller.go:187-245 | a free member of the class, or the subnet of the oldest expired row, which is gone; it is exhausted only if the class is taken and nothing is expired |
| `LeaseController.LeaseController.TryAcquireLease` | controller/leaser/lease_controller.go:146-185 | the method meets the relation of one attempt, under every fault |
| `LeaseController.LeaseController.AcquireSubnetLease` | controller/leaser/lease_controller.go:68-102 | the method meets the relation of an acquire with its retries, under every fault, and issues at most two statements and four per attempt |
| `LeaseController.LeaseController.RenewSubnetLease` | controller/leaser/lease_controller.go:104-135 | the method meets the relation of a renewal, under every fault; a lease that does not parse is refused without a statement |
| `LeaseController.LeaseController.ReleaseSubnetLease` | controller/leaser/lease_controller.go:54-66 | the host's row is gone, whether or not there was one, unless the database fails |
| `LeaseController.LeaseController.RoutableLeases` | controller/leaser/lease_controller.go:137-144 | lists each unexpired lease once and no other |
| `Leasing.ChoiceIsGranted` | controller/leaser/lease_controller.go:146-185 | on a table of pool leases whatever an attempt chooses passes the unique columns, and the table stays one of pool leases |
| `Leasing.AcquireIsDecided` | controller/leaser/lease_controller.go:87-101 | without faults, and for a host text that fits its column, the retry loop answers as its first attempt does, and never with an error |
| `Completeness.AcquireIsComplete` | controller/leaser/lease_controller.go:68-102 | a host without a row is refused exactly when unexpired rows hold the whole class, fails exactly when they do not and its text has more than 15 characters, and otherwise gets a freshly dated row of its class |
| `Completeness.CompleteIff` | controller/database/database_handler.go:76-102 | that holds on every healthy table, for both classes, if and only if blocks are longer than one address or the network is a single address |
| `Completeness.LongHostIsRefused` | controller/database/database_handler.go:269-279 | a host text of more than 15 characters never gets a lease, yet its acquire may evict the oldest expired row, at most one |
| `Completeness.HostGetsSecondRow` | controller/leaser/lease_controller.go:69-92 | while a host has an active row under one text and the class is not held, any other text of its address is given a row if and only if it has at most 15 characters |
| `Completeness.TextsOfOneHost` | controller/leaser/lease_controller.go:69-75 | two different texts of one IPv4 host are not both dotted |
| `Completeness.OneAddressBlockRequestFails` | controller/database/database_handler.go:76-102 | for a block mask of 32, once all blocks are held, expired or not, every acquire of a block fails and changes nothing |
| `Occupancy.OccupiedIsHealthy` | controller/leaser/cidrpool.go:85-94 | for every network and mask there are healthy tables that hold all blocks, each for a host of its own |
| `Completeness.SingleRequestTakesBlock` | controller/leaser/lease_controller.go:187-215 | for a block mask of 32 a request for a single address is given an expired block |
| `Reclaim.ReclaimIsFramed` | controller/leaser/lease_controller.go:187-245 | on any table whose oldest expired row of the class can be granted, an acquire loses another host's row only if the class is wholly taken, it is that row and no second one, its subnet is taken over, and all other rows are untouched |
| `Reclaim.TakeoverIff` | controller/leaser/lease_controller.go:68-102 | on any table and for any host, acquires take over what they evict, one row at most, if and only if the rows that may be evicted first can be granted, should it come to that |
| `Reclaim.HealthyIsGrantable` | controller/leaser/lease_controller.go:146-185 | on a table of pool leases, for a host text that fits, they can |
| `Reclaim.AcquireLosesTwoRows` | controller/leaser/lease_controller.go:217-245 | otherwise one acquire may delete the rows of two hosts and be granted neither |
| `Reclaim.IPv6SubnetIsAccepted` | controller/leaser/validator.go:12-28 | a renewal may bring in a subnet for which no hardware address is derived |
| `Leasing.HalvedNetworkIsContended` | controller/leaser/cidrpool.go:85-94 | any two hosts and any network cut into two blocks are a case of the contention that the two eviction runs start from |
| `Leasing.AcquireFrame` | controller/leaser/lease_controller.go:68-102 | on any table and under every fault, other hosts' rows are untouched or gone; gone are only expired ones of the class, those renewed earliest first, and only if rows hold the whole class, but for one member at most that the host was given in a lost answer; no row appears for another host |
| `Leasing.RenewFrame` | controller/leaser/lease_controller.go:104-135 | under every fault, only the own row changes, never its lease; a reported success means the row holds that lease, dated now |
| `Leasing.RenewKeepsHealthyIff` | controller/leaser/lease_controller.go:110-121 | the table stays one of pool leases exactly if the renewal does not insert or inserts a pool lease |
| `Readable.RenewalIsValidated` | controller/leaser/validator.go:12-28 | under every fault, a renewal whose address, subnet or hardware address does not parse is refused and changes nothing |
| `Readable.RenewalIsDecided` | controller/leaser/lease_controller.go:104-135 | without faults, a renewal succeeds if and only if all three parse and the host's row holds the lease, or it has none and the lease fits and is new; then the row is that lease, dated now, and otherwise it is refused and nothing changes |
| `LeaseRuns.RequestKeepsLease` | controller/leaser/lease_controller.go:68-135 | one request of any host, with any faults, leaves an unexpired lease with its holder; its own repeated acquire returns it undated |
| `LeaseRuns.LeaseIsStable` | controller/leaser/lease_controller.go:68-144 | over any sequence of requests a lease renewed within each expiration keeps its row, is in every listing of routable leases and is what its host's acquire returns |
| `LeaseRuns.CapacityIsExact` | controller/leaser/lease_controller.go:68-102 | from an empty table the first 2^(mask - network) - 1 block requests and 2^(32 - mask) - 1 single requests of distinct hosts whose texts fit are granted, in any mix, every later one is refused, and longer texts are never granted and take nothing |
| `Interleaving.TableStaysUnique` | controller/database/database_handler.go:269-279 | in every reachable state of any number of interleaved requests no two rows share a subnet or hardware address |
| `Interleaving.LeasesStayDisjoint` | controller/leaser/lease_controller.go:146-245 | if hosts renew only pool leases, every reachable table holds pool members with disjoint ranges, wholly inside the network, and hardware addresses of ee:ee and the four bytes of the base address |
| `Readable.RowsAreReadable` | controller/leaser/lease_controller.go:104-121 | whatever hosts renew, every row of every reachable table has an address, a subnet and a hardware address that parse and fit |
| `Readable.ReachableTablePlansIff` | daemon/vtep/converger.go:30-66 | on a listing of a reachable table a host gives up on a lease if and only if some listed subnet is in IPv6 notation and comes to another host's block of the overlay |
| `Readable.MappedRenewalStops` | controller/leaser/validator.go:17-20 | and such a row is reachable by one renewal, for every overlay block of 256 addresses whose text is short enough |
| `Eviction.LastDating` | controller/database/database_handler.go:175-235 | in every run a row is as it was, or carries the time of the last step that dated it |
| `Eviction.ActiveRowIsEvictedIff` | controller/leaser/lease_controller.go:230-236 | a process about to delete a row read it in some step as expired, and deletes it unexpired if and only if a later step dated it and that date has not expired |
| `Eviction.SettledLeaseStays` | controller/leaser/lease_controller.go:200-236 | statement by statement, a row active for longer than any process waits between read and delete keeps its lease, and its subnet to itself, while it is renewed in time and its host keeps it |
| `Eviction.StaleReadEvictsActiveRow` | controller/leaser/lease_controller.go:230-236 | there is a run with two requests in which a row renewed this second is evicted |
| `Atomicity.AcquireIsUninterrupted` | controller/leaser/lease_controller.go:68-102 | the whole acquires that the other theorems are about are exactly the uninterrupted series of an acquire's statements |
| `Atomicity.RenewIsUninterrupted` | controller/leaser/lease_controller.go:104-135 | the same for renewals |
| `Atomicity.ReleaseIsUninterrupted` | controller/leaser/lease_controller.go:54-66 | the same for releases |
| `Renewal.VXLANPlanner.DoCycle` | daemon/planner/vxlan_planner.go:37-67 | fatal exactly for a refused renewal or one that fails after the grace period; listing and converging only ever give plain errors; every counter's new value |
| `Renewal.Poller.RunFunction` | daemon/poller/poller.go:38-46 | passes on exactly the fatal errors |
| `Renewal.Poller.Run` | daemon/poller/poller.go:19-36 | the loop ends as the recursive description of its wakeups says |
| `Renewal.PollerEndsExactly` | daemon/poller/poller.go:19-46 | it ends with an error exactly at the first cycle before any signal whose renewal is refused or fails the grace duration or more after the latest success, and otherwise only by a signal |
| `Renewal.OnlyRenewalsEndPoller` | daemon/planner/vxlan_planner.go:37-67 | results of listing and converging have no influence on when it ends |
| `Renewal.OldHolderIsFenced` | controller/handlers/renew_lease.go:47-56 | while another host holds the subnet, a renewal by the old holder changes nothing, is answered 409 and ends its poller in that cycle at the latest |
| `Exchanges.StatusRoundTrip` | controller/client.go:74-83 | the daemon reads from the status exactly what the controller decided; a lost answer counts as one to retry |
| `Exchanges.PollerFollowsController` | controller/handlers/renew_lease.go:47-58 | over any renewals served with any faults and any answers lost, the poller ends with an error exactly at the first one that is refused and hears of it, or is unconfirmed the grace duration after the last confirmation; at a confirmation the row held the lease, dated now |
| `Exchanges.OnlyGraceEndsHolder` | daemon/planner/fatal_error_detector.go:31-37 | while the row holds the lease at every renewal, only the grace period ends the poller |
| `Exclusion.RunningDaemonHoldsItsLease` | daemon/planner/fatal_error_detector.go:20-37 | with a long enough expiration, in every timed run, a daemon that has learnt of a renewal has its row, with its lease, unexpired |
| `Exclusion.NoTwoDaemonsShareSubnet` | daemon/planner/vxlan_planner.go:37-67 | then no two such daemons have a subnet or a hardware address with the same text |
| `Exclusion.RunningDaemonsAreDisjoint` | daemon/planner/vxlan_planner.go:37-67 | when both leases are of the pool, their address ranges do not overlap and their hardware addresses, as parsed, differ |
| `Tightness.ShorterExpirationLosesExclusion` | daemon/planner/fatal_error_detector.go:31-37 | with any shorter expiration, if other hosts hold all blocks but the daemon's, a run leads to a daemon still running while another host holds its subnet |
| `Tightness.EveryPoolLosesExclusion` | daemon/planner/fatal_error_detector.go:31-37 | and that happens with every pool that has a block |
| `StatementExclusion.SettledDaemonHoldsItsLease` | controller/leaser/lease_controller.go:104-135 | with requests interleaved statement by statement, from the first renewal dated more than the longest wait after its first one until it exits, a daemon has its row, with its lease, unexpired, and no other row has its subnet |
| `StatementExclusion.EvictorsGiveUp` | controller/leaser/lease_controller.go:230-236 | once that wait is over since a daemon's first dating, no process is about to evict its row |
| `StatementExclusion.SettledDaemonsDiffer` | daemon/planner/vxlan_planner.go:37-67 | no two such daemons have a subnet or a hardware address with the same text |
| `StatementExclusion.DaemonSettles` | daemon/planner/vxlan_planner.go:37-67 | there are runs with such daemons, for every well-formed lease that fits the table, if the wait is shorter than the gap between checks |
| `Kernel.Netlink.Execute` | lib/adapter/netlink_adapter.go:47-49 | a call that succeeds applies one operation, one that fails changes nothing |
| `Kernel.Netlink.RouteList` | daemon/vtep/converger.go:132-156 | lists exactly the routes of the device |
| `Kernel.InstallingIsOverlay` | daemon/vtep/converger.go:158-205 | installing onto existing tables is building the entries from nothing and laying them over |
| `Kernel.DeletingFilters` | daemon/vtep/converger.go:68-86 | a series of deletions removes exactly the entries named in it |
| `Converger.GetDeletedRoutes` | daemon/vtep/converger.go:99-114 | exactly the previous routes that are no current route, in order |
| `Converger.GetDeletedNeighs` | daemon/vtep/converger.go:116-130 | exactly the previous entries that no current one equals when the family is ignored, in order |
| `Converger.Reconciler.InstallLease` | daemon/vtep/converger.go:30-66 | issues a prefix of the lease's installs, all of them on success; without kernel faults it gives up exactly where the lease's plan does, on text it cannot use |
| `Converger.Reconciler.Converge` | daemon/vtep/converger.go:21-93 | wherever it stops, it has issued a prefix of one plan, installs before deletions; on success the tables are those of a convergence, of which the theorems below speak; without kernel faults it stops early exactly on a lease it cannot use |
| `Convergence.ConvergenceIsExact` | daemon/vtep/converger.go:21-93 | success leaves the desired routes over the foreign ones, the desired FDB entries, and the desired ARP entries besides those mistaken for FDB entries |
| `Convergence.StaleRouteStaysIff` | daemon/vtep/converger.go:68-76 | a route that no lease asks for stays, unchanged, if and only if it is on another device, has no gateway, or has one outside the overlay network |
| `Plans.PlannedExactly` | daemon/vtep/converger.go:158-205 | the installs are exactly the entries of the leases of other hosts inside the overlay: device, scope, destination, gateway, source, state, address and hardware address of each |
| `Plans.DesiredExactly` | daemon/vtep/converger.go:30-66 | there is a route to a network, an ARP entry for an address and an FDB entry for a hardware address if and only if such a lease has it |
| `Plans.ElsewhereIsIgnored` | daemon/vtep/converger.go:36-43 | the host's own lease and leases outside the overlay might as well not be listed |
| `Plans.PlanRunsIff` | daemon/vtep/converger.go:30-66 | without kernel faults a convergence gives up if and only if some lease has a subnet that cannot be read or routed, or is routed and has an address or hardware address that cannot be read |
| `Plans.StaleArpStaysIff` | daemon/vtep/converger.go:215-220 | an ARP entry that no lease asks for stays if and only if it is permanent and has the underlay address and the hardware address of one routed lease |
| `Convergence.ArpIsExactIff` | daemon/vtep/converger.go:215-220 | the ARP table ends up as desired if and only if no unwanted ARP entry equals a planned FDB entry up to the family |
| `Convergence.ArpIsExactApartFromUnderlay` | daemon/vtep/converger.go:116-130 | in particular when no underlay address is in the ARP table |
| `Convergence.MistakenEntrySurvives` | daemon/vtep/converger.go:215-220 | an old ARP entry at a lease's underlay address and hardware address stays |
| `Convergence.ConvergenceIsIdempotent` | daemon/vtep/converger.go:21-93 | a second convergence with the same leases deletes nothing and changes nothing |
| `Continuity.MakeBeforeBreak` | daemon/vtep/converger.go:30-86 | wherever it stops, at a failing call, at a lease it cannot read or at its end, every entry that was in place and that any of the leases wants is in place, if the installs it reaches are settled |
| `Continuity.UnsettledLeasesFlap` | daemon/vtep/converger.go:30-66 | if they are not, a convergence that finds everything as wanted takes some of it away for a while |
| `Continuity.MakeBeforeBreakIff` | daemon/vtep/converger.go:21-93 | so wanted entries stay in place from every start and at every stop if and only if the installs reached are settled |
| `Continuity.ConsistentLeasesAreSettled` | daemon/vtep/converger.go:30-66 | leases that do not contradict each other are settled, unreadable ones among them or not; if all can be read, only those are |
| `Forwarding.ConvergenceForwards` | daemon/vtep/converger.go:158-205 | longest match, ARP and FDB lead every address of a lease that stands alone to its host, if foreign routes over it are shorter |
| `Forwarding.UnleasedIsNotForwarded` | daemon/vtep/converger.go:68-76 | an address outside all leases matches no route of the converger |
| `EndToEnd.HealthyLeasesPlan` | daemon/vtep/converger.go:30-66 | the leases of a table of pool leases all parse and never contradict each other, so they are settled |
| `EndToEnd.LeasedAddressIsForwarded` | daemon/vtep/config_creator.go:80-83 | after a convergence on a table of pool leases, an address in another active host's lease goes to exactly that host |
| `EndToEnd.ReachableTableForwards` | controller/leaser/lease_controller.go:137-144 | the same for the table of every reachable state of interleaved requests |
| `ArpHistory.ArpStaysExact` | daemon/vtep/converger.go:116-130 | from an ARP table that is empty or has derived entries only, after any convergences on tables of pool leases, wherever each stopped, one that succeeds leaves exactly the wanted ARP entries |
| `ArpByKey.ByKeyLoses` | daemon/vtep/converger.go:78-86 | on a kernel that deletes ARP entries by address alone, exactly the wanted entries of addresses that had an unwanted one before are missing afterwards |
| `ArpByKey.ByKeyIsExactIff` | daemon/vtep/converger.go:78-86 | so such a kernel ends up as any other if and only if no wanted address had an unwanted entry before |
| `ArpByKey.DerivedLosesNothing` | daemon/vtep/converger.go:175-205 | which is so when all entries are derived, as on what controllers hand out |
| `Vtep.LocateInterface` | daemon/vtep/config_creator.go:97-120 | the loops find the first interface with the address, and stop at the first error |
| `Vtep.LocatedHasAddress` | daemon/vtep/config_creator.go:97-120 | what is found has the address; if all addresses parse, nothing is found exactly when no interface has it |
| `Vtep.LocatedIff` | daemon/vtep/config_creator.go:97-120 | an interface is found if and only if it has the address and every address before that one can be read and is another |
| `Vtep.Factory.CreateVTEP` | daemon/vtep/factory.go:37-84 | on success a device with the configured addresses; an existing device is never touched, no other device ever is, and a half-made device has no address |
| `Vtep.Factory.DeleteVTEP` | daemon/vtep/factory.go:86-96 | removes that device and no other, or nothing |
| `Vtep.Factory.GetVTEPState` | daemon/vtep/factory.go:98-111 | hardware address, first address and MTU of the device |
| `Vtep.VtepRoundTrip` | cmd/silk-daemon/main.go:280-290 | a lease put on a device and read back is the same lease if and only if its prefix length is the configured one |
| `Startup.SilkDaemon.AcquireLease` | cmd/silk-daemon/main.go:223-255 | a lease it returns is on a device that was not there before; an existing device is left alone |
| `Startup.SilkDaemon.DeleteAndAcquire` | cmd/silk-daemon/main.go:304-310 | no new lease unless the old device is gone |
| `Startup.SilkDaemon.Run` | cmd/silk-daemon/main.go:112-206 | the device is only ever deleted right after the datastore reported no containers; whoever polls has one lease in planner, served network and device; without kernel faults startup comes to what `Starts` says |
| `Startup.DiscoveredMatches` | cmd/silk-daemon/main.go:272-290 | a lease read from the device agrees with the device |
| `Startup.RestartWithContainers` | cmd/silk-daemon/main.go:112-164 | a restart with containers leaves the device alone and goes on with the acquired lease if and only if it has the configured prefix length, is in the overlay network and is renewed |
| `Provisioning.OnlyConfiguredClassMatters` | cmd/silk-daemon/main.go:223-237 | what a controller would answer to requests for the other class has no influence on a start |
| `Provisioning.FirstStartTakesClass` | cmd/silk-daemon/main.go:223-237 | on the first start of a host without a row the lease is a pool member of the configured class, a single address exactly if configured so, and the row of the host |
| `Provisioning.StartLeavesDevice` | daemon/vtep/config_creator.go:80-94 | a start that goes on keeps the device it found, whose lease lies in the overlay and was renewed, or leaves one that is up with the configured identifier, port, underlay address and interface, the lease's address and hardware address, and the overlay's prefix length; other devices are left alone |
| `Provisioning.FirstStartGoesOnIff` | cmd/silk-daemon/main.go:223-255 | without a device a start goes on if and only if the configuration is complete, the overlay prefix is shorter than the subnet prefix, the interface is found, no device has the name, and a readable lease is granted |
| `Provisioning.LostLeaseIsFirstStart` | cmd/silk-daemon/main.go:118-164 | without containers a device whose lease is refused or lies outside the overlay is as good as none |
| `Provisioning.RefusedReplacementIsReplaced` | cmd/silk-daemon/main.go:124-162 | a replacement that is refused at once is replaced once more if there are still no containers, and otherwise the start fails |

## Left out

- SQL text, drivers, transactions, migrations and column collation: only what each statement does to the table is modelled.
- HTTP and JSON: only the way from a renewal's outcome through its status to the daemon's error class.
- The CNI plugin, the datastore and teardown: sequences of foreign calls that would only add easy members; the datastore appears as a container count or an error.
- Configuration loading, TLS, logging, metrics other than the planner's four counters, and the health and debug servers.
- CidrPool.NewCIDRPool: networks in IPv6 notation count as no prefix, and the masks from -30 to -1, for which the loops end, are not modelled.
- Startup.SilkDaemon.Run: leases and overlay networks in IPv6 notation count as unreadable on the host; a controller never grants them from an IPv4 pool.
- The VTEP device's address scope and group-policy flag.
- Kernel.Netlink.Execute: deletion needs the whole entry to match; what a kernel that deletes ARP entries by key does instead is in `ArpByKey.ByKeyLoses`.
- Renewal.Poller.Run: a run is given by a finite list of wakeups of any length; `Running` stands for a loop that goes on.
- Exclusion.NoTwoDaemonsShareSubnet: compares texts, as the table does; 10.255.1.0/24 and 10.255.1.7/24 count as different there, which `Exclusion.RunningDaemonsAreDisjoint` makes up for on pool leases.
- Tightness.ShorterExpirationLosesExclusion: asks for a latency no longer than the gap between checks, which holds whenever a renewal is checked before the next one starts, and for an expiration of at least one second, which the controller's configuration demands.
- Exclusion.RunningDaemonHoldsItsLease: requests are whole here; `StatementExclusion.SettledDaemonHoldsItsLease` is the version statement by statement.
- StatementExclusion.SettledDaemonHoldsItsLease: starts at a dated renewal and not at the end of the wait itself, since a row may be evicted during the wait and be missing until the daemon's next renewal.
- The loop over the two neighbour entries of one lease is written as two calls in a row.
