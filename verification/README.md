# Verified model of the IP-address manager

This project models the address manager's behaviour in Dafny and proves properties of it. The
system keeps sites, subnets and IP rows in PostgreSQL; discovers Kubernetes services and links
their addresses to IP rows; imports allocations from CSV files; captures usage snapshots; and
shows all of it in a browser.

`dafny verify dfyconfig.toml` checks everything.

## How it is built

| files | what they hold |
|---|---|
| `addresses.dfy`, `subnet_view.dfy`, `browser_text.dfy`, `site_statistics.dfy` | the four codings of "the usable addresses of a prefix": allocation rule, capacity, site sums in 64-bit arithmetic, browser enumeration with JavaScript's 32-bit operators |
| `ipam.dfy`, `call_outcomes.dfy` | the tables for sites, subnets and IP rows, every service call on them with its errors and effects, and runs of calls |
| `discovery.dfy`, `accounting.dfy` | the discovery tables, the SQL statements of a reconcile, foreign-key actions, the counters |
| `discovery_repository.dfy`, `runner.dfy` | the repository's write side and one round of the runner, as classes with loops |
| `protocol.dfy`, `integrity.dfy`, `lifecycle.dfy`, `identity.dfy`, `storable_commits.dfy`, `commit_progress.dfy`, `provenance.dfy`, `attempts.dfy` | any number of replicas as a state machine over begin, try-lock, write, commit, rollback and crash steps, with address-management calls in between; what every reachable state satisfies, where its events come from, what its sources tell of them, and which snapshots it can still commit |
| `lookups.dfy` | every committed address row, and every counter, tied to the tables of the step that looked the address up |
| `discovery_reads.dfy`, `subnet_services.dfy`, `reads_exist.dfy`, `torn_reads.dfy`, `cluster_to_reader.dfy` | the two reads, their loops, their agreement, reads whose queries see different states, and the round trip from cluster to reader |
| `kubernetes_client.dfy`, `canonical_listing.dfy`, `discovery_config.dfy`, `text_order.dfy` | listing and converting services, sorting, namespace lists |
| `csv_upsert.dfy`, `csv_import.dfy`, `csv_convergence.dfy`, `csv_files.dfy`, `import_runs.dfy` | the importer with its three caches against a cache-free upsert, importing again, and imports inside longer runs |
| `reporting.dfy` | the capture statement, retention, history windows, and runs over arbitrary clocks |
| `counterexamples.dfy` | small reachable inputs at which a conditional promise fails |
| `wrappers.dfy`, `sequences.dfy` | shared datatypes and facts |

An operation with a loop or with fields it updates is a method, proved equal to a specification
function. What such a function means is said of the rows, fields and texts alone, by lemmas that
do not name its parts; the main results are about these functions and about runs.

Some promises hold only under a condition. Each is proved as "if and only if":

* A `/32`: the allocation rule refuses its only address, while the capacity is 1 and the page
  lists it (README.md:251 of the repository includes it; the code does not).
  `Addresses.CapacityCountsAccepted`, `SubnetView.EnumerationIsAccepted`.
* A CIDR update does not look at the IP rows. `Ipam.CidrUpdateKeepsContainment`; 10.0.0.200
  left outside by an update to 10.0.0.0/25: `Counterexamples.CidrUpdateLeavesAddressOutside`.
* Load-balancer hostnames are not deduplicated, so a duplicate rolls the whole reconcile back.
  `CanonicalListing.ListedIsStorableIff`, `Runner.Runner.ReconcileOnce`; one such service:
  `Counterexamples.DuplicateHostnameBlocksRound`, `Counterexamples.DuplicateHostnameNeverCommits`.
  What an idle replica can commit from a reachable state: `CommitProgress.CommitsIffStorable`.
* Site sums are 64-bit: two IPv6 `/66` subnets give a total of -2^63.
  `SiteStatistics.StatisticsAreExact`, `SiteStatistics.TwoWidePrefixesOverflow`.
* The recorded service count is the number of active rows only for distinct UIDs.
  `Discovery.ServiceCountIsActiveRows`; in every reachable state: `Lookups.StoredServiceCounters`.
* An explicit node port 0 does not survive storage. `SubnetServices.PortsComeBack`. The client
  never produces one: `KubernetesClient.PortsSurvive`.
* A second import updates nothing only if no address is given two descriptions.
  `CsvFiles.FileReimportConverges`, `CsvFiles.ImportTwice`; two lines that do: `Counterexamples.SecondImportStillUpdates`.
* The page renders more texts than CIDRs: an empty mask or octet reads as 0 and a third part is
  ignored. `BrowserText.RendersExactly`, with the texts "10.0.0.0/", "1..2.3/24" and
  "10.0.0.0/24/x".

"Last snapshot" always means last committed: replicas commit in lock order, not in the order of
their clocks. A reconcile does not hold the address tables still: in the state machine every
lookup of an IP row is a step of its own, with address-management calls possible in between,
and `lookups.dfy` says for each committed row and counter which tables it saw.

## Model

| member | source | states |
|---|---|---|
| Addresses.ContainsIsRange | internal/domain/network_service.go:211-214 | an address is in a prefix exactly when its family matches and it lies between the network and the last address |
| Addresses.MaskedSameVerdicts | internal/domain/csv_import.go:158-170 | masking a prefix, as the import does, changes no verdict of the allocation rule |
| Addresses.VerdictExactly | internal/domain/network_service.go:211-225 | from the numbers alone: an address is outside unless some block of the prefix's size holds both; inside, exactly the first and last address of an IPv4 block are reserved, except for a /31 |
| Addresses.AcceptedIsInterval | internal/domain/network_service.go:211-225 | the accepted addresses form one unbroken range: all of the prefix, less one at each end for IPv4 other than /31; none for /32 |
| Addresses.AcceptedCount | internal/domain/network_service.go:211-225 | how many addresses are accepted, for every prefix of either family |
| Addresses.CapacityCountsAccepted | internal/domain/sites_service.go:106-124 | the capacity figure counts the accepted addresses if and only if the prefix is not an IPv4 /32 (1) and not IPv6 with 63 or more host bits (0) |
| Addresses.HostPrefixAcceptsNothing | internal/domain/network_service.go:217-221 | the one address of every /32 is refused as a network address although the capacity is 1 |
| Addresses.PointToPointAcceptsBoth | internal/domain/network_service.go:216-217 | both addresses of a /31 are accepted (section 2.1 of RFC 3021) |
| Addresses.AcceptedNeverExceedCapacity | internal/domain/sites_service.go:106-124 | distinct accepted addresses never outnumber the capacity where the capacity is a count |
| Ipam.ExecKeepsInv | internal/domain/network_service.go:40-209 | every service call keeps the foreign keys, the unique names and the unique (subnet, address) pairs |
| CallOutcomes.CreateSiteOutcome | internal/db/sites_repository.go:46-57 | succeeds with exactly one new site if and only if the name is free; a taken name is a plain database error |
| CallOutcomes.RenameSiteOutcome | internal/db/sites_repository.go:70-84 | not found, or a database error for another site's name, or exactly this name changes; each with its exact condition |
| CallOutcomes.DeleteSiteOutcome | db/migrations/20260305161410_add_sites_to_subnets_sql.sql:4 | not found if and only if absent; otherwise its subnets lose their site and nothing else changes |
| CallOutcomes.CreateSubnetOutcome | internal/domain/network_service.go:40-57 | invalid without a site, not found for an unknown one, a database error for host bits, otherwise exactly one new subnet; each with its exact condition |
| CallOutcomes.AssignSubnetSiteOutcome | internal/domain/network_service.go:59-71 | each refusal with its exact condition; a success moves exactly this subnet |
| CallOutcomes.UpdateSubnetOutcome | internal/domain/network_service.go:78-96 | each refusal with its exact condition; a success changes exactly this subnet's prefix and site |
| CallOutcomes.DeleteSubnetOutcome | db/migrations/0002_create_ip_addresses.sql:12 | not found if and only if absent; otherwise the subnet goes with exactly its own IP rows |
| CallOutcomes.CreateIpOutcome | internal/domain/network_service.go:160-182 | not found if and only if the subnet is absent, invalid if and only if it does not take the address, a conflict if and only if the address is in use there; otherwise exactly one row is new, with what was asked for |
| CallOutcomes.UpdateIpHostnameOutcome | internal/domain/network_service.go:184-198 | not found if and only if the row is not in that subnet; otherwise exactly its hostname changes |
| CallOutcomes.DeleteIpOutcome | internal/domain/network_service.go:200-209 | not found if and only if the row is not in that subnet; otherwise exactly that row goes |
| Ipam.RowsAreStable | internal/domain/network_service.go:160-209 | no call changes an IP row's address or subnet, and no key is reused |
| Ipam.RowsLeaveExactly | internal/domain/network_service.go:111-209 | an IP row goes away if and only if it or its subnet is deleted, and only a rename of that row changes it |
| Ipam.SiteChangesExactly | internal/domain/network_service.go:59-96 | a subnet's site changes if and only if that site is deleted or the subnet is moved to another existing site |
| Ipam.ContainmentStep | internal/domain/network_service.go:160-182 | a call that changes no CIDR leaves every IP row acceptable to its subnet |
| Ipam.CidrUpdateKeepsContainment | internal/domain/network_service.go:78-96 | a CIDR update keeps containment if and only if every IP row of the subnet fits the new CIDR |
| Ipam.RunStaysContained | internal/domain/network_service.go:160-225 | in every run of service calls without CIDR changes each stored IP passes the allocation check of its subnet |
| Ipam.AllocationWithinCapacity | internal/domain/network_service.go:129-137 | in such runs the used count never exceeds the capacity, so the total shown is the capacity itself |
| ImportRuns.ImportReaches | internal/domain/csv_import.go:89-125 | whatever the rows and the outages, an import is a run of service calls that change no CIDR |
| ImportRuns.MixedRunStaysContained | internal/domain/csv_import.go:153-221 | in every run of service calls and whole imports without CIDR changes each stored IP passes the allocation check of its subnet |
| ImportRuns.MixedRunWithinCapacity | internal/domain/network_service.go:129-137 | in such mixed runs the used count never exceeds the capacity, so the clamp of the total never acts |
| Counterexamples.CidrUpdateLeavesAddressOutside | internal/domain/network_service.go:78-96 | 10.0.0.200 is created in 10.0.0.0/24, the update to 10.0.0.0/25 succeeds and leaves it outside |
| SiteStatistics.Wrap64 | internal/domain/sites_service.go:95-102 | the result is a signed 64-bit integer and equals the argument exactly when that fits |
| SiteStatistics.CapacityIsInt64 | internal/domain/sites_service.go:106-124 | the shift that computes a capacity never leaves the signed 64-bit range |
| SiteStatistics.RowsAddUpSite | internal/domain/sites_service.go:63-104 | whatever order the statistics rows come in, they add up to the site's subnets, each once |
| ReadsExist.StatisticsExist | db/queries/sites.sql:27-34 | every state of the tables has a subnet list and statistics rows |
| SiteStatistics.SiteFiguresCount | db/queries/sites.sql:27-34 | a site's exact figures are the number of its subnets and the number of IP rows in them |
| SiteStatistics.Statistics | internal/domain/sites_service.go:63-89 | the nested loop returns for every site the 64-bit figures of the exact sums over its rows |
| SiteStatistics.StatisticsAreExact | internal/domain/sites_service.go:91-104 | a site's figures are the exact sums, of its subnets and of the IP rows in them, if and only if these stay below 2^63; then total = used + free and nothing is negative |
| SiteStatistics.TwoWidePrefixesOverflow | internal/domain/sites_service.go:101-102 | a site with two IPv6 /66 subnets shows a total of -2^63 |
| SiteStatistics.EnrichSubnets | internal/domain/network_service.go:122-137 | the in-place loop gives every subnet of the list the larger of capacity and used count as its total and changes nothing else |
| SiteStatistics.SiteTotalIsShownTotals | internal/domain/sites_service.go:91-104 | a site's total is the sum of the totals its subnets show in the subnet list, modulo 2^64 |
| SubnetView.AndHigh | frontend/src/subnet.js:11 | the bitwise and with a mask of leading ones clears exactly the low bits |
| SubnetView.PackIsValue | frontend/src/subnet.js:11 | shifting and or-ing four octets in 32-bit arithmetic gives the address number |
| SubnetView.NetworkIsRangeFrom | frontend/src/subnet.js:11 | the browser's network address is the backend's, for every mask from 0 to 32 |
| SubnetView.RangeIsSpan | frontend/src/subnet.js:12-17 | the listed run is the prefix less the held-back ends and stays inside 32 bits |
| SubnetView.EnumerationIsAccepted | frontend/src/subnet.js:5-18 | the page lists exactly the addresses the backend accepts if and only if the mask is not 32; there it lists the one refused address |
| BrowserText.SplitIsWhole | frontend/src/subnet.js:6-8 | splitting loses nothing and no piece holds the separator |
| BrowserText.RendersExactly | frontend/src/subnet.js:6-9 | a text renders a list if and only if it is four pieces, a slash, a mask and possibly a tail after another slash, the pieces reading as numbers in range; the list is that prefix's |
| BrowserText.BackendTextRenders | frontend/src/subnet.js:5-18 | every decimal IPv4 CIDR, as the backend sends it, renders, and its list is what the backend accepts if and only if the mask is not 32 |
| BrowserText.MissingMaskRenders | frontend/src/subnet.js:7 | "10.0.0.0/" renders as a /0 |
| BrowserText.MissingOctetRenders | frontend/src/subnet.js:8 | "1..2.3/24" renders as 1.0.2.3/24 |
| BrowserText.ThirdPartRenders | frontend/src/subnet.js:6 | "10.0.0.0/24/x" renders as 10.0.0.0/24 |
| BrowserText.DottedInjective | frontend/src/views/SubnetDetailView.tsx:33 | two addresses print alike only if equal, so a record is found under its own address |
| SubnetView.FormatInvertsPack | frontend/src/subnet.js:24-26 | formatting and octet packing are inverse on all 32-bit values and all octets |
| SubnetView.ReachableStarts | frontend/src/views/SubnetDetailView.tsx:33-35 | the window starts that clicking can reach are exactly the multiples of 256 up to the last window |
| SubnetView.ClicksMove | frontend/src/views/SubnetDetailView.tsx:35 | from a reachable window Next goes 256 addresses on and Previous 256 back, and neither leaves the list |
| SubnetView.WindowsTile | frontend/src/views/SubnetDetailView.tsx:33 | every position lies in exactly one window |
| SubnetView.WindowsInside | frontend/src/views/SubnetDetailView.tsx:33 | a window has 256 addresses, or the rest if that is less, and is never empty |
| SubnetView.EveryAddressOnOnePage | frontend/src/views/SubnetDetailView.tsx:33 | every address the backend accepts is shown on exactly one reachable window |
| Discovery.PortRoundTrip | db/queries/kubernetes_discovery.sql:46-49 | a port survives NULLIF and COALESCE if and only if it has no explicit node port 0 |
| Discovery.LiveReconciled | db/migrations/20260801000000_add_kubernetes_discovery.sql:58 | nulling the links of deleted IP rows commutes with a whole reconcile |
| Discovery.ReconciledIsSnapshot | internal/db/kubernetes_discovery_repository.go:46-92 | after a reconcile the active services are exactly the reported UIDs, each with its last report and the row identity it had |
| Discovery.ReconciledUnreported | db/queries/kubernetes_discovery.sql:73-82 | an unreported service is kept, marked or deleted by its own stale time alone |
| Discovery.LookupExactly | db/queries/kubernetes_discovery.sql:58-63 | a lookup says unmatched if and only if no IP row of the site has the address, matched with a row if and only if it is the only one, ambiguous if and only if there are several; its count is their number |
| Discovery.CountersPartitionAddresses | internal/db/kubernetes_discovery_repository.go:360-370 | matched + unmatched + ambiguous is the number of reported addresses |
| Discovery.ServiceCountIsActiveRows | internal/db/kubernetes_discovery_repository.go:80 | the recorded service count equals the active rows if and only if the reported UIDs are distinct |
| Accounting.CounterIsPlaces | internal/db/kubernetes_discovery_repository.go:347-379 | each of the three counters is the number of addresses for which, in the tables of their own lookup, no IP row, exactly one, or several fitted |
| Accounting.NoUsableIpIsUnaddressed | internal/db/kubernetes_discovery_repository.go:65-67 | the last counter is the number of services without an address |
| DiscoveryRepository.Transaction.ReplacePorts | internal/db/kubernetes_discovery_repository.go:328-345 | the service's ports become the encoded reported ones; nothing else of the source changes |
| DiscoveryRepository.Transaction.MatchAddress | internal/db/kubernetes_discovery_repository.go:352-370 | stores what the lookup found, unmatched, the only fitting row, or ambiguous, and bumps exactly the counter of that outcome |
| DiscoveryRepository.Transaction.ReplaceAddresses | internal/db/kubernetes_discovery_repository.go:347-379 | succeeds if and only if no (kind, address) repeats and every kind is known, and then stores every looked-up address in order |
| DiscoveryRepository.Transaction.ReplaceHostnames | internal/db/kubernetes_discovery_repository.go:381-393 | succeeds if and only if the hostnames are distinct load-balancer names, and then stores them |
| DiscoveryRepository.Transaction.WriteService | internal/db/kubernetes_discovery_repository.go:46-77 | writes one service with all its children if and only if the tables accept it |
| DiscoveryRepository.Transaction.WriteServices | internal/db/kubernetes_discovery_repository.go:45-78 | the loop writes the whole snapshot and collects its UIDs if and only if every service is storable |
| DiscoveryRepository.KubernetesDiscoveryRepository.Reconcile | internal/db/kubernetes_discovery_repository.go:24-108 | commits if and only if the lock is free, the site exists and every service is storable; then the source is the atomic reconcile of the snapshot with each address looked up in the tables of its own moment, otherwise nothing changes |
| DiscoveryRepository.KubernetesDiscoveryRepository.RecordFailure | internal/db/kubernetes_discovery_repository.go:110-137 | records the attempt and the message and nothing else, unless the lock is held |
| Runner.Runner.ReconcileOnce | internal/kubernetes/runner.go:47-71 | one round either reconciles the complete listed snapshot, or changes nothing (busy), or records a failure that changes no service, counter or last success; with the exact condition for each |
| Runner.Runner.RecordFailure | internal/kubernetes/runner.go:73-82 | a cancelled context or a held lock records nothing |
| Protocol.StepKeeps | internal/db/kubernetes_discovery_repository.go:24-137 | every step of every replica and every address-management call keeps the protocol invariant |
| Protocol.AtMostOneHolder | db/queries/kubernetes_discovery.sql:1-2 | in every reachable state at most one open transaction holds a source key |
| Protocol.CommitIsAtomic | internal/db/kubernetes_discovery_repository.go:24-108 | publishing what a transaction wrote statement by statement is one atomic reconcile or failure record |
| Protocol.CommittedIsSerial | internal/kubernetes/runner.go:47-82 | over every interleaving the committed database is the serial replay, in commit order, of whole reconciles, failure records and address-management calls |
| Lookups.CommittedLookups | internal/db/kubernetes_discovery_repository.go:351-376 | over every interleaving each committed reconcile was appended by a commit step of a transaction whose lookup of each address saw the tables of a step of its own, between that transaction's lock and this commit; only links to IP rows deleted meanwhile are nulled |
| Lookups.InterleavedCommitIsOneCall | internal/db/kubernetes_discovery_repository.go:24-108 | what the commit publishes is what that one repository call stores |
| Lookups.EveryCommitIsOneCall | internal/db/kubernetes_discovery_repository.go:24-108 | the two together: for every committed reconcile of every run, the step that appended it turned the committed database into what one repository call stores whose lookups saw the tables of those moments |
| Lookups.StoredRowsAreTrue | internal/db/kubernetes_discovery_repository.go:351-376 | every committed address row says what was true of the IP rows at a step between lock and commit: none, exactly this one, or several had the address |
| Lookups.StoredCountersAreLookups | internal/db/kubernetes_discovery_repository.go:360-370 | in every reachable state the matched, unmatched and ambiguous counters of a source are the numbers of addresses of its last committed snapshot whose lookup, at its own moment, found one, none or several IP rows |
| Lookups.StoredServiceCounters | internal/db/kubernetes_discovery_repository.go:74-104 | in every reachable state the service counter is the length of the last committed snapshot, the no-address counter the number of its services without addresses, and the first is the number of active services if and only if no UID repeats |
| Lookups.QuietCommitIsOneCall | internal/db/kubernetes_discovery_repository.go:24-108 | without an address-management call between lock and commit all lookups see the tables as they stand, whatever the other replicas do |
| StorableCommits.OnlyStorableCommits | db/migrations/20260801000000_add_kubernetes_discovery.sql:52-74 | over every interleaving, whatever was listed, only snapshots that the tables accept are ever committed |
| CommitProgress.CommitsIffStorable | internal/db/kubernetes_discovery_repository.go:24-108 | from every reachable state an idle replica can, by its own steps alone, commit exactly a given snapshot next if and only if the configuration is valid, nobody holds the lock, the site exists and the tables accept every service |
| Provenance.EveryEventWasAskedFor | internal/kubernetes/runner.go:47-71 | in every run each committed reconcile carries a snapshot that a replica listed, with that listing's configuration and observation time, and each failure record the message of a failed listing or round, with the time that round began |
| Provenance.ListLeads | internal/kubernetes/runner.go:47-54 | a failed listing owes a failure record with the time it began; a good one keeps its snapshot and both times |
| Provenance.BusyOwesNothing | internal/kubernetes/runner.go:56-60 | an attempt ends at the lock if and only if an open transaction holds it, and then owes no record |
| Provenance.FailureIsOwed | internal/kubernetes/runner.go:61-64 | a failing reconcile is rolled back and owes a record with the time its round began; a failing record is given up |
| Provenance.CrashReleases | internal/db/kubernetes_discovery_repository.go:29 | a crash stores nothing and releases the lock |
| Provenance.OwedRecordIsCommitted | internal/db/kubernetes_discovery_repository.go:110-138 | an owed record is committed if and only if the lock is free and the source or its site exists; otherwise nothing stored changes |
| Provenance.ManageOutcome | db/migrations/20260801000000_add_kubernetes_discovery.sql:6-58 | a call waits only to delete a site that an open transaction holds; otherwise a source goes if and only if its site does, loses exactly the links to deleted IP rows, and open transactions stand where they stood |
| Counterexamples.DuplicateHostnameBlocksRound | internal/kubernetes/client.go:162-164 | a service that reports one hostname twice is listed, but its round can store nothing |
| Counterexamples.DuplicateHostnameNeverCommits | internal/kubernetes/client.go:162-164 | over every interleaving no reconcile with that service commits |
| Protocol.FailureKeepsObservations | internal/db/kubernetes_discovery_repository.go:110-137 | in every reachable state a committed failure record changes no service, count or last success and no other source |
| Protocol.LiveTx | db/migrations/20260801000000_add_kubernetes_discovery.sql:52-62 | foreign-key actions of a call commute with every statement an open transaction has made |
| Integrity.RunKeepsData | db/migrations/20260801000000_add_kubernetes_discovery.sql:52-74 | in every reachable state, committed or in flight: links name live rows with the same address, unmatched and ambiguous rows have no link and counts 0 and at least 2, unique keys hold, active means no stale time |
| Integrity.MatchedReadsAreLive | db/queries/kubernetes_discovery.sql:159-185 | in every reachable state an address reads as matched if and only if it is stored so and its IP row still exists in the source's site; otherwise a stored match reads as unmatched, and any other status as stored |
| Lifecycle.StaleTimesClosedForm | db/queries/kubernetes_discovery.sql:73-82 | over any sequence of rounds the stale times have a closed form: first miss since last seen, dropped once a later cut-off reaches it |
| Lifecycle.LastCommittedSnapshotWins | internal/db/kubernetes_discovery_repository.go:24-108 | in every reachable state the active services of a source are exactly those of its last committed snapshot, with that snapshot's contents |
| Lifecycle.StaleLifecycle | db/queries/kubernetes_discovery.sql:25-41 | in every reachable state a service is stored, active and stale exactly as the closed form over the committed rounds says; the stale time is not refreshed |
| Lifecycle.ReconcileDeletesOnlyExpired | internal/db/kubernetes_discovery_repository.go:81-92 | a reconcile deletes exactly the rows whose stale time plus retention is reached, never one it marks itself, and a reported UID keeps its identity |
| Lifecycle.ReplayRow | db/queries/kubernetes_discovery.sql:84-100 | a source row's name, site, scope, counters and last success are those of its last committed reconcile |
| Attempts.SourceTellsItsHistory | internal/db/kubernetes_discovery_repository.go:110-138 | in every reachable state a source is stored if and only if an attempt was committed since its site last took it away; attempt time and error are those of the last attempt, the settings those of the last reconcile or of the failure that created the row |
| Identity.IdentityIsStable | db/queries/kubernetes_discovery.sql:25-41 | between two moments of a run a service that is stored all the while keeps its row identity |
| DiscoveryReads.ServiceKeyInjective | internal/db/kubernetes_discovery_repository.go:180 | the NUL-joined key determines source key and UID for NUL-free source keys |
| DiscoveryReads.GroupRow | internal/db/kubernetes_discovery_repository.go:181-217 | one iteration extends exactly the entry of the row's service, or starts it |
| DiscoveryReads.ListServicesBySubnetID | internal/db/kubernetes_discovery_repository.go:171-220 | under each IP the loop returns one entry per mentioned service, holding exactly what the rows said of it |
| DiscoveryReads.RegroupUndoesJoin | db/queries/kubernetes_discovery.sql:110-139 | for any row order the answer is exactly the stored services matched to the IP, with exactly their linked addresses and their ports, none twice |
| DiscoveryReads.PortsExact | internal/db/kubernetes_discovery_repository.go:416-424 | the ports come back as the same multiset if and only if no two stored ports read alike |
| SubnetServices.MatchStatusOf | internal/db/kubernetes_discovery_repository.go:433-447 | matched if any address is, else ambiguous if any is, else unmatched, else no usable IP |
| SubnetServices.StatusIsUnique | internal/db/kubernetes_discovery_repository.go:433-447 | no list of addresses has two of the four statuses |
| SubnetServices.Distribute | internal/db/kubernetes_discovery_repository.go:251-306 | each child row reaches exactly the service it belongs to, in order |
| SubnetServices.ListAllServicesBySubnetID | internal/db/kubernetes_discovery_repository.go:222-312 | every service row gets exactly its own addresses, ports and hostnames and their status |
| SubnetServices.QueryIdsDistinct | internal/db/kubernetes_discovery_repository.go:227-245 | the service rows of a read have distinct identities, so the index of the loops is well defined |
| SubnetServices.ReadsExactlyTheVisible | db/queries/kubernetes_discovery.sql:141-211 | the read returns exactly the active services of the sources bound to the subnet's site, each as stored |
| SubnetServices.ReadsAgree | db/queries/kubernetes_discovery.sql:110-185 | a service appears under an IP row with an address in one read if and only if the other reports that address as matched to that row and subnet |
| ReadsExist.ServiceListExists | internal/db/kubernetes_discovery_repository.go:223-283 | every state of the database has answers to the four queries, so what is proved of all answers is not empty |
| ReadsExist.MatchRowsExist | db/queries/kubernetes_discovery.sql:110-139 | every state has an answer to the query behind the per-IP read |
| TornReads.TornReadReports | internal/db/kubernetes_discovery_repository.go:223-306 | even if commits fall between the four queries, each observation is a row visible to the first, with exactly the children that this row has in the state of the query that reads them, or none |
| TornReads.TornReadOverRun | internal/db/kubernetes_discovery_repository.go:223-306 | four queries at four moments of a run show exactly the services visible at the first; no child of another service slips in, and a service that stays stored and visible loses none |
| SubnetServices.FreshLookupReads | internal/db/kubernetes_discovery_repository.go:351-376 | an address read back before anything changes is the reported one, with the status and the only candidate of its lookup |
| SubnetServices.PortsComeBack | internal/db/kubernetes_discovery_repository.go:332-343 | stored ports are read back as the reported multiset if and only if none has an explicit node port 0 |
| SubnetServices.StoredReadsBack | internal/db/kubernetes_discovery_repository.go:222-312 | a stored answer to a reported service reads back as that service, whatever its lookups found and whatever became of its links, if and only if no port has node port 0 |
| SubnetServices.WriteThenRead | internal/db/kubernetes_discovery_repository.go:40-108 | after a committed reconcile with distinct UIDs, whatever tables its lookups saw, a subnet of the site shows a reported service with equal fields and equal multisets of ports, addresses and hostnames, if and only if no port has node port 0 |
| SubnetServices.WriteThenReadOnly | internal/db/kubernetes_discovery_repository.go:222-312 | nothing else of that source is shown, and other sources' rows are untouched |
| ClusterToReader.RoundIsReadBack | internal/kubernetes/client.go:70-102 | what a successful listing of valid namespaces returns and a reconcile commits is shown in full, and nothing else of the source, on every subnet of the site |
| ClusterToReader.ReachableReadBack | internal/db/kubernetes_discovery_repository.go:222-312 | after any interleaving of replicas, failures, crashes and address-management calls a subnet of the source's site shows exactly the services of the source's last committed round, each once, with equal fields and equal multisets of ports, addresses and hostnames |
| KubernetesClient.Collector.AppendAddress | internal/kubernetes/client.go:169-176 | the seen-map holds exactly the kept (kind, address) pairs and an address is appended only if it is new |
| KubernetesClient.ServiceToSnapshot | internal/kubernetes/client.go:104-167 | the loops compute the snapshot of the service or its first error |
| KubernetesClient.SnapshotExact | internal/kubernetes/client.go:104-176 | a service converts if and only if it has a UID and no bad address, each refusal with its own condition; the snapshot has exactly the object's names, DNS name, ports and hostnames, each reported (kind, unmapped address) once, and is storable if and only if no hostname repeats |
| KubernetesClient.FirstModeKept | internal/kubernetes/client.go:150-176 | of several ingress entries with one address the first decides the mode that is kept |
| KubernetesClient.HostnamesStorableIff | internal/kubernetes/client.go:162-164 | the reported hostnames fit the table's unique key if and only if the cluster reports none twice |
| KubernetesClient.PortsSurvive | internal/kubernetes/client.go:178-184 | no converted port has an explicit node port 0, so storage gives all of them back |
| KubernetesClient.SortSnapshots | internal/kubernetes/client.go:91-100 | the result is an ordered permutation |
| KubernetesClient.ListServices | internal/kubernetes/client.go:70-102 | all or nothing: any failed list or bad service yields no snapshot, otherwise the ordered permutation of everything listed |
| CanonicalListing.ListingDepictsAll | internal/kubernetes/client.go:70-102 | a successful listing depicts every listed service and nothing else, as many snapshots as services, sorted by namespace, then name, then UID |
| CanonicalListing.CollectListsIsMap | internal/kubernetes/client.go:74-90 | the listing succeeds if and only if every list answers and every service converts |
| CanonicalListing.OrderedUnique | internal/kubernetes/client.go:91-100 | with distinct UIDs there is only one ordered arrangement of the snapshots |
| CanonicalListing.ListingIsCanonical | internal/kubernetes/client.go:70-102 | two listings of the same services in any order give the same result |
| CanonicalListing.SuccessIsCanonical | internal/kubernetes/client.go:74-90 | whether a listing succeeds does not depend on the order of the services either |
| CanonicalListing.ListedOnce | internal/kubernetes/config.go:92-101 | deduplicated valid namespaces never overlap, so unique cluster UIDs give distinct UIDs in the result |
| CanonicalListing.ListedIsStorableIff | db/migrations/20260801000000_add_kubernetes_discovery.sql:61-73 | the result can be stored if and only if no service reports a hostname twice; the address key cannot fail |
| DiscoveryConfig.ParseList | internal/kubernetes/config.go:134-149 | the loop keeps the trimmed nonempty items, each at its first place |
| DiscoveryConfig.ItemsExact | internal/kubernetes/config.go:134-149 | the items are distinct and are exactly the nonempty trimmed pieces |
| DiscoveryConfig.ItemsInOrder | internal/kubernetes/config.go:134-149 | the items come in the order of their first places |
| TextOrder.TripleOrder | internal/kubernetes/client.go:91-100 | the comparison by namespace, name and UID is a strict total order |
| TextOrder.BeforeExactly | internal/kubernetes/client.go:91-100 | one text comes before another if and only if it is a proper prefix of it or has the smaller character where they first differ |
| CsvUpsert.OnlyOutagesFail | internal/domain/csv_import.go:172-220 | a valid row never meets a conflict, invalid input or a missing row; it fails only by outage and then changes no IP row |
| CsvUpsert.OutcomeTells | internal/domain/csv_import.go:189-220 | a row is Created if and only if exactly the IP row it names is new, Updated if and only if exactly that row got another description, Unchanged only if it was there with this one; an error leaves every IP row alone |
| CsvUpsert.FailsIffBlocked | internal/domain/csv_import.go:172-220 | a valid row fails if and only if a call that it needs is down |
| CsvUpsert.PlacesMade | internal/domain/csv_import.go:172-188 | a row makes a site or a subnet only if the one it names is missing, and then just that one |
| CsvImport.LoadSites | internal/domain/csv_import.go:69-76 | the site cache starts as exactly the stored sites |
| CsvImport.LoadSubnets | internal/domain/csv_import.go:77-86 | the subnet cache starts with exactly the (site, CIDR) keys, each with the subnet created last |
| CsvImport.CachedSite | internal/domain/csv_import.go:172-179 | through the cache the site is found or created as without it, and the cache still equals the store |
| CsvImport.CachedSubnet | internal/domain/csv_import.go:180-188 | the same for the subnet |
| CsvImport.CachedIp | internal/domain/csv_import.go:189-220 | through the loaded lists the IP row is found, renamed or created as without them, and every loaded list still equals the store's |
| CsvImport.ImportEntry | internal/domain/csv_import.go:172-220 | a valid row refines the cache-free upsert; a loaded list only spares a call |
| CsvImport.ImportRow | internal/domain/csv_import.go:153-221 | a row refines validation followed by the cache-free upsert, with all three caches agreeing with the store afterwards |
| CsvImport.RefusedExactly | internal/domain/csv_import.go:97-170 | each reason of a refusal has its exact condition on the row, with the limits of 4096 and 16384 bytes |
| CsvImport.AcceptedMeans | internal/domain/csv_import.go:153-170 | an accepted row means its trimmed site, the masked prefix, the address, and the description as it stands |
| CsvImport.CheckLimits | internal/domain/csv_import.go:132-144 | finds the first violated shape or size limit |
| CsvImport.ImportCSV | internal/domain/csv_import.go:53-130 | the store becomes what the rows within the limit do without caches, and the result counts them; the file errors and what they leave behind are exact, no result counts more than 100000 rows, and the created count is the number of IP rows added |
| CsvImport.SummaryAccounts | internal/domain/csv_import.go:88-129 | processed = created + updated + failed + unchanged, failed counts the errors, and error rows strictly increase within 2..processed+1 |
| CsvImport.EveryRowTells | internal/domain/csv_import.go:87-125 | every outcome of a file tells what its row did to the tables that it found |
| CsvImport.CreatedIsGrowth | internal/domain/csv_import.go:119-124 | the created count is the number of IP rows that the file added |
| CsvImport.CountIsRows | internal/domain/csv_import.go:119-124 | each counter is the number of rows with that outcome |
| CsvImport.ErrorsExactly | internal/domain/csv_import.go:87-118 | a row is listed among the errors if and only if it failed, under its number in the file and with its reason |
| CsvImport.RowIsolation | internal/domain/csv_import.go:113-118 | a row rejected by validation changes nothing; a row failing later changes no IP row and fails only by outage |
| CsvConvergence.UpsertSettles | internal/domain/csv_import.go:153-221 | after a valid row its site, subnet and IP row exist and the IP row carries its description |
| CsvConvergence.UpsertGrows | internal/domain/csv_import.go:172-220 | a row removes nothing: every site, subnet and IP row keeps its place |
| CsvConvergence.UpsertTouchesTarget | internal/domain/csv_import.go:196-213 | a row changes the description of no IP row but its own |
| CsvConvergence.SettledStays | internal/domain/csv_import.go:196-213 | a later row moves no settled address and sets its description only if it names the same address |
| CsvConvergence.ReimportConverges | internal/domain/csv_import.go:153-221 | importing the same valid rows twice leaves the same store as once, and each address has the description of its last row |
| CsvConvergence.SecondRunOutcomes | internal/domain/csv_import.go:196-212 | the second run creates and fails nothing, and updates nothing if and only if no address is given two descriptions |
| CsvFiles.FailsIffUnparsed | internal/domain/csv_import.go:97-118 | with every call succeeding a row fails if and only if its text does not parse, for that reason |
| CsvFiles.FileReimportConverges | internal/domain/csv_import.go:53-130 | for whole files, malformed rows included: same store, nothing created, the same errors, and no update if and only if no address is given two descriptions |
| CsvFiles.ImportTwice | internal/domain/csv_import.go:53-130 | the importer with its caches, called twice on one file without outages: the second call leaves the store as it is, fails or reports the same, creates nothing, and updates nothing if and only if no address is given two descriptions |
| Counterexamples.SecondImportStillUpdates | internal/domain/csv_import.go:196-213 | two lines with one address and two descriptions: importing them again updates |
| Reporting.CaptureNeverConflicts | db/queries/reporting.sql:12-42 | in a sound store a due capture is later than every stored row, so the primary key cannot fire and the checks hold |
| Reporting.CaptureExactly | db/queries/reporting.sql:12-42 | a capture happens if and only if none has happened yet or the cadence has passed, and then adds one row for each IPv4 subnet: the number of its IP rows, and the larger of that and the prefix size |
| Reporting.RunIsSound | db/migrations/20260801000002_add_subnet_usage_reporting.sql:2-17 | every reachable state has a valid policy, rows no later than the last capture, and used at most total |
| Reporting.TablesFollowCalls | db/queries/reporting.sql:12-48 | in every run the address tables are what the service calls alone make of them |
| Reporting.CapturesAreSpaced | db/queries/reporting.sql:13-25 | over any replicas and clocks each capture comes at least the cadence then in force after every earlier one, so n further captures take at least n hours |
| Reporting.PolicyIsLastAccepted | db/migrations/20260801000002_add_subnet_usage_reporting.sql:2-7 | in every run the policy is that of the last accepted update, or hourly and 30 days before any |
| Reporting.DueCaptureStoresAll | db/queries/reporting.sql:26-41 | after any run a capture happens if and only if it is due, stores one row for each IPv4 subnet with its number of IP rows at that moment, and touches no other row |
| Reporting.RetainedExactly | db/queries/reporting.sql:44-48 | in every run a row is stored if and only if a due capture recorded it and no cleanup with a later cutoff and no deletion of its subnet came since |
| Reporting.RetainedValue | db/queries/reporting.sql:26-41 | a stored row holds the number of IP rows, and the larger of that and the prefix size, of the moment of its capture |
| Reporting.SnapshotTotalIsSize | db/queries/reporting.sql:31-34 | while IP rows fit their subnet the snapshot's total is the prefix size: two more than the total shown for the subnet, or the same for /31 and /32 |
| Reporting.ReportingService.UpdateSettings | internal/domain/reporting_service.go:36-44 | succeeds exactly for the three cadences and 1 to 180 days; a refusal changes nothing, a success leaves the stored rows and the time of the last capture alone |
| Reporting.ReportingService.RunSnapshotCycle | internal/domain/reporting_service.go:81-88 | after a cycle exactly the rows, old or new, not older than the retention are left and the counts say how many came and went; a failed cleanup still reports how many came |
| Reporting.ReportingService.GetSubnetUsageHistory | internal/domain/reporting_service.go:46-79 | each error has its exact condition, with the five windows in seconds; otherwise the points are exactly the stored rows of the window, strictly ascending |

## Left out

- HTTP routing, handlers, JSON models, logging, authentication and roles, React components and charts: plumbing and user interface.
- The PostgreSQL engine: transactions, row locks, unique and foreign keys and the try-lock are assumed as step semantics. Deleting a site waits for a transaction that holds it; deleting an IP row or subnet nulls the links in an open transaction's private rows at once instead of waiting for it.
- Statement granularity: in the state machine the upsert of a service with its ports, each address with its lookup, and the hostnames are single steps; the repository methods have every statement of their own.
- Table layout: child tables are kept under their parent rows, the key of a service row is its source, its UID and a serial that its source row never hands out twice, and timestamps and free-text descriptions of sites and subnets are dropped.
- Text parsing and formatting (CSV, CIDR and IP text in the backend, UUIDs) and byte lengths are parameters, and so is the browser's Number() on texts that are not all decimal digits; addresses have no zones; text is compared by character, which for UTF-8 is the byte order.
- Order of query results: the reads are proved for every order of the rows, so the order of the answer is not.
- Integer widths other than the site sums and the browser's operators: the stored 32-bit counters and match counts are unbounded here.
- Ipam.RunStaysContained: its runs are service calls only; ImportRuns.MixedRunStaysContained states it for runs with whole imports.
- Ipam.AllocationWithinCapacity: its runs are service calls only; ImportRuns.MixedRunWithinCapacity states it for runs with whole imports.
- Protocol.CommittedIsSerial: replays each reconcile with the lookup results recorded in its event; Lookups.CommittedLookups says what these are.
- DiscoveryRepository.KubernetesDiscoveryRepository.Reconcile: the site table stands still during the call and no IP row is deleted under it; the state machine covers both.
- Runner.Runner.ReconcileOnce: as the repository call that it makes.
- Lookups.QuietCommitIsOneCall: is about uninterrupted transactions by intent; Lookups.CommittedLookups is the general case.
- SubnetServices.ReadsExactlyTheVisible: all four results come from one state, although the source runs four statements outside a transaction; TornReads.TornReadOverRun says what holds when commits fall in between.
- SubnetServices.ReadsAgree: both reads see one state; across states they may differ as the states do.
- ClusterToReader.ReachableReadBack: all four results come from one reachable state; TornReads.TornReadOverRun is about queries at different moments.
- TornReads.TornReadOverRun: a service deleted and stored again between the queries may show the children of either row; the database, whose row keys never come back, would show none of the second.
- ClusterToReader.RoundIsReadBack: is about the state right after a commit; ClusterToReader.ReachableReadBack is about every reachable state.
- CsvUpsert.OnlyOutagesFail: a name or description that the database always refuses (a NUL byte, invalid UTF-8) counts as an outage of that call.
- DiscoveryReads.ListServicesBySubnetID: takes the rows of the query as a parameter and needs NUL-free source keys, which is all that the database stores.
- KubernetesClient.SortSnapshots: sorts by insertion; the library's sort is unseen and only its ordered permutation matters.
- CsvImport.ImportCSV: no other writer during the import, and a failed service call changed nothing, although creating a subnet inserts and then reads again (internal/db/subnet_repository.go:48-58). Whether the byte limit was hit is a parameter.
- Reporting.ReportingService.RunSnapshotCycle: the capture reads the address tables in one moment; a subnet deleted while the capture waits for the settings row is not modelled. A day is 24 hours.
- Runner timers, jitter, backoff and the listing of source statuses; the truncation of error messages.
- Attaching the per-IP services to the IP rows in the IP list: a lookup per row that would only add an easy member.
- The rest of the configuration checks (cluster domain, authentication mode, intervals) and Helm, Docker and the integration setup.
