# Lantern in Dafny

Lantern is a home server dashboard. It keeps a list of services, publishes them as DNS records and tunnel
routes at Cloudflare, watches Docker for containers that come and go, scans the network for more, and runs
cloudflared. This project models that state-keeping core and proves what it keeps.

`dafny verify dfyconfig.toml` checks everything.

## How it is laid out

| file | what it models |
|---|---|
| Ingress.dfy | the tunnel's ordered rule list: adding, removing, replacing, first-match lookup |
| Cloudflare.dfy, Client.dfy | Cloudflare as a state of records and rules, each request of which may fail; the client that makes the requests |
| Dns.dfy | the plan from an old to a wanted DNS configuration, and the reconciliation that carries it out |
| Tracking.dfy | what it means that Cloudflare holds exactly what the store says |
| Failures.dfy | changes some of whose requests fail |
| Entities.dfy, Catalog.dfy | the store's data and what each operation does to it, with every lookup a search |
| Indexing.dfy, Store.dfy | the store as it is: pointers, slices, and eight lookup maps kept by hand |
| Handlers.dfy, Server.dfy | the create, update and delete handlers: what they do, and as they run on store and client |
| Requests.dfy | what a create, update or delete comes to, said of the request and the stored service alone |
| Runs.dfy, MixedRuns.dfy | runs of requests, and of requests mixed with container events |
| Edits.dfy | edits where store and Cloudflare disagree before or after |
| Docker.dfy, DockerWatch.dfy | container events: what they do, and as they run on the store |
| Starts.dfy | what the start of a container comes to, said of its labels and the store alone |
| Scan.dfy, Discovery.dfy | what a scan leaves on the discovered list, and the loops that put it there |
| Pipeline.dfy, Sweep.dfy, ScanOnce.dfy | the scan's goroutines, channel, probe-once table, counters and flag as step systems |
| Supervisor.dfy, Crowd.dfy | the cloudflared supervisor as a step system, with callers one at a time and all at once |
| SaveCrash.dfy | concurrent saves and crashes as a step system |
| Samples.dfy | small states at which some result does not hold |
| TtlCache.dfy, Cidr.dfy, Grouping.dfy, Text.dfy | the favicon cache, host enumeration, the homepage's groups, subdomains and other strings |

Where the source changes things in place there is a class whose methods are proved equal to functions on
plain data; what the source promises is proved of those functions. The step systems give each goroutine its
own steps, so a statement about all runs is one about all interleavings.

## What the main results say

* **Publishing.** `Runs.RunStaysGood`, `Runs.PathsAgree` and `Runs.RunPublishes`: when requests succeed, a
  tunnel is enabled, subdomains asked for are free and nobody else uses the hostnames, Cloudflare is at all
  times what was there before plus what the store says, and depends, up to record IDs, only on how the services
  are configured, whatever path of mode changes led there. `Tracking.ChangeTracked` gives the exact condition
  under which one change keeps that so, tunnel or not.
* **Requests.** `Requests.CreatedAsAsked`, `Requests.EditedAsAsked` and `Requests.DeletedAsAsked`: what is asked
  for is what is stored and what the hostname then leads to; `Dns.NothingSentIff` and
  `Requests.EditSendsNothingIff` say exactly when no request goes out.
* **Failures.** `Failures.FailureTrackedIff` says for every action which outcomes of its requests leave nothing
  orphaned and nothing dangling. `Dns.ReconcileConfined` bounds the damage otherwise.
* **The store.** Every method of `IndexedStore.Store` leaves every lookup map exactly right, or says for which
  arguments it does; `IndexedStore.Store.RebuildIndexes` says that rebuilding from scratch would change nothing.
* **Docker.** `Docker.EventsKeep` and `Docker.ComesBack`: events never lose what the user set, and a
  recreated container comes back to its service. `Starts.StartAttaches` and `Starts.StartLists` say where each
  container goes. `MixedRuns.MixedStaysGood` joins this to publishing.
* **Scanning.** `Pipeline.ScanShowsWhatAnswers` goes from the goroutines of a scan to the list that is shown;
  `Scan.AssignedIff` says what counts as assigned.
* **cloudflared.** `Supervisor.RunKeeps`, `Supervisor.AfterStop` and `Supervisor.Settles` for callers one at a
  time; `Crowd.AtMostOneIff` and `Crowd.LostAfterRunIff` for any number at once.

## Where the code does less than it seems to

Each of these is a lemma with the exact condition, beside a state and a step, or a run, at which it fails.

* An edit that names a taken subdomain overwrites the other service and leaves it in the map of IDs
  (`WebServer.Server.UpdateService`), and what that does to Cloudflare depends on the modes
  (`Edits.OverwriteTrackedIff`, `Samples.TakenSubdomain`).
* An edit to a blank subdomain renames a routed service to "service": the fallback to the old subdomain cannot
  be reached (`Handlers.OmittedSubdomainRenames`, `Samples.OmittedSubdomain`).
* A create can make a second service with the container, or the container name, of another; publishing goes on
  as it should, but the lookup maps are wrong (`MixedRuns.RequestUniqueIff`, `WebServer.Server.CreateService`,
  `Samples.SameDisplayName`).
* When tunnels are switched off, changes to a tunnelled service forget its record and leave it published
  (`Tracking.ChangeTracked`, `Samples.SwitchedOff`); when creating the new CNAME fails, a replacement keeps the
  ID of the deleted one (`Dns.ReplaceDanglesIff`, `Samples.LostAlias`); nothing is tried again, so other failures
  orphan records and rules (`Failures.FailureTrackedIff`, `Samples.RefusedDelete`).
* EnsureARecord leaves a CNAME of the name a CNAME (`Cloudflare.EnsureARecordIff`,
  `Cloudflare.EnsureLeavesCNAME`).
* A restarted container's new address does not reach its tunnel route (`Docker.EventTrackedIff`,
  `Samples.MovedContainer`), and an edit repairs that only if it changes something (`Edits.EditRepairsIff`,
  `Samples.SavedAgain`).
* A service made from a discovered container remembers the display name, so it may not be found again
  (`Docker.MadeFromCandidateIff`, `Samples.RenamedContainer`), and its scheme is guessed from the port
  (`Docker.MadeTargetIff`, `Samples.GuessedScheme`).
* Only one deleted container fits on the discovered list at a time (`Docker.DeletedIsListedIff`,
  `Samples.SecondDeleted`).
* Un-ignoring one of two entries with one address and port makes IsIgnored forget the other
  (`Catalog.KeysExactIff`, `Samples.ForgottenIgnored`); a light scan does not look at the ignored list
  (`Scan.LightScanResult`, `Samples.IgnoredComesBack`), a URL that ends in a slash is not found with one more
  (`Scan.AssignedIff`, `Samples.SlashedUrl`), and a light scan can run beside a full one (`ScanOnce.ApartIff`,
  `ScanOnce.LightBesideFull`).
* `running` does not mean that cloudflared runs (`Supervisor.HonestRunIff`, `Supervisor.FalseWhileAlive`), and
  a Create can succeed and start nothing (`Supervisor.CreateStartsIff`, `Supervisor.CreatedButNotStarted`). Two
  Creates at once can start two supervisors, one of which nothing can stop any more (`Crowd.DoublesIff`,
  `Crowd.LostIff`, `Crowd.TwoCreates`).
* Enumerating 255.255.255.255/32 never ends (`Cidr.EndsIff`).
* The last save to be written need not be the latest (`SaveCrash.LatestIff`, `SaveCrash.MayBeStale`).

The cache would misjudge the empty key, which its search uses for "none yet" (`TtlCache.ScanRightIff`,
`TtlCache.EmptyKeyOverflows`), but nobody stores one: its keys are the IDs of stored entries.

## Model

| member | source | states |
|---|---|---|
| Ingress.EditLeavesOneCatchAll | internal/cf/tunnel.go:94-142 | From any rule list (catch-all missing, repeated or in the middle) an edit leaves exactly one catch-all, in last place, if and only if it does not itself add a rule without a hostname. |
| Ingress.LookupEdited | internal/cf/tunnel.go:25-92 | First-match lookup after one edit gives the new backend for an added hostname, nothing for a removed one, and the old answer for every other. |
| Ingress.RunsEndInOneCatchAll | internal/cf/tunnel.go:94-142 | After any run of edits there is one catch-all, last, and it is the one the list began with. |
| Ingress.LastRule | internal/cf/tunnel.go:94-142 | The rule in last place after an edit is the last one listed without a hostname, or the one that answers with 404 where there was none. |
| Ingress.LookupAfterRun | internal/cf/tunnel.go:25-142 | After any run of edits, lookup is decided by the edits and the first answer alone. |
| Ingress.OthersSurviveRun | internal/cf/tunnel.go:25-142 | Named rules that no edit of a run mentions survive it in their order. |
| Ingress.ReplaceTakesEffectIff | internal/cf/tunnel.go:70-92 | A replace makes the new hostname answer with the new backend if and only if that hostname was the old one, unused, or answering so already. |
| Ingress.AddLaws | internal/cf/tunnel.go:25-48 | Adding again replaces, and adding then removing is the same as removing. |
| Ingress.RemoveHostname | internal/cf/tunnel.go:163-171 | The filtering loop keeps exactly the other rules, in order. |
| Ingress.Rewrite | internal/cf/tunnel.go:94-142 | The loop that separates named rules from catch-alls, with the edit in the middle, computes the edited list. |
| Cloudflare.EnsureARecordEnsures | internal/cf/cf.go:109-125 | With requests succeeding and at most one record of the name: the name ends up with an A record of the given address if and only if it had no record or its record was an A record; one record is left with the name, and the rest of the zone stays. |
| Cloudflare.EnsureARecordIff | internal/cf/cf.go:88-125 | With any number of records of the name: if and only if it had none, or the first listed is an A record, or it had the wanted one already; the listing is not restricted to A records. |
| Cloudflare.EnsureLeavesCNAME | internal/cf/cf.go:109-125 | The input that shows it: a CNAME of the name stays a CNAME, with the address as its content, and success is reported. |
| Cloudflare.EnsureReports | internal/cf/cf.go:109-125 | Whatever becomes of requests: success is reported only if the name has a record with the address, failure only if one of the at most two requests was not answered. |
| Cloudflare.DeleteReports | internal/cf/cf.go:74-86 | Success is reported of a delete only if the record was there and is gone. |
| Cloudflare.RemoveReports | internal/cf/tunnel.go:50-68 | A route is reported removed only if its rule is gone, and its record if the ID was given; with tunnels off nothing is done. |
| Cloudflare.RouteReports | internal/cf/tunnel.go:25-92 | A route is reported added or replaced only if its rule is written and the ID given back is that of a CNAME to the tunnel; with tunnels off nothing is done. |
| Dns.PostConfined | internal/cf/cf.go:128-138 | Creating a record, whether its request succeeds, is refused or is answered too late, touches only records of its name. |
| Tracking.DeleteEffect | internal/cf/cf.go:74-86 | Deleting takes away that record and nothing else. |
| Dns.FindConfined | internal/cf/cf.go:88-105 | Finding changes nothing, and a record found has the name. |
| CfClient.Client.EnsureARecord | internal/cf/cf.go:109-125 | Find, then patch or create, with every way a request can fail. |
| CfClient.Client.ModifyIngress | internal/cf/tunnel.go:94-142 | Read, edit and write back the rule list; nothing is written when the read fails. |
| CfClient.Client.AddTunnelRoute | internal/cf/tunnel.go:25-48 | Ingress rule first, then the CNAME, with the ingress left changed when the CNAME fails. |
| CfClient.Client.RemoveTunnelRoute | internal/cf/tunnel.go:50-68 | Ingress rule, then the CNAME if its ID is known. |
| CfClient.Client.ReplaceTunnelRoute | internal/cf/tunnel.go:70-92 | One ingress edit for both hostnames, the old CNAME deleted, the new one created. |
| Dns.HostInjective | internal/web/handle_services.go:294-300 | Different subdomains have different hostnames. |
| Dns.NothingSentIff | internal/web/handle_services.go:253-303 | Whatever becomes of requests, and for any client, reconciliation makes no request and hands back the IDs it was given if and only if the same is asked for again (direct still; or the same subdomain and way, and by the tunnel the same target), or nothing is published and what is asked for cannot be. |
| Dns.ReconcileConfined | internal/web/handle_services.go:294-388 | Whatever requests fail, reconciliation changes only the old record and records named after the new hostname, and only rules for the old route, the old and the new hostname; all others survive, rules in order, and the catch-all stays. |
| Dns.ReconciledIdExists | internal/web/handle_services.go:294-388 | Whatever fails, the record ID handed back is empty or names an existing record, replacement apart. |
| Dns.ReplaceDanglesIff | internal/web/handle_services.go:371-385 | After a replacement the ID handed back is dangling if and only if the rule edit and the delete went through and creating the new CNAME failed. |
| WebServer.Server.ReconcileDNS | internal/web/handle_services.go:294-388 | The handler's sequence of client calls does exactly what the plan's action calls for. |
| Tracking.TrackedDetermines | internal/web/handle_services.go:253-388 | Two remote states that track the same services over the same outside have equal records and answer every hostname alike. |
| Tracking.ConfigDetermines | internal/web/handle_services.go:253-388 | Two that track services configured alike, though under other record IDs, answer every hostname alike and hold equal records, service by service and, outside what was there before, each for each. |
| Tracking.PublishedByHost | internal/web/handle_services.go:253-388 | For a service of a tracked store: one rule to its target behind one CNAME, or one A record to the server, or nothing, as its stored IDs say. |
| Tracking.ReconcileEffect | internal/web/handle_services.go:294-388 | With requests succeeding, what each of the eight actions does to records and rules, in terms of the old and the wanted mode only. |
| Tracking.ChangeTracked | internal/web/handle_services.go:344-388 | One change to one service keeps Cloudflare equal to what the store says (no orphan, nothing dangling) if and only if the client can take down what was published; the failing cases are a switched-off tunnel or a no-op client. |
| Tracking.LeakEffect | internal/web/handle_services.go:348-385 | In those cases the published record stays while its ID is forgotten. |
| Tracking.MovedTracked | internal/web/handle_services.go:294-388 | However a remote state came about, it tracks the store with one service moved if just that service's record and rules were moved. |
| Failures.FailureTrackedIff | internal/web/handle_services.go:294-388 | With any requests refused or their answers lost, and tunnels on, a change of one service leaves Cloudflare equal to what the store says if and only if the outcomes are among those written out for its action; in all other cases a record or rule is orphaned, or the store names one that is not there. |
| Failures.CreateAIff | internal/web/handle_services.go:302-312 | Creating the A record: unless its answer is lost. |
| Failures.DeleteAllIff | internal/web/handle_services.go:314-325 | Taking down: if the record's deletion takes effect and, for a route, the rule was first read and written with an answer. |
| Failures.SwapAIff | internal/web/handle_services.go:327-340 | Moving an A record: if the old one's deletion takes effect and the new one's answer is not lost. |
| Failures.AToTunnelIff | internal/web/handle_services.go:348-360 | From A record to tunnel: if the deletion takes effect and the route is not written or completed; or, on the same hostname, if the refused deletion is made good when the route is added. |
| Failures.ReplaceTunnelIff | internal/web/handle_services.go:371-388 | Replacing a route: if all of it takes effect with answers but for the old record's deletion; or, on the same hostname, if the rule is changed and nothing after it. |
| Handlers.KeysStayFormed | internal/web/handle_services.go:64-115 | Over every run from a well-formed store a service is keyed by the direct prefix and its own ID exactly when it is direct, and by a valid label otherwise. |
| Handlers.LabelsAreNotDirect | internal/web/handle_services.go:111-115 | The key of a direct service is never a label. |
| Handlers.OmittedSubdomainRenames | internal/web/handle_services.go:447-463 | An edit to a blank subdomain renames a routed service to "service", because normalising never yields the empty string the code tests for. An edit keeps the subdomain if and only if the text normalises to it, or is blank and it is "service"; or, of a service that is to be direct, if it was direct or was called so. |
| Text.NormalisedNoneIff | internal/util/util.go:21-40 | Normalising, before its own fallback, leaves nothing if and only if the text has no letter or digit that is kept. |
| Handlers.UpdateFits | internal/web/handle_services.go:390-506 | An edit clashes with no other service if and only if it does not move onto a subdomain that is taken; the handler does not check this. |
| Runs.RequestGood | internal/web/handle_services.go:31-541 | One fair create, update, delete or icon request keeps a good system good; a create may bring a container, or a container name, that another service has. |
| Runs.RunStaysGood | internal/web/handle_services.go:31-541 | Over every run of fair requests, in any order and through any mode changes, Cloudflare is the outside plus exactly what the store says, and every routed service is published. |
| Runs.PathsAgree | internal/web/handle_services.go:253-388 | Two runs that leave the services configured alike, whatever record IDs they got, leave the same answer for every hostname and equal records, and under the same IDs if the services have them. |
| Runs.RunPublishes | internal/web/handle_services.go:148-166 | After any run, each hostname resolves as its service's current mode and target say, and one no service has resolves as before. |
| Runs.Feasible | internal/web/handle_services.go:31-197 | The circumstances of these claims can be met: a first service asked for behind the tunnel of an empty account is a fair request and is published. |
| Runs.EmptyIsGood | internal/web/handle_services.go:294-388 | An empty store over any outside state is a good start. |
| WebServer.Server.CreateService | internal/web/handle_services.go:31-197 | The handler's steps on the indexed store and the client do what the model's Create says, with the display order one past the largest; afterwards the lookup maps are right if and only if the new service clashes with no other in key, ID, container or container name (unless a service of its own ID was at its key). |
| Requests.CreateStatus | internal/web/handle_services.go:64-115 | A create is refused if and only if the subdomain is taken (conflict), the discovered entry is missing (not found) or there is no target (bad request), in that order, and then changes nothing. |
| Requests.CreatedByHand | internal/web/handle_services.go:75-146 | Every field of a service created without a discovered entry, in terms of the request. |
| Requests.CreatedFrom | internal/web/handle_services.go:75-146 | Every field of one created from a discovered entry: address, source, container and, where the request gives none, name and icon are the entry's, the scheme is by the port. |
| Requests.CreatedLeavesList | internal/web/handle_services.go:167-175 | That entry, and no other, leaves the discovered list. |
| Requests.OrderInWords | internal/web/handle_services.go:117-122 | The display order that a create takes is one past the largest, and at least 1. |
| Requests.CreatedAsAsked | internal/web/handle_services.go:148-156 | In a good system a fair create gets a new key, and has a route if and only if the request asks for the tunnel and not for a direct link; its hostname then leads to the target by one rule and one CNAME, or to the server by an A record and no rule; for a direct link nothing is sent. |
| WebServer.Server.UpdateService | internal/web/handle_services.go:390-506 | The same for updating; afterwards the store's lookup maps are right if and only if the edit did not move onto a taken subdomain. |
| Requests.UpdateStatus | internal/web/handle_services.go:390-396 | An edit of a service that is there is accepted; any other is answered not found and changes nothing. |
| Requests.EditedService | internal/web/handle_services.go:423-479 | Every field of the edited service in terms of the request and of what it was: given values are taken, omitted ones kept, and the ID, order, source, container and age stay; the other services and the lists are untouched. |
| Requests.EditedAsAsked | internal/web/handle_services.go:481-503 | In a good system a fair edit leaves the service with a route if and only if it is not to be direct and the request asks for the tunnel, or does not speak of it and there was one; its hostname then leads to the target by one rule and one CNAME, or to the server by an A record and no rule. |
| Requests.EditSendsNothingIff | internal/web/handle_services.go:481-503 | Whatever becomes of requests, an edit sends none and leaves the service its record and route if and only if, by the request, mode, subdomain and (behind the tunnel) target stay, or nothing is published and nothing can be. |
| Edits.EditRepairsIff | internal/web/handle_services.go:390-506 | An edit repairs the stale rule of a service whose container has moved if and only if it changes the service's subdomain, target or mode; otherwise nothing is sent. |
| Edits.OverwriteTrackedIff | internal/web/handle_services.go:390-506 | An edit onto a taken subdomain leaves Cloudflare matching the store if and only if the overwritten service had nothing published or the edit switches its service to the tunnel; otherwise the overwritten service's record is orphaned. |
| WebServer.Server.DeleteService | internal/web/handle_services.go:508-541 | The same for deleting, with an attached container put back on the discovered list. |
| Requests.DeletedAsAsked | internal/web/handle_services.go:508-524 | In a good system a delete takes away that service alone, and its hostname has no rule and no record any more. |
| Requests.DeletedListed | internal/web/handle_services.go:525-536 | The container of a deleted docker service is listed, without an address, under the service's name, unless it is listed already or another entry has no address. |
| WebServer.Server.IgnoreDiscovered | internal/web/handle_discovery.go:87-96 | Ignoring moves an entry between the lists, keeps every lookup map right, and succeeds exactly when the entry is there. |
| WebServer.Server.UnignoreService | internal/web/handle_discovery.go:102-121 | Un-ignoring does too, and puts the endpoint back. |
| Catalog.AddKeepsUniqueIff | internal/store/store.go:403-409 | Adding at a free key keeps IDs, containers and container names unique if and only if the service clashes with none. |
| Catalog.UpdateKeepsUniqueIff | internal/store/store.go:411-423 | The same for replacing the service with a given ID. |
| Catalog.RunOrderly | internal/store/store.go:492-628 | Over every run with new IDs and network-only upserts: discovered entries are unique per ID, container and (source, address, port); no ID is both discovered and ignored; every key has an ignored entry behind it. |
| Catalog.KeysExactIff | internal/store/store.go:610-621 | The address-and-port key set goes on matching the ignored list if and only if no entry is un-ignored while another has the same address and port. |
| Catalog.IsIgnoredExact | internal/store/store.go:623-628 | While it matches, IsIgnored is true exactly of the listed addresses and ports. |
| Catalog.RestoreBringsBack | internal/web/handle_discovery.go:102-117 | After un-ignoring, the endpoint is on the discovered list and not ignored, even when the new entry is dropped as a duplicate. |
| Catalog.RestoredInWords | internal/web/handle_discovery.go:101-121 | What un-ignoring puts on the list: a network entry under the old ID with address, port and title alone, unless another entry has the endpoint; the ignored entry, and no other, goes. |
| Catalog.IgnoreThenRestore | internal/web/handle_discovery.go:87-117 | The same across any allowed operations between ignoring and un-ignoring. |
| Catalog.RebuiltKeysIff | internal/store/store.go:167-188 | Rebuilding leaves the key set as it was if and only if no key had been dropped. |
| Indexing.IndexesDetermined | internal/store/store.go:167-188 | There is one right way to fill a lookup map. |
| Indexing.UnfitUnindexed | internal/store/store.go:411-423 | Replacing a service by an edit that does not fit leaves the lookup maps wrong. |
| Indexing.EditIndexedIff | internal/store/store.go:411-423 | Replacing a service by an edit of it leaves the three maps right if and only if the edit fits. |
| IndexedStore.Store.GetServiceByID | internal/store/store.go:371-375 | The map of IDs answers what a search of all services would. |
| IndexedStore.Store.GetServiceByContainerID | internal/store/store.go:377-381 | So does the map of containers. |
| IndexedStore.Store.GetServiceByContainerName | internal/store/store.go:383-387 | So does the map of container names. |
| IndexedStore.Store.AddService | internal/store/store.go:403-409 | The service put at its subdomain; the maps are right if and only if it clashes with no other (unless it overwrites one of its own ID). |
| IndexedStore.Store.UpdateService | internal/store/store.go:411-423 | The new data and results; the maps are right afterwards if and only if the edited service fits among the others. |
| IndexedStore.Store.DeleteService | internal/store/store.go:425-436 | The new data and results, with right maps. |
| IndexedStore.Store.ClearContainerID | internal/store/store.go:394-401 | The container is cleared from the one service that has it, with right maps. |
| IndexedStore.Store.ReorderServices | internal/store/store.go:441-449 | Each listed service gets its last position in the list, with right maps. |
| IndexedStore.Store.AddDiscovered | internal/store/store.go:492-508 | An entry is appended unless its container or its endpoint is there, with right maps. |
| IndexedStore.Store.RemoveDiscovered | internal/store/store.go:510-517 | Removal by ID, order kept, with right maps. |
| IndexedStore.Store.RemoveDiscoveredByContainerID | internal/store/store.go:519-528 | Removal by container ID, order kept; the maps are right afterwards if and only if the ID is not empty or every entry has a container. |
| IndexedStore.Store.ClearNetworkDiscovered | internal/store/store.go:530-545 | All network entries go, the others keep their order, with right maps. |
| Catalog.ClearedInWords | internal/store/store.go:530-546 | Exactly the network's entries go. |
| IndexedStore.Store.UpsertNetworkDiscovered | internal/store/store.go:547-567 | The entry of the endpoint is refreshed or a new one appended; the returned ID is that entry's. |
| Catalog.UpsertInWords | internal/store/store.go:547-566 | A result overwrites the first network entry with its address and port, or is appended where there is none. |
| Catalog.RefreshedInWords | internal/store/store.go:554-559 | What is overwritten: all but ID, address, port, source and container. |
| IndexedStore.Store.UpdateDiscoveredIcon | internal/store/store.go:569-578 | One icon changes, with right maps. |
| Catalog.IconInWords | internal/store/store.go:569-575 | The one entry with the ID gets the icon, and nothing else changes. |
| IndexedStore.Store.IgnoreDiscovered | internal/store/store.go:580-599 | The entry moves to the ignored list, with right maps; it fails exactly when there is none. |
| IndexedStore.Store.UnignoreService | internal/store/store.go:610-621 | The entry leaves the ignored list, with right maps, and is returned. |
| IndexedStore.Store.AddBookmark | internal/store/store.go:704-709 | A bookmark appended; the map is right if and only if IDs are still distinct. |
| IndexedStore.Store.UpdateBookmark | internal/store/store.go:711-726 | One bookmark replaced in place; the map is right if and only if IDs are still distinct. |
| IndexedStore.Store.DeleteBookmark | internal/store/store.go:738-749 | One bookmark removed in order, with a right map. |
| IndexedStore.Store.RebuildIndexes | internal/store/store.go:167-188 | Rebuilding makes right maps if and only if the data has no duplicates; on a store whose maps were kept by hand it changes none of them, except that it may restore dropped address-and-port keys. |
| IndexedStore.Store.Load | internal/store/store.go:152-161 | Loading gives the file's data, with right maps if and only if the file holds what a well-kept store could have saved. |
| IndexedStore.SavedIsLoadable | internal/store/store.go:235-249 | What a well-kept store saves meets what loading needs. |
| SaveCrash.CrashSafe | internal/store/store.go:235-249 | In every interleaving of saves, changes, failed writes and crashes, config.json is absent or a whole snapshot of a past state, and loading it succeeds. |
| SaveCrash.JsonExists | internal/store/store.go:235-249 | The round trip that this asks of the encoding, of the snapshots a run holds, can be had for any list of snapshots. |
| SaveCrash.LoadableAfterCrash | internal/store/store.go:152-161 | What is loaded after any crash meets what rebuilding the maps needs. |
| SaveCrash.CrashRestarts | internal/store/store.go:152-180 | After a restart nobody is saving, and the contents are the file's, or empty where there is none. |
| SaveCrash.FailLeavesFile | internal/store/store.go:235-249 | A write or rename that fails frees the lock and leaves the file alone. |
| SaveCrash.LatestIff | internal/store/store.go:235-249 | When all calls of Save are over and none failed, the file is what the last one to take the lock had marshalled; so it is the latest contents if and only if that call marshalled the latest contents. |
| SaveCrash.MayBeStale | internal/store/store.go:235-249 | The run that shows it: of two saves, the one that marshalled first is written last. |
| Text.KeyInjective | internal/store/store.go:224-224 | Different endpoints have different keys, colons in the address or not. |
| Text.SanitiseSubdomain | internal/util/util.go:25-40 | The loop computes the normalised name. |
| Text.SanitisedIsLabel | internal/util/util.go:25-40 | Normalising always yields a non-empty string of a-z, 0-9 and hyphen with no hyphen at either end. |
| Text.SanitisedFixesLabels | internal/util/util.go:25-40 | Such strings come out unchanged. |
| Text.SanitisedIdempotent | internal/util/util.go:25-40 | Normalising twice is normalising once. |
| Text.SanitisedInWords | internal/util/util.go:21-40 | Normalising strips space, lower-cases, makes underscores, dots and spaces hyphens, keeps exactly the letters, digits and hyphens, in order, and strips hyphens; what is then empty becomes "service". |
| Text.AtoiItoa | internal/discovery/docker.go:379-388 | A port survives being written in decimal and read back, over all 64-bit integers. |
| Docker.AttachFits | internal/discovery/docker.go:160-209 | The guards before a reattach establish the uniqueness UpdateService needs. |
| Docker.EventsKeep | internal/discovery/docker.go:152-209 | No sequence of start and stop events adds, deletes or renames a service or changes any field but container ID, container name and target; uniqueness and the remote state are kept. |
| Docker.ComesBack | internal/discovery/docker.go:178-203 | After any events that do not give its service away or take its scheme, a container started again under its name is attached to the same service, with the service's scheme and the new address. |
| Docker.EventRemembersIff | internal/discovery/docker.go:178-203 | One event makes a service forget its container name or scheme if and only if it attaches a container of another name, or one whose target has no scheme, to it. |
| Docker.StartTwice | internal/discovery/docker.go:160-209 | Handling a start event twice is the same as once. |
| Docker.StartOutcome | internal/discovery/docker.go:160-209 | After a start event the container is attached if and only if it was or it is watched, usable and has a home; otherwise, if watched and usable, it is listed for review unless another entry has its endpoint. |
| Starts.StartSkipped | internal/discovery/docker.go:160-178 | A start changes nothing if the container is nameless, Lantern itself, opted out by label, attached already, or has no target. |
| Starts.StartAttaches | internal/discovery/docker.go:180-202 | Any other goes to the docker service that had a container of its name, otherwise to the docker service at the subdomain it asks for, by label before Traefik before name; that service gets its ID, name and address, and nothing else changes. |
| Starts.StartLists | internal/discovery/docker.go:203-209 | Without such a service it is listed with its address, display name and wanted subdomain, unless it is listed already or another entry has its address and port. |
| Docker.StopOutcome | internal/discovery/docker.go:152-156 | After a stop event the container is attached and listed nowhere, and every other is where it was. |
| Docker.PreserveSchemeKeeps | internal/discovery/docker.go:420-427 | The result has the new address, and the old scheme if and only if both or neither of the targets have one. |
| Docker.SplitTargetBack | internal/discovery/docker.go:379-388 | The address and port put into a target come back out. |
| Docker.BestPortIs | internal/discovery/docker.go:356-377 | The port picked is published over TCP, none of the preferred ports before it is, and there is none only if no TCP port is published. |
| Docker.ResolveNoneIff | internal/discovery/docker.go:216-268 | A container is left alone if and only if it gives no URL and no port is asked for, named by Traefik, or published. |
| Docker.LabelsDecideIff | internal/discovery/docker.go:216-268 | What a container asks for depends on its labels and name alone, whatever ports and Traefik labels it has and whatever is probed, if and only if the labels give a URL, or all of subdomain, non-zero port and scheme; a URL is then the target. |
| Docker.PortOrder | internal/discovery/docker.go:236-267 | Otherwise the target has the server's address, the port asked for before Traefik's before a published one, and the scheme asked for before the one probed. |
| Starts.ResolvedNames | internal/discovery/docker.go:216-242 | The subdomain is the normalised label if there is one, otherwise (without a URL) Traefik's if there is one, otherwise the normalised container name; the display name is the name label, otherwise the container's name. |
| Starts.ResolvedTarget | internal/discovery/docker.go:226-267 | The target in full, by the labels: the URL, or scheme, the server's address and the port; there is none if and only if there is no URL and no port. |
| Starts.PortPicked | internal/discovery/docker.go:356-377 | The port is the first of the eleven preferred ones that is published over TCP, otherwise the first that is published over TCP at all. |
| Starts.SplitInWords | internal/discovery/docker.go:379-388 | What is after the scheme is split at its last colon, a slash at the end left off; without a colon there is no port. |
| Docker.TrackedIff | internal/discovery/docker.go:178-203 | Changing what containers run behind services leaves Cloudflare tracked if and only if no tunnelled service's target changed. |
| Docker.EventTrackedIff | internal/discovery/docker.go:160-209 | One container event leaves Cloudflare matching the store if and only if it does not attach a container to a tunnelled service under a new address, which is tested on the state and the event. |
| Docker.EventsTrackedIff | internal/discovery/docker.go:152-209 | Cloudflare matches the store all through a run of container events if and only if no event of the run attaches a container to a tunnelled service under a new address. |
| Docker.EventsTrackedAgainIff | internal/discovery/docker.go:152-209 | At the end of a run it matches if and only if, for every tunnelled service, the last of the targets that events of the run asked for it leads where its old one did, and by its scheme. |
| Docker.TargetAfter | internal/discovery/docker.go:178-203 | What a run of events makes of a service's target: the address of the last target asked for, under the scheme kept through the unbroken row of targets that have one. |
| Docker.MadeFromCandidateIff | internal/discovery/docker.go:270-287 | A service made from a discovered container is found again on restart if and only if the display name is the container's name, or the subdomain is the one the container asks for and no service has the container's own name. |
| Docker.MadeTargetIff | internal/web/handle_services.go:95-110 | The service made from it has the container's own target if and only if the scheme is the one guessed from the port. |
| Docker.DeletedIsListedIff | internal/web/handle_services.go:526-540 | Deleting an attached service lists its container again if and only if it is listed already or no other deleted container holds the empty endpoint. |
| DockerWatch.PickPort | internal/discovery/docker.go:356-377 | The two loops pick the first preferred published port, or the first published one. |
| DockerWatch.Watcher.UpsertContainer | internal/discovery/docker.go:160-209 | The guards on the indexed store do what the model's Started says and keep all lookup maps right. |
| DockerWatch.Watcher.DetachContainer | internal/discovery/docker.go:152-156 | Detaching clears the container and its discovered entry; the lookup maps stay right for every non-empty container ID, and for the empty one if and only if every entry has a container. |
| MixedRuns.EventGoodIff | internal/discovery/docker.go:160-209 | A container event leaves a good system of services that are apart good if and only if it does not attach a container to a tunnelled service under a new address, and leaves them apart in any case. |
| MixedRuns.RequestUniqueIff | internal/web/handle_services.go:64-115 | A fair request keeps services apart in container and container name if and only if it does not create a service with a container, or a container name, that another has; the handler does not look. |
| MixedRuns.MixedStaysGood | internal/web/handle_services.go:31-541 | Any mixture of fair requests without such a create and such container events keeps Cloudflare equal to what the store says. |
| MixedRuns.MixedPathsAgree | internal/web/handle_services.go:253-388 | And what is published then depends on how the services are configured alone, up to record IDs. |
| Scan.FullScanResult | internal/discovery/discovery.go:181-238 | A completed full scan keeps the other entries in order and leaves one network entry for each endpoint whose result is neither ignored nor assigned, with the first result's ID and the last one's fields. |
| Scan.LightScanResult | internal/discovery/discovery.go:166-179 | A light scan shows what was shown and every unassigned result, ignored or not. |
| Scan.AssignedIff | internal/discovery/discovery.go:130-146 | A result is assigned if and only if some service's target is http:// or https:// with its address and port, or its own URL, and any number of slashes after it; a URL that ends in a slash itself must be equal. |
| Scan.AssignedNotShown | internal/discovery/discovery.go:181-226 | A full scan shows no endpoint that a service's target leads to by its address, whatever was found there. |
| Scan.EntryInWords | internal/store/store.go:547-566 | The fields of an entry that a scan leaves: ID, address and port from the first result there, the others from the last. |
| Discovery.Scanner.AssignedTargets | internal/discovery/discovery.go:130-137 | The set built in the loop finds exactly the results at some service's target, with or without trailing slashes. |
| Discovery.Scanner.RunScan | internal/discovery/discovery.go:181-238 | The loop over the delivered results leaves exactly the full scan's list and right lookup maps. |
| Discovery.Scanner.RunLightScan | internal/discovery/discovery.go:166-179 | The same for the light scan. |
| Pipeline.ExactlyOnce | internal/discovery/network.go:477-632 | In every interleaving no endpoint is probed twice and each answer reaches the consumer exactly once; without cancellation every endpoint found is probed. |
| Pipeline.AfterCancel | internal/discovery/network.go:477-632 | From the moment a scan is cancelled each worker makes at most one more probe, and only if it was past the test of the context. |
| Pipeline.BufferHolds | internal/discovery/network.go:477-632 | The channel never holds more than 64 results. |
| Pipeline.CanStep | internal/discovery/network.go:477-632 | Some step can be taken until the consumer has drained the closed channel. |
| Pipeline.Ends | internal/discovery/network.go:477-632 | Every run is bounded, and one that cannot go on has been drained. |
| Pipeline.ScanShowsWhatAnswers | internal/discovery/network.go:477-632 | From sockets to list: after a full scan, whatever the interleaving, the network entries are exactly where an endpoint found answered and is neither ignored nor assigned. |
| ScanOnce.OneFullScan | internal/discovery/discovery.go:106-118 | At most one full scan is active, however ScanNow is called. |
| ScanOnce.ScansAgain | internal/discovery/discovery.go:106-118 | ScanNow starts a full scan if and only if none is active; when that is over the next one starts another. |
| ScanOnce.OverlapIff | internal/discovery/discovery.go:88-118 | A step lets a light scan run beside a full one if and only if it asks for a full one while a light one runs, or starts a light one that had passed the test before a full one began. |
| ScanOnce.ApartIff | internal/discovery/discovery.go:88-118 | So the two stay apart all through a run if and only if it has no such step. |
| ScanOnce.LightBesideFull | internal/discovery/discovery.go:88-98 | The run that shows it: a full scan is asked for while a light one runs. |
| Sweep.SweepResult | internal/discovery/network.go:308-363 | In every interleaving of the sweep the four counters add up to the number finished, which is the total without cancellation; the open list holds exactly the ports that answered, each once. |
| Sweep.NoCancelNoSkip | internal/discovery/network.go:318-322 | Without cancellation no goroutine skips its dial. |
| Sweep.LimitHolds | internal/discovery/network.go:314-318 | Never more than 1024 goroutines dial at a time. |
| Sweep.DialsAtMost | internal/discovery/network.go:314-318 | In no state of a sweep are more than 1024 goroutines at their dial. |
| Sweep.AfterCancel | internal/discovery/network.go:318-322 | Once the sweep is cancelled no goroutine that was waiting dials any more. |
| Sweep.NotStuck | internal/discovery/network.go:308-356 | Until all have ended some goroutine can go on. |
| Sweep.SweepEnds | internal/discovery/network.go:308-363 | A sweep's goroutines take boundedly many steps, and where none can go on all have ended. |
| Sweep.StartedInOrder | internal/discovery/network.go:308-318 | In every interleaving no goroutine starts before all earlier ones have. |
| Sweep.EveryQuarterIff | internal/discovery/network.go:344-352 | One line each for 25, 50 and 75 percent is due if and only if there are at least four combinations. |
| Sweep.SweepLinesIff | internal/discovery/network.go:308-363 | A sweep that is not cancelled writes exactly those lines, in whatever order, if and only if there are at least four combinations. |
| Cidr.BroadcastAddr | internal/discovery/network.go:446-453 | The in-place loop sets the host bits one by one. |
| Cidr.BroadcastIsLast | internal/discovery/network.go:446-453 | For every IPv4 prefix that gives network + 2^(32-bits) - 1. |
| Cidr.MaskedIsFirst | internal/discovery/network.go:430-436 | Masking gives the multiple of the prefix's size at or below the address (section 3.1 of RFC 4632). |
| Cidr.GenerateIPs | internal/discovery/network.go:429-443 | The hosts are exactly the addresses strictly between, ascending, max(0, 2^(32-bits) - 2) of them. |
| Cidr.EndsIff | internal/discovery/network.go:439-441 | The loop ends for every prefix but 255.255.255.255/32. |
| Cidr.EndlessIsLastHost | internal/discovery/network.go:439-441 | The prefix excluded by GenerateIPs is that one and no other. |
| Supervisor.RunKeeps | internal/tunnel/manager.go:107-215 | In every interleaving at most one watch context is not cancelled, and m.cancel or a Stop in progress holds the means to cancel it. |
| Supervisor.CallEnds | internal/tunnel/manager.go:56-215 | A call under way can go on whenever nobody holds the lock, and ends within four steps of its own. |
| Supervisor.TunnelIff | internal/tunnel/manager.go:56-90 | The stored tunnel comes only with a Create and goes only with a Delete that succeeds. |
| Supervisor.TunnelStays | internal/tunnel/manager.go:74-90 | Through any run without a Delete, whatever is stopped, it stays. |
| Supervisor.RootEndsAll | internal/tunnel/manager.go:107-194 | From the moment the application's context is cancelled every watch context is, through every run. |
| Supervisor.StopCancels | internal/tunnel/manager.go:197-215 | When Stop returns every watch context is cancelled and the process it took is dead. |
| Supervisor.StopRun | internal/tunnel/manager.go:74-88 | An undisturbed Stop or Delete leaves every context cancelled, the process that was named dead and nothing supervised; the stored tunnel goes if and only if it is a Delete that succeeds. |
| Supervisor.GivesUpIff | internal/tunnel/manager.go:160-194 | Without a cancel a watcher gives up if and only if there is no process to wait for or one cannot be started. |
| Supervisor.AfterStop | internal/tunnel/manager.go:160-215 | From then until the next start every process belongs to a cancelled context, and at most one more comes up. |
| Supervisor.Settles | internal/tunnel/manager.go:160-194 | The background then takes boundedly many steps, and when it can take none no process is alive and no watcher left. |
| Supervisor.FalseWhileAlive | internal/tunnel/manager.go:160-215 | The field running can be false beside a live process that nobody is stopping. |
| Supervisor.HonestIff | internal/tunnel/manager.go:160-215 | A step makes running false beside a living process if and only if it is the late report of another watcher's process. |
| Supervisor.HonestRunIff | internal/tunnel/manager.go:160-215 | So all through a run running is true beside a living process, outside Stop, if and only if no watcher reports late. |
| Supervisor.CreatedButNotStarted | internal/tunnel/manager.go:56-125 | A Create can succeed and leave nothing running, when a watcher restarts its process in the middle of Delete's Stop. |
| Supervisor.CreateStartsIff | internal/tunnel/manager.go:107-125 | Create leaves a supervised process if and only if running was false. |
| Crowd.OneCaller | internal/tunnel/manager.go:56-215 | The same system with any number of callers at once is, with one caller, the one above. |
| Crowd.DoublesIff | internal/tunnel/manager.go:107-125 | With any number of callers, a step from at most one watch context that is not cancelled makes two if and only if it is a start that succeeds while running is false, the application goes on, and some context is not cancelled. |
| Crowd.AtMostOneIff | internal/tunnel/manager.go:56-215 | So there is at most one all through a run if and only if no start in it does that. |
| Crowd.LostIff | internal/tunnel/manager.go:107-125 | A context becomes uncancellable, by m.cancel or any Stop in progress, if and only if a start overwrites m.cancel while it is not cancelled; and it stays so until the application ends. |
| Crowd.LostAfterRunIff | internal/tunnel/manager.go:56-215 | So after any run exactly those are lost that were before or have been overwritten in it. |
| Crowd.TwoCreates | internal/tunnel/manager.go:56-194 | The run that shows it: of two Creates past the gate the second starts while the first one's process is down, and the first one's watcher can no longer be stopped. |
| TtlCache.Cache.Get | internal/web/ttlcache.go:27-42 | A hit if present and unexpired; an expired entry is deleted. |
| TtlCache.Cache.Set | internal/web/ttlcache.go:44-52 | Eviction when full, then the entry stored. |
| TtlCache.Cache.EvictLocked | internal/web/ttlcache.go:54-81 | Expired entries go; if that does not do, whatever max(1, n/4) searches find. |
| TtlCache.EvictsOldest | internal/web/ttlcache.go:66-80 | With no empty key those are exactly max(1, n/4) entries, none of which expires later than a survivor. |
| TtlCache.EmptyKeyOverflows | internal/web/ttlcache.go:66-80 | With the empty key alone nothing is found and a cache of one entry gets a second. |
| TtlCache.Cache.FindOldest | internal/web/ttlcache.go:69-76 | The search finds what folding over the visiting order finds, whatever the order. |
| TtlCache.ScanRightIff | internal/web/ttlcache.go:68-80 | The search finds an oldest entry in every visiting order if and only if the entry under the empty key is not the only oldest one. |
| TtlCache.RunWithin | internal/web/ttlcache.go:27-81 | Over every run the cap holds and the cache holds only what was last set. |
| TtlCache.HitIsLastSet | internal/web/ttlcache.go:27-52 | A hit is the value of the last Set of the key, unexpired. |
| TtlCache.LosslessIsUnbounded | internal/web/ttlcache.go:27-81 | Until a Set finds the cache full of unexpired entries it answers like a cache without a cap. |
| Grouping.SortAndGroup | internal/web/templates.go:317-348 | The groups together are a permutation of the items, each is ordered, the keys are the categories, each once, in order. |
| Grouping.EmptyFirst | internal/web/templates.go:338-346 | The empty category comes first and the rest are in case-insensitive order. |
| Samples.TakenSubdomain | internal/web/handle_services.go:447-503 | Renaming a service to another's subdomain: the key is not free, and the other's record is orphaned. |
| Samples.SwitchedOff | internal/web/handle_services.go:514-525 | Deleting a tunnelled service with tunnels switched off: its record stays. |
| Samples.MovedContainer | internal/discovery/docker.go:178-187 | A tunnelled service's container starts at a new address: its rule is stale. |
| Samples.RenamedContainer | internal/discovery/docker.go:270-287 | A container with a display name: the service made from it, put at another subdomain, is not found again. |
| Samples.GuessedScheme | internal/web/handle_services.go:85-89 | An https backend on port 80: the service made from it is reached by http. |
| Samples.SecondDeleted | internal/web/handle_services.go:526-536 | The second deleted container is dropped from the list. |
| Samples.ForgottenIgnored | internal/store/store.go:610-628 | Of two ignored entries for one endpoint the second is forgotten when the first is un-ignored. |
| Samples.SavedAgain | internal/web/handle_services.go:390-506 | Saving a service again whose rule is stale: nothing is sent, and the rule stays stale. |
| Samples.OmittedSubdomain | internal/web/handle_services.go:447-463 | An edit that says nothing of the subdomain: the service is renamed. |
| Samples.SameDisplayName | internal/web/handle_services.go:64-115 | A service made from a container with another's display name: both have the container name. |
| Samples.LostAlias | internal/web/handle_services.go:371-385 | Creating the new CNAME is refused: the service keeps the ID of the deleted one. |
| Samples.RefusedDelete | internal/web/handle_services.go:514-525 | Deleting the record is refused: it stays, and nothing knows of it. |
| Samples.SlashedUrl | internal/discovery/discovery.go:130-146 | A result at http://app/ and a service at http://app//: it is not found assigned. |
| Samples.IgnoredComesBack | internal/discovery/discovery.go:166-179 | A result at an ignored endpoint: a light scan shows it, a full one does not. |

## Left out

- HTTP, HTML templates, JSON encoding, static files, gzip: library calls. SaveCrash takes encoding and decoding as a pair of functions that round-trip on what the store holds.
- Certificates, ACME, and creating or deleting the tunnel object at Cloudflare.
- Raw sockets, ARP, mDNS, SSDP, WS-Discovery and HTTP probing: what they find is a parameter of the scan.
- Traefik labels, page titles, favicons, the signature table, and the live probe of a port's scheme: their results are parameters.
- Clocks, randomness and new IDs: times are parameters, new IDs are fresh by assumption; a confidence is the bits of its float32.
- Icon files on disk, DDNS polling, health polling, subnets and DDNS lists, the proxy's caches, the scan log.
- Reads of service structs outside the store's lock: each store method and each handler's store update is one step.
- Handlers running at the same time as each other: Runs takes them one after the other, as the steps of one run.
- Cloudflare's own rules: records carry name, type and content only, and requests either succeed, are refused, or fail after taking effect.
- Failures.FailureTrackedIff: starts from a state that is tracked; a run on after a failure is not followed.
- Runs.RequestGood: takes edits that do not move onto a taken subdomain; Edits.OverwriteTrackedIff says what the others do.
- Supervisor.RunKeeps: takes callers of Create, Delete and Stop one at a time; Crowd.AtMostOneIff says what holds of any number at once.
- Supervisor.Settles: says nothing of how long a killed process takes to die; its exit is a step that may come at any time.
- Cidr.GenerateIPs: gives addresses as numbers, not in dotted form, and excludes the one prefix for which the code does not return.
- SaveCrash.CrashSafe: models a process that dies, not a machine that loses power; nothing is flushed to disk before the rename.
- SaveCrash.LatestIff: speaks of runs without a failed write or a crash.
- Grouping.SortAndGroup: uses a stable sort where the code's first one need not be; its results are among those the code may give.
- Sorting the discovered list by address, form parsing, and listing methods: easy members.
