# HPXNODE: reconciliation and accounting, modelled and proved in Dafny

HPXNODE is a node that runs several VPN and proxy servers and keeps them in step with the user lists a
panel sends. This project models the parts of it that decide things, and proves properties of the model
for every input and every run:

- **WireGuard peer sync.** `PeerStore`, `Desired`, `Device`, `SyncSpec`, `WireGuard`, `SyncRuns` and `Requests`:
  the peer store's two maps, the peers a request asks for, the kernel device as a table changed by
  configurations applied in order, the partial and full syncs over them, and what runs of syncs and
  restarts keep. `Prefixes` and `Powers` hold the address arithmetic, `PeerIpLimit` the limiter that kicks
  and re-admits peers, and `KickedPeers` puts limiter and syncs together: which peers are missing from the
  kernel, and which of them nothing will bring back.
- **Traffic accounting.** `Tracker` and `TrafficAccounting` (the delta tracker and its conservation laws),
  `NamedBilling` (whose name the traffic is billed under when a key changes hands),
  `Sessions`, `Sums` and `SessionRuns` (the per-session collectors that feed it, over whole runs of polls
  and for a user's sessions together), `InterfaceCounters` (the node's own counters).
- **Traffic shaping.** `ShaperMarks`, `Shaper` and `ShaperManager`: the mark allocator, the host's class
  trees and mark rules, and the reconciliation that makes them match the shaped clients.
- **Xray users.** `XrayUsers`, `XrayConfig`, `XrayCore` and `Xray`: which account a user gets, the three ways
  a client map is brought up to date, and the agreement between configuration and running core through
  syncs, kicks, re-admissions, restarts and failed calls; a core that does not come up, or goes down before
  its status check, serves nobody. `Passwords` is the Shadowsocks password
  normalisation (base64 as in section 4 of RFC 4648).
- **Device limits.** `OpenVpnUsers` (session admission and limits) and `DeviceLimits` (one limit shared
  across protocols).
- **Small exact cores.** `Subnets` (splitting an IPv4 prefix, section 3.1 of RFC 4632) and `LogRing`.

Objects whose methods update their fields in the source are classes here, and each method is proved
against a specification on values; the laws are lemmas about those specifications. Where a specification
is a definition, a lemma whose name ends in `Means` says in plain terms what it amounts to. Each locked operation
or poll is one atomic step. What the kernel, xray-core, tc, nft and the clock answer is an argument of the
method that asks.

## What the code does not promise

Where a property one would expect of the code is false, the model keeps the code as it is and a lemma
says exactly when the property holds.

- A partial WireGuard sync checks prefixes only inside the request. It keeps store and kernel in agreement
  if and only if no requested prefix belongs to a user outside the request (`SyncRuns.PartialAgreesIff`;
  `SyncRuns.PrefixTheft` is a request that takes one).
- A full WireGuard sync compares the request with the store, not with the kernel, so it does not repair a
  kernel that has drifted when the store already matches (`SyncRuns.FullAgreesIff`;
  `SyncRuns.DriftSurvives` is one).
- Resyncing a peer that the limiter kicked brings it back into the kernel only if its prefixes changed
  (`SyncRuns.ResyncReadmitsIff`; `SyncRuns.KickedStaysOut` is one that stays out). A resync by SyncUser or
  UpdateUsers still clears the kick, so the user is not due for re-admission any more; the same happens when
  the request is refused, or when a refused whole list drops the user's limit (`KickedPeers.StrandedAfter`,
  `KickedPeers.CallStrandsNobodyIff`; `KickedPeers.KickedIsStranded` has one of each). A pass of the limiter
  brings such a peer back only after it has kicked the user once more (`KickedPeers.PassLeavesStranded`,
  `KickedPeers.PassesServeIff`), which it never does while nothing was lately seen of the user. Nothing is seen of a missing peer, so that is how
  it stays unless the key is given to another user (`KickedPeers.StrandedStaysOut`); then it can happen
  (`KickedPeers.StrandedReturns`).
- Users without credentials are untouched by a sync, not removed (`SyncRuns.CredentiallessChangesNothing`).
- A sync that gives a key to another user leaves the key's statistics in place, and the next sample renames
  them: whatever was pending is billed to the new user. A sample leaves every name its own if and only if the
  key keeps its user or had nothing pending (`NamedBilling.NamesKeepTheirOwnIff`; `NamedBilling.HandoverMisbills`
  is a handover that is not).
- Two over-limit polls need not be consecutive: polls at which the limit is zero neither count nor break
  the streak (`PeerIpLimit.UnlimitedPollsDoNotBreakAStreak`).
- An xray batch removes after it adds in the configuration, and adds after it removes in the core. With an
  email listed twice it differs from single updates (`XrayUsers.BatchIsSinglesIff`; `XrayUsers.RevivedIsDropped`
  is a user it drops), and the core can end up serving a client the configuration no longer has
  (`XrayCore.BatchKeepsCoreWithinIff`; `XrayCore.MixedIsServed` is one).
- The incremental xray path normalises a Shadowsocks 2022 password twice and the rebuild once. They store
  the same account if and only if the method names a known key length or the hash is at a fixed point
  (`XrayUsers.DistinctBatchIsRebuildIff`, `Passwords.NormalisingIsIdempotentIff`).
- `UpdateUsersAndRestart` on xray forgets the limits of the users it does not name
  (`Xray.Xray.UpdateUsersAndRestart`).
- A session id that is used again before the collector forgets it loses what was remembered of it, in just
  the directions in which the new session's counter reaches that (`SessionRuns.ReusedIdLoses`).
- A session that one poll misses and the next lists again, still counting, is credited its whole counter a
  second time (`SessionRuns.MissedOnce`).
- The shared device limit compares a total on 32 bits (`DeviceLimits.KeepsMinIff`).
- `UpdateUsersAndRestart` on OpenVPN does not itself clear the counted sessions of the names that stay
  (`OpenVpnUsers.OpenVpn.UpdateUsersAndRestart`).
- An interface that leaves the shaper's list keeps its tree, and a client that departs meanwhile is not
  removed from it. When the interface returns its tree is exact if and only if nothing of such a client is
  left in it (`ShaperManager.Manager.Apply`; in `ShaperManager.StrayReturns` something is).

## Model

| member | source | states |
|---|---|---|
| PeerStore.ChangedKeepsInverse | backend/wireguard/peer_store.go:42-76 | ApplyChanges keeps the two maps mutually inverse for every argument list, repeated keys and emails included |
| PeerStore.ChangedClosed | backend/wireguard/peer_store.go:42-76 | the closed form: a peer is stored afterwards if and only if it was upserted, or it was there, its key was not removed and no upsert claimed its key or its user |
| PeerStore.ChangedOrderFree | backend/wireguard/peer_store.go:42-76 | the order in which removals and upserts arrive cannot be observed |
| PeerStore.ByEmailDetermines | backend/wireguard/peer_store.go:8-13 | an inverse store holds nothing beyond its map from user to peer |
| PeerStore.PutAllBuilds | backend/wireguard/peer_store.go:25-38 | for a one-to-one list the unchecked writes of Init and ReplaceAll build the store that holds exactly the list |
| PeerStore.PutAllNeedsOneToOne | backend/wireguard/peer_store.go:80-108 | one user listed with two keys makes those writes leave the maps disagreeing |
| PeerStore.PeerStore.Init | backend/wireguard/peer_store.go:25-38 | Init is the plain writes, in order |
| PeerStore.PeerStore.ApplyChanges | backend/wireguard/peer_store.go:42-76 | keeps the maps inverse, makes exactly the specified change, and reports exactly the listed keys that were there |
| PeerStore.PeerStore.ReplaceAll | backend/wireguard/peer_store.go:80-108 | the store afterwards is the list's, and the keys reported are exactly those that are gone |
| PeerStore.PeerStore.GetByEmail | backend/wireguard/peer_store.go:111-119 | agrees with the store read as a map from user to peer |
| PeerStore.PeerStore.GetAll | backend/wireguard/peer_store.go:130-139 | every stored peer once, keys and users distinct |
| PeerStore.PeerStore.GetEmailMap | backend/wireguard/peer_store.go:143-152 | the owner of every stored key |
| Prefixes.PeerIPAllowed | backend/wireguard/user_common.go:190-211 | the loop finds a fitting pool if there is one, and an empty pool list allows everything |
| Prefixes.AllowedIsContainment | backend/wireguard/user_common.go:190-211 | the family, network and mask tests pass exactly when some pool holds every address of the peer's prefix |
| Prefixes.SizeMeans | backend/wireguard/user_common.go:190-211 | a prefix of length b covers two to the 32 or 128 minus b addresses |
| Device.ApplyAllKeepsExclusive | backend/wireguard/manager.go:197-238 | no list of configurations makes one prefix route to two peers |
| Device.SetPeer | backend/wireguard/manager.go:197-210 | a configured peer ends with what it was given, on top of what it had and nobody else took |
| Device.UnsetPeer | backend/wireguard/manager.go:197-210 | a peer that is not configured loses exactly what was assigned elsewhere |
| Device.Manager.ApplyPeers | backend/wireguard/manager.go:197-210 | success applies the whole list in order, failure some first part of it |
| Device.Manager.ApplyPeersReplaceAll | backend/wireguard/manager.go:213-225 | the same from an empty table |
| Desired.NormalizeUsers | backend/wireguard/user_common.go:339-361 | the last usable entry of every email, each once |
| Desired.UnusableIsDropped | backend/wireguard/user_common.go:345-350 | a user is in the normalised list if and only if some entry of it has an email, a key and a prefix |
| Requests.LastIsStored | backend/wireguard/user_common.go:339-361 | what is kept of an email is its last entry with a key and a prefix |
| Requests.TouchedMeans | backend/wireguard/user_common.go:345-350 | a request speaks for an email if and only if some entry with a key and a prefix names it |
| Requests.WantedMeans | backend/wireguard/user_common.go:227-298 | an email is wanted if and only if its last such entry lists the interface, its key and all its prefixes parse and one prefix is inside the interface's ranges; then with that key and exactly the prefixes inside, in order |
| Requests.RejectedMeans | backend/wireguard/user_common.go:227-298 | a request is refused if and only if the last entries of two users reach one prefix, or make two peers of one key |
| Requests.NoPeerIsStored | backend/wireguard/user_common.go:232-290 | after either sync a named user whose last entry makes no peer is in the store under no key |
| Requests.OffTheInterface | backend/wireguard/user_common.go:323-325 | a partial sync takes a named user that is off the interface out of store and kernel, unless its key is asked for by another |
| Desired.UnconflictedIsWellDesired | backend/wireguard/user_common.go:227-298 | without a conflict, keys and users are one-to-one, every peer has a prefix and no prefix is shared |
| Desired.ScanPeerIPs | backend/wireguard/user_common.go:252-279 | one user's prefixes: what is allowed, whether one does not parse, and which is another user's |
| Desired.CollectDesiredPeers | backend/wireguard/user_common.go:227-298 | whether collection fails and what it returns depend on the set of users alone, not on their order |
| SyncSpec.DiffKernel | backend/wireguard/user_common.go:51-137 | a diff's settings, in any order, then its removals turn the kernel into the stated one |
| SyncSpec.PartialStore | backend/wireguard/user_common.go:51-137 | a diff's change list gives each touched user its wanted peer or none, and leaves every other user's |
| SyncSpec.AddsBuild | backend/wireguard/user_common.go:144-164 | rebuilding a kernel from a table whose peers share no prefix yields that table |
| WireGuard.BuildSyncDiff | backend/wireguard/user_common.go:51-137 | each peer that differs is configured and upserted once, each superfluous one removed, settings before removals |
| WireGuard.BuildRemoveConfigs | backend/wireguard/user_common.go:300-321 | one removal per key and no key twice |
| WireGuard.BuildAdds | backend/wireguard/wireguard.go:352-368 | one add per peer, and whether some peer has no prefix |
| WireGuard.UnchangedMeansEqual | backend/wireguard/user_full_sync.go:18-25 | the diff is empty if and only if the store already holds exactly the wanted peers |
| WireGuard.RemovedKeys | backend/wireguard/user_partial_sync.go:66-71 | the keys reported for statistics are exactly those that left the store |
| WireGuard.WireGuard.Start | backend/wireguard/wireguard.go:162-256 | startup succeeds unless the list conflicts or the kernel fails, and then store and kernel hold exactly the wanted peers |
| WireGuard.WireGuard.SyncUsersPartialReconcile | backend/wireguard/user_partial_sync.go:22-72 | success is the abstract update of store and kernel, each error has its cause, every error leaves the store and the statistics alone, and only a failed kernel call touches the kernel |
| WireGuard.WireGuard.SyncUsersFull | backend/wireguard/user_full_sync.go:9-55 | success leaves exactly the wanted peers, the kernel untouched only if the store matched already, and every error leaves the store alone |
| WireGuard.WireGuard.RestartLocked | backend/wireguard/wireguard.go:290-339 | success rebuilds the kernel from the store, and a stored peer without prefixes stops it before the kernel is touched |
| WireGuard.WireGuard.ExistingPeersSubset | backend/wireguard/user_partial_sync.go:12-20 | exactly the stored peers of the touched users |
| SyncRuns.PartialAgreesIff | backend/wireguard/user_partial_sync.go:22-72 | from agreement, a successful partial sync keeps store and kernel agreeing if and only if no wanted prefix belongs to an untouched user |
| SyncRuns.FullAgreesIff | backend/wireguard/user_full_sync.go:9-55 | a successful full sync ends in agreement if and only if it started in it or the store did not match the request |
| SyncRuns.DriftSurvives | backend/wireguard/user_full_sync.go:18-25 | a state and a request where a full sync succeeds and a stored peer stays missing from the kernel |
| SyncRuns.RestartAgreesIff | backend/wireguard/wireguard.go:290-368 | a restart restores agreement if and only if the stored peers share no prefix |
| SyncRuns.PartialMeetsFull | backend/wireguard/user_partial_sync.go:22-72 | when the request touches every stored user, both syncs leave the same store, and from agreement the same kernel |
| SyncRuns.CredentiallessChangesNothing | backend/wireguard/user_common.go:345-350 | a request without usable credentials changes nothing |
| SyncRuns.ResyncReadmitsIff | backend/wireguard/iplimit.go:47-53 | a resync puts a kicked peer back into the kernel if and only if it changes the peer's prefixes |
| SyncRuns.KickedStaysOut | backend/wireguard/iplimit.go:47-53 | a kicked peer and a resync of it that succeeds and leaves it out |
| SyncRuns.PrefixTheft | backend/wireguard/user_common.go:273-277 | a state and a request where an accepted sync takes an untouched user's prefix |
| SyncRuns.LoneRequest | backend/wireguard/user_common.go:227-298 | that request exists: one user, one allowed prefix |
| SyncRuns.StepKeeps | backend/wireguard/wireguard.go:280-339 | every successful call keeps the store inverse and the kernel exclusive and has its stated effect, and respects agreement under the condition above |
| SyncRuns.RunKeepsAgreement | backend/wireguard/wireguard.go:280-339 | over every run the store holds exactly what the calls asked for, and agreement lasts while partial requests respect untouched users' prefixes |
| PeerIpLimit.Limiter.RememberLimits | backend/wireguard/iplimit.go:25-54 | limits as listed; a partial list clears exactly the kicks of the users it names, a full list none |
| PeerIpLimit.Limiter.EnforceIpLimits | backend/wireguard/iplimit.go:96-185 | the window is exactly the endpoints of the last 120 seconds since the last clear; a user is kicked exactly on an over-limit poll that makes its streak two, and re-admitted no sooner than 60 seconds later |
| PeerIpLimit.RememberedMeans | backend/wireguard/iplimit.go:25-54 | of every listed email the last limit listed is remembered, of any other the one before |
| PeerIpLimit.KickMeans | backend/wireguard/iplimit.go:103-144 | a user is kicked if and only if the kernel can be told, its limit is positive, it is not out already, the endpoints shown now or last seen at most 120 seconds ago are more than the limit, and an earlier such poll still stands |
| PeerIpLimit.VerdictMeans | backend/wireguard/iplimit.go:128-144 | each poll counts for a user as over, within or not looked at by that comparison, and a kick or re-admission starts the count afresh |
| PeerIpLimit.ReadmitMeans | backend/wireguard/iplimit.go:127-132 | a kicked user is re-admitted if and only if the kernel can be told, it has a limit and 60 seconds have passed; other marks stay |
| PeerIpLimit.WithinItsLimitIsNeverKicked | backend/wireguard/iplimit.go:96-185 | in no run of polls is a user kicked of whom never more endpoints than its limit are shown within 120 seconds |
| PeerIpLimit.StreakOfTwo | backend/wireguard/iplimit.go:133-144 | the streak is two or more if and only if there are two over-limit polls with no under-limit poll, kick or re-admission between or after them |
| PeerIpLimit.UnlimitedPollsDoNotBreakAStreak | backend/wireguard/iplimit.go:133-135 | any number of polls at limit zero between two over-limit polls leaves the streak at two |
| PeerIpLimit.RecentAfterFold | backend/wireguard/iplimit.go:103-123 | pruning at every poll keeps the same window as pruning the whole history once |
| PeerIpLimit.QuietIsSpared | backend/wireguard/iplimit.go:103-144 | a user of whom nothing was seen in the last 120 seconds, and nothing is seen in this poll, is not kicked and stays so |
| PeerIpLimit.Limiter.QuietIffUnseen | backend/wireguard/iplimit.go:103-123 | that condition can be read off the limiter's window |
| KickedPeers.PartialKeepsThinnedIff | backend/wireguard/user_partial_sync.go:22-72 | on a kernel that lacks kicked peers a partial sync keeps every other peer as stored if and only if no wanted prefix belongs to an untouched user, and a missing peer stays missing exactly if it keeps its prefixes |
| KickedPeers.FullKeepsThinned | backend/wireguard/user_full_sync.go:9-55 | a full sync brings every missing peer back if it changes anything, and none if it does not |
| KickedPeers.RestartKeepsThinned | backend/wireguard/wireguard.go:290-368 | a restart brings every missing peer back |
| KickedPeers.PassKeepsThinned | backend/wireguard/iplimit.go:148-184 | in whatever order a pass acts, exactly the kicked users' peers leave the kernel, exactly the re-admitted users' return as stored, and no other peer is disturbed |
| KickedPeers.CallKeepsThinned | backend/wireguard/user.go:12-54 | which peers are missing after each entry point, pass or refusal, by the state before it; a restart with a partial list brings back every kicked peer and leaves every mark |
| KickedPeers.StrandedAfter | backend/wireguard/iplimit.go:25-54 | exactly which missing peers the limiter can no longer re-admit after each call, because a request took the user's mark or limit without bringing the peer back |
| KickedPeers.KeepsIffLeaves | backend/wireguard/user_partial_sync.go:22-72 | a partial sync leaves a stored peer its prefixes if and only if it does not touch the peer's user, or asks for the key with just these |
| KickedPeers.CallStrandsNobodyIff | backend/wireguard/iplimit.go:47-53 | a call strands no peer if and only if, by the state before it, it takes no missing peer's user from the limiter's hands |
| KickedPeers.KickedIsStranded | backend/wireguard/iplimit.go:47-53 | a kicked user's peer that a request, a refused request and a refused whole list each strand |
| KickedPeers.RunStrandsNobody | backend/wireguard/iplimit.go:96-185 | over every run of syncs, refusals, restarts and passes the kernel is exactly the stored peers that are not missing; if every call spares the missing peers, all of them stay due for re-admission |
| KickedPeers.PassesServeIff | backend/wireguard/iplimit.go:128-185 | over any run of passes a stored peer ends in the kernel if and only if some pass re-admits its user and no later one kicks it, or it was there and none kicks its user |
| KickedPeers.PassLeavesStranded | backend/wireguard/iplimit.go:148-184 | a pass that does not kick its user leaves a stranded peer stranded |
| KickedPeers.StrandedReturns | backend/wireguard/iplimit.go:128-185 | two passes that kick and re-admit a stranded peer's user bring the peer back |
| KickedPeers.CallKeepsQuiet | backend/wireguard/jobs.go:62-115 | if polls show only peers in the kernel, nothing is seen of a missing peer's user through any call that does not give the key to another user |
| KickedPeers.StrandedStaysOut | backend/wireguard/iplimit.go:128-185 | in every run of such calls, from a state in which nothing was lately seen of the missing peers' users, no pass kicks the user of a stranded peer or brings the peer back |
| KickedPeers.LimitsMean | backend/wireguard/iplimit.go:25-54 | a request sets the limit of every user it names to the device limit of its last entry |
| KickedPeers.StartLimitsMean | backend/wireguard/wireguard.go:207-211 | at startup that of the last entry with a key and a prefix |
| KickedPeers.LimitedWireGuard.Start | backend/wireguard/wireguard.go:207-250 | a started node has the limits of the last usable entries, no peer missing and nobody stranded |
| KickedPeers.LimitedWireGuard.SyncUser | backend/wireguard/user.go:12-22 | success updates node, marks and limits as stated for one named user; refused, it still clears the mark |
| KickedPeers.LimitedWireGuard.UpdateUsers | backend/wireguard/user.go:34-40 | the same for a list of users |
| KickedPeers.LimitedWireGuard.SyncUsers | backend/wireguard/user.go:25-31 | success is the full sync with all limits replaced and every mark kept; refused, the limits are replaced all the same |
| KickedPeers.LimitedWireGuard.UpdateUsersAndRestart | backend/wireguard/user.go:44-54 | success is the partial sync and the restart, with all limits replaced by the partial list and every mark kept |
| KickedPeers.LimitedWireGuard.EnforceIpLimits | backend/wireguard/iplimit.go:96-185 | the pass kicks and re-admits exactly the users due, in the kernel and in the marks alike |
| Tracker.Tracker.ApplySample | pkg/stats/tracker.go:63-114 | a sample leaves pending what it should: saved deltas for a re-added key, what was pending after a rollback, the growth added otherwise |
| Tracker.SampleMeans | pkg/stats/tracker.go:63-114 | a sample in plain counters: which baseline it leaves in each case, and the name, address and activity it records |
| Tracker.Tracker.UpdateStatsBatch | pkg/stats/tracker.go:49-61 | the samples of a batch, one after the other |
| Tracker.LinesMean | pkg/stats/interface_counters.go:51-75 | a record has one line for each direction with traffic, uplink what was sent and downlink what was received |
| Tracker.Tracker.GetStats | pkg/stats/tracker.go:117-153 | bills a key what it has pending, once per reset however often it is asked for, and other keys nothing, under the names in the records |
| Tracker.Tracker.GetUsersStats | pkg/stats/tracker.go:156-187 | bills every key exactly what it has pending, under the name in its record; a reset starts a new period and forgets deleted keys |
| Tracker.Tracker.RemoveStats | pkg/stats/tracker.go:261-277 | a removed key keeps its pending traffic as saved deltas |
| Tracker.Tracker.CleanupDeletedEntries | pkg/stats/tracker.go:287-296 | exactly the deleted keys with nothing pending go |
| Tracker.CleanupMeans | pkg/stats/tracker.go:287-296 | a record goes if and only if it is deleted and both counters are at their baseline |
| TrafficAccounting.RunProjects | pkg/stats/tracker.go:49-296 | keys are independent: a run leaves in the table for a key what its effects on that key alone leave |
| TrafficAccounting.NeverOverBills | pkg/stats/tracker.go:63-187 | in every run, across restarts, removals and re-adds, billed plus pending never exceeds what the device counted |
| TrafficAccounting.BillsExactly | pkg/stats/tracker.go:63-187 | while a key is neither removed nor restarted, every counted byte is billed, pending or younger than the last sample |
| TrafficAccounting.PendingSurvives | pkg/stats/tracker.go:261-296 | between resets pending traffic never shrinks, whatever polls, removals, re-adds, counter restarts and cleanups happen |
| TrafficAccounting.ReaddKeepsPending | pkg/stats/tracker.go:74-82 | a re-added key starts from what it had pending when it was removed |
| NamedBilling.ResponseBillsNames | pkg/stats/tracker.go:117-187 | a response bills each name exactly what is pending for the keys asked for that bear it |
| NamedBilling.SampleBillsNames | pkg/stats/tracker.go:63-114 | a sample adds the growth it shows to its name, and hands over to it all that was pending for the key under another |
| NamedBilling.NamesKeepTheirOwnIff | pkg/stats/tracker.go:63-73 | a sample leaves every name its own if and only if the key keeps its user or had nothing pending |
| NamedBilling.NamesBalance | pkg/stats/tracker.go:49-296 | over every run, reported plus pending for a name is the growth shown under it, plus what came and less what went with keys |
| NamedBilling.NamesAreBilledTheirOwn | pkg/stats/tracker.go:49-296 | over every run in which no key changes hands with traffic pending, every name is billed just its own growth |
| NamedBilling.HandoverMisbills | pkg/stats/tracker.go:63-73 | two samples after which all of one user's traffic is pending under another's name |
| Sums.SumWithout | backend/l2tp/stats.go:67-71 | the sum over a map of users does not depend on the order they are taken in |
| Sessions.CreditedTogether | backend/l2tp/stats.go:45-71 | crediting every listed user its own growth is crediting the total growth |
| Sessions.LedgerAddsUp | backend/openvpn/stats.go:51-80 | a user's growth in a poll is the growth of its sessions taken together |
| Sessions.Collector.Poll | backend/l2tp/stats.go:31-102 | each user is credited its sessions' growth, the users' counters add up to the node's total, nothing shrinks, and every listed user gets one sample of its new counters |
| Sessions.Collector.Measure | backend/openvpn/stats.go:51-80 | per-user growth over the listing, a session listed twice counted once |
| SessionRuns.NeverOverCredits | backend/l2tp/stats.go:45-64 | in every run of listings a user is credited for a session at most what the session moved while it was that user's, if a session that leaves the listing begins anew before it is listed again |
| SessionRuns.MissedOnce | backend/openvpn/stats.go:81-86 | without that condition a listing that misses a session makes the next credit its whole counter, exactly |
| SessionRuns.CreditsExactly | backend/openvpn/stats.go:51-79 | in every run of listings that never miss a session nor let it begin anew, what its user is not credited yet is exactly what the next listing credits |
| SessionRuns.BegunIsCreditedExactly | backend/openvpn/stats.go:51-79 | and in every run from the beginning that is so for a session that did not occur before it begins |
| SessionRuns.ReusedIdLoses | backend/l2tp/stats.go:48-54 | for an id used again: a direction whose counter stays below the remembered one is credited whole, and one that reaches it loses exactly what was remembered |
| SessionRuns.CallSeen | backend/l2tp/stats.go:45-64 | sessions are independent: what a call does to one session's counters, memory and credit depends on no other |
| SessionRuns.ListedIsCredited | backend/openvpn/stats.go:51-86 | a listing credits a session that it names, once or several times, the growth of that session alone, to its user alone, and a session that it does not name nothing |
| SessionRuns.UserIsNeverOverCredited | backend/l2tp/stats.go:45-100 | in every such run a user is credited at most what all its sessions moved together |
| SessionRuns.CollectorIsGenuine | backend/l2tp/stats.go:87-100 | the samples of a run of polls show each listed user its credit so far, which is all the tracker needs |
| SessionRuns.ReportedPlusPendingIsCredited | backend/l2tp/stats.go:87-100 | in every run of the collector's polls, reports and cleanups, reported plus pending is exactly what the collector credited the user |
| SessionRuns.UserIsNeverOverBilled | backend/l2tp/stats.go:31-102 | so a user's reported plus pending traffic never exceeds what its sessions moved |
| InterfaceCounters.Tracker.Delta | pkg/stats/interface_counters.go:25-49 | the delta to the baseline, never negative, rebased when either counter ran backwards |
| InterfaceCounters.NeverOverReports | pkg/stats/interface_counters.go:25-49 | over any run reported plus due never exceeds what the node counted |
| InterfaceCounters.ReportsExactlySinceFirstCall | pkg/stats/interface_counters.go:29-33 | bytes before the first call are never reported; from then on, without restarts, every byte is reported once or due |
| ShaperMarks.NumbersMean | backend/ratelimit/apply.go:29-45 | the n-th client has classes 1:2n+2 and 1:2n+3, its mark, and its mark with bit 15 set |
| ShaperMarks.RangeMeans | backend/ratelimit/ratelimit.go:100-102 | there are 254 marks |
| ShaperMarks.EncodingsAreInjective | backend/ratelimit/apply.go:29-45 | class ids and mark values tell every client and direction apart and never hit the root or the default class |
| ShaperMarks.EncodingsCollideBeyond | backend/ratelimit/apply.go:39-45 | past the bound on clients two mark values coincide |
| ShaperMarks.AllocateKeepsPartition | backend/ratelimit/apply.go:101-118 | live and freed marks partition the range handed out, no two addresses share one, holders keep theirs, a new address gets the last one freed or the next, and allocation fails only for a new address with 254 live ones |
| ShaperMarks.ReleaseKeepsPartition | backend/ratelimit/ratelimit.go:140-156 | a departure keeps the partition |
| Shaper.PacketMeetsItsRate | backend/ratelimit/nft.go:34-61 | a packet with exactly one shaped endpoint is queued in that client's class for its direction, at its own rate |
| Shaper.OtherPacketsAreUnshaped | backend/ratelimit/nft.go:34-61 | a packet with no shaped endpoint is queued in the default class |
| Shaper.ShapedServes | backend/ratelimit/apply.go:70-79 | installing a client's classes and filters serves it at its rate in both directions |
| Shaper.ShapedKeepsServing | backend/ratelimit/apply.go:70-79 | and leaves every other client's service alone |
| Shaper.UnshapedIsPurged | backend/ratelimit/apply.go:81-85 | removing one departed client more leaves in a tree exactly what is not the departed clients' |
| Shaper.PurgedHasNoStray | backend/ratelimit/ratelimit.go:140-156 | purging the departed clients keeps a tree that held nothing foreign that way |
| ShaperManager.WantedMeans | backend/ratelimit/ratelimit.go:130-136 | an address is shaped if and only if some entry with a positive limit names it, and then as the last such entry says |
| ShaperManager.Manager.Apply | backend/ratelimit/ratelimit.go:126-212 | afterwards the chain holds exactly the applied clients' rules, and a listed interface exactly their classes and filters if and only if nothing else was left in its old tree once the departed clients are taken out; an interface off the list loses departed clients only if it was on the last one; it fails only for want of marks; surviving clients keep theirs |
| ShaperManager.StrayReturns | backend/ratelimit/ratelimit.go:126-212 | a run in which an interface leaves the list, a client departs, the interface returns, and the client's class is still in its tree |
| ShaperManager.Manager.Polls | backend/ratelimit/ratelimit.go:126-212 | over any run of polls, with interfaces that leave the list losing their trees, every poll leaves on the host exactly what its own clients need and nothing else |
| ShaperManager.Manager.Close | backend/ratelimit/ratelimit.go:235-251 | nothing is left on the interfaces known or listed, and after polls nothing at all |
| ShaperManager.Manager.SyncMarks | backend/ratelimit/nft.go:34-61 | the chain holds exactly the two rules of each applied client |
| ShaperManager.Manager.TakeMark | backend/ratelimit/apply.go:101-118 | allocation in place: refused exactly when 254 others hold marks, and nobody's mark changes |
| ShaperManager.NextPollIsTidy | backend/ratelimit/ratelimit.go:126-212 | polls compose: exact trees make the next interface list tidy, if interfaces off the list lose their trees |
| XrayUsers.PathsAgree | backend/xray/user.go:88-150 | the incremental path and the rebuild pick the same users with the same account, of the type the inbound serialises |
| XrayUsers.AccountMeans | backend/xray/user.go:25-150 | a user is active on an inbound if and only if it lists the tag, has the protocol's message and its id parses; the account has the user's own uuid, password, auth or username |
| XrayUsers.ShadowsocksMeans | backend/xray/api/account.go:164-179 | a Shadowsocks account has the user's password and its cipher if that is one of the known ones, else "none"; for 2022 methods the normalised password |
| XrayUsers.StoredMeans | backend/xray/config.go:245-288 | an account is stored as it is, but for a 2022 password, which is normalised |
| XrayUsers.LastOfMeans | backend/xray/iplimit.go:30-40 | the last entry of an email, by position |
| XrayUsers.LastActiveMeans | backend/xray/config.go:129-243 | the last active entry of an email, by position |
| XrayUsers.StoredIsActiveIff | backend/xray/config.go:267-274 | normalising once more when storing changes nothing if and only if the method or the hash makes the password steady |
| XrayUsers.BatchIsSinglesIff | backend/xray/config.go:290-369 | a batch equals its users applied one by one if and only if no email in it is inactive first and active last |
| XrayUsers.RevivedIsDropped | backend/xray/config.go:290-369 | two entries of one user that single updates add and a batch drops |
| XrayUsers.DistinctBatchIsAnyFold | backend/xray/config.go:82-127 | with distinct emails a batch equals the single updates in any order |
| XrayUsers.DistinctBatchIsRebuildIff | backend/xray/config.go:129-243 | with distinct emails a touched user is left as a rebuild would leave it if and only if it is no client or its password is steady, and untouched users are left alone |
| XrayUsers.BatchAt | backend/xray/config.go:290-369 | where a batch leaves any email: out as soon as one entry for it is inactive, else with its last entry's account |
| XrayUsers.RebuildAt | backend/xray/config.go:129-243 | where a rebuild leaves any email: with its last active entry's account |
| XrayUsers.BatchKeepsTyped | backend/xray/config.go:290-369 | a batch stores accounts under their own email with the type the inbound serialises |
| XrayUsers.RebuildIsTyped | backend/xray/config.go:129-243 | so does a rebuild |
| XrayConfig.Inbound.SyncUsers | backend/xray/config.go:129-243 | the client map is rebuilt from the list alone |
| XrayConfig.Inbound.UpdateUser | backend/xray/config.go:245-288 | the account is stored, a Shadowsocks 2022 password normalised |
| XrayConfig.Inbound.UpdateUsers | backend/xray/config.go:290-369 | additions of the inbound's own type in order, then the removals |
| XrayConfig.Inbound.Serialise | backend/xray/config.go:382-491 | the core is handed every client: the type filter drops none |
| XrayConfig.Config.BuildInboundUpdates | backend/xray/config.go:82-115 | of inbounds sharing a tag the last gets the batch's additions and removals |
| XrayConfig.Config.UpdateUsers | backend/xray/config.go:117-127 | each tag's last inbound gets the batch, every other inbound is unchanged |
| XrayCore.KnownCipherMeans | common/helper.go:39-65 | the exception below is none for the 2022 edition's three methods and for any other inbound |
| XrayCore.SingleKeepsCore | backend/xray/user.go:152-190 | SyncUser keeps the core within the configuration and covering it except for who is out, with equal accounts unless the Shadowsocks 2022 method fixes no key length |
| XrayCore.BatchKeepsCoreWithinIff | backend/xray/user.go:205-239 | UpdateUsers leaves the core within the configuration if and only if every email both active and inactive on the inbound is refused by the core |
| XrayCore.MixedIsServed | backend/xray/user.go:205-239 | two entries of one user after which the core serves it and the configuration does not have it |
| XrayCore.BatchKeepsCore | backend/xray/user.go:205-239 | without such emails it keeps the whole relation |
| XrayCore.DistinctIsUnmixed | backend/xray/user.go:205-239 | distinct emails are enough for that |
| Xray.Xray.constructor | backend/xray/xray.go:41-135 | the node starts with core and configuration equal |
| Xray.Xray.SyncUser | backend/xray/user.go:152-190 | fails exactly when some inbound is refused; keeps the relation either way; success ends a kick |
| Xray.Xray.SyncUsers | backend/xray/user.go:192-203 | the configuration is the rebuild whatever happens; core and configuration are equal if the core comes up and stays up, whether or not the status check is seen through, and the core is empty otherwise; kicks end on success only |
| Xray.Xray.UpdateUsers | backend/xray/user.go:205-239 | a batch on both sides of every inbound; the relation is kept when no email is mixed |
| Xray.Xray.UpdateUsersAndRestart | backend/xray/user.go:241-252 | a batch on the configuration, the core as after SyncUsers, and after success only the named users remembered |
| Xray.Xray.HealthRestart | backend/xray/jobs.go:86-97 | a restart that succeeds serves kicked users again with every mark kept; one that fails leaves the core empty |
| Xray.Xray.RememberUsers | backend/xray/iplimit.go:22-40 | the last entry of each non-empty email is remembered, and exactly the named users' kicks end |
| Xray.RememberedMeans | backend/xray/iplimit.go:22-40 | of a listed email its last entry is remembered, of any other what was there |
| Xray.KicksEnd | backend/xray/iplimit.go:36-39 | naming a user ends its kick and no other |
| Xray.Xray.EnforceIpLimitsOnce | backend/xray/iplimit.go:57-111 | a user is kicked if and only if more addresses are online than its positive limit allows, and let back in if and only if 60 seconds have passed and no inbound refuses it; a newly kicked user is in no inbound of the core; the relation is kept |
| Xray.Xray.DisconnectUser | backend/xray/iplimit.go:116-123 | the user is out of every inbound of the core and nobody else is |
| Passwords.DecodeUndoesEncode | common/helper.go:41-64 | base64 decoding undoes encoding for every byte sequence |
| Passwords.DecodesIff | common/helper.go:41-42 | a text decodes if and only if, line breaks aside, it is groups of four digits with at most two padding characters at the very end |
| Passwords.BreaksMean | common/helper.go:41-42 | line breaks are skipped anywhere, and nothing else is |
| Passwords.DigitMeans | common/helper.go:41-64 | the digits are the standard alphabet |
| Passwords.BitsMean | common/helper.go:41-64 | three bytes are their 24 bits as four digits, the first byte first |
| Passwords.GroupMeans | common/helper.go:41-64 | how one, two and three bytes are written, with padding |
| Passwords.EnsureBase64Password | common/helper.go:39-65 | the result is the password itself or valid base64, and for a known method it decodes to a key of the method's length |
| Passwords.KeyMeans | common/helper.go:39-65 | a password that decodes to a key of the method's length is kept, any other becomes the first 16 bytes or the whole of its hash |
| Passwords.KeyLengths | common/helper.go:44-45 | 16 bytes for the first of the 2022 edition's methods and 32 for the other two |
| Passwords.NormalisingIsIdempotentIff | common/helper.go:39-65 | normalising twice is normalising once if and only if the method fixes a key length or the hash is at a fixed point |
| Passwords.KnownMethods | common/helper.go:44-45 | the three Shadowsocks 2022 methods fix one |
| OpenVpnUsers.UserStore.TryConnect | backend/openvpn/users.go:75-114 | admitted if and only if the name is allowed, the serial is the pinned one, a stored password and its username are matched, and the session is already counted or under the limit; no name is taken past its limit |
| OpenVpnUsers.UserStore.ExcessSessions | backend/openvpn/users.go:120-147 | sessions are dropped exactly when a name is over a positive limit, down to the limit |
| OpenVpnUsers.UserStore.ReleaseSession | backend/openvpn/users.go:150-159 | the session is gone and no empty set stays |
| OpenVpnUsers.UserStore.ApplyUser | backend/openvpn/users.go:171-202 | adds, replaces or removes one name, its sessions with it, and reports what happened |
| OpenVpnUsers.ListedMeans | backend/openvpn/users.go:206-230 | a full list allows a name if and only if some entry of it has credentials and the inbound's tag, with the certificate and both limits of the last such entry and no username or password |
| OpenVpnUsers.UserStore.ReplaceAll | backend/openvpn/users.go:206-230 | exactly the wanted names stay, without username and password, and the sessions of the removed go |
| OpenVpnUsers.OpenVpn.EnforceDeviceLimit | backend/openvpn/openvpn.go:299-304 | the name ends within its limit and exactly the dropped sessions are killed |
| OpenVpnUsers.OpenVpn.SyncUsers | backend/openvpn/openvpn.go:284-294 | every name is held to the device limit of its last entry, with not one session dropped beyond that; removed names are killed, and of the others exactly the dropped sessions |
| OpenVpnUsers.OpenVpn.ApplyOne | backend/openvpn/openvpn.go:315-334 | a removed name or one with a new certificate is killed, any other is held to its limit |
| OpenVpnUsers.OpenVpn.UpdateUsersAndRestart | backend/openvpn/openvpn.go:310-313 | the list is replaced, and the call itself drops no counted session of a name that stays |
| DeviceLimits.RankMeans | backend/devicelimit.go:29-42 | xray, wireguard, openvpn, ikev2, l2tp, then all others alike |
| DeviceLimits.OrderedIsStable | backend/devicelimit.go:55-59 | ascending rank, limiters of one rank in the order they came, none lost or doubled |
| DeviceLimits.LowerPrioritySheds | backend/devicelimit.go:93-109 | while a backend keeps any device of a user, none before it in priority has lost one |
| DeviceLimits.LimitMeans | backend/devicelimit.go:74-80 | the limit is that of the first backend in priority order that knows the user |
| DeviceLimits.OverMeans | backend/devicelimit.go:81-91 | the pass acts if and only if the limit is known and positive and the 32-bit total exceeds it |
| DeviceLimits.SharedIsGreatest | backend/devicelimit.go:93-109 | the kept vector is the lexicographically greatest within the counts and the limit |
| DeviceLimits.SharedTotal | backend/devicelimit.go:93-109 | it keeps min(online, limit) devices |
| DeviceLimits.EnforceGlobalDeviceLimits | backend/devicelimit.go:50-111 | KeepDevices is called exactly where devices must go, with what the budget leaves there; with fewer than two limiters never; and never on limiters that an earlier pass has left |
| DeviceLimits.HandOut | backend/devicelimit.go:93-109 | the hand-out loop calls exactly where the shared budget falls short |
| DeviceLimits.KeepsMinIff | backend/devicelimit.go:85-91 | a limited user keeps min(online, limit) if and only if its total fits 32 bits or wraps to a number over the limit |
| DeviceLimits.OverLimitIsShared | backend/devicelimit.go:73-110 | a user the pass acts on is left with the greatest vector in priority order and its limit in devices |
| DeviceLimits.WholeOrder | backend/devicelimit.go:55-59 | the priority order by positions: where every limiter of the list ends up |
| DeviceLimits.SecondPassIsIdle | backend/devicelimit.go:50-111 | no call is due on what a pass leaves, taken in the order a second pass would take it |
| Subnets.FewestBits | backend/openvpn/listeners.go:78-84 | the extra bits are the fewest that tell all listeners apart |
| Subnets.SuccessIgnoresIndex | backend/openvpn/listeners.go:43-76 | success, and the reason for failure, do not depend on the listener |
| Subnets.OutcomeMeans | backend/openvpn/listeners.go:43-65 | one listener keeps the subnet unchanged, and each refusal has its cause |
| Subnets.BlockAt | backend/openvpn/listeners.go:67-75 | no 32-bit operation wraps, and the block is aligned |
| Subnets.ParentMeans | backend/openvpn/listeners.go:66-68 | the parent is the prefix of the given length that holds the configured address |
| Subnets.BlocksShareNetwork | backend/openvpn/listeners.go:43-76 | every address of every block has the configured address's network part |
| Subnets.BlocksAreInside | backend/openvpn/listeners.go:43-76 | every listener's block is a well-formed prefix inside the parent |
| Subnets.BlocksAreDisjoint | backend/openvpn/listeners.go:43-76 | no two listeners share an address |
| Subnets.TooSmallIff | backend/openvpn/listeners.go:55-65 | a split is refused for size if and only if the parent cannot give every listener a /24 |
| LogRing.Ring.constructor | backend/xray/startup_diagnostics.go:19-27 | an empty ring of the size asked for, or of one line |
| LogRing.Ring.Reset | backend/xray/startup_diagnostics.go:29-35 | nothing counts as added any more |
| LogRing.Ring.Add | backend/xray/startup_diagnostics.go:37-47 | one more line added, the oldest overwritten when full |
| LogRing.Ring.Tail | backend/xray/startup_diagnostics.go:49-75 | exactly the last min(n, capacity, added) lines since the last reset, in order; all retained ones when n is not positive |

## Left out

- Goroutine interleavings: each locked operation or poll is one step, in the lock order documented in `backend/wireguard/wireguard.go`.
- Parsing: whether a WireGuard key, an address prefix or a UUID parses is part of the input; key strings are taken to be canonical, and an IPv4-mapped IPv6 prefix is an IPv6 one here.
- Pre-shared keys, keepalives and endpoints in peer configurations; the speed limits the WireGuard backend remembers for the shaper.
- SyncRuns.RunKeepsAgreement: runs with limiter kicks are not part of it, because a kick makes store and kernel disagree on purpose; `KickedPeers.RunStrandsNobody` is about those.
- KickedPeers.LimitedWireGuard.EnforceIpLimits: a limiter pass does not take the lock the syncs hold; here it runs between syncs, and a pass that reads the store while a sync rewrites it is not modelled.
- Syncs whose kernel call fails part of the way are not among the calls of `KickedPeers.RunStrandsNobody`.
- Sorted key lists and Go's map order are arbitrary orders here, so the contracts hold for each of them.
- int64 overflow of byte counters and the 32-bit truncation of a count of IPs in the WireGuard and xray limiters.
- Failing tc and nft commands, and the detection of errors that mean "already exists".
- VLESS flows, the user's own and the one an inbound overrides on the API path; the sing-box sidecar, and an inbound's settings other than the cipher method.
- A failing RemoveInboundUser call, and a core that refuses an email at one attempt and accepts it at another within one call.
- Nil users and nil proxy messages inside lists.
- Sessions.Collector.Poll: says nothing about a sample's address, because the L2TP poll takes a user's first non-empty one and OpenVPN its last.
- The OpenVPN process restart inside `UpdateUsersAndRestart`, and the disconnect events that may still arrive from the old process and release sessions.
- The L2TP backend's own disconnection of excess sessions, whose sort by start time would add an easy member.
- `GetStatsEntries`, `AnyActiveSince`, `EndpointActivity` and `ClearAllStats`, which only read or clear.
- `derive`'s working directories and ports; file, socket and process handling, gRPC and REST, TLS, ACME and configuration parsing; the PPTP, SSTP, OpenConnect, SSH, GRE, MTProto, IKEv2 and sing-box backends.
