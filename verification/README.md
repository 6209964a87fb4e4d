# A model of the WireGuard access operator

The operator is four reconcilers that drive a mutable outside world to what a declarative
configuration says. This project models each of them together with the world it changes, and proves
what it achieves over every input, every order of map iteration, every interleaving and every run.
`dafny verify dfyconfig.toml` checks all files.

Each part has the same shape. The loops of the source are methods over mutable state (`*Run.dfy`,
and the classes in the other files), proved equal to specification functions; the properties are
lemmas about those functions. Parsers and printers of the standard library are arbitrary functions
passed in as records, so every result holds for all of them. What addresses, masks and networks mean is
in `Nets` and `NetFacts`.

## The parts

**Peer sync** (`Device`, `PeerSync`, `PeerSyncTheorems`, `PeerSyncRun`, `ConcurrentSync`).
The device follows cryptokey routing (section 2 of the WireGuard paper by Donenfeld): an allowed IP
is held by at most one peer, assigning it takes it from the previous holder, and assigning it again
moves it to the end of the holder's list. `SyncConvergesInAnyOrder` says what one sync achieves in
whatever order its entries are sent; `InterleavedSyncsConverge` says the same for any number of
concurrent syncs, cut anywhere, down to single entries. Where it does *not* hold is stated exactly:

- The device equals the desired state, and a second sync is silent, if and only if no address is
  asked for twice (`ExactExactlyWhenClean`, `SecondSyncIsSilentIff`).
- With two configurations in flight the older one can win (`OlderConfigurationCanWin`). Once no sync
  of another configuration sends any more, the first sync that begins and finishes leaves the device
  as desired for good (`NewestConfigurationWins`). A
  single left-over entry is harmless exactly when it agrees with the newer configuration on its key
  and steals nothing that nobody else has (`StaleEntryHarmlessIff`), and a whole left-over sync
  exactly when each of its entries is (`StaleFlightHarmlessIff`).
- The keepalive is never compared; it is right by induction from the freshly created device
  (`KeepaliveOverEveryExecution`, `DeviceHistory`).

**Firewall** (`Comments`, `Firewall`, `FirewallTheorems`, `FirewallRepeats`, `FirewallConfig`,
`FirewallHistory`, `RuleTexts`, `FirewallRun`, `ConcurrentFirewall`, `ChangingFirewall`,
`LeftOverRules`). The chain is a list of rules with handles
and user data, duplicates allowed, with policy drop and a packet semantics. Recognition is the
source's substring search over user data. Every result is about syncs with arbitrary command
outcomes unless it says otherwise.

- Safety needs no assumption on chain or comments: after as many syncs as the largest stale
  multiplicity, only permitted packets are accepted if and only if no rule that the configuration
  recognised at first was an intruder (`FirewallIsSafeIff`), and the same holds for concurrent syncs
  in any interleaving of their commands (`InterleavedSyncsAreSafeIff`), which never delete a
  recognised rule (`WantedRulesStay`).
- Completeness: if the comments of the configuration are prefix-free and the rules it recognises its
  own, then exactly the permitted packets are accepted once every item is complete
  (`FirewallMeaning`, `InterleavedRuleSyncs`). On texts this is the condition that of no two enumerated
  pairs the stripped texts of one start with those of the other (`PrefixFreeIff`). On the chain the operator itself creates it needs
  neither (`FreshFirewallMeaning`).
- Over whole histories of changing configurations, with comments related in any way, the chain is
  exact after every stage if and only if every stage fits the one before it and is synced
  sufficiently for the change (`ChangeOverIff`, `HistoryIsExactIff`, `HistoryMeaning`). One sync
  without failures suffices unless a DNS/HTTP pair is dropped (`OneSyncSufficesIff`), because both of
  its rules share one comment and a sync deletes one rule per comment.
- With syncs of several configurations in flight the older one can win (`OlderRulesCanWin`). Once no
  sync of another configuration adds or deletes rules any more, the safety result holds again, counted
  from there (`NewestRulesWinIff`). What is left of a sync of another configuration keeps the accepted
  packets if and only if it adds only matches that hit wanted packets and deletes only rules whose
  packets another rule hits (`LeftOverSyncHarmlessIff`, `LeftOverSyncInExecution`); it keeps the list
  of rules as it is if and only if it adds and deletes none (`StaysExactIff`).

Where it goes wrong is stated exactly:

- Stripping comments loses information (`StripCollides`). When the destination of a rule is edited
  from 1.10.0.0/16 to 11.0.0.0/16, packets to the former network stay accepted after any number of
  syncs (`EditedDestinationStaysOpen`). In general, what a confused old rule accepts stays accepted
  (`RevokedStaysOpen`), and a revocation works if and only if every packet of a confused rule is
  wanted anyway (`RevocationWorksIff`).
- From the operator's own chain a further sync is silent if and only if no comment has an earlier one
  as a prefix, which a pair enumerated twice violates (`FurtherSyncIsSilentIff`); otherwise every sync
  adds the rules of exactly the repeating items again, without bound (`SyncsGrow`, `FurtherSyncAdds`).
- A half-written DNS/HTTP pair is never completed (`WholeAfterSyncIff`, `WholeAfterRunIff`), and it
  comes about without any failure when a pair leaves the configuration for a single sync, whatever
  else the configurations hold (`SingleSyncsLoseHalfAPair`).

**Both halves** (`PeerAccess`). The device says from which key a packet may come, the chain whether it
may pass. From each key exactly the packets get through that its peer is permitted, on every device a
sync may leave, if and only if packets from an address that are permitted to anyone are permitted to
each key that asks for the address, and only one key does (`AccessIsRightIff`, and over whole histories
`AccessAfterHistory`). That no address is listed by two peers is enough (`OneListingIsSeparate`); that
none is asked for twice is not, because a peer with an unreadable key gets no entry on the device while
its rules are written all the same (`UnreadableKeyLendsAccess`).

**Addresses** (`AddressIndex`, `PeerAddresses`, `LoadBalancer`). The index arithmetic on big integers,
two's complement and `int64` wrap-around included, has a closed form; two clock readings can collide
if and only if the network has fewer than 16 host bits or their distance modulo the period is 0, 1
or -1 (`CollisionIff`). From that follows that peer addresses never collide over any run although
nothing checks for conflicts (`AddressesNeverCollide`), and neither do the texts that are stored
(`StoredIsLogged`, `StoredAddressesDiffer`). The source's comment (operator/wga.go:539-540)
promises time in the top bits and randomness in the bottom ones; the code adds the random number a
second time after or-ing it in, so the lowest bit is always zero and the randomness reaches one bit
into the time, which is why the readings of assigning calls must be 2 ns apart and not 1. In which
order they come does not matter.

Service IPs are unique at every moment of a run if and only if every reconcile was safe, whatever
list it had read: when another of our services has a wanted IP, the list must show a conflict
(`UniqueOverEveryRunIff`). Lists that show the IPs assigned so far are enough
(`UniqueOverEveryRun`); without them two services can get the same IP (`StaleListsAssignTwice`). A
generated IP is free at the first attempt if all others were generated within the window of the index
(`GeneratedIsFree`). A
migrated legacy address does not survive its own reconcile (`LegacyAddressFate`).

**Cluster client** (`ClusterLinks`, `ClusterLinksRun`, `ClusterStatus`). Links, addresses and one
routing table shared by all links, in which replacing a route takes it from another link. A
successful sync is exact on links and routes (`LinksAreExact`, `RoutesAreExact`), and it succeeds on
a reliable kernel exactly when the clients are syncable and default routes are out of the way
(`WgcSync`). The limits, stated exactly:

- A client's link carries its own route set if and only if none of its routes is a default route and
  no later client wants one of them (`RouteSetExactIff`).
- The client's own server gets exactly the client's routes whatever was accumulated, but clearing a
  preshared key or keepalive in the configuration does not clear it on the device
  (`OwnServerIsRouted`).
- The accumulated peer list gives a new interface just its own server if and only if everything
  accumulated has the same key (`OwnServerOnlyIff`).

The status of a cluster client is written by many nodes with compare-and-swap on the resource
version: no entry is lost or doubled (`NoEntryIsLost`), and once a node has written, its entry is the
public key of its private key (`WrittenStaysRight`). The default secret names of two clients can
coincide; `DefaultSecretsCollideIff` says exactly when.

## Assumptions about the outside world

- Keys, endpoints and resource versions are opaque. `NO_PSK` is the all-zero key, which is what an
  absent preshared key is on a device.
- `cidr.HostBig` is base plus index for `0 <= index < 2^hostbits`, counts from the end of the network
  for `-2^hostbits <= index < 0`, and is an error otherwise.
- User data is a type byte, a length byte counting the final NUL, the comment, NUL. Addresses and
  networks print as at most 45 digits, `a` to `f`, dots, colons and slashes, or as `<nil>`.
- Listing the chain is one step. Rules are added by one command each, which may fail; deletions are
  queued and sent together at the end as one transaction, which is rejected if one of the rules is
  gone.
- A route listed for a link has its destination as text; a default route is listed without one and is
  therefore never recognised as wanted. Whether the netlink library lets it be deleted is a parameter
  (`deletesDefaults`); if it does not, a sync succeeds only if no client wants a default route and none
  leads to a client's link (`WgcSync`).
- Any command of the kernel or the API server may fail at any time; where a result needs success it
  says so, by an outcome or by the `reliable` flag.

## Model

| member | source | states |
|---|---|---|
| `NetFacts.HostNetIs` | operator/wga.go:391-406 | the network of an address is the address with mask 32 or 128, and holds that address alone |
| `NetFacts.InNetIsRange` | operator/nft.go:303-316 | a network with a zero host part is the range of its addresses |
| `NetFacts.DefaultIsEverything` | operator/wgc.go:482-487 | a default route is one that every address of its family matches |
| `Device.ApplyKeepsExclusive` | operator/wga.go:519-519 | every configuration entry, whatever its flags, keeps cryptokey routing: one holder per allowed IP, listed once |
| `Device.SetPeerEffect` | operator/wga.go:429-435 | an add or update with replaced allowed IPs leaves its peer with exactly the listed addresses; every other peer loses those and nothing else |
| `Device.AssignAllEffect` | operator/wga.go:434-434 | assigning a list of addresses: the new holder gains it, everyone else loses it, keys and keepalives stay |
| `Device.AssignedLastIsLast` | operator/wga.go:434-434 | the address assigned last ends the list, also if its peer had it before |
| `Device.WgDevice.ConfigureDevice` | operator/wga.go:519-522 | a configuration is applied entry by entry; a failure leaves a prefix applied |
| `PeerSync.LastAskerDecides` | operator/wga.go:377-438 | the last peer in the list with status and readable keys decides the entry of its public key |
| `PeerSync.AsksForIff` | operator/wga.go:378-426 | a peer asks for a key if and only if it has a status, its public key text reads as the key, and its preshared key text is empty or readable |
| `PeerSync.LastAskerGets` | operator/wga.go:382-437 | the last peer to ask for a key gets the preshared key of its text, or the all-zero one, the 60 s keepalive, and the networks of its addresses, or of its single legacy address |
| `PeerSync.DesiredHasLastAsker` | operator/wga.go:377-438 | every desired key has such a last peer, so no other key is desired |
| `PeerSync.AllowedIPsInOrder` | operator/wga.go:382-410 | the allowed IPs are full-length networks of exactly the readable addresses, in list order |
| `PeerSync.DesiredIsWellFormed` | operator/wga.go:428-437 | every desired entry is under its own key, replaces allowed IPs and carries a preshared key and the 60 s keepalive |
| `PeerSync.EntryKeepsSettled` | operator/wga.go:464-516 | an entry towards a desired map, however outdated its snapshot, disturbs no key that is already right |
| `PeerSync.EntrySettlesItsKey` | operator/wga.go:494-516 | the entry of a key makes that key right on any device |
| `PeerSync.NoEntryIsSettled` | operator/wga.go:488-492 | a key for which the diff emits nothing is right already |
| `PeerSync.OutdatedEntry` | operator/wga.go:494-516 | an update of a peer that has gone in the meantime brings nothing back; an addition creates its peer |
| `PeerSyncTheorems.DifferenceIsSound` | operator/wga.go:464-516 | the diff covers every key that is not right, and no update will find its peer missing |
| `PeerSyncTheorems.EntryStep` | operator/wga.go:464-516 | one entry, of this or another sync towards the same map, settles its key, keeps settled keys and keeps pending entries sound |
| `PeerSyncTheorems.PrefixProgress` | operator/wga.go:519-522 | after any prefix of the entries every key is right or has its entry still to come |
| `PeerSyncTheorems.SyncConvergesInAnyOrder` | operator/wga.go:453-522 | for every device and desired map and every order: exactly the desired keys and preshared keys, no unwanted address, every wanted address with exactly one peer that wants it |
| `PeerSyncTheorems.ExactExactlyWhenClean` | operator/wga.go:464-516 | a converged device equals the desired state, lists in order, if and only if no address is asked for twice |
| `PeerSyncTheorems.EmptyDifferenceIff` | operator/wga.go:464-516 | nothing is sent if and only if device and desired map agree on keys, preshared keys and ordered allowed IPs |
| `PeerSyncTheorems.SecondSyncIsSilentIff` | operator/wga.go:464-516 | a second sync sends nothing if and only if no address is asked for twice |
| `PeerSyncRun.ReadDesired` | operator/wga.go:375-438 | the loop over peers and addresses computes the desired map |
| `PeerSyncRun.Changed` | operator/wga.go:466-486 | the comparison loop answers whether preshared key or ordered allowed IPs differ |
| `PeerSyncRun.UpdateOrRemove` | operator/wga.go:464-510 | the loop over the device's peers, in any order, yields the updates and removals and leaves the peers to add |
| `PeerSyncRun.Difference` | operator/wga.go:453-516 | the two loops over maps, in any iteration order, yield the entry of every key that needs one, once |
| `PeerSyncRun.WgaSync` | operator/wga.go:374-525 | on success the device has converged and every peer has the preshared key of its specification; a failure half way unsettles no key and keeps cryptokey routing; without a device nothing changes |
| `PeerSyncRun.ConvergedHasPsk` | operator/wga.go:412-433 | on every converged device the peer of a key has the preshared key of the last asker, or the all-zero one |
| `PeerSyncRun.PrefixKeepsSettled` | operator/wga.go:519-522 | a failure after any number of entries leaves every key right that was right |
| `ConcurrentSync.SendKeepsInvariant` | operator/wga.go:519-519 | one entry sent by one of many syncs keeps the entries of all others sound and every settled key settled |
| `ConcurrentSync.StepKeepsInvariant` | operator/wga.go:147-150 | starting, sending, finishing and aborting syncs keep the invariant of the concurrent world |
| `ConcurrentSync.ExecutionKeepsInvariant` | operator/wga.go:238-238 | the invariant holds over every execution that fetches one configuration |
| `ConcurrentSync.InterleavedSyncsConverge` | operator/wga.go:274-288 | under any interleaving of syncs of one configuration, the device is as desired from the first completed sync on, and no step unsettles a key |
| `ConcurrentSync.ExecutionIsHonest` | operator/wga.go:448-519 | over every execution, with any configurations, the entries of a sync lead towards the configuration it fetched |
| `ConcurrentSync.AnyEntryKeepsSettled` | operator/wga.go:464-516 | an entry towards a configuration, however outdated, disturbs no key that is right and removes none that is wanted |
| `ConcurrentSync.NewestConfigurationWins` | operator/wga.go:147-150 | with any configurations in flight and any device: after the last entry of any other one, the first sync that begins and finishes leaves the device as desired, and it stays so |
| `ConcurrentSync.StaleEntryHarmlessIff` | operator/wga.go:448-519 | for any two configurations, shared addresses included: an entry left over from the other keeps a converged device converged if and only if it is harmless on it |
| `ConcurrentSync.HarmlessAnywhere` | operator/wga.go:448-519 | where no address is shared, harmlessness is a matter of the entry alone |
| `ConcurrentSync.StaleFlightHarmlessIff` | operator/wga.go:448-519 | all that is left over of another sync keeps the device converged if and only if each of its entries is harmless |
| `ConcurrentSync.SharedAddressIsRepaired` | operator/wga.go:513-519 | a left-over sync whose first entry is harmful and whose second one repairs it, because they share an address |
| `ConcurrentSync.OlderConfigurationCanWin` | operator/wga.go:274-288 | an execution in which a sync of an older configuration finishes last and leaves the device wrong |
| `ConcurrentSync.KeepaliveOverEveryExecution` | operator/wga.go:428-430 | from an empty device, every peer has the 60 s keepalive at every moment of every execution |
| `ConcurrentSync.PrefixKeepsAlive` | operator/wga.go:428-435 | applying any list of emitted entries keeps every keepalive at 60 s |
| `ConcurrentSync.DeviceHistory` | operator/wga.go:315-332 | after a successful sync the device is what its own peer list asks for, whatever earlier syncs did or left undone, and no older key remains |
| `Comments.StripLoop` | operator/nft.go:192-203 | the loop computes the subsequence of alphanumeric characters |
| `Comments.StripOne` | operator/nft.go:194-201 | a byte is kept if and only if it is a digit or a letter |
| `Comments.CommentShape` | operator/nft.go:126-126 | a comment built from printed addresses has its only `r` in front |
| `Comments.ContainsIffPrefix` | operator/nft.go:129-134 | the substring search over user data succeeds if and only if one comment is a prefix of the other |
| `Comments.ContainsIff` | operator/nft.go:130-130 | the search succeeds if and only if the comment is a substring |
| `Comments.StripAppend` | operator/nft.go:192-203 | stripping distributes over concatenation |
| `Comments.StripCollides` | operator/nft.go:126-126 | networks that differ in where a dot stands share a comment; a longer prefix length extends the comment of a shorter one |
| `Comments.CollidingNetworks` | operator/nft.go:192-203 | `1.10.0.0/16` and `11.0.0.0/16` share a comment; that of `fd00::/8` is a prefix of that of `fd00::/80` |
| `Firewall.RuleMapFacts` | operator/nft.go:88-91 | the map holds a rule of the chain for exactly the user data that occur |
| `Firewall.LastRuleIsRemembered` | operator/nft.go:88-91 | of several rules with the same user data the last one is remembered |
| `Firewall.RunItemsEffect` | operator/nft.go:123-176 | with no assumption on chain or comments: after the enumeration the map holds exactly the unrecognised user data, the chain gained the rules of the items that fire |
| `Firewall.SyncCounts` | operator/nft.go:182-187 | per user data: recognised ones keep their rules, an unrecognised one loses exactly one, firing items add theirs |
| `Firewall.SyncKeepsHandles` | operator/nft.go:182-187 | rule handles stay distinct and below the next handle |
| `Firewall.Victim` | operator/nft.go:182-183 | the final loop deletes, per unrecognised user data, exactly the one rule the map remembers |
| `FirewallTheorems.PrefixFreeIsUnambiguous` | operator/nft.go:126-134 | no item finds another one's rules if and only if no comment is a prefix of another one's |
| `FirewallTheorems.AddedContents` | operator/nft.go:144-175 | the rules a sync adds are those of the firing items, up to the first failed command |
| `FirewallTheorems.FiresIffAbsent` | operator/nft.go:128-137 | an item adds its rules if and only if the chain has none of them |
| `FirewallTheorems.SyncContents` | operator/nft.go:126-187 | which rules are in the chain after a sync: recognised, new, and nothing from elsewhere |
| `FirewallTheorems.SyncDrains` | operator/nft.go:126-187 | one sync with no assumption on comments: each stale user data loses exactly one rule, no recognised rule is deleted, nothing is added but items' rules |
| `FirewallTheorems.NothingUnwantedIff` | operator/nft.go:126-187 | once the stale rules are gone, nothing unwanted is accepted if and only if no recognised rule of the former chain was an impostor |
| `FirewallTheorems.SyncStep` | operator/nft.go:45-190 | one sync, whatever commands fail: each stale user data loses exactly one rule, each item keeps its rules or gains those that succeed |
| `FirewallTheorems.WholeAfterSyncIff` | operator/nft.go:156-175 | whatever commands fail, all rules of an item are present after a sync if and only if they were before, or none was and all could be added |
| `FirewallTheorems.SyncIsSilent` | operator/nft.go:126-187 | a sync that recognises every rule and finds every item changes nothing, handles included |
| `FirewallRepeats.RunDrains` | operator/nft.go:182-187 | any syncs with any outcomes and any comments: each stale multiplicity is lower by their number, nothing else is deleted, nothing strange is added |
| `FirewallRepeats.SafeAfterRunIff` | operator/nft.go:45-190 | with any chain and comments, after as many syncs as the largest stale multiplicity nothing unwanted is accepted if and only if the chain had no impostor |
| `FirewallRepeats.RunCounts` | operator/nft.go:128-175 | with unambiguous comments, items that had rules keep their number after any syncs, the others have what was first written |
| `FirewallRepeats.WholeAfterRunIff` | operator/nft.go:156-175 | an item has all its rules after any syncs if and only if it had them, or had none and the first sync that wrote any wrote all |
| `FirewallRepeats.SyncsConverge` | operator/nft.go:45-190 | with unambiguous comments, if every item is complete then exactly the wanted packets are accepted once the stale rules are drained, and further syncs change nothing |
| `FirewallRepeats.SuccessesCompleteIff` | operator/nft.go:156-175 | without failures an item gets complete if and only if it had all of its rules or none |
| `FirewallRepeats.OwnOnlyGrows` | operator/nft.go:126-187 | with no assumption on comments, a sync of a chain of its own rules deletes nothing |
| `FirewallRepeats.FreshMeaning` | operator/nft.go:223-255 | from the chain the operator creates, comments arbitrary: nothing unwanted is accepted, and exactly the wanted packets are if the first sync did not fail |
| `FirewallRepeats.RepeatsFire` | operator/nft.go:128-137 | an item already written is written again if and only if an earlier comment is a prefix of its own |
| `FirewallRepeats.SyncsGrow` | operator/nft.go:126-148 | after `n` syncs the chain has all rules once and those of repeating items `n - 1` more times |
| `FirewallRepeats.FurtherSyncAdds` | operator/nft.go:126-148 | each further sync adds the rules of exactly the repeating items |
| `FirewallRepeats.FurtherSyncIsSilentIff` | operator/nft.go:126-148 | a further sync is silent if and only if no item repeats |
| `FirewallConfig.DestinationsAre` | operator/nft.go:46-59 | a name's destinations are the readable networks of the last rule of that name |
| `FirewallConfig.RouteItemWant` | operator/nft.go:303-316 | a route item accepts exactly packets from its address to its network, both of one family |
| `FirewallConfig.DnsItemWant` | operator/nft.go:259-290 | the DNS and HTTP item accepts exactly UDP 53 and TCP 80 and 443 from its address to an IPv6 server |
| `FirewallConfig.AddrItemsWant` | operator/nft.go:105-176 | the items of one address of a peer ask for exactly what the peer permits from that address |
| `FirewallConfig.ItemsWantIffPermitted` | operator/nft.go:95-178 | the enumeration asks for a packet if and only if the configuration permits it |
| `FirewallHistory.ConfigItemsWritable` | operator/nft.go:95-178 | every item of a configuration has a comment of the expected shape and at most two rules |
| `FirewallHistory.FirewallIsSafeIff` | operator/nft.go:237-237 | with any chain, comments and outcomes, after as many syncs as the largest stale multiplicity the default-drop chain accepts permitted packets only, if and only if no rule recognised at first was an intruder |
| `FirewallHistory.FirewallMeaning` | operator/nft.go:237-237 | with prefix-free comments and own rules, if every item is complete then exactly the permitted packets are accepted, and it stays that way |
| `FirewallHistory.MeaningWithoutFailures` | operator/nft.go:45-190 | without failures the chain means the configuration unless a pair was half-written before |
| `FirewallHistory.FreshFirewallMeaning` | operator/nft.go:223-255 | from the chain the operator creates, with no assumption on comments: accepted packets are permitted whatever fails, and exactly those if the first sync did not fail |
| `FirewallHistory.ChangeOverIff` | operator/nft.go:126-187 | with comments of the two configurations related in any way: syncs with any outcomes lead from the exact chain of one to that of the other if and only if the comments fit and the syncs suffice |
| `FirewallHistory.OneSyncSufficesIff` | operator/nft.go:88-91 | `n` syncs without failures suffice if and only if no dropped item has more than `n` rules |
| `FirewallHistory.RevokedStaysOpen` | operator/nft.go:128-137 | if a new comment is a prefix of an old item's, what that item's rules accept stays accepted after any syncs with any outcomes |
| `FirewallHistory.RevocationWorksIff` | operator/nft.go:126-187 | after enough syncs nothing unwanted is accepted if and only if every packet of a confused old rule is wanted anyway |
| `FirewallHistory.EditedDestinationStaysOpen` | operator/nft.go:126-137 | editing a destination from 1.10.0.0/16 to 11.0.0.0/16 leaves the former network open for good |
| `FirewallHistory.HistoryIsExactIff` | operator/nft.go:45-190 | over every history of configurations and outcomes, the chain is exact after every stage if and only if every stage fits the one before it and suffices for the change |
| `FirewallHistory.HistoryMeaning` | operator/nft.go:45-190 | after every history whose stages fit and suffice, the chain accepts exactly what the latest configuration permits |
| `FirewallHistory.SingleSyncsLoseHalfAPair` | operator/nft.go:88-91 | from the exact chain of any configuration with a DNS/HTTP pair: dropped by any configuration for one sync and wanted again by any third one with prefix-free comments, the pair is never whole again, whatever the outcomes |
| `RuleTexts.ItemsCarryTexts` | operator/nft.go:101-156 | the comment of every enumerated pair is `r` and the letters and digits of the source network and the destination or DNS server, also for legacy and unreadable addresses |
| `RuleTexts.PrefixFreeIff` | operator/nft.go:126-137 | the comments of a configuration are prefix-free if and only if of no two enumerated pairs the stripped texts of one start with those of the other |
| `RuleTexts.ReplacedPeerIff` | operator/nft.go:126-187 | a peer deleted and another one created with the same rule: one sync leads to exactly the new one's packets if and only if the old stripped texts do not start with the new ones |
| `FirewallRun.RunConcat` | operator/nft.go:95-178 | enumerating in pieces is enumerating the concatenation |
| `FirewallRun.Claim` | operator/nft.go:128-137 | the search loop removes exactly the recognised user data, in any order, and says whether there were any |
| `FirewallRun.SyncPair` | operator/nft.go:126-150 | the body of the destination loop is one step of the enumeration |
| `FirewallRun.SyncDns` | operator/nft.go:154-176 | the DNS and HTTP block is one step of the enumeration, also when the first or second command fails |
| `FirewallRun.SyncPeers` | operator/nft.go:95-178 | the nested loops run the enumeration of the configuration over the chain |
| `FirewallRun.ReadDestinations` | operator/nft.go:46-59 | the loop over access rules computes the destinations by name |
| `FirewallRun.IndexRules` | operator/nft.go:88-91 | the loop over rules remembers the last rule per user data |
| `FirewallRun.NftSync` | operator/nft.go:45-190 | the chain becomes what the specification says for the enumeration and some outcome of its commands; if the flush fails nothing is deleted |
| `ConcurrentFirewall.FlushDeletesUnwanted` | operator/nft.go:182-187 | under interference, a flush deletes exactly the rules its sync still remembers, and none that the configuration wants |
| `ConcurrentFirewall.StepKeepsSafe` | operator/nft.go:45-190 | with any comments, every command of every concurrent sync keeps handles and what all syncs remember sound, and no recognised rule disappears |
| `ConcurrentFirewall.FlushTakesOne` | operator/nft.go:182-187 | under interference, a flush takes exactly one rule of each stale user data |
| `ConcurrentFirewall.StepDrains` | operator/nft.go:83-91 | every sync in flight knows all stale user data, and their multiplicity is at most the first one less the number of completed syncs |
| `ConcurrentFirewall.ExecutionDrains` | operator/nft.go:182-187 | over every execution of one configuration, with any comments and failures, each completed sync has taken one rule of each stale user data |
| `ConcurrentFirewall.LookIsThorough` | operator/nft.go:128-137 | a sync that finds a comment in its outdated map leaves an item that has rules in the chain now |
| `ConcurrentFirewall.NotAbandonedAfter` | operator/nft.go:164-175 | without failures an item has all its rules, or none, or a sync that is still adding them |
| `ConcurrentFirewall.ExecutionIsLive` | operator/nft.go:45-190 | over every execution without failures, items passed by a sync have rules and no pair is abandoned half-written |
| `ConcurrentFirewall.RejectedAfterCompletion` | operator/nft.go:67-67 | a flush is rejected only if another sync has completed before |
| `ConcurrentFirewall.WantedRulesStay` | operator/nft.go:126-187 | over every execution, with any comments, failures and aborts, a rule the configuration recognises is never deleted |
| `ConcurrentFirewall.NothingIsStrange` | operator/nft.go:144-175 | over every execution the chain holds only former rules and rules written for items |
| `ConcurrentFirewall.InterleavedSyncsAreSafeIff` | operator/wga.go:274-300 | with any chain, comments, interleaving and failures: once enough syncs have completed, only permitted packets are accepted if and only if no rule recognised at first was an intruder |
| `ConcurrentFirewall.InterleavedRuleSyncs` | operator/wga.go:274-300 | with prefix-free comments and without failures, exactly the permitted packets are accepted whenever enough syncs have completed and none is in flight |
| `ConcurrentFirewall.StepKeepsOrderly` | operator/nft.go:45-190 | with syncs of any configurations, what every sync remembers has its user data, means no other rule, and is recognised by no item it has passed |
| `ConcurrentFirewall.StepGrows` | operator/nft.go:126-187 | no step deletes a rule that a configuration recognises unless it is a flush of another one |
| `ChangingFirewall.StepDrainsSince` | operator/nft.go:83-91 | after the last write of any other configuration, each sync begun since knows all stale user data and takes one rule of each, whatever earlier syncs still remember |
| `ChangingFirewall.NewestRulesWinIff` | operator/wga.go:147-150 | with any chain, comments, interleaving and failures: after the last write of any other configuration and enough completed syncs begun since, only permitted packets are accepted if and only if no rule recognised back then was an intruder |
| `ChangingFirewall.StepKeepsExactIff` | operator/wga.go:147-150 | on the list of rules: exactness for one configuration survives a step of a sync of any configuration if and only if the step adds no rule and deletes none, not even one that changes no accepted packet |
| `ChangingFirewall.StaysExactIff` | operator/wga.go:274-300 | on the list of rules: over every execution with several configurations, the chain stays exact for one of them if and only if no step adds or deletes a rule |
| `ChangingFirewall.OlderRulesCanWin` | operator/wga.go:274-300 | an execution in which a sync of an older configuration deletes the rules of a newer one that has completed |
| `LeftOverRules.FreshSyncLands` | operator/nft.go:45-190 | a sync whose commands run without interference is the sequential sync |
| `LeftOverRules.StepLands` | operator/nft.go:126-175 | each command of a sync leads to the state from which its rest has the same result |
| `LeftOverRules.RestLands` | operator/nft.go:126-190 | in every execution in which the others leave the chain alone, the rest of a sync has the result it has alone, with the outcomes its commands had |
| `LeftOverRules.RunEffect` | operator/nft.go:126-148 | from any, however outdated, map: the enumeration adds the matches of exactly the items whose comments the map no longer has, and leaves the user data no item recognises |
| `LeftOverRules.LandedAccepts` | operator/nft.go:126-187 | after the rest of a sync a packet is accepted if and only if a rule that stays or one that is added hits it |
| `LeftOverRules.LeftOverSyncHarmlessIff` | operator/wga.go:274-300 | what is left of a sync of any configuration keeps a chain right on every packet if and only if it adds only matches that hit wanted packets and deletes only rules whose packets another rule hits |
| `LeftOverRules.LeftOverSyncInExecution` | operator/wga.go:274-300 | the same for every execution with several configurations in which the others leave the chain alone until the sync ends |
| `PeerAccess.LastAskerLists` | operator/wga.go:377-438 | a key asks for an address if and only if the last peer with that key lists it |
| `PeerAccess.HolderOfChoice` | operator/wga.go:513-519 | from an empty device a sync can end with any desired key holding all addresses it asks for |
| `PeerAccess.AccessIsRightIff` | operator/wga.go:274-300 | on every device a sync may leave and with a chain that means the configuration: from each key exactly the packets get through that its peer is permitted, if and only if the configuration is separate |
| `PeerAccess.OneListingIsSeparate` | operator/wga.go:381-410 | a configuration in which no address is listed by two peers is separate |
| `PeerAccess.UnreadableKeyLendsAccess` | operator/wga.go:412-426 | a clean configuration in which the holder of an address may use the rules of a peer whose key is unreadable |
| `PeerAccess.AccessAfterHistory` | operator/wga.go:274-300 | after every history of peer syncs, the last complete, and of fitting and sufficient rule syncs: from each key exactly what the latest, separate configuration permits its peer |
| `AddressIndex.GenerateIndex` | operator/wga.go:541-561 | the in-place shift, or, add and remainder compute the closed form `(t * 2^s + 2 * r) rem 2^mask`; a mask of 128 or more is refused |
| `AddressIndex.IndexIs` | operator/wga.go:551-560 | the index in numbers: `max(16, mask - 64)` random bits below the time |
| `AddressIndex.OrShifted` | operator/wga.go:555-556 | or-ing into zeroed low bits is addition, also for negative numbers |
| `AddressIndex.RandBoundIs` | operator/wga.go:551-552 | the bound of the random source is positive for every mask below 128, although `1 << 63` wraps |
| `AddressIndex.IndexBound` | operator/wga_test.go:13-14 | the index lies in `[0, 2^mask)` for every non-negative time; in general, exactly when it is negative |
| `AddressIndex.EqualIndicesIff` | operator/wga.go:541-561 | two indices are equal if and only if their shifted sums differ by a multiple of `2^mask` |
| `AddressIndex.CollisionIff` | operator/wga.go:546-559 | for every mask below 128, two times can collide for some draws if and only if the mask is below 16 or their distance modulo the period is 0, 1 or -1; the period is `2^(mask - 16)` below 80 host bits and `2^64` from there on |
| `AddressIndex.SmallMaskForgetsTime` | operator/wga.go:551-559 | with a mask below 16 the index does not depend on the time |
| `AddressIndex.NoCollisionInWindow` | operator/wga.go:539-540 | at least 2 ticks and less than a period less 1 apart, no two draws collide |
| `AddressIndex.IndexGrows` | operator/wga.go:546-559 | with at least 80 host bits the index grows strictly with time at any gap of 2 ticks |
| `AddressIndex.IndexExact` | operator/wga.go:546-559 | with at least 80 host bits nothing wraps: the index is the time shifted by `mask - 64` plus twice the draw |
| `PeerAddresses.SplitV6` | operator/wga.go:184-190 | the loop selects the IPv6 client networks in order |
| `PeerAddresses.PickAddress` | operator/wga.go:192-220 | the generated address; without IPv6 client networks the reconcile panics |
| `PeerAddresses.ReconcilePeer` | operator/wga.go:161-238 | the reconcile over a possibly outdated copy, both of its updates, and every failure between them |
| `PeerAddresses.FreshOutcome` | operator/wga.go:184-222 | a reconcile of a peer without addresses panics without an IPv6 client network or with one of 128 host bits, and otherwise assigns base plus index of the picked network |
| `PeerAddresses.AnyNetCanBePicked` | operator/wga.go:195-195 | every IPv6 client network can be picked |
| `PeerAddresses.LegacyAddressFate` | operator/wga.go:167-236 | the migrated legacy address is kept exactly when the migration is stored and the rest fails |
| `PeerAddresses.LaterAddressDiffers` | operator/wga.go:194-202 | addresses generated at least 2 ticks apart differ, within one network and across networks |
| `PeerAddresses.LogIsGenerated` | operator/wga.go:161-239 | over every run, every stored address was generated at its own time in a client network |
| `PeerAddresses.AddressesNeverCollide` | operator/wga.go:184-222 | over every run all addresses ever assigned lie in the client networks, and they are pairwise distinct if the assigning calls read the clock 2 ns apart, in whatever order |
| `PeerAddresses.StoredIsLogged` | operator/wga.go:172-236 | over every run: an assigned address is what the status holds, as `Address` and only element of `Addresses`, with the DNS servers; a reconcile changes a status in no other way but by migrating a legacy address |
| `PeerAddresses.StoredAddressesDiffer` | operator/wga.go:194-222 | over every run, what any two assignments store differs as text, and both are addresses of client networks |
| `PeerAddresses.RunsStayCoherent` | operator/wga.go:172-176 | over every run a cached copy with the current version is the current object |
| `PeerAddresses.AddressesAreStable` | operator/wga.go:163-165 | over every run, edits and stale caches included, a reconcile never changes a status with addresses, and stores `Address` equal to `Addresses[0]` |
| `LoadBalancer.JoinSplit` | operator/lbc.go:133-133 | splitting the annotation at commas loses nothing |
| `LoadBalancer.ReadIps` | operator/lbc.go:133-141 | the loop reads all requested IPs or stops at the first unreadable one |
| `LoadBalancer.ParseStops` | operator/lbc.go:135-138 | one unreadable IP makes the whole request terminal |
| `LoadBalancer.FindConflict` | operator/lbc.go:151-185 | the nested loops find a conflict if and only if another service has one of the IPs |
| `LoadBalancer.ChooseIps` | operator/lbc.go:122-142 | generated or requested IPs, with the panic, the retry and the terminal error |
| `LoadBalancer.BuildIngress` | operator/lbc.go:196-201 | one ingress entry per IP, in order, with the service's ports |
| `LoadBalancer.ReconcileService` | operator/lbc.go:114-219 | the stored service and the outcome of one reconcile |
| `LoadBalancer.AssignedIsFree` | operator/lbc.go:151-185 | an assigned IP is in no other service of the list, of whatever class |
| `LoadBalancer.AssignedMeans` | operator/lbc.go:122-201 | an assigned service has exactly the requested IPs in order, or one IP of the first service network, each with its ports; any other outcome leaves the ingress alone |
| `LoadBalancer.GeneratedMeans` | operator/lbc.go:124-131 | without a request the one IP is the base of the first network plus the index for the clock and the draw |
| `LoadBalancer.GeneratedOutcome` | operator/lbc.go:124-163 | a generated IP is assigned if and only if no other listed service has it and the update is taken, and is otherwise retried without a condition; without a usable network the reconcile panics |
| `LoadBalancer.GeneratedIsFree` | operator/lbc.go:124-163 | if all other IPs were generated within the window, the service gets its IP at the first attempt |
| `LoadBalancer.RequestIsRejected` | operator/lbc.go:164-181 | a requested IP that is taken is rejected with the condition the first time the update is taken, and retried without another one after that |
| `LoadBalancer.TerminalIff` | operator/lbc.go:133-138 | a request is refused for good, with nothing stored, if and only if a part of it is no IP |
| `LoadBalancer.ConditionsOverEveryRun` | operator/lbc.go:164-211 | over every run, whatever lists are read, conditions are one of the four lists, ready last exactly when assigned |
| `LoadBalancer.EventKeepsUniqueIff` | operator/lbc.go:145-201 | for every list a reconcile may have read: it keeps IPs unique if and only if a wanted IP that another of our services has shows as a conflict |
| `LoadBalancer.UniqueOverEveryRunIff` | operator/lbc.go:145-213 | over every run, whatever lists are read, no two of our services ever share an IP if and only if every reconcile was safe |
| `LoadBalancer.UniqueOverEveryRun` | operator/lbc.go:145-213 | IPs are unique over every run whose lists show the IPs assigned so far, however outdated they are otherwise |
| `LoadBalancer.AssignmentIsFinal` | operator/lbc.go:116-118 | over every run an assigned service keeps its ingress and conditions |
| `LoadBalancer.StaleListsAssignTwice` | operator/lbc.go:145-149 | two services that ask for the same IPs, each reading a list without the other's, are both given them |
| `LoadBalancer.RequestIsGrantedIff` | operator/lbc.go:133-201 | a readable request is granted if and only if the service has no IP yet, no other listed service has one of the requested ones, and the update is taken |
| `ClusterLinks.ReadableIff` | operator/wgc.go:389-442 | a client is readable if and only if its endpoint is, its preshared key text is empty or readable, and its address is one in either notation |
| `ClusterLinks.LinksAfterDomain` | operator/wgc.go:361-376 | the links after the clients: the former ones and one per client; others are untouched |
| `ClusterLinks.LinksAfterClient` | operator/wgc.go:417-422 | a client's interface is configured with every peer accumulated up to it |
| `ClusterLinks.RoutesAfterAre` | operator/wgc.go:465-496 | a destination leads to the last client that wants it; a default route nowhere; an unwanted one stays if its link is no client's |
| `ClusterLinks.LinksAreExact` | operator/wgc.go:340-509 | a successful sync leaves exactly the clients' links and the foreign ones, the latter untouched, the former up, with the client's key and exactly its one address: a bare one with mask 32 or 128, or one with its prefix length |
| `ClusterLinks.RoutesAreExact` | operator/wgc.go:465-506 | a successful sync leaves exactly the wanted routes and those of foreign links |
| `ClusterLinks.SyncedIsValid` | operator/wgc.go:500-506 | afterwards every route leads to a link that exists |
| `ClusterLinks.RouteOfClientIff` | operator/wgc.go:481-494 | a destination leads to a client's link if and only if that client is the last to want it and it is no default route |
| `ClusterLinks.RouteSetExactIff` | operator/wgc.go:465-496 | a client's link has exactly its routes if and only if none is a default route or wanted by a later client |
| `ClusterLinks.StartDoesNotMatter` | operator/wgc.go:447-496 | a client's address and route set do not depend on the links, addresses and routes at the start |
| `ClusterLinks.ApplyAllKeys` | operator/wgc.go:419-422 | configuring never removes a peer from an interface |
| `ClusterLinks.OwnServerOnlyIff` | operator/wgc.go:417-417 | a new interface has just its own server if and only if everything accumulated has the same key |
| `ClusterLinks.ServerEntryEffect` | operator/wgc.go:396-415 | one server entry gives its peer exactly the client's routes and takes them from all others |
| `ClusterLinks.OwnServerIsRouted` | operator/wgc.go:396-422 | whatever was accumulated, the client's own server ends with exactly the client's routes; a preshared key or keepalive that is no longer configured is not cleared |
| `ClusterLinksRun.SyncAddrs` | operator/wgc.go:447-463 | the address loop leaves exactly the one address, in any order of deletion, and other links' routes alone |
| `ClusterLinksRun.PlaceRoutes` | operator/wgc.go:465-473 | the first route loop places every wanted route on the link, wherever it was |
| `ClusterLinksRun.IsUnwanted` | operator/wgc.go:482-487 | the comparison on destination text: wanted, and not a default route |
| `ClusterLinksRun.RemoveRoutes` | operator/wgc.go:475-496 | the second route loop removes exactly the unwanted routes of the link, in any order; a default route on it makes it fail if the library refuses to delete one |
| `ClusterLinksRun.SyncRoutes` | operator/wgc.go:465-496 | both loops leave the link with its wanted routes and keep unwanted routes of other links, also when a command fails |
| `ClusterLinksRun.EnsureLink` | operator/wgc.go:362-376 | a managed link is reused, a missing one created, a foreign one of that name refused |
| `ClusterLinksRun.ConfigureClient` | operator/wgc.go:389-427 | endpoint and preshared key are read before the peer is appended and the device configured; a failure leaves a prefix of the accumulated peers applied |
| `ClusterLinksRun.AddressClient` | operator/wgc.go:429-463 | a bare address gets the mask 32 or 128 of its family, otherwise the text must have a prefix length; the link has that address alone |
| `ClusterLinksRun.SyncClient` | operator/wgc.go:361-496 | one round for one client, and what it may have touched if it fails half way |
| `ClusterLinksRun.WgcSync` | operator/wgc.go:340-509 | on a reliable kernel, success if and only if the clients are syncable and default routes can be deleted or are out of the way; the host is then as specified, each client's link up with its one address; foreign links and their unwanted routes are kept even on failure |
| `ClusterLinksRun.DeleteLeftovers` | operator/wgc.go:500-506 | the leftovers are deleted in any order; a failure leaves some of them |
| `ClusterStatus.KeyComesFrom` | operator/wgc.go:148-210 | the first entry of the node decides; an inline key comes before a secret; a default replaces each empty part of the secret's name, and only those |
| `ClusterStatus.UpsertEffect` | operator/wgc.go:222-240 | an upsert sets its own entry in place or appends it, touches no other, and never doubles one |
| `ClusterStatus.ClientObject.Upsert` | operator/wgc.go:222-240 | the loop with its early exit is the upsert; a write is due if anything changed or the key is in a secret |
| `ClusterStatus.FindSpec` | operator/wgc.go:148-158 | the first node entry of that name |
| `ClusterStatus.GetOrCreate` | operator/wgc.go:178-204 | an existing secret is never overwritten, also when reading it fails and when others create it in between |
| `ClusterStatus.PrivateKey` | operator/wgc.go:160-212 | the private key comes from the spec, or from the named or default secret |
| `ClusterStatus.ReconcileStatus` | operator/wgc.go:131-248 | one reconcile with interference between any two calls: a write is due exactly if the entry was not right or the key is not inline; it goes through only if nobody else wrote, sets the node's entry to the public key of its private key and no other; otherwise nothing is written |
| `ClusterStatus.StepKeepsInvariant` | operator/wgc.go:178-248 | every step of every process keeps one entry per node, and every process holds an old object or the current one |
| `ClusterStatus.StepOnEntry` | operator/wgc.go:242-248 | a write makes its own node's entry right; every other step leaves that entry alone |
| `ClusterStatus.NoEntryIsLost` | operator/wgc.go:242-248 | over every execution a node's entry changes only by that node's own writes, never disappears, and is never doubled |
| `ClusterStatus.WrittenStaysRight` | operator/wgc.go:222-248 | over every execution, once a node has written, its entry is the public key of its private key until the spec moves that key |
| `ClusterStatus.SecretsAreFinal` | operator/wgc.go:183-202 | over every execution a secret, once there, is never changed |
| `ClusterStatus.DefaultSecretsCollideIff` | operator/wgc.go:172-176 | two default secret names are equal if and only if the longer client name continues the shorter one with the start of the node name |

## Left out

- Controller registration, managers, event filters, health checks, logging, flags and environment: plumbing.
- `Fetch`, `sysctl`, table and chain creation, node labels: single branches without state of their own.
- Peer files, the command line and configuration printing: a template without a parser.
- Endpoints and private keys of the WireGuard devices, and the kernel's refusal of a peer with the device's own public key: no property of the operator depends on them.
- Name length limits of interfaces, and the kernel's deletion of secondary IPv4 addresses along with their primary one.
- `nft` rules hold the comment only up to the length limit of `nft`; the address texts here are far below it.
- The loop of `ClusterClientReconciler.Reconcile` over several cluster clients: `ReconcileStatus` is one round of it, `WgcSync` what follows with the peers it collected.
- `AddressesNeverCollide`: assumes clock readings of assigning calls that are pairwise at least 2 ns apart, non-negative and within `int64`, and disjoint IPv6 client networks with 80 to 127 host bits, as the design does.
- `InterleavedSyncsConverge`: is about syncs that fetched one configuration; several are the subject of `NewestConfigurationWins`, `StaleEntryHarmlessIff`, `StaleFlightHarmlessIff` and `OlderConfigurationCanWin`.
- `StaleFlightHarmlessIff`: is about configurations without shared addresses, because with shared ones a later entry of the same sync can repair what an earlier one did (`SharedAddressIsRepaired`).
- `HistoryIsExactIff`: is about configurations each of which has prefix-free comments in itself, because one that repeats a pair grows its chain with every sync (`SyncsGrow`).
- `InterleavedRuleSyncs`: is about syncs of one configuration; several are the subject of `NewestRulesWinIff`, `LeftOverSyncInExecution` and `OlderRulesCanWin`.
- `NewestRulesWinIff`: is about safety; a pair that a sync cut short has left half-written is not completed by later ones (`WholeAfterRunIff`).
- `LeftOverSyncInExecution`: leaves out rules that other syncs add or delete while the rest of the sync runs.
- `WgcSync`: the necessity of having no default routes is stated for kernels that add none by themselves, as for an address with a prefix length of zero.
- The event filters of the controllers (such as operator/lbc.go:40-79): they decide when a reconcile runs, and the runs here allow any moment.
- `SecretsAreFinal`: does not model users who delete or edit secrets.
