# Verified model of the flannel network plugin's control plane

Many nodes run this control plane at the same time.  They coordinate only through guarded etcd
transactions and keep fast in-memory copies of what etcd holds.  This project models the parts where
that is hard to get right and proves what they promise, for all inputs, all runs and whatever the other
nodes do in between.

`dafny verify dfyconfig.toml` checks everything.

## How the model is laid out

| module | part of the system |
|---|---|
| `Common` | options, lists without duplicates |
| `Etcd` | guarded transactions, and a server object whose other clients are a parameter |
| `AllocationProtocol`, `AllocationClient`, `AllocationCodec`, `Text` | the four-key record of an IP address, the transactions on it, its text form and the decoder |
| `Pool` | the IP pool with its cache `allocatedIPs` / `unusedIPs` |
| `SubnetProtocol`, `AddressSpace`, `Subnets` | subnets reserved by racing nodes, a node's own bookkeeping, and how the space is cut |
| `FlannelConfig` | the create-once network configuration |
| `Notifications`, `Stores`, `DockerTypes` | the replicated stores, what listeners hear, and the `Equals` relations |
| `ShardedStore` | the sharded store and its flat index |
| `Fwmarks` | the two-way registry of firewall marks |
| `DnsIndex`, `Resolver` | the inverted index of names and the name search |
| `Ipv4` | byte-wise address arithmetic and host enumeration |

Assumptions about etcd (module `Etcd`): a transaction is one atomic step; `CreateRevision(k) = 0` holds
exactly when `k` is absent; a comparison of the value of an absent key is false, for `!=` as well as `=`;
the delete of a prefix is one step.  `Server.rely` says what the other clients may do between two calls:
theorems about interference leave it open, theorems about a single writer (`Server.Quiet()`) set it to
the identity and let no call fail.  A failed call may or may not have been carried out.

Protocols of many clients are also modelled as runs: sequences of states in which every step is one
transaction of any client.  The methods of the allocation, subnet, configuration and mark protocols are
tied to these steps by their contracts: each returns, as ghost results, the contents that its
transactions met, from the contents at its start on, one reachable from the other by what the other
clients may do, and says which of the protocol's steps it took there.  Whole sequences of calls are
methods too (`Pool.RunOperations`, `Stores.RunReadOnly`, `Stores.RunWriteOnly`): they return every
intermediate state, each related to the next one by the operation in between.

Clocks, randomness, CRC32 and JSON are parameters: the time is an argument, a random choice is an
arbitrary one, CRC32 is any function into 32 bits, JSON and RFC 3339 (section 5.6) texts are any
encodings that can be read back.  Maps are walked in an arbitrary order.

## What the code does differently from what one might expect

Each of these is proved, with the exact condition where there is one.

- A refused release of an address indexes an empty reply, and so panics, exactly when the record is gone
  (`AllocationClient.ReleaseAllocation`).  A pool that is the only writer never gets there
  (`Pool.InSyncInEveryRun`), and neither does a release of the pool's own container and service addresses
  as long as the others leave these alone (`Pool.OwnedInEveryRun`).
- A pool asks for the same addresses forever, whatever it picks, exactly when it believes some address
  to be unused and none of those it offers can be granted: it does not look at etcd again while it has
  any (`Pool.SpinsForeverIff`, and `Pool.StalePoolSpins` for an input); freshly reloaded it never does
  (`Pool.ReloadedDoesNotSpin`).
- A PUT event of the subnet watch makes two cached pools share a subnet exactly when the subnet is
  cached under another id (`AddressSpace.PutKeepsInjectiveIff`).
- Two nodes can succeed with different network configurations only if a configuration was deleted in
  between (`FlannelConfig.DisagreementNeedsDeletion`), and then they can
  (`FlannelConfig.DeletionBreaksAgreement`); the agreement covers the network only, not the VNI
  (`FlannelConfig.VniMayDiffer`).
- `ServiceInfo.Equals` ignores the endpoint mode and the networks, so listeners keep an old service
  exactly when only those change (`DockerTypes.ServiceReplicaIsExactIff`).
- A write-only store changes its map even when the write fails, and then tells nobody; listeners are out
  of step exactly when there was something to tell (`Notifications.WithheldDiffIff`).
- A put that reports success has stored its value exactly if the key was not deleted between its two
  transactions (`Stores.PutStoresIff`).
- A value that cannot be decoded leaves a reading store with the old item exactly when there was one
  (`Stores.FollowingTheWatchIff`).
- A synchronisation of the sharded store publishes the local items exactly if etcd already had something
  of the local shard, or there is nothing to publish
  (`ShardedStore.ShardedDistributedStore.Synchronize`).
- A shard of another node that has vanished from etcd stays in the sharded store, so a synchronisation
  leaves the shards as they should be exactly when every known one still has a key
  (`ShardedStore.SyncedShardsAreCurrentIff`), and the index exactly when none with items has vanished
  (`ShardedStore.SyncedIndexIsCurrentIff`).
- Deleting a local item from the sharded store removes it from the flat index even if another shard has
  an item of the same id (`ShardedStore.DeleteKeepsFlatIff`).
- A release of a firewall mark that does not match the registry is reported as a success
  (`Fwmarks.FwmarksManagement.ReleaseMark`: `errors.WithMessagef` of a nil error is nil).
- A clean-up of firewall marks goes on when a delete fails; it leaves the registry inverse exactly when
  the deletes that failed are those of whole pairs (`Fwmarks.PartialSweepKeepsInverseIff`,
  `Fwmarks.FwmarksManagement.CleanUpStaleFwmarks`).
- A clean-up reports one mark per stale service, so all of them exactly when no stale service had two
  different ones (`Fwmarks.AllMarksReportedIff`, and `Fwmarks.OneMarkOfTwoIsReported` for an input).
- Updating a container in the resolver keeps answering the old address of a name it retains exactly when
  that address changed (`DnsIndex.UpdateReplacesIff`).
- For the prefix length 0 the host enumeration never ends, since every address is contained
  (`Ipv4.WholeSpaceContainsAll`).
- A pool size beyond 32 is an error only if the shift count is at most 62; otherwise the list of subnets
  is empty without an error (`Subnets.GenerateAllSubnets`).

## Model

| member | source | states |
|---|---|---|
| `AllocationProtocol.GuardMeaning` | plugin/pkg/ipam/pool_etcd.go:119-187 | on well-shaped records each guard of each request lets it through exactly for the holders it is meant for |
| `AllocationProtocol.ReleaseMeaning` | plugin/pkg/ipam/pool_etcd.go:54-74 | a release commits exactly when it names the type and the data of the present holder |
| `AllocationProtocol.StepKeepsShape` | plugin/pkg/ipam/pool_etcd.go:48-229 | every transaction keeps every record empty, reserved, container with a MAC only or service with an id only, and moves the holder as specified |
| `AllocationProtocol.ShapeInEveryRun` | plugin/pkg/ipam/pool_etcd.go:48-229 | the record shape in every state of every interleaved run |
| `AllocationProtocol.UnexpectedGuardIsDead` | plugin/pkg/ipam/pool_etcd.go:135-139 | the guard commented as impossible never fires in any run |
| `AllocationProtocol.OwnerStays` | plugin/pkg/ipam/pool_etcd.go:48-229 | the owner of an address stays until a release naming it, or a delete-all, commits |
| `AllocationProtocol.ExclusiveOwnership` | plugin/pkg/ipam/pool_etcd.go:48-229 | a later grant to somebody else, or as a reservation, needs such a release or delete-all in between |
| `AllocationProtocol.CallMeaning` | plugin/pkg/ipam/pool_etcd.go:119-187 | undisturbed, some guard holds exactly when the address is free, reserved and wanted for more, or ours already |
| `AllocationClient.AllocateByCondition` | plugin/pkg/ipam/pool_etcd.go:189-229 | the guards are tried in order, each on the contents it met after the others had acted; success means that this guard passed there and wrote exactly the record, which the caller is told with the time of the call, refusal that all failed; as the only writer it succeeds exactly when some guard holds |
| `AllocationClient.ReleaseAllocation` | plugin/pkg/ipam/pool_etcd.go:48-117 | released exactly when the transaction committed on the contents met there, otherwise the record that was there, or a panic exactly when one of the two indexed keys is missing, which on well-shaped contents means that the record is gone |
| `AllocationClient.StableOverCall` | plugin/pkg/ipam/pool_etcd.go:205-225 | whatever the others and the tries keep holds in every contents a call meets and leaves |
| `AllocationClient.GrantTakesFromNobodyElse` | plugin/pkg/ipam/pool_etcd.go:119-187 | a granted request took the address from nobody, from a reservation or from the same owner, and moved no other address |
| `AllocationClient.DecodeAfterGrant` | plugin/pkg/ipam/pool_etcd.go:189-229 | after a grant the decoded allocations gain exactly the granted one, its time the start of the second in which it was made |
| `AllocationClient.DecodeAfterRelease` | plugin/pkg/ipam/pool_etcd.go:67-74 | after a release the decoded allocations lose exactly that address |
| `AllocationClient.DecodedRecordCanBeReleased` | plugin/pkg/ipam/pool_etcd.go:54-74 | a release of what was decoded passes its guards |
| `AllocationCodec.EntryIsAbsorbed` | plugin/pkg/ipam/pool_etcd.go:254-302 | the text of any key and value a transaction writes updates exactly its field of its address, through trimming, splitting and IP parsing |
| `AllocationCodec.DecodeOneMoreKey` | plugin/pkg/ipam/pool_etcd.go:266-298 | one more key turns the decoding of a part of a store into the decoding of the larger part |
| `AllocationCodec.GetAllocationsByPrefix` | plugin/pkg/ipam/pool_etcd.go:246-309 | for every order of the keys the result is the decoding of the whole store, and for every store the protocol can reach exactly its records |
| `AllocationCodec.ShapedTextTellsRecords` | plugin/pkg/ipam/pool_etcd.go:246-309 | the text of any well-shaped store decodes to exactly the records the cache is compared with |
| `AllocationCodec.TextMeansRecords` | plugin/pkg/ipam/pool_etcd.go:246-309 | the textual decoding is the one the pool's cache is compared with |
| `AllocationCodec.EncodeDecode` | plugin/pkg/ipam/pool_etcd.go:19-37 | what the grants of any set of allocations write decodes to exactly these allocations: addresses, type texts, data and data keys, each time cut to the start of its second |
| `AllocationCodec.GrantWritesText` | plugin/pkg/ipam/pool_etcd.go:189-204 | the exact key and value texts a grant writes, for the dotted address of its bytes and the second it is made in |
| `AllocationCodec.OtherNameIsSkipped` | plugin/pkg/ipam/pool_etcd.go:258-264 | a key that is not the dotted text of four bytes is ignored by the decoder |
| `AllocationCodec.OtherFieldIsSkipped` | plugin/pkg/ipam/pool_etcd.go:271-302 | so is a field no record has, and a time that cannot be read |
| `AllocationCodec.PrefixIsSkipped` | plugin/pkg/ipam/pool_etcd.go:254-264 | so is the prefix itself |
| `AllocationCodec.NestedIsSkipped` | plugin/pkg/ipam/pool_etcd.go:271-275 | so is every key nested deeper |
| `Text.ParseFormatIp` | plugin/pkg/ipam/pool_etcd.go:259-264 | the dotted text of every address parses back to it |
| `Text.ParseIpIff` | plugin/pkg/ipam/pool_etcd.go:259-264 | a text is read as an address exactly if it is the dotted text of that address |
| `Ipv4.TextOfBytes` | plugin/pkg/ipam/pool_etcd.go:259-264 | that text is the decimal texts of the four bytes, most significant first, with dots between them |
| `Pool.EtcdPool.SyncIPs` | plugin/pkg/ipam/pool.go:272-291 | the cache becomes the decoded contents, the unused addresses the rest of the pool; a failed read changes nothing |
| `Pool.EtcdPool.GetAvailableUnusedIPs` | plugin/pkg/ipam/pool.go:293-325 | offered are exactly the addresses unused for more than 300 seconds or, if there are none, all unused ones; a reload exactly when nothing is unused |
| `Pool.EtcdPool.AllocateFreeIP` | plugin/pkg/ipam/pool.go:184-217 | all that a search does under interference: a reload exactly when nothing is unused, then calls for offered addresses, each starting where the last one ended, all but the last refused by every guard; the answer and the new cache follow from the last call |
| `Pool.EtcdPool.TryAddress` | plugin/pkg/ipam/pool.go:203-215 | one call on contents reachable from those at its start, and its bookkeeping: the two maps move exactly on success |
| `Pool.EtcdPool.ReserveIP` | plugin/pkg/ipam/pool.go:102-109 | such a search for a reservation |
| `Pool.EtcdPool.AllocateIP` | plugin/pkg/ipam/pool.go:111-182 | the call for the preferred address comes first if it lies in the subnet, and such a search follows exactly if that call is refused |
| `Pool.EtcdPool.ReleaseIPIfReserved` | plugin/pkg/ipam/pool.go:231-258 | every outcome with its cache entry, on contents reachable from those at the start |
| `Pool.EtcdPool.ReleaseAllIPs` | plugin/pkg/ipam/pool.go:260-270 | success means that everything was deleted and what the others wrote since was loaded; a failed call leaves the cache alone |
| `Pool.CachedHolder` | plugin/pkg/ipam/pool.go:58-67 | in step with etcd, a cached allocation names the holder of the address there |
| `Pool.PoolCounts` | plugin/pkg/ipam/pool.go:76-95 | allocated and unused addresses add up to the pool, for a proper subnet to 2^(32-n) - 3, or 0 for the smallest |
| `Pool.NewEtcdBasedAddressPool` | plugin/pkg/ipam/pool.go:76-95 | a pool for exactly the hosts of its subnet, host bits in the base or not, holding what etcd holds; none only if etcd cannot be read |
| `Pool.RunOperations` | plugin/pkg/ipam/pool.go:102-291 | for every sequence of operations: the answers, the contents met, and every state from the first to the last, each consecutive pair related by all that its operation does |
| `Pool.PartitionInEveryRun` | plugin/pkg/ipam/pool.go:102-291 | whatever the others do, every state of every run is partitioned, failure branches included |
| `Pool.ClosedInEveryRun` | plugin/pkg/ipam/pool.go:102-291 | if only the pool's addresses are stored or preferred, every state covers exactly the pool |
| `Pool.InSyncInEveryRun` | plugin/pkg/ipam/pool.go:102-291 | as the only writer the cache equals the decoded contents in every state, every step is exactly determined but for the choice among offered addresses, nothing is retried in vain, no release fails, mismatches or panics |
| `Pool.OwnedInEveryRun` | plugin/pkg/ipam/pool.go:102-291 | while the others follow the protocol and leave our owners alone, every cached address of ours is ours in etcd and every release of one commits |
| `Pool.QuarantineInEveryRun` | plugin/pkg/ipam/pool.go:293-325 | over every run, whatever the others do: an address released at t is given out by a search up to t + 300 seconds only if no unused address has been so for longer than that |
| `Pool.ForeignStepRespects` | plugin/pkg/ipam/pool_etcd.go:48-229 | every transaction of another client but a delete-all or a release naming one of ours leaves our owners alone |
| `Pool.StepKeeps` | plugin/pkg/ipam/pool.go:102-291 | every operation keeps the partition, the exact coverage, the record shape and the ownership of our addresses |
| `Pool.StepSparesOthers` | plugin/pkg/ipam/pool.go:102-258 | no operation takes an address from another pool's containers and services, but a release of everything or of what the cache has for them |
| `Pool.RunSparesOthers` | plugin/pkg/ipam/pool.go:102-258 | the same over every run, so pools that keep to their own satisfy what they rely on |
| `Pool.AllocatedFromNobodyElse` | plugin/pkg/ipam/pool.go:102-217 | an allocated address was nobody's, a reservation or the caller's already on the contents that the granted guard met, and is the caller's after |
| `Pool.SpinsForeverIff` | plugin/pkg/ipam/pool.go:184-217 | every outcome of a call is that it gives up, exactly when some address is believed unused and no offered one can be granted |
| `Pool.StalePoolSpins` | plugin/pkg/ipam/pool.go:184-217 | a stale pool for which that is so |
| `Pool.UndisturbedSearch` | plugin/pkg/ipam/pool.go:184-217 | undisturbed, a search is a sequence of refused picks and a granted one |
| `Pool.ReloadedDoesNotSpin` | plugin/pkg/ipam/pool.go:300-309 | every address offered after a reload can be granted |
| `Pool.InSyncTakesFree` | plugin/pkg/ipam/pool.go:184-217 | alone and in step, the first pick succeeds and the cache stays in step |
| `SubnetProtocol.StepMeaning` | plugin/pkg/ipam/address_space_etcd.go:54-105 | a reservation succeeds exactly when the subnet is free or held by the same pool, a release exactly when the pool holds it; each changes at most that one key, as told |
| `SubnetProtocol.SubnetSafety` | plugin/pkg/ipam/address_space_etcd.go:54-105 | a subnet reserved for X and later for Y was released by X in between, in every interleaved run |
| `AddressSpace.EtcdAddressSpace.GetOrAddPool` | plugin/pkg/ipam/address_space.go:108-145 | listed subnets are asked for in order, each found held by another pool on the contents met; without a failing call an answer; undisturbed the first listed subnet that is free or ours, and none exactly when there is none |
| `AddressSpace.EtcdAddressSpace.ReserveFirstFree` | plugin/pkg/ipam/address_space.go:112-133 | the reservation loop shortens the list each pass and records whom it met; an error only for a failing call |
| `AddressSpace.EtcdAddressSpace.ReleasePool` | plugin/pkg/ipam/address_space.go:147-170 | the answer is determined by the contents met: released if gone or ours, otherwise the pool that holds it; every outcome with its bookkeeping |
| `AddressSpace.EtcdAddressSpace.HandlePut` | plugin/pkg/ipam/address_space.go:180-207 | bookkeeping stays consistent exactly when the subnet is not cached under another id |
| `AddressSpace.NewEtcdBasedAddressSpace` | plugin/pkg/ipam/address_space.go:36-75 | the unused list is all generated subnets but those of the pools found in etcd; consistent for disjoint spaces; none only if etcd cannot be read or the generation is refused |
| `AddressSpace.PutKeepsInjectiveIff` | plugin/pkg/ipam/address_space.go:188-196 | cached pools stay injective exactly under that condition |
| `AddressSpace.PutCanBreakInjectivity` | plugin/pkg/ipam/address_space.go:188-196 | a concrete event that breaks it |
| `AddressSpace.MergeKeepsBookkeeping` | plugin/pkg/ipam/address_space.go:136-138 | learning about the pools met on the way keeps pools injective and apart from the list |
| `AddressSpace.GetUsedSubnets` | plugin/pkg/ipam/address_space_etcd.go:20-47 | for every pool with a readable key one of its subnets, nested and unreadable keys skipped; injective unless two keys mean the same subnet |
| `Subnets.GenerateAllSubnets` | plugin/pkg/ipam/util.go:10-24 | all pieces of all bases that are not too small; an error exactly for a pool size above 32 that asks for a subnet |
| `Subnets.GeneratedCover` | plugin/pkg/ipam/util.go:10-24 | the subnets cover an address exactly if a base with a prefix not longer than the pool size does |
| `Subnets.GeneratedDisjoint` | plugin/pkg/ipam/util.go:10-24 | pairwise disjoint bases give pairwise disjoint subnets |
| `Subnets.GeneratedProper` | plugin/pkg/ipam/util.go:10-24 | proper bases give aligned subnets of the pool size inside the 32-bit space |
| `Subnets.GeneratedDistinct` | plugin/pkg/ipam/address_space.go:38-41 | so the list an address space starts from has no duplicates |
| `Subnets.GeneratedInOrder` | plugin/pkg/ipam/util.go:10-24 | the pieces come base by base |
| `Subnets.PiecesInOrder` | plugin/pkg/ipam/util.go:10-24 | those of one base follow each other without a gap from its start on |
| `Subnets.ShiftWraps` | plugin/pkg/ipam/util.go:10-24 | the number of pieces is two to the difference of the lengths, as a signed 64-bit number |
| `Subnets.CountPoolSizeSubnets` | plugin/pkg/driver/flannel_driver.go:462-479 | the count is the number of subnets generated from the IPv4 bases, too small bases and other networks skipped |
| `FlannelConfig.InvariantHolds` | plugin/pkg/flannel_network/network.go:341-400 | in every interleaved run, as long as no stored configuration is deleted, the verdict of every ended node is the comparison with what is stored |
| `FlannelConfig.ConfigAgreement` | plugin/pkg/flannel_network/network.go:341-428 | nodes that succeed agree on the network, failing calls included, and the verdict of a node that ended is the comparison with what is stored |
| `FlannelConfig.DisagreementNeedsDeletion` | plugin/pkg/flannel_network/network.go:341-428 | two successes with different networks imply that a stored configuration was deleted before |
| `FlannelConfig.EveryCallEnds` | plugin/pkg/flannel_network/network.go:341-400 | three steps of its own, failing ones included, bring every node to an end, whatever the others do |
| `FlannelConfig.CreatedOnce` | plugin/pkg/flannel_network/network.go:374-382 | once created, the configuration never changes |
| `FlannelConfig.DeletionBreaksAgreement` | plugin/pkg/flannel_network/network.go:341-400 | a run with a deletion in which two nodes succeed with different networks |
| `FlannelConfig.VniMayDiffer` | plugin/pkg/flannel_network/network.go:349-354 | a run in which a node succeeds with a VNI that is not the stored one |
| `FlannelConfig.EnsureFlannelConfig` | plugin/pkg/flannel_network/network.go:341-428 | the steps of a node on the contents it met; if the others keep the configuration, the outcome tells what is stored: the wanted network, another one and which, or something unreadable; undisturbed it is created exactly when missing |
| `Notifications.HeardDiff` | plugin/pkg/etcd/readonly_store.go:70-80 | what a listener holds after the handlers of one operation, item by item |
| `Notifications.HandlerCalls` | plugin/pkg/etcd/readonly_store.go:70-80 | each handler is called at most once, with its whole list and only if that is not empty, additions before changes before removals |
| `Notifications.ReplicaStep` | plugin/pkg/etcd/store.go:61-93 | a replica up to `Equals` stays one; needs `Equals` to be an equivalence |
| `Notifications.FaithfulReplica` | plugin/pkg/etcd/store.go:61-93 | over every run of operations folding the notifications gives a replica |
| `Notifications.ExactReplicaIff` | plugin/pkg/etcd/store.go:66-82 | an exact replica stays exact exactly when no retained item changes to an equal but different value |
| `Notifications.WithheldDiffIff` | plugin/pkg/etcd/writeonly_store.go:49-53 | after a failed write listeners are still in step exactly when there was nothing to report |
| `Stores.LoadData` | plugin/pkg/etcd/store.go:113-136 | exactly the keys without a slash whose value can be decoded, with the decoded value |
| `Stores.ComputeDiff` | plugin/pkg/etcd/store.go:61-93 | added, changed and removed items, each once, nothing else |
| `Stores.ReadOnlyStore.Sync` | plugin/pkg/etcd/readonly_store.go:53-83 | the store holds the decodable contents and reports exactly the difference |
| `Stores.ReadOnlyStore.HandleEvent` | plugin/pkg/etcd/readonly_store.go:85-123 | a readable put of a key without a slash sets the item, any other put changes nothing, a delete removes it; exactly the difference is reported |
| `Stores.FollowingTheWatchIff` | plugin/pkg/etcd/readonly_store.go:91-113 | following the watch keeps the decodable contents exactly unless an unreadable value replaces an item |
| `Stores.PutIfNewOrChanged` | plugin/pkg/etcd/connection.go:18-40 | the two guarded writes on the contents they met; undisturbed the key has the value, and something is written exactly when it had not |
| `Stores.PutStoresIff` | plugin/pkg/etcd/connection.go:18-40 | a successful put has stored the value exactly if the key was not deleted in between |
| `Stores.WriteOnlyStore.AddOrUpdateItem` | plugin/pkg/etcd/writeonly_store.go:34-75 | map, etcd and report of a put, with the contents its writes met; a failed write changes the map and reports nothing |
| `Stores.WriteOnlyStore.DeleteItem` | plugin/pkg/etcd/writeonly_store.go:77-106 | map, etcd and report of a delete, with the contents it met |
| `Stores.WriteOnlyStore.Sync` | plugin/pkg/etcd/writeonly_store.go:108-158 | undisturbed etcd converges to exactly the items, and a second sync writes nothing and reports nothing |
| `Stores.WriteThenRead` | plugin/pkg/etcd/writeonly_store.go:108-158 | end to end with nobody else writing: items whose ids have no slash, synced by a writing store, are exactly the data of a reading store that syncs afterwards, and its listeners hold them up to Equals |
| `Stores.PublishedContents` | plugin/pkg/etcd/writeonly_store.go:121-134 | after convergence the decodable contents are the items |
| `Stores.NoNews` | plugin/pkg/etcd/store.go:61-93 | equal contents are never reported |
| `Stores.MirrorsAllAlong` | plugin/pkg/etcd/store.go:61-93 | whoever mirrored the map at the start mirrors it at every point of a run |
| `Stores.PublishedAllAlong` | plugin/pkg/etcd/writeonly_store.go:34-158 | as the only writer etcd holds the items in every state of a run |
| `Stores.RunReadOnly` | plugin/pkg/etcd/readonly_store.go:53-123 | for every sequence of syncs and watch events: every state with the effect of its operation, the exact difference reported, the log made of these reports, and every listener a replica |
| `Stores.RunWriteOnly` | plugin/pkg/etcd/writeonly_store.go:34-158 | the same for every sequence of puts, deletes and syncs, where failed calls are not heard; listeners are replicas if none fails |
| `DockerTypes.CompareMaps` | plugin/pkg/common/common.go:63-82 | size plus one-way comparison decides equality, nil and empty kept apart |
| `DockerTypes.CompareStringArrayMaps` | plugin/pkg/common/common.go:84-116 | the same for maps of string slices |
| `DockerTypes.ContainerInfoEquals` | plugin/pkg/docker/types.go:21-43 | equality in every field |
| `DockerTypes.ServiceInfoEquals` | plugin/pkg/docker/types.go:45-58 | equality up to the endpoint mode and the networks |
| `DockerTypes.ContainerReplicaIsExact` | plugin/pkg/docker/types.go:21-43 | listeners hold containers exactly |
| `DockerTypes.ContainerListeners` | plugin/pkg/docker/types.go:21-43 | over every run listeners hold the containers exactly |
| `DockerTypes.ServiceListeners` | plugin/pkg/docker/types.go:45-58 | over every run listeners hold the services up to endpoint mode and networks |
| `DockerTypes.ServiceReplicaIsExactIff` | plugin/pkg/docker/types.go:45-58 | listeners hold services exactly, except for unheard changes of endpoint mode or networks |
| `DockerTypes.EndpointModeChangeIsNotHeard` | plugin/pkg/docker/types.go:45-58 | a change of the endpoint mode alone is not reported at all |
| `ShardedStore.FlatIndexStep` | plugin/pkg/etcd/sharded_distributed_store.go:128-203 | with fixed home shards every operation keeps `data` the exact union of the shards and local items mapped to the local shard |
| `ShardedStore.FlatIndexInEveryRun` | plugin/pkg/etcd/sharded_distributed_store.go:379-443 | the same after any run of adds, deletes, syncs and watch events |
| `ShardedStore.DeleteKeepsFlatIff` | plugin/pkg/etcd/sharded_distributed_store.go:171-180 | without fixed homes a local delete keeps the index exact exactly when no other shard has the id |
| `ShardedStore.ShardReport` | plugin/pkg/etcd/sharded_distributed_store.go:276-300 | with fixed homes what is reported of a changed shard is the change of the flat index |
| `ShardedStore.JoinedDiff` | plugin/pkg/etcd/sharded_distributed_store.go:224-226 | reports about different shards, appended, are the report of the whole change |
| `ShardedStore.LoadShards` | plugin/pkg/etcd/sharded_distributed_store.go:320-344 | all shards, or nothing if a single item cannot be decoded |
| `ShardedStore.ShardedDistributedStore.AddOrUpdateItem` | plugin/pkg/etcd/sharded_distributed_store.go:128-169 | at its home the index stays exact and the report is the exact change of the index; the put with the contents it met; a failed call reports nothing |
| `ShardedStore.ShardedDistributedStore.DeleteItem` | plugin/pkg/etcd/sharded_distributed_store.go:171-203 | at its home the index stays exact and the report is the exact change of the index; the delete with the contents it met; a failed call reports nothing |
| `ShardedStore.ShardedDistributedStore.Synchronize` | plugin/pkg/etcd/sharded_distributed_store.go:209-265 | the local shard from the caller, the others from etcd; with fixed homes the index is exact and one report tells exactly its change; local items published exactly if etcd had any or there are none |
| `ShardedStore.SyncedShardsAreCurrentIff` | plugin/pkg/etcd/sharded_distributed_store.go:221-226 | after a sync the shards are the local items and what etcd holds exactly when no known shard has vanished |
| `ShardedStore.SyncedIndexIsCurrentIff` | plugin/pkg/etcd/sharded_distributed_store.go:221-226 | with fixed homes the index is current exactly when no shard with items has vanished |
| `ShardedStore.ShardedDistributedStore.SyncToInternalState` | plugin/pkg/etcd/sharded_distributed_store.go:267-318 | one shard replaced, the three lists exactly its difference, and every id indexed with the value it has in the shard it is mapped to |
| `ShardedStore.ShardedDistributedStore.HandlePut` | plugin/pkg/etcd/sharded_distributed_store.go:408-439 | events of the local shard and undecodable values ignored; at its home the index stays exact and its change is reported |
| `ShardedStore.ShardedDistributedStore.HandleDelete` | plugin/pkg/etcd/sharded_distributed_store.go:394-407 | events of the local shard ignored; at its home the index stays exact, and its change is always reported |
| `Fwmarks.InverseStep` | plugin/pkg/service_lb/fwmarks.go:51-156 | every operation keeps by-service and list inverse |
| `Fwmarks.InverseInEveryRun` | plugin/pkg/service_lb/fwmarks.go:51-156 | the same over every run, complete clean-ups included |
| `Fwmarks.DistinctMarks` | plugin/pkg/service_lb/fwmarks.go:51-124 | distinct services on a network have distinct marks |
| `Fwmarks.GetIsStable` | plugin/pkg/service_lb/fwmarks.go:57-70 | repeated `Get` answers the same mark, and does not fail, until its release or a clean-up |
| `Fwmarks.PartialSweepKeepsInverseIff` | plugin/pkg/service_lb/fwmarks.go:242-245 | a clean-up with failing deletes keeps the registry inverse exactly if these are whole pairs |
| `Fwmarks.PartialSweepBreaksInverse` | plugin/pkg/service_lb/fwmarks.go:242-245 | a registry that a single failing delete breaks |
| `Fwmarks.AllMarksReportedIff` | plugin/pkg/service_lb/fwmarks.go:239-251 | a clean-up reports all stale marks exactly when no stale service had two different ones |
| `Fwmarks.OneMarkOfTwoIsReported` | plugin/pkg/service_lb/fwmarks.go:239-251 | a service with marks on two networks, one of which is not reported |
| `Fwmarks.GenerateFwmark` | plugin/pkg/service_lb/fwmarks.go:162-195 | the checksum of the first candidate name that is not taken, the plain name first and then names with a random suffix; none only after a thousand taken candidates or when the randomness fails |
| `Fwmarks.ExistingMarks` | plugin/pkg/service_lb/fwmarks.go:80-91 | exactly the readable marks of the network's list |
| `Fwmarks.FwmarksManagement.GetMark` | plugin/pkg/service_lb/fwmarks.go:51-124 | from the contents met, in a chain from those at the start: a readable known mark is answered, a new pair is written where the mark was not listed, with the plain checksum unless that was listed, a failure means that the plain checksum is listed, and every extra pass was overtaken by somebody else |
| `Fwmarks.FwmarksManagement.ReleaseMark` | plugin/pkg/service_lb/fwmarks.go:126-156 | both keys deleted exactly if both match on the contents met; no error otherwise |
| `Fwmarks.FwmarksManagement.CleanUpStaleFwmarks` | plugin/pkg/service_lb/fwmarks.go:207-253 | nobody else writing: exactly the stale readable keys but those whose delete failed are deleted; on an inverse registry every reported mark is one its service has; the registry stays inverse exactly if whole pairs were missed |
| `Fwmarks.ReportedMarksAreTheirs` | plugin/pkg/service_lb/fwmarks.go:218-251 | on an inverse registry exactly the services that no longer exist are reported, each with a mark it has, the only one if it has one only |
| `Fwmarks.CleanedUpKeeps` | plugin/pkg/service_lb/fwmarks.go:218-251 | a complete clean-up of an inverse registry leaves exactly the keys of the existing services |
| `Fwmarks.SweptKeeps` | plugin/pkg/service_lb/fwmarks.go:218-247 | on any registry a key stays exactly if its service exists, its mark cannot be read or its delete failed |
| `Text.ParseUint32Iff` | plugin/pkg/service_lb/fwmarks.go:80-91 | a text is read as a mark exactly if it is the decimal text of a 32-bit number, zeros in front allowed |
| `DnsIndex.UpdateReplacesIff` | plugin/pkg/dns/resolver.go:165-214 | an update leaves exactly the container's claims exactly when retained names keep their address |
| `DnsIndex.IndexStep` | plugin/pkg/dns/resolver.go:135-214 | every operation keeps the index equal to the tuples of the live containers, no empty list left |
| `DnsIndex.IndexInEveryRun` | plugin/pkg/dns/resolver.go:135-214 | the same after any run of add, update and remove |
| `DnsIndex.LiveEntries` | plugin/pkg/dns/resolver.go:135-149 | the entries of a live container under a name it has on a network are exactly its id, the network and its address there |
| `DnsIndex.UpdateIsRemoveThenAdd` | plugin/pkg/dns/resolver.go:165-214 | an update has the effect of remove, then add |
| `DnsIndex.MovedContainerKeepsOldAddress` | plugin/pkg/dns/resolver.go:189-203 | a concrete update after which the old address is still answered |
| `DnsIndex.AddAll` | plugin/pkg/dns/resolver.go:135-149 | the index gains exactly the claims of the container: its id, network and address there under each of its names, the nil address exactly where it has none |
| `DnsIndex.RemoveAll` | plugin/pkg/dns/resolver.go:151-163 | the index loses exactly the container's entries under the names passed |
| `DnsIndex.UpdateAll` | plugin/pkg/dns/resolver.go:165-214 | what an update drops, keeps and adds |
| `DnsIndex.RemoveMeaning` | plugin/pkg/dns/resolver.go:354-366 | matching entries of one name go, and an empty list goes with them |
| `Resolver.ResolveMeaning` | plugin/pkg/dns/resolver.go:281-343 | the addresses of a name on a network are exactly the matches of containers and services |
| `Resolver.DnsResolver.ResolveName` | plugin/pkg/dns/resolver.go:216-267 | a duplicate-free answer to the query text, with or without a final dot: among the ways to read it as a name, or a name, a dot and a network, the longest name with any match answers, with all its matches or one network's in compatibility mode; empty exactly when none matches |
| `Resolver.AnswersInText` | plugin/pkg/dns/resolver.go:216-267 | the level-by-level search is the search over all such readings of the text |
| `Resolver.CompatibleIsSubset` | plugin/pkg/dns/resolver.go:231-245 | compatibility mode answers a subset, and nothing exactly when the other mode does |
| `Resolver.CompleteAnswerIsUnique` | plugin/pkg/dns/resolver.go:231-248 | the complete answer is determined up to order |
| `Resolver.DnsResolver.UpdateContainer` | plugin/pkg/dns/resolver.go:165-214 | the resolver's index moves by the update step |
| `Ipv4.NextIP` | plugin/pkg/ipam/util.go:59-68 | the byte-wise carry is plus one, modulo the size of the address space |
| `Ipv4.GetBroadcastIP` | plugin/pkg/ipam/util.go:26-32 | byte-wise filling gives base + 2^(host bits) - 1 |
| `Ipv4.MaskedRemainder` | plugin/pkg/ipam/util.go:38-38 | byte-wise masking subtracts the remainder modulo 2^(host bits) |
| `Ipv4.ContainsInterval` | plugin/pkg/ipam/util.go:41-43 | containment is the interval of 2^(host bits) numbers from the masked base on |
| `Ipv4.IpsInSubnet` | plugin/pkg/ipam/util.go:34-57 | terminates for every address length and every prefix length from 1 on, with the hosts in increasing order, each exactly once, for bases with host bits too and for all settings of the two exclusions |
| `Ipv4.PoolHosts` | plugin/pkg/ipam/pool.go:78-78 | for a proper base with both exclusions: max(0, 2^(host bits) - 3) consecutive addresses, all but the first two and the last |
| `Ipv4.WholeSpaceContainsAll` | plugin/pkg/ipam/util.go:41-43 | for the prefix length 0 every address is contained, so the loop has no end |

## Left out

- Pool.EtcdPool.AllocateFreeIP: the source loops without a bound; the model stops after `passes` turns and answers `GaveUp`, which in step with etcd never happens.
- Pool.EtcdPool.TryAddress: always takes the address off `unusedIPs`; the source does so for a preferred address only if it is not cached, which by the partition is the same.
- Fwmarks.FwmarksManagement.GetMark: the same bound on an unbounded loop; and the inverse registry is claimed for one writer per prefix only.
- Ipv4.IpsInSubnet: the prefix length 0, for which the source does not terminate.
- Pool.NewEtcdBasedAddressPool: the same; the watch that the source opens there is left out.
- Stores.WriteOnlyStore.Sync: what a sync leaves in etcd beside another writer.
- Subnets.GenerateAllSubnets: IPv4 bases only; the library's bitwise insertion of the subnet number is an addition, which is the same for proper bases.
- Subnets.CountPoolSizeSubnets: the total is not wrapped at 64 bits.
- AllocationClient.Decode: a record without its type key decodes to its address here, where the source leaves the address empty; `AllocationCodec.RawDecode` has the source's form, and well-shaped stores have no such records.
- AllocationCodec.OtherNameIsSkipped: IPv4 only; IPv6 texts, which Go's `net.ParseIP` reads too, count as names that are not addresses here.
- DockerTypes.CompareMaps: one method for the two source functions over strings and over addresses, which are canonical numbers here.
- Resolver.DnsResolver.ResolveName: the answer is the list of addresses; the DNS record around each of them is not modelled.
- AddressSpace.NewEtcdBasedAddressSpace: the text of subnets in keys is any faithful naming; the store of the protocol has no unreadable keys, which `AddressSpace.GetUsedSubnets` skips.
- ShardedStore.LoadShards: keys have a shard and an id; keys of another depth, which the source ignores, are absent.
- The time is read once per pool operation; the source reads it again for each address.
- The watch handler of the IP pool and `readAllocation`, whose connection is closed before the watch is used.
- The DELETE branch of the subnet watch, whose events carry no value, and any claim across nodes about subnets answered from the cache.
- `itemToShardKey` for items of other shards, which watch events do not set.
- `ReleaseIP`, `GetNewPool`, `GetNewOrExistingPool`, `InitFromEtcd` and the other thin wrappers and getters.
- `RemoveNetwork`, the alphabetical order of networks and the order of answers: networks and answers come in an arbitrary order.
- `getNextAvailableIP` and the sorting helpers: every caller asks for a random address.
- Uniqueness of firewall marks across networks, which the registry does not keep.
- Bridges, veth pairs, netlink, iptables, IPVS, the flanneld process, HTTP handlers, the DNS socket server, Docker calls, VNI choice and load balancer set-up: I/O and foreign calls.
- Locks: operations of one object are atomic with respect to each other.
