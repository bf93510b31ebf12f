# Verified model of the strongSwan core of this repository

A Dafny 4.11 model of the stateful and pointer-level parts of the strongSwan 5.3.2
sources and of the option tree builder, with proofs of what they keep over whole
runs. `dafny verify dfyconfig.toml` checks everything.

| area | modules |
|---|---|
| in-memory virtual IP pool | `PoolAddress` (offsets and addresses), `PoolLeases` (the lease table and its invariant), `PoolRuns` (properties of runs), `MemPool` (the pool object and lease enumerator) |
| copy-on-write union filesystem | `CowLayer`, `CowView`, `CowOps` (layers, the merged view, the operations), `CowRefinement`, `CowRuns` (refinement of one flat file map), `Cowfs` (the object), `CowReaddir` |
| event bus | `LoggerRegistry`, `LoggerFastPath`, `Bus` (loggers and their cached maxima), `EventTrace`, `EventCalls`, `EventDispatch` (recursive dispatch) |
| daemon loggers | `DaemonLoggers`, `Daemon` |
| intrusive queues | `TailQueue`, `CircularQueue` |
| option tree | `StableSort`, `OptionTree`, `OptionParser` |
| smaller cores | `MonteCarlo`, `Netlink`, `LineSplitter`, `AttributeManager`, `UnsortMessage` |
| shared | `Wrappers`, `Sequences` |

Code that changes things in place is modelled by classes and methods with loops. Each
method is proved to compute a function of the old state, and the properties are lemmas
about these functions: invariants over all runs, refinement of a simple form, round
trips, conservation.

Some properties that one would expect do not hold for every input. For these the exact
condition is proved, and a lemma gives a concrete case that fails:

- An address pool recognises the addresses it hands out exactly if it ends below
  255.255.255.255 (`PoolAddress.RoundTripIffEndsBelowTop`; the pool of the top address
  alone: `TopAddressIsNotRecognised`).
- Acquires and releases of an address balance exactly in pools of less than 2^32 - 1
  addresses (`PoolRuns.AddressesConservedIff`). In a pool of that size -1, which
  stands for a foreign address, is an offset, and a run that hands out every address and
  then releases a foreign one loses a lease (`HugePoolLosesLease`).
- The cached log levels may hide a logger when at least three loggers are used of which
  some but not all implement a callback (`LoggerFastPath.FastPathExactIff`,
  `HidingRunHides`). The daemon's own loggers are all of one kind, so that alone they are
  safe (`Daemon.Debug`).
- A new file or directory cannot be created below a directory that only a layer between
  the top one and the master has (`CowRefinement.MakeNewSucceedsIff`,
  `MkDirBelowMiddleLayerFails`).
- Writing to or truncating a file takes the permissions in the umask away if the file has
  to be copied up for it (`CowRefinement.TargetAsAskedIff`, `CowRuns.ModesRefineIff`,
  `WriteDropsPermissions`). Directories cloned on the way lose them too
  (`CowRefinement.OtherModesKeptIff`, `CloningDropsPermissions`).
- A cloned parent hides a file of an intermediate layer at its path
  (`CowRefinement.OthersKeptIffWalkable`, `CloningHidesFile`). The kernel resolves paths
  in the view, finds the file there and never asks for such a path.
- A section below a leading dot loses the dot in its full name
  (`OptionTree.FullnameIsPathIff`, `LeadingDotLosesDot`).
- A record longer than its length field can say is cut or lost on reading
  (`Netlink.ListSurvivesIffFits`, `LongAttributeIsLost`). The macros do not check the length,
  so any caller that passes a long payload gets there.
- On a build without syslog support a syslog entry has no logger object
  (`DaemonLoggers.EquippedIff`). Starting with the default loggers gets there
  (`DefaultsWithoutSyslog`).

## Model

| member | source | states |
|---|---|---|
| PoolAddress.NetworkIdDiffIsHostPart | strongswan-5.3.2/src/libcharon/attributes/mem_pool.c:636-649 | for at most 31 host bits the pair of shifts yields the distance of the address from the start of its subnet |
| PoolAddress.CidrServesUsable | strongswan-5.3.2/src/libcharon/attributes/mem_pool.c:654-700 | for every base and prefix, with the prefix clamped to the address length and at most 31 host bits, a CIDR pool serves an address if and only if it lies in the subnet at or behind the base and is neither network id nor broadcast of a subnet with more than two addresses; the pool is empty (and then a pass-through) if and only if its base is the broadcast address of such a subnet |
| PoolAddress.RangeServesInterval | strongswan-5.3.2/src/libcharon/attributes/mem_pool.c:705-735 | a range is accepted if and only if its ends share the leading bytes and ascend; it then serves exactly the interval, except that all 2^32 addresses together have size 0 |
| PoolAddress.OffsetHasAddress | strongswan-5.3.2/src/libcharon/attributes/mem_pool.c:142-167 | every assignable offset has an address, and one the pool serves |
| PoolAddress.OffsetsInjective | strongswan-5.3.2/src/libcharon/attributes/mem_pool.c:142-167 | two assignable offsets never denote one address |
| PoolAddress.AddressHasOffset | strongswan-5.3.2/src/libcharon/attributes/mem_pool.c:142-200 | in a pool of less than 2^32 - 1 addresses an address maps to an assignable offset if and only if the pool serves it and ends below the top address; converting the offset back then gives the address |
| PoolAddress.RoundTripIffEndsBelowTop | strongswan-5.3.2/src/libcharon/attributes/mem_pool.c:172-200 | host2offset inverts offset2host on all assignable offsets if and only if base + size stays below 2^32 |
| PoolAddress.TopAddressIsNotRecognised | strongswan-5.3.2/src/libcharon/attributes/mem_pool.c:142-200 | the pool 255.255.255.255/32 hands its address out but does not recognise it again |
| PoolAddress.ForeignAddressesStayOutIffNotHuge | strongswan-5.3.2/src/libcharon/attributes/mem_pool.c:172-200 | no address outside the pool maps to an assignable offset if and only if the pool has fewer than 2^32 - 1 addresses |
| PoolLeases.ExistingKeepsInv | strongswan-5.3.2/src/libcharon/attributes/mem_pool.c:273-326 | reusing or sharing a lease keeps the table invariant |
| PoolLeases.NewKeepsInv | strongswan-5.3.2/src/libcharon/attributes/mem_pool.c:331-351 | handing out a new offset keeps the table invariant |
| PoolLeases.ReassignKeepsInv | strongswan-5.3.2/src/libcharon/attributes/mem_pool.c:356-397 | taking over an offline lease keeps the table invariant |
| PoolLeases.ReleaseKeepsInv | strongswan-5.3.2/src/libcharon/attributes/mem_pool.c:447-493 | a release keeps the table invariant |
| PoolLeases.RunKeepsInv | strongswan-5.3.2/src/libcharon/attributes/mem_pool.c:273-493 | after any run of acquires and releases the offsets handed out are one contiguous block from 1, or from 2 if the base is the network id, each held by exactly one identity either online or once offline, all records of an offset carry one peer hash, and no entry is empty |
| PoolRuns.NoAddressTwice | strongswan-5.3.2/src/libcharon/attributes/mem_pool.c:273-397 | an address that is online for one identity is online for no other and offline for nobody |
| PoolRuns.AcquireEffect | strongswan-5.3.2/src/libcharon/attributes/mem_pool.c:399-445 | an acquire that yields no offset changes nothing; else exactly one online record is added, of an offset the identity now owns |
| PoolRuns.ReleaseEffect | strongswan-5.3.2/src/libcharon/attributes/mem_pool.c:447-493 | a release that finds the lease removes exactly one online record of that address, and one that does not changes nothing |
| PoolRuns.AcquireRecords | strongswan-5.3.2/src/libcharon/attributes/mem_pool.c:288-351 | the address an acquire returns is served by the pool and recorded last among the online leases of the identity, with the hash of the peer or 0 without one; the online leases of other identities stay |
| PoolRuns.ReauthenticationSucceeds | strongswan-5.3.2/src/libcharon/attributes/mem_pool.c:305-322 | in a pool that ends below the top address, a peer that asks with EXISTING for the address just given to its identity gets it again, if no lease of the identity is offline |
| PoolRuns.NothingRecorded | strongswan-5.3.2/src/libcharon/attributes/mem_pool.c:399-445 | an empty pool passes the request through, a request of the other family or an unknown mode is refused, and nothing is recorded |
| PoolRuns.NothingLeftIffAllOnline | strongswan-5.3.2/src/libcharon/attributes/mem_pool.c:331-397 | NEW and REASSIGN have nothing to give if and only if every assignable address is online |
| PoolRuns.ExhaustedIffAllOnline | strongswan-5.3.2/src/libcharon/attributes/mem_pool.c:399-445 | EXISTING, then NEW, then REASSIGN all fail if and only if all assignable addresses are online and the peer does not re-authenticate for one it holds; failing leaves the table unchanged |
| PoolRuns.ExistingSucceedsIff | strongswan-5.3.2/src/libcharon/attributes/mem_pool.c:273-326 | EXISTING yields an offset if and only if the identity has an offline lease or the same peer asks again for its online one |
| PoolRuns.ReassignTakesOffline | strongswan-5.3.2/src/libcharon/attributes/mem_pool.c:356-397 | a reassigned offset was the oldest offline lease of some identity, was online for nobody, and is then online once for the new owner only |
| PoolRuns.OffsetsConserved | strongswan-5.3.2/src/libcharon/attributes/mem_pool.c:273-493 | over any run of any pool, the online records of an identity and an offset equal those at the start plus the acquires that obtained it minus the successful releases of it |
| PoolRuns.RunConserves | strongswan-5.3.2/src/libcharon/attributes/mem_pool.c:273-493 | over any run of a pool of less than 2^32 - 1 addresses the same holds for each address served, counting the acquires that return the address and the successful releases that name it |
| PoolRuns.AddressesConservedIff | strongswan-5.3.2/src/libcharon/attributes/mem_pool.c:172-200 | in terms of addresses the equation holds for all runs of a new pool if and only if the pool has less than 2^32 - 1 addresses |
| PoolRuns.NothingReleasedAtTop | strongswan-5.3.2/src/libcharon/attributes/mem_pool.c:447-493 | in a smaller pool that ends at the top address no release ever succeeds |
| PoolRuns.HugePoolLosesLease | strongswan-5.3.2/src/libcharon/attributes/mem_pool.c:447-493 | a run of a new pool of 2^32 - 1 addresses for which the equation is false: once all addresses have been handed out, releasing an address of the other family takes the last one away from its owner |
| PoolRuns.OfflineIsQueue | strongswan-5.3.2/src/libcharon/attributes/mem_pool.c:288-319 | over any run, the leases of an identity leave the offline list, back to it or reassigned, in the order in which they went offline |
| MemPool.Pool.Cidr | strongswan-5.3.2/src/libcharon/attributes/mem_pool.c:654-700 | the constructed pool has the geometry of the base and prefix, with host bits limited to 31 |
| MemPool.Pool.Of | strongswan-5.3.2/src/libcharon/attributes/mem_pool.c:606-629 | a pool starts with an empty table and the geometry given |
| MemPool.Pool.Range | strongswan-5.3.2/src/libcharon/attributes/mem_pool.c:705-735 | there is a pool for a range if and only if its ends share the leading bytes and ascend; it starts empty, with the geometry of the range |
| MemPool.Pool.GetExisting | strongswan-5.3.2/src/libcharon/attributes/mem_pool.c:273-326 | the loops compute the specified offset and table: the own offline lease first, or a shared online lease of the same peer |
| MemPool.Pool.GetNew | strongswan-5.3.2/src/libcharon/attributes/mem_pool.c:331-351 | the method hands out the next unused offset, if there is one, and enters it online |
| MemPool.Pool.GetReassigned | strongswan-5.3.2/src/libcharon/attributes/mem_pool.c:356-397 | the scan takes the first offline lease in the order of the table |
| MemPool.Pool.AcquireAddress | strongswan-5.3.2/src/libcharon/attributes/mem_pool.c:399-445 | the result and the new table are those of the specification, with pass-through for an empty pool and refusal of the wrong family |
| MemPool.Pool.ReleaseAddress | strongswan-5.3.2/src/libcharon/attributes/mem_pool.c:447-493 | the result and the new table are those of the specification; the lease goes offline exactly with its last record |
| MemPool.Pool.GetOnline | strongswan-5.3.2/src/libcharon/attributes/mem_pool.c:220-237 | the counter is the number of online items the lease enumerator yields, as a 32-bit number |
| MemPool.Pool.GetOffline | strongswan-5.3.2/src/libcharon/attributes/mem_pool.c:239-256 | the counter is the number of offline items the lease enumerator yields, as a 32-bit number |
| MemPool.LeaseEnumerator.Enumerate | strongswan-5.3.2/src/libcharon/attributes/mem_pool.c:515-553 | a call yields the first lease that is left and removes it, or reports that none is left; after that report another call is safe if and only if there was no entry at all |
| MemPool.ItemsAreLeases | strongswan-5.3.2/src/libcharon/attributes/mem_pool.c:515-553 | an item is enumerated if and only if the table has that lease: under its identity, with the address its offset stands for, online or offline |
| MemPool.OnlineFirst | strongswan-5.3.2/src/libcharon/attributes/mem_pool.c:523-540 | of the leases of one identity the online ones are enumerated first |
| MemPool.EnumerateLeases | strongswan-5.3.2/src/libcharon/attributes/mem_pool.c:515-581 | repeated calls yield every online and then every offline lease of each entry, each once and in order |
| CowLayer.CloneEffect | strongswan-5.3.2/src/dumm/cowfs.c:195-221 | cloning adds only directories, at missing ancestors of the path |
| CowLayer.CloneSucceedsIff | strongswan-5.3.2/src/dumm/cowfs.c:195-221 | cloning ends with a directory for the path if and only if every ancestor is a directory of the top layer or exists in the layer read from |
| CowView.LookupIsMerged | strongswan-5.3.2/src/dumm/cowfs.c:147-173 | the layer lookup selects holds exactly what the flat view of all layers holds at the path, and no layer above has it |
| CowOps.CopyEffect | strongswan-5.3.2/src/dumm/cowfs.c:226-286 | copy-up puts the node of the view, with its whole content, into the top layer and touches only missing ancestors besides |
| CowOps.ApplyEffect | strongswan-5.3.2/src/dumm/cowfs.c:446-782 | every operation changes at most the target and missing ancestors in the top layer |
| CowRefinement.WalkableKeepsOthers | strongswan-5.3.2/src/dumm/cowfs.c:195-286 | through copy-up and parent cloning every other path keeps existence, kind and contents, and every other file its permissions, if the ancestors of the target are directories |
| CowRefinement.OthersKeptIffWalkable | strongswan-5.3.2/src/dumm/cowfs.c:195-286 | for a successful operation with any effect this condition is necessary as well |
| CowRefinement.CloningHidesFile | strongswan-5.3.2/src/dumm/cowfs.c:195-221 | a concrete stack in which a write hides a file of an intermediate layer at an ancestor of the path |
| CowRefinement.OtherModesKeptIff | strongswan-5.3.2/src/dumm/cowfs.c:195-221 | the other directories keep their permissions as well if and only if each cloned ancestor has, in the layer read from and without the bits of the umask, the permissions the view shows |
| CowRefinement.CloningDropsPermissions | strongswan-5.3.2/src/dumm/cowfs.c:195-221 | a concrete stack in which a write takes a permission away from the directory of the file |
| CowRefinement.TargetAsAskedIff | strongswan-5.3.2/src/dumm/cowfs.c:446-782 | on success kind and contents of the target are as asked, and its permissions too if and only if no file with a permission the umask denies had to be copied up for its data to change; on failure the target stays as it was |
| CowRefinement.WriteDropsPermissions | strongswan-5.3.2/src/dumm/cowfs.c:226-286 | a concrete stack in which a write of no bytes takes a permission away from a file of a lower layer |
| CowRefinement.WrittenBytes | strongswan-5.3.2/src/dumm/cowfs.c:758-782 | after a successful write the view holds the buffer at the offset, the old bytes elsewhere and zeros in a gap |
| CowRefinement.TruncatedBytes | strongswan-5.3.2/src/dumm/cowfs.c:648-680 | after a successful truncation of a file it has the size asked for; bytes there were are kept and new ones are zero |
| CowRefinement.CopySucceedsIff | strongswan-5.3.2/src/dumm/cowfs.c:226-286 | copy succeeds if and only if the top layer has the path, or the view has a file there that no file of the top layer obstructs |
| CowRefinement.WriteSucceedsIff | strongswan-5.3.2/src/dumm/cowfs.c:758-782 | writing succeeds if and only if the view has a file there that no file of the top layer obstructs |
| CowRefinement.TruncateSucceedsIff | strongswan-5.3.2/src/dumm/cowfs.c:648-680 | truncating succeeds if and only if the size is the one reported already or writing would succeed |
| CowRefinement.ChmodSucceedsIff | strongswan-5.3.2/src/dumm/cowfs.c:588-613 | setting the mode succeeds if and only if the view has the path and the mode is unchanged, the top layer has the path, or writing would succeed; so it fails for directories the top layer lacks |
| CowRefinement.MakeSucceedsIff | strongswan-5.3.2/src/dumm/cowfs.c:446-482 | exactly when mknod and mkdir succeed |
| CowRefinement.MakeNewSucceedsIff | strongswan-5.3.2/src/dumm/cowfs.c:446-482 | a path new to the view can be created if and only if each ancestor is in the top layer or in the master filesystem |
| CowRefinement.MkDirBelowMiddleLayerFails | strongswan-5.3.2/src/dumm/cowfs.c:467-482 | a concrete stack in which mkdir fails although the parent directory is visible |
| CowRuns.StepRefinesIff | strongswan-5.3.2/src/dumm/cowfs.c:446-782 | a successful operation the kernel may issue does to existence, kinds and contents of the view what it does to one flat file map, a failing one nothing; permissions of files follow the flat map if and only if the target keeps its own |
| CowRuns.RunRefines | strongswan-5.3.2/src/dumm/cowfs.c:446-782 | over every run of operations the kernel may issue the stack looks like one flat file map, and stays a tree; if no operation loses permissions in copying up, the permissions of files are those of the flat map |
| CowRuns.ModesRefineIff | strongswan-5.3.2/src/dumm/cowfs.c:446-782 | the view is the flat file map with permissions of files at every moment of the run if and only if no operation of it loses permissions in copying up |
| CowRuns.LowerLayersNeverChange | strongswan-5.3.2/src/dumm/cowfs.c:838-881 | over any run of file operations and overlay changes a directory that is never the top one is never changed |
| CowRuns.MasterNeverWritten | strongswan-5.3.2/src/dumm/cowfs.c:178-190 | the master filesystem is never on top unless it is used as overlay or host |
| CowRuns.PopUndoes | strongswan-5.3.2/src/dumm/cowfs.c:838-881 | adding a directory as overlay, any file operations and popping it again give back the stack and the view from before; only that directory has changed |
| CowRuns.OverlayMoves | strongswan-5.3.2/src/dumm/cowfs.c:838-881 | an overlay in the stack is taken out of it, and added again it moves to the top, while the others keep their order; popping drops the first |
| CowRuns.OverlayIsNew | strongswan-5.3.2/src/dumm/cowfs.c:838-881 | a directory that is no overlay is put on top if it exists, and taking it out fails; popping no overlays fails |
| Cowfs.UnionFs.GetRd | strongswan-5.3.2/src/dumm/cowfs.c:147-173 | the loop over overlays, host and master computes the specified layer |
| Cowfs.UnionFs.ClonePath | strongswan-5.3.2/src/dumm/cowfs.c:195-221 | the loop over the parents computes the specified top layer and result |
| Cowfs.UnionFs.Copy | strongswan-5.3.2/src/dumm/cowfs.c:226-286 | copy-up in chunks computes the specified state |
| Cowfs.UnionFs.Write | strongswan-5.3.2/src/dumm/cowfs.c:758-782 | write computes the specified state |
| Cowfs.UnionFs.Truncate | strongswan-5.3.2/src/dumm/cowfs.c:648-680 | truncate computes the specified state |
| Cowfs.UnionFs.Chmod | strongswan-5.3.2/src/dumm/cowfs.c:588-613 | chmod computes the specified state |
| Cowfs.UnionFs.MkNod | strongswan-5.3.2/src/dumm/cowfs.c:446-462 | mknod computes the specified state |
| Cowfs.UnionFs.MkDir | strongswan-5.3.2/src/dumm/cowfs.c:467-482 | mkdir computes the specified state |
| Cowfs.UnionFs.AddOverlay | strongswan-5.3.2/src/dumm/cowfs.c:838-855 | adding an overlay puts it on top, in place of an earlier entry |
| Cowfs.UnionFs.DelOverlay | strongswan-5.3.2/src/dumm/cowfs.c:857-866 | deleting removes the overlay if it is in the stack |
| Cowfs.UnionFs.PopOverlay | strongswan-5.3.2/src/dumm/cowfs.c:868-881 | popping removes the top overlay if there is one |
| CowReaddir.ListingAgreesWithLookup | strongswan-5.3.2/src/dumm/cowfs.c:356-441 | the names listed are exactly those of the directory in the view, each once, with the type of the node lookup selects |
| CowReaddir.DotsListed | strongswan-5.3.2/src/dumm/cowfs.c:356-441 | the dot entries appear, as directories, if and only if some layer has the directory |
| CowReaddir.ReadDir | strongswan-5.3.2/src/dumm/cowfs.c:389-441 | the array filled backwards and scanned computes such a listing |
| Cowfs.UnionFs.ReadDir | strongswan-5.3.2/src/dumm/cowfs.c:389-441 | reading a directory of the union lists its view |
| LoggerRegistry.RemoveKeepsInv | strongswan-5.3.2/src/libcharon/bus/bus.c:213-261 | unregistering keeps each group list the loggers above SILENT in descending order and removes just the one logger |
| LoggerRegistry.AddKeepsInv | strongswan-5.3.2/src/libcharon/bus/bus.c:263-285 | adding or re-adding keeps this and registers the logger with its current levels |
| LoggerRegistry.AddedMaximum | strongswan-5.3.2/src/libcharon/bus/bus.c:177-208 | adding a logger raises the cached maximum of a group to its level if and only if it has the callback and a higher level |
| LoggerRegistry.RemovedMaximum | strongswan-5.3.2/src/libcharon/bus/bus.c:213-261 | removing a logger sets the maximum of each group it was listed in to the level of the new head, or if the head lacks the callback to the maximum of the last such group before, or SILENT; other maxima stay |
| LoggerFastPath.RunKeepsInv | strongswan-5.3.2/src/libcharon/bus/bus.c:177-293 | this holds after any run of additions and removals |
| LoggerFastPath.DeliveryEqualsScan | strongswan-5.3.2/src/libcharon/bus/bus.c:328-422 | if the cached maxima bound the lists, vlog calls exactly the loggers whose own level admits the message, each once |
| LoggerFastPath.AddedAheadOfEquals | strongswan-5.3.2/src/libcharon/bus/bus.c:183-195 | a logger that is added goes behind the loggers of a higher level in the group and ahead of all others |
| LoggerFastPath.DeliveredByLevel | strongswan-5.3.2/src/libcharon/bus/bus.c:353-422 | loggers are called in descending order of their levels |
| LoggerFastPath.RunKeepsBounds | strongswan-5.3.2/src/libcharon/bus/bus.c:213-261 | the maxima bound the lists after any run if all loggers or none implement the callback, or there are at most two |
| LoggerFastPath.ExactIffBounded | strongswan-5.3.2/src/libcharon/bus/bus.c:353-422 | skipping by the maxima agrees with a plain scan for all messages if and only if the maxima bound the lists |
| LoggerFastPath.HidingRunHides | strongswan-5.3.2/src/libcharon/bus/bus.c:213-261 | a run of three additions and a removal after which a logger that admits a message is not reached |
| LoggerFastPath.FastPathExactIff | strongswan-5.3.2/src/libcharon/bus/bus.c:177-422 | for a set of loggers that come and go freely the fast path always equals the scan if and only if all or none of them implement the callback or there are at most two |
| LoggerFastPath.TrustKept | strongswan-5.3.2/src/libcharon/bus/bus.c:213-293 | while only loggers with log() and without vlog() are registered, adding one more and removing any keeps the maxima trustworthy |
| LoggerFastPath.EmptyTrusted | strongswan-5.3.2/src/libcharon/bus/bus.c:1044-1095 | a bus without loggers has trustworthy maxima |
| Bus.LogBus.RegisterLogger | strongswan-5.3.2/src/libcharon/bus/bus.c:177-208 | the insertion loop computes the specified list and maxima |
| Bus.LogBus.UnregisterLogger | strongswan-5.3.2/src/libcharon/bus/bus.c:213-261 | the loop over the groups computes the specified lists and maxima |
| Bus.LogBus.AddLogger | strongswan-5.3.2/src/libcharon/bus/bus.c:263-285 | the new registry is the specified one and stays consistent |
| Bus.LogBus.RemoveLogger | strongswan-5.3.2/src/libcharon/bus/bus.c:287-293 | the new registry is the specified one and stays consistent |
| Bus.LogBus.Invoke | strongswan-5.3.2/src/libcharon/bus/bus.c:328-351 | the loop calls exactly the listed loggers that implement the callback and admit the level |
| Bus.LogBus.Vlog | strongswan-5.3.2/src/libcharon/bus/bus.c:353-422 | the calls made are those of the specification |
| EventTrace.DepthBounded | strongswan-5.3.2/src/libcharon/bus/bus.c:444-475 | at every moment the nesting depth is bounded by the listeners that were not being called |
| EventTrace.NeverCalledAfterFalse | strongswan-5.3.2/src/libcharon/bus/bus.c:437-475 | a listener that returned FALSE is never called again |
| EventTrace.NotReentered | strongswan-5.3.2/src/libcharon/bus/bus.c:444-475 | between two calls of one entry the first has returned |
| EventCalls.CallsAreTopLevel | strongswan-5.3.2/src/libcharon/bus/bus.c:444-475 | the calls of a dispatch are exactly the callbacks entered and left at its own nesting depth, in order |
| EventCalls.CalledInOrder | strongswan-5.3.2/src/libcharon/bus/bus.c:444-475 | the entries a dispatch calls are entries of the list, in list order, each once, none of them being called already, all implementing the event |
| EventCalls.NoneLeftOut | strongswan-5.3.2/src/libcharon/bus/bus.c:455-463 | without a refusal every entry that implements the event, is not being called and is registered in the end has been called |
| EventCalls.RefusedByLast | strongswan-5.3.2/src/libcharon/bus/bus.c:897-901 | only the last call of an authorization can refuse it |
| EventCalls.RefusedIffAnswer | strongswan-5.3.2/src/libcharon/bus/bus.c:890-901 | an authorization is refused if and only if a listener called by the dispatch returns that it does not agree |
| EventCalls.RefusalAlerts | strongswan-5.3.2/src/libcharon/bus/bus.c:904-908 | after a refusal every listener that implements the alert, is not being called and is registered in the end is called with ALERT_AUTHORIZATION_FAILED at the same nesting depth |
| EventCalls.NoAlertWithoutRefusal | strongswan-5.3.2/src/libcharon/bus/bus.c:904-908 | without a refusal the only event dispatched at this depth is the one raised |
| EventCalls.RaiseDetermined | strongswan-5.3.2/src/libcharon/bus/bus.c:871-909 | all callbacks a raised event leads to, with everything nested in them, are determined by the listeners |
| EventDispatch.EventBus.Offer | strongswan-5.3.2/src/libcharon/bus/bus.c:444-475 | the loop over the changing list makes exactly the calls of the specified dispatch: going through the list as it was at the start, each entry that is registered, not being called and implements the event when its turn comes, up to the first refusal; the result says whether there was none, and every counter is restored |
| EventDispatch.EventBus.CallListener | strongswan-5.3.2/src/libcharon/bus/bus.c:455-471 | a complete callback with the answers of the listener is made, the counter surrounds it, and a listener returning FALSE is removed without losing the position in the list |
| EventDispatch.EventBus.Raise | strongswan-5.3.2/src/libcharon/bus/bus.c:871-909 | raising an event from anywhere terminates; its callbacks are those of a dispatch of the event, followed by those of a dispatch of the alert to the entries left if and only if a listener refused the authorization, which is when the result is FALSE |
| EventDispatch.EventBus.AddListener | strongswan-5.3.2/src/libcharon/bus/bus.c:139-151 | a listener is added last and not being called |
| EventDispatch.EventBus.RemoveListener | strongswan-5.3.2/src/libcharon/bus/bus.c:153-172 | the first entry of the listener is removed, if there is one |
| DaemonLoggers.LoadEffect | strongswan-5.3.2/src/libcharon/daemon.c:354-419 | a load reuses the entry of each target and kind still configured, makes the others, sets their levels, and leaves the registrations of others alone; the logger objects alive and the daemon's registrations are then exactly those of its entries, in order |
| DaemonLoggers.KeptIffConfigured | strongswan-5.3.2/src/libcharon/daemon.c:231-259 | an entry outlasts a load if and only if its target and kind are still configured; otherwise its logger is destroyed and off the bus |
| DaemonLoggers.LoadConfigures | strongswan-5.3.2/src/libcharon/daemon.c:288-419 | after a load every file section and every syslog section of a supported facility has a logger with the level configured for each group, else for the section, else 1, and there are no other entries; without such a section there are none, or with levels given the defaults: daemon and stdout with these levels (stdout only if asked for) and auth with level 0 |
| DaemonLoggers.AllWantedDistinct | strongswan-5.3.2/src/libcharon/daemon.c:365-414 | with distinct section names the loggers to load, or the default ones, are distinct |
| DaemonLoggers.SetLevelKeepsInv | strongswan-5.3.2/src/libcharon/daemon.c:421-445 | setting a level leaves entries and the registrations of others alone |
| DaemonLoggers.SetLevelReaches | strongswan-5.3.2/src/libcharon/daemon.c:421-445 | every logger gets the level in the group given, or in all groups if there is no such group, and keeps its other levels |
| DaemonLoggers.RunConservesLoggers | strongswan-5.3.2/src/libcharon/daemon.c:290-445 | after any run of loads, level changes and changes by others, the bus holds exactly the daemon's loggers with their current levels besides what others added and did not remove |
| DaemonLoggers.EquippedIff | strongswan-5.3.2/src/libcharon/daemon.c:231-259 | every entry has a logger object if and only if the build supports syslog or no syslog entry was loaded |
| DaemonLoggers.DefaultsWithoutSyslog | strongswan-5.3.2/src/libcharon/daemon.c:382-405 | a build without syslog support that starts with the default loggers has an entry without logger object |
| Daemon.BusEffect | strongswan-5.3.2/src/libcharon/bus/bus.c:213-293 | what adding and removing do to the list of all loggers of the bus |
| Daemon.Daemon.GetLoggerEntry | strongswan-5.3.2/src/libcharon/daemon.c:231-259 | the search takes the first matching entry out of the list or makes a new one |
| Daemon.Daemon.LoadLogger | strongswan-5.3.2/src/libcharon/daemon.c:302-315 | entry, levels and registration are those specified |
| Daemon.Daemon.LoadSysLogger | strongswan-5.3.2/src/libcharon/daemon.c:290-316 | an unsupported facility is skipped |
| Daemon.Daemon.LoadFileLogger | strongswan-5.3.2/src/libcharon/daemon.c:321-352 | a file logger is loaded with the levels of its section |
| Daemon.Daemon.LoadLegacy | strongswan-5.3.2/src/libcharon/daemon.c:381-414 | the default loggers are loaded in order |
| Daemon.Daemon.DestroyEntries | strongswan-5.3.2/src/libcharon/daemon.c:157-168 | every logger left is unregistered and destroyed while it still exists, so exactly once |
| Daemon.Daemon.LoadLoggers | strongswan-5.3.2/src/libcharon/daemon.c:354-419 | the swap, the loops and the default branch compute the specified state, and the loggers are those the settings configure; a bus with trustworthy maxima and no loggers of another kind stays one |
| Daemon.Daemon.SetLevel | strongswan-5.3.2/src/libcharon/daemon.c:421-445 | the loop computes the specified state; a bus with trustworthy maxima and no loggers of another kind stays one |
| DaemonLoggers.OwnRegistration | strongswan-5.3.2/src/libcharon/daemon.c:231-259 | a logger of the daemon is registered on the bus with its current levels and with no others |
| Daemon.Daemon.Debug | strongswan-5.3.2/src/libcharon/daemon.c:103-110 | on such a bus a debug message reaches, through log(), exactly those of the daemon's loggers whose current level in the group admits it, each once, and nobody through vlog() |
| TailQueue.LinksDetermineElements | strongswan-5.3.2/src/include/sys/queue.h:359-374 | the pointers of a tail queue determine the sequence of its elements |
| TailQueue.Queue.InsertHead | strongswan-5.3.2/src/include/sys/queue.h:384-392 | refines insertion at the front and keeps all links |
| TailQueue.Queue.InsertTail | strongswan-5.3.2/src/include/sys/queue.h:394-399 | refines insertion at the end and keeps all links |
| TailQueue.Queue.InsertAfter | strongswan-5.3.2/src/include/sys/queue.h:401-409 | refines insertion behind an element and keeps all links |
| TailQueue.Queue.InsertBefore | strongswan-5.3.2/src/include/sys/queue.h:411-416 | refines insertion before an element and keeps all links |
| TailQueue.Queue.Remove | strongswan-5.3.2/src/include/sys/queue.h:418-425 | refines removal and keeps all links |
| TailQueue.Queue.Forward | strongswan-5.3.2/src/include/sys/queue.h:427-430 | forward traversal visits the elements in order |
| TailQueue.Queue.Backward | strongswan-5.3.2/src/include/sys/queue.h:432-435 | backward traversal visits exactly their reverse |
| TailQueue.Queue.Last | strongswan-5.3.2/src/include/sys/queue.h:444-445 | the last element, read through the address of the last pointer |
| TailQueue.Queue.Prev | strongswan-5.3.2/src/include/sys/queue.h:446-447 | the element before, read through the address of its pointer |
| CircularQueue.Ring.InsertAfter | strongswan-5.3.2/src/include/sys/queue.h:476-484 | refines insertion behind an element and keeps all links |
| CircularQueue.Ring.InsertBefore | strongswan-5.3.2/src/include/sys/queue.h:486-494 | refines insertion before an element and keeps all links |
| CircularQueue.Ring.InsertHead | strongswan-5.3.2/src/include/sys/queue.h:496-504 | refines insertion at the front and keeps all links |
| CircularQueue.Ring.InsertTail | strongswan-5.3.2/src/include/sys/queue.h:506-514 | refines insertion at the end and keeps all links |
| CircularQueue.Ring.Remove | strongswan-5.3.2/src/include/sys/queue.h:516-527 | refines removal and keeps all links |
| CircularQueue.Ring.Forward | strongswan-5.3.2/src/include/sys/queue.h:529-532 | forward traversal visits the elements in order |
| CircularQueue.Ring.Backward | strongswan-5.3.2/src/include/sys/queue.h:534-537 | backward traversal visits exactly their reverse |
| CircularQueue.Ring.LoopNext | strongswan-5.3.2/src/include/sys/queue.h:548-551 | the next element, from the last one the first |
| CircularQueue.Ring.LoopPrev | strongswan-5.3.2/src/include/sys/queue.h:552-555 | the previous element, from the first one the last |
| MonteCarlo.DoTestMct | strongswan-5.3.2/scripts/aes-test.c:436-521 | for any block cipher, direction, iteration counts and buffers the constant-space loops print and leave the values of the array recurrence; other key and block lengths are refused without effect |
| MonteCarlo.ChainedCallsAreCbc | strongswan-5.3.2/scripts/aes-test.c:388-404 | encrypting or decrypting block by block with explicit IVs is one pass of CBC over all inputs of the recurrence |
| MonteCarlo.CbcBlock | strongswan-5.3.2/scripts/aes-test.c:388-404 | each block of the CBC mode used is the input mixed with the cipher text before it and encrypted, or decrypted and then mixed |
| MonteCarlo.CbcRoundTrip | strongswan-5.3.2/scripts/aes-test.c:388-404 | decrypting in this mode recovers what was encrypted |
| MonteCarlo.LinesFollowStandard | strongswan-5.3.2/scripts/aes-test.c:436-521 | every printed run is one CBC message whose blocks are the input, the IV, and then each time the output two before; the next run starts from the last output as IV, the one before it as input, and the key mixed with the last bytes of both |
| MonteCarlo.DeriveKey | strongswan-5.3.2/scripts/aes-test.c:500-514 | the next key is the exclusive or with the trailing bytes of the last two outputs, for all three key lengths |
| MonteCarlo.Run | strongswan-5.3.2/scripts/aes-test.c:476-497 | one run ends with the last output, the next input and the output before the last in their buffers |
| Netlink.AlignIsLeast | strongswan-5.3.2/src/include/linux/rtnetlink.h:121-122 | aligning yields the least multiple of four that is not below the length |
| Netlink.WireLayout | strongswan-5.3.2/src/include/linux/rtnetlink.h:121-131 | a record is its length in two or four little-endian bytes, the rest of a header of 4 or 16 bytes, the payload and zeros up to a multiple of four |
| Netlink.RoundTrip | strongswan-5.3.2/src/include/linux/rtnetlink.h:121-131 | any list of attributes or messages that fit is recovered exactly by the walk, even without padding behind the last |
| Netlink.VisitsStayInside | strongswan-5.3.2/src/include/linux/rtnetlink.h:121-131 | on arbitrary bytes every visited header and payload lies inside the buffer, and the next record is visited on the boundary behind it |
| Netlink.RemainderBounded | strongswan-5.3.2/src/include/linux/rtnetlink.h:121-131 | on arbitrary bytes the remaining length falls below zero by less than one padding |
| Netlink.DecodedRecordsFit | strongswan-5.3.2/src/include/linux/rtnetlink.h:121-131 | what a walk finds in arbitrary bytes can be laid out again |
| Netlink.ListSurvivesIffFits | strongswan-5.3.2/src/include/linux/rtnetlink.h:121-131 | a list of attributes or messages, the last one possibly without padding, survives encoding if and only if every length fits the length field |
| Netlink.SurvivesIffFits | strongswan-5.3.2/src/include/linux/rtnetlink.h:121-131 | so does a single record |
| Netlink.LongAttributeIsLost | strongswan-5.3.2/src/include/linux/rtnetlink.h:121-131 | an attribute with a payload of 65532 bytes is not found at all |
| Netlink.Walk | strongswan-5.3.2/src/include/linux/netlink.h:72-83 | the loop with OK and NEXT finds the specified records and ends |
| Netlink.SkBuff.Put | strongswan-5.3.2/src/include/linux/rtnetlink.h:1026-1037 | reserving, zeroing the padding and filling in appends exactly the laid out record, or nothing if there is no room |
| LineSplitter.CutAtNewlines | strongswan-5.3.2/src/dumm/guest.c:378-387 | lines and rest together are the text, with the newlines between them |
| LineSplitter.NoNewlineLeft | strongswan-5.3.2/src/dumm/guest.c:378-387 | no newline is left in a line or in the rest |
| LineSplitter.LinesOfConcat | strongswan-5.3.2/src/dumm/guest.c:359-388 | the lines of a concatenation are those of the first text and those of its rest followed by the second |
| LineSplitter.ChunkingDoesNotMatter | strongswan-5.3.2/src/dumm/guest.c:359-423 | for NUL-free output only the concatenation of the chunks matters |
| LineSplitter.DeliveredIsText | strongswan-5.3.2/src/dumm/guest.c:359-423 | for NUL-free output the strings delivered hold no newline and with a newline behind each are the text, completed by one at its end; without line mode the text itself is delivered, if any arrived |
| LineSplitter.ExecStr.Append | strongswan-5.3.2/src/dumm/guest.c:361-376 | the buffer is grown until the chunk and a terminator fit |
| LineSplitter.ExecStr.CutLines | strongswan-5.3.2/src/dumm/guest.c:378-387 | the loop delivers the lines of the buffered text and leaves its rest |
| LineSplitter.ExecStr.Chunk | strongswan-5.3.2/src/dumm/guest.c:359-388 | a chunk delivers the lines it completes |
| LineSplitter.ExecStr.Finish | strongswan-5.3.2/src/dumm/guest.c:390-423 | a final remainder is delivered if it is not empty, or the whole text without line mode |
| LineSplitter.ExecAll | strongswan-5.3.2/src/dumm/guest.c:359-423 | any sequence of chunks delivers exactly the lines of the concatenation and a non-empty rest, or without line mode the concatenation |
| StableSort.SortIsStable | strongswan-5.3.2/conf/format-options.py:149-150 | sorting yields a sorted permutation in which options of one name keep their order |
| StableSort.BeforeIff | strongswan-5.3.2/conf/format-options.py:71-72 | a name comes before another if and only if it is smaller at the first place where they differ, or has ended there |
| OptionTree.SplitIsInverse | strongswan-5.3.2/conf/format-options.py:60-69 | a full name is its parts joined with dots |
| OptionTree.AddNodeKeepsInv | strongswan-5.3.2/conf/format-options.py:147-150 | adding a node keeps child lists and nodes in agreement, siblings distinct in name and kind, and sorted if asked for |
| OptionTree.TreeIsIndex | strongswan-5.3.2/conf/format-options.py:136-168 | after any sequence of definitions there is a node for exactly the names defined and the sections above them; it has the default, the commented flag and the non-empty paragraphs of its last definition, and none of these if it is a section never defined itself |
| OptionTree.ChildrenSorted | strongswan-5.3.2/conf/format-options.py:149-150 | with sorting, the children of every section stand in the order of their names |
| OptionTree.FullnameIsPathIff | strongswan-5.3.2/conf/format-options.py:152-168 | a node's full name is its dotted path except exactly for a section below an empty first part that was created on the way to another option |
| OptionTree.CollectedIsJoinIff | strongswan-5.3.2/conf/format-options.py:156-158 | the name collected on the way down is the dotted path if and only if it has one part or its first part is not empty |
| OptionTree.LeadingDotLosesDot | strongswan-5.3.2/conf/format-options.py:156-158 | a definition .a.b creates the section .a under the full name a |
| OptionTree.RedefinitionKeepsChildren | strongswan-5.3.2/conf/format-options.py:143-146 | defining a node again changes no child list |
| OptionTree.SiblingsOnlyAppended | strongswan-5.3.2/conf/format-options.py:147-150 | without sorting, siblings stay in the order of first mention |
| OptionTree.SortingOnceIsEnough | strongswan-5.3.2/conf/format-options.py:147-150 | sorting after every insertion gives the same tree as sorting every list once at the end |
| OptionParser.ConfigOption.Adopt | strongswan-5.3.2/conf/format-options.py:87-91 | default, commented flag and description are taken over, name and children are not |
| OptionParser.Parser.Find | strongswan-5.3.2/conf/format-options.py:143-144 | the first sibling of the name and kind is found if and only if the tree has that node |
| OptionParser.Parser.WalkSections | strongswan-5.3.2/conf/format-options.py:152-168 | the walk creates exactly the missing sections, or without creation finds the section if it exists and changes nothing |
| OptionParser.Parser.AddOption | strongswan-5.3.2/conf/format-options.py:136-150 | the linked objects stand for the specified tree afterwards |
| OptionParser.Parser.GetOption | strongswan-5.3.2/conf/format-options.py:170-172 | a section is found if and only if it exists |
| AttributeManager.RequestsFrom | strongswan-5.3.2/src/libcharon/attributes/attribute_manager.c:243-262 | behind the attributes of the handlers ahead come exactly those of the remaining handlers |
| AttributeManager.RequestAt | strongswan-5.3.2/src/libcharon/attributes/attribute_manager.c:243-262 | the j-th attribute of the i-th handler appears at its place, tagged with that handler |
| AttributeManager.RequestCount | strongswan-5.3.2/src/libcharon/attributes/attribute_manager.c:243-262 | and nothing else appears |
| AttributeManager.InitiatorEnumerator.Enumerate | strongswan-5.3.2/src/libcharon/attributes/attribute_manager.c:243-262 | a call yields the first request that is left, skipping handlers without attributes, or reports that none is left |
| AttributeManager.CollectRequests | strongswan-5.3.2/src/libcharon/attributes/attribute_manager.c:275-293 | repeated calls yield every attribute of every handler once and in order |
| AttributeManager.Manager.Handle | strongswan-5.3.2/src/libcharon/attributes/attribute_manager.c:155-197 | the loops ask the requesting handler and then all handlers, up to the first that accepts |
| AttributeManager.OutcomeUnique | strongswan-5.3.2/src/libcharon/attributes/attribute_manager.c:155-197 | who handles the attribute and who was asked is determined by the registered handlers and their answers |
| AttributeManager.RequesterFirst | strongswan-5.3.2/src/libcharon/attributes/attribute_manager.c:155-197 | a registered handler that requested the attribute and accepts it gets it, and no other is asked |
| AttributeManager.UnhandledIffAllRefuse | strongswan-5.3.2/src/libcharon/attributes/attribute_manager.c:155-197 | an attribute goes unhandled if and only if every handler asked refuses |
| AttributeManager.AllAskedIfUnhandled | strongswan-5.3.2/src/libcharon/attributes/attribute_manager.c:155-197 | if no handler is returned, every registered handler has been asked, in order and last, before them only the requesting one, and each refused |
| AttributeManager.FirstAcceptingGetsIt | strongswan-5.3.2/src/libcharon/attributes/attribute_manager.c:176-188 | if the requesting handler is not registered, the first handler of the list that accepts is returned and none behind it is asked |
| AttributeManager.UnhandledIffEachRefuses | strongswan-5.3.2/src/libcharon/attributes/attribute_manager.c:155-197 | for answers that depend on the handler alone, none is returned if and only if every registered handler refuses |
| UnsortMessage.ReorderedIffStableSort | strongswan-5.3.2/src/conftest/hooks/unsort_message.c:60-96 | the reordered payloads are the one list sorted by first mention in which payloads of equal rank, the unmentioned ones included, keep their order |
| UnsortMessage.ReorderedPermutes | strongswan-5.3.2/src/conftest/hooks/unsort_message.c:60-96 | reordering neither loses nor duplicates a payload, with unknown and repeated names |
| UnsortMessage.UnsortHook.OnMessage | strongswan-5.3.2/src/conftest/hooks/unsort_message.c:46-101 | the hook reorders the message it is configured for, leaves every other one alone, and keeps the next-type chain right |
| UnsortMessage.Message.AddPayload | strongswan-5.3.2/src/libcharon/encoding/message.c:1141-1160 | adding a payload extends the chain of next types |
| UnsortMessage.UnsortHook.MoveKind | strongswan-5.3.2/src/conftest/hooks/unsort_message.c:74-82 | the enumeration with removal moves exactly the payloads of the type, in order |

## Left out

- Mutexes and read-write locks: every locked operation is one atomic step. The check of the cached log levels without the lock is a parameter saying whether it happens, not a race.
- Pool: the hash of a peer address is an arbitrary function, the order in which the hashtable enumerates a parameter, identities are strings, and byte order is abstracted by giving an address as its last 32 bits and what precedes them. Shifts by the full width and signed overflow, which C leaves undefined, are not modelled.
- RunConserves: excludes pools of 2^32 - 1 addresses, for which the equation is false in terms of addresses (HugePoolLosesLease); OffsetsConserved covers them.
- Enumerate: once it has returned FALSE behind an entry its inner enumerators are gone in the source as well, so that calling it again is excluded.
- RunRefines: the flat map holds the permissions of files but not of directories, which cloning resets (OtherModesKeptIff); TargetAsAskedIff says what mkdir and chmod do to those of a directory itself.
- WalkableKeepsOthers: needs the ancestors of the path to be directories of the view, which the kernel checks before it calls the filesystem; OthersKeptIffWalkable shows that the condition is exact.
- Union filesystem: symbolic links, hard links, unlink, rename, chown, utimens, I/O errors, short writes, errno values and FUSE itself. Permissions are sets of bits, paths lists of names; the order in which a directory lists its entries is arbitrary.
- Bus: a logger is asked for its levels before it is registered, in one step; formatting a message is represented by the length of its text. The events are alert, authorize and one event for the other hooks, which share one loop; a callback raises events but does not itself add or remove listeners; the implicit child events of ike_updown are further events raised by the caller.
- RemoveListener: an entry that is being called must not be removed, as the source would then use the freed entry when the callback returns. No theorem covers a dispatch in progress whose callbacks remove listeners.
- EventDispatch: how many events a callback raises is fixed when it starts, while each event may depend on everything that has happened.
- NotReentered: speaks of list entries; a listener added twice has two entries and can be re-entered through the other.
- Daemon: settings are given as the list of sections; ike_name, time_format, flush_line, append, opening files and the syslog identifier are not modelled. The default branch registers each of its loggers before it makes the next entry, which the source does for two of them in a different order under the same mutex.
- SetLevel: requires every entry to have a logger object; on a build without syslog support the source would follow a null pointer for a default syslog entry (EquippedIff says when).
- Queues: STAILQ and the other list types of the header; the debug macros.
- Monte Carlo test: the cipher is an arbitrary function; failures of set_key and crypt and the printing are not modelled; the inner count is at least 1, as in the program. The recurrence is that of section 6.4 of the AES Algorithm Validation Suite.
- Netlink: numbers are little-endian and buffers shorter than 2^31 bytes; the fields of the header behind the length are opaque bytes.
- Line splitter: memory exhaustion and the process that produces the output.
- Option tree: reading lines with regular expressions, text wrapping, groff output and tag replacement; definitions arrive as objects. Python strings are compared by code point.
- Attribute manager: the responder side, which uses a library enumerator, and adding and removing handlers, which are calls of the list library.
- Payload reordering: cutting the configured order into names and looking up a name are parameters; payloads consist of their type and next type.
- Containers of libstrongswan (linked_list, hashtable, array, enumerator) are not part of the repository; lists and maps stand for them.
- GUI, mobility client, TPM and PKI tools, credential loading, the remaining conftest hooks and service glue: input and output, or single-field edits.
