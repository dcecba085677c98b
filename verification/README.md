# Warden: a verified model of the sandbox control plane

Warden boots Firecracker microVMs for untrusted code. This project models the parts of it that hold
state or arithmetic, and proves what they promise:

- `Sparse`, `Store`, `Sessions`, `SessionHost`: the snapshot chain of a session. A session is saved as a
  Full image once and as sparse Diff images afterwards, each rebased onto the memory file in place.
  `Coherence` says which runs keep memory and disk of one pause, `Removals` what a failed removal leads to.
- `Address`, `Links`, `HostNetwork`, `Tap`: addresses and their text, the /30 allocator, the link of a VM,
  building it on the host and undoing a build that fails part-way.
- `Policy`, `Egress`: the egress allowlist, its resolution to addresses, and the packet filter it becomes.
- `RateLimit`: the fixed-window limiter with lazy eviction.
- `Gate`, `Pool`: the VM slots and the pool of root disks as transition systems over all interleavings.
- `ProcTree`: the process tree that is moved into a cgroup.
- `Basics`, `Paths`: shared types and the path functions the store relies on.

Objects whose methods change fields are classes (`HostFile`, `FixedWindow`, `DirStore`, `TAP`, `Host`,
`GateObject`, `FilePool`). Each is tied by its contracts to functions on values, and the statements about
whole runs are lemmas about those functions. `dafny verify dfyconfig.toml` checks everything.

## How the environment is modelled

- A file is a sequence of bytes, each data or part of a hole. `SEEK_DATA` and `SEEK_HOLE` behave as
  `lseek()` of POSIX.1-2024 describes.
- A copy has the bytes of its source. `cp --sparse=auto` keeps the holes of a Diff image as well. When `cp` fails,
  `cloneFile` falls back to a plain copy and reports success (internal/runtime/clone.go:12-18); what extents that
  copy gets is arbitrary.
- Firecracker: loading sets memory and clears the dirty set; running writes memory and marks pages; a Full
  image holds all of memory, a Diff image exactly the dirty pages. A state file that was cut short, or whose
  network device has no TAP on the host, or an empty memory file, does not load.
- Every file operation of a save can fail; what the interrupted operation leaves in its file is arbitrary, for the
  state file: the old one, a cut one or the complete new one. Removing a directory can stop part-way.
- A session has at most one live VM, and a VM gets one Execute (the default limit of one VM gives the first,
  `internal/api/execute.go` the second).
- A VM whose boot failed is dead when the inner Boot returns: that path sends it SIGKILL and does not wait
  (internal/runtime/firecracker.go:462-467).
- Clock readings do not decrease in the order in which calls take the limiter's lock.
- An `ip` or `nft` command takes effect or is refused without effect. Commands of Teardown succeed on what exists.
- The forward hook sees packets after destination translation. A flow is tracked from its first accepted
  packet; entries may expire at any time; a dropped packet and an ICMP error leave none. A flow a helper expects
  stays related until its first reply.
- Name lookup, IPv6 text and the kernel's answer to a cgroup write are parameters.

## What the code does not promise

Some properties hold only under a condition, which is then proved to be exact:

- A jailed save gives the guest's memory exactly when the copied Diff serves: no clean byte other than zero became
  data and no changed byte became a hole (`Sparse.RebaseOfCopyIff`, `Sessions.MemoryChain`). A fallback copy without
  holes serves exactly when every clean byte is zero (`Sparse.DenseCopyServesIff`); otherwise the save reports success
  and the memory is lost (`Coherence.LostExtentsBreakCoherence`).
- A restore resumes one pause, given that copies serve, unless a save stopped, beside committed metadata, between the
  start of its first export and the end of its last; a copy of the state file can report an error after its last byte
  (`Coherence.CoherentIff`).
- A failed Full save can be followed by a resume exactly when metadata of an earlier chain is still in the directory,
  with a state file, old or new, that the host can load (`Removals.FailedFullResumedIff`). That state is reached when
  removing an old directory fails, an error the code ignores (`Removals.DeleteFailureResumesFailedFull`). A guest
  resumed from it can lack the device its allowlist asks for, or have that of another chain (`Sessions.RestoredNicIff`,
  `Removals.DeleteFailureLosesNic`, `Removals.DeleteFailureMixesLinks`).
- A session boots again unless its metadata is there and its state file or memory image is not, which a removal that
  stops part-way can leave (`Removals.BootsAgainIff`, `Removals.DeleteFailureBreaksSession`).
- A failed build of a link leaves the host as it was exactly when the command that failed is not the move of the TAP
  into the namespace and the host had no namespace, table, route or host veth of the link's names
  (`HostNetwork.CompensationIff`). While a link is up, every build of a link with the same host veth name fails and
  its cleanup removes the live link's veth (`HostNetwork.CollidingBuildCutsLiveLink`). Sessions whose ids agree on
  their first 13 letters and digits are such links (`Links.SameDevicesIff`, `Tap.SimilarSessionCutsLiveLink`).
- Live VMs stay within the limit unless two Destroy calls of one instance overlap: the second returns at once and
  releases the slot while the first is still stopping the VM (`Gate.CoverageLostIff`,
  `Gate.OverlappingDestroyBreaksBound`).
- Two /30 allocations of one process are disjoint unless their call numbers agree modulo 2^32
  (`Links.AllocationsSeparateIff`).
- The comment on `Allows` (internal/network/policy.go:92-93) speaks of exact host or host:port matching. The code
  drops the port: an entry `host:port` admits the host on every port (`Policy.LiteralAdmitsIff`).

## Model

| member | source | states |
|---|---|---|
| Sparse.SeekData | internal/runtime/sparse.go:29-35 | SEEK_DATA finds the first data byte from an offset; None (ENXIO) means only holes follow |
| Sparse.SeekHole | internal/runtime/sparse.go:36-42 | SEEK_HOLE ends the extent: data up to the result and a hole, or the end of the file, there |
| Sparse.HostFile.ApplySparseDiff | internal/runtime/sparse.go:15-54 | the in-place extent loop makes the base the overlay of the diff, for every base and diff; cut short anywhere it is the overlay of exactly the prefix written, and it fails exactly when data lay past the cut |
| Sparse.RebaseResumes | internal/runtime/sparse.go:27-53 | stopping at any byte and rebasing again in full gives what one uninterrupted rebase gives |
| Sparse.RebaseIsMemory | internal/runtime/sparse.go:12-14 | rebasing the Diff of a VM loaded from a memory file turns that file into the VM's whole memory |
| Sparse.RebaseNeedsEveryDirtyPage | internal/runtime/sparse.go:12-14 | the rebased file is the memory if and only if every changed page was marked dirty |
| Sparse.RebaseOfCopyIff | internal/runtime/clone.go:12-18 | rebasing any copy of the Diff with its bytes gives the memory if and only if no clean byte other than zero became data and no changed byte a hole |
| Sparse.DenseCopyServesIff | internal/runtime/clone.go:29-45 | a copy without holes does so if and only if every clean byte is zero |
| Sessions.MemoryChain | internal/runtime/fcsnap.go:43-114 | after any run, with saves stopped anywhere and directories that could not be removed, a faultless save commits; the memory file is the guest's memory at that pause if and only if the copied Diff serves (always when `cp` keeps holes, and unjailed); Diff exactly for restored VMs, which were loaded from the current memory file |
| Sessions.RecordAfterSave | internal/runtime/fcsnap.go:43-57 | the committed record names the VM that wrote it, its CID, the number of the commit, and keeps the time of the first one |
| Sessions.RebasedDiffIsRemoved | internal/runtime/fcsnap.go:100-105 | a rebased Diff is gone after the save, unless removing it failed |
| Sessions.SaveThenRestore | internal/runtime/firecracker.go:98-115 | save, destroy and boot bring back the same registers, disk, network device, host link and guest CID, and the same memory if and only if the copied Diff serves |
| Sessions.ColdBootIsFresh | internal/runtime/firecracker.go:477-519 | whatever an earlier guest left, a cold-booted VM has the golden disk, its own memory, the new link and CID; unjailed, the disk in the directory is golden too |
| Sessions.ResumesIff | internal/runtime/firecracker.go:98-115 | a boot resumes exactly when metadata is there, its network is the one wanted, the files it needs are there and fit the recreated TAP, and nothing fails |
| Sessions.BootFailsClosed | internal/runtime/firecracker.go:94-115 | a boot without a TAP factory for its network, or over unreadable or broken metadata, changes nothing |
| Coherence.RestoreIsCoherent | internal/runtime/fcsnap.go:249-262 | jailed: in every run without a stop between the start of the first export and the end of the last beside committed metadata, and with copied Diffs that serve, every restore resumes state, memory and disk of one pause, the last exported in full, also after aborted jobs, failed commits and failed removals |
| Coherence.MidStopBreaksCoherence | internal/runtime/fcsnap.go:86-110 | for each stage between, a run whose restore mixes two pauses |
| Coherence.CoherentIff | internal/runtime/fcsnap.go:86-110 | over the runs whose mid-export stops are at one stage and, optionally, whose copies serve: restores stay coherent if and only if copies serve and the stage is not between the start of the state file's export and the end of the disk's |
| Coherence.LostExtentsBreakCoherence | internal/runtime/clone.go:12-18 | a run without any stop whose Diff is copied without holes and whose restore has lost memory |
| Sessions.LinkIsStable | internal/runtime/fcsnap.go:116-163 | in every reachable state the host link, the guest's device, the CID and the saved record are those the last cold boot was given |
| Sessions.NextCID | internal/runtime/firecracker.go:120-123 | the next guest CID is never reserved, also when the 32-bit counter wraps |
| Sessions.CidsDifferIff | internal/runtime/firecracker.go:120-123 | two boots of a process get the same fresh CID exactly when their numbers differ by a multiple of 2^32 - 3 |
| Sessions.NicIffAllowlist | internal/runtime/firecracker.go:203-212 | each instance Boot returns, cold or restored, under any policy change, has a network device exactly when the allowlist is non-empty, where old directories could be removed |
| Sessions.TapIffAllowlist | internal/runtime/fcsnap.go:22-27 | from any state, the instance has a TAP exactly when the allowlist is non-empty |
| Sessions.RecreatedTapIsComplete | internal/network/tap.go:196-212 | a recreated link has every name and its prefix, whatever its record left out |
| Sessions.RestoredNicIff | internal/runtime/fcsnap.go:170-189 | the guest of a restored VM has the device the host recreates exactly when state file and metadata agree on it, and one where the allowlist asks for one exactly when they agree on having one |
| Removals.DeleteFailureLosesNic | internal/runtime/firecracker.go:111-113 | a run with a failed removal whose resumed guest has no device under a non-empty allowlist |
| Removals.DeleteFailureMixesLinks | internal/runtime/firecracker.go:106-113 | a run with a failed removal whose resumed guest has the MAC of another chain than its TAP |
| Sessions.GenerationCountsCommits | internal/runtime/fcsnap.go:111-113 | the committed generation is the number of commits since the cold boot |
| Sessions.FailedFullIsNeverResumed | internal/runtime/fcsnap.go:57-60 | when old directories could be removed, a Full save that fails at any stage leaves nothing that a later boot restores |
| Removals.FailedFullResumedIff | internal/runtime/firecracker.go:98-115 | jailed or not, whatever was done before: after some failed Full save some boot resumes a snapshot, if and only if earlier metadata is in the directory and the old state file fits the host or the VM's own would |
| Sessions.EarlyFailureLeavesSessionIff | internal/runtime/fcsnap.go:77-84 | a jailed save that stops at a stage leaves every session as if untried if and only if that stage is the pause or the create |
| Removals.DeleteFailureResumesFailedFull | internal/runtime/firecracker.go:106-110 | a run with a failed removal that reaches such a state |
| Removals.BootsAgainIff | internal/runtime/firecracker.go:98-115 | from any state without a VM, some boot succeeds if and only if the metadata is not left without what it describes |
| Removals.BrokenStaysBroken | internal/runtime/firecracker.go:111-113 | a session left so never changes again, whatever is tried |
| Removals.DeleteFailureBreaksSession | internal/runtime/firecracker.go:106-110 | a run with a removal that stops part-way after which no boot ever succeeds |
| Sessions.ReachableInv | internal/runtime/firecracker.go:84-173 | the invariant every step of boot, restore, run, save and destroy keeps |
| Sessions.ReachableMem | internal/runtime/fcsnap.go:57-60 | in every run a VM about to be saved was loaded from the memory file it would be rebased onto, or is a cold one with generation 0 |
| SessionHost.Host.SaveSnapshot | internal/runtime/fcsnap.go:43-114 | the step-by-step save, committed through the directory store, is the save step of the session machine for every fault; it reports success exactly when it commits and touches no other session |
| SessionHost.Host.RebaseDiff | internal/runtime/fcsnap.go:100-105 | rebasing through the extent loop gives the overlay, or the overlay of the prefix written |
| SessionHost.Host.BootSession | internal/runtime/firecracker.go:98-115 | restore, or delete and cold boot, or fail closed, through the directory store, as the session machine does; a VM that is not restored has nothing of an earlier guest; no other session is touched |
| SessionHost.Host.ColdBoot | internal/runtime/firecracker.go:118-173 | a cold boot with the record Prepare returns and the link Setup returned, whose VM has the golden disk and nothing of an earlier guest |
| Store.SanitizedIff | internal/snapshot/store.go:105-113 | a session id is accepted exactly when it is one ordinary path component |
| Store.DirectoriesAreDisjoint | internal/snapshot/store.go:115-124 | no path below one session's directory lies below another's |
| Store.DirStore.Prepare | internal/snapshot/store.go:127-143 | a fresh record of generation 0, or an error that changes nothing; no committed record and no other session changes; bad ids are refused |
| Store.DirStore.Commit | internal/snapshot/store.go:146-187 | refines updating a map from session to record; refused unless state, non-empty memory and disk exist; stopped at any step of writing the metadata a restore sees what it saw before; other sessions untouched |
| Store.DirStore.Restore | internal/snapshot/store.go:190-215 | returns the committed record, not-found without one, corrupt when its files are missing, an error when the metadata cannot be read |
| Store.DirStore.Delete | internal/snapshot/store.go:218-224 | removes the session's record, or the files a failed removal has reached, and nothing of any other session |
| Address.PrintThenParse | internal/runtime/fcsnap.go:138-143 | reading a printed IPv4 address gives the address |
| Address.ParseThenPrint | internal/runtime/fcsnap.go:149-162 | every text read as an IPv4 address is its printed form |
| Address.ParseIPChooses | internal/network/tap.go:421-427 | the first separator decides the grammar: a colon means IPv6, none or a zone first means no address |
| Links.RecordKeepsLink | internal/runtime/fcsnap.go:116-163 | a link written into a record and read back is the same link, absent addresses included; a record has a network exactly when a link was saved |
| Links.LinkSurvivesRound | internal/network/tap.go:184-212 | Recreate gets exactly the link Setup allocated, and filling derived fields changes nothing |
| Links.FillDerivedKeeps | internal/network/tap.go:196-212 | filling keeps what a record holds |
| Links.FillDerivedCompletes | internal/network/tap.go:196-212 | what a record of a TAP name alone becomes, every field |
| Links.Pair30Exact | internal/network/tap.go:390-400 | no truncation: the pair is addresses 1 and 2 of block n-1 |
| Links.AllocationSucceedsIff | internal/network/tap.go:140-148 | the k-th allocation succeeds exactly when k modulo 2^32 is in 1..16383; past 16383 every call fails until the counter wraps |
| Links.AllocationsSeparateIff | internal/network/tap.go:379-408 | two allocations have disjoint TAP and uplink blocks and different MACs exactly when their numbers differ modulo 2^32 |
| Links.DisjointPrefixIff | internal/network/tap.go:379-388 | prefixes that do not hold each other's address share no address |
| Links.MacInjective | internal/network/tap.go:402-408 | different guest addresses give different MAC texts |
| Links.GuestSubnetOfAny | internal/network/tap.go:46-60 | any link: no subnet without a host address, else the block of four around it, /30 unless the link says otherwise |
| Links.GuestSubnetIsTheBlock | internal/network/tap.go:46-60 | the guest subnet is exactly the four addresses of the block of host and guest |
| Links.DerivedNetnsIsValid | internal/network/netns.go:34-48 | every derived namespace name passes the check apply makes first |
| Links.ValidNetnsIff | internal/network/netns.go:66-71 | the check in plain words: one component, or the root, without two dots in a row |
| Links.SetupIsWellNamed | internal/network/tap.go:149-165 | a link Setup builds has distinct, non-empty names and prefix 30 |
| Links.SetupAddresses | internal/network/tap.go:140-165 | the link of index n holds addresses 1 and 2 of block n-1 of 172.25.0.0/16 and of 172.27.0.0/16 |
| Links.FirstLinkIs | internal/network/tap.go:140-165 | the link of the VM fc-1 and index 1, every field |
| Links.DeviceNames | internal/network/netns.go:50-64 | TAP and veth names are one letter before the same core, the first 14 letters and digits of the id Setup is given |
| Links.FilterConcat | internal/network/tap.go:354-359 | filtering works character by character: with FilterOne it is determined |
| Links.NetnsKeeps | internal/network/netns.go:34-48 | an id of letters, digits and dashes is kept whole in its namespace name |
| Links.FallbackNames | internal/network/netns.go:34-64 | what an id without letters, digits and dashes gets, and the veths of a bare TAP name |
| Links.TableMasks | internal/network/tap.go:369-377 | a table name keeps every place of the id and masks what is not a letter, digit or underscore |
| Links.JobsApart | internal/network/tap.go:140-165 | different VM numbers give links that share no device, namespace or table name |
| Links.SessionNames | internal/runtime/fcsnap.go:15-20 | the names of a session whose id is a short word, in full |
| Links.SameDevicesIff | internal/runtime/fcsnap.go:15-20 | two sessions ask for the same device names exactly when the first 13 letters and digits of their ids agree: the session prefix takes one of the 14 places |
| Links.SessionsAndJobsApart | internal/runtime/fcsnap.go:15-20 | a link of a session and a link without one share no device, namespace or table name |
| HostNetwork.CompensationIff | internal/network/tap.go:231-296 | for every host and every failing command, the deferred Teardown restores the host exactly when it had nothing Teardown removes by name and the command was not the TAP move |
| HostNetwork.BuildThenTeardown | internal/network/tap.go:298-329 | after a build the TAP is only inside the namespace, every address, up flag, route and rule is in place, and Teardown restores the initial host, the forwarding flag aside, exactly when it had no table or route of the link |
| HostNetwork.ForwardingIsOn | internal/network/tap.go:286-288 | after a build forwarding is on in the host and in the namespace, unless its sysctl was refused |
| HostNetwork.SubnetIsRouted | internal/network/tap.go:279-292 | after a build the guest's subnet leaves through the host veth, whose other end is in the namespace, and the rules are loaded |
| HostNetwork.CollidingBuildCutsLiveLink | internal/network/tap.go:235-244 | while a link is up, a build of any link with the same host veth name stops before its own veth exists, and wherever it stops its cleanup removes the live one |
| HostNetwork.TeardownRestoresIff | internal/network/tap.go:300-329 | Teardown of any partly built link restores any host exactly when nothing of the names it removes was there before and no TAP is stranded |
| HostNetwork.TeardownClears | internal/network/tap.go:300-329 | whatever the host, table, route, namespace and host veth of the link are gone afterwards |
| HostNetwork.TeardownWithoutNamespace | internal/network/tap.go:315-323 | a link without a namespace loses its TAP by name |
| HostNetwork.BuildSucceedsIff | internal/network/tap.go:231-296 | a build goes through exactly when its names and route are free and the host refuses no command whose error counts |
| HostNetwork.ReachedIsBuilt | internal/network/tap.go:242-293 | on any host, a build that has come to command k has added exactly its own objects, configured so far |
| HostNetwork.CommandKeepsShape | internal/network/tap.go:242-293 | each command adds its part of the link and nothing else |
| HostNetwork.CommandConfigures | internal/network/tap.go:242-293 | after each command exactly the addresses, up flags, default route and rules of the commands so far are set |
| Tap.TAP.Apply | internal/network/tap.go:231-296 | every command issued, in order: all of them, and the link stays, or up to the one that stopped the build, and then Teardown; it succeeds exactly when the link fits and the host refuses nothing that counts |
| Tap.TAP.TeardownLink | internal/network/tap.go:300-329 | tries every removal whatever fails, and reports an error exactly when the table or the namespace was not there |
| Tap.TAP.Precheck | internal/network/tap.go:214-229 | passes exactly the deny-by-default, non-empty allowlists without blanks whose entries all resolve, to some address |
| Tap.TAP.Setup | internal/network/tap.go:135-180 | takes the next index exactly when the policy passes the precheck, and applies that index's link with the rules of the resolved allowlist; returns it exactly when it fits and nothing is refused; runs no command when the policy or the index does not pass |
| Tap.TAP.Recreate | internal/network/tap.go:184-194 | applies a stored link unchanged with the rules of the resolved allowlist, allocating nothing; succeeds exactly when it fits and nothing is refused |
| Tap.SetupThenRecreate | internal/network/tap.go:182-194 | Setup, save, Teardown and Recreate from the record: the same link comes back by the same logged command sequence, sysctls included, when the allowlist resolves to the same addresses; and the second build goes through |
| Tap.RulesGuardTheLink | internal/network/nft.go:12-41 | after a build of a Setup link every loaded rule names the device in the host through which the guest's subnet leaves and whose other end is in the link's namespace; the TAP is not in the host |
| Tap.AppliedMeans | internal/network/tap.go:231-296 | on any consistent host: success exactly when the link fits and nothing that counts is refused, then the link is built in full; a failed apply restores the host exactly when Teardown spares it and the TAP move did not fail |
| Tap.SimilarSessionCutsLiveLink | internal/network/tap.go:353-367 | while a session is up, every build for a session whose id agrees on the first 13 letters and digits fails and cuts the first one's veth |
| Egress.RenderNFT | internal/network/nft.go:12-41 | partitions by family and writes a destination rule for each family that occurs |
| Egress.RulesAreWellFormed | internal/network/nft.go:14-33 | no rule has an empty address set; each set holds one family and all of it |
| Egress.RulesNameTheDevice | internal/network/tap.go:35-43 | every rule names the host veth, or the TAP of a link without one |
| Egress.AcceptsIff | internal/network/nft.go:24-34 | the chain accepts exactly known flows through the device and packets entering it for an allowed address |
| Egress.EveryAcceptedPacketHasAnAllowedOrigin | internal/network/nft.go:12-41 | on every trace each accepted packet leads back, by its flow or related flows, to a packet that opened its flow from the guest's device to an allowed address |
| Egress.OtherTrafficIsDropped | internal/network/nft.go:25-28 | traffic between other devices is never accepted |
| Egress.EmptyAllowlistDropsAll | internal/network/nft.go:25-34 | with no allowed address nothing is ever accepted |
| Egress.AllowedExchangePasses | internal/network/nft.go:26-33 | an allowed opening packet passes, and so does its reply |
| Egress.ExpectedFlowPasses | internal/network/nft.go:26-27 | the first packet of an expected flow passes, and so do the next ones before any reply |
| Policy.Validate | internal/network/policy.go:59-73 | accepts exactly deny-by-default policies without blank entries, and otherwise says which rule is broken, naming the first blank entry |
| Policy.Allows | internal/network/policy.go:94-114 | true exactly when some entry admits the normalised query |
| Policy.HostAdmitsIff | internal/network/policy.go:94-114 | an entry that names a host admits a query that names one exactly when the hosts are equal, in any case, with any ports, however padded |
| Policy.AllowsHostsIff | internal/network/policy.go:94-114 | for an allowlist of host names and IPv4 literals Allows admits exactly the queries for one of them |
| Policy.BlankQueryIsRefused | internal/network/policy.go:95-98 | a blank query is refused whatever is allowed |
| Policy.SplitBracketed | internal/network/policy.go:99-102 | a bracketed host with a port loses brackets and port |
| Policy.SplitTooManyColons | internal/network/policy.go:99-102 | a bare text with two colons does not split, so an IPv6 literal is kept whole |
| Policy.SplitIff | internal/network/policy.go:99-102 | exactly which texts split and into what: host:port, or [host]:port for a host with colons |
| Policy.ResolveAllowlist | internal/network/tap.go:410-441 | lists once each exactly the addresses the entries stand for; fails exactly when one cannot be resolved |
| Policy.EntryIsLookedUp | internal/network/tap.go:415-430 | an entry is parsed or looked up as written, without padding and without its port |
| Policy.ResolutionResolves | internal/network/tap.go:410-441 | the addresses in order of first appearance hold each address some entry stands for once, and nothing else |
| Policy.MergedInOrder | internal/network/tap.go:414-440 | the addresses of earlier entries come before those of later ones, each in the order it was found |
| Policy.NewFlowAcceptedIff | internal/network/nft.go:28-33 | a new flow passes exactly when it enters by the filter interface and some entry stands for its destination |
| Policy.AllowsAgreesWithResolution | internal/network/policy.go:94-114 | for IPv4-literal allowlists Allows and the resolved list agree on every IPv4 query, with any numeric or named port or none |
| Policy.FilterAgreesWithAllows | internal/network/policy.go:4-6 | for IPv4-literal allowlists the packet filter decides what Allows decides |
| Policy.LiteralAdmitsIff | internal/network/policy.go:103-112 | a literal entry admits a literal query exactly when the addresses are equal, whatever the ports |
| RateLimit.FixedWindow.Allow | internal/api/ratelimit.go:39-68 | one decision of the limiter, sweep included |
| RateLimit.FixedWindow.EvictLocked | internal/api/ratelimit.go:70-76 | the loop keeps exactly the unexpired counters |
| RateLimit.EvictionIsInvisible | internal/api/ratelimit.go:55-76 | on every history the evicting limiter answers every request as one that never evicts |
| RateLimit.CallersAreIndependent | internal/api/ratelimit.go:43-63 | on every history the answer to a request is its answer on the sub-history of the same key alone; a caller without a key shares with anon only |
| RateLimit.SameWindowIff | internal/api/ratelimit.go:78-90 | two requests share a window exactly when they are known by the same kind of thing, token before certificate before scheme before address, and it is the same |
| RateLimit.NoLimitAdmitsAll | internal/api/ratelimit.go:40-42 | a limit that is not positive admits everything |
| RateLimit.AddingKeepsMapSmall | internal/api/ratelimit.go:64-66 | after a call that adds a key the map has at most 4096 entries or no expired one |
| RateLimit.CounterMeaning | internal/api/ratelimit.go:55-63 | a counter holds its window's start and the admissions since |
| RateLimit.AdmittedIffRoomInWindow | internal/api/ratelimit.go:55-67 | a request passes exactly when fewer than limit were admitted since its window opened, a window defined from request times alone |
| RateLimit.DenialMeansFullWindow | internal/api/ratelimit.go:60-62 | a denial means exactly limit admissions in the current window, all less than one window ago |
| RateLimit.SlidingBound | internal/api/ratelimit.go:39-68 | any half-open interval of k windows admits at most (k+1)*limit - 1 requests of one key |
| RateLimit.SlidingBoundIsTight | internal/api/ratelimit.go:39-68 | for every limit, number of windows and window of at least two ticks a history reaches the bound |
| Gate.SlotsConserved | internal/runtime/gate.go:58-90 | in every interleaving occupied slots are inner boots in flight plus unreleased leases, at most the caller's max, or one when that is less than one |
| Gate.ReleaseNeverBlocks | internal/runtime/gate.go:72-79 | no release waits on an empty channel |
| Gate.AllSlotsFree | internal/api/execute.go:99-110 | when all calls are over every slot is free, however often Destroy was called |
| Gate.LiveVMsBounded | internal/api/execute.go:99-118 | live VMs never exceed the caller's max, or one, in every run in which no second Destroy enters while the first still stops the VM, repeated Destroy afterwards included |
| Gate.AllSlotsUsable | internal/runtime/gate.go:30-43 | a run in which exactly that many VMs live and no slot is free |
| Gate.CoverageLostIff | internal/runtime/gate.go:87-90 | a next step can free the slot of a live VM if and only if two Destroy calls of one instance overlap |
| Gate.OverlappingDestroyBreaksBound | internal/runtime/gate.go:87-90 | for every max, a run with max + 1 live VMs |
| Gate.GateObject.Select | internal/runtime/gate.go:64-70 | the select takes a slot or gives up |
| Gate.GateObject.InnerBootReturned | internal/runtime/gate.go:71-79 | a failed inner boot gives the slot back, a successful one passes it to the lease |
| Gate.GateObject.EnterDestroy | internal/runtime/gate.go:87-90 | only the first Destroy of an instance stops its VM |
| Gate.GateObject.RunRelease | internal/runtime/gate.go:76-89 | the release runs once however often it is called |
| Pool.PoolInvariant | internal/runtime/pool.go:28-84 | in every interleaving ready, filling, owed and failed fills add up to the size, and unmoved clones are golden |
| Pool.OwedFillRefills | internal/runtime/pool.go:73-84 | an owed fill that succeeds puts one more golden clone into the pool, from every reachable state |
| Pool.OverflowUnreachable | internal/runtime/pool.go:79-83 | the removal branch of fill never runs |
| Pool.HandedOnce | internal/runtime/pool.go:61-67 | no clone goes to two Acquire calls or back to the pool |
| Pool.AcquireIsClean | internal/runtime/pool.go:54-71 | every successful Acquire puts golden content at its destination, whatever guests wrote before |
| Pool.AcquireDelivers | internal/runtime/pool.go:54-71 | a whole Acquire, anything in between: the caller's own destination gets golden content, from the clone ready longest |
| Pool.ChannelIsFifo | internal/runtime/pool.go:61-83 | what was handed out and what is ready only grows at its end |
| Pool.FilePool.ReceiveReady | internal/runtime/pool.go:61-70 | a receive takes a clone never handed out before and owes a new fill |
| Pool.FilePool.SendReady | internal/runtime/pool.go:79-83 | a finished clone is always published |
| ProcTree.DescendantPIDs | internal/resources/cgroup.go:162-176 | for every parent map, cycles included, and every iteration order: without duplicates exactly the pids other than the root whose parent chain reaches it |
| ProcTree.MoveProcs | internal/resources/cgroup.go:101-118 | moves exactly the accepted pids and fails exactly when none was accepted |
| ProcTree.AttachTree | internal/resources/cgroup.go:75-79 | the moved set is the accepted part of the whole tree below the process |

## Left out

- Coherence of disk and memory in unjailed mode: a restored unjailed VM writes the store's disk directly, so an aborted job changes it.
- Release of everything by a failed boot: the error path tears down TAP and files only, so it is not claimed.
- Several VMs' tables together, and the postrouting chain: each table's forward chain is decided alone.
- Uniqueness of /30 blocks across process restarts: the counter restarts while stored addresses are reused.
- Path fields of a record: fixed by the session id, so they are not part of the model's record.
- Machine configuration, sockets, processes, timeouts and logs of a boot.
- JSON encoding, API keys, JWT, TLS, HTTP handlers, audit sinks, request validation and the stub runtime.
- Gate.LiveVMsBounded: a VM that a failed boot killed counts as dead when that boot returns, because the code does not wait for it.
- Policy.Allows: lower-cases ASCII letters only; Go also maps other scripts.
- Address.ParseIP: IPv6 text is read by a parameter rather than spelled out.
- Pool.Run: the clone counter is unbounded rather than 64 bits wide.
- Egress.TableAt: only forwarded packets open flows; flows the host itself opens are not modelled.
- RateLimit.FixedWindow.Allow: a nil limiter, which admits everything, is not an object here; a limit of 0 or less behaves the same.
