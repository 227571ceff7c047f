# gpu-sim, verified

gpu-sim describes a GPU cluster in a topology file, publishes it to Kubernetes as simulated nodes and
device slices, breaks parts of it on a timeline, and judges how schedulers react. This project models
that logic in Dafny 4.11 and proves what its comments and documentation promise.

Three parts carry the weight.

**Partitions.** A GPU's memory is cut into aligned runs, one run for each profile and legal start.
Overlap is expressed to the scheduler through counters: one for each memory position, one pool of compute
slices. The counters are exact (`Allocation.CountersExact`), `Actual` is the largest number of further
instances they admit (`Allocation.ActualIsTheLimit`), `Ideal` is the largest number any rearrangement of
what is held admits (`Defragmentation.IdealIsTheLimit`), and both hold in every state of every run of claims
and releases (`Runs.ReportAlongRun`). Every field of a GPU's report is true of what it holds
(`Runs.AnalysisTells`). The partitions are published as slices and read back from whatever
order a cluster lists them in; nothing is lost on the way (`Lossless.PublishThenDecode`), and after an apply
each GPU's report is that of its own node's partitions exactly where no name collides with one held on another
node (`Inspection.AppliedIsInspected`). All of this is proved for any geometry whose profile sizes form a
divisibility chain; `Profiles.SupportedWellShaped` shows that the four supported GPU models are such.

**Projections.** What a document's own words become in the cluster is stated field by field: which NVLink
domain each GPU is in (`Expansion.DomainIsDeclared`), what each node is labelled (`Documents.AppliedNode`), which
levels are stored (`Documents.AppliedLevels`), and which devices there are and what they say of themselves
(`Devices.AppliedDevices`). A validated topology expands into nodes and GPUs, and is projected three ways: node
labels, KAI levels, and Volcano's tree of HyperNodes. The tree is a forest (`Forest.ForestUnlessShared`), and
its leaves are the nodes carrying the matching label (`Forest.LabelledUnlessShared`), when and only when no
NVLink tier is emitted for a domain that spans two racks.

**Protocols.** Applying a topology is an ordered list of calls, any of which may be refused, or accepted
with its answer lost. Wherever it stops, nothing old has gone before everything new is stored
(`Protocol.NothingDeletedEarly`); where it completes, the cluster is exactly what was generated, whatever
came before (`Convergence.ApplyConverges`, `Client.ApplyForgetsHistory`). Faults taint exactly the devices
they describe, with the effect they name (`Breaking.FaultsHitMatches`, `Runner.Runner.Fire`). A scenario's timeline is stable
and on time (`Timeline.TimelineExact`, `Runner.Runner.RunTimeline`), recovery is counted by identity
(`Runner.PassMeansRecovered`), and when a recovery's budget binds is settled exactly (`Polling.PassInBudget`).

## Reading the project

- Code that computes a value step by step is a method proved equal to a specification function; the
  theorems are lemmas about that function. `Decoding.NodeState`, `Client.Client`, `Runner.Runner` and
  `Time.Clock` are classes with the source's own fields.
- A choice the source leaves to the runtime (map order, the order a server lists objects in, whether a
  call succeeds, how far a clock moves) is left open, and every theorem holds for all of them.
- Dafny's automatic induction is switched off on every lemma: each proof is what its body says.
- `dafny verify dfyconfig.toml` checks everything.

Modules by layer: `Options`, `Arith`, `Sorting`, `Ranges`, `Names`, `Time`; `Profiles`, `Partitions`,
`Fragmentation`, `Packing`, `Occupancy`,
`Counters`, `Allocation`, `Defragmentation`, `Runs`; `Topology`, `Resolve`, `Expansion`; `Resources`,
`Publishing`, `Decoding`, `Lossless`, `Reporting`; `Levels`, `HyperNodes`, `Forest`; `Store`,
`Convergence`, `Protocol`, `History`, `Generating`, `Faults`, `Client`, `Documents`, `Devices`, `Breaking`,
`Inspection`;
`Scenario`, `Timeline`, `Recovery`, `Checks`, `Polling`, `Runner`; `Accepted`.

## Where the code is narrower than its comments

Each of these is kept as the code has it, with the exact condition proved. That validation accepts documents
on the failing side of the first four is shown by `Accepted.SharedDomainAccepted`, `Accepted.TwinsAccepted`,
`Accepted.TwinsMisrecorded` and `Accepted.RepetitionAccepted`.

- No NVLink domain spans two racks: assumed in a comment (`internal/topology/types.go:31-32`), not
  validated. Peer counts are right when and only when it holds (`Expansion.PeersExactUnlessShared`). The
  HyperNodes are a forest, and their leaves the labelled nodes, when and only when it holds or no NVLink tier
  is emitted (`Forest.ForestUnlessShared`, `Forest.LabelledUnlessShared`).
- A partition's device name does not contain its node (`internal/mig/partitions.go:81-83`), while
  allocations are looked up by bare name across the cluster (`internal/cluster/fragmentation.go:77-92`).
  A GPU's report is its own when and only when no partition published for it shares a name with one
  allocated elsewhere and not here (`Reporting.ReportExactUnlessNamesCollide`).
- Casualties of a degradation are matched by the same bare names (`internal/runner/run.go:287-306`). The
  record is exact when and only when no device name is published on two nodes
  (`Runner.RecordsExactUnlessNamesShared`).
- Selecting profiles accepts a list that names one twice (`internal/mig/profiles.go:181-195`). Device names
  on a GPU are unique when and only when it does not (`Partitions.NamesUniqueUnlessRepeated`).
- Lost is said to be the cost of fragmentation (`internal/mig/fragmentation.go:3-8`). Memory used from the
  front on, which fragments nothing, loses nothing to a profile when and only when its size divides the memory
  or no instance of it fits (`Runs.PrefixesLoseNothingExactly`). Every supported model meets this
  (`Runs.SupportedLosesNothing`); only counters published by something else can fail it.
- `rescheduledWithin` promises full strength within a time of the fault (`internal/scenario/types.go:193-199`),
  but nothing compares the clock with the deadline before a check (`internal/runner/assert.go:50-63`). For a
  workload that comes back at all, a pass within the budget is possible when and only when the first check can
  begin by its end, and a pass after it always is (`Polling.PassInBudget`). An evaluation that starts too late
  makes at most one check, and passes however long the recovery took (`Polling.OverdueChecksOnce`); settling an
  earlier assertion for longer than the budget is enough to make it so (`Polling.SettlingSpendsBudget`).
- An attribute may be written without its domain, and is then looked up in map order
  (`internal/cluster/faults.go:97-120`). What a fault matches is settled when and only when attributes that read
  alike agree (`Faults.UnambiguousIsExact`), which generated devices always meet (`Breaking.FaultsHitMatches`).

## Model

| member | source | states |
|---|---|---|
| Names.MemoryCounterRoundTrip | internal/cluster/fragmentation.go:221-228 | parsing a memory counter's name gives back the position it was printed from, for every index of a Go int |
| Names.CounterSetRoundTrip | internal/cluster/fragmentation.go:212-219 | parsing a counter set's name gives back the GPU index |
| Names.AtoiExact | internal/cluster/fragmentation.go:212-228 | an index is read from digits after at most one sign, and gives their value where a Go int holds it and nothing elsewhere |
| Names.SmCounterIsNotMemory | internal/mig/partitions.go:10-20 | the compute counter never parses as a memory position, and no memory counter has its name |
| Names.DeviceNameInjective | internal/mig/partitions.go:81-83 | a device name determines the GPU index, the start, and the profile up to its dots |
| Names.SliceNameInjective | internal/generate/migslice.go:39-42 | a slice name determines its node and which of the node's slices it is, across whole-GPU, counter and partition slices |
| Names.HyperNodeNameInjective | internal/generate/volcanotopology.go:148-150 | among the level names in use, a HyperNode's name determines level and value |
| Names.NamesAreLabels | internal/generate/migslice.go:39-42 | every printed name uses only the characters of a label in section 2.1 of RFC 1123 when its inputs do |
| Profiles.PlacementsExact | internal/mig/profiles.go:144-150 | the listed starts are exactly the aligned ones that fit, increasing, each once |
| Profiles.ListPlacements | internal/mig/profiles.go:144-150 | the loop lists those starts |
| Profiles.SupportedWellShaped | internal/mig/profiles.go:48-103 | every supported GPU model has profiles of distinct names and sizes whose memory sizes form a divisibility chain with compute monotone along it |
| Profiles.GeometryByName | internal/mig/profiles.go:48-114 | a layout is known for four GPU models, in any case of their ASCII letters, each with the profile names of its own table |
| Profiles.DatacenterTable | internal/mig/profiles.go:48-74 | the instance limits are NVIDIA's 7, 4, 3, 2, 1, 1, and one GPU publishes 21 partitions |
| Profiles.Lookup | internal/mig/profiles.go:127-134 | finds a profile of that name, or there is none |
| Profiles.Select | internal/mig/profiles.go:181-195 | the loop returns the selection in the caller's order, the whole list for no names, and fails on the first unknown name |
| Profiles.NamedExact | internal/mig/profiles.go:181-195 | a selection exists exactly when every name is known, and is then one profile of each name in order |
| Profiles.SelectionWellShaped | internal/mig/profiles.go:181-195 | a selection keeps every property the theorems need if and only if it names no profile twice |
| Partitions.ListMemorySlices | internal/mig/partitions.go:41-47 | the loop lists a partition's positions in order |
| Partitions.OverlapsIsSharedSlot | internal/mig/partitions.go:50-56 | two partitions overlap exactly when they are on one GPU and share a memory position |
| Partitions.EnumeratePartitions | internal/mig/partitions.go:63-76 | the nested loops produce the specified list of partitions |
| Partitions.PartitionsForExact | internal/mig/partitions.go:63-76 | a partition is listed exactly when its profile is selected and its start legal, and the number listed is the declared total |
| Partitions.DeviceNamesUnique | internal/mig/partitions.go:63-83 | with distinct profiles no device name is published twice on a GPU |
| Partitions.NamesUniqueUnlessRepeated | internal/mig/profiles.go:181-195 | device names on a GPU are unique if and only if the selection names no profile twice |
| Fragmentation.StateFromAllocated | internal/mig/fragmentation.go:21-30 | the loops compute the state implied by a list of partitions |
| Fragmentation.PlacementIsFree | internal/mig/fragmentation.go:108-115 | true exactly when no position of the run is occupied |
| Arith.GoDivTruncates | internal/mig/fragmentation.go:84-102 | division leaves a remainder of the sign of what is divided, and smaller than the divisor |
| Fragmentation.AnalyseGPU | internal/mig/fragmentation.go:72-106 | the loop computes the report whose fields Runs.AnalysisTells is about |
| Fragmentation.TotalLost | internal/mig/fragmentation.go:63-69 | the loop sums the losses of a report |
| Packing.PackingIsLegal | internal/mig/fragmentation.go:36-45 | runs of sizes from a divisibility chain, laid out largest first, are aligned, fit their total, and do not overlap |
| Allocation.CountersExact | internal/generate/migslice.go:110-163 | offered partitions keep every published counter within capacity if and only if they are pairwise non-overlapping and their compute fits the pool |
| Allocation.Conservation | internal/mig/fragmentation.go:21-30 | disjoint partitions occupy as many positions as their sizes add up to |
| Allocation.ActualIsTheLimit | internal/mig/fragmentation.go:84-115 | the counters admit n further instances of a profile if and only if n is at most Actual |
| Defragmentation.IdealIsTheLimit | internal/mig/fragmentation.go:36-45 | some legal relocation of the same profiles admits n further instances if and only if n is at most Ideal |
| Runs.RunStaysAccepted | internal/mig/fragmentation.go:11-30 | every state of every run of counter-respecting claims and releases is within capacity |
| Runs.ReportAlongRun | internal/mig/fragmentation.go:72-106 | in every such state free and held add up to capacity in both dimensions, Actual and Ideal are the exact limits, and Lost is not negative |
| Runs.AnalysisTells | internal/mig/fragmentation.go:72-106 | a report carries the GPU's index; free and held slices add up to its capacity; there is one entry for each profile, in order and under its name, whose actual and ideal are the exact numbers of further instances admitted now and after moving everything, and whose lost is their difference; the largest allocatable is the last profile of which one more is admitted |
| Runs.LostIsNotNegative | internal/mig/fragmentation.go:84-102 | Actual lies between zero and Ideal |
| Runs.NextRequest | internal/mig/fragmentation.go:84-102 | some partition of a profile can be claimed next if and only if Actual is positive |
| Runs.PrefixLosesNothing | internal/mig/fragmentation.go:84-102 | when the used positions are a prefix, a profile whose size divides the memory loses nothing |
| Runs.RemainderPrefixLosesOne | internal/mig/fragmentation.go:84-102 | a profile whose size does not divide the memory loses one when the remainder and any number of whole runs are used up at the front, although the free memory is one run of whole instances |
| Runs.PrefixesLoseNothingExactly | internal/mig/fragmentation.go:84-102 | memory used from the front on loses nothing to a profile if and only if its size divides the memory or no instance of it fits at all |
| Runs.SupportedLosesNothing | internal/mig/profiles.go:48-103 | on every supported model memory used from the front on loses nothing to any profile |
| Runs.LossNeverNegative | internal/mig/fragmentation.go:84-115 | no loss is negative, even in states no allocator would reach |
| Runs.IdleLimit | internal/mig/profiles.go:152-165 | on an idle GPU Actual, Ideal and MaxInstances agree and are the largest feasible number of instances |
| Runs.HalvesSpoiled | internal/mig/fragmentation.go:3-8 | on every datacenter model two claims of the smallest profile can leave six positions free and no half-size partition allocatable, where one would be after moving either |
| Runs.SmallerAlsoFits | internal/mig/fragmentation.go:82-103 | where a profile fits, every profile before it in the sorted chain fits |
| Runs.LargestIsLastFitting | internal/mig/fragmentation.go:82-103 | over sorted profiles those that fit are a prefix; the largest allocatable is its last, and is empty exactly when nothing fits |
| Topology.ValidatePool | internal/topology/parse.go:100-129 | reports each kind of problem exactly where the pool has it, and none exactly for a valid pool |
| Topology.ValidateNodes | internal/topology/parse.go:77-91 | carries on from the racks before: no problem exactly when this rack's nodes are named, new and in defined pools |
| Topology.ValidateNVLink | internal/topology/resolve.go:190-209 | reports no problem exactly when no rack that declares a domain has a node without NVLink |
| Topology.ValidateRacks | internal/topology/parse.go:54-92 | reports no problem exactly when rack and node names are non-empty and unique across the document and pools are defined |
| Topology.Validate | internal/topology/parse.go:33-98 | reports no problem exactly for a valid document |
| Resolve.GpusInRack | internal/topology/resolve.go:179-185 | the loop sums the GPUs of a rack |
| Resolve.LoadProfiles | internal/topology/resolve.go:79-90 | succeeds exactly when every referenced profile loads |
| Resolve.ExpandNode | internal/topology/resolve.go:97-150 | expands a node, or fails when its partition layout is unknown |
| Resolve.ExpandRack | internal/topology/resolve.go:94-154 | expands a rack in order, or names the first node that stops it |
| Resolve.Resolve | internal/topology/resolve.go:79-157 | fails on a profile that does not load, else on the first node in rack order with an unknown partition layout, else gives the expansion |
| Expansion.NodeShape | internal/topology/resolve.go:108-150 | a resolved node has its pool's number of GPUs, indexed in order, in its rack's place, with partitions exactly when its pool has MIG enabled |
| Expansion.DomainIsDeclared | internal/topology/resolve.go:159-177 | a node and its GPUs are in no NVLink domain, with no peers, where the pool has none, else in the rack's where it declares one, else in the node's own, with the peers of the rack or the node |
| Expansion.NodeIsDeclared | internal/topology/resolve.go:108-150 | pool, fault domains, bus addresses, MIG geometry, selected profiles and partitions are those the document and the GPU profile give |
| Expansion.ValidResolves | internal/topology/parse.go:33-98 | a validated document always resolves, into unique node names in rack order |
| Expansion.PeersExactUnlessShared | internal/topology/resolve.go:164-185 | every GPU's peer count is the number of other GPUs of its domain in the whole cluster if and only if no domain spans two racks |
| Publishing.ChunkDevices | internal/generate/migslice.go:191-201 | the loop cuts a list into the specified chunks |
| Publishing.ChunksExact | internal/generate/migslice.go:191-201 | chunks concatenate back to the list, none is empty or too long, and all but the last are full |
| Publishing.BuildCounterSet | internal/generate/migslice.go:110-121 | the loop publishes one counter for each memory position and the pool of compute |
| Publishing.BuildDevice | internal/generate/migslice.go:123-163 | the loop publishes a partition with one counter for each position it covers and its compute |
| Publishing.PublishMig | internal/generate/migslice.go:51-75 | the loops produce the specified slices of a node |
| Publishing.PublishedDevices | internal/generate/migslice.go:51-75 | read in order, the slices carry exactly the node's devices |
| Publishing.SliceBudget | internal/generate/migslice.go:51-102 | for any number of GPUs: no slice mixes counters and devices or exceeds 64, each declares the number emitted, names differ, and there is one device for each GPU and partition |
| Decoding.DecodeGeometry | internal/cluster/fragmentation.go:112-129 | ranging over a counter set in any order gives its capacity: one position for each counter that reads as one, and the compute counter's value |
| Decoding.DecodeDevice | internal/cluster/fragmentation.go:131-159 | ranging over a device's counters in any order gives the partition it describes: its positions sorted, each as often as counters read as it, and its compute |
| Decoding.NodeState.Absorb | internal/cluster/fragmentation.go:112-160 | a slice adds its counter sets and its devices to what its node has published |
| Decoding.AddSetsAt | internal/cluster/fragmentation.go:113-129 | a GPU's capacity is that of the last counter set under its index |
| Decoding.UsedState | internal/cluster/fragmentation.go:172-183 | the loops add up the positions and compute of the published partitions that are held |
| Decoding.UsedByIs | internal/cluster/fragmentation.go:172-181 | the positions in use are exactly those of the partitions held |
| Decoding.ReportGPU | internal/cluster/fragmentation.go:169-186 | the analysis of what is held over a listing of the published profiles |
| Decoding.NodeState.Report | internal/cluster/fragmentation.go:162-188 | one report for each GPU index, in increasing order, on the partitions held |
| Decoding.DistinctProfilesOf | internal/cluster/fragmentation.go:192-210 | the published profiles, one for each name, smallest first |
| Decoding.LastNamedIs | internal/cluster/fragmentation.go:193-198 | where partitions of one profile name differ in size, the last decides |
| Lossless.DeviceReadsBack | internal/cluster/fragmentation.go:131-159 | a published partition is read back as itself, on its own GPU |
| Lossless.CounterSetReadsBack | internal/cluster/fragmentation.go:112-129 | a published counter set is read back as the GPU's capacity |
| Lossless.StateReadsBack | internal/cluster/fragmentation.go:162-186 | slices in any order describe, for every GPU, the state of the partitions held |
| Lossless.ListingReadsBack | internal/cluster/fragmentation.go:192-210 | the profiles read back are the selected ones, smallest first |
| Lossless.PublishThenDecode | internal/cluster/fragmentation.go:112-210 | absorbing a node's slices in any order and analysing gives, for every GPU, the analysis of the node's held partitions over the selected profiles |
| Reporting.ReadNode | internal/cluster/fragmentation.go:54-64 | absorbing a list of slices one by one gives what their counter sets and devices add up to |
| Reporting.PublishAndReport | internal/cluster/fragmentation.go:40-75 | publishing a node and reading its slices back in any order gives, for every GPU, the analysis of its partitions whose names are held |
| Reporting.ValidIsWellFormed | internal/topology/resolve.go:108-150 | a MIG node of a validated topology satisfies what the decoder's theorems ask if and only if its pool names no profile twice |
| Reporting.ReportExactUnlessNamesCollide | internal/cluster/fragmentation.go:77-92 | with allocations looked up across the cluster a GPU's report is its own if and only if no name it publishes is held elsewhere and not here |
| Reporting.TwinNodeMisreported | internal/mig/partitions.go:81-83 | on two nodes of one layout, whatever the first holds makes the report of the idle second wrong |
| Levels.LabelCarriesLevel | internal/generate/node.go:40-62 | every node carries the label of every level, with that level's value, the NVLink one only when it has a domain |
| Levels.AllNodesHaveNVLink | internal/generate/kaitopology.go:70-77 | true exactly when there are nodes and all have a domain |
| Levels.BuildVolcanoLevels | internal/generate/volcanotopology.go:120-135 | the levels, finest first, with the NVLink one only when every node has a domain |
| Levels.KAITopologyFor | internal/generate/kaitopology.go:48-68 | KAI's levels are Volcano's tiers in reverse, each naming a label every node carries |
| Levels.LevelsByName | internal/generate/labels.go:99-113 | a scenario's level names are those the levels are published under, each for the label that carries the level |
| HyperNodes.GroupTier | internal/generate/volcanotopology.go:68-97 | one tier's loop collects exactly the members of each value |
| HyperNodes.LexExact | internal/generate/volcanotopology.go:98-104 | names are ordered by the first character in which they differ, a name before those it begins |
| HyperNodes.BuildTier | internal/generate/volcanotopology.go:98-104 | one tier: a HyperNode for each value with members, values and members sorted |
| HyperNodes.VolcanoHyperNodes | internal/generate/volcanotopology.go:68-108 | emits, tier by tier and sorted, one HyperNode for each value with members, and nothing else |
| Forest.MembersAreEmitted | internal/generate/volcanotopology.go:68-108 | every member of a HyperNode of HyperNodes is itself emitted, one tier below |
| Forest.MembersOnce | internal/generate/volcanotopology.go:174-181 | no HyperNode lists a member twice |
| Forest.HierarchyIsForest | internal/generate/volcanotopology.go:68-108 | where levels nest, every HyperNode below the top has exactly one parent, one tier up |
| Forest.LeavesAre | internal/generate/volcanotopology.go:68-108 | the leaves under a HyperNode are exactly the nodes that have its value |
| Forest.LabelledUnlessShared | internal/generate/kaitopology.go:48-77 | for a validated topology the leaves of every HyperNode are the nodes whose label for the matching KAI level has its value if and only if no NVLink tier is emitted for a domain that spans two racks |
| Forest.ForestUnlessShared | internal/generate/volcanotopology.go:68-135 | for a validated topology the HyperNodes form a forest if and only if no NVLink tier is emitted for a domain that spans two racks |
| Generating.BuildNodes | internal/generate/node.go:32-38 | the loop generates one node object for each resolved node, in order |
| Generating.BuildSlices | internal/generate/resourceslice.go:20-32 | the loop generates each node's slices, partitions or whole GPUs, never both |
| Generating.GeneratedIsCoherent | internal/generate/resourceslice.go:20-67 | what a validated topology generates uses each name once, is all managed and untainted, and has slices only for generated nodes |
| Generating.EveryDeviceCounted | internal/cluster/topology.go:63-70 | the devices of the generated slices are as many as the whole GPUs and the partitions of the topology |
| Convergence.ApplyConverges | internal/cluster/topology.go:32-108 | from any store, a completed apply leaves exactly the generated nodes, slices and HyperNodes under management, field for field, and every unmanaged object of another name as it was |
| Protocol.NothingDeletedEarly | internal/cluster/topology.go:82-99 | wherever the protocol stops, nothing that was there has gone, or everything new is stored in its final form |
| Protocol.AnchoredAlong | internal/cluster/client.go:188-222 | if every managed slice named an existing node at the start, it does after every call |
| Protocol.TaintsAreErased | internal/cluster/faults.go:17-19 | an apply after devices have been tainted ends in the store it would have ended in without the taints |
| Protocol.ApplyIsIdempotent | internal/cluster/topology.go:26-31 | applying again changes nothing and deletes nothing |
| History.HistoryIsForgotten | internal/cluster/topology.go:26-31 | after any sequence of applies, failed applies, taints and node kills, a completed apply leaves exactly the generated nodes and slices, field for field; the fields it does not own are as created, or as they were on an adopted object |
| Faults.LookupQualified | internal/cluster/faults.go:113-120 | finds some attribute that reads like the name without its domain, or there is none |
| Faults.StripsDomain | internal/cluster/workloads.go:183-188 | whatever the domain, what follows its slash is what is left |
| Faults.LookupAttribute | internal/cluster/faults.go:97-106 | the attribute as written if it is published so, else any that reads like it, else none |
| Faults.Matches | internal/cluster/faults.go:93-111 | a match is one that some order of the attributes allows, a mismatch one that some order allows |
| Faults.UnambiguousIsExact | internal/cluster/faults.go:93-120 | whether a device matches is independent of map order, for every match, if and only if attributes that read alike agree or one is published bare |
| Faults.OneDomainUnambiguous | internal/generate/labels.go:54-92 | names published bare, or also bare, or under one domain never clash |
| Breaking.MigUnambiguous | internal/generate/migslice.go:123-145 | no two attributes of a published partition clash |
| Breaking.WholeUnambiguous | internal/generate/resourceslice.go:69-114 | no two attributes of a published whole GPU clash, although its type is published under two names |
| Breaking.ReachedIsUnambiguous | internal/cluster/faults.go:52-120 | attributes stay unambiguous in an applied cluster, whatever faults fire in it |
| Breaking.FaultsHitMatches | internal/cluster/faults.go:52-120 | in such a cluster a fault that completes leaves every matching device with exactly its old taints and one more, of the fault's key and effect, and everything else as it was; the names returned are theirs |
| Faults.BreakingIsTainting | internal/cluster/faults.go:52-91 | breaking devices, completed or not, is one of the disturbances an apply erases |
| Faults.OnlyTaintsGained | internal/cluster/faults.go:71-83 | devices keep their number, order, names, attributes and counters, and only gain taints |
| Client.Client.ApplyNode | internal/cluster/client.go:100-141 | create or replace what the topology owns, then the status; stops at the first refusal |
| Client.Client.ApplyResourceSlice | internal/cluster/client.go:146-168 | create, or adopt by name and replace labels and spec |
| Client.Client.DeleteStaleHyperNodes | internal/cluster/topology.go:163-178 | deletes exactly the managed HyperNodes not in the tree, in the order listed, up to a refusal |
| Client.Client.PruneSlices | internal/cluster/client.go:182-206 | deletes exactly the managed slices not kept, in the order listed, up to a refusal |
| Client.Client.PruneNodes | internal/cluster/client.go:208-222 | deletes exactly the managed nodes not kept, in the order listed, up to a refusal |
| Client.Client.ApplyHyperNodes | internal/cluster/topology.go:130-179 | writes the tree, then deletes exactly the managed HyperNodes not part of it |
| Client.Client.Prune | internal/cluster/client.go:179-225 | deletes exactly the managed slices not kept, then exactly the managed nodes not kept, and reports what it removed in that order |
| Client.Client.CheckPartitionableDevices | internal/cluster/features.go:24-55 | passes only on a server that keeps shared counters |
| Client.Client.ApplyTopology | internal/cluster/topology.go:32-108 | refuses an invalid or unloadable topology with the store unchanged, and one with MIG on a server that drops counters before any slice is published; otherwise makes the calls of the plan in order, all of them or up to a refusal, and counts nodes, slices, devices and removals |
| Client.ApplyIsSafe | internal/cluster/topology.go:82-99 | completed or not, an apply of a validated topology deletes nothing early and leaves no managed slice without its node |
| Client.ApplyMatches | internal/cluster/topology.go:26-31 | a completed apply makes the cluster match the topology file |
| Client.MIGAsDeclared | internal/cluster/topology.go:110-117 | an apply needs a server with shared counters exactly where a node of the document has MIG enabled |
| Documents.LinkedAsDeclared | internal/generate/kaitopology.go:70-77 | every node has an NVLink domain exactly where every node's pool has NVLink |
| Documents.AppliedLevels | internal/generate/kaitopology.go:48-68 | the levels stored are fault domain, rack, NVLink domain exactly where every node's pool has NVLink, and host, by their labels and names |
| Documents.TreeAsDeclared | internal/generate/volcanotopology.go:120-172 | each HyperNode's tier, tier name, kind of member and name, by the document |
| Documents.AppliedNode | internal/generate/node.go:40-77 | every node of the document is stored, labelled key by key with its place and its pool, with the NVLink label exactly where its pool has NVLink, and kept free of other workloads |
| Devices.AppliedDevices | internal/generate/resourceslice.go:69-114 | every device stored is a GPU or partition the document describes, with the name, attributes and counters it should have and no taint, and every one the document describes is stored |
| Devices.WholeNameInjective | internal/gpuid/gpuid.go:33-44 | a whole GPU's name determines its node and index |
| Client.ApplyIsStep | internal/cluster/topology.go:32-108 | what an apply does to the store, completed or not, is a step of a history |
| Client.DeleteIsStep | internal/cluster/faults.go:140-146 | deleting a node removes it or does nothing, and success means it is gone |
| Client.ApplyForgetsHistory | internal/cluster/topology.go:26-31 | after any history, a completed apply leaves exactly what the topology generates, with no taint, adopting what was there first under a generated name |
| Client.Client.StrikeSlice | internal/cluster/faults.go:68-83 | strikes each matching device of a slice and collects their names |
| Client.Client.TaintDevices | internal/cluster/faults.go:52-91 | on success every managed slice has exactly its matching devices tainted, each with one taint more of the key and effect asked for where attributes are unambiguous, and the names returned are theirs; on failure each slice is tainted or untouched |
| Client.Client.DeleteNode | internal/cluster/faults.go:140-146 | one delete, a missing node counting as deleted |
| Inspection.AllocatedNames | internal/cluster/fragmentation.go:77-92 | the names of the devices allocated to any claim |
| Inspection.Group | internal/cluster/fragmentation.go:53-64 | one state for each node named, holding what its slices add up to |
| Inspection.Inspect | internal/cluster/fragmentation.go:40-75 | one report for each node that publishes counter sets, in the order of their names |
| Inspection.GeneratedIsDivisible | internal/cluster/fragmentation.go:162-210 | nothing a topology publishes makes the analysis divide by zero |
| Inspection.InspectedNotNegative | internal/cluster/fragmentation.go:162-186 | no inspection of generated slices reports a negative loss, whatever is held and even where names collide |
| Inspection.InspectionReadsBack | internal/cluster/fragmentation.go:40-75 | inspecting the generated slices in any order lists exactly the MIG nodes, each with the analysis of its partitions whose names are held anywhere in the cluster |
| Inspection.AppliedIsDivisible | internal/cluster/fragmentation.go:162-210 | an applied cluster can always be inspected: its slices, in any order, are the generated ones, and make nothing divide by zero |
| Inspection.AppliedIsInspected | internal/cluster/fragmentation.go:34-92 | once a topology has been applied, from any state, an inspection lists its MIG nodes, and each GPU's report is that of what its own node holds if and only if no name it publishes is held elsewhere and not there; every field is then true of it |
| Accepted.SharedDomainAccepted | internal/topology/types.go:31-32 | validation accepts one NVLink domain in two racks, and then peer counts are wrong and the HyperNodes no forest |
| Accepted.TwinsAccepted | internal/mig/partitions.go:81-83 | validation accepts two MIG nodes of one layout, and then any partition held on the first collides with the second's |
| Accepted.TwinsMisrecorded | internal/runner/run.go:287-306 | once such nodes are applied, a fault on one can record the pods of the other |
| Accepted.RepetitionAccepted | internal/mig/profiles.go:181-195 | validation accepts a pool naming a profile twice, and then a GPU publishes a name twice |
| Scenario.ValidateWorkload | internal/scenario/parse.go:103-130 | reports each kind of problem exactly where the workload has it, and none exactly for a valid workload |
| Scenario.ValidateFault | internal/scenario/parse.go:227-251 | reports each kind of problem exactly where the fault has it, and none exactly for a named, later fault that either degrades or kills |
| Scenario.ValidateDegrade | internal/scenario/parse.go:253-276 | reports each kind of problem exactly where the degradation has it, and none exactly for one complete target and a known effect |
| Scenario.ValidateAssertion | internal/scenario/parse.go:132-213 | reports no problem exactly for an assertion with one condition, at most one way of waiting, and something to measure |
| Scenario.ValidateDocument | internal/scenario/parse.go:47-101 | reports no problem exactly for a valid document |
| Timeline.BuildEvents | internal/runner/run.go:191-200 | the loops declare one event for each submission, retirement and fault, at the offset it declares |
| Timeline.OffsetIsDeclared | internal/runner/run.go:190-203 | every event on the timeline is at the offset the document gives it |
| Timeline.TimelineExact | internal/runner/run.go:190-203 | the timeline holds exactly the declared events at their declared offsets, each once, by offset, and at equal offsets in the order of declaration |
| Timeline.SubmittedThenRetired | internal/scenario/parse.go:121-127 | each workload is submitted at exactly one point, and retired at exactly one later point or never |
| Recovery.SnapshotPods | internal/cluster/faults.go:164-202 | each pod as it stands, with exactly the devices allocated to claims it owns |
| Recovery.IsPodHit | internal/runner/run.go:283-303 | a pod is hit when its node was killed or one of its devices broke |
| Recovery.RecordCasualties | internal/runner/run.go:279-306 | records exactly the pods that were running and hit |
| Recovery.CasualtiesExact | internal/runner/run.go:352-364 | over any sequence of faults a workload's casualties are exactly its pods that were running and hit when some fault fired |
| Recovery.CasualtiesAreStruck | internal/cluster/faults.go:164-202 | over any sequence of faults the casualties are exactly the pods listed as running that lost their node, or a device given to a claim they own |
| Recovery.CasualtiesGrow | internal/runner/run.go:352-364 | further faults only add casualties |
| Recovery.LastFiredIs | internal/runner/run.go:352-364 | the time a recovery is measured from is when some fault fired, and none fired later |
| Checks.PlacedAre | internal/runner/assert.go:109-114 | the replicas counted as placed are the workload's pods that have a node |
| Checks.ExpectedIs | internal/scenario/parse.go:216-225 | "all" asks for every replica, "none" for no replica, and a number for that many |
| Checks.ConfinedIsOneValue | internal/runner/assert.go:136-174 | replicas are confined exactly when some has a node and one value of the label is that of every node that holds one |
| Checks.ContainsIs | internal/runner/assert.go:212-214 | a text contains another exactly when it is the other with something before and after |
| Checks.LostAdds | internal/runner/assert.go:282-285 | the total lost counts every profile of every GPU of every node once |
| Checks.CheckConfined | internal/runner/assert.go:136-174 | passes exactly when the level is known, some replica is placed, every placed one is on a node that can be read, and their nodes agree on the level's label |
| Checks.CheckAllocated | internal/runner/assert.go:176-207 | passes exactly when the workload holds devices and each is published with every wanted attribute |
| Checks.CheckReason | internal/runner/assert.go:209-221 | passes exactly when some message of the scheduler contains the wanted text |
| Checks.CheckFragmentation | internal/runner/assert.go:273-310 | passes exactly when there are MIG nodes and the partitions lost across them lie within the bounds |
| Checks.LostInIsZero | internal/cluster/fragmentation.go:24-30 | where no loss is negative, the total is zero exactly when no profile has lost anything on any GPU |
| Checks.InspectedLostIsZero | internal/runner/assert.go:282-285 | so it is for every cluster the simulator has set up, whatever is held in it |
| Recovery.HealthyAreOthers | internal/runner/assert.go:256-261 | the count of healthy pods is the number of running pods outside the casualties |
| Polling.FirstIsTheOne | internal/runner/assert.go:78-98 | a valid assertion is checked by the one condition it sets |
| Polling.RescheduledIsRecovered | internal/runner/assert.go:242-270 | a recovery check passes if and only if something was hit and as many pods as replicas run that were never hit |
| Polling.ScheduledIsCounted | internal/runner/assert.go:100-116 | a scheduled check passes exactly when as many pods have a node as the word or number asks for |
| Polling.RunningIsCounted | internal/runner/assert.go:118-130 | a running check passes exactly when that many pods of the workload run |
| Polling.ConfinedToLevel | internal/runner/assert.go:136-174 | confinement is judged by the label of the level named |
| Polling.AllocatedRead | internal/runner/assert.go:176-207 | a device check passes exactly when the workload holds something and every device held is published and reads as wanted |
| Polling.ReasonIsSaid | internal/runner/assert.go:209-221 | a reason check passes exactly when some message has the text in it |
| Polling.DisruptedIsCounted | internal/runner/assert.go:225-233 | a disruption check passes exactly when a fault fired and as many pods were recorded as asked for |
| Polling.FragmentationIsBounded | internal/runner/assert.go:273-310 | a fragmentation check passes exactly when there are reports and the total lost is within both bounds |
| Polling.PolledFor | internal/runner/assert.go:36-63 | an assertion that is no recovery is checked every two seconds for as long as it says, or sixty seconds |
| Polling.RecoveryPolledFor | internal/runner/assert.go:42-63 | a recovery is checked every two seconds until its budget from the latest fault is over |
| Polling.PolledOutcome | internal/runner/assert.go:32-65 | a polled assertion passes if and only if one of its checks did, and without a cancellation fails only after a check followed by a clock past the deadline |
| Polling.PollsBounded | internal/runner/assert.go:50-63 | the number of checks is bounded by the budget over the interval |
| Polling.ChecksInBudget | internal/runner/assert.go:50-63 | some check begins by the deadline if and only if the first does, all but the last then do, and otherwise the first is the only one |
| Polling.OverdueChecksOnce | internal/runner/assert.go:32-63 | a recovery evaluation that cannot check by the end of its budget makes at most one check, after it, which alone decides |
| Polling.SettlingSpendsBudget | internal/runner/assert.go:22-63 | an assertion settled for longer than a recovery's budget just before it leaves the recovery no check within it |
| Polling.PassInBudget | internal/scenario/types.go:193-199 | for a workload that comes back, a pass within the budget is possible if and only if a check can begin by its end, and a pass after it always is |
| Runner.TargetIsDescribed | internal/runner/run.go:315-333 | what a degradation is aimed at is what it describes: the nodes with the level's value, or the devices with every attribute |
| Runner.TargetExists | internal/runner/run.go:315-333 | a degradation has something to aim at exactly when it names attributes, or some node carries the value at the level named |
| Runner.Runner.Fire | internal/runner/run.go:267-312 | a fault that lands removes its node, or leaves one taint more, NoExecute unless it names another effect, on exactly the devices it describes, and adds one record of who was running and hit at that moment; one that fails adds none |
| Runner.RunBreaksExactly | internal/runner/run.go:190-238 | over a whole run in an applied cluster each degradation finds unambiguous attributes, and so breaks exactly what it describes |
| Runner.Runner.DisruptedFor | internal/runner/run.go:352-364 | the union of the records, and the latest firing |
| Runner.Runner.AimAt | internal/runner/run.go:315-333 | attributes if given, else the nodes with a value of a known level, unless the nodes cannot be listed |
| Runner.Runner.AwaitOffset | internal/runner/run.go:205-214 | without a cancellation, the offset has been reached |
| Runner.Runner.RunEvents | internal/runner/run.go:205-237 | events start in order, none before its offset, up to the first error; the faults fired are those of the events in order, each with its blow, and together all that happened to the store |
| Runner.Runner.RunTimeline | internal/runner/run.go:190-238 | the same for a scenario's own timeline, all of it on success; nothing is submitted, retired or broken before the offset the document gives |
| Runner.Runner.CheckScheduled | internal/runner/assert.go:100-116 | passes exactly when the pods with a node are all the replicas, none, or the number written |
| Runner.Runner.CheckDisrupted | internal/runner/assert.go:225-233 | passes exactly when a fault fired and the casualties are as many as expected |
| Runner.Runner.CheckRescheduled | internal/runner/assert.go:242-270 | passes exactly when a fault hit the workload and enough healthy pods run |
| Runner.Runner.CountHealthy | internal/runner/assert.go:256-261 | counts the running pods of a workload outside a set |
| Runner.Runner.Check | internal/runner/assert.go:78-98 | decides the first condition set, and fails when none is |
| Runner.Runner.Poll | internal/runner/assert.go:50-63 | checks an interval apart until one passes or the deadline has gone by |
| Runner.Runner.Evaluate | internal/runner/assert.go:22-63 | settling makes one check after the whole period; polling runs to a deadline from the last fault for a recovery, and from the moment of asking for anything else |
| Runner.PassMeansRecovered | internal/runner/assert.go:235-270 | a recovery assertion that passes saw as many running pods as replicas that no fault had ever hit: no casualty is its own replacement |
| Runner.RecordsExactUnlessNamesShared | internal/runner/run.go:287-306 | the recorded casualties of a degradation are exactly the pods that lost a device if and only if no device name is published on two nodes |

## Left out

- Kubernetes client machinery: configuration, conflict retries, conversions, and writers other than gpu-sim
  between a read and the write that follows it.
- The MIG DeviceClass's contents: applying it is a call that may be refused.
- YAML parsing, the command line, terminal and JSON reports, and the scheduler's messages.
- The text of errors: validation is accepted or refused with a list of kinds of problem.
- Device identifiers hashed from node and index: a whole GPU's name is printed from the two instead.
- Device attributes other than type, profile, bus address and domains, and quantities, which pass through unchanged.
- Workload translation, submission and retirement: an event of either kind is a call that takes time and may fail.
- The passing of time within one check, which the model lets read a single state of the cluster.
- The waits of sixty and ninety seconds for pods to go: a clock that moves by any amount covers them.
- The faultRecord total, which is only logged.
- 64-bit overflow of sums: counts are unbounded integers; only parsed indexes are held to Go's range.
- Lower-casing of model names outside ASCII.
- Resolve.ExpandNode: does not carry product names, architectures, UUIDs and PCIe or NUMA facts, which pass through unchanged.
- The value of a taint, which is not modelled beside its key and effect.
- Publishing.BuildDevice: publishes the type, profile and domains of a partition, and not the facts ExpandNode leaves out.
- Client.Client.ApplyHyperNodes: supposes the HyperNode resource type, in whose absence the source skips the tree silently.
- Polling.PolledOutcome: does not say that a pass lies within the budget; Polling.PassInBudget says when it can.
- Names.NamesAreLabels: speaks of the characters of a label and not of its length, which the source does not bound.
- Faults.Matches: gives bounds and not an exact answer, because the source ranges over a map; UnambiguousIsExact says exactly when they meet.
