# Verification of the network control plane's stateful parts

Dafny models of the components that keep state across reconciles, and proofs of what they are for.
`dafny verify dfyconfig.toml` checks the whole project.

## What is modelled

**NAT port allocation** (`Arithmetic`, `KeySlots`, `Allocation`, `NatTable`, `NatGateway`, `NatReconcile`, `NatProofs`,
`NatFixedPoint`, `NatExamples`, `Autoscaler`). A bit set per address sits under a view of port ranges; every reconcile
rebuilds the NAT table from the one it wrote before. `slotForPorts` accepts ranges that are not aligned
and a result of `Use` is ignored, so that ranges stay disjoint only because every earlier table was
aligned: that is proved over whole runs. The allocator is a class, the loops of a reconcile are methods
proved against one relation, `Managed`, about which the main results are stated. The results of claims
(`granted`) and of writing the table are inputs.

**DaemonSet controller** (`Labels`, `NodeAffinity`, `Expectations`, `DaemonSet`, `DaemonSetConverges`,
`DaemonSetProtocol`). Planning is modelled loop by loop. The protocol is a state machine: the server's
history of objects, a view that lags behind it, an event handler that lags behind the view, and a
controller carrying out one plan at a time. Others may write anything, except that an instance the
controller created keeps its owner, its target node and the labels that match the selector, a deletion
is not taken back, and names are not reused. A create that fails leaves nothing behind. Events are
attributed by the controller's name, so objects of a namesake may lower expectations too.

**Instance scheduler** (`SchedulerCache`, `AntiAffinity`, `TopologySpread`, `Scheduler`, `SchedulerBalance`). The cache is a
class with the fields of the original, proved to be an index of a plain record of who is where. The
filters count in loops; they are proved to decide what the API promises. Cache operations are atomic
steps, and runs are sequences of them; taking the snapshot and assuming what was decided over it are separate steps.

**Claims** (`VersionedStore`, `IpClaims`, `NicClaims`, `Allocators`). The server holds objects with
versions; a client works from any state an object was ever in. `others[k]` is what everybody else does
before the k-th attempt of a retry loop, `answers` and `copies` are what the attempt reads. The
transactions of the allocators run over the pool of addresses; `created` is what the server answers to
requests for a new address.

**Two smaller pieces** (`Slots`, `ProviderId`). `start` and `start2` are the random numbers drawn.

## Where the code does not do what it seems to

- `ReleaseNetworkInterfaceNAT` compares the modified object with itself (internal/client/client.go:125) and
  never releases anything on the server, contrary to its comment, and reports success.
- Reverting `AllocateUpdate` releases the addresses the object had (internal/registry/ipallocator/allocators.go:293-306),
  as committing does, instead of the new ones.
- `ForgetInstance` reports an error after forgetting (internal/controllers/scheduler/cache.go:200-203).
- Scaling up rounds down: addresses that do not suffice may never be added to
  (internal/controllers/natgatewayautoscaler_controller.go:137).
- A row that is kept is not renewed when its interface's address or node changes
  (internal/controllers/natgateway_controller.go:203-208; `KeptRowGoesStale`).
- With one port per interface no section is ever read back (internal/natgateway/allocation.go:45; `OnePortIsNoFixedPoint`).
- With an offset the second scan of `NextClear` repeats the upper range (utils/slots/slots.go:36-42).
- A confirmation that arrives after its assumption expired may conflict with what was scheduled meanwhile
  (internal/controllers/scheduler/cache.go:289-292; `LateConfirmationConflicts`).

## Model

| member | source | states |
|---|---|---|
| KeySlots.KeySlots.Use | utils/container/slots.go:67-87 | refuses exactly an unknown key, a slot out of range or a taken pair; otherwise the set of taken pairs grows by that pair, the counter and the free keys staying in step with it |
| KeySlots.KeySlots.UseNextFree | utils/container/slots.go:89-110 | fails exactly when as many slots are used as there are; otherwise takes the lowest slot of some key that was not taken |
| KeySlots.KeySlots.constructor | utils/container/slots.go:19-40 | no slot taken, each distinct key once |
| KeySlots.NextClear | utils/container/slots.go:102-103 | finds the lowest clear bit exactly when there is one |
| KeySlots.TakenWithinGrid | utils/container/slots.go:51-65 | the taken pairs lie in the grid of keys and slots, and fill it exactly when no key has room: used equals total only then |
| Allocation.SlotRoundTrip | internal/natgateway/allocation.go:44-58 | every valid slot gives a range that is aligned and inside 1024..65535, wrap-around of 32-bit arithmetic included, and the range reads back as the slot for every width of at least 2, never for width 1 |
| Allocation.PortsRoundTrip | internal/natgateway/allocation.go:44-58 | a range reads as a slot exactly when it is `width` >= 2 ports inside the ephemeral range, aligned or not; it is that slot's range exactly when it is aligned |
| Allocation.AlignedRanges | internal/natgateway/allocation.go:54-58 | aligned ranges of one width overlap only if they are the same, which is when their slots are the same |
| Allocation.ReservationIsExclusive | internal/natgateway/allocation.go:44-67 | the alignment that is never checked matters: reserving the slot a range reads as keeps all other slots' ranges clear of it if and only if the range is aligned or reads as the last slot |
| Allocation.AllocationManager.Use | internal/natgateway/allocation.go:60-67 | reserves the slot a range reads as, if the address is known and the slot free, and nothing else |
| Allocation.AllocationManager.UseNextFree | internal/natgateway/allocation.go:69-77 | fails exactly when everything is used; otherwise the range of a slot that was free |
| NatTable.TableIsDetermined | internal/controllers/natgateway_controller.go:333-385 | two tables in written order with the same rows are the same table: the order in which maps are iterated leaves no trace |
| NatTable.BuildTable | internal/controllers/natgateway_controller.go:333-385 | the table written lists exactly the rows, addresses and ports ascending |
| NatTable.RepresentsMeans | internal/controllers/natgateway_controller.go:333-385 | in the table written addresses and ports ascend, no address is without sections, each section is a row and each row a section |
| NatGateway.ScanIsReusable | internal/controllers/natgateway_controller.go:114-131 | what is read back from any table has current addresses, ranges of the current width, and no slot twice |
| NatGateway.ScanIsComplete | internal/controllers/natgateway_controller.go:114-131 | a table whose rows all read as slots, no two as one, is read back in full |
| NatGateway.AcceptsMeans | internal/controllers/natgateway_controller.go:114-131 | a row is acceptable if and only if it has a target, a current address, and the present number of ports, at least two, between 1024 and 65535 |
| NatGateway.FirstIsReadBack | internal/controllers/natgateway_controller.go:114-131 | an acceptable row is read back if no earlier one reads as its slot and no later one has its target |
| NatGateway.GetExistingAllocations | internal/controllers/natgateway_controller.go:99-132 | the loops read back exactly the reusable rows, later sections of a slot losing to earlier ones |
| NatGateway.KeepOne | internal/controllers/natgateway_controller.go:200-208 | the reservation whose result is ignored always succeeds |
| NatGateway.KeepExisting | internal/controllers/natgateway_controller.go:192-233 | the first loop keeps the rows of claimed matching interfaces, counts the requests and sorts the others into waiting, free and released ones |
| NatReconcile.ServeClaimed | internal/controllers/natgateway_controller.go:235-264 | claimed interfaces without a row are served in order until a slot cannot be had, which happens only when all are used; the rest are released |
| NatReconcile.ServeFree | internal/controllers/natgateway_controller.go:266-310 | free interfaces are claimed in order, each against a slot reserved before; a slot whose claim fails goes to the next, and at most one is pending at the end |
| NatReconcile.ManageNATTable | internal/controllers/natgateway_controller.go:159-317 | rebuilds the table from what was read back: each section belongs to an interface with an address of the family and no public one, claimed by the gateway, or free, not being deleted and granted; a new one names the interface, its node and its first address of the family, over an aligned range on one of the gateway's addresses, any other is the one read back; the requests are counted exactly |
| NatReconcile.GroupsAreDisjoint | internal/controllers/natgateway_controller.go:192-233 | an interface is kept, waiting or free, never two of these |
| NatFixedPoint.ReleasedAre | internal/controllers/natgateway_controller.go:213-264 | released are exactly the interfaces the gateway claimed that no longer match or get no row |
| NatGateway.NicIPIs | internal/controllers/natgateway_controller.go:180-188 | the address listed is the first of the family, or the zero address when there is none |
| Api.ClaimerIs | api/core/v1alpha1/networkinterface_types.go:128-136 | an interface's claimer for a family is that of the first entry of the family |
| NatProofs.ReconcileOnce | internal/controllers/natgateway_controller.go:393-418 | a reconcile, reading the table from a cache, is a step of the runs considered below, and reports the status of the table it makes |
| NatProofs.GoodTableIsSafe | internal/controllers/natgateway_controller.go:319-391 | rows of one width on current addresses with distinct slots make a table with disjoint port ranges and each interface at most once |
| NatTable.SafeMeans | internal/controllers/natgateway_controller.go:319-391 | what safe means of two sections: different interfaces and, on one address, ranges that do not meet, each a slot of the ports from 1024 to 65535 |
| NatProofs.ReadBackIsAligned | internal/controllers/natgateway_controller.go:114-131 | rows of a table written under any earlier configuration are read back only if they are aligned for the present width |
| NatProofs.RunsAreSafe | internal/controllers/natgateway_controller.go:393-418 | over every run that starts without a table or with an aligned one, with addresses, width and interfaces changing, claims failing, writes failing, the gateway recreated and each reconcile reading the table of any earlier time, every table written has pairwise disjoint ranges per address, all of the current width, aligned and inside 1024..65535, only current addresses, and each interface at most once |
| NatExamples.UnalignedTableOverlaps | internal/natgateway/allocation.go:44-67 | without an aligned start it fails: from a table with the range 1026-1029 at width 4 a reconcile writes a table whose ranges overlap |
| NatFixedPoint.SectionsWritten | internal/controllers/natgateway_controller.go:235-316 | if no claim fails, min(requests, slots) sections are written and the status counts exactly those; otherwise it counts them or one more |
| NatFixedPoint.ReleasedOnlyWhenFull | internal/controllers/natgateway_controller.go:235-264 | a claimed, matching interface is released if and only if it gets no row, and then every slot of every address is in use |
| NatFixedPoint.ReadBackIsExact | internal/controllers/natgateway_controller.go:99-132 | a written table of width >= 2 reads back as exactly the rows written |
| NatFixedPoint.OnePortForgets | internal/natgateway/allocation.go:44-47 | with one port per interface nothing is ever read back |
| NatFixedPoint.ReconcileIsFixedPoint | internal/controllers/natgateway_controller.go:393-418 | with nothing else changed, reading back and managing again writes the identical table, in whatever order interfaces are listed and maps iterated, and every interface keeps its address and range |
| NatExamples.OnePortIsNoFixedPoint | internal/controllers/natgateway_controller.go:393-418 | with one port per interface it is not: two interfaces listed the other way round swap their ports |
| NatFixedPoint.RowIsCurrent | internal/controllers/natgateway_controller.go:200-208 | a kept row is copied, so that it describes its interface's present address and node if and only if it is new or did so before |
| NatExamples.KeptRowGoesStale | internal/controllers/natgateway_controller.go:200-208 | a gateway, an interface and two reconciles, the interface moving in between, after which the row still names its old address and node |
| Autoscaler.UnclampedIsNear | internal/controllers/natgatewayautoscaler_controller.go:128-137 | the unclamped number d of addresses satisfies |d*s - r| < s: rounded up when the present addresses suffice, rounded down when they do not, because division truncates |
| Autoscaler.SufficesExactly | internal/controllers/natgatewayautoscaler_controller.go:134-138 | the unclamped number suffices for the requests if and only if the present addresses do or the requests fill whole addresses |
| Autoscaler.DesiredSuffices | internal/controllers/natgatewayautoscaler_controller.go:128-147 | the same with the bounds: the maximum must leave room, and the minimum may make up for it |
| Autoscaler.StaysTooFew | internal/controllers/natgatewayautoscaler_controller.go:128-147 | 64 slots an address, one address and 100 requests: no address is ever added |
| Autoscaler.StaysInBounds | internal/controllers/natgatewayautoscaler_controller.go:139-147 | the maximum is never exceeded, the minimum kept if the maximum allows it, and a number between them within one address of the requests |
| Autoscaler.ScalingSettles | internal/controllers/natgatewayautoscaler_controller.go:128-147 | whatever the bounds, one step reaches a fixed point |
| Autoscaler.ManageIPs | internal/controllers/natgatewayautoscaler_controller.go:94-116 | the new list has the desired length, extends the old one or is cut from it at the end, and keeps names distinct |
| Autoscaler.GenerateNewIPs | internal/controllers/natgatewayautoscaler_controller.go:82-92 | as many new names as asked for, distinct and not among the old |
| NodeAffinity.Match | internal/nodeaffinity/nodeaffinity.go:157-176 | the loop over parsed terms decides whether some term matches; when none does, exactly the terms that do not parse are reported |
| NodeAffinity.RequiredMatchesMeans | internal/nodeaffinity/nodeaffinity.go:27-151 | a node fits if nothing is required, or some term has requirements, all well-formed, that its labels and name fulfil; a node without a name fits every field requirement |
| NodeAffinity.TargetNodeNameIs | internal/controllers/util.go:24-53 | the node an instance is bound to, or else the only value of the first requirement on a name, in term order; which error otherwise |
| Labels.OperatorsMean | internal/nodeaffinity/nodeaffinity.go:57-84 | the operators by pairs: being among the values or not, being there or not, and the comparisons, which are those of the integers printed |
| Labels.ParseUndoesPrint | internal/nodeaffinity/nodeaffinity.go:71-74 | integers of 64 bits are read back as printed, larger ones refused |
| Labels.SelectorMeans | internal/controllers/scheduler_controller.go:129-137 | a label to be equal is an expression with one value; a selector matches what all of them match, a missing one nothing; which expressions parse |
| NodeAffinity.NewNodeSelectorTerm | internal/nodeaffinity/nodeaffinity.go:131-151 | a term parses exactly when all of its requirements do |
| NodeAffinity.PinnedInstanceTargetsItsNode | internal/controllers/util.go:24-104 | for any starting affinity, the pinned instance targets the chosen node, and matches a named node if and only if it is that one; its anti-affinity is kept |
| Expectations.PendingIs | utils/expectations/expectations.go:101-134 | what is pending after any observations is what was expected and not observed |
| Expectations.SatisfiedWhenAllSeen | utils/expectations/expectations.go:101-156 | a controller is satisfied if and only if it waited out the timeout or saw every creation and deletion it expected, in any order |
| Expectations.OthersUntouched | utils/expectations/expectations.go:112-134 | observations for one controller leave the others' entries alone |
| Expectations.Expectations.ExpectCreationsAndDeletions | utils/expectations/expectations.go:101-110 | replaces the controller's entry by the given keys and the present time |
| Expectations.Expectations.CreationObserved | utils/expectations/expectations.go:112-122 | removes the key from what the controller waits to see created, and nothing else |
| Expectations.Expectations.DeletionObserved | utils/expectations/expectations.go:124-134 | removes the key from what the controller waits to see deleted, and nothing else |
| Expectations.Expectations.Satisfied | utils/expectations/expectations.go:136-156 | no entry, a timed out one, or one with nothing pending |
| DaemonSet.GetDaemonInstances | internal/controllers/daemonset_controller.go:87-128 | succeeds if and only if the selector parses and every release, adoption and update needed goes through; the answer is then, in list order and each once, the matching instances controlled by the set or adopted, controlled by it, with the template's payload and otherwise unchanged |
| DaemonSet.ClaimObject | utils/controller/refmanager.go:86-135 | claims what is controlled and matches, releases what is controlled and does not, adopts what nobody controls, matches and is not being deleted; fails exactly when the patch does, other than by finding the instance gone |
| DaemonSet.ClaimedAre | internal/controllers/daemonset_controller.go:87-128 | what the plan counts, over the list: which instances, in which order, and how changed |
| DaemonSet.ClaimedIs | internal/controllers/daemonset_controller.go:87-128 | every owned instance is claimed, nothing is that was not listed, and no name comes twice |
| DaemonSet.GetNodesToDaemonInstances | internal/controllers/daemonset_controller.go:130-150 | each claimed instance is listed under the node it targets and no other |
| DaemonSet.InstancesShouldBeOnNode | internal/controllers/daemonset_controller.go:172-213 | one is created exactly when the node should run one and no live one targets it; of several live ones an oldest is kept; elsewhere all are deleted |
| DaemonSet.PlanFitsMeans | internal/controllers/daemonset_controller.go:152-213 | that plan over the claimed instances and the template: the node should run one if the template is not bound to another and its affinity matches; who stays and who goes |
| DaemonSet.GetUnscheduledWithoutNode | internal/controllers/daemonset_controller.go:215-236 | exactly the unscheduled instances meant for nodes that do not exist |
| DaemonSet.Manage | internal/controllers/daemonset_controller.go:238-269 | the plan over all nodes, and the strays |
| DaemonSet.PlannedMeans | internal/controllers/daemonset_controller.go:238-269 | the whole plan is each node's own, the creations of all nodes, and their deletions with the strays |
| DaemonSet.NewInstanceIsOnItsNode | internal/controllers/daemonset_controller.go:271-295 | an instance created for a node that should run one targets that node |
| DaemonSet.NewInstanceIsClaimed | internal/controllers/daemonset_controller.go:271-295 | if the set selects the template's labels, the next reconcile claims the created instance as it is, with nothing to adopt or update |
| DaemonSetConverges.PlanGivesOnePerNode | internal/controllers/daemonset_controller.go:172-295 | applying the plan leaves exactly one instance, the oldest if there was a choice, on each node that should run one, and none on other known nodes |
| DaemonSetConverges.PlanConverges | internal/controllers/daemonset_controller.go:172-345 | planning again over the result creates and deletes nothing |
| DaemonSetProtocol.ObservedMeansSeen | utils/expectations/expectations.go:112-156 | when no creation is pending, the view has reached the creation of every instance the controller made, and shows those that still live |
| DaemonSetProtocol.StepKeepsInv | internal/controllers/daemonset_controller.go:297-370 | every step - plan, create or delete going through or failing, anybody's write, the view or the event handler advancing - keeps the invariant |
| DaemonSetProtocol.EventLowersOnlyItsOwn | utils/handler/expectations.go:62-131 | an event lowers one kind of expectation of its own object at most, of its own controller only, and an update lowers none |
| DaemonSetProtocol.EventLowersItsOwn | utils/handler/expectations.go:86-131 | the controller's own object coming up lowers a creation, or a deletion if it is being deleted already; its going away lowers a deletion |
| DaemonSetProtocol.HandlingKeepsInv | utils/handler/expectations.go:62-131 | handling the next event keeps what the run relies on, creations not yet handled still being expected in particular |
| DaemonSetProtocol.LiveOnesAreCounted | internal/controllers/daemonset_controller.go:87-150 | an instance of the controller's making that lives on the server is in the plan's view, live and on its node |
| DaemonSetProtocol.NeverASecondInstance | internal/controllers/daemonset_controller.go:297-370 | over every interleaving in which no reconcile gives up waiting for a creation: while a create for a node is due, no live instance this controller created for that node exists on the server, and there are never two |
| DaemonSetProtocol.TimeoutDuplicates | utils/expectations/expectations.go:145-148 | the proviso is needed: for any timeout there is a run in which giving up waiting for a creation makes the controller create a second live instance for a node |
| SchedulerCache.StepRefines | internal/controllers/scheduler/cache.go:164-425 | every operation keeps the invariant and does to states, containers and assumed set what it means for the plain record of who is where |
| SchedulerCache.RunsKeepInv | internal/controllers/scheduler/cache.go:164-425 | every sequence of operations, failed ones included, keeps each known instance in exactly the one container its state names, assumed instances known, and a container only for a node or an instance |
| SchedulerCache.StateIsDetermined | internal/controllers/scheduler/cache.go:104-112 | the fields hold nothing beyond that record |
| SchedulerCache.ReplacedIs | internal/controllers/scheduler/cache.go:363-383 | an update works out whatever container the old object names, provided the new one names the recorded container |
| SchedulerCache.AssumeForgetRestores | internal/controllers/scheduler/cache.go:164-204 | assume then forget restores every field, containers included |
| SchedulerCache.AddOverridesAssume | internal/controllers/scheduler/cache.go:265-297 | assume in one container then add in another is the same as add alone |
| SchedulerCache.CleanupExpiresExactly | internal/controllers/scheduler/cache.go:403-425 | expiry removes exactly the assumed instances whose binding finished, never a confirmed one |
| SchedulerCache.Cache.AssumeInstance | internal/controllers/scheduler/cache.go:164-181 | fails for a known instance, otherwise records it as assumed |
| SchedulerCache.Cache.ForgetInstance | internal/controllers/scheduler/cache.go:183-204 | removes an assumed instance in the container named; reports an error in every case |
| SchedulerCache.Cache.FinishBinding | internal/controllers/scheduler/cache.go:206-223 | marks an assumed instance as ready to expire |
| SchedulerCache.Cache.AddInstance | internal/controllers/scheduler/cache.go:265-297 | confirms an assumed or adds an unknown instance; fails for one already added |
| SchedulerCache.Cache.UpdateInstance | internal/controllers/scheduler/cache.go:299-332 | replaces a confirmed instance in its container; panics when the new object names another |
| SchedulerCache.Cache.RemoveInstance | internal/controllers/scheduler/cache.go:334-361 | removes a known instance; panics when the object names another container |
| SchedulerCache.Cache.AddContainer | internal/controllers/scheduler/cache.go:225-235 | gives the container its node, creating it if need be |
| SchedulerCache.Cache.UpdateContainer | internal/controllers/scheduler/cache.go:237-247 | replaces the node of a container |
| SchedulerCache.Cache.RemoveContainer | internal/controllers/scheduler/cache.go:249-263 | drops the node, and the container if nothing is in it |
| SchedulerCache.Cache.CleanupAssumedInstances | internal/controllers/scheduler/cache.go:403-425 | the loop, in any order, removes exactly the expired instances |
| SchedulerCache.Cache.Snapshot | internal/controllers/scheduler/cache.go:114-151 | exactly the containers that have a node |
| AntiAffinity.CountAll | internal/controllers/scheduler_controller.go:110-184 | a topology pair has a positive count exactly when some term of an existing instance selects the incoming one in that domain, or the other way round |
| AntiAffinity.ExistingCountsMean | internal/controllers/scheduler_controller.go:216-231 | checking a node's labels against the counts is checking that no existing instance repels the incoming one there |
| AntiAffinity.IncomingCountsMean | internal/controllers/scheduler_controller.go:233-255 | the same for the incoming instance's terms, although terms of one topology key share counts |
| AntiAffinity.FilterByAntiAffinity | internal/controllers/scheduler_controller.go:186-214 | a node is admitted if and only if no term in the spec of the instance selects an instance of its namespace listed in the same domain of the term's key, and no term of those selects it |
| AntiAffinity.SnapshotParsesMeans | internal/controllers/scheduler_controller.go:126-171 | the filter fails exactly when there is an instance of the namespace and a selector of its terms or of the incoming one's does not parse |
| TopologySpread.CountPairs | internal/controllers/scheduler_controller.go:330-347 | the loops count, per topology pair, what the eligible nodes hold |
| TopologySpread.PairCountMeans | internal/controllers/scheduler_controller.go:330-347 | a pair's count is the number of instances on eligible nodes of the domain, of the namespace and not being deleted, once for each constraint of the key whose selector is not empty and matches |
| TopologySpread.CriticalPaths | internal/controllers/scheduler_controller.go:349-361 | in any map order the critical path of a key is a pair of it with the least count |
| TopologySpread.LeastDecides | internal/controllers/scheduler_controller.go:363-397 | comparing with the critical path is comparing with every domain |
| TopologySpread.FilterByTopology | internal/controllers/scheduler_controller.go:314-397 | a node is admitted if and only if it has all the topology keys and its domain would exceed no other by more than the skew |
| TopologySpread.SpreadFitsMeans | internal/controllers/scheduler_controller.go:363-397 | what is admitted, over the nodes: the count of the node's domain, with the instance, exceeds that of no eligible node's domain by more than the skew |
| TopologySpread.PairCountIsDomainCount | internal/controllers/scheduler_controller.go:334-347 | with distinct topology keys and non-empty selectors the pair counts are the true domain counts |
| TopologySpread.PlacementKeepsBalance | internal/controllers/scheduler_controller.go:363-397 | a placement through the filter from a balanced state leaves a balanced state |
| TopologySpread.RunsStayBalanced | internal/controllers/scheduler_controller.go:314-397 | so does any run of such placements, interleaved with ones the constraints do not count |
| TopologySpread.EmptySelectorIsNotSpread | internal/controllers/scheduler_controller.go:399-402 | a constraint with an empty selector keeps no node with its key out, once a skew of one is allowed |
| SchedulerBalance.CountsAgree | internal/controllers/scheduler_controller.go:330-347 | a domain's count over the snapshot, in whatever order it is listed, is what the cache holds there |
| SchedulerBalance.FilterFitsCache | internal/controllers/scheduler_controller.go:363-397 | what the filter admits over the snapshot fits what the cache held when it was taken |
| SchedulerBalance.AssumeIsListed | internal/controllers/scheduler/cache.go:164-181 | assuming an instance makes of the listing the one with the instance added on its node |
| SchedulerBalance.DecisionIsAllowed | internal/controllers/scheduler_controller.go:459-508 | a decision for a suitable node, made over the snapshot taken last, is one of the moves of the runs below |
| SchedulerBalance.HarmlessOperations | internal/controllers/scheduler/cache.go:183-425 | finishing a binding, confirming or updating in place, and letting go of instances that are not counted leave the counted ones where they are |
| SchedulerBalance.CacheStaysBalanced | internal/controllers/scheduler_controller.go:314-508 | over every run of snapshots, decisions over the last snapshot for instances with the same constraints, and such cache operations, before, after and between the two, the cache itself stays balanced |
| Scheduler.FilterByNodeAffinity | internal/controllers/scheduler_controller.go:82-108 | exactly the nodes the required affinity matches |
| Scheduler.GetNodesForInstance | internal/controllers/scheduler_controller.go:415-457 | exactly the nodes that the affinity matches and that pass both other filters; fails if and only if a selector that it comes to look at does not parse |
| Scheduler.LeastUsed | internal/controllers/scheduler_controller.go:474-479 | a node with the fewest instances, in any order |
| Scheduler.ReconcileExists | internal/controllers/scheduler_controller.go:459-508 | assumes the instance on a least used suitable node whenever there is one, the selectors parse and the instance has a UID not in the cache, and touches the cache in no other case |
| Scheduler.SuitableIsRegular | internal/controllers/scheduler_controller.go:459-508 | a decision for a suitable node, made over the snapshot taken last, is one of the events of the runs below |
| Scheduler.NoConflictIsClashFree | internal/controllers/scheduler_controller.go:186-214 | what the filter checks over the snapshot is all there is to check in the cache |
| Scheduler.NoConflictMeansNoClash | internal/controllers/scheduler_controller.go:186-214 | what passes the filter clashes with nothing in the cache the snapshot was taken of |
| Scheduler.CoveredClashes | internal/controllers/scheduler_controller.go:186-255 | nor with anything in a later cache that knows only instances alike some of the earlier one |
| Scheduler.PlacingKeepsConflictFree | internal/controllers/scheduler_controller.go:186-255 | placing an instance keeps the cache free of conflicts if and only if it clashes with none of the others |
| Scheduler.RunsStayConflictFree | internal/controllers/scheduler_controller.go:459-508 | while nodes and labels are fixed, every run of snapshots, decisions over the last snapshot, and, between these too, confirmations where assumed, updates, forgets, expiries and removals keeps the cached placement free of anti-affinity conflicts in both directions |
| Scheduler.LateConfirmation | internal/controllers/scheduler/cache.go:289-292 | a confirmation after expiry is taken on trust: the cache stays free of conflicts if and only if nothing scheduled meanwhile clashes |
| Scheduler.LateConfirmationConflicts | internal/controllers/scheduler/cache.go:403-425 | it does happen: an instance is assumed, bound and expires, a suitable node is found for another one, the first is confirmed, and the cache has a conflict |
| VersionedStore.DoneMeansCurrent | internal/registry/ipallocator/ipallocator.go:182-190 | a patch with optimistic lock goes through if and only if the copy it was made from, however old, is what the server still has |
| IpClaims.HolderAfterStep | internal/registry/ipallocator/ipallocator.go:169-209 | one step leaves the holder, takes a free address, or is the holder's own release or a deletion of the object |
| IpClaims.ClaimNeverOverwrites | internal/registry/ipallocator/ipallocator.go:175-199 | a claim that succeeds found the address free or its own |
| IpClaims.ReleaseOnlyOwn | internal/registry/ipallocator/ipallocator.go:298-366 | a release, patch or unconditional delete, changes an object only if the claimer held it, whatever the age of the copy |
| IpClaims.HandoverNeedsRelease | internal/registry/ipallocator/ipallocator.go:169-366 | over every interleaving a claim leaves its holder only through a release by that holder or a deletion of the object by others |
| IpClaims.ClaimIP | internal/registry/ipallocator/ipallocator.go:169-209 | the retry loop: each attempt before the last made was from an outdated copy; it succeeds if and only if made from the current copy of an address that is free or one's own, and then changes its claim and nothing else; which error otherwise, five conflicts among them, and nothing written |
| IpClaims.CurrentCopyIsClaimed | internal/registry/ipallocator/ipallocator.go:175-199 | a claim from the current copy of a free address, or one's own, goes through and changes only the claim |
| IpClaims.ReleaseIP | internal/registry/ipallocator/ipallocator.go:298-366 | an address controlled by the claimer is deleted whatever the age of the copy; another claimed one, if the copy is current, loses its claim and nothing else; everything else is unchanged |
| NicClaims.RunKeepsGood | internal/client/client.go:22-84 | over every interleaving an interface never has two NAT entries of one family |
| NicClaims.ClaimNeverOverwrites | internal/client/client.go:51-79 | a claim that succeeds found the family free and touches no other family and no other interface |
| NicClaims.ClaimNetworkInterfaceNAT | internal/client/client.go:22-84 | each attempt before the last made was from an outdated copy of the caller's interface, unclaimed there; success means the claim was in the copy read or is appended to the interface, changing nothing else; each error exactly when the interface is gone, or replaced, taken or in conflict five times, and nothing written |
| NicClaims.ReleaseNetworkInterfaceNAT | internal/client/client.go:90-130 | never changes anything on the server, the object being compared with itself; fails exactly when the interface is gone or all attempts conflict; with a claimed and current copy it reports success at once and the claim is still there |
| NicClaims.IntendedReleaseReleases | internal/client/client.go:123-128 | compared with the object as read, the patch would have released exactly the family |
| Allocators.AllocateIPs | internal/registry/ipallocator/allocators.go:137-164 | goes on to the first request that cannot be granted; what was allocated before that stays allocated |
| Allocators.GrantableMeans | internal/registry/ipallocator/allocators.go:137-164 | a request can be granted if its address is there, free or the claimer's, or created by an earlier request; without an address, if the server creates one |
| Allocators.GrantedMeans | internal/registry/ipallocator/allocators.go:137-164 | what an allocation leaves, finished or not: each request up to the first that cannot be granted has its address, now the claimer's, and no other claim changed |
| Allocators.ReleaseIPs | internal/registry/ipallocator/allocators.go:115-135 | gives up exactly the own claims among the addresses, in any order |
| Allocators.AllocatorsFor | internal/registry/ipallocator/allocators.go:94-113 | succeeds exactly when every requested family has an allocator, although it stops at the second family |
| Allocators.AllocateCreate | internal/registry/ipallocator/allocators.go:166-218 | succeeds exactly when the families have allocators and every request can be granted, each position then having its address; on failure the requests before the first that cannot stay granted, and nobody else's claim is touched |
| Allocators.RevertedCreate | internal/registry/ipallocator/allocators.go:202-217 | reverting a create gives back exactly what it took, and restores the pool if and only if none of the addresses was the owner's before |
| Allocators.Divide | internal/registry/ipallocator/allocators.go:246-261 | the first request for an old address keeps it, every other one is allocated in a place of its own, and the old addresses not requested are to go |
| Allocators.WantedAre | internal/registry/ipallocator/allocators.go:246-261 | to be allocated are, in order, the requests but for the first for each address the object had |
| Allocators.AllocateUpdate | internal/registry/ipallocator/allocators.go:220-271 | succeeds exactly when the families have allocators and every request to be allocated can be granted; kept positions are untouched and each other position gets its own allocation through the index map |
| Allocators.UpdateConserves | internal/registry/ipallocator/allocators.go:220-291 | after update and commit the owner's claims are exactly the updated addresses, duplicates included, and no other claim changed |
| Allocators.RevertedUpdate | internal/registry/ipallocator/allocators.go:293-306 | reverting releases what committing would, so it restores the pool if and only if the addresses requested are those the object had |
| Allocators.RevertLosesAddress | internal/registry/ipallocator/allocators.go:293-306 | an update from one address to a free one, reverted: the object loses the first and keeps the second |
| Allocators.ClaimsTaken | internal/registry/ipallocator/allocators.go:137-164 | an allocation, finished or not, only adds to the claimer's claims and leaves everybody else's |
| Allocators.UpdateObject | internal/registry/ipallocator/allocators.go:220-308 | the whole update on the pool: when it succeeds, claims conserved and requested addresses kept; when it fails, claims at most added; nobody else's changed in any case |
| Allocators.CreateObject | internal/registry/ipallocator/allocators.go:166-218 | the whole create on the pool, successful, reverted or failed: the claims added, the addresses allocated taken from the claims, or claims at most added; nobody else's claims changed in any case |
| Slots.Scan | utils/slots/slots.go:26-34 | one wrapping pass from any start finds a clear slot if and only if there is one, and the one it starts at if that is clear |
| Slots.NextClear | utils/slots/slots.go:26-44 | with an offset the second scan looks at the upper range again: it finds a slot only beyond the end, and only when the offset is more than half of the length |
| Slots.Slots.AllocateNext | utils/slots/slots.go:110-126 | with offset 0 fails only when all slots are taken, never reaching the second scan; lower slots are never given out with an offset |
| Slots.Slots.Allocate | utils/slots/slots.go:93-108 | takes a free slot in range; the counter is the number of set bits |
| Slots.Slots.Release | utils/slots/slots.go:129-144 | clears a taken slot, otherwise nothing; the counter is the number of set bits |
| Slots.CountAfterSet | utils/slots/slots.go:103-125 | setting a clear bit, even one beyond the end, adds exactly one |
| Slots.FullIsAllSet | utils/slots/slots.go:114-116 | the counter reaches the length exactly when every slot is taken |
| Slots.Slots.Iterate | utils/slots/slots.go:156-168 | visits exactly the taken slots in order, up to the first at which it is told to stop |
| Slots.Slots.Free | utils/slots/slots.go:170-175 | zero exactly when every slot is taken |
| ProviderId.GetID | apinetlet/provider/provider.go:41-86 | writes the prefix and the four components joined by slashes |
| ProviderId.SplitUndoesJoin | apinetlet/provider/provider.go:58-62 | splitting joined slash-free components gives them back |
| ProviderId.NetworkRoundTrip | apinetlet/provider/provider.go:58-86 | parsing a printed ID returns the components if and only if none contains a slash; otherwise it fails |
| ProviderId.NetworkInterfaceRoundTrip | apinetlet/provider/provider.go:21-53 | the same for interfaces, if and only if the node is a DNS subdomain besides |
| ProviderId.SubdomainMeans | apinetlet/provider/provider.go:31-33 | a DNS subdomain is at most 253 characters and labels joined by dots, of letters, digits and dashes with no dash at an end |
| ProviderId.PrintingIsInjective | apinetlet/provider/provider.go:41-86 | slash-free components with the same printed ID are the same |
| ProviderId.ReprintingIs | apinetlet/provider/provider.go:58-86 | an ID that parses prints as itself, with the prefix added if it was missing |

## Left out

- NatReconcile.ManageNATTable: errors of the API calls are not collected; a failed claim is an interface missing from `granted`, and whether a release went through does not matter to the table.
- NatReconcile.ServeFree: the copy of an interface that a claim modifies in place is not modelled.
- NatTable.BuildTable: the library's sort is modelled as insertion; sections without a port do not occur.
- NatProofs.RunsAreSafe: nobody else writes tables during a run; NatExamples.UnalignedTableOverlaps shows what an unaligned one does.
- Autoscaler.GenerateNewIPs: random names are an input; that enough of them come up is not promised.
- DaemonSet.GetDaemonInstances: affinity and objects are values, so that in-place changes of shared copies are not seen; a daemon set being deleted is not modelled.
- DaemonSet.NewInstanceIsOnItsNode: labels and hash of the template are parameters; hashing is not modelled.
- DaemonSetProtocol.NeverASecondInstance: restarts of the controller, relists of the informer and a create whose answer is lost although it went through are not modelled.
- DaemonSetProtocol.TimeoutDuplicates: gives one family of runs, for a set that selects everything.
- NodeAffinity.Match: the syntax of label keys and values is not validated; of the errors only the positions of their terms are kept.
- SchedulerCache.Cache.Snapshot: containers are copied by value; sharing of instance objects with the informer is not captured.
- Scheduler.ReconcileExists: the asynchronous binding is the sequence of cache operations it ends in; events, backoff and requeueing are left out.
- Scheduler.RunsStayConflictFree: nodes and labels are fixed, as anti-affinity is only required during scheduling; a confirmation on another node than assumed and one after expiry are covered by Scheduler.LateConfirmation and Scheduler.PlacingKeepsConflictFree instead.
- SchedulerBalance.CacheStaysBalanced: all counted instances carry the same constraints, and removals of counted instances, which may unbalance, are left out.
- IpClaims.ClaimIP: API errors other than a conflict and not found are left out; the claim is its UID.
- IpClaims.ReleaseIP: that a release is completed is promised only for a current copy, as a failed patch is only logged.
- IpClaims.HandoverNeedsRelease: writers other than the allocators leave claims and owners alone, and names of objects are not reused.
- NicClaims.RunKeepsGood: the controller that removes NAT entries of gateways that are gone patches without a version and is left out.
- Allocators.AllocateIPs: allocations read the pool as it is; in the source they go through a lister that may lag, so that an address created earlier in the same transaction may not be found, and five conflicts fail as well, which IpClaims.ClaimIP models for one address.
- Allocators.AllocateCreate: the same holds of the whole create, so that its exact condition for success leaves these failures out.
- Allocators.ReleaseIPs: a release always takes effect; in the source one that fails is only logged.
- Allocators.AllocateUpdate: allocations and releases are as for a create; dry runs, and addresses of another family than their request, are left out.
- Allocators.UpdateConserves: the addresses of the old object are set, as they are after a create; there would be no allocator to release an unset one.
- Slots.Slots.AllocateNext: locks are left out.
- ProviderId.GetID: one method stands for both printers; errors carry no text.
- The translation of network policies, load balancer and routing controllers, REST storage, table convertors, generated code, certificates, command mains, and the sync controllers of apinetlet and metalnetlet.
- BiMap and IndexingMap of utils/container.
- The libraries for bit sets, sorting, label selectors, retries and DNS names are modelled by what they are documented to do.
