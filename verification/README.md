# Verified model of the external load balancer controller

The controller keeps external load balancers in step with a cluster. It derives from the cluster metadata which
endpoint should serve which targets (`metadata/metadata.go`), compares that with what a provider lists, and issues
remove, add and update calls until the two agree (`external-lb.go`), once a second at most and at least about once a
minute (`main.go`). This project models that loop, three of its providers (Avi, ELB classic, F5 BIG-IP) each over a
small in-memory device, and proves what the whole is for: the provider ends up serving what the metadata asks for.
Calls to the Avi controller and to the ELB service may fail at any time unless these are marked reliable, which is how
the contracts say when a call has to succeed; the F5 device fails exactly where it would break a reference.

## Layers

* `Seqs`, `Text`, `Merging`: sequences, Go's string operations, and lists of keyed items.
* `Model`: configurations, targets, and the *store* that a provider shows: endpoint to pool name and multiset of targets.
* `Metadata`: the desired map, as code and as a specification (first eligible service for each endpoint).
* `TargetDiff`, `Rounds`, `Reconciler`: the target diff; rounds on values; the provider interface and the controller class,
  whose methods are proved against `Rounds`. Go's map order is a nondeterministic choice everywhere.
* `PollLoop`: the tick loop, as a class proved against the step function `PollLoop.Step`, with and without the cache test.
* `Environments`: several controllers on one provider.
* `AviMembers`, `Avi`, `AviStore`; `ElbLists`, `Elb`, `ElbStore`; `F5`: the providers. Each has a `Listing` function, the store that
  `GetLBConfigs` is proved to return. The store lemmas then say when a call does to the listing what `Rounds.Apply` does.
* `EndToEnd`: from services in the metadata to the listing of the provider.

## Main results

* A round with any failing calls, in any map order, leaves out of sync exactly the endpoints whose call failed
  (`Reconciler.Controller.UpdateProviderLBConfigs`, `Rounds.AnyOrderReconciles`, `Rounds.RoundRepairs`); over any run exactly
  those that failed in every round (`Rounds.RunRepairs`, `Rounds.RunProgress`, `PollLoop.LoopRepairs`).
* The cached loop and the loop without the cache test leave the provider in the same state after every tick
  (`PollLoop.CacheIsInvisible`), and that state serves the services of the version read last (`EndToEnd.LoopServesMetadata`).
* Controllers of several environments do not disturb each other (`Environments.ControllersDoNotInterfere`, `EndToEnd.ClustersServed`).
* ELB is a faithful store exactly for targets that resolve one to one (`ElbStore.WriteFaithfulIffResolves`), and whole rounds
  over load balancers serve the metadata (`EndToEnd.ElbServesMetadata`). Its backend update is make-before-break (`Elb.MakeBeforeBreak`).
* Avi updates are faithful (`AviStore.UpdateIsFaithful`), member identity is sound (`AviMembers.KeysAgreeIffSame`), no call renames
  an owned pool or moves a virtual service (`Avi.RunEvolves`).
* F5 updates read back exactly for colon-free targets (`F5.UpdateFaithfulIffColonFree`), and every call keeps the references of the
  device intact (`F5.F5BigIPProvider.UpdateLBConfig`).

## Where the code falls short, and exactly when

* The target diff is exact if and only if the desired targets are distinct (`TargetDiff.ExactOnlyForDistinct`); metadata does not
  remove duplicates, and gives distinct targets exactly when the host addresses are distinct (`Metadata.MetadataWellFormed`).
* The initial cache is empty: a first desired map that is empty is taken for unchanged, which matters exactly when the provider
  holds an owned pool (`PollLoop.FirstTickExact`).
* A failed read of the services counts as no services, and a round then removes every pool of the environment
  (`EndToEnd.FailedReadRemovesAll`).
* Environment identifiers with underscores can share pools (`Environments.UnderscoreSharesPools`; exactly when the suffixes nest,
  `Environments.SharedPoolIffNested`).
* Avi: an add is faithful if and only if the pool it finds holds only requested members, each once, and either has the name already or
  lacks a member (`AviStore.AddFaithfulIffFits`). An add whose members cannot be written is reported as done
  (`Avi.AviProvider.AddLBConfig`). A remove never takes the endpoint off the listing, so an unwanted endpoint stays out of sync
  (`AviStore.RemoveIsExact`, `AviStore.RemoveNeverDelists`, `AviStore.RemovedStaysOutOfSync`). Keys of negative ports collide (`AviMembers.NegativePortCollides`).
* F5: an add fails on a new target that is given twice, because members are looked up once (`F5.AddableMeans`); it is faithful if and only if what the pool read back as before is part of the targets without repetition
  (`F5.AddFaithfulIffFits`); an add for a missing virtual server is reported as done (`F5.F5BigIPProvider.AddLBConfig`); an update
  leaves a pool of another name behind with its members (`F5.UpdateFaithfulIffColonFree`), and one whose add fails leaves the server
  detached (`F5.F5BigIPProvider.UpdateLBConfig`).
* The first two parts of a pool name are the service and stack names if and only if neither has an underscore
  (`Metadata.PoolNameSplits`).
* The repository's own README names only the label `io.rancher.service.external_lb_endpoint`; the code prefers
  `io.rancher.service.external_lb.endpoint`, and the model follows the code.

## Model

| member | source | states |
|---|---|---|
| `TargetDiff.NeedsUpdate` | external-lb.go:93-122 | asks for no update exactly when the pool names agree character by character up to the case of ASCII letters, the lists have equal length, and every desired target is listed |
| `TargetDiff.RenamedIsChanged` | external-lb.go:94-119 | names that differ in length, or in a character that is no letter, are a change whatever the targets |
| `Text.EqualFoldExact` | external-lb.go:94-94 | folding compares character by character, and only upper and lower case of one ASCII letter agree besides equal characters |
| `TargetDiff.DiffIsExact` | external-lb.go:98-115 | for distinct desired targets the search reports a miss exactly when the lists differ as multisets |
| `TargetDiff.ExactOnlyForDistinct` | external-lb.go:98-115 | that holds against every listing if and only if the desired targets are distinct |
| `Reconciler.Provider.constructor` | providers/external_lb_provider.go:9-26 | a provider starts empty and reachable |
| `Reconciler.Provider.GetLBConfigs` | providers/external_lb_provider.go:24-25 | lists every held endpoint exactly once, with its pool name and targets, or fails when unreachable |
| `Reconciler.Provider.AddLBConfig` | providers/external_lb_provider.go:16-18 | the entry is held and the name answered, or the call fails without effect |
| `Reconciler.Provider.UpdateLBConfig` | providers/external_lb_provider.go:19-21 | the same for an update |
| `Reconciler.Provider.RemoveLBConfig` | providers/external_lb_provider.go:22-23 | the entry is gone, or the call fails without effect |
| `Reconciler.Controller.GetProviderLBConfigs` | external-lb.go:36-52 | the snapshot is exactly the part of the listing that carries the ownership suffix |
| `Rounds.HeldHasLastOwned` | external-lb.go:44-48 | an endpoint is in the snapshot only if some owned configuration was listed for it |
| `Rounds.LastOwnedIsHeld` | external-lb.go:44-48 | and then the snapshot holds the last one listed, also when an endpoint is listed twice |
| `Rounds.ListingGivesSnapshot` | external-lb.go:36-52 | a listing in any order gives a snapshot of the store |
| `Reconciler.Controller.RemoveExtraConfigs` | external-lb.go:54-69 | removes exactly the snapshot's configurations at endpoints that are not desired, each once, in any order |
| `Reconciler.Controller.AddMissingConfigs` | external-lb.go:71-86 | adds exactly the desired configurations that the snapshot lacks, each once, in any order |
| `Reconciler.Controller.UpdateExistingConfigs` | external-lb.go:88-136 | updates exactly the desired configurations that differ from the snapshot, each once, in any order |
| `Reconciler.Controller.UpdateProvider` | external-lb.go:138-168 | one call for each configuration in order, going on after failures; reports a name for exactly the successful adds and updates that answered one |
| `Reconciler.Controller.RunPhases` | external-lb.go:24-26 | the three phases in order against one snapshot that is stale after the first |
| `Reconciler.Controller.UpdateProviderLBConfigs` | external-lb.go:18-34 | the calls of a round are a schedule of what the snapshot needs, removals first and updates last: removes for owned undesired endpoints, adds for desired unowned ones, updates for desired owned ones; on a well-formed desired map every out-of-sync endpoint whose call succeeds takes its desired entry and nothing else changes; an unreachable provider gets no call |
| `Reconciler.MergeReports` | external-lb.go:27-31 | names reported by the adds win over those of the updates |
| `Reconciler.MergedReport` | external-lb.go:25-33 | the merged report covers exactly the names answered by successful calls, and shared names go to an add |
| `Reconciler.VisitOne` | external-lb.go:56-60 | visiting one more key of a map selects its configuration when it is wanted |
| `Reconciler.PhasesCover` | external-lb.go:54-136 | every endpoint that needs a call gets the one it needs |
| `Reconciler.PhasesSchedule` | external-lb.go:54-136 | no two phases touch the same endpoint, and no call is issued that is not needed |
| `Reconciler.ThreePhases` | external-lb.go:24-26 | the phases one after the other do what their calls in a row do |
| `Rounds.NeededIffOutOfSync` | external-lb.go:54-136 | a call is issued for an endpoint exactly when it is out of sync with the provider |
| `Rounds.KindsOfCalls` | external-lb.go:54-92 | removes are for owned endpoints that are not desired, adds for desired ones that are not owned, updates for desired ones that are |
| `Rounds.AppliedAt` | external-lb.go:138-168 | an endpoint that no call names keeps its entry; one that a single call names gets what that call does |
| `Rounds.AnyOrderReconciles` | external-lb.go:18-34 | whatever the map order and the failures, the calls of a round amount to the same repair |
| `Rounds.RoundRepairs` | external-lb.go:18-34 | after a round the out-of-sync endpoints are exactly those that were and whose call failed |
| `Rounds.RoundConverges` | external-lb.go:18-34 | a round without failures brings every endpoint in sync; unowned entries at undesired endpoints and endpoints in sync are untouched |
| `Rounds.QuietIffInSync` | external-lb.go:62-66 | a round issues no call if and only if every endpoint is in sync |
| `Rounds.RunRepairs` | external-lb.go:138-168 | over any run of rounds exactly the endpoints that fail in every round stay out of sync |
| `Rounds.RunProgress` | external-lb.go:138-168 | the number out of sync never grows along a run, and is zero exactly when every endpoint had a round in which its call succeeded |
| `PollLoop.PollLoop.constructor` | main.go:91-92 | the loop starts with version "init", an empty cache and the current time |
| `PollLoop.PollLoop.OnTick` | main.go:97-152 | one tick is one step of the loop function: it reconciles on a changed version with changed configurations, or at an unchanged version a minute after the last reconcile; the cache and the time are then set even if the provider was unreachable; otherwise no call is made and no name sent |
| `PollLoop.PollLoop.Reconcile` | main.go:128-143 | a round and its name updates; an unreachable provider changes nothing |
| `PollLoop.PollLoop.UpdateFqdns` | main.go:135-143 | one update for each reported name, whose service and stack are the first two parts of the pool name |
| `PollLoop.PollLoop.SendReported` | main.go:135-143 | the services told about a name are those whose endpoint was repaired by this round and has one |
| `PollLoop.ReportsRepaired` | main.go:130-143 | the reported names are exactly those of the endpoints that a round repaired |
| `EndToEnd.ToldAsNamed` | main.go:135-143 | every name update of a tick over metadata is about a repaired endpoint and its name, and tells the name and the stack of the first eligible service if and only if neither has an underscore |
| `EndToEnd.NamedIsTold` | main.go:135-143 | every repaired endpoint that has a name is told about |
| `PollLoop.InSyncRoundIsIdle` | main.go:124-128 | a round on an in-sync provider changes nothing, whatever fails |
| `PollLoop.StepSettles` | main.go:128-149 | any reconcile settles the loop, and a settled loop stays settled |
| `PollLoop.CacheIsInvisible` | main.go:97-152 | from a settled state the cached loop and the loop without the cache test leave the provider in the same state after every tick of every run |
| `PollLoop.FirstTickExact` | main.go:37-37 | the empty initial cache makes no difference exactly when something is desired or nothing is owned |
| `PollLoop.CalmRunSettles` | main.go:91-152 | so from the start the loop is settled after every tick |
| `PollLoop.LastUpdatedStays` | main.go:106-112 | only a reconcile moves the time of the last update |
| `PollLoop.AttemptsAreSpaced` | main.go:91-146 | while the version stays, a reconcile starts at least a minute and less than a minute and the tick distance after the one before ended |
| `PollLoop.AttemptComes` | main.go:106-112 | a stretch that lasts a minute beyond a reconcile contains another one |
| `PollLoop.LoopRepairs` | main.go:97-152 | while the configurations stay, an endpoint is out of sync after a run exactly if it was and failed at every attempt that reached the provider |
| `Environments.SharedPoolIffNested` | external-lb.go:43-45 | two suffixes can own the same pool if and only if one ends in the other |
| `Environments.OneOwner` | external-lb.go:43-45 | with underscore-free identifiers no pool is owned by two environments |
| `Environments.UnderscoreSharesPools` | external-lb.go:43-45 | with an underscore one can be |
| `Environments.RoundSparesOthers` | external-lb.go:36-69 | a round of one environment keeps every endpoint of another in sync |
| `Environments.ControllersDoNotInterfere` | external-lb.go:18-52 | after any sequence of whole rounds every environment is in sync with what it wanted in its last one |
| `Metadata.GetMetadataLBConfigs` | metadata/metadata.go:73-127 | gives the specified desired map: each configuration has the names of the first eligible service in its pool name and the text before the only colon of the first port mapping as its port; a failed read counts as no services |
| `Metadata.ServicePortExact` | metadata/metadata.go:99-114 | the service port is what stands before the only colon of the first port mapping |
| `Metadata.EndpointExact` | metadata/metadata.go:80-86 | the endpoint is the value of the new label, and of the legacy label only without it |
| `Metadata.GetContainerLBTargets` | metadata/metadata.go:129-179 | appends the matching ports of the counted containers, in order, duplicates included |
| `Metadata.AppendPortTargets` | metadata/metadata.go:154-174 | the same for the ports of one container |
| `Metadata.FirstEligibleConfigures` | metadata/metadata.go:79-123 | the first service that names an endpoint and has a well-formed port configures it |
| `Metadata.ConfiguredHasFirst` | metadata/metadata.go:79-123 | and no endpoint is configured without one |
| `Metadata.FirstEligibleWins` | metadata/metadata.go:79-123 | both together, for every endpoint |
| `Metadata.PortTargetExact` | metadata/metadata.go:156-174 | a port mapping counts exactly when it reads address, service port and rest between colons |
| `Metadata.TargetsMember` | metadata/metadata.go:129-179 | the targets are exactly the matching ports of the counted containers, and all carry the service port |
| `Metadata.TargetsExact` | metadata/metadata.go:129-197 | a target is exactly a mapping address:service port:rest on a running container that is healthy, updating while healthy or unchecked, and belongs to the service |
| `Metadata.TargetsInOrder` | metadata/metadata.go:130-174 | the targets of containers in a row are their targets in a row, repeated when mapped twice |
| `Metadata.MappingsInOrder` | metadata/metadata.go:154-174 | so are those of the mappings of one container |
| `Metadata.PoolNameOwned` | metadata/metadata.go:115-116 | every pool name ends in the ownership suffix of the environment |
| `Metadata.PoolNameSplits` | main.go:137-139 | a pool name has at least four parts; the first two are the service and stack names if and only if neither has an underscore, and all four are service, stack, environment and suffix if and only if none has one |
| `Metadata.MetadataWellFormed` | metadata/metadata.go:73-127 | the desired map is keyed, owned, splittable and on the service port; its targets are distinct exactly when the host addresses are |
| `AviMembers.KeyInjective` | providers/avi/dockerTasks.go:25-33 | keys of non-negative ports identify address and port, for all addresses |
| `AviMembers.NegativePortCollides` | providers/avi/dockerTasks.go:25-33 | keys of negative ports do not |
| `AviMembers.KeysAgreeIffSame` | providers/avi/aviutils.go:91-95 | task-side and server-side keys agree exactly when the member reads back as the target |
| `AviMembers.CanonicalIffPrinted` | providers/avi/aviutils.go:92-92 | the ports that survive parsing and printing are the printed numbers from 0 to the largest 64-bit integer |
| `AviMembers.TaskKeysExact` | providers/avi/aviutils.go:87-95 | the tasks of a configuration have exactly the keys of its targets |
| `AviMembers.ReadBackExact` | providers/avi/aviutils.go:110-132 | members with exactly the requested keys, each once, are those that read back as exactly the requested targets, each once |
| `AviMembers.RemovedTargets` | providers/avi/avivs.go:154-164 | removing the tasks of targets takes these targets from what is read back, however often they are, and no others |
| `AviMembers.ReconcileExact` | providers/avi/avivs.go:108-147 | a reconcile leaves exactly the requested keys, each once |
| `AviMembers.ReconcileIdempotent` | providers/avi/avivs.go:108-147 | reconciling again with the same tasks leaves the same sequence |
| `AviMembers.RemoveUndoesAdd` | providers/avi/avivs.go:149-224 | removing what was added gives the sequence that removing alone gives, hence the old one when none of the tasks was there |
| `AviMembers.AddExact` | providers/avi/avivs.go:183-224 | an add ends with exactly the requested keys, each once, if and only if it starts from some of them, each once |
| `AviMembers.ReconcileIsRemoveThenAdd` | providers/avi/avivs.go:108-224 | a reconcile has the keys of removing the unwanted members and adding the wanted ones |
| `AviMembers.MergedHavePorts` | providers/avi/avivs.go:108-224 | all three merges only keep members that carry ports |
| `Merging.RetainedKeys` | providers/avi/avivs.go:111-124 | the retained members are the wanted keys that are there, each once |
| `Merging.RetainedInOrder` | providers/avi/avivs.go:111-124 | they are a subsequence of the old members, unmodified and in order, and of each wanted key the first one |
| `Merging.RemovedInOrder` | providers/avi/avivs.go:154-164 | a removal keeps exactly the other members, unmodified and in order |
| `Merging.RemovedLength` | providers/avi/avivs.go:166-169 | a removal shortens the list exactly when it removes something, and otherwise leaves it alone |
| `Avi.AviProvider.AppendTasks` | providers/avi/avivs.go:126-136 | appends one new member for each task, in any order |
| `Avi.AviProvider.UpdatePoolMembers` | providers/avi/avivs.go:108-147 | writes the retained members followed by new ones for the missing keys, or fails without effect; never fails on a reliable controller |
| `Avi.AviProvider.RemovePoolMembers` | providers/avi/avivs.go:149-181 | writes the members without the given keys, nothing when there is none to remove, or fails without effect; never fails on a reliable controller |
| `Avi.AviProvider.AddPoolMembers` | providers/avi/avivs.go:183-224 | writes all members followed by new ones for the missing keys, nothing when none is missing, or fails without effect; never fails on a reliable controller |
| `Avi.AviProvider.CheckExistingPool` | providers/avi/aviutils.go:32-63 | gives the pool under the requested name; on a reliable controller exactly when it has that name already or one without the suffix |
| `Avi.AviProvider.EnsurePoolExists` | providers/avi/avivs.go:74-85 | adopts a pool of the name, and creates one only when there is none |
| `Avi.AviProvider.EnsureVsHasPool` | providers/avi/aviutils.go:65-85 | attaches a pool to a virtual service without one and touches nothing otherwise; a failure leaves at most a new pool of the name |
| `Avi.PreparedAdopts` | providers/avi/avivs.go:74-84 | a virtual service without a pool gets the pool that has the name already, with its members, if there is one |
| `Avi.AviProvider.ConvergePoolMembers` | providers/avi/aviutils.go:87-108 | merges the tasks of the configuration into the pool |
| `Avi.AviProvider.UpdateVsMetadata` | providers/avi/aviutils.go:25-30 | marks the virtual service as associated, or fails without effect |
| `Avi.AviProvider.FormLBConfig` | providers/avi/aviutils.go:110-132 | the virtual service's name, the pool's name and one target for each member: its address and printed port, or the pool's default port, or nothing |
| `Avi.AviProvider.AddLBConfig` | providers/avi/avi.go:88-120 | prepares the pool, merges the members, marks the virtual service and answers its name; a failed merge is reported as done without a name; any other failure leaves at most a new pool or an unmarked merge; on a reliable controller it succeeds exactly when the virtual service exists and its pool may carry the name |
| `Avi.AviProvider.RemoveLBConfig` | providers/avi/avi.go:122-146 | takes members out of the pool and leaves every virtual service as it was; succeeds on a reliable controller under the same condition |
| `Avi.AviProvider.UpdateLBConfig` | providers/avi/avi.go:148-173 | prepares the pool, reconciles its members and answers the name; a failure leaves at most a prepared pool; succeeds on a reliable controller under the same condition |
| `Avi.AviProvider.GetLBConfigs` | providers/avi/avi.go:175-199 | lists exactly the virtual services of the cloud that carry the suffix as metadata, each once, with the name and the members of its pool |
| `Avi.RunEvolves` | providers/avi/aviutils.go:32-85 | over any run of calls no owned pool is renamed, and no virtual service moves to another pool or loses its metadata |
| `Avi.PutKeepsShape` | providers/avi/aviutils.go:45-62 | writing a pool under a name that is available to it renames no owned pool and keeps references resolved |
| `Avi.EvolvingStaysListable` | providers/avi/avi.go:186-187 | the listing never meets an associated virtual service without a pool if it met none at first |
| `Avi.MergeKeepsShape` | providers/avi/aviutils.go:87-108 | writing members keeps references resolved, ports present and owned pools named |
| `AviStore.UpdateIsFaithful` | providers/avi/avi.go:148-199 | after a successful update of an associated virtual service with an unshared pool the listing shows the requested name and exactly the requested targets, each once, and nothing else changes |
| `AviStore.EntryExact` | providers/avi/aviutils.go:110-132 | a pool lists as the requested entry exactly when it has the name and exactly the requested keys, each once |
| `AviStore.ListingFrame` | providers/avi/avi.go:182-196 | writing an unshared pool changes the listing at its virtual service alone |
| `AviStore.AddFaithfulIffFits` | providers/avi/avivs.go:199-202 | a completed add makes the listing show the requested entry if and only if the pool it found holds only requested members, each once, and has the name or lacks a member |
| `AviStore.RemovedMembers` | providers/avi/avivs.go:149-181 | after a completed remove the pool holds exactly the old members, unmodified and in order, whose address and port are no given target's |
| `AviStore.RemoveIsExact` | providers/avi/avi.go:122-146 | the listing then shows the endpoint with its old targets less the given ones, under the given name if any was taken, and nothing else changes |
| `AviStore.RemoveNeverDelists` | providers/avi/avi.go:122-145 | a remove keeps every endpoint listed and every owned pool name |
| `AviStore.RemovedStaysOutOfSync` | providers/avi/avi.go:122-145 | so an owned endpoint that is no longer wanted stays out of sync |
| `AviStore.EmptiedIsRemovedForever` | providers/avi/avi.go:122-145 | a concrete case: an owned endpoint with an empty pool is listed, unwanted and removed without effect |
| `ElbLists.DifferenceStringSlice` | providers/elbv1/util.go:4-21 | the strings of the first list that are not in the second, in order |
| `ElbLists.RemoveDuplicates` | providers/elbv1/util.go:24-33 | the same strings, each once, at their first place |
| `ElbLists.MapTags` | providers/elbv1/elbv1svc/util.go:59-65 | a later tag replaces an earlier one with its key |
| `ElbLists.LastTagWins` | providers/elbv1/elbv1svc/util.go:59-65 | a key has a value exactly when the last tag of the key has it |
| `ElbLists.ElbTags` | providers/elbv1/elbv1svc/util.go:45-56 | the tag list gives the map back, whatever the iteration order |
| `ElbLists.DivideNames` | providers/elbv1/elbv1svc/elb_classic.go:356-365 | chunks of 1 to 20 names, full except the last, that concatenate to the names in order |
| `Elb.ElbService.FindLBTags` | providers/elbv1/elbv1svc/elb_classic.go:356-386 | the lookups in chunks describe all the names in order, as one unbounded lookup would |
| `Elb.ElbService.DescribeLBTags` | providers/elbv1/elbv1svc/elb_classic.go:62-76 | exactly the given names, each with the tags of its load balancer |
| `Elb.ElbService.AddLBTags` | providers/elbv1/elbv1svc/elb_classic.go:79-95 | the tags are set and the others kept, or the call fails without effect |
| `Elb.ElbService.RemoveLBTag` | providers/elbv1/elbv1svc/elb_classic.go:98-116 | the tag is gone and the others kept, or the call fails without effect |
| `Elb.ElbService.GetRegisteredInstances` | providers/elbv1/elbv1svc/elb_classic.go:331-354 | exactly the instances that are in service, whatever their description, or out of service or unknown with a description that speaks neither of deregistration nor of no registration |
| `Elb.RegisteredMeans` | providers/elbv1/elbv1svc/elb_classic.go:338-350 | the same of every list of states |
| `Elb.RegisteredInOrder` | providers/elbv1/elbv1svc/elb_classic.go:337-350 | they come in the order of their states |
| `Elb.ActiveIdsExact` | providers/elbv1/elbv1svc/elb_classic.go:338-350 | an instance counts as registered exactly when one of its states does |
| `Elb.JoinAllExact` | providers/elbv1/elbv1svc/elb_classic.go:327-330 | instances whose registration is in progress count, and the states of the others stay |
| `Elb.LeaveAllExact` | providers/elbv1/elbv1svc/elb_classic.go:327-330 | instances whose deregistration is in progress do not count, and the states of the others stay |
| `Elb.MakeBeforeBreak` | providers/elbv1/aws_elbv1.go:297-322 | from any registered to any wanted list: in between all that was and all that is wanted is registered, in the end exactly the wanted, and the states of those in both stay untouched |
| `Elb.PartlyDoneIsBetween` | providers/elbv1/aws_elbv1.go:309-319 | a call that fails on the way keeps registered all that was and is wanted |
| `Elb.ElbProvider.EnsureBackendInstances` | providers/elbv1/aws_elbv1.go:297-322 | swaps the registrations, or fails after nothing or after the registering half; never fails on a reliable service |
| `Elb.ElbProvider.GetEC2Instances` | providers/elbv1/aws_elbv1.go:326-351 | exactly the identifiers of the instances of the private cloud whose private or public address, as configured, is a target's |
| `Elb.ElbProvider.CheckListenersInstancePort` | providers/elbv1/aws_elbv1.go:355-365 | whether some listener forwards to the port |
| `Elb.ElbProvider.EnsureLBConfig` | providers/elbv1/aws_elbv1.go:180-219 | on success the backends are swapped and both tags set, the port is served and the DNS name answered; on failure at most the swap was done; on a reliable service it succeeds exactly when the load balancer exists and serves the port |
| `Elb.WrittenMeans` | providers/elbv1/aws_elbv1.go:197-215 | a write registers exactly the instances behind the targets, sets the two tags and touches nothing else |
| `Elb.ElbProvider.AddLBConfig` | providers/elbv1/aws_elbv1.go:180-219 | the same: written and answered, or at most the swap done; exact on a reliable service |
| `Elb.ElbProvider.UpdateLBConfig` | providers/elbv1/aws_elbv1.go:221-261 | the same for an update |
| `Elb.ElbProvider.RemoveLBConfig` | providers/elbv1/aws_elbv1.go:263-290 | on success no instance is registered and both tags are gone; on failure at most the swap and one tag; other load balancers are never touched; on a reliable service it succeeds exactly when the load balancer exists |
| `Elb.ClearedMeans` | providers/elbv1/aws_elbv1.go:274-286 | a remove registers nothing any more, takes the tag of the pool and then that of the port, and touches nothing else |
| `Elb.ElbProvider.GetLBConfigs` | providers/elbv1/aws_elbv1.go:98-178 | lists every load balancer with both tags once, with its registered instances as targets on the tagged port |
| `Elb.ElbProvider.ReadTargets` | providers/elbv1/aws_elbv1.go:145-172 | exactly the registered instances under their private or public address, as configured, on the tagged port |
| `ElbStore.FoundReadBack` | providers/elbv1/aws_elbv1.go:326-351 | the instances found for distinct targets read back as the targets if and only if every address is one instance |
| `ElbStore.ByIdFindsThem` | providers/elbv1/aws_elbv1.go:145-152 | looking the registered identifiers up again finds the instances that were registered |
| `ElbStore.WriteFaithfulIffResolves` | providers/elbv1/aws_elbv1.go:98-261 | a successful write of distinct targets on the service port makes the listing show exactly the configuration, and nothing else changes, if and only if every address is one instance |
| `ElbStore.RemoveIsFaithful` | providers/elbv1/aws_elbv1.go:263-290 | a successful remove makes the endpoint disappear from the listing, and nothing else |
| `ElbStore.CallsFollowTheStore` | providers/elbv1/aws_elbv1.go:98-290 | any sequence of successful calls does to the listing what the reconcile assumes of a provider |
| `ElbStore.ElbRoundConverges` | external-lb.go:18-34 | a round of successful calls over load balancers ends in sync and the next round is quiet |
| `F5.NodeOfName` | providers/f5/f5_bigip.go:121-123 | a member name refers to the node of its address |
| `F5.ParsedNames` | providers/f5/f5_bigip.go:287-295 | written names read back as the targets exactly when no address or port has a colon |
| `F5.ParsedMember` | providers/f5/f5_bigip.go:287-295 | a pool reads back as the colon-free targets whose names are members |
| `F5.F5BigIPProvider.EnsureNodes` | providers/f5/f5_bigip.go:74-87 | creates exactly the missing nodes under the targets' addresses and keeps the others; succeeds if and only if no node stands under a target's address with another one |
| `F5.F5BigIPProvider.AddMissingMembers` | providers/f5/f5_bigip.go:116-129 | adds the names that one snapshot of the members lacks, each to an existing pool and node; succeeds if and only if these names are distinct and their nodes exist |
| `F5.F5BigIPProvider.FillPool` | providers/f5/f5_bigip.go:89-129 | creates the pool if needed and adds the missing members, under the same condition |
| `F5.F5BigIPProvider.ParseMembers` | providers/f5/f5_bigip.go:287-295 | names of two parts, in order |
| `F5.F5BigIPProvider.DeleteNodes` | providers/f5/f5_bigip.go:225-234 | drops the named nodes that nothing refers to any more |
| `F5.F5BigIPProvider.AddLBConfig` | providers/f5/f5_bigip.go:66-146 | the pool keeps its members and gets the missing ones, and the server is attached to it; succeeds if and only if no node is in the way and the device takes the members, and a failure touches no server; a missing server is reported as done without effect; references stay intact |
| `F5.F5BigIPProvider.RemoveLBConfig` | providers/f5/f5_bigip.go:185-238 | the server is detached, and its pool and nodes go unless something else refers to them; fails exactly for a missing server |
| `F5.F5BigIPProvider.UpdateLBConfig` | providers/f5/f5_bigip.go:240-255 | a remove and then an add: the new pool holds the requested members and the server is attached to it; a failing add leaves the server detached; references stay intact |
| `F5.F5BigIPProvider.GetLBConfigs` | providers/f5/f5_bigip.go:257-307 | lists every virtual server with a pool once, with the pool's name and readable members |
| `F5.CleanTargetsAddable` | providers/f5/f5_bigip.go:74-129 | distinct targets whose ports have no colon can be added if and only if no node is in the way |
| `F5.AddableMeans` | providers/f5/f5_bigip.go:74-129 | an add goes through unless a node has another address, a target that is no member yet is given twice, or the node of a new member is nobody's address |
| `F5.DetachedIntact` | providers/f5/f5_bigip.go:185-238 | a remove never leaves a server without its pool or a member without its node |
| `F5.DetachedMeans` | providers/f5/f5_bigip.go:185-238 | a remove detaches one server, takes its pool unless another server uses it, and takes exactly the nodes of the pool's readable members on which no remaining pool has a member |
| `F5.UpdateFaithfulIffColonFree` | providers/f5/f5_bigip.go:240-255 | after an update to a pool that no other server uses the listing shows exactly the configuration, and nothing else changes, if and only if no target has a colon; other pools keep their members |
| `F5.AttachedMeans` | providers/f5/f5_bigip.go:131-135 | an attached server names its pool by the path in the common partition |
| `F5.AddFaithfulIffFits` | providers/f5/f5_bigip.go:66-146 | the same for an add, if and only if what the pool read back as before is part of the targets without repetition |
| `F5.RemoveIsFaithful` | providers/f5/f5_bigip.go:185-238 | a remove makes the server disappear from the listing, and nothing else |
| `F5.CompletedIffPart` | providers/f5/f5_bigip.go:121-129 | what was there, completed with what is missing, is the target list exactly when it was part of it without repetition |
| `EndToEnd.InSyncServes` | metadata/metadata.go:73-127 | being in sync with the desired map is serving each endpoint's first eligible service with exactly its targets, and nothing else of the environment |
| `EndToEnd.MetadataFits` | metadata/metadata.go:73-127 | the metadata always meets what the loop needs, and what the diff and the cloud need exactly when its hosts are distinct and resolve |
| `EndToEnd.ElbServesMetadata` | external-lb.go:18-34 | a round of successful calls over load balancers leaves the listing serving the services, and the next round is quiet |
| `EndToEnd.FailedReadRemovesAll` | metadata/metadata.go:75-78 | after a failed read a round removes every pool of the environment and nothing else |
| `EndToEnd.LoopServesMetadata` | main.go:97-152 | after every tick of every calm run from the start the provider serves the services of the version read last, as it would without the cache test |
| `EndToEnd.ClustersServed` | external-lb.go:36-52 | clusters that share a provider are each served as of their last round, after any sequence of rounds |
| `Text.JoinThenSplit` | metadata/metadata.go:104-107 | splitting at a separator undoes joining parts that do not contain it |
| `Text.SplitThenJoin` | metadata/metadata.go:104-107 | and joining undoes splitting, whose parts do not contain it |
| `Text.AtoiItoa` | providers/avi/aviutils.go:92-92 | parsing undoes printing for every 64-bit integer and gives the nearest one for others |
| `Text.Positional` | providers/avi/dockerTasks.go:31-31 | numbers are printed in decimal, highest digit first and without leading zeros |
| `Text.ContainsExact` | providers/elbv1/elbv1svc/elb_classic.go:343-344 | a text contains another exactly when it is that one between some head and some tail |
| `Text.HasSuffixExact` | external-lb.go:45-45 | a suffix is what is left after some head |

## Left out

- Text.EqualFold: folds the ASCII letters only; Go folds all of Unicode. Other text is over arbitrary characters.
- Reconciler.Provider.AddLBConfig: a failing call has no effect on this abstract provider (nor have failing updates and removes). A failing
  call of ELB can leave part of the registrations done (`Elb.PartlyDoneIsBetween`), a failing Avi call a created or attached
  pool (`Avi.AviProvider.EnsureVsHasPool`), a failing F5 update a detached server.
- Reconciler.Provider.constructor: the provider interface is a concrete class with a ghost store; that the real providers behave
  like it is stated by the store lemmas on their listings and not by inheritance.
- Avi.AviProvider.GetLBConfigs: needs every associated virtual service to refer to a pool and every member to carry a port, where the
  source would stop with a type assertion; the other Avi calls need the ports only. Listing fails as a whole if one pool cannot be read.
- Avi documents are typed records: virtual services are stored by name, pool references are identifiers rather than URLs, ports are
  integers rather than JSON numbers, and fields that the provider does not read are one opaque text.
- AviStore.UpdateIsFaithful: is about a pool that no other virtual service uses, members with non-negative ports and canonical decimal ports;
  virtual services that share a pool do not converge in the source either.
- AviStore.AddFaithfulIffFits: same conditions as the update.
- Elb.ElbProvider.GetLBConfigs: the order in which AWS lists instances is fixed in the cloud, and instances, addresses and the private cloud
  do not change during a run.
- F5.F5BigIPProvider.AddLBConfig: address-translation flags of pools (lines 105-111) are not modelled. The device never fails for reasons of
  its own: it refuses to create what exists, to delete what is referenced and to add what is there. A missing virtual server is
  taken for an empty answer without an error.
- F5.F5BigIPProvider.GetLBConfigs: listing errors of the device are not modelled.
- F5.UpdateFaithfulIffColonFree: pools named `None` or without a name, which the device reads as detaching or as no change, are excluded;
  metadata pool names never are either. Nothing removes the pool that a server had under another name.
- PollLoop.PollLoop.OnTick: clock readings are given with the tick, as integer nanoseconds; errors of the Cattle client are only logged by
  the source and a sent update is recorded as sent.
- PollLoop.CacheIsInvisible: is about runs in which the configurations are a function of the version, provider calls succeed and nobody
  else writes to the provider.
- Environments.ControllersDoNotInterfere: rounds are whole and successful; interleaved calls of two controllers are not modelled.
- The Aliyun provider, whose set operations and backend update repeat those of ELB, and which looks endpoints up by identifier but lists
  them by name.
- `EnsureListenerInstancePort` and `EnsureHealthCheckPort` of the ELB service, which nothing calls.
- HTTP sessions, retries and JSON of the Avi client, the AWS and F5 client libraries, the metadata and Cattle clients, the health check,
  flags, environment variables and logging: foreign code or input and output.
- Configuration and credential setup, subnet and private-cloud lookups: plumbing.
- Avi `DeletePool`, `AddPoolMember` and `RemovePoolMember`, which no provider call uses.
