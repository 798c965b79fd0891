# Ariadnion: a verified model of its supervisors, ledgers and codecs

This project models five components of Ariadnion in Dafny 4.11 and proves what
they promise. Everything here is proved by the verifier; nothing was executed.
`dafny verify dfyconfig.toml` checks the whole project.

## The components

**Module lifecycle** (`Capability.dfy`, `LifecycleGraph.dfy`, `LifecycleShutdown.dfy`,
`LifecycleModel.dfy`, `LifecycleInvariant.dfy`, `LifecyclePass.dfy`,
`LifecycleOperations.dfy`, `LifecycleSupervisor.dfy`, `LifecycleRuns.dfy`,
`LifecycleHistory.dfy`, `LifecycleCancellation.dfy`, `LifecycleMutualNeed.dfy`,
`LifecycleHandoff.dfy`, `LifecycleOutcomes.dfy`, `LifecycleCalls.dfy`,
`LifecycleSupervised.dfy`, `LifecycleServing.dfy`, `LifecycleEffects.dfy`). The supervisor resolves
capabilities, isolates every module on a dependency cycle, orders the rest,
validates and starts them in that order, probes them and stops them. The graph
algorithms (breadth-first cycle detection, Kahn's ordering, the greedy shutdown
order) are methods with loops, proved against definitions by paths. The class
`LifecycleSupervisor` is proved against functions on a `Fleet`: the managed
modules and a log of everything that was asked of factories and handles. Runs of
arbitrary operations with arbitrary answers from the environment are then
studied on fleets. `LifecycleHandoff` is a separate state machine for the way a
live handle passes between the waiting supervisor and its worker threads, with
every interleaving of waiter, deadline and any number of abandoned workers.
`LifecycleSupervised` composes the two: in every run of the fleet whose starts,
probes and stops are served by one run of the handoff, each module's handle is
what its slot holds, so ownership and shutdown-at-most-once hold of the supervisor
itself. `LifecycleServing` shows that this leaves no run out: whatever the fleet
does, some run of the handoff serves it.

**Budget ledger** (`Budget*.dfy`). Reservations are charged to every applicable
policy, then committed, released or expired. The counters are an index over the
reservation table; the invariant says that they equal the sums over it.

**Account export** (`BigEndian.dfy`, `Export*.dfy`). The bounded writer, the
canonical reader, the two digest functions, sealing and opening. Each method
equals a function on byte strings, and the round trips and injectivity results
are about those functions.

**Account circuit** (`Circuit*.dfy`, `AccountCircuit.dfy`). The
closed/open/half-open/terminal machine with probe leases and generation fencing.

**Account affinity** (`Affinity*.dfy`). Rendezvous selection and the bounded,
expiring binding table.

In each component an `*Effects.dfy` file (and `BudgetEnforcement.dfy`,
`ExportLayout.dfy`) states the answers and effects of the operations directly on
requests, records, counters, states and bytes, apart from the functions that the
methods are proved against.

`Words.dfy` holds the machine words and result types, `ByteOrder.dfy` the byte
order of identifiers.

## Where the code differs from its documentation

- Consumers are said to stop before the providers they depend on
  (`crates/ariadnion-core/src/lifecycle.rs:271`,
  `crates/ariadnion-core/src/module.rs:51-52`). A live module that is isolated by
  re-resolution or by cycle marking keeps its handle and its last bindings, so the
  dependencies among live modules may form a cycle; the order then falls back to
  priorities. `LifecycleShutdown.ConsumersFirstExactlyWhenAcyclic` proves that the
  promise holds if and only if those dependencies are acyclic.
  `LifecycleMutualNeed.MutualNeedBreaksTheOrder` gives a run of eleven operations
  on four modules that reaches such a cycle, and in whose shutdown a provider stops
  before its consumer.
- Core is said never to retry an unavailable module
  (`crates/ariadnion-core/src/lifecycle.rs:165-166`). A module marked unavailable
  while it holds a live handle is still probed, and a healthy answer makes it ready
  again. `LifecycleHistory.UnavailableReturnsExactlyWithHandle` proves that an
  unavailable module can come back if and only if it still holds its handle;
  `LifecycleMutualNeed.RevivalIsReachable` gives a run in which one does. Isolation
  cancelled the module's own token for good, so such a module is ready while the
  context it was started with is cancelled:
  `LifecycleCancellation.LiveAndCancelledExactlyAfterReturn` proves that a live
  module is cancelled if and only if a probe brought it back earlier in the run.
- A second approval is said to be mandatory at the threshold of 1 000 records
  (`crates/optional/ariadnion-account-export/src/lib.rs:55`). The code asks for it
  only above the threshold, as `ExportPlan.PreparedExact` states;
  `ExportPlan.ThresholdNeedsNoSecondApproval` prepares exactly 1 000 metadata records
  with one approval.
- A hard-limit refusal is said to change nothing
  (`crates/optional/ariadnion-account-budget/src/lib.rs:738`). Due records are
  expired before the limit is checked. `BudgetRuns.RefusalChangesNothingExactly`
  proves that a refused reservation leaves the ledger as it was if and only if no
  record was due, and `BudgetRefusal.HardLimitRefusalChangesTheLedger` gives a run
  of one policy and one reservation after which a hard-limit refusal changes it;
  `BudgetRuns.FailedReserveOnlyExpires` says that expiry is all it can change.

## Model

| member | source | states |
|---|---|---|
| `Capability.CapabilityGraph.RegisterBatch` | crates/ariadnion-core/src/capability.rs:199-207 | a batch enters whole or not at all, and is refused exactly when it would exceed the limit or repeat an identity; identities stay unique |
| `Capability.CapabilityGraph.Resolve` | crates/ariadnion-core/src/capability.rs:213-241 | the bindings are those of the specification function, whose meaning the next three rows give |
| `Capability.BoundExact` | crates/ariadnion-core/src/capability.rs:223-238 | a requirement is bound to a provider exactly when that provider offers the capability in an accepted version; otherwise the error tells absence from a wrong version |
| `Capability.ResolutionExact` | crates/ariadnion-core/src/capability.rs:213-241 | resolution succeeds with some bindings exactly when those bindings meet every requirement; there are no others |
| `Capability.ResolutionFailure` | crates/ariadnion-core/src/capability.rs:222-234 | a failure names the first requirement nobody meets |
| `Capability.AcceptedVersions` | crates/ariadnion-core/src/capability.rs:80-85 | a version is accepted exactly from the minimum on, compared as one number, and up to the last major version allowed |
| `Capability.ResolutionAnswer` | crates/ariadnion-core/src/capability.rs:213-241 | more than 256 requirements are refused; otherwise resolution succeeds exactly when some binding exists, and a failure names the first requirement nobody meets |
| `LifecycleGraph.DependencyPathReturnsTo` | crates/ariadnion-core/src/lifecycle.rs:533-547 | the search terminates and answers true exactly when a non-empty dependency path leads from the origin back to it, in every graph |
| `LifecycleGraph.CycleRemovalAcyclic` | crates/ariadnion-core/src/lifecycle.rs:328-332 | cutting off every node on a cycle leaves no cycle |
| `LifecycleGraph.DependencyOrder` | crates/ariadnion-core/src/lifecycle.rs:549-559 | lists no node twice, each after all its providers, leaves out only nodes waiting for another left-out one, and in an acyclic graph lists every active node |
| `LifecycleGraph.InitialQueue` | crates/ariadnion-core/src/lifecycle.rs:592-601 | the queue holds exactly the active nodes without providers, once each |
| `LifecycleGraph.ReleaseDependents` | crates/ariadnion-core/src/lifecycle.rs:603-617 | exactly the dependents' in-degrees fall by one, and exactly those that reach zero are queued |
| `LifecycleGraph.OrderExact` | crates/ariadnion-core/src/lifecycle.rs:549-559 | in any graph the ordering lists exactly the active nodes from which no cycle can be reached |
| `LifecycleGraph.OrderExists` | crates/ariadnion-core/src/lifecycle.rs:549-559 | an acyclic graph can always be ordered providers first |
| `LifecycleShutdown.DependentCounts` | crates/ariadnion-core/src/lifecycle.rs:928-936 | each count is the number of live modules that depend on the node |
| `LifecycleShutdown.ReleaseShutdownDependencies` | crates/ariadnion-core/src/lifecycle.rs:986-994 | after a module is stopped the counts are those of the modules that remain |
| `LifecycleShutdown.NextShutdownModule` | crates/ariadnion-core/src/lifecycle.rs:938-949 | the highest-priority, lowest-identity module among the leaves, or among all that remain when there is no leaf |
| `LifecycleShutdown.ShutdownOrder` | crates/ariadnion-core/src/lifecycle.rs:878-896 | always a permutation of exactly the modules holding handles, each pick the first eligible one |
| `LifecycleShutdown.LeafExists` | crates/ariadnion-core/src/lifecycle.rs:938-949 | in an acyclic graph something that nobody still needs always remains, so the fallback is never used |
| `LifecycleShutdown.PickIsLeaf` | crates/ariadnion-core/src/lifecycle.rs:938-949 | with acyclic dependencies every pick is a leaf at its moment |
| `LifecycleShutdown.ConsumersStopFirst` | crates/ariadnion-core/src/lifecycle.rs:878-896 | with acyclic dependencies every consumer stops before each of its providers |
| `LifecycleShutdown.ConsumersFirstExactlyWhenAcyclic` | crates/ariadnion-core/src/lifecycle.rs:269-283 | consumers stop before providers if and only if the live dependencies are acyclic |
| `LifecycleShutdown.ShutdownOrderUnique` | crates/ariadnion-core/src/lifecycle.rs:878-896 | the order is determined by who is live, who needs whom, priorities and identities |
| `LifecycleShutdown.ShutdownOrderExists` | crates/ariadnion-core/src/lifecycle.rs:878-896 | whatever is live, in whatever graph, has a shutdown order |
| `LifecycleModel.ModuleIndex` | crates/ariadnion-core/src/lifecycle.rs:619-623 | the first module with the identity, or nothing exactly when none has it |
| `LifecycleModel.GraphShape` | crates/ariadnion-core/src/lifecycle.rs:561-590 | dependency lists have no repetition and stay among the active modules |
| `LifecycleSupervisors.ActiveDependencies` | crates/ariadnion-core/src/lifecycle.rs:575-590 | the active modules a consumer is bound to, ascending, without repetition |
| `LifecycleSupervisors.CycleMembers` | crates/ariadnion-core/src/lifecycle.rs:520-531 | exactly the participating modules that lie on a dependency cycle |
| `LifecycleSupervisors.LifecycleSupervisor.constructor` | crates/ariadnion-core/src/lifecycle.rs:177-184 | a new supervisor satisfies the invariant |
| `LifecycleSupervisors.LifecycleSupervisor.Register` | crates/ariadnion-core/src/lifecycle.rs:191-212 | refused at the limit or for a known identity without any change, otherwise appended, isolated on an ABI or schema mismatch |
| `LifecycleSupervisors.LifecycleSupervisor.BuildCapabilityGraph` | crates/ariadnion-core/src/lifecycle.rs:307-313 | the graph holds the offers of the participating modules in order; a conflicting module is isolated with its batch left out |
| `LifecycleSupervisors.LifecycleSupervisor.PrepareAll` | crates/ariadnion-core/src/lifecycle.rs:220-224 | after resolution and cycle marking the dependencies among participating modules are acyclic |
| `LifecycleSupervisors.LifecycleSupervisor.ValidateAll` | crates/ariadnion-core/src/lifecycle.rs:220-229 | the order lists every participating module once, after its providers, and the fleet is the result of visiting them in it |
| `LifecycleSupervisors.LifecycleSupervisor.StartOne` | crates/ariadnion-core/src/lifecycle.rs:352-365 | answers true exactly when a handle was attached, and then none had ever been attached before |
| `LifecycleSupervisors.LifecycleSupervisor.StartAll` | crates/ariadnion-core/src/lifecycle.rs:237-246 | validation followed by a startup sweep in validation order; the startup order is always exactly the attachments of the log |
| `LifecycleSupervisors.LifecycleSupervisor.Health` | crates/ariadnion-core/src/lifecycle.rs:253-267 | every module holding a handle is probed and reported, the bounded report never overflows, and its status is the worst of a ready core and the reported ones, with the matching reason |
| `LifecycleSupervisors.LifecycleSupervisor.ShutdownAll` | crates/ariadnion-core/src/lifecycle.rs:276-283 | every live module is stopped once, in the shutdown order |
| `LifecycleOperations.CycleMarkingLeavesNone` | crates/ariadnion-core/src/lifecycle.rs:328-332 | once every cycle member is isolated the dependency graph of the rest is acyclic |
| `LifecyclePass.SweptSettles` | crates/ariadnion-core/src/lifecycle.rs:334-365 | visiting modules one after another solves an equation without order: each ends by its own outcome given how its providers ended |
| `LifecyclePass.FailureIsolation` | crates/ariadnion-core/src/lifecycle.rs:334-350 | modules closed under dependency end a sweep alike whenever their own outcomes agree, whatever happens to the others |
| `LifecyclePass.OrderIrrelevant` | crates/ariadnion-core/src/lifecycle.rs:334-350 | any two orders that respect the bindings lead to the same modules |
| `LifecycleInvariant.HealthFits` | crates/ariadnion-core/src/lifecycle.rs:677-763 | a probe, whatever it answers, keeps handle, state, generation and log in agreement |
| `LifecycleInvariant.StartFits` | crates/ariadnion-core/src/lifecycle.rs:413-475 | a start, whatever comes of it, keeps handle, state, generation and log in agreement |
| `LifecycleRuns.Reachable` | crates/ariadnion-core/src/lifecycle.rs:191-283 | the invariant holds after every run of registrations, validations, starts, probes and shutdowns |
| `LifecycleRuns.EveryOperationPossible` | crates/ariadnion-core/src/lifecycle.rs:191-283 | in every reachable state every operation can be carried out, whatever the environment answers |
| `LifecycleRuns.EachStageOnceInOrder` | crates/ariadnion-core/src/lifecycle.rs:334-382 | over any run each module is validated, started, attached and given up at most once each, in that order |
| `LifecycleRuns.HandleIsAccountedFor` | crates/ariadnion-core/src/lifecycle.rs:449-475 | a module holds a handle exactly when one was attached and never handed to shutdown or abandoned |
| `LifecycleRuns.StartupOrderSound` | crates/ariadnion-core/src/lifecycle.rs:237-246 | no module is listed twice, and when one joined, every provider it was bound to at that moment was already listed |
| `LifecycleRuns.PreparationNeverFails` | crates/ariadnion-core/src/lifecycle.rs:432-447 | a validated module always has its bindings and its generation never overflows |
| `LifecycleRuns.NothingStaysDiscovered` | crates/ariadnion-core/src/lifecycle.rs:220-229 | no module is left discovered when validation returns |
| `LifecycleRuns.NothingStaysWaiting` | crates/ariadnion-core/src/lifecycle.rs:237-246 | no module is left discovered or validated when a start returns |
| `LifecycleRuns.StartedExactly` | crates/ariadnion-core/src/lifecycle.rs:352-365 | a validated module gets a handle exactly when all its providers end up ready or degraded and its factory delivers one in time |
| `LifecycleRuns.StartIsolation` | crates/ariadnion-core/src/lifecycle.rs:231-246 | a module and all it transitively needs end a start the same way whatever happens to other factories |
| `LifecycleEffects.RegistrationEffect` | crates/ariadnion-core/src/lifecycle.rs:191-212 | which registrations are refused, and that an accepted module enters discovered, or isolated with a conflict exactly on a foreign contract or schema |
| `LifecycleEffects.PreparationEffect` | crates/ariadnion-core/src/lifecycle.rs:307-332 | a participating module is isolated exactly when its offer conflicts, a requirement is unmet or it lies on a cycle, each with its own error; otherwise it is bound, and others stay as they are |
| `LifecycleEffects.ValidatedExactly` | crates/ariadnion-core/src/lifecycle.rs:639-675 | a discovered module ends validated if and only if its providers end validated or serving and its factory completes without error; otherwise it is isolated with the factory's error, the missed deadline or unavailability |
| `LifecycleEffects.ReadyExactly` | crates/ariadnion-core/src/lifecycle.rs:449-475 | a validated module ends ready with the delivered handle if and only if its providers end serving and its factory delivers one; otherwise it is isolated without one, with the reason |
| `LifecycleEffects.ProbeEffect` | crates/ariadnion-core/src/lifecycle.rs:711-784 | an answer in health becomes the module's state; any other isolates it with the reason and takes its handle unless no worker could be spawned to stop it |
| `LifecycleEffects.StopEffect` | crates/ariadnion-core/src/lifecycle.rs:786-834 | a stop completed in peace ends the module; any other isolates it with the reason, and only a stop without a worker leaves the handle |
| `LifecycleEffects.PriorityDecides` | crates/ariadnion-core/src/lifecycle.rs:938-984 | of two modules that nobody left needs, the one with the higher priority stops first, then the one with the lower identity |
| `LifecycleSupervisors.StatusByPrecedence` | crates/ariadnion-core/src/lifecycle.rs:253-267 | the worst status in words: one failed probe makes the report unavailable, else one degraded module degraded, else one live module live, with the matching reason |
| `LifecycleHistory.RunContinues` | crates/ariadnion-core/src/lifecycle.rs:191-283 | over any stretch of any run retired modules never change again and a handle is kept or given up, never replaced |
| `LifecycleHistory.UnavailableReturnsExactlyWithHandle` | crates/ariadnion-core/src/lifecycle.rs:738-749 | an unavailable module can take part again if and only if it still holds its handle |
| `LifecycleCancellation.LiveAndCancelledExactlyAfterReturn` | crates/ariadnion-core/src/lifecycle.rs:738-763 | over any run a live module's own token is cancelled if and only if a probe brought the module back from unavailability before |
| `LifecycleMutualNeed.IdentitiesAreAccepted` | crates/ariadnion-core/src/ids.rs:87-143 | the module and capability identities of the next two rows' run are ones the parsers accept, and its schema is a valid namespace |
| `LifecycleMutualNeed.RevivalIsReachable` | crates/ariadnion-core/src/lifecycle.rs:738-749 | a run reaches an unavailable module that holds its handle, and a later probe makes it ready again |
| `LifecycleMutualNeed.MutualNeedBreaksTheOrder` | crates/ariadnion-core/src/lifecycle.rs:269-283 | a run reaches live modules that need each other, and whatever the shutdown order, a provider stops before its consumer |
| `LifecycleHistory.ShutdownReachesEveryone` | crates/ariadnion-core/src/lifecycle.rs:276-283 | every live module ends by its own outcome, keeps a handle only when its worker could not be spawned, and calls happen in shutdown order |
| `LifecycleHistory.ShutdownRespectsDependencies` | crates/ariadnion-core/src/lifecycle.rs:269-283 | on the modules themselves: consumers first if and only if the live dependencies are acyclic |
| `LifecycleHistory.ShutdownIsDeterministic` | crates/ariadnion-core/src/lifecycle.rs:878-896 | there is only one shutdown order |
| `LifecycleHandoff.StepMoves` | crates/ariadnion-core/src/lifecycle.rs:1047-1106 | a step of any party moves at most one handle or delivers a new one, and disturbs no other |
| `LifecycleHandoff.ExactlyOneOwner` | crates/ariadnion-core/src/lifecycle.rs:413-485 | in every interleaving each delivered handle is in exactly one place: slot, cell, worker, result, or gone |
| `LifecycleHandoff.CompletedAlwaysCarriesTheHandle` | crates/ariadnion-core/src/lifecycle.rs:711-725 | a worker always finds its handle, and a probe or a stop never completes without one |
| `LifecycleHandoff.ResultTakenOnce` | crates/ariadnion-core/src/lifecycle.rs:1073-1106 | a finished worker's result is taken by exactly one of waiter and cleanup |
| `LifecycleHandoff.ShutdownCalledOnce` | crates/ariadnion-core/src/lifecycle.rs:786-866 | shutdown is called at most once per handle, always before it is dropped, never for one in a slot |
| `LifecycleHandoff.NothingLeaks` | crates/ariadnion-core/src/lifecycle.rs:857-876 | at rest every handle ever delivered is in its slot untouched, or was shut down exactly once and dropped |
| `LifecycleHandoff.UseEnds` | crates/ariadnion-core/src/lifecycle.rs:677-834 | from taking a handle out of its slot until the supervisor goes on, only that slot changes, and the handle is back exactly when no worker could be spawned or a probe completed |
| `LifecycleHandoff.StartEnds` | crates/ariadnion-core/src/lifecycle.rs:413-485 | a start fills its slot exactly when the supervisor took a delivered handle, and touches no other slot |
| `LifecycleOutcomes.StopAgrees` | crates/ariadnion-core/src/lifecycle.rs:786-834 | the slot after a stop holds what the shutdown operation keeps, for each way the worker can end |
| `LifecycleOutcomes.ProbeAgrees` | crates/ariadnion-core/src/lifecycle.rs:677-763 | the slot after a probe holds what the refreshed module keeps, or what is then retired |
| `LifecycleOutcomes.StartAgrees` | crates/ariadnion-core/src/lifecycle.rs:413-475 | the slot after a start holds the handle that the started module has |
| `LifecycleSupervised.HandlesAreSlots` | crates/ariadnion-core/src/lifecycle.rs:413-485 | in every run served by a run of the handoff, each module's handle between operations is exactly what its slot holds |
| `LifecycleSupervised.ModulesOwnTheirHandles` | crates/ariadnion-core/src/lifecycle.rs:449-475 | a handle a module holds is owned by it alone, in every interleaving, and its shutdown was never called |
| `LifecycleSupervised.EveryHandleIsHeldOrRetired` | crates/ariadnion-core/src/lifecycle.rs:857-876 | once the workers rest, every handle a factory ever delivered is held by its module or was shut down exactly once |
| `LifecycleServing.SupervisedRunsGoOn` | crates/ariadnion-core/src/lifecycle.rs:191-283 | every run served by the handoff goes on with every operation and every answer of the environment, provided that a delivered handle is the next one and that a completed probe or stop comes with its handle, as `LifecycleHandoff.CompletedAlwaysCarriesTheHandle` says it does |
| `LifecycleServing.EveryRunIsSupervised` | crates/ariadnion-core/src/lifecycle.rs:191-283 | every run of the fleet with such answers, its handles numbered as they are delivered, is served by some run of the handoff, so the three rows above speak of all runs |
| `LifecycleHandoff.SomeoneCanMove` | crates/ariadnion-core/src/lifecycle.rs:1093-1106 | unless all is at rest some party can take a step |
| `LifecycleHandoff.EveryStepMakesProgress` | crates/ariadnion-core/src/lifecycle.rs:1047-1106 | without new operations only finitely many steps remain |
| `BudgetBooks.BudgetBook.New` | crates/optional/ariadnion-account-budget/src/lib.rs:862-884 | opens exactly when within the bound and clash-free; otherwise names the first clash |
| `BudgetBooks.BudgetBook.ValidateCapacity` | crates/optional/ariadnion-account-budget/src/lib.rs:1016-1064 | the verdict over all applicable policies: overflow, hard breach with its scope, or the soft breaches |
| `BudgetBooks.BudgetBook.ReserveCapacity` | crates/optional/ariadnion-account-budget/src/lib.rs:1074-1095 | exactly the listed policies' reserved counters grow by the amount |
| `BudgetBooks.BudgetBook.InsertReservation` | crates/optional/ariadnion-account-budget/src/reservation.rs:93-111 | an admitted request is recorded and charged, a refused one changes nothing |
| `BudgetBooks.BudgetBook.ApplyTransitionUsage` | crates/optional/ariadnion-account-budget/src/lib.rs:1135-1167 | never fails on a reserved record and moves its amount in every policy it was charged to |
| `BudgetBooks.BudgetBook.ExpireRecords` | crates/optional/ariadnion-account-budget/src/lib.rs:1169-1193 | never fails, expires exactly the due records and returns their amounts to their policies |
| `BudgetBooks.BudgetBook.Reserve` | crates/optional/ariadnion-account-budget/src/reservation.rs:48-59 | expiry first, then replay or admission |
| `BudgetBooks.BudgetBook.ReserveFresh` | crates/optional/ariadnion-account-budget/src/reservation.rs:78-89 | a known identity is refused with no change at all, not even expiry |
| `BudgetBooks.BudgetBook.Commit` | crates/optional/ariadnion-account-budget/src/lib.rs:893-895 | settles a reserved record; its policies always exist and can bear the move |
| `BudgetBooks.BudgetBook.Release` | crates/optional/ariadnion-account-budget/src/lib.rs:904-906 | releases a reserved record; its policies always exist and can bear the move |
| `BudgetBooks.BudgetBook.Expire` | crates/optional/ariadnion-account-budget/src/lib.rs:915-921 | always succeeds and answers the number of due records |
| `BudgetRuns.LedgerConserved` | crates/optional/ariadnion-account-budget/src/lib.rs:701-733 | after any run each policy's counters equal the sums over reserved and committed records, fit 64 bits, and hard limits hold |
| `BudgetRuns.SettlingIsTotalAndIdempotent` | crates/optional/ariadnion-account-budget/src/lib.rs:1110-1133 | commit and release succeed exactly on records reserved or already settled that way, and a repeat returns the same receipt and changes nothing |
| `BudgetRuns.RunRetains` | crates/optional/ariadnion-account-budget/src/lib.rs:1110-1133 | records never disappear, keep their terms, and final states stay final |
| `BudgetRuns.UsageGrowsOnlyByCharging` | crates/optional/ariadnion-account-budget/src/lib.rs:1074-1095 | a policy's usage never grows except by the amount of a newly charged reservation |
| `BudgetRuns.ChargedAtMostOnce` | crates/optional/ariadnion-account-budget/src/reservation.rs:48-89 | over any run no reservation identity is charged twice |
| `BudgetRuns.FailedReserveOnlyExpires` | crates/optional/ariadnion-account-budget/src/reservation.rs:48-89 | a failed reserve leaves exactly the state after expiry; a fresh reserve refused as a duplicate leaves the state untouched |
| `BudgetRuns.RefusalChangesNothingExactly` | crates/optional/ariadnion-account-budget/src/reservation.rs:48-89 | a refused reserve leaves the ledger as it was if and only if nothing was due; a refused fresh reserve, if and only if nothing was due or the identity was known |
| `BudgetRefusal.HardLimitRefusalChangesTheLedger` | crates/optional/ariadnion-account-budget/src/lib.rs:735-739 | a run after which a reservation refused by a hard limit changes the ledger |
| `BudgetRuns.ReplayReturnsOriginalReceipt` | crates/optional/ariadnion-account-budget/src/lib.rs:1097-1108 | replaying a request that is still reserved after expiry returns the original receipt and charges nothing, after any commands in between |
| `BudgetRuns.BatchExpiryIsAnyOrder` | crates/optional/ariadnion-account-budget/src/lib.rs:1135-1223 | batch expiry with aggregated decrements equals expiring the due records one at a time, in any order |
| `BudgetRuns.AtMostThreeApply` | crates/optional/ariadnion-account-budget/src/lib.rs:998-1014 | at most three policies apply to a request |
| `BudgetRuns.VerdictIgnoresOrder` | crates/optional/ariadnion-account-budget/src/lib.rs:1016-1064 | whether and in which scope a request is refused does not depend on the iteration order |
| `BudgetRuns.AccountRefusalIsOnePolicy` | crates/optional/ariadnion-account-budget/src/lib.rs:1039-1064 | an account-local refusal means that the one account policy is the only hard breach |
| `BudgetEnforcement.ChargedExactlyWhereOwed` | crates/optional/ariadnion-account-budget/src/lib.rs:396-408 | after any run a record is charged to a policy if and only if the currencies agree and the scope is its tenant, its group or its account within the tenant |
| `BudgetEnforcement.SpendingStaysWithinLimits` | crates/optional/ariadnion-account-budget/src/lib.rs:1016-1064 | after any run what a tenant, group or account has reserved and committed in a currency is what its policy counts, and at most its limit when that is hard |
| `BudgetEffects.NewReservationAnswer` | crates/optional/ariadnion-account-budget/src/lib.rs:984-1064 | which answer a new identity gets: the first of lateness, a full table, no policy, overflow, a hard limit with its scope, or admission, after what is due has expired |
| `BudgetEffects.NewReservationEffect` | crates/optional/ariadnion-account-budget/src/lib.rs:1074-1095 | an admitted request is charged once to exactly the policies it falls under, recorded, and receipted with these and the soft limits crossed, in order |
| `BudgetEffects.KnownReservationAnswer` | crates/optional/ariadnion-account-budget/src/lib.rs:1097-1108 | a known identity gets its receipt exactly for the same request while reserved and not due, and otherwise the matching refusal |
| `BudgetEffects.ExpiryEffect` | crates/optional/ariadnion-account-budget/src/lib.rs:1169-1223 | exactly the reserved records whose deadline has come expire; counters follow the table |
| `BudgetEffects.SettlementEffect` | crates/optional/ariadnion-account-budget/src/lib.rs:1110-1167 | which answer a commit or release gets, and that it moves exactly the record's amount out of what its policies have reserved, into committed on commit |
| `BudgetEffects.OpeningAnswer` | crates/optional/ariadnion-account-budget/src/lib.rs:969-982 | a policy clashes exactly with an earlier one of the same identity, or of the same scope and currency |
| `ExportCodec.SerializeRecords` | crates/optional/ariadnion-account-export/src/crypto.rs:350-381 | the sorted records' encoding, or the size error exactly when it exceeds the bound |
| `ExportParser.ParseRecords` | crates/optional/ariadnion-account-export/src/crypto.rs:497-622 | succeeds exactly on payloads of sorted records of the tenant with the expected count, and returns those records |
| `ExportParser.ParseAfterSerialize` | crates/optional/ariadnion-account-export/src/crypto.rs:497-535 | parsing what was serialized returns the records in canonical order |
| `ExportParser.SerializeAfterParse` | crates/optional/ariadnion-account-export/src/crypto.rs:497-622 | whatever parses within the bound is exactly what serializing the result gives, so no list has two accepted encodings |
| `ExportModel.PayloadInjective` | crates/optional/ariadnion-account-export/src/crypto.rs:350-381 | two record lists with one payload are equal |
| `ExportModel.MetadataFits` | crates/optional/ariadnion-account-export/src/crypto.rs:50-56 | any admissible number of metadata-only records fits the plaintext bound |
| `ExportSort.SortIgnoresOrder` | crates/optional/ariadnion-account-export/src/crypto.rs:350-363 | sorting by account gives one result for every order of the same records |
| `ExportDigest.ManifestDigest` | crates/optional/ariadnion-account-export/src/lib.rs:942-975 | the digest of the sorted records' preimage |
| `ExportDigest.ManifestDigestFromParts` | crates/optional/ariadnion-account-export/src/lib.rs:977-1021 | the separately written digest hashes the same preimage |
| `ExportDigest.PreimageIgnoresOrder` | crates/optional/ariadnion-account-export/src/lib.rs:942-1021 | both digests agree under any order of the same records |
| `ExportDigest.PreimageDeterminesRecords` | crates/optional/ariadnion-account-export/src/lib.rs:993-1021 | equal preimages mean equal sorted records |
| `ExportPlan.ValidateRecords` | crates/optional/ariadnion-account-export/src/lib.rs:894-940 | the fault of the first faulty record, if any |
| `ExportPlan.FaultlessExact` | crates/optional/ariadnion-account-export/src/lib.rs:894-940 | faultless exactly when all records are the tenant's, carry required references and repeat no account |
| `ExportPlan.Prepare` | crates/optional/ariadnion-account-export/src/lib.rs:643-669 | refuses by the first failing requirement, otherwise builds the projected plan and its manifest |
| `ExportPlan.PreparedExact` | crates/optional/ariadnion-account-export/src/lib.rs:643-669 | preparation succeeds exactly inside the window, within bounds, with the approvals and for faultless records |
| `ExportPlan.ThresholdNeedsNoSecondApproval` | crates/optional/ariadnion-account-export/src/lib.rs:880-892 | an export of exactly the threshold's number of metadata records is prepared without a second approval |
| `ExportPlan.PreparedWellFormed` | crates/optional/ariadnion-account-export/src/lib.rs:643-669 | every prepared plan has a matching count, tenant, shape and digest |
| `ExportEffects.PlanComesFromRequest` | crates/optional/ariadnion-account-export/src/lib.rs:643-669 | a plan holds its authorization; its manifest takes over batch, tenant, fields, watermark and expiry; each record keeps tenant, account and both versions, and its secret exactly when references were asked for |
| `ExportEffects.PreparationAnswer` | crates/optional/ariadnion-account-export/src/lib.rs:854-940 | which answer a request gets, from the first requirement it misses, down to the first faulty record and its fault |
| `ExportSeal.AssociatedDataFits` | crates/optional/ariadnion-account-export/src/crypto.rs:383-403 | the associated data of every manifest is at most 509 bytes and so within its bound |
| `ExportSeal.ManifestBytesInjective` | crates/optional/ariadnion-account-export/src/crypto.rs:392-403 | the manifest's bytes determine the manifest |
| `ExportSeal.SignedBytesInjective` | crates/optional/ariadnion-account-export/src/crypto.rs:483-495 | what is signed determines both the manifest and the ciphertext |
| `ExportSeal.ParseEnvelope` | crates/optional/ariadnion-account-export/src/crypto.rs:449-459 | accepts exactly the envelopes that building produces and returns their parts |
| `ExportSeal.Seal` | crates/optional/ariadnion-account-export/src/crypto.rs:248-265 | refuses at the expiry instant; otherwise encrypts the canonical payload under the manifest and signs the envelope |
| `ExportSeal.VerifyAndOpen` | crates/optional/ariadnion-account-export/src/crypto.rs:317-334 | expiry, signature, envelope, decryption, canonical parse and revalidation, each failing with its own error |
| `ExportSeal.SealExact` | crates/optional/ariadnion-account-export/src/crypto.rs:248-265 | a plan seals exactly when it has not expired and its serialization fits |
| `ExportSeal.MetadataPlansSeal` | crates/optional/ariadnion-account-export/src/crypto.rs:248-265 | every prepared metadata-only plan can be sealed before it expires |
| `ExportSeal.RoundTrip` | crates/optional/ariadnion-account-export/src/crypto.rs:248-334 | opening what was sealed from a prepared plan returns its manifest and its records sorted by account |
| `ExportSeal.LawfulPrimitivesExist` | crates/optional/ariadnion-account-export/src/crypto.rs:405-429 | primitives with the assumed round-trip laws exist, so results that assume them are not empty |
| `ExportSeal.OpenedIsConsistent` | crates/optional/ariadnion-account-export/src/crypto.rs:624-647 | whatever opens carries canonical records of the manifest's tenant, count, shape and digest |
| `ExportSeal.ManifestFixesRecords` | crates/optional/ariadnion-account-export/src/crypto.rs:624-647 | artifacts with one manifest open to the same records unless the digest collides |
| `ExportEffects.SealsUntilAuthorizationExpires` | crates/optional/ariadnion-account-export/src/crypto.rs:248-265 | a prepared plan seals if and only if its authorization has not expired and it fits; each failure has its own error |
| `ExportEffects.OpensUntilAuthorizationExpires` | crates/optional/ariadnion-account-export/src/crypto.rs:317-334 | the artifact of a prepared plan opens exactly until its authorization expires, to the records handed in, so reduced, in the order of accounts |
| `ExportEffects.OpeningAnswer` | crates/optional/ariadnion-account-export/src/crypto.rs:317-334 | opening answers expiry first, then a bad signature, then every other failure alike |
| `ExportEffects.NoOtherManifestOpens` | crates/optional/ariadnion-account-export/src/crypto.rs:405-429 | a sealed ciphertext opens under no other manifest, whatever signature comes with it, if encryption tells the two associated texts apart |
| `ExportEffects.SeparatingPrimitivesExist` | crates/optional/ariadnion-account-export/src/crypto.rs:405-429 | lawful primitives that tell two associated texts apart exist, so the row above is not empty |
| `ExportEffects.SignatureBindsArtifact` | crates/optional/ariadnion-account-export/src/crypto.rs:461-495 | a signature that verifies only for what was signed lets no other manifest or ciphertext pass |
| `ExportEffects.PreimageDeterminesManifest` | crates/optional/ariadnion-account-export/src/lib.rs:977-1021 | what is hashed determines the whole manifest but its digest, and the records up to order |
| `ExportLayout.PayloadLayout` | crates/optional/ariadnion-account-export/src/crypto.rs:350-363 | header and records stand one after the other, at counted offsets |
| `ExportLayout.RecordLayout` | crates/optional/ariadnion-account-export/src/crypto.rs:365-373 | account, versions and secret flag stand at counted offsets |
| `ExportLayout.SecretLayout` | crates/optional/ariadnion-account-export/src/crypto.rs:375-381 | provider, path, version and purpose stand at counted offsets |
| `ExportLayout.ManifestLayout` | crates/optional/ariadnion-account-export/src/crypto.rs:392-403 | every manifest field stands at a counted offset |
| `ExportLayout.SignatureLayout` | crates/optional/ariadnion-account-export/src/crypto.rs:483-495 | domain, associated data and ciphertext stand at counted offsets with their lengths |
| `ExportLayout.DigestHeaderLayout` | crates/optional/ariadnion-account-export/src/lib.rs:942-991 | everything hashed before the records stands at a counted offset |
| `AccountCircuits.AccountCircuit.constructor` | crates/optional/ariadnion-account-circuit/src/lib.rs:580-590 | a new circuit is closed and satisfies the invariant |
| `AccountCircuits.AccountCircuit.Observe` | crates/optional/ariadnion-account-circuit/src/lib.rs:612-637 | the transition of the specification, including every refusal that changes nothing |
| `AccountCircuits.AccountCircuit.AcquireProbe` | crates/optional/ariadnion-account-circuit/src/lib.rs:639-671 | admission as specified, reopening the circuit when a lease had expired |
| `AccountCircuits.AccountCircuit.ValidateProbe` | crates/optional/ariadnion-account-circuit/src/lib.rs:673-698 | validation as specified, reopening the circuit when the lease has expired |
| `AccountCircuits.AccountCircuit.CompleteProbe` | crates/optional/ariadnion-account-circuit/src/lib.rs:700-735 | the lease is consumed once and its outcome closes, reopens, ends or continues recovery |
| `AccountCircuits.AccountCircuit.Reset` | crates/optional/ariadnion-account-circuit/src/lib.rs:737-766 | a fenced reset to closed that revokes all leases |
| `CircuitRuns.ReachableShape` | crates/optional/ariadnion-account-circuit/src/lib.rs:824-925 | in every reachable state in-flight equals the leases and is bounded, leases exist only half-open, eligibility is opening plus window, failures stay below the threshold when closed |
| `CircuitRuns.FailuresChangeNothing` | crates/optional/ariadnion-account-circuit/src/lib.rs:612-761 | a failed command changes nothing unless a lease had expired, which reopens the circuit; the missing-state error is unreachable |
| `CircuitRuns.ObserveExhaustion` | crates/optional/ariadnion-account-circuit/src/lib.rs:824-851 | observation runs out of numbers only for the generation or the recovery time, never for the failure counter |
| `CircuitRuns.AdmissionExact` | crates/optional/ariadnion-account-circuit/src/lib.rs:986-1065 | exactly when a probe is admitted |
| `CircuitRecovery.CompletionExact` | crates/optional/ariadnion-account-circuit/src/lib.rs:700-735 | exactly when a completion is accepted: a current, outstanding, unexpired lease, clocks in order, and no counter exhausted |
| `CircuitRecovery.CompletionExhaustion` | crates/optional/ariadnion-account-circuit/src/lib.rs:895-985 | exactly when a completion runs out of numbers: the generation, the recovery time or the recovery counter |
| `CircuitRecovery.RecoveryCounterOverflowsExactlyWithOverlap` | crates/optional/ariadnion-account-circuit/src/lib.rs:895-925 | a run can overflow the recovery counter if and only if the policy lets probes overlap |
| `CircuitRuns.GenerationsNeverFall` | crates/optional/ariadnion-account-circuit/src/lib.rs:612-761 | generations and lease numbers only grow |
| `CircuitRuns.LeaseIdsNeverRepeat` | crates/optional/ariadnion-account-circuit/src/lib.rs:871-893 | over any run no lease identity is issued twice |
| `CircuitRuns.AcceptedAtMostOnce` | crates/optional/ariadnion-account-circuit/src/lib.rs:700-735 | over any run each lease is accepted at most once |
| `CircuitRuns.OutstandingAreCurrent` | crates/optional/ariadnion-account-circuit/src/lib.rs:1051-1065 | outstanding leases were issued earlier in the run and carry the current generation |
| `CircuitRuns.AcceptanceIsFenced` | crates/optional/ariadnion-account-circuit/src/lib.rs:927-946 | an accepted lease was presented before its expiry and no generation change came between |
| `CircuitRuns.ClosingIsEarned` | crates/optional/ariadnion-account-circuit/src/lib.rs:895-925 | without a reset an open circuit closes only after the required number of successful probes |
| `CircuitRuns.TerminalUntilReset` | crates/optional/ariadnion-account-circuit/src/lib.rs:1084-1090 | a terminal circuit never changes until a reset |
| `CircuitEffects.ObservationEffect` | crates/optional/ariadnion-account-circuit/src/lib.rs:824-869 | success clears the failures, a neutral outcome keeps them, a retryable one adds one and opens exactly at the threshold, a terminal one ends the circuit |
| `CircuitEffects.ObservationAnswer` | crates/optional/ariadnion-account-circuit/src/lib.rs:612-637 | which answer an observation gets, from the first requirement it misses; a refused one changes nothing |
| `CircuitEffects.AdmissionEffect` | crates/optional/ariadnion-account-circuit/src/lib.rs:871-893 | the lease granted and the half-open circuit left, field by field |
| `CircuitEffects.AdmissionAnswer` | crates/optional/ariadnion-account-circuit/src/lib.rs:986-1065 | which answer a request for a probe gets, from the first requirement it misses |
| `CircuitEffects.RefusedAdmissionEffect` | crates/optional/ariadnion-account-circuit/src/lib.rs:996-1015 | a refused request changes nothing, unless a lease ran out, which reopens the circuit with its failures kept |
| `CircuitEffects.ValidationAnswer` | crates/optional/ariadnion-account-circuit/src/lib.rs:673-698 | revalidation succeeds exactly on an outstanding current lease before its expiry, and which answer it gets otherwise |
| `CircuitEffects.CompletionAnswer` | crates/optional/ariadnion-account-circuit/src/lib.rs:927-962 | which answer a completion gets and what a refused one leaves |
| `CircuitEffects.CompletionEffect` | crates/optional/ariadnion-account-circuit/src/lib.rs:895-984 | a terminal failure ends the circuit, a retryable one reopens it, a success counts one and a neutral outcome none; the circuit closes exactly when enough succeeded and no other lease is out, and otherwise loses exactly that lease |
| `CircuitEffects.ResetEffect` | crates/optional/ariadnion-account-circuit/src/lib.rs:737-766 | a reset closes exactly a terminal circuit of the expected generation, and which answer it gets otherwise |
| `AffinityRegistries.AffinityRegistry.DeterministicCandidate` | crates/optional/ariadnion-account-affinity/src/lib.rs:783-803 | the candidate with the least score, the first of equals |
| `AffinityRegistries.AffinityRegistry.Select` | crates/optional/ariadnion-account-affinity/src/lib.rs:597-613 | the live binding's candidate if still offered, otherwise the ranked one |
| `AffinityRegistries.AffinityRegistry.Assign` | crates/optional/ariadnion-account-affinity/src/lib.rs:623-648 | prunes before the capacity check and is failure-atomic all the same |
| `AffinityRegistries.AffinityRegistry.Expire` | crates/optional/ariadnion-account-affinity/src/lib.rs:654-673 | removes exactly the expired bindings and advances the generation only if there were any |
| `AffinityRegistries.AffinityRegistry.RotateEpoch` | crates/optional/ariadnion-account-affinity/src/lib.rs:681-698 | fenced by the expected generation, empties the table and advances both counters |
| `AffinityRuns.AssignAgreesWithSelect` | crates/optional/ariadnion-account-affinity/src/lib.rs:597-648 | a successful assignment picks what selection would have picked and keeps it until expiry; a failed one changes nothing |
| `AffinityRuns.ChoiceSurvives` | crates/optional/ariadnion-account-affinity/src/lib.rs:783-803 | without score collisions the choice survives removal of any unselected candidates |
| `AffinityRuns.ChoiceIgnoresOrder` | crates/optional/ariadnion-account-affinity/src/lib.rs:783-803 | without score collisions the choice ignores the order of candidates |
| `AffinityRuns.AdditionMovesOnlyToTheNew` | crates/optional/ariadnion-account-affinity/src/lib.rs:783-803 | a new candidate can only take keys over for itself |
| `AffinityModel.SelectPreimageInjective` | crates/optional/ariadnion-account-affinity/src/lib.rs:789-795 | what is hashed for a candidate determines the candidate |
| `AffinityRuns.CollisionFreeDigest` | crates/optional/ariadnion-account-affinity/src/lib.rs:788-799 | a digest that does not collide on those preimages ranks without ties |
| `AffinityRuns.RunInv` | crates/optional/ariadnion-account-affinity/src/lib.rs:776-781 | every reachable table is within capacity and holds only the tenant's bindings of the current epoch |
| `AffinityRuns.AssignmentSticks` | crates/optional/ariadnion-account-affinity/src/lib.rs:744-774 | until it expires, and while its candidate is offered, every selection returns the assigned candidate |
| `AffinityRuns.RotationFencesKeys` | crates/optional/ariadnion-account-affinity/src/lib.rs:681-742 | after a rotation no key of an earlier epoch is ever served again |
| `AffinityEffects.PreimageDeterminesKey` | crates/optional/ariadnion-account-affinity/src/lib.rs:788-795 | two pairs are hashed from the same bytes if and only if scope, epoch, key identity and candidate agree |
| `AffinityEffects.NoTwoAlike` | crates/optional/ariadnion-account-affinity/src/lib.rs:788-799 | a digest without collisions on what is offered scores two pairs of key and candidate alike only when scope, epoch, identity and candidate agree |
| `AffinityEffects.KeysChooseIndependently` | crates/optional/ariadnion-account-affinity/src/lib.rs:783-803 | for two keys that differ in what is hashed and any two candidates some digest gives each key its own |
| `AffinityEffects.SelectionAnswer` | crates/optional/ariadnion-account-affinity/src/lib.rs:597-613 | which answer selection gives: a refusal, the bound candidate while unexpired and offered, or the first of the least scored |
| `AffinityEffects.AssignmentEffect` | crates/optional/ariadnion-account-affinity/src/lib.rs:623-648 | the new binding, for the selected candidate until now plus the time to live, beside exactly the other keys' unexpired bindings, one generation later |
| `AffinityEffects.AssignmentAnswer` | crates/optional/ariadnion-account-affinity/src/lib.rs:623-648 | which answer an assignment gets, from the first requirement it misses; a refused one changes nothing |
| `AffinityEffects.ExpiryEffect` | crates/optional/ariadnion-account-affinity/src/lib.rs:654-673 | exactly the lapsed bindings leave and are counted, and a generation passes only if there were any |
| `AffinityEffects.RotationEffect` | crates/optional/ariadnion-account-affinity/src/lib.rs:681-698 | rotation under the expected generation empties the table and advances both counters by one; otherwise nothing changes |

## Left out

- Cryptography: Ed25519, the AEAD, SHA-256 and SHA-512 are function parameters; `ExportSeal.Lawful` states the round-trip laws the results need, digests are treated through their byte preimages, and no secrecy is claimed.
- Locks and their poisoning, condition variables, threads and clocks: times are plain numbers, and in `LifecycleHandoff` every access under a lock is one atomic step and a deadline may pass at any moment.
- LifecycleSupervised.HandlesAreSlots: the workers that run factory validation carry no handle and are not part of the handoff; a validation is served by the supervisor waiting for no handle.
- LifecycleSupervisors.LifecycleSupervisor.Health: the report's timestamp and the modules' own reason codes are not modelled.
- LifecycleSupervisors.ActiveDependencies: the standard sort and removal of duplicates are modelled by insertion into an ascending list, that is, by their result; likewise sorting in the shutdown order and in the export.
- LifecycleHandoff.EveryStepMakesProgress: assumes that calls into modules return; a module that blocks for ever keeps its worker, and the handle stays owned by that worker.
- LifecycleHandoff.ExactlyOneOwner: relies on a module having no handle when it is started, which `LifecycleInvariant.Fits` establishes for validated modules.
- `context.rs`: wake-ups of cancellation tokens are not modelled; a module's own token is a flag.
- Module descriptors: only the fields the supervisor reads; namespaces, budgets and paths are left out, as are the reports, which project the modelled fields.
- Identifier alphabets of the budget, circuit and lifecycle components: identifiers are arbitrary byte strings, of which the valid ones are a subset.
- `BudgetPolicyBook` and its snapshots, and the usage query: they only read or republish the modelled state.
- `ExportAuthorization::new` and the principals' distinctness: the authorization is taken as constructed.
- Quota, health, proxy, pool and import snapshot publishers, batch and vault ports, bundles, migrations and error tables: they would add only easy members.
